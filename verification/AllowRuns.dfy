/** Over all runs of setting and pruning profiles: what the index answers, when it agrees with
    the list, and what a list read back from its file restores. */
module AllowRuns {
  import opened Options
  import opened AllowState

  datatype Op = Set(p: Profile) | PruneAll(valid: UidCheck)

  function Step(st: State, op: Op): State {
    match op
    case Set(p) => SetProfile(st, p)
    case PruneAll(valid) => Prune(st, valid)
  }

  function Run(st: State, ops: seq<Op>): State
    decreases |ops|
  {
    if ops == [] then st else Run(Step(st, ops[0]), ops[1..])
  }

  // -------- Pruning, as a filter --------

  predicate PrunedUid(list: seq<Profile>, valid: UidCheck, uid: nat) {
    exists p :: p in list && p.uid == uid && !Kept(p, valid)
  }

  function KeptIn(list: seq<Profile>, valid: UidCheck): seq<Profile> {
    if list == [] then [] else (if Kept(list[0], valid) then [list[0]] else []) + KeptIn(list[1..], valid)
  }

  lemma WithoutMember(cells: seq<nat>, uid: nat, u: nat)
    ensures u in Without(cells, uid) <==> u in cells && u != uid
  {
  }

  lemma UnindexAt(st: State, uid: nat, u: nat)
    ensures Indexed(Unindex(st, uid), u) <==> Indexed(st, u) && u != uid
  {
    WithoutMember(st.cells, uid, u);
  }

  lemma PrunedUidHead(p: Profile, rest: seq<Profile>, valid: UidCheck, u: nat)
    ensures PrunedUid([p] + rest, valid, u) <==> (p.uid == u && !Kept(p, valid)) || PrunedUid(rest, valid, u)
    ensures !PrunedUid([], valid, u)
    ensures KeptIn([p] + rest, valid) == (if Kept(p, valid) then [p] else []) + KeptIn(rest, valid)
  {
    hide Kept;
    assert p in [p] + rest && forall q | q in rest :: q in [p] + rest;
    assert ([p] + rest)[1..] == rest;
  }

  lemma PruneStep(st: State, i: nat, valid: UidCheck)
    requires i <= |st.list|
    ensures PruneFrom(st, i, valid) ==
            if i == |st.list| then st
            else if Kept(st.list[i], valid) then PruneFrom(st, i + 1, valid)
            else PruneFrom(Unindex(st, st.list[i].uid).(list := st.list[..i] + st.list[i + 1..]), i, valid)
  {
  }

  lemma KeptSplit(list: seq<Profile>, i: nat, valid: UidCheck)
    requires i < |list|
    ensures var p, rest := list[i], list[i + 1..];
            && (Kept(p, valid) ==> list[..i] + KeptIn(list[i..], valid) == list[..i + 1] + KeptIn(rest, valid))
            && (!Kept(p, valid) ==> KeptIn(list[i..], valid) == KeptIn(rest, valid))
            && (list[..i] + rest)[..i] == list[..i] && (list[..i] + rest)[i..] == rest
  {
    hide Kept;
    var front, p, rest := list[..i], list[i], list[i + 1..];
    assert list[i..] == [p] + rest && list[..i + 1] == front + [p];
    PrunedUidHead(p, rest, valid, 0);
    hide KeptIn;
    var kept := KeptIn(rest, valid);
    if Kept(p, valid) {
      assert (front + [p]) + kept == front + ([p] + kept);
    } else {
      assert [] + kept == kept;
    }
  }

  lemma {:induction false} PruneFromList(st: State, i: nat, valid: UidCheck)
    requires i <= |st.list|
    ensures var r := PruneFrom(st, i, valid);
            r.list == st.list[..i] + KeptIn(st.list[i..], valid) && r.nonRoot == st.nonRoot && r.root == st.root
    decreases |st.list| - i
  {
    hide Unindex, PruneFrom, Kept;
    PruneStep(st, i, valid);
    if i < |st.list| {
      hide KeptIn;
      KeptSplit(st.list, i, valid);
      if Kept(st.list[i], valid) {
        PruneFromList(st, i + 1, valid);
      } else {
        UnindexDefaults(st, st.list[i].uid);
        PruneFromList(Unindex(st, st.list[i].uid).(list := st.list[..i] + st.list[i + 1..]), i, valid);
      }
    }
  }

  lemma {:induction false} PruneFromIndex(st: State, i: nat, valid: UidCheck, u: nat)
    requires i <= |st.list|
    ensures Indexed(PruneFrom(st, i, valid), u) <==> Indexed(st, u) && !PrunedUid(st.list[i..], valid, u)
    decreases |st.list| - i
  {
    hide Indexed, Unindex, PruneFrom, Kept;
    PruneStep(st, i, valid);
    if i < |st.list| {
      hide KeptIn, PrunedUid;
      var front, p, rest := st.list[..i], st.list[i], st.list[i + 1..];
      assert st.list[i..] == [p] + rest;
      PrunedUidHead(p, rest, valid, u);
      if Kept(p, valid) {
        PruneFromIndex(st, i + 1, valid, u);
      } else {
        var next := Unindex(st, p.uid).(list := front + rest);
        assert (front + rest)[i..] == rest;
        PruneFromIndex(next, i, valid, u);
        UnindexAt(st, p.uid, u);
        IndexedOfList(Unindex(st, p.uid), front + rest, u);
      }
    }
  }

  lemma IndexedOfList(st: State, list: seq<Profile>, u: nat)
    ensures Indexed(st.(list := list), u) <==> Indexed(st, u)
  {
  }

  lemma UnindexDefaults(st: State, uid: nat)
    ensures Unindex(st, uid).nonRoot == st.nonRoot && Unindex(st, uid).root == st.root
  {
  }

  // Pruning keeps exactly the accepted entries, in order, and unindexes the uids of the others.
  lemma PruneIsFilter(st: State, valid: UidCheck)
    ensures var r := Prune(st, valid);
            && r.list == KeptIn(st.list, valid)
            && (forall u :: Indexed(r, u) <==> Indexed(st, u) && !PrunedUid(st.list, valid, u))
            && r.nonRoot == st.nonRoot && r.root == st.root
  {
    assert st.list[0..] == st.list && st.list[..0] == [];
    forall u: nat
      ensures Indexed(Prune(st, valid), u) <==> Indexed(st, u) && !PrunedUid(st.list, valid, u)
    {
      PruneFromIndex(st, 0, valid, u);
    }
    PruneFromList(st, 0, valid);
  }

  lemma KeptInMember(list: seq<Profile>, valid: UidCheck, p: Profile)
    ensures p in KeptIn(list, valid) <==> p in list && Kept(p, valid)
  {
  }

  // -------- The index is the last decision --------

  // Whether the last successful decision for uid, since its last pruned entry, allows it.
  function LastDecision(st: State, ops: seq<Op>, uid: nat, before: bool): bool
    decreases |ops|
  {
    if ops == [] then before
    else
      var now := match ops[0]
        case Set(p) => if p.uid == uid && Succeeds(st, p) then p.allowSu else before
        case PruneAll(valid) => before && !PrunedUid(st.list, valid, uid);
      LastDecision(Step(st, ops[0]), ops[1..], uid, now)
  }

  lemma SetIndex(st: State, p: Profile, u: nat)
    ensures Indexed(SetProfile(st, p), u) <==> if p.uid == u && Succeeds(st, p) then p.allowSu else Indexed(st, u)
  {
    WithoutMember(st.cells, p.uid, u);
  }

  lemma {:induction false} IndexIsLastDecision(st: State, ops: seq<Op>, u: nat)
    ensures Indexed(Run(st, ops), u) <==> LastDecision(st, ops, u, Indexed(st, u))
    decreases |ops|
  {
    hide Indexed, SetProfile, Prune, Succeeds, PrunedUid;
    if ops != [] {
      match ops[0] {
        case Set(p) => SetIndex(st, p, u);
        case PruneAll(valid) => PruneIsFilter(st, valid);
      }
      IndexIsLastDecision(Step(st, ops[0]), ops[1..], u);
    }
  }

  // -------- What every run keeps --------

  ghost predicate DistinctKeys(list: seq<Profile>) {
    forall i, j | 0 <= i < j < |list| :: list[i].uid != list[j].uid || list[i].key != list[j].key
  }

  ghost predicate AllValid(list: seq<Profile>) {
    forall p | p in list :: ProfileValid(p)
  }

  ghost predicate CellsHigh(cells: seq<nat>) {
    |cells| <= ARRAY_SIZE && forall c | c in cells :: c > BITMAP_UID_MAX
  }

  ghost predicate Coherent(st: State) {
    DistinctKeys(st.list) && AllValid(st.list) && CellsHigh(st.cells)
  }

  lemma StoreKeeps(list: seq<Profile>, p: Profile)
    requires DistinctKeys(list) && AllValid(list) && ProfileValid(p)
    ensures DistinctKeys(Store(list, p)) && AllValid(Store(list, p))
    ensures p in Store(list, p)
    ensures forall q | q in Store(list, p) :: q == p || (q in list && (q.uid != p.uid || q.key != p.key))
    ensures forall q | q in list && (q.uid != p.uid || q.key != p.key) :: q in Store(list, p)
  {
    var i := FindEntry(list, p.uid, p.key);
    var r := Store(list, p);
    if i < |list| {
      assert r[i] == p;
      forall q | q in r
        ensures q == p || (q in list && (q.uid != p.uid || q.key != p.key))
      {
        var j :| 0 <= j < |r| && r[j] == q;
        if j != i { assert list[j] == q; }
      }
      forall q | q in list && (q.uid != p.uid || q.key != p.key)
        ensures q in r
      {
        var j :| 0 <= j < |list| && list[j] == q;
        assert r[j] == q;
      }
    } else {
      assert r[|list|] == p;
    }
  }

  lemma WithoutShrinks(cells: seq<nat>, uid: nat)
    ensures |Without(cells, uid)| <= |cells|
    ensures forall c | c in Without(cells, uid) :: c in cells
  {
  }

  lemma KeptInDistinct(list: seq<Profile>, valid: UidCheck)
    requires DistinctKeys(list)
    ensures DistinctKeys(KeptIn(list, valid))
  {
    if list != [] {
      var rest := KeptIn(list[1..], valid);
      KeptInDistinct(list[1..], valid);
      forall j | 0 <= j < |rest|
        ensures rest[j].uid != list[0].uid || rest[j].key != list[0].key
      {
        KeptInMember(list[1..], valid, rest[j]);
        var k :| 0 <= k < |list[1..]| && list[1..][k] == rest[j];
        assert list[k + 1] == rest[j];
      }
    }
  }

  lemma KeptInKeeps(list: seq<Profile>, valid: UidCheck)
    requires DistinctKeys(list) && AllValid(list)
    ensures DistinctKeys(KeptIn(list, valid)) && AllValid(KeptIn(list, valid))
  {
    KeptInDistinct(list, valid);
    forall q | q in KeptIn(list, valid) ensures ProfileValid(q) { KeptInMember(list, valid, q); }
  }

  lemma {:induction false} PruneFromCells(st: State, i: nat, valid: UidCheck)
    requires i <= |st.list| && CellsHigh(st.cells)
    ensures CellsHigh(PruneFrom(st, i, valid).cells)
    decreases |st.list| - i
  {
    if i < |st.list| {
      if Kept(st.list[i], valid) {
        PruneFromCells(st, i + 1, valid);
      } else {
        WithoutShrinks(st.cells, st.list[i].uid);
        PruneFromCells(Unindex(st, st.list[i].uid).(list := st.list[..i] + st.list[i + 1..]), i, valid);
      }
    }
  }

  lemma StepKeepsCoherent(st: State, op: Op)
    requires Coherent(st)
    ensures Coherent(Step(st, op))
  {
    match op
    case Set(p) =>
      WithoutShrinks(st.cells, p.uid);
      if ProfileValid(p) { StoreKeeps(st.list, p); }
      hide DistinctKeys, AllValid, ProfileValid, Store;
    case PruneAll(valid) =>
      PruneIsFilter(st, valid);
      KeptInKeeps(st.list, valid);
      PruneFromCells(st, 0, valid);
      hide DistinctKeys, AllValid, CellsHigh, PruneFrom;
  }

  lemma {:induction false} RunKeepsCoherent(st: State, ops: seq<Op>)
    requires Coherent(st)
    ensures Coherent(Run(st, ops))
    decreases |ops|
  {
    hide Coherent, Step;
    if ops != [] {
      StepKeepsCoherent(st, ops[0]);
      RunKeepsCoherent(Step(st, ops[0]), ops[1..]);
    }
  }

  // -------- When the index agrees with a scan of the list --------

  predicate Scan(list: seq<Profile>, u: nat) {
    exists p :: p in list && p.uid == u && p.allowSu
  }

  predicate Agrees(st: State, u: nat) {
    Indexed(st, u) <==> Scan(st.list, u)
  }

  // Whether an operation will keep the two in agreement, told before it is performed: a refusal
  // must not leave another entry that allows, an overflow must find the uid indexed already, and
  // pruning must not leave an entry that allows beside a dropped one.
  predicate KeepsAgreement(st: State, op: Op, u: nat) {
    match op
    case Set(p) =>
      if p.uid != u || !ProfileValid(p) then true
      else if Overflows(st, p) then Indexed(st, u)
      else p.allowSu || forall q | q in st.list && q.uid == u && q.allowSu :: q.key == p.key
    case PruneAll(valid) =>
      PrunedUid(st.list, valid, u) ==> forall q | q in st.list && q.uid == u && Kept(q, valid) :: !q.allowSu
  }

  lemma StoredList(st: State, p: Profile)
    requires ProfileValid(p)
    ensures SetProfile(st, p).list == Store(st.list, p)
  {
  }

  // A successful decision on its own uid, whether or not the two agreed before.
  lemma SetAgreesExact(st: State, p: Profile)
    requires Coherent(st) && Succeeds(st, p)
    ensures Agrees(SetProfile(st, p), p.uid) <==>
            p.allowSu || forall q | q in st.list && q.uid == p.uid && q.allowSu :: q.key == p.key
  {
    SetIndex(st, p, p.uid);
    StoreKeeps(st.list, p);
    StoredList(st, p);
    hide SetProfile, Indexed, DistinctKeys, AllValid, CellsHigh, ProfileValid, Store;
  }

  lemma PruneAgreesExact(st: State, valid: UidCheck, u: nat)
    requires Agrees(st, u)
    ensures Agrees(Prune(st, valid), u) <==> KeepsAgreement(st, PruneAll(valid), u)
  {
    PruneIsFilter(st, valid);
    forall p ensures p in KeptIn(st.list, valid) <==> p in st.list && Kept(p, valid) { KeptInMember(st.list, valid, p); }
    hide KeptIn, Prune, Indexed, Kept;
  }

  lemma OtherAgrees(st: State, p: Profile, u: nat)
    requires Coherent(st) && Agrees(st, u) && !(p.uid == u && Succeeds(st, p))
    ensures Agrees(SetProfile(st, p), u) <==> KeepsAgreement(st, Set(p), u)
  {
    SetIndex(st, p, u);
    if ProfileValid(p) {
      StoreKeeps(st.list, p);
      StoredList(st, p);
    }
    hide SetProfile, Indexed, DistinctKeys, AllValid, CellsHigh, ProfileValid, Store;
  }

  lemma StepAgreesExact(st: State, op: Op, u: nat)
    requires Coherent(st) && Agrees(st, u)
    ensures Agrees(Step(st, op), u) <==> KeepsAgreement(st, op, u)
  {
    hide Coherent, Agrees, SetProfile, Prune;
    match op
    case Set(p) => if p.uid == u && Succeeds(st, p) { SetAgreesExact(st, p); } else { OtherAgrees(st, p, u); }
    case PruneAll(valid) => PruneAgreesExact(st, valid, u);
  }

  ghost predicate AlwaysAgrees(st: State, ops: seq<Op>, u: nat)
    decreases |ops|
  {
    Agrees(st, u) && (ops != [] ==> AlwaysAgrees(Step(st, ops[0]), ops[1..], u))
  }

  ghost predicate AllKeepAgreement(st: State, ops: seq<Op>, u: nat)
    decreases |ops|
  {
    ops != [] ==> KeepsAgreement(st, ops[0], u) && AllKeepAgreement(Step(st, ops[0]), ops[1..], u)
  }

  // Throughout a run the index equals a scan of the list exactly when each operation is one that
  // keeps the two in agreement.
  lemma {:induction false} IndexIsScan(st: State, ops: seq<Op>, u: nat)
    requires Coherent(st) && Agrees(st, u)
    ensures AlwaysAgrees(st, ops, u) <==> AllKeepAgreement(st, ops, u)
    ensures AllKeepAgreement(st, ops, u) ==> Agrees(Run(st, ops), u)
    decreases |ops|
  {
    hide Coherent, Step, Agrees, KeepsAgreement;
    if ops != [] {
      StepAgreesExact(st, ops[0], u);
      StepKeepsCoherent(st, ops[0]);
      if Agrees(Step(st, ops[0]), u) { IndexIsScan(Step(st, ops[0]), ops[1..], u); }
    }
  }

  // -------- When an allowed app is unmounted for --------

  lemma FirstOfMember(list: seq<Profile>, u: nat)
    ensures FirstOf(list, u).Some? ==> FirstOf(list, u).value in list && FirstOf(list, u).value.uid == u
    ensures FirstOf(list, u).None? ==> forall p | p in list :: p.uid != u
  {
    if list != [] {
      FirstOfMember(list[1..], u);
      assert forall p :: p in list <==> p == list[0] || p in list[1..];
    }
  }

  // What the first entry of a uid, or its absence, says about unmounting.
  predicate Unmounts(first: Option<Profile>, nonRoot: bool) {
    if first.None? then nonRoot
    else !first.value.allowSu && if first.value.config.useDefault then nonRoot else first.value.config.umountModules
  }

  // An indexed uid, not the manager's, is unmounted for.
  predicate Conflict(st: State, u: nat) {
    Indexed(st, u) && Unmounts(FirstOf(st.list, u), st.nonRoot)
  }

  lemma ConflictMeans(st: State, u: nat, manager: nat)
    requires manager == INVALID_UID || manager != u
    ensures Conflict(st, u) <==> Indexed(st, u) && ShouldUmount(st, u, manager)
  {
    hide Indexed, FirstOf;
  }

  lemma {:induction false} StoreFirst(list: seq<Profile>, p: Profile, u: nat)
    ensures FirstOf(Store(list, p), u) ==
            if p.uid != u then FirstOf(list, u)
            else if FirstOf(list, u).None? || FirstOf(list, u).value.key == p.key then Some(p)
            else FirstOf(list, u)
    decreases |list|
  {
    if list == [] || (list[0].uid == p.uid && list[0].key == p.key) {
      StoreHead(list, p);
    } else {
      StoreTail(list, p);
      StoreFirst(list[1..], p, u);
      hide Store;
      assert ([list[0]] + Store(list[1..], p))[1..] == Store(list[1..], p);
    }
  }

  lemma StoreHead(list: seq<Profile>, p: Profile)
    requires list == [] || (list[0].uid == p.uid && list[0].key == p.key)
    ensures Store(list, p) == [p] + if list == [] then [] else list[1..]
    ensures ([p] + if list == [] then [] else list[1..])[1..] == if list == [] then [] else list[1..]
  {
  }

  lemma StoreTail(list: seq<Profile>, p: Profile)
    requires list != [] && !(list[0].uid == p.uid && list[0].key == p.key)
    ensures Store(list, p) == [list[0]] + Store(list[1..], p)
  {
  }

  function NonRootAfter(st: State, p: Profile): bool {
    if Succeeds(st, p) && p.key == "$" then p.config.umountModules else st.nonRoot
  }

  lemma SetNonRoot(st: State, p: Profile)
    ensures SetProfile(st, p).nonRoot == NonRootAfter(st, p)
  {
  }

  // A uid that has just been granted is unmounted for exactly when its first entry has another
  // key and unmounts, with the default as the grant leaves it.
  lemma GrantConflictExact(st: State, p: Profile)
    requires Succeeds(st, p) && p.allowSu
    ensures Conflict(SetProfile(st, p), p.uid) <==>
            var first := FirstOf(st.list, p.uid);
            first.Some? && first.value.key != p.key && Unmounts(first, NonRootAfter(st, p))
  {
    SetIndex(st, p, p.uid);
    SetNonRoot(st, p);
    StoredList(st, p);
    StoreFirst(st.list, p, p.uid);
    hide SetProfile, Indexed, FirstOf, Store;
  }

  // Whether an operation will put an indexed uid into conflict, told before it is performed.
  predicate AvoidsConflict(st: State, op: Op, u: nat) {
    match op
    case Set(p) =>
      var first := FirstOf(st.list, u);
      if !ProfileValid(p) || (p.uid == u && !p.allowSu && Succeeds(st, p)) then true
      else if p.uid != u then Indexed(st, u) ==> !Unmounts(first, NonRootAfter(st, p))
      else (Overflows(st, p) && !Indexed(st, u)) || first.None? || first.value.key == p.key || !Unmounts(first, NonRootAfter(st, p))
    case PruneAll(valid) => true
  }

  lemma SetConflictExact(st: State, p: Profile, u: nat)
    requires !Conflict(st, u)
    ensures !Conflict(SetProfile(st, p), u) <==> AvoidsConflict(st, Set(p), u)
  {
    SetIndex(st, p, u);
    SetNonRoot(st, p);
    if ProfileValid(p) {
      StoredList(st, p);
      StoreFirst(st.list, p, u);
    }
    hide Indexed, FirstOf, Store, ProfileValid;
    if !ProfileValid(p) {
      assert SetProfile(st, p) == st;
    } else {
      hide SetProfile;
    }
  }

  lemma {:induction false} UnprunedFirst(list: seq<Profile>, valid: UidCheck, u: nat)
    requires !PrunedUid(list, valid, u)
    ensures FirstOf(KeptIn(list, valid), u) == FirstOf(list, u)
    decreases |list|
  {
    if list != [] {
      var p, rest := list[0], list[1..];
      assert list == [p] + rest;
      PrunedUidHead(p, rest, valid, u);
      UnprunedFirst(rest, valid, u);
      hide KeptIn, PrunedUid, Kept;
      var kept := KeptIn(rest, valid);
      assert ([p] + kept)[1..] == kept && [] + kept == kept;
    }
  }

  lemma PruneAvoidsConflict(st: State, valid: UidCheck, u: nat)
    requires !Conflict(st, u)
    ensures !Conflict(Prune(st, valid), u)
  {
    PruneIsFilter(st, valid);
    if !PrunedUid(st.list, valid, u) { UnprunedFirst(st.list, valid, u); }
    hide Prune, Indexed, FirstOf, KeptIn, PrunedUid;
  }

  ghost predicate NeverConflict(st: State, ops: seq<Op>, u: nat)
    decreases |ops|
  {
    !Conflict(st, u) && (ops != [] ==> NeverConflict(Step(st, ops[0]), ops[1..], u))
  }

  ghost predicate AllAvoidConflict(st: State, ops: seq<Op>, u: nat)
    decreases |ops|
  {
    ops != [] ==> AvoidsConflict(st, ops[0], u) && AllAvoidConflict(Step(st, ops[0]), ops[1..], u)
  }

  // Throughout a run an indexed uid is never unmounted for exactly when each operation is one
  // that avoids it.
  lemma {:induction false} ConflictExact(st: State, ops: seq<Op>, u: nat)
    requires !Conflict(st, u)
    ensures NeverConflict(st, ops, u) <==> AllAvoidConflict(st, ops, u)
    ensures AllAvoidConflict(st, ops, u) ==> !Conflict(Run(st, ops), u)
    decreases |ops|
  {
    hide Conflict, AvoidsConflict, SetProfile, Prune;
    if ops != [] {
      match ops[0] {
        case Set(p) => SetConflictExact(st, p, u);
        case PruneAll(valid) => PruneAvoidsConflict(st, valid, u); PruneAvoids(st, valid, u);
      }
      if !Conflict(Step(st, ops[0]), u) { ConflictExact(Step(st, ops[0]), ops[1..], u); }
    }
  }

  lemma PruneAvoids(st: State, valid: UidCheck, u: nat)
    ensures AvoidsConflict(st, PruneAll(valid), u)
  {
  }

  // From boot on, an allowed app is never unmounted for in such runs.
  lemma AllowedIsNotUmounted(ops: seq<Op>, u: nat, manager: nat)
    requires AllAvoidConflict(INITIAL, ops, u) && u != 0 && IsAllowUid(Run(INITIAL, ops), u, manager, false)
    ensures !ShouldUmount(Run(INITIAL, ops), u, manager)
  {
    assert !Conflict(INITIAL, u);
    ConflictExact(INITIAL, ops, u);
    if manager == INVALID_UID || manager != u { ConflictMeans(Run(INITIAL, ops), u, manager); }
    hide Run, AllAvoidConflict, Conflict, Indexed;
  }

  // -------- One entry for each uid suffices for both --------

  ghost predicate OneEntryEach(list: seq<Profile>) {
    forall p, q | p in list && q in list && p.uid == q.uid :: p == q
  }

  // No overflow is reported, and no uid ever has two entries.
  ghost predicate Simple(st: State, ops: seq<Op>)
    decreases |ops|
  {
    && OneEntryEach(st.list)
    && (ops != [] ==>
          && (ops[0].Set? && ProfileValid(ops[0].p) ==> !Overflows(st, ops[0].p))
          && Simple(Step(st, ops[0]), ops[1..]))
  }

  lemma SimpleKeeps(st: State, op: Op, u: nat)
    requires Coherent(st) && Agrees(st, u) && OneEntryEach(st.list) && OneEntryEach(Step(st, op).list)
    requires op.Set? && ProfileValid(op.p) ==> !Overflows(st, op.p)
    ensures KeepsAgreement(st, op, u) && AvoidsConflict(st, op, u)
  {
    FirstOfMember(st.list, u);
    match op
    case Set(p) =>
      if ProfileValid(p) {
        StoreKeeps(st.list, p);
        StoredList(st, p);
      }
      hide SetProfile, Indexed, FirstOf, ProfileValid, DistinctKeys, AllValid, CellsHigh, Store;
    case PruneAll(valid) =>
      hide Prune, Indexed, FirstOf;
  }

  lemma {:induction false} SimpleRuns(st: State, ops: seq<Op>, u: nat)
    requires Coherent(st) && Agrees(st, u) && Simple(st, ops)
    ensures AllKeepAgreement(st, ops, u) && AllAvoidConflict(st, ops, u)
    decreases |ops|
  {
    hide Coherent, Step, Agrees, KeepsAgreement, AvoidsConflict, OneEntryEach;
    if ops != [] {
      SimpleKeeps(st, ops[0], u);
      StepAgreesExact(st, ops[0], u);
      StepKeepsCoherent(st, ops[0]);
      SimpleRuns(Step(st, ops[0]), ops[1..], u);
    }
  }

  // -------- Two entries for one uid --------

  function AppProfile(key: string, uid: nat, allow: bool): Profile {
    Profile(2, key, uid, allow, Config(false, DEFAULT_ROOT, true))
  }

  lemma TwoSets(a: Profile, b: Profile)
    requires a.uid == b.uid && a.key != b.key && ProfileValid(a)
    ensures SetProfile(INITIAL, a).list == [a]
    ensures Run(INITIAL, [Set(a), Set(b)]) == SetProfile(SetProfile(INITIAL, a), b)
  {
    var st1 := SetProfile(INITIAL, a);
    var st2 := SetProfile(st1, b);
    hide SetProfile;
    assert st1.list == [a] by { StoredList(INITIAL, a); }
    assert [Set(a), Set(b)][1..] == [Set(b)] && [Set(b)][1..] == [];
    assert Run(st1, [Set(b)]) == Run(st2, []);
  }

  // A refused entry followed by a granted one: the uid is indexed, rightly, and unmounted for.
  lemma FirstEntryUnmounts()
    ensures var st := Run(INITIAL, [Set(AppProfile("a", 10000, false)), Set(AppProfile("b", 10000, true))]);
            Agrees(st, 10000) && Indexed(st, 10000) && ShouldUmount(st, 10000, INVALID_UID)
  {
    var a, b := AppProfile("a", 10000, false), AppProfile("b", 10000, true);
    TwoSets(a, b);
    var st1 := SetProfile(INITIAL, a);
    StepKeepsCoherent(INITIAL, Set(a));
    SetAgreesExact(st1, b);
    GrantConflictExact(st1, b);
    ConflictMeans(SetProfile(st1, b), 10000, INVALID_UID);
  }

  // A granted entry followed by a refused one: the list still allows the uid, the index does not.
  lemma LastEntryUnindexes()
    ensures var st := Run(INITIAL, [Set(AppProfile("a", 10000, true)), Set(AppProfile("b", 10000, false))]);
            Scan(st.list, 10000) && !Indexed(st, 10000)
  {
    var a, b := AppProfile("a", 10000, true), AppProfile("b", 10000, false);
    TwoSets(a, b);
    var st1 := SetProfile(INITIAL, a);
    StepKeepsCoherent(INITIAL, Set(a));
    assert a in st1.list;
    SetAgreesExact(st1, b);
    SetIndex(st1, b, 10000);
  }

  // -------- The answers to the two queries --------

  // After any run from boot: root is allowed in KernelSU's own domain only, no other system uid
  // than 1000 is allowed, and any other uid is if it is the manager's or was last decided so.
  lemma AllowedExactly(ops: seq<Op>, u: nat, manager: nat, inKsuDomain: bool)
    ensures IsAllowUid(Run(INITIAL, ops), u, manager, inKsuDomain) <==>
            if u == 0 then inKsuDomain
            else (u == 1000 || u >= 2000) && ((u == manager && u != 0xFFFF_FFFF) || LastDecision(INITIAL, ops, u, false))
  {
    IndexIsLastDecision(INITIAL, ops, u);
    hide Run, LastDecision;
  }

  lemma {:induction false} FirstOfMeans(list: seq<Profile>, u: nat)
    ensures forall i | 0 <= i < |list| && list[i].uid == u && forall j | 0 <= j < i :: list[j].uid != u ::
              FirstOf(list, u) == Some(list[i])
    ensures FirstOf(list, u).None? <==> forall i | 0 <= i < |list| :: list[i].uid != u
    decreases |list|
  {
    if list != [] {
      FirstOfMeans(list[1..], u);
      assert forall i | 0 < i < |list| :: list[i] == list[1..][i - 1];
      assert forall i | 0 <= i < |list[1..]| :: list[1..][i] == list[i + 1];
    }
  }

  // The manager is never unmounted for. Else the uid's first entry decides: not if it grants,
  // and by its own setting unless it asks for the default, which also holds without an entry.
  lemma UnmountedExactly(st: State, u: nat, manager: nat)
    ensures u == manager && u != 0xFFFF_FFFF ==> !ShouldUmount(st, u, manager)
    ensures !(u == manager && u != 0xFFFF_FFFF) ==>
              && (forall i | 0 <= i < |st.list| && st.list[i].uid == u && forall j | 0 <= j < i :: st.list[j].uid != u ::
                    ShouldUmount(st, u, manager) <==>
                    !st.list[i].allowSu && if st.list[i].config.useDefault then st.nonRoot else st.list[i].config.umountModules)
              && ((forall i | 0 <= i < |st.list| :: st.list[i].uid != u) ==> (ShouldUmount(st, u, manager) <==> st.nonRoot))
  {
    FirstOfMeans(st.list, u);
  }

  // -------- What a set does to the list --------

  predicate SameApp(p: Profile, q: Profile) {
    p.uid == q.uid && p.key == q.key
  }

  predicate Taken(p: Profile) {
    p.version >= 2 && (p.allowSu ==> p.config.rootProfile.groupsCount <= 32 && p.config.rootProfile.domain != "")
  }

  // A high uid's grant finds all 1024 cells in use.
  predicate NoRoom(st: State, p: Profile) {
    p.uid >= 32768 && p.allowSu && |st.cells| >= 1024
  }

  // A profile older than version 2, or one that grants with more than 32 groups or without a
  // domain, is refused and changes nothing. Any other replaces the entry of its app, or is
  // appended, even when its uid finds no room in the index; only then are index and defaults as
  // they were.
  lemma SetStores(st: State, p: Profile)
    ensures !Taken(p) ==> SetProfile(st, p) == st
    ensures Taken(p) ==>
              && (forall i | 0 <= i < |st.list| && SameApp(st.list[i], p) && forall j | 0 <= j < i :: !SameApp(st.list[j], p) ::
                    SetProfile(st, p).list == st.list[i := p])
              && ((forall i | 0 <= i < |st.list| :: !SameApp(st.list[i], p)) ==> SetProfile(st, p).list == st.list + [p])
    ensures Taken(p) && !NoRoom(st, p) ==>
              && SetProfile(st, p).nonRoot == (if p.key == "$" then p.config.umountModules else st.nonRoot)
              && SetProfile(st, p).root == (if p.key == "#" then p.config.rootProfile else st.root)
              && (Indexed(SetProfile(st, p), p.uid) <==> p.allowSu)
    ensures NoRoom(st, p) ==> SetProfile(st, p) == st.(list := SetProfile(st, p).list)
  {
    var k := FindEntry(st.list, p.uid, p.key);
    assert k < |st.list| ==> SameApp(st.list[k], p);
    assert forall j | 0 <= j < k :: !SameApp(st.list[j], p);
    WithoutMember(st.cells, p.uid, p.uid);
    hide FindEntry, Without;
  }
}
