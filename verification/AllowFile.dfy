/** The allow list's file: its two header words and one fixed-size record per profile, and what
    reading it back after a restart restores. */
module AllowFile {
  import opened Bytes
  import opened AllowState
  import opened AllowRuns
  import opened AllowRecord

  const FILE_MAGIC: nat := 0x7f4b5355
  const FILE_FORMAT_VERSION: nat := 3

  // How a profile lies in memory; records are copied as they are.
  datatype Layout = Layout(encode: Profile -> seq<byte>, decode: seq<byte> -> Profile, size: nat)

  // Profiles that a record can hold are read back as they were written.
  ghost predicate Faithful(l: Layout) {
    l.size > 0 && forall p | Representable(p) :: |l.encode(p)| == l.size && l.decode(l.encode(p)) == p
  }

  // The layout of the C struct is such a one.
  function Struct(): Layout {
    Layout(Encode, Decode, RECORD_SIZE)
  }

  lemma StructFaithful()
    ensures Faithful(Struct())
  {
    hide Encode, Decode, Representable;
    forall p | Representable(p) ensures |Struct().encode(p)| == Struct().size && Struct().decode(Struct().encode(p)) == p {
      RecordRoundTrip(p);
    }
  }

  ghost predicate AllRepresentable(list: seq<Profile>) {
    forall p | p in list :: Representable(p)
  }

  ghost predicate SetsRepresentable(ops: seq<Op>) {
    forall op | op in ops && op.Set? :: Representable(op.p)
  }

  // Profiles reach the list through sets only.
  lemma {:induction false} RunRepresentable(st: State, ops: seq<Op>)
    requires Coherent(st) && AllRepresentable(st.list) && SetsRepresentable(ops)
    ensures AllRepresentable(Run(st, ops).list)
    decreases |ops|
  {
    if ops != [] {
      assert ops[0] in ops && forall op | op in ops[1..] :: op in ops;
      hide Representable, Coherent;
      StepRepresentable(st, ops[0]);
      StepKeepsCoherent(st, ops[0]);
      hide Step, AllRepresentable;
      RunRepresentable(Step(st, ops[0]), ops[1..]);
    }
  }

  lemma StepRepresentable(st: State, op: Op)
    requires Coherent(st) && AllRepresentable(st.list) && (op.Set? ==> Representable(op.p))
    ensures AllRepresentable(Step(st, op).list)
  {
    hide Representable;
    match op
    case Set(p) =>
      if ProfileValid(p) {
        StoreKeeps(st.list, p);
        StoredList(st, p);
      }
      hide Store;
    case PruneAll(valid) =>
      PruneIsFilter(st, valid);
      forall p | p in KeptIn(st.list, valid) ensures p in st.list { KeptInMember(st.list, valid, p); }
      hide Prune, KeptIn;
  }

  function Records(list: seq<Profile>, l: Layout): seq<byte> {
    if list == [] then [] else l.encode(list[0]) + Records(list[1..], l)
  }

  function Save(st: State, l: Layout): seq<byte> {
    ToLE(FILE_MAGIC, 4) + ToLE(FILE_FORMAT_VERSION, 4) + Records(st.list, l)
  }

  // A record that the file cuts short ends with what the buffer held before, stale.
  function LoadRecords(st: State, file: seq<byte>, l: Layout, stale: seq<byte>): State
    requires l.size == |stale| > 0
    decreases |file|
  {
    if file == [] then st
    else if |file| < l.size then SetProfile(st, l.decode(file + stale[|file|..]))
    else LoadRecords(SetProfile(st, l.decode(file[..l.size])), file[l.size..], l, stale)
  }

  // A wrong magic or a missing version leaves the list alone; any version is accepted.
  function Load(st: State, file: seq<byte>, l: Layout, stale: seq<byte>): State
    requires l.size == |stale| > 0
  {
    if |file| < 4 || FromLE(file[..4]) != FILE_MAGIC || |file| < 8 then st
    else LoadRecords(st, file[8..], l, stale)
  }

  function Sets(list: seq<Profile>): seq<Op> {
    seq(|list|, i requires 0 <= i < |list| => Set(list[i]))
  }

  lemma {:induction false} LoadRecordsRun(st: State, list: seq<Profile>, l: Layout, stale: seq<byte>)
    requires Faithful(l) && |stale| == l.size && AllRepresentable(list)
    ensures LoadRecords(st, Records(list, l), l, stale) == Run(st, Sets(list))
    decreases |list|
  {
    hide SetProfile, Representable;
    if list != [] {
      assert list[0] in list && forall p | p in list[1..] :: p in list;
      var file := Records(list, l);
      assert file[..l.size] == l.encode(list[0]) && file[l.size..] == Records(list[1..], l);
      assert Sets(list)[1..] == Sets(list[1..]);
      LoadRecordsRun(SetProfile(st, list[0]), list[1..], l, stale);
    }
  }

  // Reading a saved list sets its profiles one by one, in order.
  lemma LoadSavedRun(st: State, st0: State, l: Layout, stale: seq<byte>)
    requires Faithful(l) && |stale| == l.size && AllRepresentable(st.list)
    ensures Load(st0, Save(st, l), l, stale) == Run(st0, Sets(st.list))
  {
    var file := Save(st, l);
    Widths();
    RoundTripLE(FILE_MAGIC, 4);
    assert file[..4] == ToLE(FILE_MAGIC, 4);
    assert file[8..] == Records(st.list, l);
    LoadRecordsRun(st0, st.list, l, stale);
  }

  // -------- The list --------

  lemma {:induction false} SetsRestoreList(st: State, list: seq<Profile>)
    requires DistinctKeys(st.list + list) && AllValid(list)
    ensures Run(st, Sets(list)).list == st.list + list
    decreases |list|
  {
    if list == [] {
      assert st.list + list == st.list;
    } else {
      var next := SetProfile(st, list[0]);
      NewEntryAppends(st, list[0], list);
      assert st.list + list == next.list + list[1..];
      assert Sets(list)[1..] == Sets(list[1..]);
      hide SetProfile;
      SetsRestoreList(next, list[1..]);
    }
  }

  lemma NewEntryAppends(st: State, p: Profile, list: seq<Profile>)
    requires list != [] && p == list[0] && DistinctKeys(st.list + list) && ProfileValid(p)
    ensures SetProfile(st, p).list == st.list + [p]
  {
    var all := st.list + list;
    assert all[|st.list|] == p;
    assert forall j | 0 <= j < |st.list| :: all[j] == st.list[j];
    assert FindEntry(st.list, p.uid, p.key) == |st.list|;
  }

  // -------- The index --------

  // The decision of the last record for u.
  function LastRecord(list: seq<Profile>, u: nat, before: bool): bool {
    if list == [] then before
    else LastRecord(list[1..], u, if list[0].uid == u then list[0].allowSu else before)
  }

  function HighAllowed(list: seq<Profile>): nat {
    if list == [] then 0
    else (if list[0].uid > BITMAP_UID_MAX && list[0].allowSu then 1 else 0) + HighAllowed(list[1..])
  }

  ghost predicate Fits(list: seq<Profile>) {
    HighAllowed(list) <= ARRAY_SIZE
  }

  lemma SetCells(st: State, p: Profile)
    ensures |SetProfile(st, p).cells| <= |st.cells| + if p.uid > BITMAP_UID_MAX && p.allowSu then 1 else 0
  {
    WithoutShrinks(st.cells, p.uid);
  }

  lemma {:induction false} SetsIndex(st: State, list: seq<Profile>, u: nat)
    requires AllValid(list) && |st.cells| + HighAllowed(list) <= ARRAY_SIZE
    ensures Indexed(Run(st, Sets(list)), u) <==> LastRecord(list, u, Indexed(st, u))
    decreases |list|
  {
    hide SetProfile, Indexed, ProfileValid;
    if list != [] {
      assert Sets(list)[1..] == Sets(list[1..]);
      SetIndex(st, list[0], u);
      SetCells(st, list[0]);
      SetsIndex(SetProfile(st, list[0]), list[1..], u);
    }
  }

  // -------- The default profiles --------

  // The values of the last records that hold the defaults.
  function LastNonRoot(list: seq<Profile>, before: bool): bool {
    if list == [] then before
    else LastNonRoot(list[1..], if list[0].key == "$" then list[0].config.umountModules else before)
  }

  function LastRoot(list: seq<Profile>, before: RootProfile): RootProfile {
    if list == [] then before
    else LastRoot(list[1..], if list[0].key == "#" then list[0].config.rootProfile else before)
  }

  lemma SetDefaults(st: State, p: Profile)
    requires ProfileValid(p) && !Overflows(st, p)
    ensures SetProfile(st, p).nonRoot == if p.key == "$" then p.config.umountModules else st.nonRoot
    ensures SetProfile(st, p).root == if p.key == "#" then p.config.rootProfile else st.root
  {
  }

  lemma {:induction false} SetsDefaults(st: State, list: seq<Profile>)
    requires AllValid(list) && |st.cells| + HighAllowed(list) <= ARRAY_SIZE
    ensures Run(st, Sets(list)).nonRoot == LastNonRoot(list, st.nonRoot)
    ensures Run(st, Sets(list)).root == LastRoot(list, st.root)
    decreases |list|
  {
    hide SetProfile, ProfileValid;
    if list != [] {
      assert Sets(list)[1..] == Sets(list[1..]);
      SetCells(st, list[0]);
      SetDefaults(st, list[0]);
      SetsDefaults(SetProfile(st, list[0]), list[1..]);
    }
  }

  // -------- What loading restores --------

  ghost predicate SameState(a: State, b: State) {
    && a.list == b.list && a.nonRoot == b.nonRoot && a.root == b.root
    && forall u :: Indexed(a, u) <==> Indexed(b, u)
  }

  // The last listed entry of each uid carries its current decision, and the last "$" and "#"
  // entries, or the built-in values, are the current defaults.
  ghost predicate LastEntriesCurrent(st: State) {
    && (forall u :: Indexed(st, u) <==> LastRecord(st.list, u, false))
    && st.nonRoot == LastNonRoot(st.list, INITIAL.nonRoot) && st.root == LastRoot(st.list, INITIAL.root)
  }

  // From the initial state a saved list is restored in order. A uid is then indexed as the last
  // decision among its records says; if the array suffices that is its last record, and the
  // defaults are the last records' too, so that everything is restored exactly when the last
  // entries were current.
  lemma LoadSaved(st: State, l: Layout, stale: seq<byte>)
    requires Faithful(l) && |stale| == l.size && Coherent(st) && AllRepresentable(st.list)
    ensures var r := Load(INITIAL, Save(st, l), l, stale);
            && r.list == st.list
            && (forall u :: Indexed(r, u) <==> LastDecision(INITIAL, Sets(st.list), u, false))
            && (Fits(st.list) ==>
                  && (forall u :: Indexed(r, u) <==> LastRecord(st.list, u, false))
                  && r.nonRoot == LastNonRoot(st.list, INITIAL.nonRoot) && r.root == LastRoot(st.list, INITIAL.root)
                  && (SameState(r, st) <==> LastEntriesCurrent(st)))
  {
    LoadSavedRun(st, INITIAL, l, stale);
    assert INITIAL.list + st.list == st.list;
    SetsRestoreList(INITIAL, st.list);
    forall u: nat ensures Indexed(Run(INITIAL, Sets(st.list)), u) <==> LastDecision(INITIAL, Sets(st.list), u, false) {
      IndexIsLastDecision(INITIAL, Sets(st.list), u);
      assert !Indexed(INITIAL, u);
    }
    if Fits(st.list) {
      forall u: nat ensures Indexed(Run(INITIAL, Sets(st.list)), u) <==> LastRecord(st.list, u, false) {
        SetsIndex(INITIAL, st.list, u);
      }
      SetsDefaults(INITIAL, st.list);
    }
    hide Load, Save, Run, LastDecision, LastRecord, LastNonRoot, LastRoot, Indexed, Representable;
  }

  // -------- Tidy runs --------

  ghost predicate OneEntryPerApp(list: seq<Profile>) {
    forall p, q | p in list && q in list && p.uid == q.uid && p.uid != PRESERVED_UID :: p == q
  }

  predicate DefaultsPreserved(p: Profile) {
    p.key == "$" || p.key == "#" ==> p.uid == PRESERVED_UID
  }

  // Each app has one entry at most, nothing overflows, and only the preserved uid sets defaults.
  ghost predicate Tidy(st: State, ops: seq<Op>)
    decreases |ops|
  {
    && OneEntryPerApp(st.list)
    && (ops != [] ==>
          && (ops[0].Set? ==> DefaultsPreserved(ops[0].p) && (ProfileValid(ops[0].p) ==> !Overflows(st, ops[0].p)))
          && Tidy(Step(st, ops[0]), ops[1..]))
  }

  // The preserved uid's index bit is the decision of one of its entries.
  ghost predicate PreservedIndexed(st: State) {
    if exists p :: p in st.list && p.uid == PRESERVED_UID
    then exists p :: p in st.list && p.uid == PRESERVED_UID && (p.allowSu <==> Indexed(st, PRESERVED_UID))
    else !Indexed(st, PRESERVED_UID)
  }

  ghost predicate DefaultsListed(st: State) {
    && (forall p | p in st.list :: DefaultsPreserved(p))
    && (forall p | p in st.list && p.key == "$" :: st.nonRoot == p.config.umountModules)
    && (forall p | p in st.list && p.key == "#" :: st.root == p.config.rootProfile)
    && ((forall p | p in st.list :: p.key != "$") ==> st.nonRoot == INITIAL.nonRoot)
    && ((forall p | p in st.list :: p.key != "#") ==> st.root == INITIAL.root)
  }

  lemma SetKeepsPreserved(st: State, p: Profile)
    requires Coherent(st) && PreservedIndexed(st) && DefaultsListed(st)
    requires DefaultsPreserved(p) && (ProfileValid(p) ==> !Overflows(st, p))
    ensures PreservedIndexed(SetProfile(st, p)) && DefaultsListed(SetProfile(st, p))
  {
    hide Indexed, DistinctKeys, AllValid, CellsHigh, Store, ProfileValid;
    if ProfileValid(p) {
      hide SetProfile, DefaultsPreserved;
      StoreKeeps(st.list, p);
      StoredList(st, p);
      SetIndex(st, p, PRESERVED_UID);
      SetDefaults(st, p);
      SetPreservedIndexed(st, p);
      hide PreservedIndexed;
    }
  }

  lemma SetPreservedIndexed(st: State, p: Profile)
    requires Coherent(st) && PreservedIndexed(st) && ProfileValid(p) && !Overflows(st, p)
    ensures PreservedIndexed(SetProfile(st, p))
  {
    hide Indexed, DistinctKeys, AllValid, CellsHigh, Store, ProfileValid, SetProfile;
    StoreKeeps(st.list, p);
    StoredList(st, p);
    SetIndex(st, p, PRESERVED_UID);
  }

  lemma PruneKeepsPreserved(st: State, valid: UidCheck)
    requires Coherent(st) && PreservedIndexed(st) && DefaultsListed(st)
    ensures PreservedIndexed(Prune(st, valid)) && DefaultsListed(Prune(st, valid))
  {
    PruneIsFilter(st, valid);
    forall p ensures p in KeptIn(st.list, valid) <==> p in st.list && Kept(p, valid) { KeptInMember(st.list, valid, p); }
    hide KeptIn, Prune, Indexed, Coherent;
  }

  lemma PerAppKeepsScan(st: State, op: Op, u: nat)
    requires Coherent(st) && (Indexed(st, u) <==> Scan(st.list, u)) && u != PRESERVED_UID
    requires OneEntryPerApp(st.list) && OneEntryPerApp(Step(st, op).list)
    requires op.Set? && ProfileValid(op.p) ==> !Overflows(st, op.p)
    ensures Indexed(Step(st, op), u) <==> Scan(Step(st, op).list, u)
  {
    match op
    case Set(p) =>
      SetIndex(st, p, u);
      if ProfileValid(p) {
        StoreKeeps(st.list, p);
        StoredList(st, p);
        hide SetProfile, Indexed, DistinctKeys, AllValid, CellsHigh, ProfileValid;
      }
    case PruneAll(valid) =>
      PruneIsFilter(st, valid);
      forall p ensures p in KeptIn(st.list, valid) <==> p in st.list && Kept(p, valid) { KeptInMember(st.list, valid, p); }
      hide KeptIn, Prune, Indexed, DistinctKeys, AllValid, CellsHigh;
  }

  lemma {:induction false} TidyRun(st: State, ops: seq<Op>, u: nat)
    requires Coherent(st) && Tidy(st, ops) && PreservedIndexed(st) && DefaultsListed(st)
    requires u != PRESERVED_UID ==> (Indexed(st, u) <==> Scan(st.list, u))
    ensures var r := Run(st, ops);
            && Coherent(r) && OneEntryPerApp(r.list) && PreservedIndexed(r) && DefaultsListed(r)
            && (u != PRESERVED_UID ==> (Indexed(r, u) <==> Scan(r.list, u)))
    decreases |ops|
  {
    hide Coherent, Indexed, Scan, OneEntryPerApp, PreservedIndexed, DefaultsListed, SetProfile, Prune;
    if ops != [] {
      StepKeepsCoherent(st, ops[0]);
      if u != PRESERVED_UID { PerAppKeepsScan(st, ops[0], u); }
      match ops[0] {
        case Set(p) => SetKeepsPreserved(st, p);
        case PruneAll(valid) => PruneKeepsPreserved(st, valid);
      }
      TidyRun(Step(st, ops[0]), ops[1..], u);
    }
  }

  lemma LastRecordScan(list: seq<Profile>, u: nat, before: bool)
    requires forall p, q | p in list && q in list && p.uid == u && q.uid == u :: p.allowSu == q.allowSu
    ensures LastRecord(list, u, before) <==>
            if exists p :: p in list && p.uid == u then Scan(list, u) else before
  {
    if list != [] {
      assert forall p :: p in list <==> p == list[0] || p in list[1..];
      LastRecordScan(list[1..], u, if list[0].uid == u then list[0].allowSu else before);
    }
  }

  lemma LastNonRootListed(list: seq<Profile>, before: bool, v: bool)
    requires forall p | p in list && p.key == "$" :: p.config.umountModules == v
    ensures LastNonRoot(list, before) == if exists p :: p in list && p.key == "$" then v else before
  {
    if list != [] {
      assert forall p :: p in list <==> p == list[0] || p in list[1..];
      LastNonRootListed(list[1..], if list[0].key == "$" then list[0].config.umountModules else before, v);
    }
  }

  lemma LastRootListed(list: seq<Profile>, before: RootProfile, v: RootProfile)
    requires forall p | p in list && p.key == "#" :: p.config.rootProfile == v
    ensures LastRoot(list, before) == if exists p :: p in list && p.key == "#" then v else before
  {
    if list != [] {
      assert forall p :: p in list <==> p == list[0] || p in list[1..];
      LastRootListed(list[1..], if list[0].key == "#" then list[0].config.rootProfile else before, v);
    }
  }

  lemma ListedDefaultsCurrent(st: State)
    requires DefaultsListed(st)
    ensures st.nonRoot == LastNonRoot(st.list, INITIAL.nonRoot) && st.root == LastRoot(st.list, INITIAL.root)
  {
    LastNonRootListed(st.list, INITIAL.nonRoot, st.nonRoot);
    LastRootListed(st.list, INITIAL.root, st.root);
    hide LastNonRoot, LastRoot, DefaultsPreserved;
  }

  // -------- The array suffices after a tidy run --------

  // The uids whose entries take a cell.
  ghost function HighUids(list: seq<Profile>): set<nat> {
    set p | p in list && p.uid > BITMAP_UID_MAX && p.allowSu :: p.uid
  }

  lemma HighUidsHead(p: Profile, rest: seq<Profile>)
    ensures HighUids([p] + rest) == HighUids(rest) + if p.uid > BITMAP_UID_MAX && p.allowSu then {p.uid} else {}
  {
    assert forall q :: q in [p] + rest <==> q == p || q in rest;
  }

  // An entry above the bitmap is the only one of its uid.
  lemma AloneInRest(list: seq<Profile>)
    requires list != [] && DistinctKeys(list) && OneEntryPerApp(list) && list[0].uid > BITMAP_UID_MAX
    ensures list[0].uid !in HighUids(list[1..])
  {
    forall q | q in list[1..] ensures q.uid != list[0].uid {
      var j :| 0 <= j < |list[1..]| && list[1..][j] == q;
      assert list[j + 1] == q && list[0] in list && q in list;
    }
  }

  lemma RestDistinct(list: seq<Profile>)
    requires list != [] && DistinctKeys(list) && OneEntryPerApp(list)
    ensures DistinctKeys(list[1..]) && OneEntryPerApp(list[1..])
  {
    assert forall q | q in list[1..] :: q in list;
  }

  lemma {:induction false} HighAllowedUids(list: seq<Profile>)
    requires DistinctKeys(list) && OneEntryPerApp(list)
    ensures HighAllowed(list) == |HighUids(list)|
    decreases |list|
  {
    if list != [] {
      var p, rest := list[0], list[1..];
      assert list == [p] + rest;
      HighUidsHead(p, rest);
      RestDistinct(list);
      if p.uid > BITMAP_UID_MAX { AloneInRest(list); }
      hide HighUids, DistinctKeys, OneEntryPerApp;
      HighAllowedUids(rest);
    }
  }

  ghost function CellUids(cells: seq<nat>): set<nat> {
    set c | c in cells
  }

  lemma {:induction false} CellCount(cells: seq<nat>)
    ensures |CellUids(cells)| <= |cells|
    decreases |cells|
  {
    if cells != [] {
      CellCount(cells[1..]);
      assert CellUids(cells) == CellUids(cells[1..]) + {cells[0]};
    }
  }

  lemma SubsetCount(a: set<nat>, b: set<nat>)
    requires a <= b
    ensures |a| <= |b|
  {
    assert b == a + (b - a);
  }

  // Each allowed uid above the bitmap holds a cell of its own, and there are no more cells.
  lemma TidyFits(ops: seq<Op>)
    requires Tidy(INITIAL, ops)
    ensures Fits(Run(INITIAL, ops).list)
  {
    var st := Run(INITIAL, ops);
    TidyRun(INITIAL, ops, PRESERVED_UID);
    HighAllowedUids(st.list);
    forall u | u in HighUids(st.list)
      ensures u in CellUids(st.cells)
    {
      var p :| p in st.list && p.uid > BITMAP_UID_MAX && p.allowSu && p.uid == u;
      TidyRun(INITIAL, ops, u);
    }
    hide Run, Tidy, HighUids, HighAllowed;
    SubsetCount(HighUids(st.list), CellUids(st.cells));
    CellCount(st.cells);
  }

  // After a tidy run saving and loading restores the list, both default profiles, and the index
  // of every app; the whole index exactly when the last entry listed for the preserved uid
  // carries its current decision, as it does when all of them agree.
  lemma SaveLoadRestores(ops: seq<Op>, l: Layout, stale: seq<byte>)
    requires Faithful(l) && |stale| == l.size && Tidy(INITIAL, ops) && SetsRepresentable(ops)
    ensures var st := Run(INITIAL, ops);
            var r := Load(INITIAL, Save(st, l), l, stale);
            && r.list == st.list && r.nonRoot == st.nonRoot && r.root == st.root
            && (forall u | u != PRESERVED_UID :: Indexed(r, u) <==> Indexed(st, u))
            && (SameState(r, st) <==> (LastRecord(st.list, PRESERVED_UID, false) <==> Indexed(st, PRESERVED_UID)))
  {
    hide Load, Save, LastNonRoot, LastRoot, LastDecision, Tidy, Run, Indexed, Coherent, PreservedIndexed, Fits, Representable;
    var st := Run(INITIAL, ops);
    var r := Load(INITIAL, Save(st, l), l, stale);
    TidyStart();
    assert AllRepresentable(INITIAL.list);
    RunRepresentable(INITIAL, ops);
    TidyRun(INITIAL, ops, PRESERVED_UID);
    TidyFits(ops);
    LoadSaved(st, l, stale);
    ListedDefaultsCurrent(st);
    forall u: nat | u != PRESERVED_UID
      ensures Indexed(r, u) <==> Indexed(st, u)
    {
      TidyIndex(ops, u);
    }
  }

  lemma TidyStart()
    ensures Coherent(INITIAL) && PreservedIndexed(INITIAL) && DefaultsListed(INITIAL)
    ensures forall u :: !Indexed(INITIAL, u) && !Scan(INITIAL.list, u)
  {
  }

  lemma TidyIndex(ops: seq<Op>, u: nat)
    requires Tidy(INITIAL, ops) && u != PRESERVED_UID
    ensures LastRecord(Run(INITIAL, ops).list, u, false) <==> Indexed(Run(INITIAL, ops), u)
  {
    TidyRun(INITIAL, ops, u);
    LastRecordScan(Run(INITIAL, ops).list, u, false);
    hide Run, Indexed, LastRecord, Tidy;
  }

  lemma AgreeingEntriesRestore(ops: seq<Op>)
    requires Tidy(INITIAL, ops)
    requires forall p, q | p in Run(INITIAL, ops).list && q in Run(INITIAL, ops).list
                           && p.uid == PRESERVED_UID && q.uid == PRESERVED_UID :: p.allowSu == q.allowSu
    ensures LastRecord(Run(INITIAL, ops).list, PRESERVED_UID, false) <==> Indexed(Run(INITIAL, ops), PRESERVED_UID)
  {
    TidyRun(INITIAL, ops, PRESERVED_UID);
    LastRecordScan(Run(INITIAL, ops).list, PRESERVED_UID, false);
    hide Indexed, Run, Tidy, LastRecord;
  }

  lemma AppRepresentable(key: string, uid: nat, allow: bool)
    requires Holdable(key, MAX_PACKAGE_NAME) && uid < WORD
    ensures Representable(AppProfile(key, uid, allow))
  {
  }

  lemma ThreeStores(d: Profile, s: Profile)
    requires d.uid == s.uid && d.key != s.key
    ensures Store([], d) == [d] && Store([d], s) == [d, s] && Store([d, s], d) == [d, s]
  {
  }

  lemma ThreeSets(st: State, a: Op, b: Op, c: Op)
    ensures Run(st, [a, b, c]) == Step(Step(Step(st, a), b), c)
  {
    hide Step;
    assert [a, b, c][1..] == [b, c] && [b, c][1..] == [c] && [c][1..] == [];
    assert Run(Step(st, a), [b, c]) == Run(Step(Step(st, a), b), [c]);
  }

  // When they disagree the reloaded index can differ: here "$" was decided last but is listed first.
  lemma DisagreeingEntriesDiffer()
    ensures var d, s := AppProfile("$", PRESERVED_UID, false), AppProfile("#", PRESERVED_UID, true);
            var st := Run(INITIAL, [Set(d), Set(s), Set(d)]);
            && Representable(d) && Representable(s)
            && !Indexed(st, PRESERVED_UID) && LastRecord(st.list, PRESERVED_UID, false)
  {
    var d, s := AppProfile("$", PRESERVED_UID, false), AppProfile("#", PRESERVED_UID, true);
    AppRepresentable("$", PRESERVED_UID, false);
    AppRepresentable("#", PRESERVED_UID, true);
    ThreeSets(INITIAL, Set(d), Set(s), Set(d));
    ThreeStores(d, s);
    var st1 := SetProfile(INITIAL, d);
    var st2 := SetProfile(st1, s);
    hide SetProfile, Indexed, Representable, Store, Run;
    StoredList(INITIAL, d);
    StoredList(st1, s);
    StoredList(st2, d);
    SetIndex(st2, d, PRESERVED_UID);
    assert !Indexed(SetProfile(st2, d), PRESERVED_UID);
    LastOfTwo(d, s);
  }

  lemma LastOfTwo(d: Profile, s: Profile)
    requires d.uid == s.uid
    ensures LastRecord([d, s], s.uid, false) == s.allowSu
  {
    assert [d, s][1..] == [s] && [s][1..] == [];
    assert LastRecord([s], s.uid, d.allowSu) == LastRecord([], s.uid, s.allowSu);
  }
}
