/** The manager election: which uid is the manager, which one is locked in, and what every run
    of tracking passes and uid migrations keeps. */
module Throne {
  import opened Options
  import opened PackagePath
  import opened AllowState
  import opened AllowRuns

  const PER_USER: nat := 100000

  datatype UidData = UidData(uid: nat, package: string)

  datatype Throne = Throne(manager: nat, locked: nat)

  const VACANT: Throne := Throne(INVALID_UID, INVALID_UID)

  function FirstUid(uids: seq<UidData>, package: string): Option<nat> {
    if uids == [] then None
    else if uids[0].package == package then Some(uids[0].uid)
    else FirstUid(uids[1..], package)
  }

  // The manager apk's package is looked up among the scanned ones.
  ghost function Crown(t: Throne, apk: string, uids: seq<UidData>): Throne {
    match PackageOf(apk)
    case None => t
    case Some(package) =>
      match FirstUid(uids, package)
      case None => t
      case Some(uid) => Throne(uid, uid)
  }

  predicate Scanned(uids: seq<UidData>, uid: nat) {
    exists np :: np in uids && np.uid == uid
  }

  predicate ManagerPresent(t: Throne, uids: seq<UidData>) {
    Scanned(uids, t.manager % PER_USER)
  }

  // found is the manager apk that a search elects, when there is one.
  ghost function Track(t: Throne, uids: seq<UidData>, found: Option<string>): Throne {
    if ManagerPresent(t, uids) then t
    else
      var t' := if t.locked != INVALID_UID then VACANT else t;
      if found.Some? then Crown(t', found.value, uids) else t'
  }

  function Migrate(t: Throne, current: nat): Throne {
    if current != t.manager && current % PER_USER == t.manager then t.(manager := current) else t
  }

  // A failed scan ends a pass before it changes anything.
  datatype Event = Pass(uids: Option<seq<UidData>>, found: Option<string>) | Call(current: nat)

  ghost function Step(t: Throne, e: Event): Throne {
    match e
    case Pass(uids, found) => if uids.Some? then Track(t, uids.value, found) else t
    case Call(current) => Migrate(t, current)
  }

  ghost function Run(t: Throne, events: seq<Event>): Throne
    decreases |events|
  {
    if events == [] then t else Run(Step(t, events[0]), events[1..])
  }

  ghost predicate Consistent(t: Throne) {
    && (t.locked == INVALID_UID <==> t.manager == INVALID_UID)
    && (t.manager != INVALID_UID ==> t.manager % PER_USER == t.locked)
  }

  // App ids of one user.
  ghost predicate AppUids(uids: seq<UidData>) {
    forall np | np in uids :: np.uid < PER_USER
  }

  // No task runs with the invalid uid.
  ghost predicate Plausible(e: Event) {
    match e
    case Pass(uids, found) => uids.Some? ==> AppUids(uids.value)
    case Call(current) => current < INVALID_UID
  }

  // The locked uid is that of some app, as it comes from a scanned list.
  ghost predicate Reachable(t: Throne) {
    Consistent(t) && (t.locked != INVALID_UID ==> t.locked < PER_USER)
  }

  lemma FirstUidScanned(uids: seq<UidData>, package: string)
    ensures FirstUid(uids, package).Some? ==> Scanned(uids, FirstUid(uids, package).value)
  {
    if uids != [] {
      FirstUidScanned(uids[1..], package);
      assert forall np | np in uids[1..] :: np in uids;
      assert uids[0] in uids;
    }
  }

  lemma CrownScanned(t: Throne, apk: string, uids: seq<UidData>)
    ensures Crown(t, apk, uids) == t ||
            exists u :: Scanned(uids, u) && Crown(t, apk, uids) == Throne(u, u)
  {
    if PackageOf(apk).Some? { FirstUidScanned(uids, PackageOf(apk).value); }
  }

  // The index of the first entry of a package, or |uids|.
  function IndexOfPackage(uids: seq<UidData>, package: string): (i: nat)
    ensures i <= |uids| && (i < |uids| ==> uids[i].package == package)
    ensures forall j | 0 <= j < i :: uids[j].package != package
  {
    if uids == [] || uids[0].package == package then 0 else 1 + IndexOfPackage(uids[1..], package)
  }

  lemma FirstUidMeans(uids: seq<UidData>, package: string)
    ensures var i := IndexOfPackage(uids, package);
            FirstUid(uids, package) == if i < |uids| then Some(uids[i].uid) else None
  {
  }

  // The scanned entry at i is the first one with the package that the path decomposes to.
  ghost predicate FirstOwner(uids: seq<UidData>, apk: string, i: nat) {
    && i < |uids| && HasPackage(apk, uids[i].package)
    && forall j | 0 <= j < i :: !HasPackage(apk, uids[j].package)
  }

  lemma CrownIsFirst(t: Throne, apk: string, uids: seq<UidData>)
    ensures forall i: nat | FirstOwner(uids, apk, i) :: Crown(t, apk, uids) == Throne(uids[i].uid, uids[i].uid)
    ensures (forall i: nat :: !FirstOwner(uids, apk, i)) ==> Crown(t, apk, uids) == t
  {
    hide HasPackage, IndexOfPackage;
    assert forall other :: PackageOf(apk) == Some(other) <==> HasPackage(apk, other);
    if PackageOf(apk).Some? {
      var package := PackageOf(apk).value;
      var k := IndexOfPackage(uids, package);
      FirstUidMeans(uids, package);
      assert forall other :: HasPackage(apk, other) <==> other == package;
      assert forall i: nat :: FirstOwner(uids, apk, i) <==> i == k < |uids|;
      assert k < |uids| ==> FirstOwner(uids, apk, k);
    } else {
      assert forall other :: !HasPackage(apk, other);
    }
  }

  // A search that finds apk makes u manager and locked exactly when u is the uid of the first
  // scanned entry with that path's package. Without one the throne is left, or becomes, vacant.
  lemma SearchCrownsOwner(t: Throne, uids: seq<UidData>, apk: string, u: nat)
    requires !(exists i :: 0 <= i < |uids| && uids[i].uid == t.manager % 100000) && u != INVALID_UID
    ensures Track(t, uids, Some(apk)) == Throne(u, u) <==>
            exists i: nat :: i < |uids| && uids[i].uid == u && HasPackage(apk, uids[i].package)
                             && forall j | 0 <= j < i :: !HasPackage(apk, uids[j].package)
    ensures (forall i | 0 <= i < |uids| :: !HasPackage(apk, uids[i].package)) ==>
              Track(t, uids, Some(apk)) == Track(t, uids, None)
    ensures Track(t, uids, None) == if t.locked == INVALID_UID then t else Throne(INVALID_UID, INVALID_UID)
  {
    hide HasPackage, Crown;
    ScannedIndex(uids, t.manager % PER_USER);
    CrownIsFirst(if t.locked != INVALID_UID then VACANT else t, apk, uids);
    if exists i: nat :: FirstOwner(uids, apk, i) && uids[i].uid == u {
      var i: nat :| FirstOwner(uids, apk, i) && uids[i].uid == u;
      assert i < |uids| && uids[i].uid == u;
    }
    if i: nat :| i < |uids| && uids[i].uid == u && HasPackage(apk, uids[i].package)
                 && forall j | 0 <= j < i :: !HasPackage(apk, uids[j].package) {
      assert FirstOwner(uids, apk, i);
    }
  }

  lemma ScannedIndex(uids: seq<UidData>, uid: nat)
    ensures Scanned(uids, uid) <==> exists i :: 0 <= i < |uids| && uids[i].uid == uid
  {
    if i :| 0 <= i < |uids| && uids[i].uid == uid { assert uids[i] in uids; }
  }

  // A manager whose app is scanned stays, whatever user's instance it is.
  lemma PresentStays(t: Throne, uids: seq<UidData>, found: Option<string>)
    requires exists i :: 0 <= i < |uids| && uids[i].uid == t.manager % 100000
    ensures Track(t, uids, found) == t
  {
    ScannedIndex(uids, t.manager % PER_USER);
    hide Crown;
  }

  // -------- Calls --------

  function Calls(uids: seq<nat>): seq<Event> {
    seq(|uids|, i requires 0 <= i < |uids| => Call(uids[i]))
  }

  lemma {:induction false} SettledCalls(t: Throne, uids: seq<nat>)
    requires t.manager >= 100000
    ensures Run(t, Calls(uids)) == t
    decreases |uids|
  {
    if uids != [] {
      assert Calls(uids)[1..] == Calls(uids[1..]) && uids[0] % PER_USER < PER_USER;
      SettledCalls(t, uids[1..]);
    }
  }

  // Among the calls after an election the first one from the manager's app under another user
  // takes over, and no later one does. The locked uid stays.
  lemma {:induction false} FirstCallTakesOver(t: Throne, uids: seq<nat>)
    requires t.manager == t.locked < 100000
    ensures Run(t, Calls(uids)).locked == t.locked
    ensures forall i | 0 <= i < |uids| && uids[i] >= 100000 && uids[i] % 100000 == t.locked
                       && forall j | 0 <= j < i :: uids[j] < 100000 || uids[j] % 100000 != t.locked ::
              Run(t, Calls(uids)).manager == uids[i]
    ensures (forall i | 0 <= i < |uids| :: uids[i] < 100000 || uids[i] % 100000 != t.locked) ==> Run(t, Calls(uids)) == t
    decreases |uids|
  {
    if uids != [] {
      assert Calls(uids)[1..] == Calls(uids[1..]);
      assert forall i | 0 <= i < |uids| - 1 :: uids[1..][i] == uids[i + 1];
      if uids[0] >= 100000 && uids[0] % 100000 == t.locked {
        SettledCalls(Throne(uids[0], t.locked), uids[1..]);
      } else {
        FirstCallTakesOver(t, uids[1..]);
      }
    }
  }

  // After a completed pass the manager is invalid, or its app is among the scanned ones.
  lemma PassElectsScanned(t: Throne, uids: seq<UidData>, found: Option<string>)
    requires Reachable(t) && AppUids(uids)
    ensures Reachable(Track(t, uids, found))
    ensures Track(t, uids, found).manager == INVALID_UID || Scanned(uids, Track(t, uids, found).manager % PER_USER)
  {
    if !ManagerPresent(t, uids) && found.Some? {
      CrownScanned(if t.locked != INVALID_UID then VACANT else t, found.value, uids);
    }
    hide Crown;
  }

  lemma MigrationKeepsReachable(t: Throne, current: nat)
    requires Reachable(t) && current < INVALID_UID
    ensures Reachable(Migrate(t, current)) && Migrate(t, current).locked == t.locked
  {
  }

  lemma {:induction false} RunKeepsReachable(t: Throne, events: seq<Event>)
    requires Reachable(t) && forall e | e in events :: Plausible(e)
    ensures Reachable(Run(t, events))
    decreases |events|
  {
    hide Reachable, Track, Migrate;
    if events != [] {
      assert Plausible(events[0]) && forall e | e in events[1..] :: e in events;
      match events[0] {
        case Pass(uids, found) => if uids.Some? { PassElectsScanned(t, uids.value, found); }
        case Call(current) => MigrationKeepsReachable(t, current);
      }
      RunKeepsReachable(Step(t, events[0]), events[1..]);
    }
  }

  // Every run from boot keeps the two uids consistent.
  lemma ThroneConsistent(events: seq<Event>)
    requires forall e | e in events :: Plausible(e)
    ensures Consistent(Run(VACANT, events))
  {
    RunKeepsReachable(VACANT, events);
  }

  // The uid that a pass crowns, if it crowns one.
  ghost function Elected(t: Throne, uids: seq<UidData>, found: Option<string>): Option<nat> {
    if ManagerPresent(t, uids) || found.None? || PackageOf(found.value).None? then None
    else FirstUid(uids, PackageOf(found.value).value)
  }

  // Whatever uids are scanned, a pass keeps the two uids consistent exactly when it crowns no
  // uid or an app id of the first user.
  lemma PassConsistentExact(t: Throne, uids: seq<UidData>, found: Option<string>)
    requires Consistent(t) && forall np | np in uids :: np.uid < INVALID_UID
    ensures Consistent(Track(t, uids, found)) <==>
            Elected(t, uids, found).None? || Elected(t, uids, found).value < PER_USER
  {
    if Elected(t, uids, found).Some? { FirstUidScanned(uids, PackageOf(found.value).value); }
    hide PackageOf;
  }

  // The app id that the invalid uid has as a manager.
  const INVALID_APP: nat := INVALID_UID % PER_USER

  // A pass on a vacant throne takes it for present, and elects nobody, exactly when that app id
  // is scanned.
  lemma VacantPassElects(uids: seq<UidData>, apk: string)
    requires PackageOf(apk).Some? && FirstUid(uids, PackageOf(apk).value).Some? && AppUids(uids)
    ensures Track(VACANT, uids, Some(apk)) == VACANT <==> Scanned(uids, INVALID_APP)
    ensures !Scanned(uids, INVALID_APP) ==>
              var uid := FirstUid(uids, PackageOf(apk).value).value; Track(VACANT, uids, Some(apk)) == Throne(uid, uid)
  {
    FirstUidScanned(uids, PackageOf(apk).value);
    hide PackageOf;
  }

  // While every scan lists that app id, no run from boot ever has a manager.
  lemma {:induction false} VacantForever(events: seq<Event>)
    requires forall e | e in events :: Plausible(e) && (e.Pass? && e.uids.Some? ==> Scanned(e.uids.value, INVALID_APP))
    ensures Run(VACANT, events) == VACANT
    decreases |events|
  {
    if events != [] {
      assert events[0] in events && forall e | e in events[1..] :: e in events;
      hide Scanned, Crown;
      assert Step(VACANT, events[0]) == VACANT;
      VacantForever(events[1..]);
    }
  }

  // -------- Pruning the allow list at the end of a pass --------

  predicate UidExists(uids: seq<UidData>, uid: nat, package: string) {
    exists np :: np in uids && np.uid == uid % PER_USER && np.package == package
  }

  function ExistCheck(uids: seq<UidData>): UidCheck {
    (uid: nat, package: string) => UidExists(uids, uid, package)
  }

  // Every surviving entry belongs to the preserved uid or to a scanned package.
  lemma SurvivorsScanned(st: State, uids: seq<UidData>, p: Profile)
    ensures p in Prune(st, ExistCheck(uids)).list <==>
            p in st.list && (p.uid == 9999 || exists np :: np in uids && np.uid == p.uid % 100000 && np.package == p.key)
  {
    PruneIsFilter(st, ExistCheck(uids));
    KeptInMember(st.list, ExistCheck(uids), p);
  }
}
