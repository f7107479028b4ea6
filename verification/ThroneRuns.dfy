/** Whole runs of the tracker: each search hands its cache on to the next, and no election
    depends on it. */
module ThroneRuns {
  import opened Options
  import opened ApkTree
  import opened ApkCache
  import opened AllowState
  import opened Throne

  datatype Tracker = Tracker(throne: Throne, cache: seq<ApkHash>)

  // A tracking pass over the scanned uids and the tree at that time, or a migrating call.
  datatype Round = Scan(uids: Option<seq<UidData>>, fs: Fs) | Visit(current: nat)

  const BOOTED: Tracker := Tracker(VACANT, [])

  // Where every pass searches, and how deep.
  const APP_ROOT: Item := Item("/data/app", 2)

  ghost function Searched(t: Tracker, uids: seq<UidData>, fs: Fs, hash: Hash, verdict: Verdict): Search {
    if ManagerPresent(t.throne, uids) then Search(t.cache, None)
    else SearchAll(t.cache, ApkOrder(fs, APP_ROOT), hash, verdict)
  }

  ghost function Advance(t: Tracker, r: Round, hash: Hash, verdict: Verdict): Tracker {
    match r
    case Scan(None, _) => t
    case Scan(Some(uids), fs) =>
      var st := Searched(t, uids, fs, hash, verdict);
      Tracker(Track(t.throne, uids, st.found), st.cache)
    case Visit(current) => t.(throne := Migrate(t.throne, current))
  }

  ghost function AdvanceAll(t: Tracker, rounds: seq<Round>, hash: Hash, verdict: Verdict): Tracker
    decreases |rounds|
  {
    if rounds == [] then t else AdvanceAll(Advance(t, rounds[0], hash, verdict), rounds[1..], hash, verdict)
  }

  // The first manager apk of the tree, as a search without a cache finds it.
  function Elects(fs: Fs, verdict: Verdict): Option<string> {
    FirstManager(ApkOrder(fs, APP_ROOT), verdict)
  }

  // The same rounds without any cache.
  function Uncached(rounds: seq<Round>, verdict: Verdict): seq<Event> {
    if rounds == [] then []
    else
      var e := match rounds[0]
               case Scan(uids, fs) => Pass(uids, Elects(fs, verdict))
               case Visit(current) => Call(current);
      [e] + Uncached(rounds[1..], verdict)
  }

  ghost predicate Within(r: Round, known: set<string>) {
    r.Scan? ==> forall apk | apk in ApkOrder(r.fs, APP_ROOT) :: apk in known
  }

  // One round elects what it would without the cache, and leaves a good one.
  lemma AdvanceTransparent(t: Tracker, r: Round, known: set<string>, hash: Hash, verdict: Verdict)
    requires Separates(known, hash, verdict) && CacheOk(t.cache, known, hash, verdict) && Within(r, known)
    ensures CacheOk(Advance(t, r, hash, verdict).cache, known, hash, verdict)
    ensures Advance(t, r, hash, verdict).throne == Step(t.throne, Uncached([r], verdict)[0])
  {
    hide Separates, CacheOk, SearchAll, FirstManager, ApkOrder, Crown;
    if r.Scan? {
      SearchTransparent(t.cache, ApkOrder(r.fs, APP_ROOT), known, hash, verdict);
    }
  }

  // Over every sequence of rounds the throne goes as if no search had a cache.
  lemma {:induction false} RunsElectUncached(t: Tracker, rounds: seq<Round>, known: set<string>, hash: Hash, verdict: Verdict)
    requires Separates(known, hash, verdict) && CacheOk(t.cache, known, hash, verdict)
    requires forall r | r in rounds :: Within(r, known)
    ensures CacheOk(AdvanceAll(t, rounds, hash, verdict).cache, known, hash, verdict)
    ensures AdvanceAll(t, rounds, hash, verdict).throne == Run(t.throne, Uncached(rounds, verdict))
    decreases |rounds|
  {
    hide Separates, CacheOk, Within, Advance, Step, Elects;
    if rounds != [] {
      assert rounds[0] in rounds && forall r | r in rounds[1..] :: r in rounds;
      AdvanceTransparent(t, rounds[0], known, hash, verdict);
      RunsElectUncached(Advance(t, rounds[0], hash, verdict), rounds[1..], known, hash, verdict);
      assert Uncached(rounds, verdict)[1..] == Uncached(rounds[1..], verdict);
      assert Uncached(rounds, verdict)[0] == Uncached([rounds[0]], verdict)[0];
    }
  }

  // An absent manager loses the throne.
  function Vacated(t: Throne): Throne {
    if t.locked != INVALID_UID then VACANT else t
  }

  ghost predicate HoldsExactly(cache: seq<ApkHash>, apks: seq<string>, hash: Hash) {
    forall h :: Cached(cache, h) <==> exists apk :: apk in apks && hash(apk) == h
  }

  // After any rounds from boot, a pass that searches crowns the package of the first manager
  // apk of its own tree. The cache is then empty, or holds exactly the apks of that tree.
  lemma SearchingPassCrowns(rounds: seq<Round>, uids: seq<UidData>, fs: Fs, known: set<string>, hash: Hash, verdict: Verdict)
    requires Separates(known, hash, verdict)
    requires forall r | r in rounds :: Within(r, known)
    requires Within(Scan(Some(uids), fs), known)
    ensures var t := AdvanceAll(BOOTED, rounds, hash, verdict);
            var r := Advance(t, Scan(Some(uids), fs), hash, verdict);
            !ManagerPresent(t.throne, uids) ==>
              if Elects(fs, verdict).Some? then r == Tracker(Crown(Vacated(t.throne), Elects(fs, verdict).value, uids), [])
              else r.throne == Vacated(t.throne) && HoldsExactly(r.cache, ApkOrder(fs, APP_ROOT), hash)
  {
    RunsElectUncached(BOOTED, rounds, known, hash, verdict);
    var t := AdvanceAll(BOOTED, rounds, hash, verdict);
    hide AdvanceAll, Separates, CacheOk, SearchAll, FirstManager, ApkOrder, Crown;
    SearchTransparent(t.cache, ApkOrder(fs, APP_ROOT), known, hash, verdict);
  }

  lemma TwoRounds(t: Tracker, first: Round, second: Round, hash: Hash, verdict: Verdict)
    ensures AdvanceAll(t, [first, second], hash, verdict) == Advance(Advance(t, first, hash, verdict), second, hash, verdict)
    ensures Uncached([first, second], verdict) == Uncached([first], verdict) + Uncached([second], verdict)
    ensures Run(t.throne, Uncached([first, second], verdict)) ==
            Step(Step(t.throne, Uncached([first], verdict)[0]), Uncached([second], verdict)[0])
  {
    hide Advance, Step, Elects;
    assert [first, second][1..] == [second] && [second][1..] == [] && [first][1..] == [];
    var events := Uncached([first, second], verdict);
    assert events == [Uncached([first], verdict)[0], Uncached([second], verdict)[0]];
    assert events[1..] == [Uncached([second], verdict)[0]] && events[1..][1..] == [];
    assert AdvanceAll(Advance(t, first, hash, verdict), [second], hash, verdict) ==
           Advance(Advance(t, first, hash, verdict), second, hash, verdict);
    assert Run(Step(t.throne, events[0]), events[1..]) == Step(Step(t.throne, events[0]), events[1]);
  }

  lemma TwoSearches(p: string, q: string, hash: Hash, verdict: Verdict)
    ensures var st := SearchAll([], [p], hash, verdict);
            SearchRuns([], [[p], [q]], hash, verdict) == [st.found, SearchAll(st.cache, [q], hash, verdict).found]
  {
    hide SearchAll;
    assert [[p], [q]][1..] == [[q]] && [[q]][1..] == [];
    var st := SearchAll([], [p], hash, verdict);
    assert SearchRuns(st.cache, [[q]], hash, verdict) == [SearchAll(st.cache, [q], hash, verdict).found];
  }

  // The tree with one app directory that holds only its apk.
  function LoneApp(name: string): Fs {
    map[APP_ROOT.path := Dir(1, [Entry(name, true)]), Join(APP_ROOT.path, name) := Dir(1, [Entry("base.apk", false)])]
  }

  lemma OneEntry(path: string, depth: nat, e: Entry)
    ensures ChildrenIn(path, depth, [e]) == if Enters(path, depth, e) then [Item(Join(path, e.name), depth - 1)] else []
    ensures ApksIn(path, depth, [e]) == if IsApk(path, depth, e) then [Join(path, e.name)] else []
  {
    assert [e][1..] == [] && ChildrenIn(path, depth, []) == [] && ApksIn(path, depth, []) == [];
  }

  lemma LoneAppOrder(name: string)
    requires Considered(APP_ROOT.path, Entry(name, true)) && |name| + 19 < DATA_PATH_LEN
    ensures ApkOrder(LoneApp(name), APP_ROOT) == ["/data/app" + "/" + name + "/" + "base.apk"]
  {
    var fs := LoneApp(name);
    var app := Item(Join(APP_ROOT.path, name), 1);
    assert |APP_ROOT.path| == 9 && |app.path| == 10 + |name|;
    OneEntry(APP_ROOT.path, 2, Entry(name, true));
    OneEntry(app.path, 1, Entry("base.apk", false));
    assert fs[app.path].entries == [Entry("base.apk", false)];
    assert IsApk(app.path, 1, Entry("base.apk", false)) by { assert |Join(app.path, "base.apk")| == |app.path| + 9; }
    assert Children(fs, 1, APP_ROOT) == [app] && Apks(fs, 1, APP_ROOT) == [];
    assert Children(fs, 1, app) == [] && Apks(fs, 1, app) == [Join(app.path, "base.apk")];
    assert Fifo(fs, 1, []) == [] && Fifo(fs, 1, [app]) == [app] by { assert [app][1..] + [] == []; }
    assert Fifo(fs, 1, [APP_ROOT]) == [APP_ROOT, app] by { assert [APP_ROOT][1..] + [app] == [app]; }
    assert [APP_ROOT, app][1..] == [app] && [app][1..] == [];
    hide Fifo, Apks;
    assert ApksOf(fs, 1, [app]) == [Join(app.path, "base.apk")];
  }

  lemma OneApk(apk: string, verdict: Verdict)
    ensures FirstManager([apk], verdict) == if verdict(apk) then Some(apk) else None
  {
    assert [apk][1..] == [] && FirstManager([], verdict) == None;
  }

  // From boot, a tree with one apk p and then a tree with one manager apk q: the cached run
  // crowns q's uid exactly when the two hashes differ, though without a cache it always does.
  lemma CollisionHidesCrown(p: string, q: string, before: Fs, after: Fs, uids: seq<UidData>, uid: nat, hash: Hash, verdict: Verdict)
    requires !verdict(p) && verdict(q) && ApkOrder(before, APP_ROOT) == [p] && ApkOrder(after, APP_ROOT) == [q]
    requires !Scanned(uids, INVALID_APP) && uid != INVALID_UID && Crown(VACANT, q, uids) == Throne(uid, uid)
    ensures var rounds := [Scan(Some(uids), before), Scan(Some(uids), after)];
            && Run(VACANT, Uncached(rounds, verdict)) == Throne(uid, uid)
            && AdvanceAll(BOOTED, rounds, hash, verdict).throne == (if hash(p) == hash(q) then VACANT else Throne(uid, uid))
  {
    hide ApkOrder, Crown, Scanned, SearchAll;
    var first, second := Scan(Some(uids), before), Scan(Some(uids), after);
    OneApk(p, verdict);
    OneApk(q, verdict);
    assert Elects(before, verdict) == None && Elects(after, verdict) == Some(q);
    hide FirstManager;
    TwoRounds(BOOTED, first, second, hash, verdict);
    if hash(p) != hash(q) {
      RunsElectUncached(BOOTED, [first, second], {p, q}, hash, verdict);
    } else {
      CollisionHidesManager(p, q, hash, verdict);
      TwoSearches(p, q, hash, verdict);
    }
  }
}
