/** The tracker that looks for the manager apk and elects its uid: the worklist search with its
    cache, and a whole tracking pass. */
module ThroneTracker {
  import opened Options
  import opened PackagePath
  import opened ApkTree
  import opened ApkPaths
  import opened ApkCache
  import opened AllowState
  import opened Throne
  import opened ThroneRuns
  import A = AllowList

  // What is left to meet from a worklist: its first entry, then the rest and the children.
  lemma NextApks(fs: Fs, magic: nat, q: seq<Item>, st: Search, hash: Hash, verdict: Verdict)
    requires q != []
    ensures SeeAll(st, ApksOf(fs, magic, Fifo(fs, magic, q)), hash, verdict) ==
            SeeAll(SeeAll(st, Apks(fs, magic, q[0]), hash, verdict),
                   ApksOf(fs, magic, Fifo(fs, magic, q[1..] + Children(fs, magic, q[0]))), hash, verdict)
  {
    NextWeight(fs, magic, q);
    var rest := Fifo(fs, magic, q[1..] + Children(fs, magic, q[0]));
    assert Fifo(fs, magic, q) == [q[0]] + rest;
    assert ([q[0]] + rest)[1..] == rest;
    SeeAllConcat(st, Apks(fs, magic, q[0]), ApksOf(fs, magic, rest), hash, verdict);
  }

  lemma FirstApk(st: Search, item: Item, e: Entry, later: seq<string>, hash: Hash, verdict: Verdict)
    ensures SeeAll(st, (if IsApk(item.path, item.depth, e) then [Join(item.path, e.name)] else []) + later, hash, verdict) ==
            SeeAll(if IsApk(item.path, item.depth, e) then See(st, Join(item.path, e.name), hash, verdict) else st, later, hash, verdict)
  {
    if IsApk(item.path, item.depth, e) {
      assert ([Join(item.path, e.name)] + later)[1..] == later;
    } else {
      assert [] + later == later;
    }
  }

  lemma NextVisits(fs: Fs, magic: nat, q: seq<Item>)
    requires q != []
    ensures Visits(fs, magic, Fifo(fs, magic, q)) ==
            (if Visitable(fs, magic, q[0].path) then [q[0].path] else [])
            + Visits(fs, magic, Fifo(fs, magic, q[1..] + Children(fs, magic, q[0])))
  {
    NextWeight(fs, magic, q);
    var rest := Fifo(fs, magic, q[1..] + Children(fs, magic, q[0]));
    assert Fifo(fs, magic, q) == [q[0]] + rest;
    assert ([q[0]] + rest)[1..] == rest;
  }

  // A path is copied into a buffer of fixed length.
  function Truncated(path: string): string {
    if |path| < DATA_PATH_LEN then path else path[..DATA_PATH_LEN - 1]
  }

  lemma FirstOff(worklist: seq<Item>, appended: seq<Item>, more: seq<Item>)
    requires worklist != [] && worklist <= appended <= worklist + more
    ensures worklist[1..] <= appended[1..] <= worklist[1..] + more
    ensures appended == worklist + more ==> appended[1..] == worklist[1..] + more
  {
    assert appended[..|worklist|] == worklist;
    assert (worklist + more)[1..] == worklist[1..] + more;
    assert appended == (worklist + more)[..|appended|];
  }

  lemma Regroup<T>(a: seq<T>, b: seq<T>, c: seq<T>)
    ensures (a + b) + c == a + (b + c)
  {
  }

  lemma DropHead(c: ApkHash, rest: seq<ApkHash>)
    ensures DropUnseen([c] + rest) == (if c.seen then [c] else []) + DropUnseen(rest)
  {
    assert ([c] + rest)[1..] == rest;
  }

  lemma {:induction false} DropLast(a: seq<ApkHash>, last: ApkHash)
    ensures DropUnseen(a + [last]) == DropUnseen(a) + if last.seen then [last] else []
  {
    DropHead(last, []);
    if a == [] {
      assert a + [last] == [last] && [last] + [] == [last];
    } else {
      hide DropUnseen;
      DropLast(a[1..], last);
      assert a == [a[0]] + a[1..] && a + [last] == [a[0]] + (a[1..] + [last]);
      DropHead(a[0], a[1..]);
      DropHead(a[0], a[1..] + [last]);
      Regroup(if a[0].seen then [a[0]] else [], DropUnseen(a[1..]), if last.seen then [last] else []);
    }
  }

  lemma DropNext(cache: seq<ApkHash>, k: nat)
    requires k < |cache|
    ensures DropUnseen(cache[..k + 1]) == DropUnseen(cache[..k]) + if cache[k].seen then [cache[k]] else []
  {
    assert cache[..k + 1] == cache[..k] + [cache[k]];
    DropLast(cache[..k], cache[k]);
  }

  lemma FirstChild(item: Item, e: Entry, entries: seq<Entry>)
    requires entries != [] && entries[0] == e
    ensures ChildrenIn(item.path, item.depth, entries) ==
            (if Enters(item.path, item.depth, e) then [Item(Join(item.path, e.name), item.depth - 1)] else [])
            + ChildrenIn(item.path, item.depth, entries[1..])
  {
  }

  lemma CrownedOwner(t: Throne, apk: string, uids: seq<UidData>)
    ensures forall i | 0 <= i < |uids| && HasPackage(apk, uids[i].package)
                       && forall j | 0 <= j < i :: !HasPackage(apk, uids[j].package) ::
              Crown(t, apk, uids) == Throne(uids[i].uid, uids[i].uid)
    ensures (forall i | 0 <= i < |uids| :: !HasPackage(apk, uids[i].package)) ==> Crown(t, apk, uids) == t
  {
    hide HasPackage, Crown;
    CrownIsFirst(t, apk, uids);
    forall i | 0 <= i < |uids| && HasPackage(apk, uids[i].package) && forall j | 0 <= j < i :: !HasPackage(apk, uids[j].package)
      ensures FirstOwner(uids, apk, i)
    {
    }
  }

  class ThroneTracker {
    var manager: nat
    var locked: nat
    var cache: seq<ApkHash>

    function View(): Throne
      reads this
    {
      Throne(manager, locked)
    }

    constructor ()
      ensures View() == VACANT && cache == []
    {
      manager, locked, cache := INVALID_UID, INVALID_UID, [];
    }

    method CrownManager(apk: string, uids: seq<UidData>)
      modifies this`manager, this`locked
      ensures View() == Crown(old(View()), apk, uids)
      ensures forall i | 0 <= i < |uids| && HasPackage(apk, uids[i].package)
                         && forall j | 0 <= j < i :: !HasPackage(apk, uids[j].package) :: manager == locked == uids[i].uid
      ensures (forall i | 0 <= i < |uids| :: !HasPackage(apk, uids[i].package)) ==> View() == old(View())
    {
      CrownedOwner(View(), apk, uids);
      hide HasPackage;
      var package := GetPkgFromApkPath(apk);
      if package.None? {
        return;
      }
      var i := 0;
      while i < |uids|
        invariant 0 <= i <= |uids| && View() == old(View())
        invariant FirstUid(uids, package.value) == FirstUid(uids[i..], package.value)
      {
        if uids[i].package == package.value {
          if locked != INVALID_UID && locked != uids[i].uid {
            manager := INVALID_UID;
            locked := INVALID_UID;
          }
          manager := uids[i].uid;
          locked := uids[i].uid;
          return;
        }
        i := i + 1;
      }
    }

    // A base.apk is checked unless its hash is cached.
    method CheckApk(dirpath: string, uids: seq<UidData>, hash: Hash, verdict: Verdict) returns (found: Option<string>)
      modifies this
      ensures Search(cache, found) == See(Search(old(cache), None), dirpath, hash, verdict)
      ensures View() == if found.Some? then Crown(old(View()), found.value, uids) else old(View())
    {
      found := None;
      var h := hash(dirpath);
      var k := 0;
      while k < |cache| && cache[k].hash != h
        invariant 0 <= k <= |cache|
        invariant forall j | 0 <= j < k :: cache[j].hash != h
      {
        k := k + 1;
      }
      assert k == IndexOf(cache, h);
      if k < |cache| {
        cache := cache[k := cache[k].(seen := true)];
      } else if verdict(dirpath) {
        CrownManager(dirpath, uids);
        found := Some(dirpath);
        cache := [];
      } else {
        cache := cache + [ApkHash(h, true)];
      }
    }

    // The directory callback for one entry.
    method HandleEntry(item: Item, e: Entry, worklist: seq<Item>, uids: seq<UidData>, hash: Hash, verdict: Verdict)
      returns (worklist': seq<Item>, found: Option<string>)
      modifies this
      ensures Search(cache, found) ==
              if IsApk(item.path, item.depth, e) then See(Search(old(cache), None), Join(item.path, e.name), hash, verdict)
              else Search(old(cache), None)
      ensures View() == if found.Some? then Crown(old(View()), found.value, uids) else old(View())
      ensures worklist' ==
              worklist + if Enters(item.path, item.depth, e) then [Item(Join(item.path, e.name), item.depth - 1)] else []
    {
      hide See, Crown;
      worklist', found := worklist, None;
      if Dots(e.name) || Staging(e) {
        return;
      }
      var dirpath := Join(item.path, e.name);
      if |dirpath| >= DATA_PATH_LEN {
        return;
      }
      if e.isDir && item.depth > 0 {
        worklist' := worklist' + [Item(dirpath, item.depth - 1)];
      } else if |e.name| == 8 && e.name == "base.apk" {
        found := CheckApk(dirpath, uids, hash, verdict);
      }
    }

    // The directory callback, over one whole directory: subdirectories join the worklist, apks
    // are checked unless their hash is cached, and a manager apk ends the search.
    method IterateDir(item: Item, entries: seq<Entry>, worklist: seq<Item>, uids: seq<UidData>,
                      hash: Hash, verdict: Verdict) returns (worklist': seq<Item>, found: Option<string>)
      modifies this
      ensures Search(cache, found) ==
              SeeAll(Search(old(cache), None), ApksIn(item.path, item.depth, entries), hash, verdict)
      ensures View() == if found.Some? then Crown(old(View()), found.value, uids) else old(View())
      ensures worklist <= worklist'
      ensures worklist' <= worklist + ChildrenIn(item.path, item.depth, entries)
      ensures found.None? ==> worklist' == worklist + ChildrenIn(item.path, item.depth, entries)
    {
      worklist', found := worklist, None;
      ghost var start := Search(cache, None);
      ghost var goal := SeeAll(start, ApksIn(item.path, item.depth, entries), hash, verdict);
      ghost var all := worklist + ChildrenIn(item.path, item.depth, entries);
      assert entries[0..] == entries;
      var i := 0;
      while i < |entries|
        invariant 0 <= i <= |entries|
        invariant found.None? && View() == old(View()) && worklist <= worklist'
        invariant all == worklist' + ChildrenIn(item.path, item.depth, entries[i..])
        invariant goal == SeeAll(Search(cache, None), ApksIn(item.path, item.depth, entries[i..]), hash, verdict)
      {
        hide ChildrenIn, ApksIn, SeeAll, See, Crown, Enters, IsApk;
        var e := entries[i];
        FirstChild(item, e, entries[i..]);
        assert entries[i..][1..] == entries[i + 1..] && entries[i..][0] == e;
        ghost var later := ApksIn(item.path, item.depth, entries[i + 1..]);
        FirstApk(Search(cache, None), item, e, later, hash, verdict);
        i := i + 1;
        ghost var before := worklist';
        worklist', found := HandleEntry(item, e, worklist', uids, hash, verdict);
        if found.Some? {
          StoppedSeesNothing(Search(cache, found), later, hash, verdict);
          return;
        }
        Regroup(before, if Enters(item.path, item.depth, e) then [Item(Join(item.path, e.name), item.depth - 1)] else [],
                ChildrenIn(item.path, item.depth, entries[i..]));
      }
    }

    method ResetCache()
      modifies this`cache
      ensures cache == Unseen(old(cache))
    {
      for k := 0 to |cache|
        invariant |cache| == |old(cache)|
        invariant forall j | 0 <= j < |cache| :: cache[j] == if j < k then old(cache)[j].(seen := false) else old(cache)[j]
      {
        cache := cache[k := cache[k].(seen := false)];
      }
    }

    method DropStale()
      modifies this`cache
      ensures cache == DropUnseen(old(cache))
    {
      var kept, k := [], 0;
      while k < |cache|
        invariant 0 <= k <= |cache| && cache == old(cache)
        invariant kept == DropUnseen(cache[..k])
      {
        DropNext(cache, k);
        if cache[k].seen {
          kept := kept + [cache[k]];
        }
        k := k + 1;
      }
      assert cache[..k] == cache;
      cache := kept;
    }

    // Works on the first entry of the worklist and takes it off. magic is the one that the
    // first directory has or turns out to have.
    method VisitFirst(fs: Fs, worklist: seq<Item>, found: Option<string>, dataAppMagic: nat, ghost magic: nat,
                      uids: seq<UidData>, hash: Hash, verdict: Verdict)
      returns (worklist': seq<Item>, found': Option<string>, dataAppMagic': nat, ghost entered: bool)
      requires worklist != []
      requires if dataAppMagic != 0 then dataAppMagic == magic else RootMagic(fs, worklist[0].path) == magic
      modifies this
      ensures found.Some? ==>
                && cache == old(cache) && View() == old(View()) && found' == found && worklist' == worklist[1..]
                && dataAppMagic' == dataAppMagic && !entered
      ensures found.None? ==>
                && Search(cache, found') == SeeAll(Search(old(cache), None), Apks(fs, magic, worklist[0]), hash, verdict)
                && View() == (if found'.Some? then Crown(old(View()), found'.value, uids) else old(View()))
                && worklist[1..] <= worklist' <= worklist[1..] + Children(fs, magic, worklist[0])
                && (found'.None? ==> worklist' == worklist[1..] + Children(fs, magic, worklist[0]))
                && dataAppMagic' == magic
                && entered == Visitable(fs, magic, worklist[0].path)
    {
      hide ChildrenIn, ApksIn, Crown, See;
      var pos := worklist[0];
      worklist', found', dataAppMagic', entered := worklist[1..], found, dataAppMagic, false;
      if found.Some? || pos.path !in fs {
        return;
      }
      var dir := fs[pos.path];
      if dataAppMagic' == 0 {
        if dir.magic == 0 {
          return;
        }
        dataAppMagic' := dir.magic;
      }
      if dir.magic != dataAppMagic' {
        return;
      }
      hide SeeAll;
      entered := true;
      var appended;
      appended, found' := IterateDir(pos, dir.entries, worklist, uids, hash, verdict);
      worklist' := appended[1..];
      FirstOff(worklist, appended, ChildrenIn(pos.path, pos.depth, dir.entries));
    }

    // Searches the tree below path, down to depth. The worklist is walked with a cursor that
    // fetches the next entry before the current one is worked on and taken off, so a pass ends
    // at the entry that was last when its turn came, whatever it appended. visited is the
    // sequence of directories read.
    method SearchManager(path: string, depth: nat, fs: Fs, uids: seq<UidData>, hash: Hash, verdict: Verdict)
      returns (found: Option<string>, ghost visited: seq<string>)
      modifies this
      ensures Search(cache, found) == SearchAll(old(cache), ApkOrder(fs, Item(Truncated(path), depth)), hash, verdict)
      ensures View() == if found.Some? then Crown(old(View()), found.value, uids) else old(View())
      ensures visited <= VisitOrder(fs, Item(Truncated(path), depth))
      ensures found.None? ==> visited == VisitOrder(fs, Item(Truncated(path), depth))
    {
      hide SeeAll, Fifo, Crown, Unseen, DropUnseen;
      var start := Truncated(path);
      ghost var magic, root := RootMagic(fs, start), Item(start, depth);
      ResetCache();
      ghost var goal := SeeAll(Search(cache, None), ApkOrder(fs, root), hash, verdict);
      var dataAppMagic := 0;
      var worklist := [Item(start, depth)];
      found, visited := None, [];
      assert [] + VisitOrder(fs, root) == VisitOrder(fs, root);
      var i := depth as int;
      while i >= 0
        invariant -1 <= i <= depth
        invariant forall it | it in worklist :: it.depth <= i
        invariant MagicOk(magic, root, dataAppMagic, worklist)
        invariant View() == if found.Some? then Crown(old(View()), found.value, uids) else old(View())
        invariant Progress(fs, magic, worklist, Search(cache, found), goal, hash, verdict)
        invariant VisitProgress(fs, magic, root, worklist, visited, found)
      {
        var passDone := worklist == [];
        while !passDone
          invariant !passDone ==> worklist != []
          invariant forall it | it in worklist :: it.depth <= if passDone then i - 1 else i
          invariant MagicOk(magic, root, dataAppMagic, worklist)
          invariant View() == if found.Some? then Crown(old(View()), found.value, uids) else old(View())
          invariant Progress(fs, magic, worklist, Search(cache, found), goal, hash, verdict)
          invariant VisitProgress(fs, magic, root, worklist, visited, found)
          decreases WeightAll(fs, magic, worklist)
        {
          ghost var w, st, seen := worklist, Search(cache, found), visited;
          var last := |worklist| == 1;
          ghost var entered;
          worklist, found, dataAppMagic, entered := VisitFirst(fs, worklist, found, dataAppMagic, magic, uids, hash, verdict);
          visited := if entered then visited + [w[0].path] else visited;
          WorklistShrinks(fs, magic, w, worklist, i);
          ProgressStep(fs, magic, w, worklist, st, Search(cache, found), goal, hash, verdict);
          VisitStep(fs, magic, root, w, worklist, seen, visited, st.found, found, entered);
          passDone := last;
        }
        i := i - 1;
      }
      FirstDepth(worklist);
      NothingLeft(fs, magic, root, Search(cache, found), goal, visited, hash, verdict);
      DropStale();
    }

    // One tracking pass over the scanned uids, None when scanning them failed. found is the
    // manager apk the search elected, if there was a search.
    method TrackThrone(uids: Option<seq<UidData>>, fs: Fs, hash: Hash, verdict: Verdict, allow: A.AllowList)
      returns (found: Option<string>)
      requires allow.Valid()
      modifies this, allow, allow.bitmap, allow.cells
      ensures allow.Valid()
      ensures Tracker(View(), cache) == Advance(old(Tracker(View(), cache)), Scan(uids, fs), hash, verdict)
      ensures uids.None? ==> View() == old(View()) && cache == old(cache) && allow.View() == old(allow.View())
      ensures uids.Some? ==>
                && View() == Track(old(View()), uids.value, found)
                && Search(cache, found) == (if ManagerPresent(old(View()), uids.value) then Search(old(cache), None)
                                            else SearchAll(old(cache), ApkOrder(fs, APP_ROOT), hash, verdict))
                && allow.View() == Prune(old(allow.View()), ExistCheck(uids.value))
      ensures uids.Some? && (exists i :: 0 <= i < |uids.value| && uids.value[i].uid == old(manager) % 100000) ==>
                found.None? && View() == old(View())
      ensures uids.Some? && found.Some? ==>
                && (forall i | 0 <= i < |uids.value| && HasPackage(found.value, uids.value[i].package)
                               && forall j | 0 <= j < i :: !HasPackage(found.value, uids.value[j].package) ::
                      manager == locked == uids.value[i].uid)
                && ((forall i | 0 <= i < |uids.value| :: !HasPackage(found.value, uids.value[i].package)) ==>
                      View() == if old(locked) == INVALID_UID then old(View()) else Throne(INVALID_UID, INVALID_UID))
    {
      hide SearchAll, Crown, Prune, HasPackage;
      if uids.Some? { ScannedIndex(uids.value, manager % PER_USER); }
      found := None;
      if uids.None? {
        return;
      }
      var list := uids.value;
      var managerExist, current := false, manager % PER_USER;
      for i := 0 to |list|
        invariant !managerExist && forall j | 0 <= j < i :: list[j].uid != current
      {
        if list[i].uid == current {
          managerExist := true;
          assert list[i] in list;
          break;
        }
      }
      assert managerExist <==> ManagerPresent(old(View()), list);
      if !managerExist && locked != INVALID_UID {
        manager := INVALID_UID;
        locked := INVALID_UID;
      }
      if !managerExist {
        ghost var visited;
        ghost var left := View();
        found, visited := SearchManager("/data/app", 2, fs, list, hash, verdict);
        if found.Some? { CrownedOwner(left, found.value, list); }
      }
      allow.PruneAllowlist(ExistCheck(list));
    }

    // An app calling from a secondary user whose app id is the manager's takes over.
    method MigrateManager(current: nat)
      modifies this`manager
      ensures View() == Migrate(old(View()), current)
      ensures forall hash, verdict ::
                Tracker(View(), cache) == Advance(old(Tracker(View(), cache)), Visit(current), hash, verdict)
    {
      if current != manager && current % PER_USER == manager {
        manager := current;
      }
    }
  }

  // The magic of the first directory decides which others are read.
  predicate MagicOk(magic: nat, root: Item, dataAppMagic: nat, worklist: seq<Item>) {
    worklist == [] || (dataAppMagic == magic && magic != 0) || (dataAppMagic == 0 && worklist == [root])
  }

  lemma FirstDepth(q: seq<Item>)
    ensures q == [] || exists item :: item in q && 0 <= item.depth
  {
    if q != [] { assert q[0] in q; }
  }

  // Whatever the worklist still leads to ends in the same result.
  ghost predicate Progress(fs: Fs, magic: nat, worklist: seq<Item>, st: Search, goal: Search, hash: Hash, verdict: Verdict) {
    SeeAll(st, ApksOf(fs, magic, Fifo(fs, magic, worklist)), hash, verdict) == goal
  }

  ghost predicate VisitProgress(fs: Fs, magic: nat, root: Item, worklist: seq<Item>, visited: seq<string>, found: Option<string>) {
    if found.None? then visited + Visits(fs, magic, Fifo(fs, magic, worklist)) == VisitOrder(fs, root)
    else visited <= VisitOrder(fs, root)
  }

  lemma WorklistLighter(fs: Fs, magic: nat, w: seq<Item>, w': seq<Item>)
    requires w != [] && w' <= w[1..] + Children(fs, magic, w[0])
    ensures WeightAll(fs, magic, w') < WeightAll(fs, magic, w)
  {
    hide Children, WeightAll;
    NextWeight(fs, magic, w);
    var all := w[1..] + Children(fs, magic, w[0]);
    assert all == w' + all[|w'|..];
    WeightConcat(fs, magic, w', all[|w'|..]);
  }

  lemma PrefixDepths(a: seq<Item>, b: seq<Item>, p: seq<Item>, i: int)
    requires p <= a + b
    requires forall it | it in a :: it.depth <= i
    requires forall it | it in b :: it.depth <= i - 1
    ensures forall it | it in p :: it.depth <= i
    ensures a == [] ==> forall it | it in p :: it.depth <= i - 1
  {
    assert forall k | 0 <= k < |p| :: p[k] == if k < |a| then a[k] else b[k - |a|];
  }

  lemma ChildrenDepth(fs: Fs, magic: nat, item: Item, i: int)
    requires item.depth <= i
    ensures forall it | it in Children(fs, magic, item) :: it.depth <= i - 1
  {
    ChildrenInDepth(item.path, item.depth, if item.path in fs then fs[item.path].entries else []);
  }

  lemma WorklistShrinks(fs: Fs, magic: nat, w: seq<Item>, w': seq<Item>, i: int)
    requires w != [] && w' <= w[1..] + Children(fs, magic, w[0])
    requires forall it | it in w :: it.depth <= i
    ensures WeightAll(fs, magic, w') < WeightAll(fs, magic, w)
    ensures forall it | it in w' :: it.depth <= i
    ensures |w| == 1 ==> forall it | it in w' :: it.depth <= i - 1
  {
    hide WeightAll, Children;
    WorklistLighter(fs, magic, w, w');
    assert w[0] in w;
    ChildrenDepth(fs, magic, w[0], i);
    PrefixDepths(w[1..], Children(fs, magic, w[0]), w', i);
  }

  lemma ProgressStep(fs: Fs, magic: nat, w: seq<Item>, w': seq<Item>, st: Search, st': Search, goal: Search,
                     hash: Hash, verdict: Verdict)
    requires w != [] && Progress(fs, magic, w, st, goal, hash, verdict)
    requires st.found.Some? ==> st' == st
    requires st.found.None? ==> st' == SeeAll(st, Apks(fs, magic, w[0]), hash, verdict)
    requires st'.found.None? ==> w' == w[1..] + Children(fs, magic, w[0])
    ensures Progress(fs, magic, w', st', goal, hash, verdict)
  {
    hide SeeAll, Fifo, ApksOf;
    if st.found.None? {
      NextApks(fs, magic, w, st, hash, verdict);
      if st'.found.Some? {
        StoppedSeesNothing(st', ApksOf(fs, magic, Fifo(fs, magic, w[1..] + Children(fs, magic, w[0]))), hash, verdict);
        StoppedSeesNothing(st', ApksOf(fs, magic, Fifo(fs, magic, w')), hash, verdict);
      }
    } else {
      StoppedSeesNothing(st, ApksOf(fs, magic, Fifo(fs, magic, w)), hash, verdict);
      StoppedSeesNothing(st, ApksOf(fs, magic, Fifo(fs, magic, w')), hash, verdict);
    }
  }

  lemma VisitStep(fs: Fs, magic: nat, root: Item, w: seq<Item>, w': seq<Item>, v: seq<string>, v': seq<string>,
                  found: Option<string>, found': Option<string>, entered: bool)
    requires w != [] && VisitProgress(fs, magic, root, w, v, found)
    requires v' == if entered then v + [w[0].path] else v
    requires found.Some? ==> found' == found && !entered
    requires found.None? ==> entered == Visitable(fs, magic, w[0].path)
    requires found'.None? ==> w' == w[1..] + Children(fs, magic, w[0])
    ensures VisitProgress(fs, magic, root, w', v', found')
  {
    hide Fifo, Visits, VisitOrder;
    if found.None? {
      NextVisits(fs, magic, w);
      var later := Visits(fs, magic, Fifo(fs, magic, w[1..] + Children(fs, magic, w[0])));
      assert VisitOrder(fs, root) == v' + later;
    }
  }

  lemma NothingLeft(fs: Fs, magic: nat, root: Item, st: Search, goal: Search, visited: seq<string>, hash: Hash, verdict: Verdict)
    requires Progress(fs, magic, [], st, goal, hash, verdict) && VisitProgress(fs, magic, root, [], visited, st.found)
    ensures st == goal
    ensures visited <= VisitOrder(fs, root) && (st.found.None? ==> visited == VisitOrder(fs, root))
  {
    assert ApksOf(fs, magic, []) == [] && Fifo(fs, magic, []) == [];
  }
}
