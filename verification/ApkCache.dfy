/** The cache of apk verdicts that one search leaves for the next, and why it never changes
    which apk a search elects. */
module ApkCache {
  import opened Options

  datatype ApkHash = ApkHash(hash: nat, seen: bool)

  // A search has stopped once it has found a manager apk.
  datatype Search = Search(cache: seq<ApkHash>, found: Option<string>)

  type Hash = string -> nat
  type Verdict = string -> bool

  // The first cached entry with this hash, or |cache|.
  function IndexOf(cache: seq<ApkHash>, h: nat): (i: nat)
    ensures i <= |cache|
    ensures i < |cache| ==> cache[i].hash == h
    ensures forall j | 0 <= j < i :: cache[j].hash != h
  {
    if cache == [] || cache[0].hash == h then 0 else 1 + IndexOf(cache[1..], h)
  }

  function See(st: Search, apk: string, hash: Hash, verdict: Verdict): Search {
    var i := IndexOf(st.cache, hash(apk));
    if st.found.Some? then st
    else if i < |st.cache| then st.(cache := st.cache[i := st.cache[i].(seen := true)])
    else if verdict(apk) then Search([], Some(apk))
    else st.(cache := st.cache + [ApkHash(hash(apk), true)])
  }

  function SeeAll(st: Search, apks: seq<string>, hash: Hash, verdict: Verdict): Search
    decreases |apks|
  {
    if apks == [] then st else SeeAll(See(st, apks[0], hash, verdict), apks[1..], hash, verdict)
  }

  function Unseen(cache: seq<ApkHash>): seq<ApkHash> {
    seq(|cache|, i requires 0 <= i < |cache| => cache[i].(seen := false))
  }

  function DropUnseen(cache: seq<ApkHash>): seq<ApkHash> {
    if cache == [] then [] else (if cache[0].seen then [cache[0]] else []) + DropUnseen(cache[1..])
  }

  // A whole search over the apks of the tree, in the order they are met.
  function SearchAll(cache: seq<ApkHash>, apks: seq<string>, hash: Hash, verdict: Verdict): Search {
    var st := SeeAll(Search(Unseen(cache), None), apks, hash, verdict);
    st.(cache := DropUnseen(st.cache))
  }

  // What a search without a cache elects.
  function FirstManager(apks: seq<string>, verdict: Verdict): Option<string> {
    if apks == [] then None
    else if verdict(apks[0]) then Some(apks[0])
    else FirstManager(apks[1..], verdict)
  }

  lemma SeeAllConcat(st: Search, a: seq<string>, b: seq<string>, hash: Hash, verdict: Verdict)
    ensures SeeAll(st, a + b, hash, verdict) == SeeAll(SeeAll(st, a, hash, verdict), b, hash, verdict)
    decreases |a|
  {
    if a == [] {
      assert a + b == b;
    } else {
      assert (a + b)[1..] == a[1..] + b;
      SeeAllConcat(See(st, a[0], hash, verdict), a[1..], b, hash, verdict);
    }
  }

  lemma StoppedSeesNothing(st: Search, apks: seq<string>, hash: Hash, verdict: Verdict)
    requires st.found.Some?
    ensures SeeAll(st, apks, hash, verdict) == st
    decreases |apks|
  {
  }

  // -------- Transparency --------

  // No manager apk has the hash of another apk. Other collisions are allowed: among managers,
  // and among the rest.
  ghost predicate Separates(known: set<string>, hash: Hash, verdict: Verdict) {
    forall p, q | p in known && q in known && !verdict(p) && verdict(q) :: hash(p) != hash(q)
  }

  // Every cached hash is that of a known path that is not a manager apk, and is cached once.
  ghost predicate CacheOk(cache: seq<ApkHash>, known: set<string>, hash: Hash, verdict: Verdict) {
    && (forall c | c in cache :: exists p :: p in known && hash(p) == c.hash && !verdict(p))
    && forall i, j | 0 <= i < j < |cache| :: cache[i].hash != cache[j].hash
  }

  ghost predicate SeenIn(cache: seq<ApkHash>, h: nat) {
    exists c :: c in cache && c.hash == h && c.seen
  }

  lemma SeeTransparent(st: Search, apk: string, known: set<string>, hash: Hash, verdict: Verdict)
    requires st.found.None? && apk in known && Separates(known, hash, verdict) && CacheOk(st.cache, known, hash, verdict)
    ensures var r := See(st, apk, hash, verdict);
            && CacheOk(r.cache, known, hash, verdict)
            && (verdict(apk) ==> r == Search([], Some(apk)))
            && (!verdict(apk) ==> r.found.None? && forall h :: SeenIn(r.cache, h) <==> SeenIn(st.cache, h) || h == hash(apk))
  {
    var i := IndexOf(st.cache, hash(apk));
    if i < |st.cache| {
      assert st.cache[i] in st.cache;
      MarkSeen(st.cache, i, known, hash, verdict);
    } else if !verdict(apk) {
      AddSeen(st.cache, hash(apk));
    }
  }

  lemma MarkSeen(cache: seq<ApkHash>, i: nat, known: set<string>, hash: Hash, verdict: Verdict)
    requires i < |cache| && CacheOk(cache, known, hash, verdict)
    ensures var r := cache[i := cache[i].(seen := true)];
            && CacheOk(r, known, hash, verdict)
            && forall h :: SeenIn(r, h) <==> SeenIn(cache, h) || h == cache[i].hash
  {
    var r := cache[i := cache[i].(seen := true)];
    assert cache[i] in cache && r[i] in r;
    forall h
      ensures SeenIn(r, h) <==> SeenIn(cache, h) || h == cache[i].hash
    {
      if SeenIn(cache, h) && h != cache[i].hash {
        var c :| c in cache && c.hash == h && c.seen;
        var j :| 0 <= j < |cache| && cache[j] == c;
        assert r[j] == c;
      }
    }
  }

  lemma AddSeen(cache: seq<ApkHash>, h: nat)
    ensures forall g :: SeenIn(cache + [ApkHash(h, true)], g) <==> SeenIn(cache, g) || g == h
  {
    assert forall c :: c in cache + [ApkHash(h, true)] <==> c in cache || c == ApkHash(h, true);
  }

  lemma {:induction false} SeeAllTransparent(st: Search, apks: seq<string>, known: set<string>, hash: Hash, verdict: Verdict)
    requires st.found.None? && Separates(known, hash, verdict) && CacheOk(st.cache, known, hash, verdict)
    requires forall p | p in apks :: p in known
    ensures var r := SeeAll(st, apks, hash, verdict);
            && CacheOk(r.cache, known, hash, verdict)
            && r.found == FirstManager(apks, verdict)
            && (r.found.Some? ==> r.cache == [])
            && (r.found.None? ==> forall h :: SeenIn(r.cache, h) <==> SeenIn(st.cache, h) || exists p :: p in apks && hash(p) == h)
    decreases |apks|
  {
    if apks != [] {
      SeeTransparent(st, apks[0], known, hash, verdict);
      var next := See(st, apks[0], hash, verdict);
      hide CacheOk, SeenIn, Separates, See;
      if verdict(apks[0]) {
        StoppedSeesNothing(next, apks[1..], hash, verdict);
      } else {
        SeeAllTransparent(next, apks[1..], known, hash, verdict);
        assert forall p :: p in apks <==> p == apks[0] || p in apks[1..];
      }
    }
  }

  lemma UnseenSeesNone(cache: seq<ApkHash>, known: set<string>, hash: Hash, verdict: Verdict)
    requires CacheOk(cache, known, hash, verdict)
    ensures CacheOk(Unseen(cache), known, hash, verdict)
    ensures forall h :: !SeenIn(Unseen(cache), h)
  {
    forall c | c in Unseen(cache)
      ensures exists p :: p in known && hash(p) == c.hash && !verdict(p)
    {
      var i :| 0 <= i < |cache| && Unseen(cache)[i] == c;
      assert cache[i] in cache && cache[i].hash == c.hash;
    }
  }

  lemma DropUnseenKeeps(cache: seq<ApkHash>)
    ensures forall c :: c in DropUnseen(cache) <==> c in cache && c.seen
    ensures (forall i, j | 0 <= i < j < |cache| :: cache[i].hash != cache[j].hash) ==>
            forall i, j | 0 <= i < j < |DropUnseen(cache)| :: DropUnseen(cache)[i].hash != DropUnseen(cache)[j].hash
  {
    if cache != [] {
      DropUnseenKeeps(cache[1..]);
      assert forall c :: c in cache <==> c == cache[0] || c in cache[1..];
      assert forall i | 0 <= i < |DropUnseen(cache[1..])| :: DropUnseen(cache[1..])[i] in cache[1..];
    }
  }

  predicate Cached(cache: seq<ApkHash>, h: nat) {
    exists c :: c in cache && c.hash == h
  }

  // A cached search elects what an uncached one does; afterwards the cache is empty if a
  // manager was found, and otherwise holds exactly the apks of this search.
  lemma SearchTransparent(cache: seq<ApkHash>, apks: seq<string>, known: set<string>, hash: Hash, verdict: Verdict)
    requires Separates(known, hash, verdict) && CacheOk(cache, known, hash, verdict)
    requires forall p | p in apks :: p in known
    ensures var r := SearchAll(cache, apks, hash, verdict);
            && CacheOk(r.cache, known, hash, verdict)
            && r.found == FirstManager(apks, verdict)
            && (r.found.Some? ==> r.cache == [])
            && (r.found.None? ==> forall h :: Cached(r.cache, h) <==> exists p :: p in apks && hash(p) == h)
  {
    UnseenSeesNone(cache, known, hash, verdict);
    SeeAllTransparent(Search(Unseen(cache), None), apks, known, hash, verdict);
    var st := SeeAll(Search(Unseen(cache), None), apks, hash, verdict);
    DropUnseenKeeps(st.cache);
    hide SeeAll, FirstManager, Separates, Unseen, DropUnseen;
    assert forall h :: Cached(DropUnseen(st.cache), h) <==> SeenIn(st.cache, h);
  }

  // -------- Over any sequence of searches --------

  function SearchRuns(cache: seq<ApkHash>, runs: seq<seq<string>>, hash: Hash, verdict: Verdict): seq<Option<string>>
    decreases |runs|
  {
    if runs == [] then []
    else
      var r := SearchAll(cache, runs[0], hash, verdict);
      [r.found] + SearchRuns(r.cache, runs[1..], hash, verdict)
  }

  lemma {:induction false} RunsTransparent(cache: seq<ApkHash>, runs: seq<seq<string>>, known: set<string>, hash: Hash, verdict: Verdict)
    requires Separates(known, hash, verdict) && CacheOk(cache, known, hash, verdict)
    requires forall r, p | r in runs && p in r :: p in known
    ensures |SearchRuns(cache, runs, hash, verdict)| == |runs|
    ensures forall k | 0 <= k < |runs| :: SearchRuns(cache, runs, hash, verdict)[k] == FirstManager(runs[k], verdict)
    decreases |runs|
  {
    hide Separates, CacheOk, SearchAll, FirstManager;
    if runs != [] {
      assert runs[0] in runs && forall r | r in runs[1..] :: r in runs;
      SearchTransparent(cache, runs[0], known, hash, verdict);
      RunsTransparent(SearchAll(cache, runs[0], hash, verdict).cache, runs[1..], known, hash, verdict);
    }
  }

  // From an empty cache, over every sequence of searches.
  ghost predicate Transparent(runs: seq<seq<string>>, hash: Hash, verdict: Verdict) {
    && |SearchRuns([], runs, hash, verdict)| == |runs|
    && forall k | 0 <= k < |runs| :: SearchRuns([], runs, hash, verdict)[k] == FirstManager(runs[k], verdict)
  }

  ghost predicate Over(runs: seq<seq<string>>, known: set<string>) {
    forall r, p | r in runs && p in r :: p in known
  }

  // Caching never matters, whatever searches are made, exactly when no known manager apk has the
  // hash of another known apk.
  lemma CacheNeverMatters(known: set<string>, hash: Hash, verdict: Verdict)
    ensures (forall runs | Over(runs, known) :: Transparent(runs, hash, verdict)) <==> Separates(known, hash, verdict)
  {
    if Separates(known, hash, verdict) {
      forall runs | Over(runs, known)
        ensures Transparent(runs, hash, verdict)
      {
        RunsTransparent([], runs, known, hash, verdict);
      }
    } else {
      var p, q :| p in known && q in known && !verdict(p) && verdict(q) && hash(p) == hash(q);
      CollisionHidesManager(p, q, hash, verdict);
      hide SearchRuns, FirstManager;
      var runs := [[p], [q]];
      assert runs[0] == [p] && runs[1] == [q];
      assert Over(runs, known);
      assert !Transparent(runs, hash, verdict);
    }
  }

  lemma SeeOne(st: Search, apk: string, hash: Hash, verdict: Verdict)
    ensures SeeAll(st, [apk], hash, verdict) == See(st, apk, hash, verdict)
  {
    assert [apk][1..] == [];
  }

  // Any manager apk that shares the hash of another apk is missed once that one has been seen.
  lemma CollisionHidesManager(p: string, q: string, hash: Hash, verdict: Verdict)
    requires !verdict(p) && verdict(q) && hash(p) == hash(q)
    ensures SearchRuns([], [[p], [q]], hash, verdict) == [None, None]
    ensures FirstManager([q], verdict) == Some(q)
  {
    var h := hash(p);
    var seen, unseen := [ApkHash(h, true)], [ApkHash(h, false)];
    assert SearchAll([], [p], hash, verdict) == Search(seen, None) by {
      SeeOne(Search([], None), p, hash, verdict);
      assert Unseen([]) == [] && DropUnseen(seen) == seen && [] + seen == seen;
    }
    assert SearchAll(seen, [q], hash, verdict) == Search(seen, None) by {
      SeeOne(Search(unseen, None), q, hash, verdict);
      assert Unseen(seen) == unseen && IndexOf(unseen, h) == 0;
      assert See(Search(unseen, None), q, hash, verdict) == Search(seen, None);
      assert DropUnseen(seen) == seen;
    }
    hide SearchAll;
    assert [[p], [q]][1..] == [[q]] && [[q]][1..] == [];
    assert SearchRuns(seen, [[q]], hash, verdict) == [None];
  }
}
