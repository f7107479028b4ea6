/** The search visits exactly the eligible directories within the depth, each of them once. */
module ApkPaths {
  import opened ApkTree

  // The path reached from the root by a chain of names.
  function PathTo(root: string, names: seq<string>): string {
    if names == [] then root else Join(PathTo(root, names[..|names| - 1]), names[|names| - 1])
  }

  // Every directory above the last one is read, and each name is a subdirectory to enter.
  ghost predicate Chain(fs: Fs, magic: nat, root: Item, names: seq<string>)
    decreases |names|
  {
    names == [] ||
    var parent := PathTo(root.path, names[..|names| - 1]);
    && Chain(fs, magic, root, names[..|names| - 1])
    && |names| <= root.depth
    && Visitable(fs, magic, parent)
    && exists e :: e in fs[parent].entries && e.name == names[|names| - 1] && Enters(parent, root.depth - |names| + 1, e)
  }

  ghost predicate IsLevelItem(fs: Fs, magic: nat, root: Item, k: nat, item: Item) {
    exists names :: |names| == k && Chain(fs, magic, root, names) && item == Item(PathTo(root.path, names), root.depth - k)
  }

  // -------- Membership --------

  lemma ChildrenInMember(path: string, depth: nat, entries: seq<Entry>, c: Item)
    ensures c in ChildrenIn(path, depth, entries) <==>
            exists e :: e in entries && Enters(path, depth, e) && c == Item(Join(path, e.name), depth - 1)
  {
    if entries != [] {
      ChildrenInMember(path, depth, entries[1..], c);
      assert forall e :: e in entries <==> e == entries[0] || e in entries[1..];
    }
  }

  lemma ChildrenAllMember(fs: Fs, magic: nat, q: seq<Item>, c: Item)
    ensures c in ChildrenAll(fs, magic, q) <==> exists p :: p in q && c in Children(fs, magic, p)
  {
    if q != [] {
      ChildrenAllMember(fs, magic, q[1..], c);
      assert forall p :: p in q <==> p == q[0] || p in q[1..];
    }
  }

  lemma RootIsLevelZero(fs: Fs, magic: nat, root: Item, item: Item)
    ensures IsLevelItem(fs, magic, root, 0, item) <==> item == root
  {
    assert Chain(fs, magic, root, []) && PathTo(root.path, []) == root.path;
    assert forall names: seq<string> :: |names| == 0 ==> names == [];
  }

  // Level k holds the directories that a chain of k names leads to.
  lemma {:induction false} LevelMember(fs: Fs, magic: nat, root: Item, k: nat, item: Item)
    ensures item in LevelAt(fs, magic, root, k) <==> IsLevelItem(fs, magic, root, k, item)
    decreases k
  {
    hide IsLevelItem, Children, ChildrenAll;
    if k == 0 {
      RootIsLevelZero(fs, magic, root, item);
    } else {
      var above := LevelAt(fs, magic, root, k - 1);
      ChildrenAllMember(fs, magic, above, item);
      if item in LevelAt(fs, magic, root, k) {
        var p :| p in above && item in Children(fs, magic, p);
        LevelMember(fs, magic, root, k - 1, p);
        ChildIsNextLevel(fs, magic, root, k, p, item);
      }
      if IsLevelItem(fs, magic, root, k, item) {
        var p := NextLevelIsChild(fs, magic, root, k, item);
        LevelMember(fs, magic, root, k - 1, p);
      }
    }
  }

  lemma ChainStep(fs: Fs, magic: nat, root: Item, above: seq<string>, e: Entry)
    requires Chain(fs, magic, root, above) && |above| < root.depth && Visitable(fs, magic, PathTo(root.path, above))
    requires e in fs[PathTo(root.path, above)].entries && Enters(PathTo(root.path, above), root.depth - |above|, e)
    ensures Chain(fs, magic, root, above + [e.name])
    ensures PathTo(root.path, above + [e.name]) == Join(PathTo(root.path, above), e.name)
  {
    hide Visitable, Enters, Join;
    assert (above + [e.name])[..|above|] == above;
  }

  lemma ChildIsNextLevel(fs: Fs, magic: nat, root: Item, k: nat, p: Item, item: Item)
    requires k > 0 && IsLevelItem(fs, magic, root, k - 1, p) && item in Children(fs, magic, p)
    ensures IsLevelItem(fs, magic, root, k, item)
  {
    var above :| |above| == k - 1 && Chain(fs, magic, root, above) && p == Item(PathTo(root.path, above), root.depth - (k - 1));
    ChildrenInMember(p.path, p.depth, fs[p.path].entries, item);
    hide ChildrenIn, Children, Chain, PathTo;
    var e :| e in fs[p.path].entries && Enters(p.path, p.depth, e) && item == Item(Join(p.path, e.name), p.depth - 1);
    ChainStep(fs, magic, root, above, e);
    hide Enters, Visitable;
    var names := above + [e.name];
    assert |names| == k && Chain(fs, magic, root, names) && item == Item(PathTo(root.path, names), root.depth - k);
  }

  lemma NextLevelIsChild(fs: Fs, magic: nat, root: Item, k: nat, item: Item) returns (p: Item)
    requires k > 0 && IsLevelItem(fs, magic, root, k, item)
    ensures IsLevelItem(fs, magic, root, k - 1, p) && item in Children(fs, magic, p)
  {
    var names :| |names| == k && Chain(fs, magic, root, names) && item == Item(PathTo(root.path, names), root.depth - k);
    var above := names[..k - 1];
    p := Item(PathTo(root.path, above), root.depth - (k - 1));
    ChildrenInMember(p.path, p.depth, fs[p.path].entries, item);
  }

  lemma LevelsMember(fs: Fs, magic: nat, root: Item, k: nat, item: Item)
    ensures item in LevelsFrom(fs, magic, root, k) <==>
            exists j: nat :: k <= j <= root.depth && item in LevelAt(fs, magic, root, j)
    decreases root.depth + 1 - k
  {
    hide LevelAt;
    if k <= root.depth {
      LevelsMember(fs, magic, root, k + 1, item);
      assert item in LevelsFrom(fs, magic, root, k) <==>
             item in LevelAt(fs, magic, root, k) || item in LevelsFrom(fs, magic, root, k + 1);
    }
  }

  // -------- No repetition --------

  ghost predicate PathNames(fs: Fs) {
    forall p | p in fs ::
      && (forall e | e in fs[p].entries :: '/' !in e.name)
      && forall i, j | 0 <= i < j < |fs[p].entries| :: fs[p].entries[i].name != fs[p].entries[j].name
  }

  ghost predicate DistinctPaths(q: seq<Item>) {
    forall i, j | 0 <= i < j < |q| :: q[i].path != q[j].path
  }

  lemma JoinInjective(p: string, n: string, q: string, m: string)
    requires '/' !in n && '/' !in m && Join(p, n) == Join(q, m)
    ensures p == q && n == m
  {
    var s := Join(p, n);
    assert s[|p|] == '/' && s[|q|] == '/';
    assert forall i | |p| < i < |s| :: s[i] == n[i - |p| - 1];
    assert forall i | |q| < i < |s| :: s[i] == m[i - |q| - 1];
    assert |p| == |q|;
    assert p == s[..|p|] && n == s[|p| + 1..];
    assert q == s[..|q|] && m == s[|q| + 1..];
  }

  lemma ChildrenInDistinct(path: string, depth: nat, entries: seq<Entry>)
    requires forall e | e in entries :: '/' !in e.name
    requires forall i, j | 0 <= i < j < |entries| :: entries[i].name != entries[j].name
    ensures DistinctPaths(ChildrenIn(path, depth, entries))
  {
    if entries != [] {
      ChildrenInDistinct(path, depth, entries[1..]);
      forall c | c in ChildrenIn(path, depth, entries[1..])
        ensures c.path != Join(path, entries[0].name)
      {
        ChildrenInMember(path, depth, entries[1..], c);
        var e :| e in entries[1..] && c == Item(Join(path, e.name), depth - 1);
        if c.path == Join(path, entries[0].name) { JoinInjective(path, e.name, path, entries[0].name); }
      }
    }
  }

  lemma ChildrenAllDistinct(fs: Fs, magic: nat, q: seq<Item>)
    requires PathNames(fs) && DistinctPaths(q)
    ensures DistinctPaths(ChildrenAll(fs, magic, q))
  {
    if q != [] {
      ChildrenAllDistinct(fs, magic, q[1..]);
      var a, b := Children(fs, magic, q[0]), ChildrenAll(fs, magic, q[1..]);
      if Visitable(fs, magic, q[0].path) { ChildrenInDistinct(q[0].path, q[0].depth, fs[q[0].path].entries); }
      forall c, d | c in a && d in b
        ensures c.path != d.path
      {
        ChildrenAllMember(fs, magic, q[1..], d);
        var p :| p in q[1..] && d in Children(fs, magic, p);
        ChildrenDiffer(fs, magic, q[0], p, c, d);
      }
      assert forall i, j | 0 <= i < |a| && 0 <= j < |b| :: a[i] in a && b[j] in b;
    }
  }

  lemma ChildrenDiffer(fs: Fs, magic: nat, p: Item, q: Item, c: Item, d: Item)
    requires PathNames(fs) && p.path != q.path && c in Children(fs, magic, p) && d in Children(fs, magic, q)
    ensures c.path != d.path
  {
    ChildrenInMember(p.path, p.depth, fs[p.path].entries, c);
    ChildrenInMember(q.path, q.depth, fs[q.path].entries, d);
    var e :| e in fs[p.path].entries && c == Item(Join(p.path, e.name), p.depth - 1);
    var f :| f in fs[q.path].entries && d == Item(Join(q.path, f.name), q.depth - 1);
    if c.path == d.path { JoinInjective(p.path, e.name, q.path, f.name); }
  }

  lemma LevelDistinct(fs: Fs, magic: nat, root: Item, k: nat)
    requires PathNames(fs)
    ensures DistinctPaths(LevelAt(fs, magic, root, k))
  {
    if k > 0 {
      LevelDistinct(fs, magic, root, k - 1);
      ChildrenAllDistinct(fs, magic, LevelAt(fs, magic, root, k - 1));
    }
  }

  lemma ChainNames(fs: Fs, magic: nat, root: Item, names: seq<string>)
    requires PathNames(fs) && Chain(fs, magic, root, names)
    ensures forall n | n in names :: '/' !in n
    decreases |names|
  {
    if names != [] {
      ChainNames(fs, magic, root, names[..|names| - 1]);
      assert forall n | n in names :: n in names[..|names| - 1] || n == names[|names| - 1];
    }
  }

  lemma {:induction false} PathToInjective(root: string, a: seq<string>, b: seq<string>)
    requires PathTo(root, a) == PathTo(root, b)
    requires (forall n | n in a :: '/' !in n) && (forall n | n in b :: '/' !in n)
    ensures a == b
    decreases |a|
  {
    PathToLonger(root, a);
    PathToLonger(root, b);
    if a != [] && b != [] {
      var a', b' := a[..|a| - 1], b[..|b| - 1];
      JoinInjective(PathTo(root, a'), a[|a| - 1], PathTo(root, b'), b[|b| - 1]);
      PathToInjective(root, a', b');
      assert a == a' + [a[|a| - 1]] && b == b' + [b[|b| - 1]];
    }
  }

  lemma PathToLonger(root: string, a: seq<string>)
    ensures |PathTo(root, a)| >= |root| + |a|
  {
  }

  lemma LevelsDiffer(fs: Fs, magic: nat, root: Item, j: nat, k: nat, c: Item, d: Item)
    requires PathNames(fs) && c in LevelAt(fs, magic, root, j) && d in LevelAt(fs, magic, root, k) && j != k
    ensures c.path != d.path
  {
    LevelMember(fs, magic, root, j, c);
    LevelMember(fs, magic, root, k, d);
    var a :| |a| == j && Chain(fs, magic, root, a) && c == Item(PathTo(root.path, a), root.depth - j);
    var b :| |b| == k && Chain(fs, magic, root, b) && d == Item(PathTo(root.path, b), root.depth - k);
    ChainNames(fs, magic, root, a);
    ChainNames(fs, magic, root, b);
    if c.path == d.path { PathToInjective(root.path, a, b); }
  }

  lemma LevelsDistinct(fs: Fs, magic: nat, root: Item, k: nat)
    requires PathNames(fs)
    ensures DistinctPaths(LevelsFrom(fs, magic, root, k))
    decreases root.depth + 1 - k
  {
    if k <= root.depth {
      LevelsDistinct(fs, magic, root, k + 1);
      LevelDistinct(fs, magic, root, k);
      var a, b := LevelAt(fs, magic, root, k), LevelsFrom(fs, magic, root, k + 1);
      forall i, j | 0 <= i < |a| && 0 <= j < |b|
        ensures a[i].path != b[j].path
      {
        LevelsMember(fs, magic, root, k + 1, b[j]);
        var l: nat :| k + 1 <= l <= root.depth && b[j] in LevelAt(fs, magic, root, l);
        LevelsDiffer(fs, magic, root, k, l, a[i], b[j]);
      }
    }
  }

  // -------- The order of visits --------

  function Visits(fs: Fs, magic: nat, q: seq<Item>): seq<string> {
    if q == [] then []
    else (if Visitable(fs, magic, q[0].path) then [q[0].path] else []) + Visits(fs, magic, q[1..])
  }

  function VisitOrder(fs: Fs, root: Item): seq<string> {
    Visits(fs, RootMagic(fs, root.path), Fifo(fs, RootMagic(fs, root.path), [root]))
  }

  lemma VisitsMember(fs: Fs, magic: nat, q: seq<Item>, p: string)
    ensures p in Visits(fs, magic, q) <==> Visitable(fs, magic, p) && exists c :: c in q && c.path == p
  {
    if q != [] {
      VisitsMember(fs, magic, q[1..], p);
      assert forall c :: c in q <==> c == q[0] || c in q[1..];
    }
  }

  lemma VisitsDistinct(fs: Fs, magic: nat, q: seq<Item>)
    requires DistinctPaths(q)
    ensures forall i, j | 0 <= i < j < |Visits(fs, magic, q)| :: Visits(fs, magic, q)[i] != Visits(fs, magic, q)[j]
  {
    if q != [] {
      VisitsDistinct(fs, magic, q[1..]);
      VisitsMember(fs, magic, q[1..], q[0].path);
    }
  }

  // Every eligible directory within the depth is visited, and only those are ...
  lemma VisitsEligible(fs: Fs, root: Item, p: string)
    ensures p in VisitOrder(fs, root) <==>
            && Visitable(fs, RootMagic(fs, root.path), p)
            && exists names :: |names| <= root.depth && Chain(fs, RootMagic(fs, root.path), root, names) && p == PathTo(root.path, names)
  {
    hide RootMagic, Fifo, Visits, LevelsFrom, LevelAt, Visitable, Chain, PathTo;
    var magic := RootMagic(fs, root.path);
    FifoIsLevelOrder(fs, magic, root);
    VisitsMember(fs, magic, Fifo(fs, magic, [root]), p);
    if p in VisitOrder(fs, root) {
      var c :| c in LevelsFrom(fs, magic, root, 0) && c.path == p;
      LevelsMember(fs, magic, root, 0, c);
      var k: nat :| 0 <= k <= root.depth && c in LevelAt(fs, magic, root, k);
      LevelMember(fs, magic, root, k, c);
    }
    if names :| |names| <= root.depth && Chain(fs, magic, root, names) && p == PathTo(root.path, names) {
      var c := Item(p, root.depth - |names|);
      LevelMember(fs, magic, root, |names|, c);
      LevelsMember(fs, magic, root, 0, c);
    }
  }

  // ... each of them once.
  lemma VisitsOnce(fs: Fs, root: Item)
    requires PathNames(fs)
    ensures forall i, j | 0 <= i < j < |VisitOrder(fs, root)| :: VisitOrder(fs, root)[i] != VisitOrder(fs, root)[j]
  {
    var magic := RootMagic(fs, root.path);
    FifoIsLevelOrder(fs, magic, root);
    LevelsDistinct(fs, magic, root, 0);
    VisitsDistinct(fs, magic, Fifo(fs, magic, [root]));
  }
}
