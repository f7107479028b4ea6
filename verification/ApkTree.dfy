/** The directory tree that the manager search walks, and the order in which a first-in
    first-out worklist visits it. */
module ApkTree {
  datatype Entry = Entry(name: string, isDir: bool)
  datatype Dir = Dir(magic: nat, entries: seq<Entry>)

  // The directories that can be opened, by path.
  type Fs = map<string, Dir>

  // A worklist entry: a directory and how many levels below it are still searched.
  datatype Item = Item(path: string, depth: nat)

  const DATA_PATH_LEN: nat := 384

  function Join(parent: string, name: string): string {
    parent + "/" + name
  }

  // What comparing at most namelen characters with ".." and "." skips.
  predicate Dots(name: string) {
    name <= ".." || name <= "."
  }

  predicate Staging(e: Entry) {
    e.isDir && |e.name| >= 8 && e.name[..4] == "vmdl" && e.name[|e.name| - 4..] == ".tmp"
  }

  predicate Considered(parent: string, e: Entry) {
    !Dots(e.name) && !Staging(e) && |Join(parent, e.name)| < DATA_PATH_LEN
  }

  predicate Enters(parent: string, depth: nat, e: Entry) {
    Considered(parent, e) && e.isDir && depth > 0
  }

  // A directory is looked at like a file once the depth is used up.
  predicate IsApk(parent: string, depth: nat, e: Entry) {
    Considered(parent, e) && !(e.isDir && depth > 0) && e.name == "base.apk"
  }

  ghost predicate StagingName(name: string, middle: string) {
    name == "vmdl" + middle + ".tmp"
  }

  lemma StagingMeans(e: Entry)
    ensures Staging(e) <==> e.isDir && exists middle :: StagingName(e.name, middle)
  {
    var n := e.name;
    if Staging(e) {
      assert n == n[..4] + n[4..|n| - 4] + n[|n| - 4..];
      assert StagingName(n, n[4..|n| - 4]);
    }
    if middle :| StagingName(n, middle) {
      assert n[..4] == "vmdl" && n[|n| - 4..] == ".tmp";
    }
  }

  lemma DotsMeans(name: string)
    ensures Dots(name) <==> name == "" || name == "." || name == ".."
  {
    assert ".."[..1] == "." && ".."[..2] == ".." && "."[..1] == ".";
    if name <= ".." { assert name == ".."[..|name|]; }
    if name <= "." { assert name == "."[..|name|]; }
  }

  // Which subdirectories are entered: none of a package being staged, and none whose path does
  // not fit the buffer.
  lemma EntersExactly(parent: string, depth: nat, e: Entry)
    ensures Enters(parent, depth, e) <==>
            && e.isDir && depth > 0
            && e.name != "" && e.name != "." && e.name != ".."
            && (forall middle :: !StagingName(e.name, middle))
            && |parent| + 1 + |e.name| < 384
  {
    StagingMeans(e);
    DotsMeans(e.name);
    hide Dots, Staging, StagingName;
  }

  lemma BaseApkIsPlain()
    ensures !Dots("base.apk") && forall middle :: !StagingName("base.apk", middle)
  {
    forall middle ensures !StagingName("base.apk", middle) {
      assert ("vmdl" + middle + ".tmp")[0] == 'v' && "base.apk"[0] == 'b';
    }
  }

  // Which entries are checked as apks.
  lemma ChecksExactly(parent: string, depth: nat, e: Entry)
    ensures IsApk(parent, depth, e) <==> e.name == "base.apk" && !(e.isDir && depth > 0) && |parent| + 9 < 384
  {
    BaseApkIsPlain();
    StagingMeans(e);
    hide Dots, Staging, StagingName;
    assert |"base.apk"| == 8;
  }

  // The file system of the root decides which directories are read.
  predicate Visitable(fs: Fs, magic: nat, path: string) {
    path in fs && magic != 0 && fs[path].magic == magic
  }

  function RootMagic(fs: Fs, root: string): nat {
    if root in fs then fs[root].magic else 0
  }

  function ChildrenIn(path: string, depth: nat, entries: seq<Entry>): seq<Item> {
    if entries == [] then []
    else
      (if Enters(path, depth, entries[0]) then [Item(Join(path, entries[0].name), depth - 1)] else [])
      + ChildrenIn(path, depth, entries[1..])
  }

  function ApksIn(path: string, depth: nat, entries: seq<Entry>): seq<string> {
    if entries == [] then []
    else
      (if IsApk(path, depth, entries[0]) then [Join(path, entries[0].name)] else [])
      + ApksIn(path, depth, entries[1..])
  }

  function Children(fs: Fs, magic: nat, item: Item): seq<Item> {
    if Visitable(fs, magic, item.path) then ChildrenIn(item.path, item.depth, fs[item.path].entries) else []
  }

  function Apks(fs: Fs, magic: nat, item: Item): seq<string> {
    if Visitable(fs, magic, item.path) then ApksIn(item.path, item.depth, fs[item.path].entries) else []
  }

  lemma ChildrenInDepth(path: string, depth: nat, entries: seq<Entry>)
    ensures forall c | c in ChildrenIn(path, depth, entries) :: c.depth + 1 == depth
  {
  }

  // -------- Termination of the worklist --------

  function Weight(fs: Fs, magic: nat, item: Item): nat
    decreases item.depth, 2
  {
    ChildrenInDepth(item.path, item.depth, if item.path in fs then fs[item.path].entries else []);
    1 + ChildrenWeight(fs, magic, item.depth, Children(fs, magic, item))
  }

  function ChildrenWeight(fs: Fs, magic: nat, depth: nat, q: seq<Item>): nat
    requires forall c | c in q :: c.depth < depth
    decreases depth, 1, |q|
  {
    if q == [] then 0 else Weight(fs, magic, q[0]) + ChildrenWeight(fs, magic, depth, q[1..])
  }

  function WeightAll(fs: Fs, magic: nat, q: seq<Item>): nat {
    if q == [] then 0 else Weight(fs, magic, q[0]) + WeightAll(fs, magic, q[1..])
  }

  lemma ChildrenWeightAll(fs: Fs, magic: nat, depth: nat, q: seq<Item>)
    requires forall c | c in q :: c.depth < depth
    ensures ChildrenWeight(fs, magic, depth, q) == WeightAll(fs, magic, q)
  {
  }

  lemma WeightConcat(fs: Fs, magic: nat, a: seq<Item>, b: seq<Item>)
    ensures WeightAll(fs, magic, a + b) == WeightAll(fs, magic, a) + WeightAll(fs, magic, b)
  {
    if a == [] {
      assert a + b == b;
    } else {
      assert (a + b)[1..] == a[1..] + b;
    }
  }

  // Taking the first entry off and appending its children makes the worklist lighter.
  lemma NextWeight(fs: Fs, magic: nat, q: seq<Item>)
    requires q != []
    ensures WeightAll(fs, magic, q[1..] + Children(fs, magic, q[0])) == WeightAll(fs, magic, q) - 1
  {
    ChildrenInDepth(q[0].path, q[0].depth, if q[0].path in fs then fs[q[0].path].entries else []);
    ChildrenWeightAll(fs, magic, q[0].depth, Children(fs, magic, q[0]));
    WeightConcat(fs, magic, q[1..], Children(fs, magic, q[0]));
  }

  // -------- The order of a first-in first-out worklist --------

  function Fifo(fs: Fs, magic: nat, q: seq<Item>): seq<Item>
    decreases WeightAll(fs, magic, q)
  {
    if q == [] then []
    else
      NextWeight(fs, magic, q);
      [q[0]] + Fifo(fs, magic, q[1..] + Children(fs, magic, q[0]))
  }

  function ChildrenAll(fs: Fs, magic: nat, q: seq<Item>): seq<Item> {
    if q == [] then [] else Children(fs, magic, q[0]) + ChildrenAll(fs, magic, q[1..])
  }

  lemma FifoHead(fs: Fs, magic: nat, q: seq<Item>)
    requires q != []
    ensures Fifo(fs, magic, q) == [q[0]] + Fifo(fs, magic, q[1..] + Children(fs, magic, q[0]))
  {
  }

  lemma ChildrenAllHead(fs: Fs, magic: nat, q: seq<Item>)
    requires q != []
    ensures ChildrenAll(fs, magic, q) == Children(fs, magic, q[0]) + ChildrenAll(fs, magic, q[1..])
  {
  }

  // Appending the first item's children commutes with taking that item off.
  lemma Rotate(a: seq<Item>, b: seq<Item>, c: seq<Item>, rest: seq<Item>, tail: seq<Item>)
    requires a != []
    ensures (a + b)[0] == a[0] && (a + b)[1..] + c == a[1..] + (b + c)
    ensures (b + c) + rest == b + (c + rest)
    ensures [a[0]] + (a[1..] + tail) == a + tail
  {
  }

  lemma {:induction false} FifoLevel(fs: Fs, magic: nat, a: seq<Item>, b: seq<Item>)
    ensures Fifo(fs, magic, a + b) == a + Fifo(fs, magic, b + ChildrenAll(fs, magic, a))
    decreases |a|
  {
    if a == [] {
      assert ChildrenAll(fs, magic, a) == [];
      hide Fifo, ChildrenAll;
      assert a + b == b && b + [] == b && a + Fifo(fs, magic, b) == Fifo(fs, magic, b);
    } else {
      hide Fifo, ChildrenAll, Children;
      var c, rest := Children(fs, magic, a[0]), ChildrenAll(fs, magic, a[1..]);
      ChildrenAllHead(fs, magic, a);
      FifoHead(fs, magic, a + b);
      FifoLevel(fs, magic, a[1..], b + c);
      Rotate(a, b, c, rest, Fifo(fs, magic, (b + c) + rest));
    }
  }

  function LevelAt(fs: Fs, magic: nat, root: Item, k: nat): seq<Item> {
    if k == 0 then [root] else ChildrenAll(fs, magic, LevelAt(fs, magic, root, k - 1))
  }

  // Levels k to depth, one after the other.
  function LevelsFrom(fs: Fs, magic: nat, root: Item, k: nat): seq<Item>
    decreases root.depth + 1 - k
  {
    if k > root.depth then [] else LevelAt(fs, magic, root, k) + LevelsFrom(fs, magic, root, k + 1)
  }

  lemma LevelDepth(fs: Fs, magic: nat, root: Item, k: nat)
    ensures forall c | c in LevelAt(fs, magic, root, k) :: c.depth + k == root.depth
  {
    if k > 0 {
      LevelDepth(fs, magic, root, k - 1);
      ChildrenAllDepth(fs, magic, LevelAt(fs, magic, root, k - 1), root.depth - k + 1);
    }
  }

  lemma ChildrenAllDepth(fs: Fs, magic: nat, q: seq<Item>, depth: int)
    requires forall c | c in q :: c.depth == depth
    ensures forall c | c in ChildrenAll(fs, magic, q) :: c.depth + 1 == depth
  {
    if q != [] {
      ChildrenInDepth(q[0].path, q[0].depth, if q[0].path in fs then fs[q[0].path].entries else []);
    }
  }

  lemma NonEmptyLevel(fs: Fs, magic: nat, root: Item, k: nat)
    requires LevelAt(fs, magic, root, k) != []
    ensures k <= root.depth
  {
    LevelDepth(fs, magic, root, k);
    assert LevelAt(fs, magic, root, k)[0] in LevelAt(fs, magic, root, k);
  }

  lemma {:induction false} FifoFromLevel(fs: Fs, magic: nat, root: Item, k: nat)
    requires k <= root.depth + 1
    ensures Fifo(fs, magic, LevelAt(fs, magic, root, k)) == LevelsFrom(fs, magic, root, k)
    decreases root.depth + 1 - k
  {
    var level := LevelAt(fs, magic, root, k);
    if k > root.depth {
      if level != [] { NonEmptyLevel(fs, magic, root, k); }
    } else {
      FifoLevel(fs, magic, level, []);
      assert level + [] == level && [] + ChildrenAll(fs, magic, level) == LevelAt(fs, magic, root, k + 1);
      FifoFromLevel(fs, magic, root, k + 1);
    }
  }

  // The worklist yields the tree level by level.
  lemma FifoIsLevelOrder(fs: Fs, magic: nat, root: Item)
    ensures Fifo(fs, magic, [root]) == LevelsFrom(fs, magic, root, 0)
  {
    FifoFromLevel(fs, magic, root, 0);
  }

  // The apks under the items of a worklist, in the order they are met.
  function ApksOf(fs: Fs, magic: nat, items: seq<Item>): seq<string> {
    if items == [] then [] else Apks(fs, magic, items[0]) + ApksOf(fs, magic, items[1..])
  }

  function ApkOrder(fs: Fs, root: Item): seq<string> {
    ApksOf(fs, RootMagic(fs, root.path), Fifo(fs, RootMagic(fs, root.path), [root]))
  }
}
