/** Where the blobs of a DTBO image go: entries with the same file and compression share one
    blob, the others follow each other behind the entry table. */
module DtboLayout {
  import opened Bytes

  // File contents in a compression format: 0 is none, 1 is zlib, 2 is gzip.
  datatype Source = Source(path: string, format: nat, content: seq<byte>)

  // decompress detects the format by itself.
  datatype Codec = Codec(compress: (nat, seq<byte>) -> seq<byte>, decompress: seq<byte> -> seq<byte>)

  ghost predicate Inverse(c: Codec) {
    forall format, content | format == 1 || format == 2 :: c.decompress(c.compress(format, content)) == content
  }

  function Blob(c: Codec, s: Source): seq<byte> {
    if s.format == 0 then s.content else c.compress(s.format, s.content)
  }

  datatype Placed = Placed(path: string, format: nat, offset: nat, size: nat)

  // The first entry with this path, or |done|.
  function FindSame(done: seq<Placed>, path: string): (i: nat)
    ensures i <= |done|
    ensures i < |done| ==> done[i].path == path
    ensures forall j | 0 <= j < i :: done[j].path != path
  {
    if done == [] || done[0].path == path then 0 else 1 + FindSame(done[1..], path)
  }

  // Only the first entry with the same path is asked whether its blob can be shared.
  predicate Shares(done: seq<Placed>, s: Source) {
    var i := FindSame(done, s.path);
    i < |done| && done[i].format == s.format
  }

  function PlaceOne(done: seq<Placed>, next: nat, s: Source, c: Codec): Placed {
    if Shares(done, s) then done[FindSame(done, s.path)] else Placed(s.path, s.format, next, |Blob(c, s)|)
  }

  // blobs are the entries with a blob of their own, in file order.
  datatype Plan = Plan(entries: seq<Placed>, blobs: seq<Placed>, buf: seq<byte>, next: nat)

  function Extend(p: Plan, s: Source, c: Codec): Plan {
    var e := PlaceOne(p.entries, p.next, s, c);
    if Shares(p.entries, s) then p.(entries := p.entries + [e])
    else Plan(p.entries + [e], p.blobs + [e], p.buf + Blob(c, s), p.next + |Blob(c, s)|)
  }

  function PlaceAll(p: Plan, ss: seq<Source>, c: Codec): Plan
    decreases |ss|
  {
    if ss == [] then p else PlaceAll(Extend(p, ss[0], c), ss[1..], c)
  }

  // The image of these sources, whose blobs start at this offset.
  function Layout(start: nat, ss: seq<Source>, c: Codec): Plan {
    PlaceAll(Plan([], [], [], start), ss, c)
  }

  // -------- Tiling --------

  // The blobs fill [start, next) one after the other.
  ghost predicate Tiled(blobs: seq<Placed>, start: nat, next: nat) {
    && (blobs == [] ==> next == start)
    && (blobs != [] ==> blobs[0].offset == start && blobs[|blobs| - 1].offset + blobs[|blobs| - 1].size == next)
    && forall k | 0 < k < |blobs| :: blobs[k].offset == blobs[k - 1].offset + blobs[k - 1].size
  }

  ghost predicate PlanOk(p: Plan, start: nat) {
    && start <= p.next == start + |p.buf|
    && Tiled(p.blobs, start, p.next)
    && (forall e | e in p.entries :: e in p.blobs)
    && (forall b | b in p.blobs :: b in p.entries && start <= b.offset && b.offset + b.size <= p.next)
  }

  lemma TiledAppend(blobs: seq<Placed>, start: nat, next: nat, e: Placed)
    requires Tiled(blobs, start, next) && e.offset == next
    ensures Tiled(blobs + [e], start, next + e.size)
  {
  }

  lemma ExtendKeepsPlanOk(p: Plan, start: nat, s: Source, c: Codec)
    requires PlanOk(p, start)
    ensures PlanOk(Extend(p, s, c), start)
  {
    var e := PlaceOne(p.entries, p.next, s, c);
    hide Tiled;
    if Shares(p.entries, s) {
      assert e in p.entries;
    } else {
      hide Blob, Shares;
      TiledAppend(p.blobs, start, p.next, e);
    }
  }

  lemma {:induction false} PlaceAllKeepsPlanOk(p: Plan, start: nat, ss: seq<Source>, c: Codec)
    requires PlanOk(p, start)
    ensures PlanOk(PlaceAll(p, ss, c), start)
    decreases |ss|
  {
    hide PlanOk, Extend;
    if ss != [] {
      ExtendKeepsPlanOk(p, start, ss[0], c);
      PlaceAllKeepsPlanOk(Extend(p, ss[0], c), start, ss[1..], c);
    }
  }

  // The unshared blobs tile the space behind the table, and each entry uses one of them.
  lemma LayoutTiles(start: nat, ss: seq<Source>, c: Codec)
    ensures PlanOk(Layout(start, ss, c), start)
  {
    PlaceAllKeepsPlanOk(Plan([], [], [], start), start, ss, c);
    hide PlaceAll;
  }

  // -------- Contents --------

  // Files with the same path are the same file.
  ghost predicate SameFiles(ss: seq<Source>) {
    forall i, j | 0 <= i < j < |ss| && ss[i].path == ss[j].path :: ss[i].content == ss[j].content
  }

  // The entry's range of the buffer is this source's blob.
  ghost predicate Lies(e: Placed, s: Source, buf: seq<byte>, start: nat, c: Codec) {
    && e.path == s.path && e.format == s.format
    && start <= e.offset && e.offset + e.size <= start + |buf|
    && buf[e.offset - start..e.offset - start + e.size] == Blob(c, s)
  }

  // The first entries lie at their own blobs.
  ghost predicate Holds(p: Plan, start: nat, done: seq<Source>, c: Codec) {
    && |p.entries| == |done| && p.next == start + |p.buf|
    && forall i | 0 <= i < |done| :: Lies(p.entries[i], done[i], p.buf, start, c)
  }

  lemma LiesAfterAppend(e: Placed, s: Source, buf: seq<byte>, more: seq<byte>, start: nat, c: Codec)
    requires Lies(e, s, buf, start, c)
    ensures Lies(e, s, buf + more, start, c)
  {
    var from, to := e.offset - start, e.offset - start + e.size;
    assert (buf + more)[from..to] == buf[from..to];
    hide Blob;
  }

  lemma NewBlobLies(p: Plan, s: Source, start: nat, c: Codec)
    requires p.next == start + |p.buf|
    ensures Lies(Placed(s.path, s.format, p.next, |Blob(c, s)|), s, p.buf + Blob(c, s), start, c)
  {
    hide Blob;
    assert (p.buf + Blob(c, s))[|p.buf|..|p.buf| + |Blob(c, s)|] == Blob(c, s);
  }

  lemma ExtendHolds(p: Plan, start: nat, done: seq<Source>, s: Source, c: Codec)
    requires Holds(p, start, done, c) && SameFiles(done + [s])
    ensures Holds(Extend(p, s, c), start, done + [s], c)
  {
    hide Blob;
    var r := Extend(p, s, c);
    var all := done + [s];
    NewBlobLies(p, s, start, c);
    forall i | 0 <= i < |all|
      ensures Lies(r.entries[i], all[i], r.buf, start, c)
    {
      if i < |done| {
        LiesAfterAppend(p.entries[i], done[i], p.buf, Blob(c, s), start, c);
        hide Lies, Shares;
      } else if Shares(p.entries, s) {
        SharedLies(p, start, done, s, c);
        hide Lies;
      } else {
        hide Lies, Shares;
      }
    }
  }

  lemma SharedLies(p: Plan, start: nat, done: seq<Source>, s: Source, c: Codec)
    requires Holds(p, start, done, c) && SameFiles(done + [s]) && Shares(p.entries, s)
    ensures Lies(p.entries[FindSame(p.entries, s.path)], s, p.buf, start, c)
  {
    var j := FindSame(p.entries, s.path);
    var all := done + [s];
    assert all[j] == done[j] && all[|done|] == s && done[j].path == s.path;
    assert done[j].content == s.content;
  }

  lemma {:induction false} PlaceAllHolds(p: Plan, start: nat, done: seq<Source>, ss: seq<Source>, c: Codec)
    requires Holds(p, start, done, c) && SameFiles(done + ss)
    ensures Holds(PlaceAll(p, ss, c), start, done + ss, c)
    decreases |ss|
  {
    hide Holds, Extend;
    if ss == [] {
      assert done + ss == done;
    } else {
      assert done + ss == (done + [ss[0]]) + ss[1..];
      assert forall i | 0 <= i <= |done| :: (done + [ss[0]])[i] == (done + ss)[i];
      assert SameFiles(done + [ss[0]]);
      ExtendHolds(p, start, done, ss[0], c);
      PlaceAllHolds(Extend(p, ss[0], c), start, done + [ss[0]], ss[1..], c);
    }
  }

  // Every entry's range of the buffer holds that entry's blob.
  lemma LayoutHolds(start: nat, ss: seq<Source>, c: Codec)
    requires SameFiles(ss)
    ensures Holds(Layout(start, ss, c), start, ss, c)
  {
    assert [] + ss == ss;
    PlaceAllHolds(Plan([], [], [], start), start, [], ss, c);
    hide PlaceAll;
  }

  // -------- Equal offsets --------

  // Entries at the same offset have the same file and compression.
  ghost predicate OffsetsFaithful(entries: seq<Placed>) {
    forall d, e | d in entries && e in entries && d.offset == e.offset :: d.path == e.path && d.format == e.format
  }

  // A source gets a blob of its own unless the first listed one with its path has its compression.
  ghost predicate IsUnshared(done: seq<Source>, s: Source) {
    forall i | 0 <= i < |done| && done[i].path == s.path && (forall j | 0 <= j < i :: done[j].path != s.path) ::
      done[i].format != s.format
  }

  ghost function UnsharedFrom(done: seq<Source>, ss: seq<Source>): seq<Source>
    decreases |ss|
  {
    if ss == [] then []
    else (if IsUnshared(done, ss[0]) then [ss[0]] else []) + UnsharedFrom(done + [ss[0]], ss[1..])
  }

  // An unshared source with an empty blob is followed, among the unshared ones, by the same
  // file and compression, if by any.
  predicate EmptyBlobsAgree(us: seq<Source>, c: Codec) {
    forall k | 0 < k < |us| && Blob(c, us[k - 1]) == [] :: us[k - 1].path == us[k].path && us[k - 1].format == us[k].format
  }

  ghost predicate BlobsOf(blobs: seq<Placed>, us: seq<Source>, c: Codec) {
    && |blobs| == |us|
    && forall k | 0 <= k < |us| :: blobs[k].path == us[k].path && blobs[k].format == us[k].format && blobs[k].size == |Blob(c, us[k])|
  }

  ghost predicate EntriesOf(entries: seq<Placed>, done: seq<Source>) {
    |entries| == |done| && forall k | 0 <= k < |done| :: entries[k].path == done[k].path && entries[k].format == done[k].format
  }

  lemma SharesIffListed(entries: seq<Placed>, done: seq<Source>, s: Source)
    requires EntriesOf(entries, done)
    ensures Shares(entries, s) <==> !IsUnshared(done, s)
  {
    var i := FindSame(entries, s.path);
    if i < |entries| {
      assert done[i].path == s.path && forall j | 0 <= j < i :: done[j].path != s.path;
    }
  }

  lemma ExtendBlobs(p: Plan, done: seq<Source>, us: seq<Source>, s: Source, c: Codec)
    requires EntriesOf(p.entries, done) && BlobsOf(p.blobs, us, c)
    ensures EntriesOf(Extend(p, s, c).entries, done + [s])
    ensures BlobsOf(Extend(p, s, c).blobs, if IsUnshared(done, s) then us + [s] else us, c)
  {
    hide Blob, Shares, IsUnshared;
    SharesIffListed(p.entries, done, s);
    SharedFormat(p.entries, s);
  }

  lemma PlaceHead(p: Plan, ss: seq<Source>, c: Codec)
    ensures PlaceAll(p, ss, c) == if ss == [] then p else PlaceAll(Extend(p, ss[0], c), ss[1..], c)
  {
  }

  lemma {:induction false} PlaceAllBlobs(p: Plan, done: seq<Source>, us: seq<Source>, ss: seq<Source>, c: Codec)
    requires EntriesOf(p.entries, done) && BlobsOf(p.blobs, us, c)
    ensures BlobsOf(PlaceAll(p, ss, c).blobs, us + UnsharedFrom(done, ss), c)
    decreases |ss|
  {
    hide Blob, Shares, IsUnshared;
    if ss == [] {
      PlaceHead(p, ss, c);
      hide PlaceAll, BlobsOf;
      assert us + UnsharedFrom(done, ss) == us;
    } else {
      hide Extend, BlobsOf, EntriesOf, PlaceAll;
      var s, p' := ss[0], Extend(p, ss[0], c);
      ExtendBlobs(p, done, us, s, c);
      PlaceHead(p, ss, c);
      var us' := if IsUnshared(done, s) then us + [s] else us;
      assert us' + UnsharedFrom(done + [s], ss[1..]) == us + UnsharedFrom(done, ss);
      PlaceAllBlobs(p', done + [s], us', ss[1..], c);
    }
  }

  lemma SharedFormat(entries: seq<Placed>, s: Source)
    ensures Shares(entries, s) ==> var i := FindSame(entries, s.path); i < |entries| && entries[i].path == s.path && entries[i].format == s.format
  {
  }

  lemma LayoutBlobs(start: nat, ss: seq<Source>, c: Codec)
    ensures BlobsOf(Layout(start, ss, c).blobs, UnsharedFrom([], ss), c)
  {
    assert [] + UnsharedFrom([], ss) == UnsharedFrom([], ss);
    PlaceAllBlobs(Plan([], [], [], start), [], [], ss, c);
    hide PlaceAll, UnsharedFrom;
  }

  predicate EmptyPlacesAgree(blobs: seq<Placed>) {
    forall k | 0 < k < |blobs| && blobs[k - 1].size == 0 ::
      blobs[k - 1].path == blobs[k].path && blobs[k - 1].format == blobs[k].format
  }

  lemma TiledOrder(blobs: seq<Placed>, start: nat, next: nat, i: nat, j: nat)
    requires Tiled(blobs, start, next) && i <= j < |blobs|
    ensures blobs[i].offset <= blobs[j].offset
    decreases j
  {
    if i < j { TiledOrder(blobs, start, next, i, j - 1); }
  }

  lemma EqualOffsetsAgree(blobs: seq<Placed>, start: nat, next: nat, i: nat, j: nat)
    requires Tiled(blobs, start, next) && EmptyPlacesAgree(blobs)
    requires i <= j < |blobs| && blobs[i].offset == blobs[j].offset
    ensures blobs[i].path == blobs[j].path && blobs[i].format == blobs[j].format
    decreases j
  {
    if i < j {
      TiledOrder(blobs, start, next, i, j - 1);
      assert blobs[j - 1].size == 0;
      EqualOffsetsAgree(blobs, start, next, i, j - 1);
    }
  }

  lemma PlacesExact(p: Plan, start: nat)
    requires PlanOk(p, start)
    ensures OffsetsFaithful(p.entries) <==> EmptyPlacesAgree(p.blobs)
  {
    if EmptyPlacesAgree(p.blobs) {
      forall d, e | d in p.entries && e in p.entries && d.offset == e.offset
        ensures d.path == e.path && d.format == e.format
      {
        var i :| 0 <= i < |p.blobs| && p.blobs[i] == d;
        var j :| 0 <= j < |p.blobs| && p.blobs[j] == e;
        if i <= j {
          EqualOffsetsAgree(p.blobs, start, p.next, i, j);
        } else {
          EqualOffsetsAgree(p.blobs, start, p.next, j, i);
        }
      }
    }
    if OffsetsFaithful(p.entries) {
      forall k | 0 < k < |p.blobs| && p.blobs[k - 1].size == 0
        ensures p.blobs[k - 1].path == p.blobs[k].path && p.blobs[k - 1].format == p.blobs[k].format
      {
        assert p.blobs[k - 1] in p.blobs && p.blobs[k] in p.blobs;
      }
    }
  }

  lemma EmptiesAgree(blobs: seq<Placed>, us: seq<Source>, c: Codec)
    requires BlobsOf(blobs, us, c)
    ensures EmptyPlacesAgree(blobs) <==> EmptyBlobsAgree(us, c)
  {
    hide Blob;
    assert forall k | 0 <= k < |us| :: blobs[k].size == 0 <==> Blob(c, us[k]) == [];
  }

  // Sharing an offset means sharing a file and a compression exactly when every empty unshared
  // blob agrees with its successor.
  lemma OffsetsExact(start: nat, ss: seq<Source>, c: Codec)
    ensures OffsetsFaithful(Layout(start, ss, c).entries) <==> EmptyBlobsAgree(UnsharedFrom([], ss), c)
  {
    var p, us := Layout(start, ss, c), UnsharedFrom([], ss);
    LayoutTiles(start, ss, c);
    PlacesExact(p, start);
    LayoutBlobs(start, ss, c);
    hide Layout, PlanOk, UnsharedFrom, OffsetsFaithful, BlobsOf, EmptyPlacesAgree, EmptyBlobsAgree;
    EmptiesAgree(p.blobs, us, c);
  }

  // An empty file followed by another file is such an exception.
  lemma EmptyFileSharesOffset(c: Codec)
    ensures var ss := [Source("a", 0, []), Source("b", 0, [1])];
            !OffsetsFaithful(Layout(96, ss, c).entries)
  {
    var a, b := Source("a", 0, []), Source("b", 0, [1]);
    var p1 := Extend(Plan([], [], [], 96), a, c);
    assert p1.entries == [Placed("a", 0, 96, 0)];
    var p2 := Extend(p1, b, c);
    assert FindSame(p1.entries, "b") == 1;
    assert p2.entries == [Placed("a", 0, 96, 0), Placed("b", 0, 96, 1)];
    assert [a, b][1..] == [b] && [b][1..] == [];
    assert PlaceAll(p2, [], c) == p2;
    assert PlaceAll(p1, [b], c) == PlaceAll(p2, [], c);
    assert Layout(96, [a, b], c) == p2;
    assert p2.entries[0] in p2.entries && p2.entries[1] in p2.entries;
  }
}
