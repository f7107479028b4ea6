/** The bytes of the allow list's file: its header, its records, and every field of a record. */
module AllowBytes {
  import opened Bytes
  import opened AllowState
  import opened AllowRecord
  import opened AllowFile

  // The bytes of part lie at this place.
  ghost predicate Lies(bs: seq<byte>, at: nat, part: seq<byte>) {
    at + |part| <= |bs| && bs[at..at + |part|] == part
  }

  lemma LiesSplit(bs: seq<byte>, at: nat, a: seq<byte>, b: seq<byte>)
    requires Lies(bs, at, a + b)
    ensures Lies(bs, at, a) && Lies(bs, at + |a|, b)
  {
    var n := |a| + |b|;
    assert bs[at..at + n][..|a|] == a && bs[at..at + n][|a|..] == b;
    assert bs[at..at + n][..|a|] == bs[at..at + |a|] && bs[at..at + n][|a|..] == bs[at + |a|..at + n];
  }

  // Numbers are written with their lowest byte first.
  lemma LowestFirst(n: nat)
    ensures ToLE(n, 4) == [n % 256, n / 0x100 % 256, n / 0x1_0000 % 256, n / 0x100_0000 % 256]
  {
    assert n / 256 / 256 == n / 0x1_0000 && n / 256 / 256 / 256 == n / 0x100_0000;
    assert ToLE(n / 0x100_0000, 1) == [n / 0x100_0000 % 256];
    assert ToLE(n / 0x1_0000, 2) == [n / 0x1_0000 % 256] + ToLE(n / 0x100_0000, 1);
    assert ToLE(n / 256, 3) == [n / 256 % 256] + ToLE(n / 0x1_0000, 2);
  }

  // -------- Records --------

  // A string with its terminator.
  ghost predicate TextLies(bs: seq<byte>, at: nat, s: string) {
    at + |s| < |bs| && (forall i | 0 <= i < |s| :: bs[at + i] == s[i] as int) && bs[at + |s|] == 0
  }

  lemma {:induction false} TextIs(s: string, n: nat)
    requires Holdable(s, n)
    ensures |s| < n && TextLies(Text(s, n), 0, s)
    decreases |s|
  {
    var t := Text(s, n);
    if s == "" {
      assert t[0] == 0;
    } else {
      assert s[0] in s && forall c | c in s[1..] :: c in s;
      TextIs(s[1..], n - 1);
      TextHead(s, n);
      hide Text, Holdable;
      assert forall i | 0 < i <= |s| :: t[i] == Text(s[1..], n - 1)[i - 1];
      assert forall i | 0 < i < |s| :: s[i] == s[1..][i - 1];
    }
  }

  lemma TextInside(bs: seq<byte>, at: nat, s: string, n: nat)
    requires Lies(bs, at, Text(s, n)) && Holdable(s, n)
    ensures TextLies(bs, at, s)
  {
    TextIs(s, n);
    hide Text;
    assert forall i | 0 <= i <= |s| :: Text(s, n)[i] == bs[at..at + n][i] == bs[at + i];
  }

  // The root profile of a record, from its place on. Signed numbers are stored modulo 2^32.
  ghost predicate RootLies(bs: seq<byte>, at: nat, r: RootProfile) {
    && Lies(bs, at, ToLE(r.uid % 0x1_0000_0000, 4)) && Lies(bs, at + 4, ToLE(r.gid % 0x1_0000_0000, 4))
    && Lies(bs, at + 8, ToLE(r.groupsCount % 0x1_0000_0000, 4))
    && |r.groups| == 32 && (forall i | 0 <= i < 32 :: Lies(bs, at + 12 + 4 * i, ToLE(r.groups[i] % 0x1_0000_0000, 4)))
    && Lies(bs, at + 144, ToLE(r.capabilities.0, 8)) && Lies(bs, at + 152, ToLE(r.capabilities.1, 8))
    && Lies(bs, at + 160, ToLE(r.capabilities.2, 8))
    && TextLies(bs, at + 168, r.domain)
    && Lies(bs, at + 232, ToLE(r.namespaces % 0x1_0000_0000, 4))
  }

  lemma {:induction false} WordsLie(bs: seq<byte>, at: nat, xs: seq<int>, n: nat)
    requires Lies(bs, at, Words(xs, n)) && |xs| == n
    ensures forall i | 0 <= i < n :: Lies(bs, at + 4 * i, ToLE(xs[i] % 0x1_0000_0000, 4))
    decreases n
  {
    if n > 0 {
      WordsHead(xs, n);
      hide Words;
      LiesSplit(bs, at, ToLE(xs[0] % 0x1_0000_0000, 4), Words(xs[1..], n - 1));
      WordsLie(bs, at + 4, xs[1..], n - 1);
      hide Lies, ToLE;
      forall i | 0 < i < n
        ensures Lies(bs, at + 4 * i, ToLE(xs[i] % 0x1_0000_0000, 4))
      {
        assert xs[i] == xs[1..][i - 1] && at + 4 * i == at + 4 + 4 * (i - 1);
      }
    }
  }

  lemma WordsHead(xs: seq<int>, n: nat)
    requires |xs| == n > 0
    ensures Words(xs, n) == ToLE(xs[0] % 0x1_0000_0000, 4) + Words(xs[1..], n - 1)
  {
  }

  lemma TailLies(bs: seq<byte>, at: nat, r: RootProfile)
    requires Lies(bs, at, EncodeRootTail(r)) && RootRepresentable(r)
    ensures Lies(bs, at, ToLE(r.capabilities.0, 8)) && Lies(bs, at + 8, ToLE(r.capabilities.1, 8))
    ensures Lies(bs, at + 16, ToLE(r.capabilities.2, 8)) && TextLies(bs, at + 24, r.domain)
    ensures Lies(bs, at + 88, ToLE(r.namespaces % 0x1_0000_0000, 4))
  {
    hide ToLE, Text, Lies, Zeros, TextLies;
    var c0, c1, c2 := ToLE(r.capabilities.0, 8), ToLE(r.capabilities.1, 8), ToLE(r.capabilities.2, 8);
    var domain, last := Text(r.domain, 64), ToLE(r.namespaces % 0x1_0000_0000, 4);
    LiesSplit(bs, at, c0, c1 + (c2 + (domain + (last + Zeros(4)))));
    LiesSplit(bs, at + 8, c1, c2 + (domain + (last + Zeros(4))));
    LiesSplit(bs, at + 16, c2, domain + (last + Zeros(4)));
    LiesSplit(bs, at + 24, domain, last + Zeros(4));
    LiesSplit(bs, at + 88, last, Zeros(4));
    TextInside(bs, at + 24, r.domain, 64);
  }

  lemma RootInside(bs: seq<byte>, at: nat, r: RootProfile)
    requires Lies(bs, at, EncodeRoot(r)) && RootRepresentable(r)
    ensures RootLies(bs, at, r)
  {
    hide ToLE, Lies, Zeros, Words, TextLies, EncodeRootTail;
    var uid, gid, count := ToLE(r.uid % 0x1_0000_0000, 4), ToLE(r.gid % 0x1_0000_0000, 4), ToLE(r.groupsCount % 0x1_0000_0000, 4);
    var groups, tail := Words(r.groups, 32), EncodeRootTail(r);
    LiesSplit(bs, at, uid, gid + (count + (groups + (Zeros(4) + tail))));
    LiesSplit(bs, at + 4, gid, count + (groups + (Zeros(4) + tail)));
    LiesSplit(bs, at + 8, count, groups + (Zeros(4) + tail));
    LiesSplit(bs, at + 12, groups, Zeros(4) + tail);
    LiesSplit(bs, at + 140, Zeros(4), tail);
    WordsLie(bs, at + 12, r.groups, 32);
    TailLies(bs, at + 144, r);
  }

  // Every field of a record is at the place that the C struct gives it.
  lemma RecordBytes(p: Profile)
    requires Representable(p)
    ensures var bs := Encode(p);
            && |bs| == 776
            && Lies(bs, 0, ToLE(p.version, 4)) && TextLies(bs, 4, p.key) && Lies(bs, 260, ToLE(p.uid, 4))
            && bs[264] == (if p.allowSu then 1 else 0)
            && bs[272] == (if p.config.useDefault then 1 else 0)
            && bs[273] == (if p.config.umountModules then 1 else 0)
            && RootLies(bs, 536, p.config.rootProfile)
  {
    var bs := Encode(p);
    hide ToLE, Zeros, Text, Flag, EncodeRoot, RootLies, TextLies, RootRepresentable, Holdable;
    assert Lies(bs, 0, bs);
    var version, key, uid, allow := ToLE(p.version, 4), Text(p.key, 256), ToLE(p.uid, 4), Flag(p.allowSu);
    var u, m, root := Flag(p.config.useDefault), Flag(p.config.umountModules), EncodeRoot(p.config.rootProfile);
    var config := u + (m + (Zeros(262) + root));
    LiesSplit(bs, 0, version, key + (uid + (allow + (Zeros(7) + config))));
    hide Encode, Lies;
    LiesSplit(bs, 4, key, uid + (allow + (Zeros(7) + config)));
    LiesSplit(bs, 260, uid, allow + (Zeros(7) + config));
    LiesSplit(bs, 264, allow, Zeros(7) + config);
    LiesSplit(bs, 265, Zeros(7), config);
    ByteLies(bs, 264, p.allowSu);
    TextInside(bs, 4, p.key, 256);
    ConfigInside(bs, 272, p.config);
  }

  lemma ConfigInside(bs: seq<byte>, at: nat, c: Config)
    requires RootRepresentable(c.rootProfile)
    requires Lies(bs, at, Flag(c.useDefault) + (Flag(c.umountModules) + (Zeros(262) + EncodeRoot(c.rootProfile))))
    ensures at + 1 < |bs| && bs[at] == (if c.useDefault then 1 else 0) && bs[at + 1] == (if c.umountModules then 1 else 0)
    ensures RootLies(bs, at + 264, c.rootProfile)
  {
    hide Zeros, Flag, EncodeRoot, Lies, RootLies, RootRepresentable;
    var u, m, root := Flag(c.useDefault), Flag(c.umountModules), EncodeRoot(c.rootProfile);
    LiesSplit(bs, at, u, m + (Zeros(262) + root));
    LiesSplit(bs, at + 1, m, Zeros(262) + root);
    LiesSplit(bs, at + 2, Zeros(262), root);
    ByteLies(bs, at, c.useDefault);
    ByteLies(bs, at + 1, c.umountModules);
    RootInside(bs, at + 264, c.rootProfile);
  }

  lemma ByteLies(bs: seq<byte>, at: nat, b: bool)
    requires Lies(bs, at, Flag(b))
    ensures at < |bs| && bs[at] == if b then 1 else 0
  {
    assert bs[at..at + 1][0] == Flag(b)[0];
  }

  // -------- The file --------

  lemma OneMore(n: nat, i: int)
    ensures n * i == n + n * (i - 1)
  {
  }

  lemma FirstRecord(list: seq<Profile>, l: Layout)
    requires Faithful(l) && AllRepresentable(list) && list != []
    ensures |l.encode(list[0])| == l.size && AllRepresentable(list[1..])
    ensures Records(list, l) == l.encode(list[0]) + Records(list[1..], l)
  {
    assert list[0] in list && forall p | p in list[1..] :: p in list;
    hide Representable;
  }

  // Records that lie one after the other.
  ghost predicate RecordsLie(bs: seq<byte>, at: nat, list: seq<Profile>, l: Layout) {
    forall i | 0 <= i < |list| :: Lies(bs, at + l.size * i, l.encode(list[i]))
  }

  lemma RecordsAhead(bs: seq<byte>, at: nat, list: seq<Profile>, l: Layout)
    requires list != [] && Lies(bs, at, l.encode(list[0])) && RecordsLie(bs, at + l.size, list[1..], l)
    ensures RecordsLie(bs, at, list, l)
  {
    hide Lies;
    forall i | 0 <= i < |list|
      ensures Lies(bs, at + l.size * i, l.encode(list[i]))
    {
      if i == 0 {
        assert l.size * 0 == 0;
      } else {
        assert list[i] == list[1..][i - 1];
        OneMore(l.size, i);
      }
    }
  }

  lemma {:induction false} RecordLies(bs: seq<byte>, at: nat, list: seq<Profile>, l: Layout)
    requires Faithful(l) && AllRepresentable(list) && Lies(bs, at, Records(list, l))
    ensures |Records(list, l)| == l.size * |list| && RecordsLie(bs, at, list, l)
    decreases |list|
  {
    if list != [] {
      FirstRecord(list, l);
      hide Records, Lies, Faithful, AllRepresentable, RecordsLie;
      LiesSplit(bs, at, l.encode(list[0]), Records(list[1..], l));
      RecordLies(bs, at + l.size, list[1..], l);
      RecordsAhead(bs, at, list, l);
      OneMore(l.size, |list|);
    }
  }

  // A saved file has the bytes of 0x7f4b5355 and of 3, and then record after record.
  lemma SavedBytes(st: State, l: Layout)
    requires Faithful(l) && AllRepresentable(st.list)
    ensures var file := Save(st, l);
            && |file| == 8 + l.size * |st.list|
            && file[..8] == [0x55, 0x53, 0x4b, 0x7f, 3, 0, 0, 0]
            && forall i | 0 <= i < |st.list| :: Lies(file, 8 + l.size * i, l.encode(st.list[i]))
  {
    LowestFirst(0x7f4b5355);
    LowestFirst(3);
    hide ToLE;
    var file := Save(st, l);
    assert Lies(file, 8, Records(st.list, l));
    hide Lies, Records, Faithful, AllRepresentable;
    RecordLies(file, 8, st.list, l);
  }

  // A file of whole records with this header sets their profiles in order; with any other first
  // four bytes, or shorter than the header, nothing.
  lemma LoadedBytes(st: State, file: seq<byte>, l: Layout, stale: seq<byte>)
    requires l.size == |stale| > 0
    ensures !(|file| >= 8 && file[..4] == [0x55, 0x53, 0x4b, 0x7f]) ==> Load(st, file, l, stale) == st
    ensures |file| >= 8 && file[..4] == [0x55, 0x53, 0x4b, 0x7f] ==> Load(st, file, l, stale) == LoadRecords(st, file[8..], l, stale)
  {
    hide LoadRecords;
    LowestFirst(0x7f4b5355);
    Widths();
    RoundTripLE(0x7f4b5355, 4);
    if |file| >= 4 && FromLE(file[..4]) == 0x7f4b5355 { SameNumber(file[..4], ToLE(0x7f4b5355, 4)); }
  }

  lemma {:induction false} SameNumber(a: seq<byte>, b: seq<byte>)
    requires |a| == |b| && FromLE(a) == FromLE(b)
    ensures a == b
    decreases |a|
  {
    if a != [] {
      assert FromLE(a) == a[0] + 256 * FromLE(a[1..]) && FromLE(b) == b[0] + 256 * FromLE(b[1..]);
      SameNumber(a[1..], b[1..]);
      assert a == [a[0]] + a[1..] && b == [b[0]] + b[1..];
    }
  }
}
