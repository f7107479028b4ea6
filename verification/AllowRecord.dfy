/** An allow-list profile as a record: the fields of a C struct on a 64-bit machine, in its order
    and with its padding, and the profiles that such a record can hold. */
module AllowRecord {
  import opened Bytes
  import opened AllowState

  const MAX_PACKAGE_NAME: nat := 256
  const DOMAIN_LENGTH: nat := 64
  const WORD: nat := 0x1_0000_0000
  const DOUBLE_WORD: nat := 0x1_0000_0000_0000_0000

  // -------- What a record can hold --------

  // A NUL-terminated string of byte-sized characters.
  predicate Holdable(s: string, length: nat) {
    |s| < length && forall c | c in s :: 0 < c as int < 256
  }

  predicate Int32(x: int) {
    -0x8000_0000 <= x < 0x8000_0000
  }

  predicate RootRepresentable(r: RootProfile) {
    && Int32(r.uid) && Int32(r.gid) && Int32(r.groupsCount) && Int32(r.namespaces)
    && |r.groups| == MAX_GROUPS && (forall g | g in r.groups :: Int32(g))
    && r.capabilities.0 < DOUBLE_WORD && r.capabilities.1 < DOUBLE_WORD && r.capabilities.2 < DOUBLE_WORD
    && Holdable(r.domain, DOMAIN_LENGTH)
  }

  predicate Representable(p: Profile) {
    && p.version < WORD && p.uid < WORD && Holdable(p.key, MAX_PACKAGE_NAME)
    && RootRepresentable(p.config.rootProfile)
  }

  // -------- Fields --------

  function Take(bs: seq<byte>, n: nat): seq<byte> {
    if n <= |bs| then bs[..n] else bs
  }

  function Drop(bs: seq<byte>, n: nat): seq<byte> {
    if n <= |bs| then bs[n..] else []
  }

  lemma TakeDrop(a: seq<byte>, b: seq<byte>, n: nat)
    requires n == |a|
    ensures Take(a + b, n) == a && Drop(a + b, n) == b
  {
  }

  function Zeros(n: nat): (bs: seq<byte>)
    ensures |bs| == n
  {
    if n == 0 then [] else [0] + Zeros(n - 1)
  }

  function Text(s: string, n: nat): (bs: seq<byte>)
    ensures |bs| == n
  {
    if n == 0 then [] else if s == "" then Zeros(n) else [s[0] as int % 256] + Text(s[1..], n - 1)
  }

  // Up to the terminator.
  function FromText(bs: seq<byte>): string {
    if bs == [] || bs[0] == 0 then "" else [bs[0] as char] + FromText(bs[1..])
  }

  lemma TextHead(s: string, n: nat)
    requires s != "" && n > 0
    ensures Text(s, n) == [s[0] as int % 256] + Text(s[1..], n - 1)
  {
  }

  lemma FromTextHead(c: char, rest: seq<byte>)
    requires 0 < c as int < 256
    ensures FromText([c as int % 256] + rest) == [c] + FromText(rest)
  {
    var bs: seq<byte> := [c as int % 256] + rest;
    assert bs[0] as char == c && bs[1..] == rest;
  }

  lemma {:induction false} TextRoundTrip(s: string, n: nat)
    requires Holdable(s, n)
    ensures FromText(Text(s, n)) == s
    decreases |s|
  {
    if s != "" {
      assert s[0] in s && forall c | c in s[1..] :: c in s;
      TextRoundTrip(s[1..], n - 1);
      hide Text, FromText;
      TextHead(s, n);
      FromTextHead(s[0], Text(s[1..], n - 1));
      assert s == [s[0]] + s[1..];
    }
  }

  // Two's complement.
  function Word(x: int): (bs: seq<byte>)
    ensures |bs| == 4
  {
    ToLE(x % WORD, 4)
  }

  function FromWord(bs: seq<byte>): int {
    var n := FromLE(bs);
    if n < 0x8000_0000 then n else n - WORD
  }

  lemma WordRoundTrip(x: int)
    requires Int32(x)
    ensures FromWord(Word(x)) == x
  {
    Widths();
    RoundTripLE(x % WORD, 4);
    hide ToLE, FromLE;
  }

  function Words(xs: seq<int>, n: nat): (bs: seq<byte>)
    ensures |bs| == 4 * n
    decreases n
  {
    if n == 0 then [] else if xs == [] then Word(0) + Words([], n - 1) else Word(xs[0]) + Words(xs[1..], n - 1)
  }

  function FromWords(bs: seq<byte>, n: nat): seq<int>
    decreases n
  {
    if n == 0 then [] else [FromWord(Take(bs, 4))] + FromWords(Drop(bs, 4), n - 1)
  }

  lemma {:induction false} WordsRoundTrip(xs: seq<int>)
    requires forall x | x in xs :: Int32(x)
    ensures FromWords(Words(xs, |xs|), |xs|) == xs
    decreases |xs|
  {
    if xs != [] {
      assert xs[0] in xs && forall x | x in xs[1..] :: x in xs;
      WordRoundTrip(xs[0]);
      TakeDrop(Word(xs[0]), Words(xs[1..], |xs| - 1), 4);
      hide Word, FromWord, Take, Drop;
      WordsRoundTrip(xs[1..]);
      assert xs == [xs[0]] + xs[1..];
    }
  }

  function Flag(b: bool): (bs: seq<byte>)
    ensures |bs| == 1
  {
    if b then [1] else [0]
  }

  function FromFlag(bs: seq<byte>): bool {
    bs != [] && bs[0] != 0
  }

  // -------- Records --------

  function EncodeRoot(r: RootProfile): (bs: seq<byte>)
    ensures |bs| == 240
  {
    Word(r.uid) + (Word(r.gid) + (Word(r.groupsCount) + (Words(r.groups, MAX_GROUPS) + (Zeros(4)
    + EncodeRootTail(r)))))
  }

  function EncodeRootTail(r: RootProfile): (bs: seq<byte>)
    ensures |bs| == 96
  {
    ToLE(r.capabilities.0, 8) + (ToLE(r.capabilities.1, 8) + (ToLE(r.capabilities.2, 8)
    + (Text(r.domain, DOMAIN_LENGTH) + (Word(r.namespaces) + Zeros(4)))))
  }

  function DecodeCapabilities(bs: seq<byte>): (nat, nat, nat) {
    (FromLE(Take(bs, 8)), FromLE(Take(Drop(bs, 8), 8)), FromLE(Take(Drop(Drop(bs, 8), 8), 8)))
  }

  function DecodeRoot(bs: seq<byte>): RootProfile {
    var r1 := Drop(bs, 4);
    var r2 := Drop(r1, 4);
    var r3 := Drop(r2, 4);
    var tail := Drop(Drop(r3, 4 * MAX_GROUPS), 4);
    var last := Drop(Drop(Drop(tail, 8), 8), 8);
    RootProfile(FromWord(Take(bs, 4)), FromWord(Take(r1, 4)), FromWord(Take(r2, 4)),
                FromWords(Take(r3, 4 * MAX_GROUPS), MAX_GROUPS), DecodeCapabilities(tail),
                FromText(Take(last, DOMAIN_LENGTH)), FromWord(Take(Drop(last, DOMAIN_LENGTH), 4)))
  }

  // umountModules lies at the place of the first byte of a template's name, which the model
  // does not hold otherwise.
  function Encode(p: Profile): (bs: seq<byte>)
    ensures |bs| == RECORD_SIZE
  {
    ToLE(p.version, 4) + (Text(p.key, MAX_PACKAGE_NAME) + (ToLE(p.uid, 4) + (Flag(p.allowSu) + (Zeros(7)
    + (Flag(p.config.useDefault) + (Flag(p.config.umountModules) + (Zeros(262) + EncodeRoot(p.config.rootProfile))))))))
  }

  const RECORD_SIZE: nat := 776

  function Decode(bs: seq<byte>): Profile {
    var r1 := Drop(bs, 4);
    var r2 := Drop(r1, MAX_PACKAGE_NAME);
    var r3 := Drop(r2, 4);
    var r4 := Drop(Drop(r3, 1), 7);
    var r5 := Drop(r4, 1);
    Profile(FromLE(Take(bs, 4)), FromText(Take(r1, MAX_PACKAGE_NAME)), FromLE(Take(r2, 4)), FromFlag(Take(r3, 1)),
            Config(FromFlag(Take(r4, 1)), DecodeRoot(Drop(Drop(r5, 1), 262)), FromFlag(Take(r5, 1))))
  }

  lemma RootTailRoundTrip(r: RootProfile)
    requires RootRepresentable(r)
    ensures var tail := EncodeRootTail(r);
            var last := Drop(Drop(Drop(tail, 8), 8), 8);
            && DecodeCapabilities(tail) == r.capabilities
            && FromText(Take(last, DOMAIN_LENGTH)) == r.domain
            && FromWord(Take(Drop(last, DOMAIN_LENGTH), 4)) == r.namespaces
  {
    Widths();
    RoundTripLE(r.capabilities.0, 8);
    RoundTripLE(r.capabilities.1, 8);
    RoundTripLE(r.capabilities.2, 8);
    TextRoundTrip(r.domain, DOMAIN_LENGTH);
    WordRoundTrip(r.namespaces);
    hide ToLE, FromLE, Text, FromText, Word, FromWord, Take, Drop, Zeros;
    var c0, c1, c2 := ToLE(r.capabilities.0, 8), ToLE(r.capabilities.1, 8), ToLE(r.capabilities.2, 8);
    var domain, rest := Text(r.domain, DOMAIN_LENGTH), Word(r.namespaces) + Zeros(4);
    TakeDrop(c0, c1 + (c2 + (domain + rest)), 8);
    TakeDrop(c1, c2 + (domain + rest), 8);
    TakeDrop(c2, domain + rest, 8);
    TakeDrop(domain, rest, DOMAIN_LENGTH);
    TakeDrop(Word(r.namespaces), Zeros(4), 4);
  }

  lemma RootRoundTrip(r: RootProfile)
    requires RootRepresentable(r)
    ensures DecodeRoot(EncodeRoot(r)) == r
  {
    WordRoundTrip(r.uid);
    WordRoundTrip(r.gid);
    WordRoundTrip(r.groupsCount);
    WordsRoundTrip(r.groups);
    RootTailRoundTrip(r);
    hide Text, FromText, Word, FromWord, Words, FromWords, Take, Drop, Zeros, EncodeRootTail, DecodeCapabilities;
    var groups, tail := Words(r.groups, MAX_GROUPS), EncodeRootTail(r);
    TakeDrop(Word(r.uid), Word(r.gid) + (Word(r.groupsCount) + (groups + (Zeros(4) + tail))), 4);
    TakeDrop(Word(r.gid), Word(r.groupsCount) + (groups + (Zeros(4) + tail)), 4);
    TakeDrop(Word(r.groupsCount), groups + (Zeros(4) + tail), 4);
    TakeDrop(groups, Zeros(4) + tail, 4 * MAX_GROUPS);
    TakeDrop(Zeros(4), tail, 4);
  }

  lemma FlagRoundTrip(b: bool)
    ensures FromFlag(Flag(b)) == b
  {
  }

  // Every profile that a record can hold is read back as it was written.
  lemma RecordRoundTrip(p: Profile)
    requires Representable(p)
    ensures Decode(Encode(p)) == p
  {
    Widths();
    RoundTripLE(p.version, 4);
    RoundTripLE(p.uid, 4);
    TextRoundTrip(p.key, MAX_PACKAGE_NAME);
    FlagRoundTrip(p.allowSu);
    FlagRoundTrip(p.config.useDefault);
    FlagRoundTrip(p.config.umountModules);
    RootRoundTrip(p.config.rootProfile);
    hide ToLE, FromLE, Text, FromText, Flag, FromFlag, Take, Drop, Zeros, EncodeRoot, DecodeRoot;
    var version, key, uid, allow := ToLE(p.version, 4), Text(p.key, MAX_PACKAGE_NAME), ToLE(p.uid, 4), Flag(p.allowSu);
    var root := EncodeRoot(p.config.rootProfile);
    var config1 := Zeros(262) + root;
    var config0 := Flag(p.config.umountModules) + config1;
    var config := Flag(p.config.useDefault) + config0;
    TakeDrop(version, key + (uid + (allow + (Zeros(7) + config))), 4);
    TakeDrop(key, uid + (allow + (Zeros(7) + config)), MAX_PACKAGE_NAME);
    TakeDrop(uid, allow + (Zeros(7) + config), 4);
    TakeDrop(allow, Zeros(7) + config, 1);
    TakeDrop(Zeros(7), config, 7);
    TakeDrop(Flag(p.config.useDefault), config0, 1);
    TakeDrop(Flag(p.config.umountModules), config1, 1);
    TakeDrop(Zeros(262), root, 262);
  }
}
