/** The APK Signing Block as APK Signature Scheme v2 lays it out, the zip entries before it, and
    what the signature check should decide about them. */
module SigningBlock {
  import opened Bytes

  const V2_ID: nat := 0x7109871a
  const V3_ID: nat := 0xf05368c0
  const V31_ID: nat := 0x1b93ad61
  const CERT_MAX_LENGTH: nat := 4096
  const MAX_PAIRS: nat := 10
  const TWO32: nat := 0x1_0000_0000
  const TWO64: nat := 0x1_0000_0000_0000_0000

  // "APK Sig Block 42"
  const BLOCK_MAGIC: seq<byte> :=
    [0x41, 0x50, 0x4b, 0x20, 0x53, 0x69, 0x67, 0x20, 0x42, 0x6c, 0x6f, 0x63, 0x6b, 0x20, 0x34, 0x32]

  type Digest = seq<byte> -> string

  // -------- Format --------

  datatype Pair = Pair(id: nat, value: seq<byte>)

  function EncodePair(p: Pair): seq<byte> {
    ToLE(4 + |p.value|, 8) + ToLE(p.id, 4) + p.value
  }

  function EncodePairs(ps: seq<Pair>): seq<byte> {
    if ps == [] then [] else EncodePair(ps[0]) + EncodePairs(ps[1..])
  }

  // What the size fields count: the pairs, the second size field and the magic.
  function BlockSize(ps: seq<Pair>): nat {
    |EncodePairs(ps)| + 24
  }

  function EncodeBlock(ps: seq<Pair>): seq<byte> {
    ToLE(BlockSize(ps), 8) + EncodePairs(ps) + ToLE(BlockSize(ps), 8) + BLOCK_MAGIC
  }

  // -------- The one signer of a v2 or v3 value --------

  // Lengths of the digests and of the first certificate, within value.
  predicate HasSigner(value: seq<byte>) {
    && |value| >= 24
    && 24 + FromLE(value[12..16]) <= |value|
  }

  function DigestsLength(value: seq<byte>): nat
    requires HasSigner(value)
  {
    FromLE(value[12..16])
  }

  function CertLength(value: seq<byte>): nat
    requires HasSigner(value)
  {
    FromLE(value[20 + DigestsLength(value)..24 + DigestsLength(value)])
  }

  predicate HasCert(value: seq<byte>, expectedSize: nat) {
    HasSigner(value) && (CertLength(value) == expectedSize ==> 24 + DigestsLength(value) + CertLength(value) <= |value|)
  }

  predicate CertMatches(value: seq<byte>, expectedSize: nat, expectedHash: string, sha256: Digest) {
    && HasCert(value, expectedSize)
    && CertLength(value) == expectedSize <= CERT_MAX_LENGTH
    && var from := 24 + DigestsLength(value); sha256(value[from..from + expectedSize]) == expectedHash
  }

  predicate IsSchemeId(p: Pair) {
    p.id == V2_ID || p.id == V3_ID
  }

  predicate PairOk(p: Pair, expectedSize: nat) {
    && p.id < TWO32 && |p.value| + 4 < TWO32
    && (IsSchemeId(p) ==> HasCert(p.value, expectedSize))
  }

  ghost predicate PairsOk(ps: seq<Pair>, expectedSize: nat) {
    forall p | p in ps :: PairOk(p, expectedSize)
  }

  // -------- The verdict on the pairs --------

  datatype Tally = Tally(blocks: nat, valid: bool, v31: bool)

  // A v2 pair overwrites an earlier verdict, a v3 pair keeps an earlier success.
  function Visit(t: Tally, p: Pair, expectedSize: nat, expectedHash: string, sha256: Digest): Tally {
    if p.id == V2_ID then
      t.(blocks := t.blocks + 1, valid := CertMatches(p.value, expectedSize, expectedHash, sha256))
    else if p.id == V3_ID then
      t.(blocks := t.blocks + 1, valid := t.valid || CertMatches(p.value, expectedSize, expectedHash, sha256))
    else if p.id == V31_ID then t.(v31 := true)
    else t
  }

  function VisitAll(t: Tally, ps: seq<Pair>, expectedSize: nat, expectedHash: string, sha256: Digest): Tally
    decreases |ps|
  {
    if ps == [] then t
    else VisitAll(Visit(t, ps[0], expectedSize, expectedHash, sha256), ps[1..], expectedSize, expectedHash, sha256)
  }

  function First(ps: seq<Pair>, n: nat): seq<Pair> {
    if |ps| <= n then ps else ps[..n]
  }

  function Checked(ps: seq<Pair>): seq<Pair> {
    First(ps, MAX_PAIRS)
  }

  // Exactly one of the pairs is a v2 or v3 signature, and it is a good one.
  ghost predicate OneGoodSignature(ps: seq<Pair>, expectedSize: nat, expectedHash: string, sha256: Digest) {
    exists i | 0 <= i < |ps| ::
      && IsSchemeId(ps[i]) && CertMatches(ps[i].value, expectedSize, expectedHash, sha256)
      && forall j | 0 <= j < |ps| && IsSchemeId(ps[j]) :: j == i
  }

  ghost predicate HasV31(ps: seq<Pair>) {
    exists i :: 0 <= i < |ps| && ps[i].id == V31_ID
  }

  function Signatures(ps: seq<Pair>): nat {
    if ps == [] then 0 else (if IsSchemeId(ps[0]) then 1 else 0) + Signatures(ps[1..])
  }

  lemma SignaturesZero(ps: seq<Pair>)
    ensures Signatures(ps) == 0 <==> forall i | 0 <= i < |ps| :: !IsSchemeId(ps[i])
  {
    if ps != [] {
      SignaturesZero(ps[1..]);
      if Signatures(ps) == 0 {
        forall i | 0 <= i < |ps| ensures !IsSchemeId(ps[i]) { if i > 0 { assert ps[i] == ps[1..][i - 1]; } }
      }
    }
  }

  lemma {:induction false} TallyCounts(t: Tally, ps: seq<Pair>, expectedSize: nat, expectedHash: string, sha256: Digest)
    ensures var r := VisitAll(t, ps, expectedSize, expectedHash, sha256);
            && r.blocks == t.blocks + Signatures(ps)
            && (r.v31 <==> t.v31 || HasV31(ps))
            && (Signatures(ps) == 0 ==> r.valid == t.valid)
            && (Signatures(ps) == 1 && !t.valid ==>
                  (r.valid <==> OneGoodSignature(ps, expectedSize, expectedHash, sha256)))
    decreases |ps|
  {
    hide CertMatches;
    if ps != [] {
      var next := Visit(t, ps[0], expectedSize, expectedHash, sha256);
      TallyCounts(next, ps[1..], expectedSize, expectedHash, sha256);
      HasV31Tail(ps);
      if Signatures(ps) == 1 && !t.valid {
        if IsSchemeId(ps[0]) {
          OnlyFirst(ps, expectedSize, expectedHash, sha256);
        } else {
          OnlyLater(ps, expectedSize, expectedHash, sha256);
        }
      }
    }
  }

  lemma HasV31Tail(ps: seq<Pair>)
    requires ps != []
    ensures HasV31(ps) <==> ps[0].id == V31_ID || HasV31(ps[1..])
  {
    if HasV31(ps) && ps[0].id != V31_ID {
      var i :| 0 <= i < |ps| && ps[i].id == V31_ID;
      assert ps[1..][i - 1].id == V31_ID;
    }
    if HasV31(ps[1..]) {
      var i :| 0 <= i < |ps[1..]| && ps[1..][i].id == V31_ID;
      assert ps[i + 1].id == V31_ID;
    }
  }

  lemma OnlyFirst(ps: seq<Pair>, expectedSize: nat, expectedHash: string, sha256: Digest)
    requires ps != [] && IsSchemeId(ps[0]) && Signatures(ps) == 1
    ensures OneGoodSignature(ps, expectedSize, expectedHash, sha256) <==>
            CertMatches(ps[0].value, expectedSize, expectedHash, sha256)
  {
    hide CertMatches;
    SignaturesZero(ps[1..]);
    assert forall j | 0 < j < |ps| :: ps[j] == ps[1..][j - 1];
  }

  lemma OnlyLater(ps: seq<Pair>, expectedSize: nat, expectedHash: string, sha256: Digest)
    requires ps != [] && !IsSchemeId(ps[0])
    ensures OneGoodSignature(ps, expectedSize, expectedHash, sha256) <==>
            OneGoodSignature(ps[1..], expectedSize, expectedHash, sha256)
  {
    hide CertMatches;
    assert forall j | 0 < j < |ps| :: ps[j] == ps[1..][j - 1];
    if OneGoodSignature(ps, expectedSize, expectedHash, sha256) {
      var i :| 0 <= i < |ps| && IsSchemeId(ps[i]) && CertMatches(ps[i].value, expectedSize, expectedHash, sha256)
        && forall j | 0 <= j < |ps| && IsSchemeId(ps[j]) :: j == i;
      assert IsSchemeId(ps[1..][i - 1]);
      forall j | 0 <= j < |ps[1..]| && IsSchemeId(ps[1..][j]) ensures j == i - 1 { assert ps[j + 1] == ps[1..][j]; }
    }
    if OneGoodSignature(ps[1..], expectedSize, expectedHash, sha256) {
      var i :| 0 <= i < |ps[1..]| && IsSchemeId(ps[1..][i]) && CertMatches(ps[1..][i].value, expectedSize, expectedHash, sha256)
        && forall j | 0 <= j < |ps[1..]| && IsSchemeId(ps[1..][j]) :: j == i;
      assert IsSchemeId(ps[i + 1]);
    }
  }

  lemma OneGoodIsOne(ps: seq<Pair>, expectedSize: nat, expectedHash: string, sha256: Digest)
    requires OneGoodSignature(ps, expectedSize, expectedHash, sha256)
    ensures Signatures(ps) == 1
    decreases |ps|
  {
    if IsSchemeId(ps[0]) {
      SignaturesZero(ps[1..]);
      forall j | 0 <= j < |ps[1..]| ensures !IsSchemeId(ps[1..][j]) { assert ps[1..][j] == ps[j + 1]; }
    } else {
      OnlyLater(ps, expectedSize, expectedHash, sha256);
      OneGoodIsOne(ps[1..], expectedSize, expectedHash, sha256);
    }
  }

  // The counters and flags say: exactly one signature, good, and no v3.1 one.
  lemma TallyMeaning(ps: seq<Pair>, expectedSize: nat, expectedHash: string, sha256: Digest)
    ensures var r := VisitAll(Tally(0, false, false), ps, expectedSize, expectedHash, sha256);
            && (r.blocks == 1 && r.valid <==> OneGoodSignature(ps, expectedSize, expectedHash, sha256))
            && (r.v31 <==> HasV31(ps))
  {
    TallyCounts(Tally(0, false, false), ps, expectedSize, expectedHash, sha256);
    hide VisitAll, Signatures, HasV31;
    if OneGoodSignature(ps, expectedSize, expectedHash, sha256) {
      OneGoodIsOne(ps, expectedSize, expectedHash, sha256);
    }
  }
}
