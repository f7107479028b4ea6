/** Signers, ids and texts of the signature check as bytes, and what makes a signing block
    acceptable in these terms. */
module SignerBytes {
  import opened Bytes
  import opened SigningBlock
  import opened ApkSign

  function CharByte(c: char): byte {
    c as int % 256
  }

  function Ascii(s: string): seq<byte> {
    seq(|s|, i requires 0 <= i < |s| => CharByte(s[i]))
  }

  // A signer: three lengths, the digests with theirs, the length of all certificates, the first
  // certificate with its own, and the rest.
  ghost predicate IsSigner(value: seq<byte>, lengths: seq<byte>, digests: seq<byte>, all: seq<byte>, cert: seq<byte>, rest: seq<byte>) {
    && |lengths| == 12 && |all| == 4 && |digests| < 0x1_0000_0000 && |cert| < 0x1_0000_0000
    && value == lengths + (ToLE(|digests|, 4) + (digests + (all + (ToLE(|cert|, 4) + (cert + rest)))))
  }

  // The first certificate has the expected size and hash, and is not above 4096 bytes.
  ghost predicate HasExpectedCert(value: seq<byte>, expectedSize: nat, expectedHash: string, sha256: Digest) {
    exists lengths, digests, all, cert, rest ::
      IsSigner(value, lengths, digests, all, cert, rest) && |cert| == expectedSize <= 4096 && sha256(cert) == expectedHash
  }

  lemma SignerFields(value: seq<byte>, lengths: seq<byte>, digests: seq<byte>, all: seq<byte>, cert: seq<byte>, rest: seq<byte>)
    requires IsSigner(value, lengths, digests, all, cert, rest)
    ensures var d := |digests|;
            && At(value, 12, ToLE(d, 4)) && At(value, 20 + d, ToLE(|cert|, 4)) && At(value, 24 + d, cert)
  {
    var d, n := ToLE(|digests|, 4), ToLE(|cert|, 4);
    assert At(value, 0, lengths + (d + (digests + (all + (n + (cert + rest))))));
    hide ToLE, At, IsSigner;
    AtSplit(value, 0, lengths, d + (digests + (all + (n + (cert + rest)))));
    AtSplit(value, 12, d, digests + (all + (n + (cert + rest))));
    AtSplit(value, 16, digests, all + (n + (cert + rest)));
    AtSplit(value, 16 + |digests|, all, n + (cert + rest));
    AtSplit(value, 20 + |digests|, n, cert + rest);
    AtSplit(value, 24 + |digests|, cert, rest);
  }

  lemma SignerSplit(value: seq<byte>, d: nat, n: nat)
    requires 24 + d + n <= |value|
    ensures value == value[..12] + (value[12..16] + (value[16..16 + d] + (value[16 + d..20 + d] + (value[20 + d..24 + d]
                     + (value[24 + d..24 + d + n] + value[24 + d + n..])))))
  {
    assert value[24 + d..24 + d + n] + value[24 + d + n..] == value[24 + d..];
    assert value[20 + d..24 + d] + value[24 + d..] == value[20 + d..];
    assert value[16 + d..20 + d] + value[20 + d..] == value[16 + d..];
    assert value[16..16 + d] + value[16 + d..] == value[16..];
    assert value[12..16] + value[16..] == value[12..];
  }

  lemma {:induction false} FromToLE(bs: seq<byte>)
    ensures ToLE(FromLE(bs), |bs|) == bs
    decreases |bs|
  {
    if bs != [] {
      FromToLE(bs[1..]);
      assert FromLE(bs) % 256 == bs[0] && FromLE(bs) / 256 == FromLE(bs[1..]);
    }
  }

  lemma MatchIsSigner(value: seq<byte>, expectedSize: nat, expectedHash: string, sha256: Digest)
    requires CertMatches(value, expectedSize, expectedHash, sha256)
    ensures HasExpectedCert(value, expectedSize, expectedHash, sha256)
  {
    var d, n := DigestsLength(value), expectedSize;
    Widths();
    SignerSplit(value, d, n);
    FromToLE(value[12..16]);
    FromToLE(value[20 + d..24 + d]);
    hide ToLE, FromLE;
    assert IsSigner(value, value[..12], value[16..16 + d], value[16 + d..20 + d], value[24 + d..24 + d + n], value[24 + d + n..]);
  }

  lemma SignerIsMatch(value: seq<byte>, lengths: seq<byte>, digests: seq<byte>, all: seq<byte>, cert: seq<byte>, rest: seq<byte>,
                      expectedSize: nat, expectedHash: string, sha256: Digest)
    requires IsSigner(value, lengths, digests, all, cert, rest) && |cert| == expectedSize <= 4096 && sha256(cert) == expectedHash
    ensures CertMatches(value, expectedSize, expectedHash, sha256)
  {
    SignerFields(value, lengths, digests, all, cert, rest);
    Widths();
    RoundTripLE(|digests|, 4);
    RoundTripLE(|cert|, 4);
    hide ToLE, FromLE, IsSigner;
    assert value[12..16] == ToLE(|digests|, 4);
    assert DigestsLength(value) == |digests|;
  }

  // What a matching certificate is, in terms of the bytes of the value.
  lemma CertMatchesMeans(value: seq<byte>, expectedSize: nat, expectedHash: string, sha256: Digest)
    ensures CertMatches(value, expectedSize, expectedHash, sha256) <==> HasExpectedCert(value, expectedSize, expectedHash, sha256)
  {
    hide CertMatches, IsSigner;
    if CertMatches(value, expectedSize, expectedHash, sha256) {
      MatchIsSigner(value, expectedSize, expectedHash, sha256);
    }
    if lengths, digests, all, cert, rest :|
      IsSigner(value, lengths, digests, all, cert, rest) && |cert| == expectedSize <= 4096 && sha256(cert) == expectedHash {
      SignerIsMatch(value, lengths, digests, all, cert, rest, expectedSize, expectedHash, sha256);
    }
  }

  // Exactly one of the first ten pairs has one of the two ids, its certificate is the expected
  // one, and none of them has the third id.
  ghost predicate Accepted(ps: seq<Pair>, expectedSize: nat, expectedHash: string, sha256: Digest) {
    && (exists i :: 0 <= i < |ps| && i < 10 && (ps[i].id == 0x7109871a || ps[i].id == 0xf05368c0)
                    && HasExpectedCert(ps[i].value, expectedSize, expectedHash, sha256)
                    && forall j | 0 <= j < |ps| && j < 10 && j != i :: ps[j].id != 0x7109871a && ps[j].id != 0xf05368c0)
    && forall i | 0 <= i < |ps| && i < 10 :: ps[i].id != 0x1b93ad61
  }

  lemma AcceptedMeans(ps: seq<Pair>, expectedSize: nat, expectedHash: string, sha256: Digest)
    ensures Accepted(ps, expectedSize, expectedHash, sha256) <==>
            OneGoodSignature(Checked(ps), expectedSize, expectedHash, sha256) && !HasV31(Checked(ps))
  {
    hide CertMatches, HasExpectedCert;
    var checked := Checked(ps);
    assert |checked| == if |ps| < 10 then |ps| else 10;
    assert forall i | 0 <= i < |checked| :: checked[i] == ps[i];
    forall i | 0 <= i < |checked|
      ensures CertMatches(ps[i].value, expectedSize, expectedHash, sha256) <==> HasExpectedCert(ps[i].value, expectedSize, expectedHash, sha256)
    {
      CertMatchesMeans(ps[i].value, expectedSize, expectedHash, sha256);
    }
  }
}
