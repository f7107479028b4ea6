/** The signature check itself: it reads the file through a position that every step moves, and
    keeps a separate count of the bytes of a pair it has dealt with. */
module ApkSign {
  import opened Bytes
  import opened ZipEnd
  import opened SigningBlock

  // -------- Where things lie in the file --------

  ghost predicate At(file: seq<byte>, pos: int, bytes: seq<byte>) {
    0 <= pos && pos + |bytes| <= |file| && file[pos..pos + |bytes|] == bytes
  }

  lemma AtSplit(file: seq<byte>, pos: int, a: seq<byte>, b: seq<byte>)
    requires At(file, pos, a + b)
    ensures At(file, pos, a) && At(file, pos + |a|, b)
  {
    var ab := a + b;
    assert file[pos..pos + |a|] == file[pos..pos + |ab|][..|a|] == a;
    assert file[pos + |a|..pos + |ab|] == file[pos..pos + |ab|][|a|..] == b;
  }

  lemma Regroup(a: seq<byte>, b: seq<byte>, c: seq<byte>)
    ensures (a + b) + c == a + (b + c)
  {
  }

  lemma AtSlice(file: seq<byte>, pos: int, bytes: seq<byte>, from: nat, to: nat)
    requires At(file, pos, bytes) && from <= to <= |bytes|
    ensures pos + to <= |file| && file[pos + from..pos + to] == bytes[from..to]
  {
    assert forall i | 0 <= i < to - from ::
        file[pos + from..pos + to][i] == file[pos..pos + |bytes|][from + i] == bytes[from..to][i];
  }

  lemma ReadWord(file: seq<byte>, pos: int, n: nat, k: nat)
    requires At(file, pos, ToLE(n, k)) && n < Pow256(k)
    ensures pos + k <= |file| && FromLE(file[pos..pos + k]) == n
  {
    RoundTripLE(n, k);
  }

  function Unsigned32(x: nat): (r: nat)
    ensures r < TWO32 && (x < TWO32 ==> r == x)
  {
    x % TWO32
  }

  // Unsigned 64-bit sums land in a signed position.
  function Signed64(x: int): int {
    var y := x % TWO64;
    if y < TWO64 / 2 then y else y - TWO64
  }

  // A buffer before it is read into: anything.
  method StaleBuffer(n: nat) returns (buf: seq<byte>)
    ensures |buf| == n
  {
    ghost var zeros: seq<byte> := seq(n, _ => 0);
    assert |zeros| == n;
    buf :| |buf| == n;
  }

  method ReadBytes(file: seq<byte>, pos: int, n: nat) returns (buf: seq<byte>, pos': int)
    ensures |buf| == n && pos' >= pos
    ensures 0 <= pos && pos + n <= |file| ==> buf == file[pos..pos + n] && pos' == pos + n
  {
    buf := StaleBuffer(n);
    buf, pos' := Read(file, pos, buf);
  }

  method ReadLE(file: seq<byte>, pos: int, n: nat) returns (w: nat, pos': int)
    ensures 0 <= pos && pos + n <= |file| ==> w == FromLE(file[pos..pos + n]) && pos' == pos + n
    ensures w < Pow256(n)
  {
    var buf;
    buf, pos' := ReadBytes(file, pos, n);
    w := FromLE(buf);
  }

  // -------- One signature value --------

  // The words the check reads when value lies at pos.
  lemma SignerAt(file: seq<byte>, pos: int, value: seq<byte>, expectedSize: nat)
    requires At(file, pos, value) && HasCert(value, expectedSize)
    ensures var d, c := DigestsLength(value), CertLength(value);
            && 0 <= pos && 24 + d <= |value| && pos + |value| <= |file|
            && FromLE(file[pos + 12..pos + 16]) == d
            && FromLE(file[pos + 20 + d..pos + 24 + d]) == c
            && (c == expectedSize ==>
                  && 24 + d + c <= |value|
                  && file[pos + 24 + d..pos + 24 + d + c] == value[24 + d..24 + d + c])
  {
    var d, c := DigestsLength(value), CertLength(value);
    SliceOf(file, pos, value, 12, 16);
    SliceOf(file, pos, value, 20 + d, 24 + d);
    if c == expectedSize {
      SliceOf(file, pos, value, 24 + d, 24 + d + c);
    }
  }

  lemma CertAt(file: seq<byte>, pos: int, value: seq<byte>, expectedSize: nat, expectedHash: string, sha256: Digest)
    requires At(file, pos, value) && HasCert(value, expectedSize)
    ensures var d, c := DigestsLength(value), CertLength(value);
            && 0 <= pos && 24 + d <= |value| && pos + |value| <= |file|
            && (CertMatches(value, expectedSize, expectedHash, sha256) <==>
                c == expectedSize <= CERT_MAX_LENGTH && 24 + d + c <= |value| && sha256(file[pos + 24 + d..pos + 24 + d + c]) == expectedHash)
  {
    SignerAt(file, pos, value, expectedSize);
    hide At, DigestsLength, CertLength, HasSigner;
  }

  ghost predicate SignerReadable(file: seq<byte>, pos: int, offset: nat, value: seq<byte>, expectedSize: nat) {
    At(file, pos, value) && HasCert(value, expectedSize) && offset + |value| < TWO32
  }

  // The lengths before the certificate; size4 is that of the certificate.
  method ReadLengths(file: seq<byte>, pos: int, offset: nat, expectedSize: nat, ghost value: seq<byte>)
    returns (size4: nat, pos': int, offset': nat)
    ensures SignerReadable(file, pos, offset, value, expectedSize) ==>
              && size4 == CertLength(value)
              && offset' == offset + 24 + DigestsLength(value)
              && pos' == pos + 24 + DigestsLength(value)
    ensures offset' < TWO32
  {
    ghost var good := SignerReadable(file, pos, offset, value, expectedSize);
    if good { LengthsAt(file, pos, offset, value, expectedSize); }
    hide CertLength, SignerReadable, FromLE, Pow256, ReadAt, HasCert, Unsigned32;
    size4, pos' := ReadLE(file, pos, 4);
    size4, pos' := ReadLE(file, pos', 4);
    size4, pos' := ReadLE(file, pos', 4);
    offset' := Unsigned32(offset + 4 * 3);
    size4, pos' := ReadLE(file, pos', 4);
    assert good ==> size4 == DigestsLength(value);
    hide DigestsLength;
    pos' := pos' + size4;
    offset' := Unsigned32(offset' + 4 + size4);
    size4, pos' := ReadLE(file, pos', 4);
    size4, pos' := ReadLE(file, pos', 4);
    offset' := Unsigned32(offset' + 4 * 2);
  }

  lemma LengthsAt(file: seq<byte>, pos: int, offset: nat, value: seq<byte>, expectedSize: nat)
    requires SignerReadable(file, pos, offset, value, expectedSize)
    ensures HasCert(value, expectedSize)
    ensures var d := DigestsLength(value);
            && 0 <= pos && pos + 24 + d <= |file| && offset + 24 + d < TWO32
            && FromLE(file[pos + 12..pos + 16]) == d
            && FromLE(file[pos + 20 + d..pos + 24 + d]) == CertLength(value)
  {
    SignerAt(file, pos, value, expectedSize);
    hide At, FromLE;
  }

  // value is what lies at pos. Whichever way the check ends, the position has moved by as much
  // as the offset has grown, unless a certificate of the expected size exceeds the limit.
  method CheckBlock(file: seq<byte>, pos: int, offset: nat, expectedSize: nat, expectedHash: string, sha256: Digest,
                    ghost value: seq<byte>)
    returns (ok: bool, pos': int, offset': nat)
    ensures SignerReadable(file, pos, offset, value, expectedSize) ==>
              && (ok <==> CertMatches(value, expectedSize, expectedHash, sha256))
              && offset <= offset' <= offset + |value|
              && (pos' - pos == offset' - offset <==> CertLength(value) != expectedSize || expectedSize <= CERT_MAX_LENGTH)
    ensures ok ==> expectedSize <= CERT_MAX_LENGTH
  {
    if SignerReadable(file, pos, offset, value, expectedSize) {
      SignerAt(file, pos, value, expectedSize);
      CertAt(file, pos, value, expectedSize, expectedHash, sha256);
    }
    hide At, DigestsLength, CertLength, FromLE, Pow256, CertMatches, HasCert, ReadAt, Unsigned32;
    var size4;
    size4, pos', offset' := ReadLengths(file, pos, offset, expectedSize, value);
    ok := false;
    if size4 == expectedSize {
      offset' := Unsigned32(offset' + size4);
      if size4 > CERT_MAX_LENGTH {
        return;
      }
      var cert;
      cert, pos' := ReadBytes(file, pos', size4);
      ok := sha256(cert) == expectedHash;
    }
  }

  lemma SliceOf(file: seq<byte>, pos: int, bytes: seq<byte>, from: nat, to: nat)
    requires At(file, pos, bytes) && from <= to <= |bytes|
    ensures 0 <= pos && pos + |bytes| <= |file| && file[pos + from..pos + to] == bytes[from..to]
  {
    AtSlice(file, pos, bytes, from, to);
  }

  // -------- The pairs --------

  lemma PairsHead(ps: seq<Pair>, tail: seq<byte>)
    requires ps != []
    ensures EncodePairs(ps) + tail ==
            ToLE(4 + |ps[0].value|, 8) + (ToLE(ps[0].id, 4) + (ps[0].value + (EncodePairs(ps[1..]) + tail)))
  {
    var size, id, value, rest := ToLE(4 + |ps[0].value|, 8), ToLE(ps[0].id, 4), ps[0].value, EncodePairs(ps[1..]);
    assert EncodePairs(ps) == (size + id + value) + rest;
    hide EncodePairs, ToLE;
    Regroup(size + id + value, rest, tail);
    Regroup(size + id, value, rest + tail);
    Regroup(size, id, value + (rest + tail));
  }

  lemma AtParts(file: seq<byte>, pos: int, a: seq<byte>, b: seq<byte>, c: seq<byte>, rest: seq<byte>)
    requires At(file, pos, a + (b + (c + rest)))
    ensures At(file, pos, a) && At(file, pos + |a|, b) && At(file, pos + |a| + |b|, c) && At(file, pos + |a| + |b| + |c|, rest)
  {
    hide At;
    AtSplit(file, pos, a, b + (c + rest));
    AtSplit(file, pos + |a|, b, c + rest);
    AtSplit(file, pos + |a| + |b|, c, rest);
  }

  lemma PairParts(file: seq<byte>, pos: int, ps: seq<Pair>, tail: seq<byte>)
    requires ps != [] && At(file, pos, EncodePairs(ps) + tail)
    ensures At(file, pos, ToLE(4 + |ps[0].value|, 8)) && At(file, pos + 8, ToLE(ps[0].id, 4)) && At(file, pos + 12, ps[0].value)
    ensures At(file, pos + 12 + |ps[0].value|, EncodePairs(ps[1..]) + tail)
  {
    PairsHead(ps, tail);
    hide At, EncodePairs, ToLE;
    AtParts(file, pos, ToLE(4 + |ps[0].value|, 8), ToLE(ps[0].id, 4), ps[0].value, EncodePairs(ps[1..]) + tail);
  }

  lemma PairAt(file: seq<byte>, pos: int, ps: seq<Pair>, tail: seq<byte>, expectedSize: nat)
    requires ps != [] && At(file, pos, EncodePairs(ps) + tail) && PairOk(ps[0], expectedSize)
    ensures At(file, pos, ToLE(4 + |ps[0].value|, 8)) && At(file, pos + 8, ToLE(ps[0].id, 4)) && At(file, pos + 12, ps[0].value)
    ensures At(file, pos + 12 + |ps[0].value|, EncodePairs(ps[1..]) + tail)
    ensures 0 <= pos && pos + 8 <= |file| && FromLE(file[pos..pos + 8]) == 4 + |ps[0].value|
  {
    hide EncodePairs, HasCert;
    PairParts(file, pos, ps, tail);
    Widths();
    ReadWord(file, pos, 4 + |ps[0].value|, 8);
  }

  lemma PairBelowSize(ps: seq<Pair>, i: nat)
    requires i < |ps|
    ensures 4 + |ps[i].value| < BlockSize(ps)
  {
    if i > 0 {
      PairBelowSize(ps[1..], i - 1);
      assert ps[1..][i - 1] == ps[i];
    }
  }

  lemma PairReadable(file: seq<byte>, pos: int, p: Pair, expectedSize: nat)
    requires At(file, pos, ToLE(p.id, 4)) && At(file, pos + 4, p.value) && PairOk(p, expectedSize) && |file| < TWO64 / 2
    ensures 0 <= pos && pos + 4 <= |file| && FromLE(file[pos..pos + 4]) == p.id
    ensures IsSchemeId(p) ==> SignerReadable(file, pos + 4, 4, p.value, expectedSize)
    ensures Signed64(pos + 4 + |p.value|) == pos + 4 + |p.value|
  {
    Widths();
    ReadWord(file, pos, p.id, 4);
    assert 0 <= pos + 4 + |p.value| <= |file|;
    hide HasCert;
  }

  // One pair whose length has been read.
  method VisitPair(file: seq<byte>, pos: int, size8: nat, expectedSize: nat, expectedHash: string, sha256: Digest,
                   t: Tally, ghost p: Pair)
    returns (t': Tally, pos': int)
    ensures At(file, pos, ToLE(p.id, 4)) && At(file, pos + 4, p.value) && PairOk(p, expectedSize)
            && size8 == 4 + |p.value| && expectedSize <= CERT_MAX_LENGTH && |file| < TWO64 / 2 ==>
              && t' == Visit(t, p, expectedSize, expectedHash, sha256)
              && pos' == pos + 4 + |p.value|
    ensures t'.valid ==> t.valid || expectedSize <= CERT_MAX_LENGTH
  {
    hide At, CertMatches, HasCert, PairOk, SignerReadable, Signed64, Pow256, FromLE, ToLE, ReadAt, CertLength;
    ghost var good := && At(file, pos, ToLE(p.id, 4)) && At(file, pos + 4, p.value) && PairOk(p, expectedSize)
                      && size8 == 4 + |p.value| && expectedSize <= CERT_MAX_LENGTH && |file| < TWO64 / 2;
    if good { PairReadable(file, pos, p, expectedSize); }
    var id;
    id, pos' := ReadLE(file, pos, 4);
    var offset := 4;
    t' := t;
    if id == V2_ID {
      t' := t'.(blocks := t'.blocks + 1);
      var ok;
      ok, pos', offset := CheckBlock(file, pos', offset, expectedSize, expectedHash, sha256, p.value);
      t' := t'.(valid := ok);
    } else if id == V3_ID {
      t' := t'.(blocks := t'.blocks + 1);
      if !t'.valid {
        var ok;
        ok, pos', offset := CheckBlock(file, pos', offset, expectedSize, expectedHash, sha256, p.value);
        t' := t'.(valid := ok);
      }
    } else if id == V31_ID {
      t' := t'.(v31 := true);
    }
    assert good ==> pos' + size8 - offset == pos + 4 + |p.value|;
    pos' := Signed64(pos' + size8 - offset);
  }

  // The pairs still ahead, each shorter than the whole block, and the trailing size.
  ghost predicate Ahead(file: seq<byte>, pos: int, ps: seq<Pair>, size: nat, expectedSize: nat) {
    && At(file, pos, EncodePairs(ps) + ToLE(size, 8)) && size < TWO64
    && forall p | p in ps :: PairOk(p, expectedSize) && 4 + |p.value| < size
  }

  lemma BlockAhead(file: seq<byte>, pos: int, ps: seq<Pair>, expectedSize: nat)
    requires At(file, pos, EncodePairs(ps) + ToLE(BlockSize(ps), 8)) && BlockSize(ps) < TWO64 && PairsOk(ps, expectedSize)
    ensures Ahead(file, pos, ps, BlockSize(ps), expectedSize)
  {
    hide At, EncodePairs, BlockSize, PairOk;
    forall p | p in ps
      ensures 4 + |p.value| < BlockSize(ps)
    {
      var i :| 0 <= i < |ps| && ps[i] == p;
      PairBelowSize(ps, i);
    }
  }

  lemma NextAhead(file: seq<byte>, pos: int, ps: seq<Pair>, size: nat, expectedSize: nat)
    requires ps != [] && Ahead(file, pos, ps, size, expectedSize)
    ensures 0 <= pos && pos + 8 <= |file| && FromLE(file[pos..pos + 8]) == 4 + |ps[0].value| != size
    ensures At(file, pos + 8, ToLE(ps[0].id, 4)) && At(file, pos + 12, ps[0].value) && PairOk(ps[0], expectedSize)
    ensures Ahead(file, pos + 12 + |ps[0].value|, ps[1..], size, expectedSize)
  {
    hide EncodePairs, At, PairOk, FromLE;
    assert ps[0] in ps && forall p | p in ps[1..] :: p in ps;
    PairAt(file, pos, ps, ToLE(size, 8), expectedSize);
  }

  lemma NoneAhead(file: seq<byte>, pos: int, size: nat, expectedSize: nat)
    requires Ahead(file, pos, [], size, expectedSize)
    ensures 0 <= pos && pos + 8 <= |file| && FromLE(file[pos..pos + 8]) == size
  {
    assert EncodePairs([]) + ToLE(size, 8) == ToLE(size, 8);
    Widths();
    hide PairOk, FromLE, ToLE;
    ReadWord(file, pos, size, 8);
  }

  lemma VisitFirst(t: Tally, ps: seq<Pair>, n: nat, expectedSize: nat, expectedHash: string, sha256: Digest)
    requires n > 0
    ensures VisitAll(t, First(ps, n), expectedSize, expectedHash, sha256) ==
            if ps == [] then t
            else VisitAll(Visit(t, ps[0], expectedSize, expectedHash, sha256), First(ps[1..], n - 1), expectedSize, expectedHash, sha256)
  {
    hide Visit;
    if ps != [] {
      assert First(ps, n)[0] == ps[0] && First(ps, n)[1..] == First(ps[1..], n - 1);
    }
  }

  // One turn of the loop: recognise the trailing size, or visit the next pair.
  method WalkOne(file: seq<byte>, pos: int, sizeOfBlock: nat, expectedSize: nat, expectedHash: string, sha256: Digest,
                 t: Tally, ghost ps: seq<Pair>)
    returns (done: bool, t': Tally, pos': int)
    ensures Ahead(file, pos, ps, sizeOfBlock, expectedSize) && expectedSize <= CERT_MAX_LENGTH && |file| < TWO64 / 2 ==>
              && (done <==> ps == [])
              && (done ==> t' == t)
              && (!done ==> t' == Visit(t, ps[0], expectedSize, expectedHash, sha256)
                            && Ahead(file, pos', ps[1..], sizeOfBlock, expectedSize))
    ensures t'.valid ==> t.valid || expectedSize <= CERT_MAX_LENGTH
  {
    hide Ahead, At, PairOk, Visit, FromLE, Pow256, ReadAt, ToLE;
    ghost var good := Ahead(file, pos, ps, sizeOfBlock, expectedSize) && expectedSize <= CERT_MAX_LENGTH && |file| < TWO64 / 2;
    if good {
      if ps == [] {
        NoneAhead(file, pos, sizeOfBlock, expectedSize);
      } else {
        NextAhead(file, pos, ps, sizeOfBlock, expectedSize);
      }
    }
    t' := t;
    var size8;
    size8, pos' := ReadLE(file, pos, 8);
    done := size8 == sizeOfBlock;
    if !done {
      t', pos' := VisitPair(file, pos', size8, expectedSize, expectedHash, sha256, t', if ps == [] then Pair(0, []) else ps[0]);
    }
  }

  // The loop over the pairs visits the first ten of them, in order, and recognises the trailing
  // size, for every well-formed block.
  method WalkPairs(file: seq<byte>, start: int, sizeOfBlock: nat, expectedSize: nat, expectedHash: string, sha256: Digest,
                   ghost ps: seq<Pair>)
    returns (t: Tally)
    ensures At(file, start, EncodePairs(ps) + ToLE(sizeOfBlock, 8)) && sizeOfBlock == BlockSize(ps) < TWO64
            && PairsOk(ps, expectedSize) && expectedSize <= CERT_MAX_LENGTH && |file| < TWO64 / 2 ==>
              t == VisitAll(Tally(0, false, false), Checked(ps), expectedSize, expectedHash, sha256)
    ensures t.valid ==> expectedSize <= CERT_MAX_LENGTH
  {
    ghost var good := && At(file, start, EncodePairs(ps) + ToLE(sizeOfBlock, 8)) && sizeOfBlock == BlockSize(ps) < TWO64
                      && PairsOk(ps, expectedSize) && expectedSize <= CERT_MAX_LENGTH && |file| < TWO64 / 2;
    ghost var goal := VisitAll(Tally(0, false, false), Checked(ps), expectedSize, expectedHash, sha256);
    if good { BlockAhead(file, start, ps, expectedSize); }
    hide At, Ahead, VisitAll, Visit, EncodePairs, PairOk, PairsOk, BlockSize;
    t := Tally(0, false, false);
    var pos, done, loopCount := start, false, 0;
    ghost var ahead := ps;
    while loopCount < MAX_PAIRS && !done
      invariant 0 <= loopCount <= MAX_PAIRS
      invariant good && !done ==>
          && Ahead(file, pos, ahead, sizeOfBlock, expectedSize)
          && VisitAll(t, First(ahead, MAX_PAIRS - loopCount), expectedSize, expectedHash, sha256) == goal
      invariant good && done ==> t == goal
      invariant t.valid ==> expectedSize <= CERT_MAX_LENGTH
      decreases MAX_PAIRS - loopCount, !done
    {
      VisitFirst(t, ahead, MAX_PAIRS - loopCount, expectedSize, expectedHash, sha256);
      done, t, pos := WalkOne(file, pos, sizeOfBlock, expectedSize, expectedHash, sha256, t, ahead);
      ahead := if ahead == [] then [] else ahead[1..];
      loopCount := loopCount + 1;
    }
    NoPairsLeft(t, ahead, expectedSize, expectedHash, sha256);
  }

  lemma NoPairsLeft(t: Tally, ps: seq<Pair>, expectedSize: nat, expectedHash: string, sha256: Digest)
    ensures VisitAll(t, First(ps, 0), expectedSize, expectedHash, sha256) == t
  {
    assert First(ps, 0) == [];
  }
}
