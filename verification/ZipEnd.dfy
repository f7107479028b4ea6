/** The end of a zip archive: finding its end-of-central-directory record by scanning backwards
    over possible comment lengths (APPNOTE section 4.3.16). */
module ZipEnd {
  import opened Bytes

  const EOCD_SIZE: nat := 22
  const MAX_COMMENT: nat := 0xffff

  // 0x06054b50, little-endian.
  const EOCD_SIGNATURE: seq<byte> := [0x50, 0x4b, 0x05, 0x06]

  // -------- Reading a file --------

  // Reads into buf at pos, as far as the file goes; a read before its start fails.
  function ReadAt(file: seq<byte>, pos: int, buf: seq<byte>): (r: (seq<byte>, int))
    ensures |r.0| == |buf| && r.1 >= pos
    ensures 0 <= pos && pos + |buf| <= |file| ==> r == (file[pos..pos + |buf|], pos + |buf|)
  {
    if pos < 0 || pos > |file| then (buf, pos)
    else if pos + |buf| <= |file| then (file[pos..pos + |buf|], pos + |buf|)
    else (file[pos..] + buf[|file| - pos..], |file|)
  }

  method Read(file: seq<byte>, pos: int, buf: seq<byte>) returns (buf': seq<byte>, pos': int)
    ensures (buf', pos') == ReadAt(file, pos, buf)
  {
    buf', pos' := ReadAt(file, pos, buf).0, ReadAt(file, pos, buf).1;
  }

  // Seeking back from the end; before the start the result is -EINVAL.
  function SeekEnd(file: seq<byte>, back: nat): int {
    if back <= |file| then |file| - back else -22
  }

  function Word(file: seq<byte>, pos: nat, n: nat): nat
    requires pos + n <= |file|
  {
    FromLE(file[pos..pos + n])
  }

  // -------- The disguised signature --------

  function DiffBit(a: nat, b: nat): nat {
    if a % 2 == b % 2 then 0 else 1
  }

  function Xor(a: nat, b: nat, bits: nat): nat {
    if bits == 0 then 0 else DiffBit(a, b) + 2 * Xor(a / 2, b / 2, bits - 1)
  }

  function Pow2(k: nat): nat {
    if k == 0 then 1 else 2 * Pow2(k - 1)
  }

  lemma XorStep(a: nat, b: nat, bits: nat)
    requires bits > 0
    ensures Xor(a, b, bits) == DiffBit(a, b) + 2 * Xor(a / 2, b / 2, bits - 1)
  {
  }

  lemma DoublePlus(d: nat, x: nat)
    requires d < 2
    ensures (d + 2 * x) / 2 == x && (d + 2 * x) % 2 == d
  {
  }

  lemma {:induction false} XorInverse(a: nat, b: nat, bits: nat)
    requires a < Pow2(bits)
    ensures Xor(Xor(a, b, bits), b, bits) == a
  {
    if bits > 0 {
      var x := Xor(a, b, bits);
      XorStep(a, b, bits);
      XorStep(x, b, bits);
      assert Pow2(bits) == 2 * Pow2(bits - 1);
      hide Xor, Pow2;
      DoublePlus(DiffBit(a, b), Xor(a / 2, b / 2, bits - 1));
      XorInverse(a / 2, b / 2, bits - 1);
    }
  }

  // The word xor 0xcafebabe is 0xccfbf1ee, byte by byte from the lowest.
  predicate IsSignature(w: seq<byte>)
    requires |w| == 4
  {
    Xor(w[0], 0xbe, 8) == 0xee && Xor(w[1], 0xba, 8) == 0xf1 && Xor(w[2], 0xfe, 8) == 0xfb && Xor(w[3], 0xca, 8) == 0xcc
  }

  lemma XorByte(x: byte, key: byte, disguised: byte, plain: byte)
    requires Xor(plain, key, 8) == disguised
    ensures Xor(x, key, 8) == disguised <==> x == plain
  {
    assert Pow2(8) == 256;
    XorInverse(x, key, 8);
    XorInverse(plain, key, 8);
  }

  lemma Halves(a: nat)
    ensures a / 2 / 2 == a / 4 && a / 4 / 2 == a / 8 && a / 8 / 2 == a / 16
  {
  }

  lemma XorNibble(a: nat, b: nat, bits: nat)
    requires bits >= 4
    ensures Xor(a / 16, b / 16, 0) == 0
    ensures Xor(a, b, bits) == DiffBit(a, b) + 2 * DiffBit(a / 2, b / 2) + 4 * DiffBit(a / 4, b / 4) + 8 * DiffBit(a / 8, b / 8)
                               + 16 * Xor(a / 16, b / 16, bits - 4)
  {
    assert Xor(a / 16, b / 16, 0) == 0;
    hide Xor, DiffBit;
    Halves(a);
    Halves(b);
    XorStep(a, b, bits);
    XorStep(a / 2, b / 2, bits - 1);
    XorStep(a / 4, b / 4, bits - 2);
    XorStep(a / 8, b / 8, bits - 3);
  }

  lemma XorBytes()
    ensures Xor(0x50, 0xbe, 8) == 0xee && Xor(0x4b, 0xba, 8) == 0xf1
    ensures Xor(0x05, 0xfe, 8) == 0xfb && Xor(0x06, 0xca, 8) == 0xcc
  {
    hide Xor;
    XorNibble(0x50, 0xbe, 8);
    XorNibble(0x5, 0xb, 4);
    XorNibble(0x4b, 0xba, 8);
    XorNibble(0x4, 0xb, 4);
    XorNibble(0x05, 0xfe, 8);
    XorNibble(0x0, 0xf, 4);
    XorNibble(0x06, 0xca, 8);
    XorNibble(0x0, 0xc, 4);
  }

  lemma SignatureMeaning(w: seq<byte>)
    requires |w| == 4
    ensures IsSignature(w) <==> w == EOCD_SIGNATURE
  {
    hide Xor;
    XorBytes();
    XorByte(w[0], 0xbe, 0xee, 0x50);
    XorByte(w[1], 0xba, 0xf1, 0x4b);
    XorByte(w[2], 0xfe, 0xfb, 0x05);
    XorByte(w[3], 0xca, 0xcc, 0x06);
  }

  // -------- The scan --------

  // A record whose comment has length i could end the file.
  predicate MatchAt(file: seq<byte>, i: nat) {
    && i <= MAX_COMMENT && i + EOCD_SIZE <= |file|
    && Word(file, |file| - i - 2, 2) == i
    && file[|file| - i - EOCD_SIZE..|file| - i - EOCD_SIZE + 4] == EOCD_SIGNATURE
  }

  predicate FirstMatch(file: seq<byte>, i: nat) {
    MatchAt(file, i) && forall j | 0 <= j < i :: !MatchAt(file, j)
  }

  // One turn of the scan: whether a comment of length i could end the file.
  method TryLength(file: seq<byte>, i: nat) returns (hit: bool, pos: int)
    requires i <= MAX_COMMENT
    ensures i + 2 <= |file| && Word(file, |file| - i - 2, 2) != i ==> !hit
    ensures i + EOCD_SIZE <= |file| ==> (hit <==> MatchAt(file, i)) && (hit ==> pos == |file| - i - EOCD_SIZE + 4)
  {
    hide FromLE, IsSignature;
    var n: seq<byte> :| |n| == 2;
    pos := SeekEnd(file, i + 2);
    n, pos := Read(file, pos, n);
    hit := false;
    if FromLE(n) == i {
      pos := pos - 22;
      var size4: seq<byte> :| |size4| == 4;
      size4, pos := Read(file, pos, size4);
      SignatureMeaning(size4);
      hit := IsSignature(size4);
    }
  }

  // Finds the least comment length that matches and stops after the record's signature. A file
  // without a match must be large enough for every seek.
  method FindEocd(file: seq<byte>) returns (found: bool, pos: int)
    ensures forall i: nat | FirstMatch(file, i) :: found && pos == |file| - i - EOCD_SIZE + 4
    ensures |file| >= MAX_COMMENT + EOCD_SIZE && (forall i: nat :: !MatchAt(file, i)) ==> !found
  {
    var i := 0;
    while true
      invariant 0 <= i <= MAX_COMMENT
      invariant forall j | 0 <= j < i && j + EOCD_SIZE <= |file| :: !MatchAt(file, j)
      decreases MAX_COMMENT - i
    {
      found, pos := TryLength(file, i);
      if found {
        return;
      }
      if i == MAX_COMMENT {
        return;
      }
      hide Word;
      i := i + 1;
    }
  }
}
