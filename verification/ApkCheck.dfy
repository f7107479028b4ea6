/** The whole signature check, and what it decides about a well-formed archive. */
module ApkCheck {
  import opened Bytes
  import opened ZipEnd
  import opened SigningBlock
  import opened ApkSign
  import opened SignerBytes
  import opened ZipEntries

  // Entries, anything up to the signing block, the block, the central directory, and the end
  // record whose counts are its fields between the signature and the directory's offset.
  datatype Archive = Archive(entries: seq<Entry>, gap: seq<byte>, pairs: seq<Pair>, directory: seq<byte>,
                             counts: seq<byte>, comment: seq<byte>)

  function Front(a: Archive): seq<byte> {
    EncodeEntries(a.entries) + a.gap
  }

  function DirectoryOffset(a: Archive): nat {
    |Front(a)| + |EncodeBlock(a.pairs)|
  }

  function EncodeEnd(a: Archive): seq<byte> {
    EOCD_SIGNATURE + a.counts + ToLE(DirectoryOffset(a), 4) + ToLE(|a.comment|, 2) + a.comment
  }

  function AfterFront(a: Archive): seq<byte> {
    EncodeBlock(a.pairs) + (a.directory + EncodeEnd(a))
  }

  function EncodeArchive(a: Archive): seq<byte> {
    Front(a) + AfterFront(a)
  }

  // No shorter comment length matches by accident.
  ghost predicate ArchiveOk(a: Archive, expectedSize: nat) {
    && EntriesOk(a.entries) && EntriesEnd(a.gap + AfterFront(a)) && PairsOk(a.pairs, expectedSize)
    && |a.counts| == 12 && |a.comment| < 0x1_0000
    && DirectoryOffset(a) < TWO32 && |EncodeArchive(a)| < TWO64 / 2
    && forall j | 0 <= j < |a.comment| :: !MatchAt(EncodeArchive(a), j)
  }

  // -------- Where things lie in an archive --------

  lemma EndSize(a: Archive)
    requires |a.counts| == 12
    ensures |EncodeEnd(a)| == EOCD_SIZE + |a.comment|
  {
  }

  // The scan's first match is the real end record.
  lemma EndRecordFound(a: Archive, expectedSize: nat)
    requires ArchiveOk(a, expectedSize)
    ensures FirstMatch(EncodeArchive(a), |a.comment|)
    ensures var file := EncodeArchive(a);
            var end := |file| - |a.comment| - EOCD_SIZE;
            0 <= end && end + EOCD_SIZE <= |file| && FromLE(file[end + 16..end + 20]) == DirectoryOffset(a)
  {
    var file, body := EncodeArchive(a), Front(a) + (EncodeBlock(a.pairs) + a.directory);
    EndSize(a);
    assert file == body + EncodeEnd(a);
    assert file[|body|..|body| + |EncodeEnd(a)|] == EncodeEnd(a);
    EndRecordFields(file, |body|, a);
    hide EncodeEnd, EncodeArchive, EncodeBlock, FromLE;
  }

  lemma EndRecordFields(file: seq<byte>, end: nat, a: Archive)
    requires At(file, end, EncodeEnd(a)) && end + |EncodeEnd(a)| == |file|
    requires |a.counts| == 12 && |a.comment| <= MAX_COMMENT && DirectoryOffset(a) < TWO32
    ensures end == |file| - |a.comment| - EOCD_SIZE
    ensures MatchAt(file, |a.comment|)
    ensures FromLE(file[end + 16..end + 20]) == DirectoryOffset(a)
  {
    EndSize(a);
    Widths();
    RoundTripLE(|a.comment|, 2);
    RoundTripLE(DirectoryOffset(a), 4);
    EndSlices(a);
    hide EncodeEnd, DirectoryOffset, ToLE, FromLE, Pow256;
    AtSlice(file, end, EncodeEnd(a), 0, 4);
    AtSlice(file, end, EncodeEnd(a), 16, 20);
    AtSlice(file, end, EncodeEnd(a), 20, 22);
  }

  lemma EndSlices(a: Archive)
    requires |a.counts| == 12
    ensures |EncodeEnd(a)| >= 22
    ensures EncodeEnd(a)[0..4] == EOCD_SIGNATURE
    ensures EncodeEnd(a)[16..20] == ToLE(DirectoryOffset(a), 4)
    ensures EncodeEnd(a)[20..22] == ToLE(|a.comment|, 2)
  {
  }

  lemma BlockRegrouped(head: seq<byte>, pairs: seq<byte>, rest: seq<byte>)
    ensures (head + pairs + head + BLOCK_MAGIC) + rest == head + ((pairs + head) + (BLOCK_MAGIC + rest))
  {
    Regroup(head + pairs + head, BLOCK_MAGIC, rest);
    Regroup(head + pairs, head, BLOCK_MAGIC + rest);
    Regroup(head, pairs, head + (BLOCK_MAGIC + rest));
    Regroup(pairs, head, BLOCK_MAGIC + rest);
  }

  lemma BlockAt(a: Archive)
    ensures var file, cd, size := EncodeArchive(a), DirectoryOffset(a), BlockSize(a.pairs);
            && size + 8 <= cd <= |file|
            && At(file, cd - size - 8, ToLE(size, 8))
            && At(file, cd - size, EncodePairs(a.pairs) + ToLE(size, 8))
            && At(file, cd - 24, ToLE(size, 8))
            && At(file, cd - 16, BLOCK_MAGIC)
  {
    var file, front, size := EncodeArchive(a), |Front(a)|, BlockSize(a.pairs);
    var rest := a.directory + EncodeEnd(a);
    var head, pairs := ToLE(size, 8), EncodePairs(a.pairs);
    assert At(file, 0, Front(a) + AfterFront(a));
    BlockRegrouped(head, pairs, rest);
    assert AfterFront(a) == head + ((pairs + head) + (BLOCK_MAGIC + rest)) && |EncodeBlock(a.pairs)| == |pairs| + 32;
    hide At, EncodeEnd, EncodePairs, ToLE, AfterFront, Front, EncodeBlock, EncodeArchive;
    AtSplit(file, 0, Front(a), AfterFront(a));
    AtSplit(file, front, head, (pairs + head) + (BLOCK_MAGIC + rest));
    AtSplit(file, front + 8, pairs + head, BLOCK_MAGIC + rest);
    AtSplit(file, front + 8, pairs, head);
    AtSplit(file, front + 16 + |pairs|, BLOCK_MAGIC, rest);
  }

  // What the check reads in a well-formed archive.
  lemma ArchiveRead(a: Archive, expectedSize: nat)
    requires ArchiveOk(a, expectedSize)
    ensures var file, cd, size := EncodeArchive(a), DirectoryOffset(a), BlockSize(a.pairs);
            && size + 8 <= cd <= |file| && cd < TWO32 && |file| < TWO64 / 2
            && FromLE(file[cd - 24..cd - 16]) == size && file[cd - 16..cd] == BLOCK_MAGIC
            && FromLE(file[cd - size - 8..cd - size]) == size
            && At(file, cd - size, EncodePairs(a.pairs) + ToLE(size, 8))
  {
    var file, cd, size := EncodeArchive(a), DirectoryOffset(a), BlockSize(a.pairs);
    BlockAt(a);
    Widths();
    hide EncodeArchive, DirectoryOffset, BlockSize, EncodePairs, EntriesOk, PairsOk, EntriesEnd, AfterFront;
    ReadWord(file, cd - size - 8, size, 8);
    ReadWord(file, cd - 24, size, 8);
    AtSlice(file, cd - 16, BLOCK_MAGIC, 0, 16);
  }

  lemma ArchiveEntries(a: Archive, expectedSize: nat)
    requires ArchiveOk(a, expectedSize)
    ensures EncodeArchive(a) == EncodeEntries(a.entries) + (a.gap + AfterFront(a))
    ensures EntriesOk(a.entries) && EntriesEnd(a.gap + AfterFront(a)) && PairsOk(a.pairs, expectedSize)
  {
    hide EncodeEntries, AfterFront, EntriesEnd;
  }

  // -------- The check --------

  // No certificate of more than the limit is accepted.
  lemma OversizedNeverMatches(ps: seq<Pair>, expectedSize: nat, expectedHash: string, sha256: Digest)
    ensures OneGoodSignature(ps, expectedSize, expectedHash, sha256) ==> expectedSize <= CERT_MAX_LENGTH
  {
  }

  // a is the archive the file holds, when it holds a well-formed one.
  method CheckV2Signature(file: seq<byte>, expectedSize: nat, expectedHash: string, sha256: Digest, ghost a: Archive)
    returns (ok: bool)
    ensures file == EncodeArchive(a) && ArchiveOk(a, expectedSize) ==>
              (ok <==> && OneGoodSignature(Checked(a.pairs), expectedSize, expectedHash, sha256)
                       && !HasV31(Checked(a.pairs))
                       && !HasManifest(a.entries))
    ensures |file| >= MAX_COMMENT + EOCD_SIZE && (forall j: nat :: !MatchAt(file, j)) ==> !ok
    ensures (exists i: nat, cd: nat, size: nat :: BlockRange(file, i, cd, size) && !IsBlock(file, cd, size)) ==> !ok
  {
    ghost var good := file == EncodeArchive(a) && ArchiveOk(a, expectedSize);
    OversizedNeverMatches(Checked(a.pairs), expectedSize, expectedHash, sha256);
    hide ArchiveOk, OneGoodSignature, HasV31, HasManifest, EncodeArchive, Checked;
    ok := false;
    ghost var i: nat, cd: nat, size: nat := |a.comment|, DirectoryOffset(a), BlockSize(a.pairs);
    if good {
      ArchiveLayout(a, expectedSize);
      ArchiveRead(a, expectedSize);
      OneBlockRange(file, i, cd, size);
    } else if j: nat, c: nat, s: nat :| BlockRange(file, j, c, s) && !IsBlock(file, c, s) {
      i, cd, size := j, c, s;
    }
    var found, pos, sizeOfBlock := FindBlock(file, i, cd, size);
    if !found {
      return;
    }
    hide BlockLayout, BlockRange, IsBlock, DirectoryOffset, MatchAt;
    var t := WalkPairs(file, pos, sizeOfBlock, expectedSize, expectedHash, sha256, a.pairs);
    var valid := t.valid;
    if t.blocks != 1 {
      valid := false;
    }
    if good { ArchiveEntries(a, expectedSize); }
    if valid {
      var v1 := HasV1SignatureFile(file, a.entries, a.gap + AfterFront(a));
      if v1 {
        return;
      }
    }
    TallyMeaning(Checked(a.pairs), expectedSize, expectedHash, sha256);
    ok := valid && !t.v31;
  }

  // The end record has a comment of length i and points to cd, in front of which a block's size
  // is read; both lie inside the file.
  ghost predicate BlockRange(file: seq<byte>, i: nat, cd: nat, size: nat) {
    && FirstMatch(file, i) && i + EOCD_SIZE <= |file|
    && (var end := |file| - i - EOCD_SIZE; FromLE(file[end + 16..end + 20]) == cd)
    && 24 <= cd <= |file| && cd < TWO32 && size + 8 <= cd
    && FromLE(file[cd - 24..cd - 16]) == size
  }

  // The magic is there, and the size is repeated in front of the block.
  ghost predicate IsBlock(file: seq<byte>, cd: nat, size: nat)
    requires 24 <= cd <= |file| && size + 8 <= cd
  {
    file[cd - 16..cd] == Ascii("APK Sig Block 42") && FromLE(file[cd - size - 8..cd - size]) == size
  }

  ghost predicate BlockLayout(file: seq<byte>, i: nat, cd: nat, size: nat) {
    BlockRange(file, i, cd, size) && IsBlock(file, cd, size)
  }

  lemma OneBlockRange(file: seq<byte>, i: nat, cd: nat, size: nat)
    requires BlockRange(file, i, cd, size)
    ensures forall j: nat, c: nat, s: nat | BlockRange(file, j, c, s) :: j == i && c == cd && s == size
  {
    forall j: nat, c: nat, s: nat | BlockRange(file, j, c, s)
      ensures j == i && c == cd && s == size
    {
      OneFirstMatch(file, i, j);
      hide FirstMatch, FromLE;
    }
  }

  lemma OneFirstMatch(file: seq<byte>, i: nat, j: nat)
    requires FirstMatch(file, i) && FirstMatch(file, j)
    ensures i == j
  {
    hide MatchAt;
  }

  lemma ArchiveLayout(a: Archive, expectedSize: nat)
    requires ArchiveOk(a, expectedSize)
    ensures BlockLayout(EncodeArchive(a), |a.comment|, DirectoryOffset(a), BlockSize(a.pairs))
  {
    assert BlockSize(a.pairs) >= 24;
    MagicText();
    ArchiveRead(a, expectedSize);
    EndRecordFound(a, expectedSize);
    hide MatchAt, Ascii, BLOCK_MAGIC, ArchiveOk, At, BlockSize, DirectoryOffset, EncodeArchive, FirstMatch, FromLE;
  }

  lemma MagicText()
    ensures BLOCK_MAGIC == Ascii("APK Sig Block 42")
  {
  }

  lemma SmallPositions(cd: nat, size: nat)
    ensures 24 <= cd < TWO32 ==> (cd - 0x18) % TWO32 == cd - 0x18
    ensures size + 8 <= cd < TWO32 ==> Signed64(cd - (size + 8)) == cd - size - 8
  {
  }

  // From the end record to the first pair, with both size fields and the magic checked.
  method FindBlock(file: seq<byte>, ghost i: nat, ghost cd: nat, ghost size: nat)
    returns (found: bool, pos: int, sizeOfBlock: nat)
    ensures |file| >= MAX_COMMENT + EOCD_SIZE && (forall j: nat :: !MatchAt(file, j)) ==> !found
    ensures BlockRange(file, i, cd, size) ==> (found <==> IsBlock(file, cd, size))
    ensures BlockRange(file, i, cd, size) && found ==> sizeOfBlock == size && pos == cd - size
  {
    MagicText();
    hide FirstMatch, FromLE, Pow256, ReadAt, SeekEnd, Ascii, BLOCK_MAGIC;
    ghost var good := BlockRange(file, i, cd, size);
    sizeOfBlock := 0;
    found, pos := FindEocd(file);
    if !found {
      return;
    }
    pos := pos + 12;
    var size4;
    size4, pos := ReadLE(file, pos, 4);
    assert good ==> size4 == cd;
    SmallPositions(size4, size);
    hide Signed64, MatchAt;
    pos := (size4 - 0x18) % TWO32;
    var size8, buffer;
    size8, pos := ReadLE(file, pos, 8);
    buffer, pos := ReadBytes(file, pos, 0x10);
    if buffer != BLOCK_MAGIC {
      found := false;
      return;
    }
    assert good ==> size8 == size;
    pos := Signed64(size4 - (size8 + 8));
    sizeOfBlock, pos := ReadLE(file, pos, 8);
    found := sizeOfBlock == size8;
  }

  // -------- The verdict in terms of the bytes --------

  // One good signer, no id of scheme v3.1, no manifest.
  ghost predicate Acceptable(a: Archive, expectedSize: nat, expectedHash: string, sha256: Digest) {
    && Accepted(a.pairs, expectedSize, expectedHash, sha256)
    && forall e | e in a.entries :: e.name != Ascii("META-INF/MANIFEST.MF")
  }

  // What the check accepts.
  lemma AcceptableMeans(a: Archive, expectedSize: nat, expectedHash: string, sha256: Digest)
    ensures Acceptable(a, expectedSize, expectedHash, sha256) <==>
            && OneGoodSignature(Checked(a.pairs), expectedSize, expectedHash, sha256)
            && !HasV31(Checked(a.pairs)) && !HasManifest(a.entries)
  {
    AcceptedMeans(a.pairs, expectedSize, expectedHash, sha256);
    ManifestMeans(a.entries);
    hide Accepted, OneGoodSignature, HasV31, HasManifest, Ascii, Checked;
  }
}
