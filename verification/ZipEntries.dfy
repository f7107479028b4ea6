/** Zip local file entries (APPNOTE section 4.3.7) and the walk over them that looks for a
    v1 signature's manifest. */
module ZipEntries {
  import opened Bytes
  import opened ZipEnd
  import opened SigningBlock
  import opened ApkSign
  import opened SignerBytes

  const HEADER_SIZE: nat := 30

  // 0x04034b50, little-endian.
  const LOCAL_SIGNATURE: seq<byte> := [0x50, 0x4b, 0x03, 0x04]

  // "META-INF/MANIFEST.MF"
  const MANIFEST: seq<byte> :=
    [0x4d, 0x45, 0x54, 0x41, 0x2d, 0x49, 0x4e, 0x46, 0x2f, 0x4d, 0x41, 0x4e, 0x49, 0x46, 0x45, 0x53, 0x54, 0x2e, 0x4d, 0x46]

  // middle are the 14 header bytes from the version to the checksum.
  datatype Entry = Entry(middle: seq<byte>, uncompressedSize: nat, name: seq<byte>, extra: seq<byte>, data: seq<byte>)

  predicate EntryOk(e: Entry) {
    && |e.middle| == 14 && e.uncompressedSize < TWO32
    && |e.name| < 0x1_0000 && |e.extra| < 0x1_0000 && |e.extra| + |e.data| < TWO32
  }

  function EncodeHeader(e: Entry): seq<byte> {
    LOCAL_SIGNATURE + e.middle + ToLE(|e.data|, 4) + ToLE(e.uncompressedSize, 4) + ToLE(|e.name|, 2) + ToLE(|e.extra|, 2)
  }

  function EncodeEntry(e: Entry): seq<byte> {
    EncodeHeader(e) + (e.name + (e.extra + e.data))
  }

  function EncodeEntries(es: seq<Entry>): seq<byte> {
    if es == [] then [] else EncodeEntry(es[0]) + EncodeEntries(es[1..])
  }

  ghost predicate EntriesOk(es: seq<Entry>) {
    forall e | e in es :: EntryOk(e)
  }

  // The bytes after the last entry do not look like another one.
  predicate EntriesEnd(rest: seq<byte>) {
    |rest| < HEADER_SIZE || rest[..4] != LOCAL_SIGNATURE
  }

  predicate HasManifest(es: seq<Entry>) {
    exists e :: e in es && e.name == MANIFEST
  }

  lemma ManifestText()
    ensures MANIFEST == Ascii("META-INF/MANIFEST.MF")
  {
  }

  lemma ManifestMeans(es: seq<Entry>)
    ensures HasManifest(es) <==> exists e :: e in es && e.name == Ascii("META-INF/MANIFEST.MF")
  {
    ManifestText();
    hide Ascii, MANIFEST;
  }

  lemma HeaderFields(e: Entry)
    requires EntryOk(e)
    ensures var h := EncodeHeader(e);
            && |h| == 30 && h[..4] == [0x50, 0x4b, 0x03, 0x04]
            && FromLE(h[18..22]) == |e.data| && FromLE(h[26..28]) == |e.name| && FromLE(h[28..30]) == |e.extra|
  {
    var h := EncodeHeader(e);
    Widths();
    RoundTripLE(|e.data|, 4);
    RoundTripLE(|e.name|, 2);
    RoundTripLE(|e.extra|, 2);
    hide ToLE, FromLE, Pow256;
    assert h[18..22] == ToLE(|e.data|, 4);
    assert h[26..28] == ToLE(|e.name|, 2);
    assert h[28..30] == ToLE(|e.extra|, 2);
  }

  lemma EntriesHead(es: seq<Entry>, rest: seq<byte>)
    requires es != []
    ensures var tail := EncodeEntries(es[1..]) + rest;
            && EncodeEntries(es) + rest == EncodeEntry(es[0]) + tail
            && EncodeEntry(es[0]) + tail == EncodeHeader(es[0]) + (es[0].name + ((es[0].extra + es[0].data) + tail))
  {
    var e, tail, rests := es[0], EncodeEntries(es[1..]) + rest, EncodeEntries(es[1..]);
    assert EncodeEntries(es) == EncodeEntry(e) + rests;
    assert EncodeEntry(e) == EncodeHeader(e) + (e.name + (e.extra + e.data));
    hide EncodeHeader, EncodeEntries, EncodeEntry;
    Regroup(EncodeEntry(e), rests, rest);
    Regroup(EncodeHeader(e), e.name + (e.extra + e.data), tail);
    Regroup(e.name, e.extra + e.data, tail);
  }

  lemma EntryAt(file: seq<byte>, pos: int, es: seq<Entry>, rest: seq<byte>)
    requires es != [] && At(file, pos, EncodeEntries(es) + rest)
    ensures At(file, pos, EncodeHeader(es[0]))
    ensures At(file, pos + |EncodeHeader(es[0])|, es[0].name)
    ensures At(file, pos + |EncodeEntry(es[0])|, EncodeEntries(es[1..]) + rest)
  {
    var e := es[0];
    var tail := EncodeEntries(es[1..]) + rest;
    hide At, EncodeEntries, EncodeHeader, EncodeEntry;
    EntriesHead(es, rest);
    AtSplit(file, pos, EncodeEntry(e), tail);
    AtSplit(file, pos, EncodeHeader(e), e.name + ((e.extra + e.data) + tail));
    AtSplit(file, pos + |EncodeHeader(e)|, e.name, (e.extra + e.data) + tail);
  }

  ghost predicate EntriesAt(file: seq<byte>, pos: int, es: seq<Entry>, rest: seq<byte>) {
    At(file, pos, EncodeEntries(es) + rest) && pos + |EncodeEntries(es) + rest| == |file|
  }

  lemma HeaderAt(file: seq<byte>, pos: int, e: Entry)
    requires At(file, pos, EncodeHeader(e)) && EntryOk(e)
    ensures 0 <= pos && pos + HEADER_SIZE <= |file|
    ensures file[pos..pos + 4] == LOCAL_SIGNATURE
    ensures FromLE(file[pos + 18..pos + 22]) == |e.data|
    ensures FromLE(file[pos + 26..pos + 28]) == |e.name| && FromLE(file[pos + 28..pos + 30]) == |e.extra|
  {
    HeaderFields(e);
    hide EncodeHeader, FromLE;
    AtSlice(file, pos, EncodeHeader(e), 0, 4);
    AtSlice(file, pos, EncodeHeader(e), 18, 22);
    AtSlice(file, pos, EncodeHeader(e), 26, 28);
    AtSlice(file, pos, EncodeHeader(e), 28, 30);
  }

  lemma EntrySize(e: Entry)
    requires EntryOk(e)
    ensures |EncodeHeader(e)| == HEADER_SIZE
    ensures |EncodeEntry(e)| == HEADER_SIZE + |e.name| + |e.extra| + |e.data|
  {
    HeaderFields(e);
    hide EncodeHeader;
  }

  // What the walk reads at the start of the next entry.
  lemma EntryRead(file: seq<byte>, pos: int, es: seq<Entry>, rest: seq<byte>)
    requires es != [] && EntriesAt(file, pos, es, rest) && EntryOk(es[0])
    ensures var e := es[0];
            && 0 <= pos && pos + HEADER_SIZE + |e.name| <= |file|
            && file[pos..pos + 4] == LOCAL_SIGNATURE
            && FromLE(file[pos + 18..pos + 22]) == |e.data|
            && FromLE(file[pos + 26..pos + 28]) == |e.name| && FromLE(file[pos + 28..pos + 30]) == |e.extra|
            && file[pos + HEADER_SIZE..pos + HEADER_SIZE + |e.name|] == e.name
            && EntriesAt(file, pos + HEADER_SIZE + |e.name| + |e.extra| + |e.data|, es[1..], rest)
  {
    EntryAt(file, pos, es, rest);
    hide EncodeHeader, EncodeEntries, EncodeEntry, FromLE;
    EntriesHead(es, rest);
    EntrySize(es[0]);
    HeaderAt(file, pos, es[0]);
  }

  lemma RestRead(file: seq<byte>, pos: int, rest: seq<byte>)
    requires EntriesAt(file, pos, [], rest) && EntriesEnd(rest) && pos + HEADER_SIZE <= |file|
    ensures file[pos..pos + 4] != LOCAL_SIGNATURE
  {
    assert EncodeEntries([]) + rest == rest;
    AtSlice(file, pos, rest, 0, 4);
  }

  ghost predicate Walkable(file: seq<byte>, pos: int, es: seq<Entry>, rest: seq<byte>) {
    EntriesAt(file, pos, es, rest) && EntriesOk(es) && EntriesEnd(rest)
  }

  lemma StepRead(file: seq<byte>, pos: int, es: seq<Entry>, rest: seq<byte>)
    requires Walkable(file, pos, es, rest)
    ensures es == [] && pos + HEADER_SIZE <= |file| ==> 0 <= pos && file[pos..pos + 4] != LOCAL_SIGNATURE
    ensures es != [] ==>
              var e := es[0];
              && 0 <= pos && pos + HEADER_SIZE + |e.name| <= |file|
              && file[pos..pos + 4] == LOCAL_SIGNATURE
              && FromLE(file[pos + 18..pos + 22]) == |e.data|
              && FromLE(file[pos + 26..pos + 28]) == |e.name| && FromLE(file[pos + 28..pos + 30]) == |e.extra|
              && file[pos + HEADER_SIZE..pos + HEADER_SIZE + |e.name|] == e.name
              && |e.extra| + |e.data| < TWO32
              && Walkable(file, pos + HEADER_SIZE + |e.name| + |e.extra| + |e.data|, es[1..], rest)
  {
    hide EntriesEnd, FromLE;
    if es != [] {
      assert es[0] in es && forall e | e in es[1..] :: e in es;
      EntryRead(file, pos, es, rest);
      hide EntriesAt;
    } else {
      assert 0 <= pos;
      if pos + HEADER_SIZE <= |file| { RestRead(file, pos, rest); }
    }
  }

  // One step of the walk; es are the entries still ahead.
  method NextEntry(file: seq<byte>, pos: nat, ghost es: seq<Entry>, ghost rest: seq<byte>)
    returns (local: bool, manifest: bool, pos': nat)
    requires pos + HEADER_SIZE <= |file|
    ensures pos' >= pos + HEADER_SIZE
    ensures Walkable(file, pos, es, rest) ==>
              && (local <==> es != [])
              && (es != [] ==> (manifest <==> es[0].name == MANIFEST) && (!manifest ==> Walkable(file, pos', es[1..], rest)))
  {
    hide Walkable, FromLE, ReadAt, Pow256;
    ghost var good := Walkable(file, pos, es, rest);
    if good { StepRead(file, pos, es, rest); }
    pos' := pos + HEADER_SIZE;
    local, manifest := file[pos..pos + 4] == LOCAL_SIGNATURE, false;
    if !local {
      return;
    }
    var compressedSize, nameLength, extraLength := Word(file, pos + 18, 4), Word(file, pos + 26, 2), Word(file, pos + 28, 2);
    assert good ==> (extraLength + compressedSize) % TWO32 == |es[0].extra| + |es[0].data|;
    hide Word;
    if nameLength == |MANIFEST| {
      var name;
      name, pos' := ReadBytes(file, pos', nameLength);
      if name == MANIFEST {
        manifest := true;
        return;
      }
    } else {
      pos' := pos' + nameLength;
    }
    pos' := pos' + (extraLength + compressedSize) % TWO32;
  }

  // es are the entries at the start of the file, rest is what follows them.
  method HasV1SignatureFile(file: seq<byte>, ghost es: seq<Entry>, ghost rest: seq<byte>) returns (found: bool)
    ensures file == EncodeEntries(es) + rest && EntriesOk(es) && EntriesEnd(rest) ==> (found <==> HasManifest(es))
  {
    ghost var good := Walkable(file, 0, es, rest);
    assert file == EncodeEntries(es) + rest ==> EntriesAt(file, 0, es, rest);
    hide EncodeEntries, EntriesAt, EntriesEnd;
    ghost var k := 0;
    var pos := 0;
    assert es[0..] == es;
    while pos + HEADER_SIZE <= |file|
      invariant good ==> k <= |es| && Walkable(file, pos, es[k..], rest) && forall i | 0 <= i < k :: es[i].name != MANIFEST
      decreases |file| - pos
    {
      ghost var ahead := if k <= |es| then es[k..] else [];
      var local, manifest;
      local, manifest, pos := NextEntry(file, pos, ahead, rest);
      if !local {
        return false;
      }
      if manifest {
        assert good ==> es[k] in es && es[k].name == MANIFEST;
        return true;
      }
      assert good ==> es[k..][1..] == es[k + 1..] && es[k..][0] == es[k];
      k := k + 1;
    }
    if good && k < |es| { EntryNeedsHeader(file, pos, es[k..], rest); }
    found := false;
  }

  lemma EntryNeedsHeader(file: seq<byte>, pos: int, es: seq<Entry>, rest: seq<byte>)
    requires Walkable(file, pos, es, rest) && es != []
    ensures pos + HEADER_SIZE <= |file|
  {
    assert es[0] in es;
    EntryRead(file, pos, es, rest);
  }
}
