/** What reading a DTBO image yields, as functions of the file's bytes, and the round trip from
    a built image to its header, its table and the device tree files in it. */
module DtboDecode {
  import opened Options
  import opened Bytes
  import opened DtboLayout
  import opened DtboWords
  import opened DtboImage

  function HeaderFrom(ws: seq<nat>): Header
    requires |ws| >= WORDS
  {
    Header(ws[0], ws[1], ws[2], ws[3], ws[4], ws[5], ws[6], ws[7])
  }

  function HeaderAt(data: seq<byte>): Header
    requires |data| >= HEADER_SIZE
  {
    HeaderFrom(Unpack(data[..HEADER_SIZE]))
  }

  predicate HeaderOk(h: Header) {
    (h.magic == DTBO_MAGIC || h.magic == ACPIO_MAGIC) && h.headerSize == HEADER_SIZE && h.entrySize == ENTRY_SIZE
  }

  function TableEnd(h: Header): nat {
    h.headerSize + h.entryCount * h.entrySize
  }

  // The rows are read as words from entriesOffset / 4 on, out of the words of header and table.
  predicate Readable(data: seq<byte>) {
    && |data| >= HEADER_SIZE
    && var h := HeaderAt(data);
    && HeaderOk(h)
    && TableEnd(h) <= |data|
    && h.entriesOffset <= HEADER_SIZE
    && (h.entryCount == 0 || h.version <= 1)
  }

  function RowIn(ws: seq<nat>, entriesOffset: nat, i: nat): (row: seq<nat>)
    requires entriesOffset / 4 + WORDS * (i + 1) <= |ws|
    ensures |row| == WORDS
  {
    ws[entriesOffset / 4 + WORDS * i..entriesOffset / 4 + WORDS * (i + 1)]
  }

  function FieldsAt(data: seq<byte>, i: nat): Fields
    requires Readable(data) && i < HeaderAt(data).entryCount
  {
    var h := HeaderAt(data);
    var ws := Unpack(data[..TableEnd(h)]);
    FieldsOf(RowIn(ws, h.entriesOffset, i), h.version)
  }

  function Extracted(data: seq<byte>, f: Fields, version: nat, c: Codec, decompress: bool): Option<seq<byte>> {
    var format := FormatOf(f, version);
    if !decompress || format == 0 then Some(Range(data, f.offset, f.size))
    else if format <= 2 then Some(c.decompress(Range(data, f.offset, f.size)))
    else None
  }

  // -------- Round trips --------

  lemma HeaderRoundTrip(h: Header, rest: seq<byte>)
    requires Words32(HeaderWords(h))
    ensures |Pack(HeaderWords(h)) + rest| >= HEADER_SIZE && HeaderAt(Pack(HeaderWords(h)) + rest) == h
  {
    UnpackPack(HeaderWords(h));
    var bs := Pack(HeaderWords(h));
    assert (bs + rest)[..HEADER_SIZE] == bs;
    hide Pack, Unpack;
  }

  lemma BehindHeader(hs: seq<nat>, ts: seq<nat>, i: nat)
    requires |hs| == WORDS && WORDS * (i + 1) <= |ts|
    ensures RowIn(hs + ts, HEADER_SIZE, i) == ts[WORDS * i..WORDS * i + WORDS]
  {
    assert HEADER_SIZE / 4 == WORDS;
  }

  lemma RowRoundTrip(h: Header, fs: seq<Fields>, i: nat)
    requires i < |fs| && h.version <= 1
    ensures |HeaderWords(h) + TableWords(fs, h.version)| == WORDS + WORDS * |fs|
    ensures FieldsOf(RowIn(HeaderWords(h) + TableWords(fs, h.version), HEADER_SIZE, i), h.version) == Stored(fs[i], h.version)
  {
    TableAt(fs, h.version, i);
    TableSize(fs, h.version);
    FieldsRoundTrip(fs[i], h.version);
    hide TableWords, FieldsOf, EntryWords;
    BehindHeader(HeaderWords(h), TableWords(fs, h.version), i);
  }

  lemma MetadataWords(h: Header, fs: seq<Fields>, tail: seq<byte>)
    requires HeaderOk(h) && h.entryCount == |fs|
    requires Words32(HeaderWords(h)) && Words32(TableWords(fs, h.version))
    ensures TableEnd(h) <= |Metadata(h, fs) + tail|
    ensures Unpack((Metadata(h, fs) + tail)[..TableEnd(h)]) == HeaderWords(h) + TableWords(fs, h.version)
  {
    var ws := HeaderWords(h) + TableWords(fs, h.version);
    MetadataSize(h, fs);
    PackConcat(HeaderWords(h), TableWords(fs, h.version));
    assert forall w | w in ws :: w in HeaderWords(h) || w in TableWords(fs, h.version);
    UnpackPack(ws);
    hide Pack, Unpack, TableWords, HeaderWords, Words32;
    assert Metadata(h, fs) == Pack(ws);
    assert (Metadata(h, fs) + tail)[..TableEnd(h)] == Metadata(h, fs);
  }

  // Metadata with these 32-bit words in front of any blobs is read back: every header field, and
  // every entry in order, with the fields that the version's table keeps.
  lemma ReadsBack(h: Header, fs: seq<Fields>, tail: seq<byte>)
    requires HeaderOk(h) && h.entryCount == |fs| && h.entriesOffset == HEADER_SIZE && h.version <= 1
    requires Words32(HeaderWords(h)) && Words32(TableWords(fs, h.version))
    ensures Readable(Metadata(h, fs) + tail) && HeaderAt(Metadata(h, fs) + tail) == h
    ensures forall i | 0 <= i < |fs| :: FieldsAt(Metadata(h, fs) + tail, i) == Stored(fs[i], h.version)
  {
    hide Pack, Unpack, TableWords, HeaderWords, Words32, FieldsOf, RowIn, HeaderAt, Stored;
    var data := Metadata(h, fs) + tail;
    assert data == Pack(HeaderWords(h)) + (Pack(TableWords(fs, h.version)) + tail);
    HeaderRoundTrip(h, Pack(TableWords(fs, h.version)) + tail);
    MetadataWords(h, fs, tail);
    hide Metadata;
    forall i | 0 <= i < |fs|
      ensures FieldsAt(data, i) == Stored(fs[i], h.version)
    {
      RowRoundTrip(h, fs, i);
    }
  }

  lemma StoredPlace(f: Fields, version: nat)
    requires version <= 1
    ensures var g := Stored(f, version); g.offset == f.offset && g.size == f.size && FormatOf(g, version) == FormatOf(f, version)
  {
  }

  // Building an image and extracting entry i from it gives file i back, decompressed or as the
  // blob that was stored.
  lemma BuildThenExtract(data: seq<byte>, h: Header, fs: seq<Fields>, ss: seq<Source>, c: Codec, i: nat)
    requires IsImage(data, h, fs, ss, c) && SameFiles(ss) && i < |ss| && ss[i].format <= 2
    ensures Readable(data) && HeaderAt(data) == h && FieldsAt(data, i) == Stored(fs[i], h.version)
    ensures Inverse(c) ==> Extracted(data, FieldsAt(data, i), h.version, c, true) == Some(ss[i].content)
    ensures Extracted(data, FieldsAt(data, i), h.version, c, false) == Some(Blob(c, ss[i]))
  {
    hide Layout, Words32, TableWords, HeaderWords, SameFiles, Metadata, Readable, HeaderAt, FieldsAt, Stored, Inverse, FormatOf;
    ImageHolds(data, h, fs, ss, c, i);
    ReadsBack(h, fs, Layout(HEADER_SIZE + |ss| * ENTRY_SIZE, ss, c).buf);
    StoredPlace(fs[i], h.version);
  }
}
