/** The bytes of DTBO images: every number at its place, and which stored ranges are compressed,
    told by the flags word in the table itself. */
module DtboBytes {
  import opened Options
  import opened Bytes
  import opened DtboLayout
  import opened DtboWords
  import opened DtboImage
  import opened DtboDecode

  // The big-endian number at this place.
  function WordAt(data: seq<byte>, at: nat): nat
    requires at + 4 <= |data|
  {
    data[at] as int * 0x100_0000 + data[at + 1] as int * 0x1_0000 + data[at + 2] as int * 0x100 + data[at + 3]
  }

  lemma FromFour(bs: seq<byte>)
    requires |bs| == 4
    ensures FromBE(bs) == WordAt(bs, 0)
  {
    assert bs[..3][..2] == bs[..2] && bs[..2][..1] == bs[..1] && bs[..1][..0] == [];
    assert FromBE(bs[..1]) == bs[0];
    assert FromBE(bs[..2]) == 256 * FromBE(bs[..1]) + bs[1];
    assert FromBE(bs[..3]) == 256 * FromBE(bs[..2]) + bs[2];
  }

  lemma {:induction false} UnpackAt(bs: seq<byte>, k: nat)
    requires 4 * k + 4 <= |bs|
    ensures Unpack(bs)[k] == WordAt(bs, 4 * k)
    decreases k
  {
    FromFour(bs[..4]);
    assert Unpack(bs) == [FromBE(bs[..4])] + Unpack(bs[4..]);
    hide Unpack, FromBE;
    if k > 0 {
      UnpackAt(bs[4..], k - 1);
      assert WordAt(bs[4..], 4 * (k - 1)) == WordAt(bs, 4 * k);
    }
  }

  lemma UnpackFront(data: seq<byte>, n: nat, k: nat)
    requires 4 * k + 4 <= n <= |data|
    ensures k < |Unpack(data[..n])| && Unpack(data[..n])[k] == WordAt(data, 4 * k)
  {
    UnpackAt(data[..n], k);
    hide Unpack;
  }

  // -------- Reading --------

  lemma HeaderBytes(data: seq<byte>)
    requires |data| >= 32
    ensures HeaderAt(data) == Header(WordAt(data, 0), WordAt(data, 4), WordAt(data, 8), WordAt(data, 12), WordAt(data, 16),
                                     WordAt(data, 20), WordAt(data, 24), WordAt(data, 28))
  {
    hide Unpack, WordAt;
    UnpackFront(data, 32, 0);
    UnpackFront(data, 32, 1);
    UnpackFront(data, 32, 2);
    UnpackFront(data, 32, 3);
    UnpackFront(data, 32, 4);
    UnpackFront(data, 32, 5);
    UnpackFront(data, 32, 6);
    UnpackFront(data, 32, 7);
  }

  // A file is readable exactly when its first eight numbers say so.
  lemma ReadableBytes(data: seq<byte>)
    ensures Readable(data) <==>
            && |data| >= 32
            && (WordAt(data, 0) == 0xd7b7ab1e || WordAt(data, 0) == 0x41435049)
            && WordAt(data, 8) == 32 && WordAt(data, 12) == 32
            && 32 + 32 * WordAt(data, 16) <= |data|
            && WordAt(data, 20) <= 32
            && (WordAt(data, 16) == 0 || WordAt(data, 28) <= 1)
  {
    if |data| >= 32 { HeaderBytes(data); }
    hide HeaderAt, WordAt;
  }

  // Row i of the table starts at the whole word that the header's sixth number points to.
  lemma RowBytes(data: seq<byte>, i: nat)
    requires Readable(data) && i < HeaderAt(data).entryCount
    ensures |data| >= 32
    ensures var at := WordAt(data, 20) / 4 * 4 + 32 * i;
            && at + 32 <= |data|
            && FieldsAt(data, i) ==
               if WordAt(data, 28) == 0
               then Fields(WordAt(data, at), WordAt(data, at + 4), WordAt(data, at + 8), WordAt(data, at + 12), 0,
                           WordAt(data, at + 16), WordAt(data, at + 20), WordAt(data, at + 24), WordAt(data, at + 28))
               else Fields(WordAt(data, at), WordAt(data, at + 4), WordAt(data, at + 8), WordAt(data, at + 12),
                           WordAt(data, at + 16), WordAt(data, at + 20), WordAt(data, at + 24), WordAt(data, at + 28), 0)
  {
    hide Unpack, WordAt;
    HeaderBytes(data);
    hide HeaderAt;
    var h := HeaderAt(data);
    var n, k := TableEnd(h), h.entriesOffset / 4 + WORDS * i;
    RowInside(h, i, k, n);
    RowWords(data, n, k);
    hide FieldsOf;
    assert FieldsAt(data, i) == FieldsOf(Unpack(data[..n])[k..k + 8], h.version) by { assert k + WORDS == h.entriesOffset / 4 + WORDS * (i + 1); }
    hide FieldsAt, Readable;
    FieldsAre(Unpack(data[..n])[k..k + 8], h.version);
  }

  lemma RowInside(h: Header, i: nat, k: nat, n: nat)
    requires HeaderOk(h) && h.entriesOffset <= 32 && i < h.entryCount && n == TableEnd(h) && k == h.entriesOffset / 4 + WORDS * i
    ensures 4 * k == h.entriesOffset / 4 * 4 + 32 * i && 4 * k + 32 <= n
  {
  }

  lemma FieldsAre(ws: seq<nat>, version: nat)
    requires |ws| == 8
    ensures FieldsOf(ws, version) == if version == 0 then Fields(ws[0], ws[1], ws[2], ws[3], 0, ws[4], ws[5], ws[6], ws[7])
                                     else Fields(ws[0], ws[1], ws[2], ws[3], ws[4], ws[5], ws[6], ws[7], 0)
  {
  }

  lemma RowWords(data: seq<byte>, n: nat, k: nat)
    requires 4 * k + 32 <= n <= |data|
    ensures k + 8 <= |Unpack(data[..n])|
    ensures Unpack(data[..n])[k..k + 8] ==
            [WordAt(data, 4 * k), WordAt(data, 4 * k + 4), WordAt(data, 4 * k + 8), WordAt(data, 4 * k + 12),
             WordAt(data, 4 * k + 16), WordAt(data, 4 * k + 20), WordAt(data, 4 * k + 24), WordAt(data, 4 * k + 28)]
  {
    hide Unpack, WordAt;
    RowWord(data, n, k, 0);
    RowWord(data, n, k, 1);
    RowWord(data, n, k, 2);
    RowWord(data, n, k, 3);
    RowWord(data, n, k, 4);
    RowWord(data, n, k, 5);
    RowWord(data, n, k, 6);
    RowWord(data, n, k, 7);
  }

  lemma RowWord(data: seq<byte>, n: nat, k: nat, j: nat)
    requires 4 * k + 32 <= n <= |data| && j < 8
    ensures k + 8 <= |Unpack(data[..n])| && Unpack(data[..n])[k..k + 8][j] == WordAt(data, 4 * k + 4 * j)
  {
    UnpackFront(data, n, k + j);
    hide Unpack, WordAt;
  }

  // What is extracted for row i: the range that its first two numbers give, decompressed on
  // demand if the table's version has flags whose low four bits are 1 or 2.
  lemma ExtractedBytes(data: seq<byte>, i: nat, c: Codec, decompress: bool)
    requires Readable(data) && i < HeaderAt(data).entryCount
    ensures |data| >= 32
    ensures var at := WordAt(data, 20) / 4 * 4 + 32 * i;
            && at + 32 <= |data|
            && var size, offset, flags := WordAt(data, at), WordAt(data, at + 4), WordAt(data, at + 16);
            && var raw := data[if offset < |data| then offset else |data|..if offset + size < |data| then offset + size else |data|];
            && Extracted(data, FieldsAt(data, i), HeaderAt(data).version, c, decompress) ==
               if !decompress || WordAt(data, 28) == 0 || flags % 16 == 0 then Some(raw)
               else if flags % 16 == 1 || flags % 16 == 2 then Some(c.decompress(raw))
               else None
  {
    RowBytes(data, i);
    HeaderBytes(data);
    var h, f := HeaderAt(data), FieldsAt(data, i);
    hide HeaderAt, FieldsAt, WordAt, Readable;
    assert f.offset == WordAt(data, WordAt(data, 20) / 4 * 4 + 32 * i + 4);
    ExtractedRange(data, f, h.version, c, decompress);
  }

  lemma ExtractedRange(data: seq<byte>, f: Fields, version: nat, c: Codec, decompress: bool)
    ensures var raw := data[if f.offset < |data| then f.offset else |data|..if f.offset + f.size < |data| then f.offset + f.size else |data|];
            Extracted(data, f, version, c, decompress) ==
            if !decompress || version == 0 || f.flags % 16 == 0 then Some(raw)
            else if f.flags % 16 == 1 || f.flags % 16 == 2 then Some(c.decompress(raw))
            else None
  {
    assert Range(data, f.offset, f.size) ==
           data[if f.offset < |data| then f.offset else |data|..if f.offset + f.size < |data| then f.offset + f.size else |data|];
  }

  // -------- Building --------

  // Bytes stored for a file whose flags word is this.
  function StoredBytes(c: Codec, version: nat, flags: nat, content: seq<byte>): seq<byte> {
    if version == 0 || flags % 16 == 0 then content
    else if flags % 16 == 1 then c.compress(1, content)
    else c.compress(2, content)
  }

  // Row i holds these numbers, and the range that it gives holds the file.
  ghost predicate RowHolds(data: seq<byte>, i: nat, n: Fields, content: seq<byte>, version: nat, c: Codec) {
    var at := 32 + 32 * i;
    && at + 32 <= |data|
    && WordAt(data, at + 8) == n.id && WordAt(data, at + 12) == n.rev
    && (if version == 0 then
          && WordAt(data, at + 16) == n.custom0 && WordAt(data, at + 20) == n.custom1
          && WordAt(data, at + 24) == n.custom2 && WordAt(data, at + 28) == n.custom3
        else
          && WordAt(data, at + 16) == n.flags && WordAt(data, at + 20) == n.custom0
          && WordAt(data, at + 24) == n.custom1 && WordAt(data, at + 28) == n.custom2)
    && var size, offset := WordAt(data, at), WordAt(data, at + 4);
    && offset + size <= |data|
    && data[offset..offset + size] == StoredBytes(c, version, WordAt(data, at + 16), content)
  }

  lemma ImageHeader(data: seq<byte>, h: Header, fs: seq<Fields>, ss: seq<Source>, c: Codec)
    requires IsImage(data, h, fs, ss, c)
    ensures Readable(data) && HeaderAt(data) == h && |fs| == |ss|
    ensures |data| >= 32 && WordAt(data, 4) == |data| && WordAt(data, 16) == |ss| && WordAt(data, 20) == 32
    ensures WordAt(data, 0) == h.magic && WordAt(data, 24) == h.pageSize && WordAt(data, 28) == h.version
    ensures WordAt(data, 8) == 32 && WordAt(data, 12) == 32
    ensures forall i | 0 <= i < |ss| :: FieldsAt(data, i) == Stored(fs[i], h.version)
  {
    hide Words32, HeaderWords, TableWords, Layout, Metadata, HeaderAt, FieldsAt, Stored, Readable, WordAt;
    ReadsBack(h, fs, Layout(HEADER_SIZE + |ss| * ENTRY_SIZE, ss, c).buf);
    ReadableBytes(data);
    HeaderBytes(data);
  }

  lemma ImageRow(data: seq<byte>, h: Header, fs: seq<Fields>, ss: seq<Source>, c: Codec, i: nat)
    requires IsImage(data, h, fs, ss, c) && SameFiles(ss) && i < |ss| && ss[i].format <= 2
    ensures i < |fs| && RowHolds(data, i, fs[i], ss[i].content, h.version, c)
  {
    hide Readable, HeaderAt, FieldsAt, WordAt, IsImage, SameFiles, Layout, Blob, StoredBytes, FormatOf;
    ImageHeader(data, h, fs, ss, c);
    ImageHolds(data, h, fs, ss, c, i);
    ImageFormat(data, h, fs, ss, c, i);
    assert i < HeaderAt(data).entryCount by { HeaderBytes(data); }
    RowBytes(data, i);
    StoredFormat(c, ss[i], fs[i], h.version);
    StoredRow(data, fs[i], h.version, i, c, ss[i].content);
  }

  lemma StoredRow(data: seq<byte>, f: Fields, version: nat, i: nat, c: Codec, content: seq<byte>)
    requires var at := 32 + 32 * i;
             && at + 32 <= |data| && version <= 1
             && Stored(f, version) ==
                if version == 0
                then Fields(WordAt(data, at), WordAt(data, at + 4), WordAt(data, at + 8), WordAt(data, at + 12), 0,
                            WordAt(data, at + 16), WordAt(data, at + 20), WordAt(data, at + 24), WordAt(data, at + 28))
                else Fields(WordAt(data, at), WordAt(data, at + 4), WordAt(data, at + 8), WordAt(data, at + 12),
                            WordAt(data, at + 16), WordAt(data, at + 20), WordAt(data, at + 24), WordAt(data, at + 28), 0)
    requires f.offset + f.size <= |data| && data[f.offset..f.offset + f.size] == StoredBytes(c, version, f.flags, content)
    ensures RowHolds(data, i, f, content, version, c)
  {
    hide WordAt;
  }

  lemma ImageFormat(data: seq<byte>, h: Header, fs: seq<Fields>, ss: seq<Source>, c: Codec, i: nat)
    requires IsImage(data, h, fs, ss, c) && i < |ss|
    ensures |fs| == |ss| && h.version <= 1 && FormatOf(fs[i], h.version) == ss[i].format
  {
    hide Layout, Words32, TableWords, HeaderWords, Metadata;
  }

  lemma StoredFormat(c: Codec, s: Source, f: Fields, version: nat)
    requires FormatOf(f, version) == s.format <= 2
    ensures StoredBytes(c, version, f.flags, s.content) == Blob(c, s)
  {
  }

  // -------- 32 bits --------

  // Every number that the version's table keeps of an entry.
  predicate Fits(n: Fields, version: nat) {
    && n.id < 0x1_0000_0000 && n.rev < 0x1_0000_0000
    && n.custom0 < 0x1_0000_0000 && n.custom1 < 0x1_0000_0000 && n.custom2 < 0x1_0000_0000
    && (if version == 0 then n.custom3 else n.flags) < 0x1_0000_0000
  }

  lemma RowFits(f: Fields, version: nat)
    ensures Words32(EntryWords(f, version)) <==> f.size < 0x1_0000_0000 && f.offset < 0x1_0000_0000 && Fits(f, version)
  {
    var ws := EntryWords(f, version);
    assert ws[0] in ws && ws[1] in ws && ws[2] in ws && ws[3] in ws && ws[4] in ws && ws[5] in ws && ws[6] in ws && ws[7] in ws;
  }

  lemma {:induction false} TableFits(fs: seq<Fields>, version: nat)
    ensures Words32(TableWords(fs, version)) <==> forall i | 0 <= i < |fs| :: Words32(EntryWords(fs[i], version))
    decreases |fs|
  {
    if fs != [] {
      TableFits(fs[1..], version);
      var row, rest := EntryWords(fs[0], version), TableWords(fs[1..], version);
      assert TableWords(fs, version) == row + rest;
      hide EntryWords, TableWords;
      assert forall w :: w in row + rest <==> w in row || w in rest;
      assert forall i | 0 < i < |fs| :: fs[i] == fs[1..][i - 1];
      assert forall i | 0 <= i < |fs[1..]| :: fs[1..][i] == fs[i + 1];
    }
  }

  lemma HeaderFits(h: Header)
    ensures Words32(HeaderWords(h)) <==>
            && h.magic < 0x1_0000_0000 && h.totalSize < 0x1_0000_0000 && h.headerSize < 0x1_0000_0000 && h.entrySize < 0x1_0000_0000
            && h.entryCount < 0x1_0000_0000 && h.entriesOffset < 0x1_0000_0000 && h.pageSize < 0x1_0000_0000 && h.version < 0x1_0000_0000
  {
    var ws := HeaderWords(h);
    assert ws[0] in ws && ws[1] in ws && ws[2] in ws && ws[3] in ws && ws[4] in ws && ws[5] in ws && ws[6] in ws && ws[7] in ws;
  }

  lemma PlacedBelow(fs: seq<Fields>, ss: seq<Source>, p: Plan, start: nat, version: nat)
    requires PlacedFields(fs, ss, p, version) && PlanOk(p, start)
    ensures forall i | 0 <= i < |fs| :: fs[i].offset + fs[i].size <= p.next
  {
    forall i | 0 <= i < |fs|
      ensures fs[i].offset + fs[i].size <= p.next
    {
      assert p.entries[i] in p.entries;
    }
  }

  lemma RowsFit(fs: seq<Fields>, version: nat, total: nat)
    requires forall i | 0 <= i < |fs| :: fs[i].offset + fs[i].size <= total
    ensures total < 0x1_0000_0000 ==>
              (Words32(TableWords(fs, version)) <==> forall i | 0 <= i < |fs| :: Fits(fs[i], version))
  {
    TableFits(fs, version);
    forall i | 0 <= i < |fs|
      ensures total < 0x1_0000_0000 ==> (Words32(EntryWords(fs[i], version)) <==> Fits(fs[i], version))
    {
      RowFits(fs[i], version);
      hide Words32, EntryWords, Fits;
    }
    hide Words32, EntryWords, TableWords, Fits;
  }

  // All numbers of an image fit exactly when its length, its page size and the entries' own do.
  lemma {:induction false} ImageFits(h: Header, fs: seq<Fields>, ss: seq<Source>, c: Codec)
    requires var p := Layout(HEADER_SIZE + |ss| * ENTRY_SIZE, ss, c);
             PlacedFields(fs, ss, p, h.version) && HeaderOf(h, |ss|, p.next)
    ensures |fs| == |ss|
    ensures var total := Layout(32 + 32 * |ss|, ss, c).next;
            Words32(HeaderWords(h)) && Words32(TableWords(fs, h.version)) <==>
              total < 0x1_0000_0000 && h.pageSize < 0x1_0000_0000 && forall i | 0 <= i < |fs| :: Fits(fs[i], h.version)
  {
    hide Layout;
    var start := HEADER_SIZE + |ss| * ENTRY_SIZE;
    var p := Layout(start, ss, c);
    LayoutTiles(start, ss, c);
    PlacedBelow(fs, ss, p, start, h.version);
    assert start <= p.next;
    hide PlacedFields, PlanOk;
    HeaderFits(h);
    RowsFit(fs, h.version, p.next);
    hide Words32, HeaderWords, TableWords, Fits;
  }
}
