/** The builder and reader of DTBO images. */
module Dtbo {
  import opened Options
  import opened Bytes
  import opened DtboLayout
  import opened DtboWords
  import opened DtboImage
  import opened DtboDecode
  import opened DtboBytes

  function Sources(list: seq<DtEntry>): seq<Source> {
    seq(|list|, i requires 0 <= i < |list| => list[i].Source())
  }

  ghost predicate Distinct(list: seq<DtEntry>) {
    forall i, j | 0 <= i < j < |list| :: list[i] != list[j]
  }

  predicate Supported(list: seq<DtEntry>) {
    forall e | e in list :: e.CompressionInfo() <= 2
  }

  function BlankHeader(acpi: bool, pageSize: nat, version: nat): Header {
    Header(if acpi then ACPIO_MAGIC else DTBO_MAGIC, HEADER_SIZE, HEADER_SIZE, ENTRY_SIZE, 0, HEADER_SIZE, pageSize, version)
  }

  function Grown(h: Header, n: nat, bytes: nat): Header {
    h.(entryCount := h.entryCount + n, totalSize := h.totalSize + n * h.entrySize + bytes)
  }

  lemma FindSameIs(done: seq<Placed>, path: string, k: nat)
    requires k <= |done| && (k < |done| ==> done[k].path == path) && forall j | 0 <= j < k :: done[j].path != path
    ensures FindSame(done, path) == k
  {
  }

  lemma PackStep(ws: seq<nat>, i: nat)
    requires i < |ws|
    ensures Pack(ws[..i + 1]) == Pack(ws[..i]) + ToBE(ws[i], 4)
  {
    PackConcat(ws[..i], [ws[i]]);
    assert Pack([ws[i]]) == ToBE(ws[i], 4);
    assert ws[..i + 1] == ws[..i] + [ws[i]];
  }

  method PutWord(a: array<byte>, at: nat, w: nat)
    requires at + 4 <= a.Length
    modifies a
    ensures a[..at] == old(a[..at]) && a[at + 4..] == old(a[at + 4..]) && a[at..at + 4] == ToBE(w, 4)
  {
    var bs := ToBE(w, 4);
    hide ToBE;
    a[at], a[at + 1], a[at + 2], a[at + 3] := bs[0], bs[1], bs[2], bs[3];
  }

  lemma ExtendCases(p: Plan, s: Source, c: Codec, k: nat)
    requires k == FindSame(p.entries, s.path)
    ensures Extend(p, s, c) ==
            if k < |p.entries| && p.entries[k].format == s.format then p.(entries := p.entries + [p.entries[k]])
            else
              var e := Placed(s.path, s.format, p.next, |Blob(c, s)|);
              Plan(p.entries + [e], p.blobs + [e], p.buf + Blob(c, s), p.next + |Blob(c, s)|)
  {
    hide Blob, FindSame;
  }

  // Writes the words one after the other, or stops at one that needs more than 32 bits.
  method PackInto(a: array<byte>, offset: nat, ws: seq<nat>) returns (ok: bool)
    requires offset + 4 * |ws| <= a.Length
    modifies a
    ensures ok <==> Words32(ws)
    ensures a[..offset] == old(a[..offset]) && a[offset + 4 * |ws|..] == old(a[offset + 4 * |ws|..])
    ensures ok ==> a[offset..offset + 4 * |ws|] == Pack(ws)
  {
    hide Pack, ToBE;
    assert Pack(ws[..0]) == [];
    for i := 0 to |ws|
      invariant forall w | w in ws[..i] :: w < WORD
      invariant a[..offset] == old(a[..offset]) && a[offset + 4 * i..] == old(a[offset + 4 * i..])
      invariant a[offset..offset + 4 * i] == Pack(ws[..i])
    {
      if ws[i] >= WORD {
        assert ws[i] in ws;
        assert a[offset + 4 * |ws|..] == a[offset + 4 * i..][4 * |ws| - 4 * i..];
        return false;
      }
      var at := offset + 4 * i;
      ghost var front, back := a[..at], a[at..];
      PutWord(a, at, ws[i]);
      PackStep(ws, i);
      assert ws[..i + 1] == ws[..i] + [ws[i]];
      assert a[..offset] == front[..offset] && a[offset..at] == front[offset..];
      assert a[offset..at + 4] == a[offset..at] + a[at..at + 4];
      assert a[at + 4..] == back[4..];
    }
    assert ws[..|ws|] == ws;
    ok := true;
  }

  class Dtbo {
    const file: ImageFile
    var entries: seq<DtEntry>
    var header: Header
    var metadata: array<byte>
    var metadataSize: nat

    constructor (file: ImageFile)
      ensures this.file == file && entries == [] && metadataSize == 0 && fresh(metadata)
    {
      this.file, entries, metadataSize := file, [], 0;
      header := BlankHeader(false, 0, 0);
      metadata := new byte[0];
    }

    // A page size means that an image is to be written, its absence that one is to be read.
    method Init(acpi: bool, pageSize: nat, version: nat) returns (r: Result<(), Error>)
      requires entries == []
      modifies this, file`pos
      ensures metadata == old(metadata)
      ensures pageSize != 0 ==> r.Ok? && entries == [] && header == BlankHeader(acpi, pageSize, version) && metadataSize == HEADER_SIZE
      ensures pageSize == 0 ==> (r.Ok? <==> Readable(file.data)) && (|file.data| < HEADER_SIZE ==> r == Err(TooShort))
      ensures pageSize == 0 && r.Ok? ==> HasRead()
    {
      if pageSize != 0 {
        header := BlankHeader(acpi, pageSize, version);
        metadataSize := HEADER_SIZE;
        return Ok(());
      }
      r := ReadImage();
    }

    // The header and the entries are those of the file.
    ghost predicate HasRead()
      reads this, entries, file`data
    {
      && Readable(file.data) && header == HeaderAt(file.data) && |entries| == header.entryCount
      && forall i | 0 <= i < |entries| ::
           entries[i].Fields() == FieldsAt(file.data, i) == entries[i].numbers && entries[i].version == header.version
    }

    // -------- Building --------

    // The first entry with this file, or |entries|.
    method FindDtEntryWithSameFile(path: string) returns (k: nat)
      ensures k <= |entries| && (k < |entries| ==> entries[k].path == path)
      ensures forall j | 0 <= j < k :: entries[j].path != path
    {
      for i := 0 to |entries|
        invariant forall j | 0 <= j < i :: entries[j].path != path
      {
        if entries[i].path == path {
          return i;
        }
      }
      k := |entries|;
    }

    // The first entries have the places of the plan.
    static ghost predicate Placed(list: seq<DtEntry>, n: nat, p: Plan)
      reads list
    {
      && n <= |list| && |p.entries| == n
      && forall j | 0 <= j < n ::
           p.entries[j] == DtboLayout.Placed(list[j].path, list[j].CompressionInfo(), list[j].dtOffset, list[j].size)
    }

    // Gives the next entry its place: that of the first entry with its file, if the compression
    // is the same, and else the next free place, with a blob to append there.
    method PlaceEntry(list: seq<DtEntry>, i: nat, dtOffset: nat, c: Codec, ghost p: Plan) returns (ok: bool, blob: seq<byte>)
      requires i < |list| && Distinct(list) && entries == list[..i] && Supported(list[..i])
      requires Placed(list, i, p) && p.next == dtOffset
      modifies list[i]
      ensures ok <==> list[i].CompressionInfo() <= 2
      ensures ok ==> var next := Extend(p, list[i].Source(), c);
                     Placed(list, i + 1, next) && next.buf == p.buf + blob && next.next == dtOffset + |blob|
    {
      hide Blob, Extend, FindSame;
      var e := list[i];
      var k := FindDtEntryWithSameFile(e.path);
      FindSameIs(p.entries, e.path, k);
      ExtendCases(p, e.Source(), c, k);
      if k < |entries| && entries[k].CompressionInfo() == e.CompressionInfo() {
        assert list[k] in list[..i];
        e.dtOffset, e.size := entries[k].dtOffset, entries[k].size;
        return true, [];
      }
      e.dtOffset := dtOffset;
      if e.CompressionInfo() > 2 {
        return false, [];
      }
      blob := Blob(c, e.Source());
      e.size := |blob|;
      ok := true;
    }

    // Gives every entry its place and appends the blobs that are not shared. The image is laid
    // out behind a table for the whole list; an unsupported format stops it part-way.
    method AddDtEntries(list: seq<DtEntry>, c: Codec) returns (r: Result<seq<byte>, Error>)
      requires Distinct(list)
      modifies this`entries, this`header, this`metadataSize, list
      ensures list == [] ==> r == Err(EmptyList)
      ensures list != [] && old(entries) != [] ==> r == Err(AlreadyAdded)
      ensures list == [] || old(entries) != [] ==> unchanged(this) && unchanged(list)
      ensures list != [] && old(entries) == [] ==> (if Supported(list) then r.Ok? else r == Err(BadCompression))
      ensures r.Ok? ==>
                var p := Layout(old(header.headerSize) + |list| * old(header.entrySize), Sources(list), c);
                && entries == list && r.result == p.buf && Placed(list, |list|, p)
                && header == Grown(old(header), |list|, |p.buf|)
                && metadataSize == old(metadataSize) + |list| * old(header.entrySize)
    {
      if list == [] {
        return Err(EmptyList);
      }
      if entries != [] {
        return Err(AlreadyAdded);
      }
      r := AddAll(list, c);
    }

    method AddAll(list: seq<DtEntry>, c: Codec) returns (r: Result<seq<byte>, Error>)
      requires Distinct(list) && entries == []
      modifies this`entries, this`header, this`metadataSize, list
      ensures if Supported(list) then r.Ok? else r == Err(BadCompression)
      ensures r.Ok? ==>
                var p := Layout(old(header.headerSize) + |list| * old(header.entrySize), Sources(list), c);
                && entries == list && r.result == p.buf && Placed(list, |list|, p)
                && header == Grown(old(header), |list|, |p.buf|)
                && metadataSize == old(metadataSize) + |list| * old(header.entrySize)
    {
      hide Layout, PlaceAll, Extend, Placed, Distinct, Supported;
      var dtOffset := header.headerSize + |list| * header.entrySize;
      var buf := [];
      ghost var start, ss, h, m := dtOffset, Sources(list), header, metadataSize;
      ghost var plan := Plan([], [], [], start);
      StartPlan(list, start, c);
      for i := 0 to |list|
        invariant entries == list[..i] && Supported(list[..i])
        invariant Placed(list, i, plan) && plan.buf == buf && plan.next == dtOffset
        invariant PlaceAll(plan, ss[i..], c) == Layout(start, ss, c)
        invariant header == Grown(h, i, |buf|)
        invariant metadataSize == m + i * h.entrySize
      {
        PlaceStep(plan, ss, i, c);
        SupportedStep(list, i);
        var ok, blob := PlaceEntry(list, i, dtOffset, c, plan);
        if !ok {
          return Err(BadCompression);
        }
        plan := Extend(plan, ss[i], c);
        GrownTwice(h, i, |buf|, |blob|);
        hide Sources;
        dtOffset, buf := dtOffset + |blob|, buf + blob;
        entries := entries + [list[i]];
        header := header.(entryCount := header.entryCount + 1, totalSize := header.totalSize + header.entrySize + |blob|);
        metadataSize := metadataSize + header.entrySize;
      }
      assert list[..|list|] == list && ss[|list|..] == [];
      PlaceNone(plan, c);
      r := Ok(buf);
    }

    // The header's layout is the one that a created image has.
    ghost predicate Writable()
      reads this
    {
      && header.headerSize == HEADER_SIZE && header.entrySize == ENTRY_SIZE && header.version <= 1
      && metadataSize == HEADER_SIZE + |entries| * ENTRY_SIZE
    }

    ghost function Table(): (fs: seq<Fields>)
      reads this, entries
      ensures |fs| == |entries|
    {
      seq(|entries|, i requires 0 <= i < |entries| reads this, entries => entries[i].Fields())
    }

    ghost predicate Packable()
      reads this, entries
    {
      Words32(HeaderWords(header)) && Words32(TableWords(Table(), header.version))
    }

    // Packs the rows behind the header's place.
    method PackTable(a: array<byte>) returns (ok: bool)
      requires a.Length == HEADER_SIZE + |entries| * ENTRY_SIZE
      modifies a
      ensures ok <==> Words32(TableWords(Table(), header.version))
      ensures ok ==> a[HEADER_SIZE..] == Pack(TableWords(Table(), header.version))
    {
      hide Pack, Words32, EntryWords, TableWords;
      ghost var fs, version := Table(), header.version;
      NoRows(fs, version);
      for i := 0 to |entries|
        invariant a.Length == HEADER_SIZE + ENTRY_SIZE * |fs| && |fs| == |entries|
        invariant Words32(TableWords(fs[..i], version))
        invariant a[HEADER_SIZE..HEADER_SIZE + ENTRY_SIZE * i] == Pack(TableWords(fs[..i], version))
      {
        var offset := HEADER_SIZE + ENTRY_SIZE * i;
        ghost var before := a[..offset];
        RowStep(fs, i, version);
        ok := PackInto(a, offset, EntryWords(entries[i].Fields(), header.version));
        if !ok { return; }
        assert a[HEADER_SIZE..offset + ENTRY_SIZE] == before[HEADER_SIZE..] + a[offset..offset + ENTRY_SIZE];
      }
      assert fs[..|fs|] == fs;
      ok := true;
    }

    // Fills a buffer of spaces with the table and then the header, so that no space is left. A
    // number that needs more than 32 bits is an error.
    method UpdateMetadata() returns (ok: bool)
      requires Writable()
      modifies this`metadata
      ensures fresh(metadata) && Table() == old(Table())
      ensures ok <==> Packable()
      ensures ok ==> metadata[..] == Metadata(header, Table())
    {
      hide Pack, Words32, HeaderWords, TableWords;
      ghost var fs := Table();
      var a := new byte[metadataSize](_ => 32);
      metadata := a;
      assert Table() == fs;
      ok := PackTable(a);
      if !ok { return; }
      HeaderLength(header);
      ok := PackInto(a, 0, HeaderWords(header));
      assert a[..] == a[..HEADER_SIZE] + a[HEADER_SIZE..];
    }

    // Writes the metadata and then the blobs from the start of the file.
    method Commit(buf: seq<byte>) returns (r: Result<(), Error>)
      requires Writable()
      modifies this`metadata, file
      ensures Table() == old(Table())
      ensures entries == [] ==> r == Err(NoEntries)
      ensures entries != [] ==> if Packable() then r.Ok? else r == Err(PackError)
      ensures file.data == if r.Ok? then Spliced(old(file.data), 0, Metadata(header, Table()) + buf) else old(file.data)
    {
      if entries == [] {
        return Err(NoEntries);
      }
      var ok := UpdateMetadata();
      if !ok {
        return Err(PackError);
      }
      hide Packable, Metadata, Writable, Table, Spliced;
      SplicedTwice(file.data, metadata[..], buf);
      file.Seek(0);
      file.Write(metadata[..]);
      file.Write(buf);
      r := Ok(());
    }

    // -------- Reading --------

    method ReadHeader(buf: seq<byte>) returns (r: Result<(), Error>)
      requires |buf| == HEADER_SIZE
      modifies this`header
      ensures header == HeaderFrom(Unpack(buf))
      ensures r.Ok? <==> HeaderOk(header)
    {
      header := HeaderFrom(Unpack(buf));
      if header.magic != DTBO_MAGIC && header.magic != ACPIO_MAGIC {
        return Err(BadMagic);
      }
      if header.headerSize != HEADER_SIZE {
        return Err(BadHeaderSize);
      }
      if header.entrySize != ENTRY_SIZE {
        return Err(BadEntrySize);
      }
      r := Ok(());
    }

    // The entry holds row i of the table.
    static ghost predicate HoldsRow(e: DtEntry, row: seq<nat>, version: nat)
      requires |row| == WORDS
      reads e
    {
      e.Fields() == FieldsOf(row, version) == e.numbers && e.version == version
    }

    // The entry that one row gives, its numbers taken as text arguments.
    method RowEntry(row: seq<nat>, version: nat) returns (e: DtEntry)
      requires |row| == WORDS && version <= 1
      ensures fresh(e) && HoldsRow(e, row, version)
    {
      hide RowArgs, FieldsFrom, FieldsOf, Keys, Parses, Number;
      RowArgsParse(row, version);
      var made := NewEntry(version, "", [], row[0], row[1], RowArgs(row, version));
      e := made.result;
    }

    method ReadEntries(ws: seq<nat>) returns (r: Result<(), Error>)
      requires header.entriesOffset <= HEADER_SIZE && |ws| == WORDS + WORDS * header.entryCount
      modifies this`entries
      ensures old(entries) != [] ==> r == Err(AlreadyAdded)
      ensures old(entries) == [] ==> (r.Ok? <==> header.entryCount == 0 || header.version <= 1)
      ensures r.Ok? ==> |entries| == header.entryCount && fresh(entries) && Distinct(entries)
      ensures r.Ok? ==> forall i | 0 <= i < |entries| :: HoldsRow(entries[i], RowIn(ws, header.entriesOffset, i), header.version)
    {
      if entries != [] {
        return Err(AlreadyAdded);
      }
      for i := 0 to header.entryCount
        invariant |entries| == i && fresh(entries) && Distinct(entries)
        invariant i > 0 ==> header.version <= 1
        invariant forall j | 0 <= j < i :: HoldsRow(entries[j], RowIn(ws, header.entriesOffset, j), header.version)
      {
        var row := RowIn(ws, header.entriesOffset, i);
        if header.version > 1 {
          return Err(BadVersion);
        }
        hide RowIn, HoldsRow;
        var e := RowEntry(row, header.version);
        entries := entries + [e];
      }
      r := Ok(());
    }

    method ReadImage() returns (r: Result<(), Error>)
      requires entries == []
      modifies this`header, this`entries, this`metadataSize, file`pos
      ensures r.Ok? <==> Readable(file.data)
      ensures |file.data| < HEADER_SIZE ==> r == Err(TooShort)
      ensures r.Ok? ==> HasRead() && fresh(entries) && Distinct(entries)
    {
      if |file.data| < HEADER_SIZE {
        return Err(TooShort);
      }
      file.Seek(0);
      var buf := file.Read(HEADER_SIZE);
      r := ReadHeader(buf);
      if r.Err? {
        return;
      }
      metadataSize := TableEnd(header);
      if |file.data| < metadataSize {
        return Err(TooShort);
      }
      if header.entriesOffset > HEADER_SIZE {
        return Err(BadOffset);
      }
      file.Seek(0);
      buf := file.Read(metadataSize);
      hide Unpack, RowIn, FieldsOf;
      r := ReadEntries(Unpack(buf));
    }

    // Writes an entry's blob, or what it decompresses to, at the start of another file. A
    // negative index counts from the end.
    method ExtractDtFile(idx: int, fout: ImageFile, c: Codec, decompress: bool) returns (r: Result<(), Error>)
      requires fout != file
      modifies file`pos, fout
      ensures idx > header.entryCount || !(-|entries| <= idx < |entries|) ==> r == Err(BadIndex) && fout.data == old(fout.data)
      ensures idx <= header.entryCount && -|entries| <= idx < |entries| ==>
                var e := entries[if idx < 0 then |entries| + idx else idx];
                var x := Extracted(file.data, e.Fields(), e.version, c, decompress);
                && r == (if x.Some? then Ok(()) else Err(BadCompression))
                && fout.data == if x.Some? then Spliced(old(fout.data), 0, x.value) else old(fout.data)
    {
      if idx > header.entryCount || !(-|entries| <= idx < |entries|) {
        return Err(BadIndex);
      }
      var e := entries[if idx < 0 then |entries| + idx else idx];
      var size, offset := e.size, e.dtOffset;
      hide Range, Spliced;
      file.Seek(offset);
      fout.Seek(0);
      var format := e.CompressionInfo();
      if decompress && format != 0 {
        if format != 1 && format != 2 {
          return Err(BadCompression);
        }
        var blob := file.Read(size);
        fout.Write(c.decompress(blob));
      } else {
        var blob := file.Read(size);
        fout.Write(blob);
      }
      r := Ok(());
    }

    method ExtractToNewFile(i: nat, c: Codec, decompress: bool) returns (r: Result<seq<byte>, Error>)
      requires HasRead() && i < |entries|
      modifies file`pos
      ensures var x := Extracted(file.data, FieldsAt(file.data, i), header.version, c, decompress);
              r == if x.Some? then Ok(x.value) else Err(BadCompression)
    {
      hide FieldsAt, Extracted, Spliced;
      assert HeaderAt(file.data) == header;
      ghost var x := Extracted(file.data, FieldsAt(file.data, i), header.version, c, decompress);
      var fout := new ImageFile([]);
      var done := ExtractDtFile(i, fout, c, decompress);
      if done.Err? {
        return Err(done.error);
      }
      SplicedEmpty(x.value);
      r := Ok(fout.data);
    }
  }

  lemma SplicedTwice(data: seq<byte>, a: seq<byte>, b: seq<byte>)
    ensures |Spliced(data, 0, a)| >= |a|
    ensures Spliced(Spliced(data, 0, a), |a|, b) == Spliced(data, 0, a + b)
  {
  }

  lemma SplicedEmpty(bs: seq<byte>)
    ensures Spliced([], 0, bs) == bs
  {
  }

  lemma HeaderLength(h: Header)
    ensures |HeaderWords(h)| == WORDS
  {
  }

  lemma NoRows(fs: seq<Fields>, version: nat)
    ensures TableWords(fs[..0], version) == [] && Words32([]) && Pack([]) == []
  {
  }

  lemma RowStep(fs: seq<Fields>, i: nat, version: nat)
    requires i < |fs|
    ensures |EntryWords(fs[i], version)| == WORDS
    ensures Words32(TableWords(fs[..i], version)) && Words32(EntryWords(fs[i], version)) ==> Words32(TableWords(fs[..i + 1], version))
    ensures Words32(TableWords(fs, version)) ==> Words32(EntryWords(fs[i], version))
    ensures Pack(TableWords(fs[..i + 1], version)) == Pack(TableWords(fs[..i], version)) + Pack(EntryWords(fs[i], version))
  {
    var front, row := TableWords(fs[..i], version), EntryWords(fs[i], version);
    assert fs[..i + 1] == fs[..i] + [fs[i]];
    TableConcat(fs[..i], [fs[i]], version);
    assert TableWords([fs[i]], version) == row;
    PackConcat(front, row);
    TableAt(fs, version, i);
    hide TableWords, EntryWords, Pack;
    assert forall w | w in row :: w in TableWords(fs, version);
  }

  lemma StartPlan(list: seq<DtEntry>, start: nat, c: Codec)
    ensures Dtbo.Placed(list, 0, Plan([], [], [], start)) && Supported(list[..0])
    ensures PlaceAll(Plan([], [], [], start), Sources(list)[0..], c) == Layout(start, Sources(list), c)
  {
    assert Sources(list)[0..] == Sources(list);
  }

  lemma PlaceNone(p: Plan, c: Codec)
    ensures PlaceAll(p, [], c) == p
  {
  }

  lemma SupportedStep(list: seq<DtEntry>, i: nat)
    requires i < |list|
    ensures Supported(list[..i]) && list[i].CompressionInfo() <= 2 ==> Supported(list[..i + 1])
    ensures list[i].CompressionInfo() > 2 ==> !Supported(list)
  {
    assert list[..i + 1] == list[..i] + [list[i]];
    assert list[i] in list;
  }

  lemma GrownTwice(h: Header, n: nat, bytes: nat, more: nat)
    ensures Grown(Grown(h, n, bytes), 1, more) == Grown(h, n + 1, bytes + more)
  {
    assert (n + 1) * h.entrySize == n * h.entrySize + h.entrySize;
  }

  lemma PlaceStep(p: Plan, ss: seq<Source>, i: nat, c: Codec)
    requires i < |ss|
    ensures PlaceAll(p, ss[i..], c) == PlaceAll(Extend(p, ss[i], c), ss[i + 1..], c)
  {
    assert ss[i..][1..] == ss[i + 1..];
  }

  // -------- Whole images --------

  // The image that is written when everything fits, over an empty file.
  method CreateDtboImage(fout: ImageFile, list: seq<DtEntry>, acpi: bool, pageSize: nat, version: nat, c: Codec)
    returns (r: Result<(), Error>, ghost h: Header, ghost fs: seq<Fields>)
    requires fout.data == [] && Distinct(list) && forall e | e in list :: e.version == version <= 1
    modifies fout, list
    ensures pageSize == 0 ==> r == Err(TooShort)
    ensures pageSize != 0 && list == [] ==> r == Err(EmptyList)
    ensures pageSize != 0 && list != [] && !Supported(list) ==> r == Err(BadCompression)
    ensures pageSize != 0 && list != [] && Supported(list) ==>
              var p := Layout(HEADER_SIZE + |list| * ENTRY_SIZE, Sources(list), c);
              && h == Grown(BlankHeader(acpi, pageSize, version), |list|, |p.buf|)
              && PlacedFields(fs, Sources(list), p, version)
              && (forall i | 0 <= i < |fs| :: fs[i] == list[i].numbers.(size := fs[i].size, offset := fs[i].offset))
              && if Words32(HeaderWords(h)) && Words32(TableWords(fs, version))
                 then r.Ok? && IsImage(fout.data, h, fs, Sources(list), c)
                 else r == Err(PackError)
    ensures r.Err? ==> fout.data == []
    ensures r == Err(BadCompression) <==>
              pageSize != 0 && version == 1 && exists e :: e in list && e.numbers.flags % 16 > 2
    ensures r == Err(PackError) <==>
              && pageSize != 0 && list != [] && (version == 1 ==> forall e | e in list :: e.numbers.flags % 16 <= 2)
              && !(&& Layout(32 + 32 * |list|, Sources(list), c).next < 0x1_0000_0000 && pageSize < 0x1_0000_0000
                   && forall e | e in list :: Fits(e.numbers, version))
    ensures r.Ok? && SameFiles(Sources(list)) ==> Describes(fout.data, list, acpi, pageSize, version, c)
  {
    SupportedFlags(list, version);
    h, fs := BlankHeader(acpi, pageSize, version), [];
    var d := new Dtbo(fout);
    r := d.Init(acpi, pageSize, version);
    if r.Err? {
      return;
    }
    r, h, fs := AddAndCommit(d, list, acpi, pageSize, version, c);
    if list != [] && Supported(list) {
      ListFits(h, fs, list, acpi, pageSize, version, c);
      if r.Ok? && SameFiles(Sources(list)) {
        ListDescribed(fout.data, h, fs, list, acpi, pageSize, version,
                      |Layout(HEADER_SIZE + |list| * ENTRY_SIZE, Sources(list), c).buf|, c);
      }
    }
  }

  // The bytes of an image made of this list: its eight header numbers, and for each entry the
  // numbers of its row and the stored file.
  ghost predicate Describes(data: seq<byte>, list: seq<DtEntry>, acpi: bool, pageSize: nat, version: nat, c: Codec) {
    && |data| >= 32
    && WordAt(data, 0) == (if acpi then 0x41435049 else 0xd7b7ab1e) && WordAt(data, 4) == |data|
    && WordAt(data, 8) == 32 && WordAt(data, 12) == 32 && WordAt(data, 16) == |list| && WordAt(data, 20) == 32
    && WordAt(data, 24) == pageSize && WordAt(data, 28) == version
    && forall i | 0 <= i < |list| :: RowHolds(data, i, list[i].numbers, list[i].content, version, c)
  }

  lemma SupportedFlags(list: seq<DtEntry>, version: nat)
    requires forall e | e in list :: e.version == version <= 1
    ensures Supported(list) <==> (version == 1 ==> forall e | e in list :: e.numbers.flags % 16 <= 2)
  {
  }

  lemma {:induction false} ListFits(h: Header, fs: seq<Fields>, list: seq<DtEntry>, acpi: bool, pageSize: nat, version: nat, c: Codec)
    requires var p := Layout(HEADER_SIZE + |list| * ENTRY_SIZE, Sources(list), c);
             && h == Grown(BlankHeader(acpi, pageSize, version), |list|, |p.buf|)
             && PlacedFields(fs, Sources(list), p, version)
    requires forall i | 0 <= i < |fs| :: i < |list| && fs[i] == list[i].numbers.(size := fs[i].size, offset := fs[i].offset)
    requires list != [] && version <= 1
    ensures Words32(HeaderWords(h)) && Words32(TableWords(fs, version)) <==>
              && Layout(32 + 32 * |list|, Sources(list), c).next < 0x1_0000_0000 && pageSize < 0x1_0000_0000
              && forall e | e in list :: Fits(e.numbers, version)
  {
    hide Layout, Words32, HeaderWords, TableWords, FormatOf, PlacedFields, Sources, Fits, Grown, BlankHeader, HeaderOf;
    var ss := Sources(list);
    NextIs(HEADER_SIZE + |list| * ENTRY_SIZE, ss, c);
    SourcesLength(list);
    GrownHeader(acpi, pageSize, version, |list|, |Layout(HEADER_SIZE + |list| * ENTRY_SIZE, ss, c).buf|);
    ImageFits(h, fs, ss, c);
    SameNumbersFit(fs, list, version);
  }

  lemma NextIs(start: nat, ss: seq<Source>, c: Codec)
    ensures Layout(start, ss, c).next == start + |Layout(start, ss, c).buf|
  {
    LayoutTiles(start, ss, c);
    hide Layout, Tiled;
  }

  lemma SourcesLength(list: seq<DtEntry>)
    ensures |Sources(list)| == |list|
  {
  }

  lemma GrownHeader(acpi: bool, pageSize: nat, version: nat, n: nat, bytes: nat)
    requires version <= 1
    ensures var h := Grown(BlankHeader(acpi, pageSize, version), n, bytes);
            HeaderOf(h, n, HEADER_SIZE + n * ENTRY_SIZE + bytes) && h.version == version && h.pageSize == pageSize
  {
  }

  lemma SameNumbersFit(fs: seq<Fields>, list: seq<DtEntry>, version: nat)
    requires |fs| == |list|
    requires forall i | 0 <= i < |fs| :: fs[i] == list[i].numbers.(size := fs[i].size, offset := fs[i].offset)
    ensures (forall i | 0 <= i < |fs| :: Fits(fs[i], version)) <==> forall e | e in list :: Fits(e.numbers, version)
  {
    assert forall i | 0 <= i < |list| :: list[i] in list && (Fits(fs[i], version) <==> Fits(list[i].numbers, version));
    hide Fits;
  }

  lemma ListDescribed(data: seq<byte>, h: Header, fs: seq<Fields>, list: seq<DtEntry>, acpi: bool, pageSize: nat,
                      version: nat, bytes: nat, c: Codec)
    requires IsImage(data, h, fs, Sources(list), c) && SameFiles(Sources(list)) && Supported(list)
    requires h == Grown(BlankHeader(acpi, pageSize, version), |list|, bytes)
    requires forall i | 0 <= i < |fs| :: i < |list| && fs[i] == list[i].numbers.(size := fs[i].size, offset := fs[i].offset)
    ensures Describes(data, list, acpi, pageSize, version, c)
  {
    hide IsImage, SameFiles, WordAt, StoredBytes, Blob;
    ImageHeader(data, h, fs, Sources(list), c);
    forall i | 0 <= i < |list|
      ensures RowHolds(data, i, list[i].numbers, list[i].content, version, c)
    {
      assert list[i] in list;
      ImageRow(data, h, fs, Sources(list), c, i);
    }
  }

  method AddAndCommit(d: Dtbo, list: seq<DtEntry>, acpi: bool, pageSize: nat, version: nat, c: Codec)
    returns (r: Result<(), Error>, ghost h: Header, ghost fs: seq<Fields>)
    requires d.entries == [] && d.header == BlankHeader(acpi, pageSize, version) && d.metadataSize == HEADER_SIZE
    requires d.file.data == [] && Distinct(list) && forall e | e in list :: e.version == version <= 1
    modifies d, d.file, list
    ensures list == [] ==> r == Err(EmptyList)
    ensures list != [] && !Supported(list) ==> r == Err(BadCompression)
    ensures list != [] && Supported(list) ==>
              var p := Layout(HEADER_SIZE + |list| * ENTRY_SIZE, Sources(list), c);
              && h == Grown(BlankHeader(acpi, pageSize, version), |list|, |p.buf|)
              && PlacedFields(fs, Sources(list), p, version)
              && (forall i | 0 <= i < |fs| :: fs[i] == list[i].numbers.(size := fs[i].size, offset := fs[i].offset))
              && if Words32(HeaderWords(h)) && Words32(TableWords(fs, version))
                 then r.Ok? && IsImage(d.file.data, h, fs, Sources(list), c)
                 else r == Err(PackError)
    ensures r.Err? ==> d.file.data == []
  {
    hide Layout, Words32, TableWords, HeaderWords, Metadata, IsImage, Spliced, Distinct, Supported, PlacedFields, Sources;
    h, fs := d.header, [];
    var buf := d.AddDtEntries(list, c);
    if buf.Err? {
      return Err(buf.error), h, fs;
    }
    assert list[0] in list;
    h, fs := d.header, d.Table();
    PlacedTable(list, fs, Layout(HEADER_SIZE + |list| * ENTRY_SIZE, Sources(list), c), version);
    r := d.Commit(buf.result);
    if r.Ok? {
      SplicedEmpty(Metadata(h, fs) + buf.result);
      WrittenIsImage(h, fs, Sources(list), c, acpi, pageSize);
    }
  }

  lemma PlacedTable(list: seq<DtEntry>, fs: seq<Fields>, p: Plan, version: nat)
    requires Dtbo.Placed(list, |list|, p) && |fs| == |list|
    requires forall i | 0 <= i < |list| :: list[i].version == version && fs[i] == list[i].Fields()
    ensures |Sources(list)| == |list| && PlacedFields(fs, Sources(list), p, version)
  {
  }

  lemma WrittenIsImage(h: Header, fs: seq<Fields>, ss: seq<Source>, c: Codec, acpi: bool, pageSize: nat)
    requires var p := Layout(HEADER_SIZE + |ss| * ENTRY_SIZE, ss, c);
             PlacedFields(fs, ss, p, h.version) && h == Grown(BlankHeader(acpi, pageSize, h.version), |ss|, |p.buf|)
    requires h.version <= 1 && Words32(HeaderWords(h)) && Words32(TableWords(fs, h.version))
    ensures IsImage(Metadata(h, fs) + Layout(HEADER_SIZE + |ss| * ENTRY_SIZE, ss, c).buf, h, fs, ss, c)
  {
    MetadataSize(h, fs);
    hide Layout, Words32, TableWords, HeaderWords, Metadata;
  }

  // Reads an image and extracts every entry.
  method DumpDtboImage(fin: ImageFile, c: Codec, decompress: bool) returns (r: Result<seq<seq<byte>>, Error>)
    modifies fin`pos
    ensures r.Ok? <==> Readable(fin.data) &&
                       forall i | 0 <= i < HeaderAt(fin.data).entryCount ::
                         Extracted(fin.data, FieldsAt(fin.data, i), HeaderAt(fin.data).version, c, decompress).Some?
    ensures r.Ok? ==>
              && |r.result| == HeaderAt(fin.data).entryCount
              && forall i | 0 <= i < |r.result| ::
                   Extracted(fin.data, FieldsAt(fin.data, i), HeaderAt(fin.data).version, c, decompress) == Some(r.result[i])
  {
    var d := new Dtbo(fin);
    var read := d.Init(false, 0, 0);
    if read.Err? {
      return Err(read.error);
    }
    var outputs := [];
    hide FieldsAt, Extracted, HeaderAt, Readable;
    for i := 0 to |d.entries|
      invariant d.HasRead() && |outputs| == i
      invariant forall j | 0 <= j < i ::
                  Extracted(fin.data, FieldsAt(fin.data, j), HeaderAt(fin.data).version, c, decompress) == Some(outputs[j])
    {
      var x := d.ExtractToNewFile(i, c, decompress);
      if x.Err? {
        return Err(x.error);
      }
      outputs := outputs + [x.result];
    }
    r := Ok(outputs);
  }
}
