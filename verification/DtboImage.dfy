/** Files and entries of DTBO images, and what it means for a file to be the image of a list of
    device tree files. */
module DtboImage {
  import opened Options
  import opened Bytes
  import opened NumberText
  import opened DtboLayout
  import opened DtboWords

  datatype Error =
    | EmptyList | AlreadyAdded | NoEntries | BadCompression | PackError
    | TooShort | BadMagic | BadHeaderSize | BadEntrySize | BadOffset
    | BadVersion | MissingKeys | BadNumber | BadIndex

  // A read of n bytes ends at the end of the file.
  function Range(data: seq<byte>, from: nat, n: nat): seq<byte> {
    if from + n <= |data| then data[from..from + n] else if from <= |data| then data[from..] else []
  }

  // What a write leaves, inside the file or at its end.
  function Spliced(data: seq<byte>, at: nat, bs: seq<byte>): seq<byte>
    requires at <= |data|
  {
    data[..at] + bs + if at + |bs| <= |data| then data[at + |bs|..] else []
  }

  class ImageFile {
    var data: seq<byte>
    var pos: nat

    constructor (data: seq<byte>)
      ensures this.data == data && pos == 0
    {
      this.data, pos := data, 0;
    }

    method Seek(pos: nat)
      modifies this`pos
      ensures this.pos == pos
    {
      this.pos := pos;
    }

    method Read(n: nat) returns (bs: seq<byte>)
      modifies this`pos
      ensures bs == Range(data, old(pos), n) && pos == old(pos) + |bs|
    {
      bs := Range(data, pos, n);
      pos := pos + |bs|;
    }

    method Write(bs: seq<byte>)
      requires pos <= |data|
      modifies this
      ensures data == Spliced(old(data), old(pos), bs) && pos == old(pos) + |bs|
    {
      data := Spliced(data, pos, bs);
      pos := pos + |bs|;
    }
  }

  const KEYS_V0: seq<string> := ["id", "rev", "custom0", "custom1", "custom2", "custom3"]
  const KEYS_V1: seq<string> := ["id", "rev", "flags", "custom0", "custom1", "custom2"]

  function Keys(version: nat): seq<string> {
    if version == 0 then KEYS_V0 else KEYS_V1
  }

  predicate Parses(args: map<string, string>, key: string) {
    key in args && ParseNumber(args[key]).Some?
  }

  function Number(args: map<string, string>, key: string): nat
    requires Parses(args, key)
  {
    ParseNumber(args[key]).value
  }

  function FieldsFrom(version: nat, size: nat, offset: nat, args: map<string, string>): Fields
    requires forall k | k in Keys(version) :: Parses(args, k)
  {
    assert forall i | 0 <= i < 6 :: Keys(version)[i] in Keys(version);
    assert Keys(version) == if version == 0 then KEYS_V0 else KEYS_V1;
    if version == 0 then
      assert KEYS_V0[0] == "id" && KEYS_V0[1] == "rev" && KEYS_V0[2] == "custom0";
      assert KEYS_V0[3] == "custom1" && KEYS_V0[4] == "custom2" && KEYS_V0[5] == "custom3";
      Fields(size, offset, Number(args, "id"), Number(args, "rev"), 0, Number(args, "custom0"),
             Number(args, "custom1"), Number(args, "custom2"), Number(args, "custom3"))
    else
      assert KEYS_V1[0] == "id" && KEYS_V1[1] == "rev" && KEYS_V1[2] == "flags";
      assert KEYS_V1[3] == "custom0" && KEYS_V1[4] == "custom1" && KEYS_V1[5] == "custom2";
      Fields(size, offset, Number(args, "id"), Number(args, "rev"), Number(args, "flags"), Number(args, "custom0"),
             Number(args, "custom1"), Number(args, "custom2"), 0)
  }

  // The low four bits of the flags.
  function FormatOf(f: Fields, version: nat): nat {
    if version == 0 then 0 else f.flags % 16
  }

  // path and content are those of the backing file, if the entry has one.
  class DtEntry {
    const version: nat
    const path: string
    const content: seq<byte>
    const numbers: Fields
    var size: nat
    var dtOffset: nat

    constructor (version: nat, path: string, content: seq<byte>, numbers: Fields)
      ensures this.version == version && this.path == path && this.content == content && this.numbers == numbers
      ensures size == numbers.size && dtOffset == numbers.offset
    {
      this.version, this.path, this.content, this.numbers := version, path, content, numbers;
      size, dtOffset := numbers.size, numbers.offset;
    }

    function Fields(): Fields
      reads this
    {
      numbers.(size := size, offset := dtOffset)
    }

    function CompressionInfo(): nat {
      FormatOf(numbers, version)
    }

    function Source(): Source {
      DtboLayout.Source(path, CompressionInfo(), content)
    }
  }

  lemma AllKeys(version: nat, args: map<string, string>)
    ensures (forall k | k in Keys(version) :: Parses(args, k)) <==>
            && Parses(args, "id") && Parses(args, "rev")
            && Parses(args, "custom0") && Parses(args, "custom1") && Parses(args, "custom2")
            && Parses(args, if version == 0 then "custom3" else "flags")
  {
    hide Parses;
    assert forall k :: k in KEYS_V0 <==> k == "id" || k == "rev" || k == "custom0" || k == "custom1" || k == "custom2" || k == "custom3";
    assert forall k :: k in KEYS_V1 <==> k == "id" || k == "rev" || k == "flags" || k == "custom0" || k == "custom1" || k == "custom2";
  }

  // An entry from its arguments' text.
  method NewEntry(version: nat, path: string, content: seq<byte>, size: nat, offset: nat, args: map<string, string>)
    returns (r: Result<DtEntry, Error>)
    ensures r.Ok? <==> version <= 1 && forall k | k in Keys(version) :: Parses(args, k)
    ensures r.Ok? ==>
              && fresh(r.result) && r.result.version == version && r.result.path == path && r.result.content == content
              && r.result.Fields() == FieldsFrom(version, size, offset, args)
              && r.result.numbers == r.result.Fields()
    ensures r.Ok? <==>
              && (version == 0 || version == 1)
              && Parses(args, "id") && Parses(args, "rev")
              && Parses(args, "custom0") && Parses(args, "custom1") && Parses(args, "custom2")
              && Parses(args, if version == 0 then "custom3" else "flags")
    ensures r.Ok? ==>
              var n := r.result.Fields();
              && n.size == size && n.offset == offset
              && n.id == Number(args, "id") && n.rev == Number(args, "rev")
              && n.custom0 == Number(args, "custom0") && n.custom1 == Number(args, "custom1") && n.custom2 == Number(args, "custom2")
              && (version == 0 ==> n.custom3 == Number(args, "custom3"))
              && (version == 1 ==> n.flags == Number(args, "flags"))
  {
    AllKeys(version, args);
    if version > 1 {
      return Err(BadVersion);
    }
    var keys := Keys(version);
    for i := 0 to |keys|
      invariant forall j | 0 <= j < i :: keys[j] in args
    {
      if keys[i] !in args {
        assert !Parses(args, keys[i]);
        return Err(MissingKeys);
      }
    }
    for i := 0 to |keys|
      invariant forall j | 0 <= j < i :: Parses(args, keys[j])
    {
      if ParseNumber(args[keys[i]]).None? {
        assert !Parses(args, keys[i]);
        return Err(BadNumber);
      }
    }
    assert forall k | k in keys :: Parses(args, k);
    var e := new DtEntry(version, path, content, FieldsFrom(version, size, offset, args));
    r := Ok(e);
  }

  // The text arguments for one row of the table: its numbers printed in decimal.
  function RowArgs(row: seq<nat>, version: nat): map<string, string>
    requires |row| == WORDS
  {
    var ks := Keys(version);
    map[ks[0] := Decimal(row[2])][ks[1] := Decimal(row[3])][ks[2] := Decimal(row[4])]
       [ks[3] := Decimal(row[5])][ks[4] := Decimal(row[6])][ks[5] := Decimal(row[7])]
  }

  lemma KeysDistinct(version: nat)
    ensures |Keys(version)| == 6
    ensures forall i, j | 0 <= i < j < 6 :: Keys(version)[i] != Keys(version)[j]
  {
    var c: seq<string> := ["custom0", "custom1", "custom2", "custom3"];
    assert c[0][6] == '0' && c[1][6] == '1' && c[2][6] == '2' && c[3][6] == '3';
    assert |"id"| == 2 && |"rev"| == 3 && |"flags"| == 5;
  }

  lemma RowArgsAt(row: seq<nat>, version: nat, i: nat)
    requires |row| == WORDS && i < 6
    ensures |Keys(version)| == 6
    ensures Keys(version)[i] in RowArgs(row, version) && RowArgs(row, version)[Keys(version)[i]] == Decimal(row[i + 2])
  {
    KeysDistinct(version);
    hide Keys, Decimal;
  }

  lemma RowArgParses(row: seq<nat>, version: nat, i: nat)
    requires |row| == WORDS && i < 6
    ensures |Keys(version)| == 6
    ensures Parses(RowArgs(row, version), Keys(version)[i]) && Number(RowArgs(row, version), Keys(version)[i]) == row[i + 2]
  {
    RowArgsAt(row, version, i);
    ParsePrinted(row[i + 2]);
    hide RowArgs, Keys, Decimal, ParseNumber;
  }

  // A row survives being printed and parsed again.
  lemma RowArgsParse(row: seq<nat>, version: nat)
    requires |row| == WORDS
    ensures forall k | k in Keys(version) :: Parses(RowArgs(row, version), k)
    ensures FieldsFrom(version, row[0], row[1], RowArgs(row, version)) == FieldsOf(row, version)
  {
    hide RowArgs, ParseNumber, Parses, Number;
    RowArgParses(row, version, 0);
    RowArgParses(row, version, 1);
    RowArgParses(row, version, 2);
    RowArgParses(row, version, 3);
    RowArgParses(row, version, 4);
    RowArgParses(row, version, 5);
  }

  // -------- Images --------

  // The fields of the placed entries.
  ghost predicate PlacedFields(fs: seq<Fields>, ss: seq<Source>, p: Plan, version: nat) {
    && |fs| == |ss| == |p.entries|
    && forall i | 0 <= i < |fs| ::
         && fs[i].offset == p.entries[i].offset && fs[i].size == p.entries[i].size
         && FormatOf(fs[i], version) == ss[i].format
  }

  ghost predicate HeaderOf(h: Header, n: nat, size: nat) {
    && (h.magic == DTBO_MAGIC || h.magic == ACPIO_MAGIC) && h.version <= 1
    && h.headerSize == HEADER_SIZE && h.entrySize == ENTRY_SIZE && h.entriesOffset == HEADER_SIZE
    && h.entryCount == n && h.totalSize == size
  }

  // data is the image of the sources ss, with these header and table fields.
  ghost predicate IsImage(data: seq<byte>, h: Header, fs: seq<Fields>, ss: seq<Source>, c: Codec) {
    var p := Layout(HEADER_SIZE + |ss| * ENTRY_SIZE, ss, c);
    && HeaderOf(h, |ss|, |data|)
    && Words32(HeaderWords(h)) && Words32(TableWords(fs, h.version))
    && PlacedFields(fs, ss, p, h.version)
    && data == Metadata(h, fs) + p.buf
  }

  function Decode(c: Codec, format: nat, blob: seq<byte>): seq<byte> {
    if format == 0 then blob else c.decompress(blob)
  }

  lemma RangeBehind(front: seq<byte>, buf: seq<byte>, e: Placed, s: Source, c: Codec)
    requires Lies(e, s, buf, |front|, c)
    ensures |front| <= e.offset && e.offset + e.size <= |front + buf|
    ensures (front + buf)[e.offset..e.offset + e.size] == Blob(c, s)
  {
    hide Blob;
    var from, to := e.offset - |front|, e.offset - |front| + e.size;
    assert (front + buf)[e.offset..e.offset + e.size] == buf[from..to];
  }

  lemma MetadataSize(h: Header, fs: seq<Fields>)
    ensures |Metadata(h, fs)| == HEADER_SIZE + |fs| * ENTRY_SIZE
  {
    TableSize(fs, h.version);
    hide TableWords;
  }

  // Each entry's range of an image holds its blob, which decodes to the file's bytes.
  lemma ImageHolds(data: seq<byte>, h: Header, fs: seq<Fields>, ss: seq<Source>, c: Codec, i: nat)
    requires IsImage(data, h, fs, ss, c) && SameFiles(ss) && i < |ss|
    ensures fs[i].offset + fs[i].size <= |data|
    ensures data[fs[i].offset..fs[i].offset + fs[i].size] == Blob(c, ss[i])
    ensures Inverse(c) && ss[i].format <= 2 ==> Decode(c, ss[i].format, Blob(c, ss[i])) == ss[i].content
  {
    hide Layout, TableWords, Words32, SameFiles, Metadata, Lies;
    MetadataSize(h, fs);
    LayoutHolds(HEADER_SIZE + |ss| * ENTRY_SIZE, ss, c);
    var p := Layout(HEADER_SIZE + |ss| * ENTRY_SIZE, ss, c);
    RangeBehind(Metadata(h, fs), p.buf, p.entries[i], ss[i], c);
  }

  // The file ends where the tiling of the blobs ends.
  lemma ImageSize(data: seq<byte>, h: Header, fs: seq<Fields>, ss: seq<Source>, c: Codec)
    requires IsImage(data, h, fs, ss, c)
    ensures |data| == Layout(HEADER_SIZE + |ss| * ENTRY_SIZE, ss, c).next
  {
    LayoutTiles(HEADER_SIZE + |ss| * ENTRY_SIZE, ss, c);
    MetadataSize(h, fs);
    hide Layout, TableWords, Words32, Metadata;
  }
}
