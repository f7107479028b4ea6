/** The header and the entry table of a DTBO image as big-endian 32-bit words. */
module DtboWords {
  import opened Bytes

  const DTBO_MAGIC: nat := 0xd7b7ab1e
  const ACPIO_MAGIC: nat := 0x41435049
  const HEADER_SIZE: nat := 32
  const ENTRY_SIZE: nat := 32
  const WORDS: nat := 8
  const WORD: nat := 0x1_0000_0000

  datatype Header = Header(magic: nat, totalSize: nat, headerSize: nat, entrySize: nat, entryCount: nat,
                           entriesOffset: nat, pageSize: nat, version: nat)

  function HeaderWords(h: Header): seq<nat> {
    [h.magic, h.totalSize, h.headerSize, h.entrySize, h.entryCount, h.entriesOffset, h.pageSize, h.version]
  }

  // flags exists in version 1 only, custom3 in version 0 only.
  datatype Fields = Fields(size: nat, offset: nat, id: nat, rev: nat, flags: nat,
                           custom0: nat, custom1: nat, custom2: nat, custom3: nat)

  function EntryWords(f: Fields, version: nat): seq<nat> {
    if version == 0 then [f.size, f.offset, f.id, f.rev, f.custom0, f.custom1, f.custom2, f.custom3]
    else [f.size, f.offset, f.id, f.rev, f.flags, f.custom0, f.custom1, f.custom2]
  }

  function TableWords(fs: seq<Fields>, version: nat): seq<nat> {
    if fs == [] then [] else EntryWords(fs[0], version) + TableWords(fs[1..], version)
  }

  function Pack(ws: seq<nat>): (bs: seq<byte>)
    ensures |bs| == 4 * |ws|
  {
    if ws == [] then [] else ToBE(ws[0], 4) + Pack(ws[1..])
  }

  function Unpack(bs: seq<byte>): (ws: seq<nat>)
    ensures |ws| == |bs| / 4
  {
    if |bs| < 4 then [] else [FromBE(bs[..4])] + Unpack(bs[4..])
  }

  ghost predicate Words32(ws: seq<nat>) {
    forall w | w in ws :: w < WORD
  }

  lemma {:induction false} UnpackPack(ws: seq<nat>)
    requires Words32(ws)
    ensures Unpack(Pack(ws)) == ws
  {
    if ws != [] {
      assert ws[0] in ws && forall w | w in ws[1..] :: w in ws;
      Widths();
      RoundTripBE(ws[0], 4);
      var bs := Pack(ws);
      assert bs[..4] == ToBE(ws[0], 4) && bs[4..] == Pack(ws[1..]);
      UnpackPack(ws[1..]);
    }
  }

  lemma {:induction false} PackConcat(a: seq<nat>, b: seq<nat>)
    ensures Pack(a + b) == Pack(a) + Pack(b)
  {
    if a == [] {
      assert a + b == b && Pack(a) + Pack(b) == Pack(b);
    } else {
      assert (a + b)[1..] == a[1..] + b;
      PackConcat(a[1..], b);
      assert ToBE(a[0], 4) + (Pack(a[1..]) + Pack(b)) == (ToBE(a[0], 4) + Pack(a[1..])) + Pack(b);
    }
  }

  lemma TableSize(fs: seq<Fields>, version: nat)
    ensures |TableWords(fs, version)| == WORDS * |fs|
  {
  }

  lemma TableConcat(a: seq<Fields>, b: seq<Fields>, version: nat)
    ensures TableWords(a + b, version) == TableWords(a, version) + TableWords(b, version)
  {
    if a == [] {
      assert a + b == b;
    } else {
      assert (a + b)[1..] == a[1..] + b;
      TableConcat(a[1..], b, version);
      assert EntryWords(a[0], version) + (TableWords(a[1..], version) + TableWords(b, version)) ==
             (EntryWords(a[0], version) + TableWords(a[1..], version)) + TableWords(b, version);
    }
  }

  lemma TableHead(f: Fields, fs: seq<Fields>, version: nat)
    ensures TableWords([f] + fs, version) == EntryWords(f, version) + TableWords(fs, version)
  {
    assert ([f] + fs)[1..] == fs;
  }

  lemma Middle(a: seq<nat>, b: seq<nat>, c: seq<nat>)
    ensures (a + (b + c))[|a|..|a| + |b|] == b
  {
  }

  lemma TableAt(fs: seq<Fields>, version: nat, i: nat)
    requires i < |fs|
    ensures WORDS * (i + 1) <= |TableWords(fs, version)|
    ensures TableWords(fs, version)[WORDS * i..WORDS * i + WORDS] == EntryWords(fs[i], version)
  {
    TableSize(fs, version);
    TableSize(fs[..i], version);
    assert fs == fs[..i] + ([fs[i]] + fs[i + 1..]);
    TableConcat(fs[..i], [fs[i]] + fs[i + 1..], version);
    TableHead(fs[i], fs[i + 1..], version);
    hide TableWords;
    Middle(TableWords(fs[..i], version), EntryWords(fs[i], version), TableWords(fs[i + 1..], version));
  }

  // The whole metadata: header, then table.
  function Metadata(h: Header, fs: seq<Fields>): seq<byte> {
    Pack(HeaderWords(h)) + Pack(TableWords(fs, h.version))
  }

  // What the table keeps of an entry.
  function Stored(f: Fields, version: nat): Fields {
    if version == 0 then f.(flags := 0) else f.(custom3 := 0)
  }

  function FieldsOf(ws: seq<nat>, version: nat): Fields
    requires |ws| == WORDS
  {
    if version == 0 then Fields(ws[0], ws[1], ws[2], ws[3], 0, ws[4], ws[5], ws[6], ws[7])
    else Fields(ws[0], ws[1], ws[2], ws[3], ws[4], ws[5], ws[6], ws[7], 0)
  }

  lemma FieldsRoundTrip(f: Fields, version: nat)
    ensures FieldsOf(EntryWords(f, version), version) == Stored(f, version)
  {
  }
}
