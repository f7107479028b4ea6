/** The allow list in memory: the list of profiles, a bitmap for small uids and an overflow
    array for the others. View is the state it stands for. */
module AllowList {
  import opened Bytes
  import opened AllowState
  import opened AllowRuns
  import opened AllowFile

  const PAGE_SIZE: nat := 4096

  // What the cells past the array pointer hold: -1 as an unsigned word.
  const FILLER: nat := 0xFFFF_FFFF

  function Mask(k: nat): (m: bv8)
    requires k < 8
    ensures m == 1 << k
  {
    if k == 0 then 1 else if k == 1 then 2 else if k == 2 then 4 else if k == 3 then 8
    else if k == 4 then 16 else if k == 5 then 32 else if k == 6 then 64 else 128
  }

  predicate Bit(b: bv8, k: nat)
    requires k < 8
  {
    b & Mask(k) != 0
  }

  function WriteBit(b: bv8, k: nat, on: bool): bv8
    requires k < 8
  {
    if on then b | Mask(k) else b & !Mask(k)
  }

  lemma BitUpdate(b: bv8, j: nat, on: bool, k: nat)
    requires j < 8 && k < 8
    ensures Bit(WriteBit(b, j, on), k) <==> if j == k then on else Bit(b, k)
  {
  }

  ghost function BitsOf(bitmap: seq<bv8>): set<nat>
    requires |bitmap| == PAGE_SIZE
  {
    set u: nat | 0 <= u < 8 * PAGE_SIZE && Bit(bitmap[u / 8], u % 8)
  }

  lemma BitAfter(before: bv8, after: bv8, uid: nat, on: bool, u: nat)
    requires after == WriteBit(before, uid % 8, on) && u / 8 == uid / 8
    ensures Bit(after, u % 8) <==> if u == uid then on else Bit(before, u % 8)
  {
    hide Bit, WriteBit;
    BitUpdate(before, uid % 8, on, u % 8);
  }

  lemma BitsUpdate(a: seq<bv8>, b: seq<bv8>, uid: nat, on: bool)
    requires |a| == |b| == PAGE_SIZE && uid < 8 * PAGE_SIZE
    requires b[uid / 8] == WriteBit(a[uid / 8], uid % 8, on)
    requires forall i | 0 <= i < PAGE_SIZE && i != uid / 8 :: b[i] == a[i]
    ensures BitsOf(b) == if on then BitsOf(a) + {uid} else BitsOf(a) - {uid}
  {
    hide Bit, WriteBit;
    forall u: nat | u < 8 * PAGE_SIZE
      ensures Bit(b[u / 8], u % 8) <==> if u == uid then on else Bit(a[u / 8], u % 8)
    {
      if u / 8 == uid / 8 { BitAfter(a[u / 8], b[u / 8], uid, on, u); }
    }
  }

  lemma WithoutConcat(a: seq<nat>, c: nat, uid: nat)
    ensures Without(a + [c], uid) == Without(a, uid) + if c == uid then [] else [c]
  {
    if a == [] {
      assert a + [c] == [c];
    } else {
      assert (a + [c])[1..] == a[1..] + [c];
      WithoutConcat(a[1..], c, uid);
    }
  }

  lemma WithoutNone(uid: nat)
    ensures Without([], uid) == []
  {
  }

  class AllowList {
    var list: seq<Profile>
    var bitmap: array<bv8>
    var cells: array<nat>
    var pointer: nat
    var nonRoot: bool
    var root: RootProfile

    ghost predicate Valid()
      reads this, cells
    {
      && bitmap.Length == PAGE_SIZE && cells.Length == ARRAY_SIZE && pointer <= ARRAY_SIZE
      && forall i | pointer <= i < ARRAY_SIZE :: cells[i] == FILLER
    }

    ghost function View(): State
      requires Valid()
      reads this, bitmap, cells
    {
      State(list, BitsOf(bitmap[..]), cells[..pointer], nonRoot, root)
    }

    constructor ()
      ensures Valid() && View() == INITIAL && fresh(bitmap) && fresh(cells)
      ensures View().list == [] && View().bits == {} && View().cells == [] && View().nonRoot
      ensures var r := View().root;
              && r.uid == 0 && r.gid == 0 && r.groupsCount == 1 && |r.groups| == 32 && (forall g | g in r.groups :: g == 0)
              && r.capabilities == (0x1FF_FFFF_FFFF, 0, 0) && r.domain == "u:r:su:s0" && r.namespaces == 0
    {
      list, pointer, nonRoot, root := [], 0, true, DEFAULT_ROOT;
      bitmap := new bv8[PAGE_SIZE](_ => 0);
      cells := new nat[ARRAY_SIZE](_ => FILLER);
      new;
      assert BitsOf(bitmap[..]) == {};
    }

    // The live cells without uid, packed at the front of a new array.
    method Packed(uid: nat) returns (temp: array<nat>, j: nat)
      requires Valid()
      ensures fresh(temp) && temp.Length == ARRAY_SIZE && j <= pointer
      ensures temp[..j] == Without(cells[..pointer], uid)
    {
      hide Without;
      temp := new nat[ARRAY_SIZE](_ => 0);
      j := 0;
      assert cells[..0] == [];
      WithoutNone(uid);
      for i := 0 to pointer
        invariant j <= i && temp[..j] == Without(cells[..i], uid)
      {
        WithoutConcat(cells[..i], cells[i], uid);
        assert cells[..i + 1] == cells[..i] + [cells[i]];
        if cells[i] != uid {
          temp[j] := cells[i];
          j := j + 1;
        }
      }
    }

    method RemoveUidFromArr(uid: nat)
      requires Valid()
      modifies this`pointer, cells
      ensures Valid()
      ensures View() == old(View()).(cells := Without(old(View()).cells, uid))
    {
      if pointer == 0 {
        return;
      }
      hide BitsOf, Without;
      var temp, j := Packed(uid);
      ghost var live := temp[..j];
      pointer := j;
      while j < ARRAY_SIZE
        invariant pointer <= j <= ARRAY_SIZE
        invariant temp[..pointer] == live
        invariant forall i | pointer <= i < j :: temp[i] == FILLER
      {
        temp[j] := FILLER;
        j := j + 1;
      }
      forall i | 0 <= i < ARRAY_SIZE {
        cells[i] := temp[i];
      }
      assert cells[..pointer] == live;
    }

    method SetBit(uid: nat, allow: bool)
      requires Valid() && uid <= BITMAP_UID_MAX
      modifies bitmap
      ensures Valid()
      ensures View() == old(View()).(bits := if allow then old(View()).bits + {uid} else old(View()).bits - {uid})
    {
      hide BitsOf, WriteBit;
      bitmap[uid / 8] := WriteBit(bitmap[uid / 8], uid % 8, allow);
      BitsUpdate(old(bitmap[..]), bitmap[..], uid, allow);
    }

    // Replaces the entry with this uid and key, or appends one.
    method StoreEntry(p: Profile)
      requires Valid()
      modifies this`list
      ensures Valid() && View() == old(View()).(list := Store(old(list), p))
    {
      hide BitsOf;
      var i := 0;
      while i < |list| && !(list[i].uid == p.uid && list[i].key == p.key)
        invariant 0 <= i <= |list|
        invariant forall j | 0 <= j < i :: !(list[j].uid == p.uid && list[j].key == p.key)
      {
        i := i + 1;
      }
      list := if i < |list| then list[i := p] else list + [p];
      assert list == Store(old(list), p);
    }

    // Enters the decision into the bitmap or the array, which may be full.
    method IndexDecision(p: Profile) returns (ok: bool)
      requires Valid()
      modifies this`pointer, bitmap, cells
      ensures Valid()
      ensures ok <==> !Overflows(old(View()), p)
      ensures View() == if ok then Decided(old(View()), p) else old(View())
    {
      hide BitsOf, Without;
      ok := true;
      if p.uid <= BITMAP_UID_MAX {
        SetBit(p.uid, p.allowSu);
      } else if p.allowSu {
        if pointer >= ARRAY_SIZE {
          return false;
        }
        cells[pointer] := p.uid;
        pointer := pointer + 1;
        assert cells[..pointer] == old(cells[..pointer]) + [p.uid];
      } else {
        RemoveUidFromArr(p.uid);
      }
    }

    // Saving the list in the background is not part of this state.
    method SetAppProfile(p: Profile) returns (ok: bool)
      requires Valid()
      modifies this, bitmap, cells
      ensures Valid() && bitmap == old(bitmap) && cells == old(cells)
      ensures ok <==> Succeeds(old(View()), p)
      ensures View() == SetProfile(old(View()), p)
    {
      hide BitsOf, Without, Store, ProfileValid;
      if !ProfileValid(p) {
        return false;
      }
      StoreEntry(p);
      ok := IndexDecision(p);
      if !ok {
        return;
      }
      if p.key == "$" {
        nonRoot := p.config.umountModules;
      }
      if p.key == "#" {
        root := p.config.rootProfile;
      }
    }

    method AllowUid(uid: nat, manager: nat, inKsuDomain: bool) returns (allowed: bool)
      requires Valid()
      ensures allowed <==> IsAllowUid(View(), uid, manager, inKsuDomain)
    {
      if uid == 0 {
        return inKsuDomain;
      }
      if ForbidSystemUid(uid) {
        return false;
      }
      if manager != INVALID_UID && manager == uid {
        return true;
      }
      if uid <= BITMAP_UID_MAX {
        return Bit(bitmap[uid / 8], uid % 8);
      }
      for i := 0 to pointer
        invariant uid !in cells[..i]
      {
        if cells[i] == uid {
          assert cells[..pointer][i] == uid;
          return true;
        }
      }
      allowed := false;
    }

    method UidShouldUmount(uid: nat, manager: nat) returns (umount: bool)
      requires Valid()
      ensures umount <==> ShouldUmount(View(), uid, manager)
    {
      if manager != INVALID_UID && manager == uid {
        return false;
      }
      var i := 0;
      while i < |list| && list[i].uid != uid
        invariant 0 <= i <= |list|
        invariant FirstOf(list, uid) == FirstOf(list[i..], uid)
      {
        i := i + 1;
      }
      if i == |list| {
        return nonRoot;
      }
      var p := list[i];
      if p.allowSu {
        return false;
      }
      umount := if p.config.useDefault then nonRoot else p.config.umountModules;
    }

    method Deindex(uid: nat)
      requires Valid()
      modifies this`pointer, bitmap, cells
      ensures Valid() && View() == Unindex(old(View()), uid)
    {
      hide BitsOf, Without;
      NoHighBits(bitmap[..]);
      if uid <= BITMAP_UID_MAX {
        SetBit(uid, false);
      }
      RemoveUidFromArr(uid);
    }

    method PruneAllowlist(valid: UidCheck)
      requires Valid()
      modifies this, bitmap, cells
      ensures Valid() && bitmap == old(bitmap) && cells == old(cells)
      ensures View() == Prune(old(View()), valid)
    {
      hide BitsOf, Without, PruneFrom, Unindex, Kept;
      var i := 0;
      while i < |list|
        invariant 0 <= i <= |list|
        invariant Valid() && bitmap == old(bitmap) && cells == old(cells)
        invariant PruneFrom(View(), i, valid) == Prune(old(View()), valid)
        decreases |list| - i
      {
        var uid, key := list[i].uid, list[i].key;
        assert Kept(list[i], valid) <==> uid == PRESERVED_UID || valid(uid, key) by { KeptMeans(list[i], valid); }
        PruneStep(View(), i, valid);
        if uid != PRESERVED_UID && !valid(uid, key) {
          ghost var before := View();
          list := list[..i] + list[i + 1..];
          Deindex(uid);
          UnindexOfList(before, uid, list);
        } else {
          i := i + 1;
        }
      }
      PruneStep(View(), i, valid);
    }

    method DoSaveAllowList(l: Layout) returns (file: seq<byte>)
      requires Valid() && l.size > 0
      ensures file == Save(View(), l)
    {
      file := ToLE(FILE_MAGIC, 4);
      file := file + ToLE(FILE_FORMAT_VERSION, 4);
      ghost var header := file;
      assert list[..0] == [] && header + [] == header;
      for i := 0 to |list|
        invariant file == header + Records(list[..i], l)
      {
        RecordsConcat(list[..i], list[i], l);
        assert list[..i + 1] == list[..i] + [list[i]];
        file := file + l.encode(list[i]);
      }
      assert list[..|list|] == list;
    }

    // stale is what the record buffer holds where the file cuts a record short.
    method DoLoadAllowList(file: seq<byte>, l: Layout, stale: seq<byte>)
      requires Valid() && l.size == |stale| > 0
      modifies this, bitmap, cells
      ensures Valid() && bitmap == old(bitmap) && cells == old(cells)
      ensures View() == Load(old(View()), file, l, stale)
    {
      hide BitsOf;
      if |file| < 4 || FromLE(file[..4]) != FILE_MAGIC {
        return;
      }
      if |file| < 8 {
        return;
      }
      var off := 8;
      while off < |file|
        invariant 8 <= off <= |file|
        invariant Valid() && bitmap == old(bitmap) && cells == old(cells)
        invariant LoadRecords(View(), file[off..], l, stale) == Load(old(View()), file, l, stale)
      {
        hide SetProfile, LoadRecords, Load;
        LoadStep(View(), file[off..], l, stale);
        var n := if off + l.size <= |file| then l.size else |file| - off;
        assert file[off..][..n] == file[off..off + n] && file[off..][n..] == file[off + n..];
        var _ := SetAppProfile(l.decode(file[off..off + n] + stale[n..]));
        off := off + n;
      }
    }
  }

  lemma LoadStep(st: State, file: seq<byte>, l: Layout, stale: seq<byte>)
    requires l.size == |stale| > 0 && file != []
    ensures var n := if |file| < l.size then |file| else l.size;
            LoadRecords(st, file, l, stale) == LoadRecords(SetProfile(st, l.decode(file[..n] + stale[n..])), file[n..], l, stale)
  {
    hide SetProfile;
    if |file| < l.size {
      assert file[..|file|] == file && file[|file|..] == [];
    } else {
      assert file[..l.size] + stale[l.size..] == file[..l.size];
    }
  }

  lemma UnindexOfList(st: State, uid: nat, list: seq<Profile>)
    ensures Unindex(st.(list := list), uid) == Unindex(st, uid).(list := list)
  {
  }

  lemma KeptMeans(p: Profile, valid: UidCheck)
    ensures Kept(p, valid) <==> p.uid == PRESERVED_UID || valid(p.uid, p.key)
  {
  }

  lemma NoHighBits(bitmap: seq<bv8>)
    requires |bitmap| == PAGE_SIZE
    ensures forall u | u > BITMAP_UID_MAX :: u !in BitsOf(bitmap) && BitsOf(bitmap) - {u} == BitsOf(bitmap)
  {
  }

  lemma RecordsConcat(a: seq<Profile>, p: Profile, l: Layout)
    ensures Records(a + [p], l) == Records(a, l) + l.encode(p)
  {
    if a == [] {
      assert a + [p] == [p];
      assert [p][1..] == [] && Records([], l) == [] && l.encode(p) + [] == l.encode(p);
    } else {
      assert (a + [p])[1..] == a[1..] + [p];
      RecordsConcat(a[1..], p, l);
      assert l.encode(a[0]) + (Records(a[1..], l) + l.encode(p)) == (l.encode(a[0]) + Records(a[1..], l)) + l.encode(p);
    }
  }
}
