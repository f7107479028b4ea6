/** Copying a mount namespace: cloning each mount, renumbering the visible ones for zygote, and
    exactly when every live mount still owns the id that freeing finds. */
module MountCopies {
  import opened MountIds

  // New handles for existing mounts.
  ghost predicate CopyCall(st: State, hs: seq<nat>, olds: seq<nat>) {
    && |hs| == |olds|
    && (forall h | h in hs :: h !in st.mounts)
    && (forall i, j | 0 <= i < j < |hs| :: hs[i] != hs[j])
    && (forall o | o in olds :: o in st.mounts)
  }

  // The number of non-sus mounts among the first ones.
  function Visible(mounts: map<nat, Mnt>, hs: seq<nat>): nat
    requires forall h | h in hs :: h in mounts
  {
    if hs == [] then 0 else (if mounts[hs[0]].id < SUS_ID then 1 else 0) + Visible(mounts, hs[1..])
  }

  lemma VisibleSame(a: map<nat, Mnt>, b: map<nat, Mnt>, hs: seq<nat>)
    requires forall h | h in hs :: h in a && h in b && a[h].id == b[h].id
    ensures Visible(a, hs) == Visible(b, hs)
  {
  }

  // The table and the next id after the first handle's turn.
  function RenumberFirst(mounts: map<nat, Mnt>, h: nat, next: nat): (map<nat, Mnt>, nat)
    requires h in mounts
  {
    if mounts[h].id >= SUS_ID then (mounts, next) else (mounts[h := Mnt(next, mounts[h].id)], next + 1)
  }

  lemma RenumberHead(mounts: map<nat, Mnt>, hs: seq<nat>, next: nat)
    requires hs != [] && forall h | h in hs :: h in mounts
    ensures var f := RenumberFirst(mounts, hs[0], next);
            && f.0.Keys == mounts.Keys
            && Renumber(mounts, hs, next) == Renumber(f.0, hs[1..], f.1)
            && Visible(mounts, hs) == f.1 - next + Visible(mounts, hs[1..])
  {
  }

  lemma {:induction false} RenumberOther(mounts: map<nat, Mnt>, hs: seq<nat>, next: nat, g: nat)
    requires g in mounts && g !in hs && forall h | h in hs :: h in mounts
    ensures Renumber(mounts, hs, next).0[g] == mounts[g]
    decreases |hs|
  {
    if hs != [] {
      RenumberHead(mounts, hs, next);
      var f := RenumberFirst(mounts, hs[0], next);
      hide Renumber;
      RenumberOther(f.0, hs[1..], f.1, g);
    }
  }

  lemma {:induction false} RenumberCount(mounts: map<nat, Mnt>, hs: seq<nat>, next: nat)
    requires forall h | h in hs :: h in mounts
    requires forall i, j | 0 <= i < j < |hs| :: hs[i] != hs[j]
    ensures Renumber(mounts, hs, next).1 == next + Visible(mounts, hs)
    decreases |hs|
  {
    if hs != [] {
      RenumberHead(mounts, hs, next);
      var f := RenumberFirst(mounts, hs[0], next);
      hide Renumber;
      RenumberCount(f.0, hs[1..], f.1);
      VisibleSame(mounts, f.0, hs[1..]);
    }
  }

  lemma {:induction false} RenumberAt(mounts: map<nat, Mnt>, hs: seq<nat>, next: nat, i: nat)
    requires i < |hs| && forall h | h in hs :: h in mounts
    requires forall j, k | 0 <= j < k < |hs| :: hs[j] != hs[k]
    ensures forall h | h in hs[..i] :: h in mounts
    ensures Renumber(mounts, hs, next).0[hs[i]] ==
            if mounts[hs[i]].id < SUS_ID then Mnt(next + Visible(mounts, hs[..i]), mounts[hs[i]].id) else mounts[hs[i]]
    decreases |hs|
  {
    RenumberHead(mounts, hs, next);
    var f, rest := RenumberFirst(mounts, hs[0], next), hs[1..];
    hide Renumber;
    assert forall g | g in rest :: g in hs && g != hs[0];
    if i == 0 {
      RenumberOther(f.0, rest, f.1, hs[0]);
    } else {
      RenumberAt(f.0, rest, f.1, i - 1);
      assert hs[..i][0] == hs[0] && hs[..i][1..] == rest[..i - 1];
      RenumberHead(mounts, hs[..i], next);
      VisibleSame(mounts, f.0, rest[..i - 1]);
    }
  }

  // Renumbering gives the non-sus mounts consecutive ids in list order and keeps the id each
  // had as its backup; sus mounts and all others stay as they are.
  lemma RenumberConsecutive(mounts: map<nat, Mnt>, hs: seq<nat>, next: nat)
    requires forall h | h in hs :: h in mounts
    requires forall i, j | 0 <= i < j < |hs| :: hs[i] != hs[j]
    ensures var r := Renumber(mounts, hs, next);
            && r.1 == next + Visible(mounts, hs)
            && r.0.Keys == mounts.Keys
            && (forall g | g in mounts && g !in hs :: r.0[g] == mounts[g])
            && (forall i | 0 <= i < |hs| ::
                  r.0[hs[i]] == if mounts[hs[i]].id < SUS_ID
                                then Mnt(next + Visible(mounts, hs[..i]), mounts[hs[i]].id)
                                else mounts[hs[i]])
  {
    hide Renumber;
    RenumberCount(mounts, hs, next);
    forall g | g in mounts && g !in hs ensures Renumber(mounts, hs, next).0[g] == mounts[g] { RenumberOther(mounts, hs, next, g); }
    forall i | 0 <= i < |hs|
      ensures Renumber(mounts, hs, next).0[hs[i]] ==
              if mounts[hs[i]].id < SUS_ID then Mnt(next + Visible(mounts, hs[..i]), mounts[hs[i]].id) else mounts[hs[i]]
    {
      RenumberAt(mounts, hs, next, i);
    }
  }

  // -------- The clones --------

  lemma CopyCallTail(st: State, hs: seq<nat>, olds: seq<nat>, c: Caller)
    requires CopyCall(st, hs, olds) && hs != []
    ensures hs[0] !in st.mounts && olds[0] in st.mounts
    ensures var next := CloneMnt(st, hs[0], olds[0], c, true);
            && CopyCall(next, hs[1..], olds[1..])
            && (forall g | g in st.mounts :: g in next.mounts && next.mounts[g] == st.mounts[g])
            && (forall g | g in st.owner && g != hs[0] :: g in next.owner && next.owner[g] == st.owner[g])
            && hs[0] in next.mounts && hs[0] in next.owner
  {
    assert hs[0] in hs && olds[0] in olds;
    var next := CloneMnt(st, hs[0], olds[0], c, true);
    CloneShape(st, hs[0], olds[0], c, true);
    hide CloneMnt, Made;
    forall h | h in hs[1..] ensures h !in next.mounts { assert h in hs && h != hs[0]; }
    forall o | o in olds[1..] ensures o in next.mounts { assert o in olds; }
  }

  // Copying leaves the mounts that were there, and their owners, as they are.
  lemma {:induction false} CopyTreeFrame(st: State, hs: seq<nat>, olds: seq<nat>, c: Caller)
    requires CopyCall(st, hs, olds)
    ensures var r := CopyTree(st, hs, olds, c);
            && (forall g | g in st.mounts :: g in r.mounts && r.mounts[g] == st.mounts[g])
            && (forall g | g in st.owner && g !in hs :: g in r.owner && r.owner[g] == st.owner[g])
    decreases |hs|
  {
    if hs != [] {
      CopyCallTail(st, hs, olds, c);
      hide CopyCall, CloneMnt;
      CopyTreeFrame(CloneMnt(st, hs[0], olds[0], c, true), hs[1..], olds[1..], c);
      assert forall g | g in hs[1..] :: g in hs;
    }
  }

  // A KernelSU process copies no mount that shows 0; for others a normal id must be free for
  // each visible mount.
  ghost predicate TreeDemand(st: State, olds: seq<nat>, c: Caller)
    requires forall o | o in olds :: o in st.mounts
  {
    if c.domain == Ksu then forall o | o in olds :: st.mounts[o].id != 0
    else |st.normal| + Visible(st.mounts, olds) <= SUS_ID
  }

  // What one clone adds to the normal pool, and that it leaves the other originals alone.
  lemma CloneCounts(st: State, hs: seq<nat>, olds: seq<nat>, c: Caller)
    requires CopyCall(st, hs, olds) && hs != []
    ensures olds[0] in st.mounts
    ensures var next := CloneMnt(st, hs[0], olds[0], c, true);
            && (forall o | o in olds[1..] :: o in st.mounts && o in next.mounts && next.mounts[o] == st.mounts[o])
            && (c.domain != Ksu ==> |next.normal| == |st.normal| + if st.mounts[olds[0]].id < SUS_ID then 1 else 0)
  {
    var next := CloneMnt(st, hs[0], olds[0], c, true);
    CopyCallTail(st, hs, olds, c);
    CloneShape(st, hs[0], olds[0], c, true);
    MadeExact(st, st.mounts[olds[0]].id, c, true);
    assert forall o | o in olds[1..] :: o in olds;
    hide CloneMnt, NormalFree, SmallestFree, FreeTarget, CopyCall, Demand;
  }

  lemma TreeDemandStep(st: State, hs: seq<nat>, olds: seq<nat>, c: Caller)
    requires Owned(st) && CopyCall(st, hs, olds) && hs != []
    ensures olds[0] in st.mounts
    ensures var next := CloneMnt(st, hs[0], olds[0], c, true);
            && (forall o | o in olds[1..] :: o in next.mounts)
            && (TreeDemand(st, olds, c) <==> Demand(st, st.mounts[olds[0]].id, c, true) && TreeDemand(next, olds[1..], c))
  {
    var oldId, next := st.mounts[olds[0]].id, CloneMnt(st, hs[0], olds[0], c, true);
    FreeCount(st);
    hide Owned, NormalFree, CloneMnt;
    CloneCounts(st, hs, olds, c);
    assert forall o :: o in olds <==> o == olds[0] || o in olds[1..];
    VisibleSame(st.mounts, next.mounts, olds[1..]);
    hide CopyCall;
    assert Visible(st.mounts, olds) == (if oldId < SUS_ID then 1 else 0) + Visible(st.mounts, olds[1..]);
  }

  // A normal id taken above the range stays a fault.
  lemma LateNormal(st: State, r: State, h: nat)
    requires h in st.owner && h in r.owner && r.owner[h] == st.owner[h] && st.owner[h].Normal? && st.owner[h].id >= SUS_ID
    ensures !OwnersOk(r.normal, r.sus, r.owner)
  {
  }

  lemma FailedClone(st: State, hs: seq<nat>, olds: seq<nat>, c: Caller)
    requires Owned(st) && CopyCall(st, hs, olds) && hs != [] && olds[0] in st.mounts
    requires !Demand(st, st.mounts[olds[0]].id, c, true)
    ensures var r := CopyTree(st, hs, olds, c);
            !Owned(r) && (c.domain != Ksu ==> !OwnersOk(r.normal, r.sus, r.owner))
  {
    var oldId, next, r := st.mounts[olds[0]].id, CloneMnt(st, hs[0], olds[0], c, true), CopyTree(st, hs, olds, c);
    var (o, m) := Made(st, oldId, c, true);
    CopyCallTail(st, hs, olds, c);
    CloneShape(st, hs[0], olds[0], c, true);
    MadeExact(st, oldId, c, true);
    assert next.mounts[hs[0]] == m && next.owner[hs[0]] == o;
    CopyTreeFrame(next, hs[1..], olds[1..], c);
    assert hs[0] !in hs[1..];
    hide CloneMnt, CopyTree, Made, OwnersOk, CopyCall, Demand;
    if c.domain != Ksu { LateNormal(next, r, hs[0]); }
    assert r.mounts[hs[0]] == m && r.owner[hs[0]] == o;
  }

  lemma {:induction false} CopyTreeExact(st: State, hs: seq<nat>, olds: seq<nat>, c: Caller)
    requires Owned(st) && CopyCall(st, hs, olds)
    ensures Owned(CopyTree(st, hs, olds, c)) <==> TreeDemand(st, olds, c)
    ensures c.domain != Ksu ==>
              var r := CopyTree(st, hs, olds, c); OwnersOk(r.normal, r.sus, r.owner) <==> TreeDemand(st, olds, c)
    decreases |hs|
  {
    if hs == [] {
      FreeCount(st);
      assert olds == [];
      hide OwnersOk, Recovered;
    } else {
      CopyCallTail(st, hs, olds, c);
      TreeDemandStep(st, hs, olds, c);
      CloneExact(st, hs[0], olds[0], c, true);
      hide Owned, OwnersOk, CopyCall, Demand, CloneMnt, TreeDemand;
      var next := CloneMnt(st, hs[0], olds[0], c, true);
      if Owned(next) {
        CopyTreeExact(next, hs[1..], olds[1..], c);
      } else {
        FailedClone(st, hs, olds, c);
      }
    }
  }

  // -------- The copies --------

  // A zygote's copies are not sus unless their originals are, and have no backup id yet.
  ghost predicate FreshCopies(st: State, r: State, hs: seq<nat>, olds: seq<nat>) {
    && |hs| == |olds|
    && (forall i | 0 <= i < |hs| ::
          && hs[i] in r.mounts && r.mounts[hs[i]].backup == 0
          && olds[i] in st.mounts && (r.mounts[hs[i]].id < SUS_ID <==> st.mounts[olds[i]].id < SUS_ID))
  }

  lemma ZygoteMade(st: State, oldId: nat, c: Caller)
    requires c.domain == Zygote && Demand(st, oldId, c, true)
    ensures var m := Made(st, oldId, c, true).1; m.backup == 0 && (m.id < SUS_ID <==> oldId < SUS_ID)
  {
    FreeMeans(st);
    hide NormalFree, SmallestFree;
  }

  lemma FirstClone(st: State, h: nat, old': nat, c: Caller)
    requires c.domain == Zygote && old' in st.mounts && Demand(st, st.mounts[old'].id, c, true)
    ensures var r := CloneMnt(st, h, old', c, true);
            h in r.mounts && r.mounts[h].backup == 0 && (r.mounts[h].id < SUS_ID <==> st.mounts[old'].id < SUS_ID)
  {
    CloneShape(st, h, old', c, true);
    ZygoteMade(st, st.mounts[old'].id, c);
    hide CloneMnt, Made, Demand;
  }

  lemma {:induction false} ZygoteCopies(st: State, hs: seq<nat>, olds: seq<nat>, c: Caller)
    requires Owned(st) && CopyCall(st, hs, olds) && c.domain == Zygote && TreeDemand(st, olds, c)
    ensures FreshCopies(st, CopyTree(st, hs, olds, c), hs, olds)
    decreases |hs|
  {
    if hs != [] {
      hide Owned, CloneMnt, Demand, TreeDemand, FreshCopies, CopyCall;
      var next, r := CloneMnt(st, hs[0], olds[0], c, true), CopyTree(st, hs, olds, c);
      CopyCallTail(st, hs, olds, c);
      CloneCounts(st, hs, olds, c);
      TreeDemandStep(st, hs, olds, c);
      CloneExact(st, hs[0], olds[0], c, true);
      FirstClone(st, hs[0], olds[0], c);
      CopyTreeFrame(next, hs[1..], olds[1..], c);
      ZygoteCopies(next, hs[1..], olds[1..], c);
      assert r == CopyTree(next, hs[1..], olds[1..], c);
      hide CopyTree;
      CopiesJoin(st, next, r, hs, olds);
    }
  }

  lemma CopiesJoin(st: State, next: State, r: State, hs: seq<nat>, olds: seq<nat>)
    requires hs != [] && |hs| == |olds| && FreshCopies(next, r, hs[1..], olds[1..])
    requires hs[0] in r.mounts && r.mounts[hs[0]].backup == 0 && olds[0] in st.mounts
    requires r.mounts[hs[0]].id < SUS_ID <==> st.mounts[olds[0]].id < SUS_ID
    requires forall o | o in olds[1..] :: o in st.mounts && o in next.mounts && next.mounts[o] == st.mounts[o]
    ensures FreshCopies(st, r, hs, olds)
  {
    assert forall i | 0 < i < |hs| :: hs[i] == hs[1..][i - 1] && olds[i] == olds[1..][i - 1] && olds[i] in olds[1..];
  }

  lemma FirstCopyId(st: State, hs: seq<nat>, olds: seq<nat>, c: Caller)
    requires CopyCall(st, hs, olds) && hs != [] && c.domain == Zygote && olds[0] in st.mounts && st.mounts[olds[0]].id < SUS_ID
    ensures hs[0] in CopyTree(st, hs, olds, c).mounts
    ensures CopyTree(st, hs, olds, c).mounts[hs[0]].id == SmallestFree(st.normal, 0)
  {
    var next := CloneMnt(st, hs[0], olds[0], c, true);
    CopyCallTail(st, hs, olds, c);
    CloneShape(st, hs[0], olds[0], c, true);
    assert next.mounts[hs[0]] == Made(st, st.mounts[olds[0]].id, c, true).1;
    CopyTreeFrame(next, hs[1..], olds[1..], c);
    hide CloneMnt, SmallestFree;
  }

  // Only the first mount's copy can get id 0.
  lemma ZeroIsFirst(st: State, hs: seq<nat>, olds: seq<nat>, c: Caller, i: nat)
    requires Owned(st) && CopyCall(st, hs, olds) && c.domain == Zygote && TreeDemand(st, olds, c)
    requires i < |hs| && olds[0] in st.mounts && st.mounts[olds[0]].id < SUS_ID
    requires hs[i] in CopyTree(st, hs, olds, c).mounts && CopyTree(st, hs, olds, c).mounts[hs[i]].id == 0
    ensures i == 0
  {
    var r := CopyTree(st, hs, olds, c);
    ZygoteCopies(st, hs, olds, c);
    CopyTreeExact(st, hs, olds, c);
    CopyTreeFrame(st, hs, olds, c);
    FirstCopyId(st, hs, olds, c);
    ZeroFirst(st);
    assert hs[i] in hs;
    hide CopyTree, TreeDemand, SmallestFree;
    assert r.owner[hs[i]] == Normal(0);
    assert 0 !in st.normal;
    assert r.owner[hs[0]] == Normal(0);
  }

  // -------- Renumbering --------

  // Some visible mount gets the last number.
  lemma {:induction false} LastVisible(mounts: map<nat, Mnt>, hs: seq<nat>) returns (i: nat)
    requires (forall h | h in hs :: h in mounts) && Visible(mounts, hs) > 0
    ensures i < |hs| && mounts[hs[i]].id < SUS_ID && forall h | h in hs[..i] :: h in mounts
    ensures Visible(mounts, hs[..i]) == Visible(mounts, hs) - 1
    decreases |hs|
  {
    if Visible(mounts, hs[1..]) == 0 {
      i := 0;
    } else {
      var k := LastVisible(mounts, hs[1..]);
      i := k + 1;
      assert hs[..i][0] == hs[0] && hs[..i][1..] == hs[1..][..k];
    }
  }

  // The numbers from first on, one for each visible mount, stay below the sus range.
  predicate Fits(first: nat, visible: nat) {
    visible == 0 || first + visible <= SUS_ID
  }

  // Copies that have ids of their own keep freeing right, whatever number each shows, exactly
  // when all numbers stay below the sus range.
  lemma RenumberExact(mounts: map<nat, Mnt>, owner: map<nat, Owner>, hs: seq<nat>, first: nat)
    requires Recovered(mounts, owner)
    requires forall h | h in hs :: h in mounts && mounts[h].backup == 0
    requires forall i, j | 0 <= i < j < |hs| :: hs[i] != hs[j]
    requires Fits(first, Visible(mounts, hs)) ==> forall i | 0 <= i < |hs| && mounts[hs[i]].id == 0 :: i == 0 && first == 0
    ensures Recovered(Renumber(mounts, hs, first).0, owner) <==> Fits(first, Visible(mounts, hs))
  {
    var r := Renumber(mounts, hs, first).0;
    RenumberConsecutive(mounts, hs, first);
    hide Renumber;
    if Fits(first, Visible(mounts, hs)) {
      forall h | h in r
        ensures FreeTarget(r[h]) == owner[h]
      {
        if h in hs {
          var i :| 0 <= i < |hs| && hs[i] == h;
          NumberBelow(mounts, hs, i);
        }
      }
    } else {
      var i := LastVisible(mounts, hs);
      assert r[hs[i]].id >= SUS_ID && hs[i] in hs;
      assert FreeTarget(r[hs[i]]) != owner[hs[i]];
    }
  }

  lemma NumberBelow(mounts: map<nat, Mnt>, hs: seq<nat>, i: nat)
    requires i < |hs| && forall h | h in hs :: h in mounts
    ensures forall h | h in hs[..i] :: h in mounts
    ensures Visible(mounts, hs[..i]) + (if mounts[hs[i]].id < SUS_ID then 1 else 0) <= Visible(mounts, hs)
  {
    if i > 0 {
      NumberBelow(mounts, hs[1..], i - 1);
      assert hs[..i][0] == hs[0] && hs[..i][1..] == hs[1..][..i - 1];
    }
  }

  lemma VisibleCopies(st: State, r: State, hs: seq<nat>, olds: seq<nat>, n: nat)
    requires FreshCopies(st, r, hs, olds) && n <= |hs|
    ensures (forall h | h in hs[..n] :: h in r.mounts) && (forall o | o in olds[..n] :: o in st.mounts)
    ensures Visible(r.mounts, hs[..n]) == Visible(st.mounts, olds[..n])
  {
    if n > 0 {
      assert FreshCopies(st, r, hs[1..], olds[1..]) by {
        assert forall i | 0 <= i < |hs| - 1 :: hs[1..][i] == hs[i + 1] && olds[1..][i] == olds[i + 1];
      }
      VisibleCopies(st, r, hs[1..], olds[1..], n - 1);
      assert hs[..n][1..] == hs[1..][..n - 1] && olds[..n][1..] == olds[1..][..n - 1];
      assert forall h :: h in hs[..n] <==> h == hs[0] || h in hs[..n][1..];
      assert forall o :: o in olds[..n] <==> o == olds[0] || o in olds[..n][1..];
    }
  }

  // -------- The whole copy --------

  // Beside the clones' demand, a zygote with any visible mount needs the first one to be visible
  // and room below the sus range for as many numbers from the least free id on.
  ghost predicate CopyDemand(st: State, olds: seq<nat>, c: Caller)
    requires olds != [] && forall o | o in olds :: o in st.mounts
  {
    && TreeDemand(st, olds, c)
    && (c.domain == Zygote && Visible(st.mounts, olds) > 0 ==>
          st.mounts[olds[0]].id < SUS_ID && Fits(SmallestFree(st.normal, 0), Visible(st.mounts, olds)))
  }

  // The clones before they are renumbered.
  lemma ZygoteCopied(st: State, hs: seq<nat>, olds: seq<nat>, c: Caller)
    requires Owned(st) && CopyCall(st, hs, olds) && hs != [] && c.domain == Zygote && TreeDemand(st, olds, c)
    ensures olds[0] in st.mounts && (forall o | o in olds :: o in st.mounts)
    ensures var r := CopyTree(st, hs, olds, c);
            && Owned(r) && (forall h | h in hs :: h in r.mounts && r.mounts[h].backup == 0)
            && Visible(r.mounts, hs) == Visible(st.mounts, olds)
            && hs[0] in r.mounts && (r.mounts[hs[0]].id < SUS_ID <==> st.mounts[olds[0]].id < SUS_ID)
            && (st.mounts[olds[0]].id < SUS_ID ==> r.mounts[hs[0]].id == SmallestFree(st.normal, 0))
  {
    hide Owned, TreeDemand, CopyTree, SmallestFree;
    var r := CopyTree(st, hs, olds, c);
    assert olds[0] in olds;
    CopyTreeExact(st, hs, olds, c);
    ZygoteCopies(st, hs, olds, c);
    VisibleCopies(st, r, hs, olds, |hs|);
    assert hs[..|hs|] == hs && olds[..|hs|] == olds;
    if st.mounts[olds[0]].id < SUS_ID { FirstCopyId(st, hs, olds, c); }
    forall h | h in hs ensures h in r.mounts && r.mounts[h].backup == 0 {
      var i :| 0 <= i < |hs| && hs[i] == h;
    }
  }

  lemma ZygoteCopyExact(st: State, hs: seq<nat>, olds: seq<nat>, c: Caller)
    requires Owned(st) && CopyCall(st, hs, olds) && hs != [] && c.domain == Zygote && TreeDemand(st, olds, c)
    ensures forall o | o in olds :: o in st.mounts
    ensures Owned(CopyMntNs(st, hs, olds, c)) <==> CopyDemand(st, olds, c)
  {
    hide CopyTree, TreeDemand, OwnersOk, SmallestFree, Recovered, Renumber, Visible;
    var r := CopyTree(st, hs, olds, c);
    ZygoteCopied(st, hs, olds, c);
    var first := r.mounts[hs[0]].id;
    if Fits(first, Visible(r.mounts, hs)) {
      forall i | 0 <= i < |hs| && r.mounts[hs[i]].id == 0
        ensures i == 0 && first == 0
      {
        NumberBelow(r.mounts, hs, i);
        ZeroIsFirst(st, hs, olds, c, i);
      }
    }
    RenumberExact(r.mounts, r.owner, hs, first);
  }

  // Copying a namespace keeps every live mount an id of its own, which freeing finds, exactly
  // under the copy's demand.
  lemma CopyMntNsExact(st: State, hs: seq<nat>, olds: seq<nat>, c: Caller)
    requires Owned(st) && CopyCall(st, hs, olds) && hs != []
    ensures forall o | o in olds :: o in st.mounts
    ensures Owned(CopyMntNs(st, hs, olds, c)) <==> CopyDemand(st, olds, c)
  {
    CopyTreeExact(st, hs, olds, c);
    if c.domain == Zygote && TreeDemand(st, olds, c) {
      ZygoteCopyExact(st, hs, olds, c);
    } else {
      hide CopyTree, TreeDemand, OwnersOk, Renumber, Recovered, SmallestFree, Visible;
    }
  }

  // After a zygote's copy whose first mount is visible, the visible mounts show consecutive ids
  // from the least free one on and keep their own as backup, and the task's next fake id follows.
  lemma ZygoteCopyConsecutive(st: State, hs: seq<nat>, olds: seq<nat>, c: Caller, i: nat)
    requires Owned(st) && CopyCall(st, hs, olds) && c.domain == Zygote && TreeDemand(st, olds, c)
    requires i < |hs| && olds[0] in st.mounts && st.mounts[olds[0]].id < SUS_ID
    ensures olds[i] in st.mounts && (forall o | o in olds :: o in st.mounts) && (forall o | o in olds[..i] :: o in st.mounts)
    ensures var first := SmallestFree(st.normal, 0);
            var r := CopyMntNs(st, hs, olds, c);
            var copied := CopyTree(st, hs, olds, c);
            && hs[i] in r.mounts && hs[i] in copied.mounts
            && r.mounts[hs[i]] == (if st.mounts[olds[i]].id < SUS_ID
                                   then Mnt(first + Visible(st.mounts, olds[..i]), copied.mounts[hs[i]].id)
                                   else copied.mounts[hs[i]])
            && r.fake[c.task] == first + Visible(st.mounts, olds)
  {
    hide SmallestFree, TreeDemand, Owned, Visible, Renumber, CopyTree, CopyCall;
    CopyOriginals(st, hs, olds, i);
    var copied := CopyTree(st, hs, olds, c);
    ZygoteCopied(st, hs, olds, c);
    ZygoteCopies(st, hs, olds, c);
    VisibleCopies(st, copied, hs, olds, i);
    assert copied.mounts[hs[i]].id < SUS_ID <==> st.mounts[olds[i]].id < SUS_ID;
    hide FreshCopies;
    RenumberConsecutive(copied.mounts, hs, copied.mounts[hs[0]].id);
  }

  lemma CopyOriginals(st: State, hs: seq<nat>, olds: seq<nat>, i: nat)
    requires CopyCall(st, hs, olds) && i < |hs|
    ensures |olds| == |hs| && olds[i] in st.mounts && hs[i] in hs
    ensures (forall o | o in olds :: o in st.mounts) && (forall o | o in olds[..i] :: o in st.mounts)
    ensures forall j, k | 0 <= j < k < |hs| :: hs[j] != hs[k]
  {
    assert olds[i] in olds && forall o | o in olds[..i] :: o in olds;
  }
}
