/** Mount ids from two pools: which pool owns each live mount's id, although the ids shown are
    spoofed, copied and renumbered, and freeing sees nothing but the numbers. */
module MountIds {
  const SUS_ID: nat := 100000
  const UNSHARE_MARK: nat := 1000000

  // A mount shows id; backup holds the original one when id is spoofed, or the mark of a copy
  // made for a KernelSU process that unshared its namespace.
  datatype Mnt = Mnt(id: nat, backup: nat)

  // The pool entry a mount has taken and must give back.
  datatype Owner = Normal(id: nat) | Sus(id: nat) | Nothing

  // Mounts are known by handles; fake is the next fake id of each task.
  datatype State = State(normal: set<nat>, sus: set<nat>, mounts: map<nat, Mnt>, owner: map<nat, Owner>, fake: map<nat, nat>)

  datatype Domain = Ksu | Zygote | Other
  datatype Caller = Caller(task: nat, domain: Domain)

  // The least id from min on that is not taken.
  function SmallestFree(pool: set<nat>, min: nat): (r: nat)
    ensures r >= min && r !in pool
    ensures forall i | min <= i < r :: i in pool
    ensures r <= min + |pool|
    decreases |pool|
  {
    if min !in pool then min
    else
      var r := SmallestFree(pool - {min}, min + 1);
      assert forall i | min <= i < r :: i in pool by {
        forall i | min <= i < r ensures i in pool { assert i == min || i in pool - {min}; }
      }
      r
  }

  function FakeOf(st: State, task: nat): nat {
    if task in st.fake then st.fake[task] else 0
  }

  // -------- The operations --------

  function Take(st: State, h: nat, o: Owner, id: nat): State {
    st.(normal := if o.Normal? then st.normal + {o.id} else st.normal,
        sus := if o.Sus? then st.sus + {o.id} else st.sus,
        mounts := st.mounts[h := Mnt(id, 0)], owner := st.owner[h := o])
  }

  function AllocNormal(st: State, h: nat): State {
    var id := SmallestFree(st.normal, 0);
    Take(st, h, Normal(id), id)
  }

  function AllocSus(st: State, h: nat): State {
    var id := SmallestFree(st.sus, SUS_ID);
    Take(st, h, Sus(id), id)
  }

  // A custom id of 0 means that none was given.
  function AllocVfsmnt(st: State, h: nat, spoof: bool, custom: nat): State {
    if !spoof then AllocNormal(st, h)
    else if custom == 0 then AllocSus(st, h)
    else Take(st, h, Nothing, custom)
  }

  // Shows the task's next fake id instead of the one the mount has.
  function Spoof(st: State, h: nat, task: nat): State
    requires h in st.mounts
  {
    st.(mounts := st.mounts[h := Mnt(FakeOf(st, task), st.mounts[h].id)], fake := st.fake[task := FakeOf(st, task) + 1])
  }

  function KernMount(st: State, h: nat, c: Caller): State {
    var st' := AllocVfsmnt(st, h, c.domain == Ksu, 0);
    if c.domain == Zygote then Spoof(st', h, c.task) else st'
  }

  function Mark(st: State, h: nat): State
    requires h in st.mounts
  {
    st.(mounts := st.mounts[h := st.mounts[h].(backup := UNSHARE_MARK)])
  }

  function CloneMnt(st: State, h: nat, old': nat, c: Caller, copyNs: bool): (r: State)
    requires old' in st.mounts
    ensures r.mounts.Keys == st.mounts.Keys + {h}
  {
    var oldId := st.mounts[old'].id;
    if c.domain == Ksu then
      if copyNs then Mark(AllocVfsmnt(st, h, true, oldId), h) else AllocVfsmnt(st, h, true, 0)
    else
      var st' := AllocVfsmnt(st, h, oldId >= SUS_ID && (c.domain == Zygote || copyNs), 0);
      if c.domain == Zygote && !copyNs then Spoof(st', h, c.task) else st'
  }

  function CopyTree(st: State, hs: seq<nat>, olds: seq<nat>, c: Caller): (r: State)
    requires |hs| == |olds| && forall o | o in olds :: o in st.mounts
    ensures st.mounts.Keys + (set h | h in hs) == r.mounts.Keys
    decreases |hs|
  {
    if hs == [] then st
    else
      var next := CloneMnt(st, hs[0], olds[0], c, true);
      CopyTree(next, hs[1..], olds[1..], c)
  }

  // Mounts that show a sus id are passed over.
  function Renumber(mounts: map<nat, Mnt>, hs: seq<nat>, next: nat): (r: (map<nat, Mnt>, nat))
    requires forall h | h in hs :: h in mounts
    ensures r.0.Keys == mounts.Keys
    decreases |hs|
  {
    if hs == [] then (mounts, next)
    else if mounts[hs[0]].id >= SUS_ID then Renumber(mounts, hs[1..], next)
    else Renumber(mounts[hs[0] := Mnt(next, mounts[hs[0]].id)], hs[1..], next + 1)
  }

  // The first handle is that of the new namespace's first mount.
  function CopyMntNs(st: State, hs: seq<nat>, olds: seq<nat>, c: Caller): State
    requires |hs| == |olds| > 0 && forall o | o in olds :: o in st.mounts
  {
    var copied := CopyTree(st, hs, olds, c);
    assert hs[0] in copied.mounts;
    if c.domain == Zygote then
      var (mounts, next) := Renumber(copied.mounts, hs, copied.mounts[hs[0]].id);
      copied.(mounts := mounts, fake := copied.fake[c.task := next])
    else copied.(fake := copied.fake[c.task := 0])
  }

  // What freeing decides from the numbers alone.
  function FreeTarget(m: Mnt): Owner {
    if m.backup == UNSHARE_MARK then Nothing
    else if m.id >= SUS_ID then Sus(m.id)
    else if m.backup != 0 then Normal(m.backup)
    else Normal(m.id)
  }

  function FreeMnt(st: State, h: nat): State
    requires h in st.mounts
  {
    var o := FreeTarget(st.mounts[h]);
    st.(normal := if o.Normal? then st.normal - {o.id} else st.normal,
        sus := if o.Sus? then st.sus - {o.id} else st.sus,
        mounts := st.mounts - {h}, owner := st.owner - {h})
  }

  // -------- Ownership --------

  // No entry is taken twice, and the entries taken are exactly those of live mounts.
  ghost predicate OwnersOk(normal: set<nat>, sus: set<nat>, owner: map<nat, Owner>) {
    && (forall g, h | g in owner && h in owner && g != h && owner[g] == owner[h] :: owner[h] == Nothing)
    && (forall h | h in owner && owner[h].Normal? :: owner[h].id in normal && owner[h].id < SUS_ID)
    && (forall h | h in owner && owner[h].Sus? :: owner[h].id in sus && owner[h].id >= SUS_ID)
    && (forall i | i in normal :: exists h :: h in owner && owner[h] == Normal(i))
    && (forall i | i in sus :: exists h :: h in owner && owner[h] == Sus(i))
  }

  // Freeing finds the entry each live mount has taken.
  ghost predicate Recovered(mounts: map<nat, Mnt>, owner: map<nat, Owner>) {
    owner.Keys == mounts.Keys && forall h | h in mounts :: FreeTarget(mounts[h]) == owner[h]
  }

  ghost predicate Owned(st: State) {
    OwnersOk(st.normal, st.sus, st.owner) && Recovered(st.mounts, st.owner)
  }

  lemma TakeKeepsOwners(normal: set<nat>, sus: set<nat>, owner: map<nat, Owner>, h: nat, o: Owner)
    requires OwnersOk(normal, sus, owner) && h !in owner
    requires o.Normal? ==> o.id !in normal && o.id < SUS_ID
    requires o.Sus? ==> o.id !in sus && o.id >= SUS_ID
    ensures OwnersOk(if o.Normal? then normal + {o.id} else normal, if o.Sus? then sus + {o.id} else sus, owner[h := o])
  {
    var owner' := owner[h := o];
    assert owner'[h] == o && forall g | g in owner :: owner'[g] == owner[g];
    forall i | i in normal
      ensures exists g :: g in owner' && owner'[g] == Normal(i)
    {
      var g :| g in owner && owner[g] == Normal(i);
      assert owner'[g] == Normal(i);
    }
    forall i | i in sus
      ensures exists g :: g in owner' && owner'[g] == Sus(i)
    {
      var g :| g in owner && owner[g] == Sus(i);
      assert owner'[g] == Sus(i);
    }
  }

  lemma GiveBackKeepsOwners(normal: set<nat>, sus: set<nat>, owner: map<nat, Owner>, h: nat)
    requires OwnersOk(normal, sus, owner) && h in owner
    ensures var o := owner[h];
            OwnersOk(if o.Normal? then normal - {o.id} else normal, if o.Sus? then sus - {o.id} else sus, owner - {h})
  {
    var owner' := owner - {h};
    forall i | i in normal && owner[h] != Normal(i)
      ensures exists g :: g in owner' && owner'[g] == Normal(i)
    {
      var g :| g in owner && owner[g] == Normal(i);
      assert g in owner' && owner'[g] == Normal(i);
    }
    forall i | i in sus && owner[h] != Sus(i)
      ensures exists g :: g in owner' && owner'[g] == Sus(i)
    {
      var g :| g in owner && owner[g] == Sus(i);
      assert g in owner' && owner'[g] == Sus(i);
    }
  }

  // Freeing a mount gives back exactly the entry it has taken, to the pool it came from.
  lemma FreeReturnsOwned(st: State, h: nat)
    requires Owned(st) && h in st.mounts
    ensures Owned(FreeMnt(st, h))
    ensures FreeMnt(st, h).normal == (if st.owner[h].Normal? then st.normal - {st.owner[h].id} else st.normal)
    ensures FreeMnt(st, h).sus == (if st.owner[h].Sus? then st.sus - {st.owner[h].id} else st.sus)
  {
    GiveBackKeepsOwners(st.normal, st.sus, st.owner, h);
    hide OwnersOk, FreeTarget;
  }

  // -------- What each new mount demands --------

  // A normal id below the sus range is free.
  predicate NormalFree(st: State) {
    exists i: nat | i < SUS_ID :: i !in st.normal
  }

  lemma FreeMeans(st: State)
    ensures NormalFree(st) <==> SmallestFree(st.normal, 0) < SUS_ID
  {
    var n := SmallestFree(st.normal, 0);
    if n < SUS_ID { assert n !in st.normal; }
  }

  ghost function Below(n: nat): (r: set<nat>)
    ensures |r| == n && forall i: nat :: i in r <==> i < n
  {
    if n == 0 then {} else Below(n - 1) + {n - 1}
  }

  // All normal ids lie below the sus range, so one is free as long as fewer are taken.
  lemma FreeCount(st: State)
    requires Owned(st)
    ensures |st.normal| <= SUS_ID
    ensures NormalFree(st) <==> |st.normal| < SUS_ID
  {
    forall i | i in st.normal ensures i < SUS_ID {
      var h :| h in st.owner && st.owner[h] == Normal(i);
    }
    FreeMeans(st);
    BelowCount(st.normal, SUS_ID);
    hide Owned, SmallestFree;
  }

  lemma BelowCount(pool: set<nat>, n: nat)
    requires forall i | i in pool :: i < n
    ensures |pool| <= n
    ensures (exists i: nat | i < n :: i !in pool) ==> |pool| < n
  {
    var all := Below(n);
    hide Below;
    assert all == pool + (all - pool);
    if i: nat :| i < n && i !in pool {
      assert i in all - pool;
    }
  }

  // A zygote shows a fake id: below the sus range, and 0 is not taken by a mount that shows
  // another one.
  predicate SpoofDemand(st: State, task: nat) {
    NormalFree(st) && FakeOf(st, task) < SUS_ID && (0 in st.normal || FakeOf(st, task) == 0)
  }

  // What making a mount from one that shows oldId demands; copyNs tells a namespace copy. A sus
  // id shown as a fake one can be told from the number only if both are the same.
  predicate Demand(st: State, oldId: nat, c: Caller, copyNs: bool) {
    if c.domain == Ksu then copyNs ==> oldId != 0
    else if c.domain == Zygote && !copyNs then
      if oldId < SUS_ID then SpoofDemand(st, c.task)
      else var id := SmallestFree(st.sus, SUS_ID); FakeOf(st, c.task) == id && id != UNSHARE_MARK
    else (oldId >= SUS_ID && copyNs) || NormalFree(st)
  }

  // The pool entry that a new mount takes, and the numbers it gets.
  function Made(st: State, oldId: nat, c: Caller, copyNs: bool): (Owner, Mnt) {
    var n, s, f := SmallestFree(st.normal, 0), SmallestFree(st.sus, SUS_ID), FakeOf(st, c.task);
    if c.domain == Ksu then
      if !copyNs then (Sus(s), Mnt(s, 0))
      else if oldId == 0 then (Sus(s), Mnt(s, UNSHARE_MARK))
      else (Nothing, Mnt(oldId, UNSHARE_MARK))
    else
      var sus := oldId >= SUS_ID && (c.domain == Zygote || copyNs);
      var id := if sus then s else n;
      (if sus then Sus(s) else Normal(n), if c.domain == Zygote && !copyNs then Mnt(f, id) else Mnt(id, 0))
  }

  // r is st with one more mount.
  ghost predicate Grown(st: State, r: State, h: nat, o: Owner, m: Mnt) {
    && r.mounts == st.mounts[h := m] && r.owner == st.owner[h := o]
    && r.normal == (if o.Normal? then st.normal + {o.id} else st.normal)
    && r.sus == (if o.Sus? then st.sus + {o.id} else st.sus)
  }

  lemma AllocShape(st: State, h: nat, spoof: bool, custom: nat)
    ensures var (o, id) := if !spoof then (Normal(SmallestFree(st.normal, 0)), SmallestFree(st.normal, 0))
                           else if custom == 0 then (Sus(SmallestFree(st.sus, SUS_ID)), SmallestFree(st.sus, SUS_ID))
                           else (Nothing, custom);
            var r := AllocVfsmnt(st, h, spoof, custom);
            Grown(st, r, h, o, Mnt(id, 0)) && h in r.mounts && r.mounts[h] == Mnt(id, 0) && r.fake == st.fake
  {
    hide SmallestFree;
  }

  lemma RewriteMount(st: State, r: State, r': State, h: nat, o: Owner, any: Mnt, m: Mnt)
    requires Grown(st, r, h, o, any) && r' == r.(mounts := r.mounts[h := m], fake := r'.fake)
    ensures Grown(st, r', h, o, m)
  {
    assert st.mounts[h := any][h := m] == st.mounts[h := m];
  }

  lemma CloneShape(st: State, h: nat, old': nat, c: Caller, copyNs: bool)
    requires old' in st.mounts
    ensures var made := Made(st, st.mounts[old'].id, c, copyNs);
            Grown(st, CloneMnt(st, h, old', c, copyNs), h, made.0, made.1)
    ensures copyNs ==> CloneMnt(st, h, old', c, copyNs).fake == st.fake
  {
    hide SmallestFree, AllocVfsmnt, Grown;
    var oldId, r' := st.mounts[old'].id, CloneMnt(st, h, old', c, copyNs);
    var spoof := c.domain == Ksu || (oldId >= SUS_ID && (c.domain == Zygote || copyNs));
    var custom := if c.domain == Ksu && copyNs then oldId else 0;
    var r := AllocVfsmnt(st, h, spoof, custom);
    var (o, m) := Made(st, oldId, c, copyNs);
    AllocShape(st, h, spoof, custom);
    if r' != r { RewriteMount(st, r, r', h, o, r.mounts[h], m); }
  }

  // A new mount is made like a single clone of one that is not sus.
  lemma KernShape(st: State, h: nat, c: Caller)
    ensures var made := Made(st, 0, c, false); Grown(st, KernMount(st, h, c), h, made.0, made.1)
  {
    hide SmallestFree;
  }

  // -------- What a new mount shows --------

  ghost predicate Least(pool: set<nat>, min: nat, id: nat) {
    id >= min && id !in pool && forall i | min <= i < id :: i in pool
  }

  // r has the new mount h, which took the least free sus id, or else normal one, and shows it;
  // with a fake id it shows that one and keeps its own as backup.
  ghost predicate NewMount(st: State, r: State, h: nat, sus: bool, fake: bool, task: nat) {
    && h in r.mounts && r.mounts.Keys == st.mounts.Keys + {h}
    && (forall g | g in st.mounts && g != h :: r.mounts[g] == st.mounts[g])
    && var own := if fake then r.mounts[h].backup else r.mounts[h].id;
    && (if sus then Least(st.sus, 100000, own) && r.sus == st.sus + {own} && r.normal == st.normal
        else Least(st.normal, 0, own) && r.normal == st.normal + {own} && r.sus == st.sus)
    && (fake ==> r.mounts[h].id == if task in st.fake then st.fake[task] else 0)
    && (!fake ==> r.mounts[h].backup == 0)
    && r.fake == if fake then st.fake[task := r.mounts[h].id + 1] else st.fake
  }

  // KernelSU's mounts are sus ones, and zygote's show its next fake id, which advances by one.
  lemma KernMountShows(st: State, h: nat, c: Caller)
    ensures NewMount(st, KernMount(st, h, c), h, c.domain == Ksu, c.domain == Zygote, c.task)
  {
    hide SmallestFree;
  }

  // A clone is a sus mount if KernelSU makes it alone, or if it is made of a sus mount by zygote
  // or for a new namespace; zygote's single clones show the next fake id.
  lemma CloneShows(st: State, h: nat, old': nat, c: Caller, copyNs: bool)
    requires old' in st.mounts && !(c.domain == Ksu && copyNs)
    ensures NewMount(st, CloneMnt(st, h, old', c, copyNs), h,
                     c.domain == Ksu || (st.mounts[old'].id >= 100000 && (c.domain == Zygote || copyNs)),
                     c.domain == Zygote && !copyNs, c.task)
  {
    hide SmallestFree;
  }

  // KernelSU's copy for a new namespace shows the id of the old mount, takes none, and bears the
  // mark; of a mount that shows 0 it takes a sus id.
  lemma UnshareShows(st: State, h: nat, old': nat, c: Caller)
    requires old' in st.mounts && c.domain == Ksu
    ensures var r := CloneMnt(st, h, old', c, true);
            && h in r.mounts && r.mounts[h].backup == 1000000 && r.fake == st.fake && r.normal == st.normal
            && (forall g | g in st.mounts && g != h :: g in r.mounts && r.mounts[g] == st.mounts[g])
            && if st.mounts[old'].id != 0 then r.mounts[h].id == st.mounts[old'].id && r.sus == st.sus
               else Least(st.sus, 100000, r.mounts[h].id) && r.sus == st.sus + {r.mounts[h].id}
  {
    hide SmallestFree;
  }

  lemma GrownExact(st: State, r: State, h: nat, o: Owner, m: Mnt)
    requires Owned(st) && h !in st.mounts && Grown(st, r, h, o, m)
    requires o.Normal? ==> o.id !in st.normal
    requires o.Sus? ==> o.id !in st.sus && o.id >= SUS_ID
    ensures OwnersOk(r.normal, r.sus, r.owner) <==> (o.Normal? ==> o.id < SUS_ID)
    ensures Owned(r) <==> FreeTarget(m) == o && (o.Normal? ==> o.id < SUS_ID)
  {
    assert r.owner[h] == o && r.mounts[h] == m;
    if o.Normal? ==> o.id < SUS_ID {
      TakeKeepsOwners(st.normal, st.sus, st.owner, h, o);
      hide OwnersOk;
      GrownRecovered(st, r, h, o, m);
    } else {
      hide FreeTarget, Recovered;
    }
  }

  lemma GrownRecovered(st: State, r: State, h: nat, o: Owner, m: Mnt)
    requires Recovered(st.mounts, st.owner) && h !in st.mounts && Grown(st, r, h, o, m)
    ensures Recovered(r.mounts, r.owner) <==> FreeTarget(m) == o
  {
    hide FreeTarget;
    assert r.mounts[h] == m && r.owner[h] == o;
  }

  lemma MadeExact(st: State, oldId: nat, c: Caller, copyNs: bool)
    ensures var (o, m) := Made(st, oldId, c, copyNs);
            && (o.Normal? ==> o.id !in st.normal) && (o.Sus? ==> o.id !in st.sus && o.id >= SUS_ID)
            && (FreeTarget(m) == o && (o.Normal? ==> o.id < SUS_ID) <==> Demand(st, oldId, c, copyNs))
            && (copyNs && c.domain != Ksu ==> ((o.Normal? ==> o.id < SUS_ID) <==> Demand(st, oldId, c, copyNs)))
  {
    FreeMeans(st);
    ZeroFirst(st);
    hide NormalFree, SmallestFree;
  }

  lemma ZeroFirst(st: State)
    ensures SmallestFree(st.normal, 0) == 0 <==> 0 !in st.normal
  {
  }

  // A new mount keeps every live mount an id of its own, which freeing finds, exactly under its
  // demand: none for KernelSU, a free normal id for others, and what SpoofDemand says for zygote.
  lemma KernMountExact(st: State, h: nat, c: Caller)
    requires Owned(st) && h !in st.mounts
    ensures Owned(KernMount(st, h, c)) <==> Demand(st, 0, c, false)
  {
    hide Owned, OwnersOk, Demand, FreeTarget, KernMount, Made;
    var (o, m) := Made(st, 0, c, false);
    KernShape(st, h, c);
    MadeExact(st, 0, c, false);
    GrownExact(st, KernMount(st, h, c), h, o, m);
  }

  // So does a clone.
  lemma CloneExact(st: State, h: nat, old': nat, c: Caller, copyNs: bool)
    requires Owned(st) && h !in st.mounts && old' in st.mounts
    ensures Owned(CloneMnt(st, h, old', c, copyNs)) <==> Demand(st, st.mounts[old'].id, c, copyNs)
    ensures copyNs && c.domain != Ksu ==>
              var r := CloneMnt(st, h, old', c, copyNs);
              OwnersOk(r.normal, r.sus, r.owner) <==> Demand(st, st.mounts[old'].id, c, copyNs)
  {
    hide Owned, OwnersOk, Demand, FreeTarget, CloneMnt, Made;
    var oldId := st.mounts[old'].id;
    var (o, m) := Made(st, oldId, c, copyNs);
    CloneShape(st, h, old', c, copyNs);
    MadeExact(st, oldId, c, copyNs);
    GrownExact(st, CloneMnt(st, h, old', c, copyNs), h, o, m);
  }

  // With no normal id free below the sus range, a normal mount is taken for a sus one.
  lemma FullPoolMisleads(st: State, h: nat)
    requires !NormalFree(st)
    ensures var r := AllocNormal(st, h); r.owner[h].Normal? && FreeTarget(r.mounts[h]) == Sus(r.owner[h].id)
  {
    FreeMeans(st);
    hide NormalFree, SmallestFree;
  }
}
