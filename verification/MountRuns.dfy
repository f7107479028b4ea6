/** Every run of mounts, clones, namespace copies and unmounts: when each live mount owns a pool
    entry of its own and freeing it gives back exactly that entry. */
module MountRuns {
  import opened MountIds
  import opened MountCopies

  datatype Op =
    | Mount(h: nat, c: Caller)
    | Clone(h: nat, old': nat, c: Caller)
    | CopyNs(hs: seq<nat>, olds: seq<nat>, c: Caller)
    | Free(h: nat)

  // New mounts get new handles; what is cloned or freed exists.
  ghost predicate Callable(st: State, op: Op) {
    match op
    case Mount(h, c) => h !in st.mounts
    case Clone(h, old', c) => h !in st.mounts && old' in st.mounts
    case CopyNs(hs, olds, c) => CopyCall(st, hs, olds) && hs != []
    case Free(h) => h in st.mounts
  }

  ghost function Step(st: State, op: Op): State
    requires Callable(st, op)
  {
    match op
    case Mount(h, c) => KernMount(st, h, c)
    case Clone(h, old', c) => CloneMnt(st, h, old', c, false)
    case CopyNs(hs, olds, c) => CopyMntNs(st, hs, olds, c)
    case Free(h) => FreeMnt(st, h)
  }

  ghost predicate StepDemand(st: State, op: Op)
    requires Callable(st, op)
  {
    match op
    case Mount(h, c) => Demand(st, 0, c, false)
    case Clone(h, old', c) => Demand(st, st.mounts[old'].id, c, false)
    case CopyNs(hs, olds, c) => CopyDemand(st, olds, c)
    case Free(h) => true
  }

  lemma StepExact(st: State, op: Op)
    requires Owned(st) && Callable(st, op)
    ensures Owned(Step(st, op)) <==> StepDemand(st, op)
  {
    hide Owned, KernMount, CloneMnt, CopyMntNs, FreeMnt, Demand, CopyDemand;
    match op
    case Mount(h, c) => KernMountExact(st, h, c);
    case Clone(h, old', c) => CloneExact(st, h, old', c, false);
    case CopyNs(hs, olds, c) => CopyMntNsExact(st, hs, olds, c);
    case Free(h) => FreeReturnsOwned(st, h);
  }

  ghost predicate Legal(st: State, ops: seq<Op>)
    decreases |ops|
  {
    ops != [] ==> Callable(st, ops[0]) && Legal(Step(st, ops[0]), ops[1..])
  }

  ghost function Run(st: State, ops: seq<Op>): State
    requires Legal(st, ops)
    decreases |ops|
  {
    if ops == [] then st else Run(Step(st, ops[0]), ops[1..])
  }

  ghost predicate AlwaysOwned(st: State, ops: seq<Op>)
    requires Legal(st, ops)
    decreases |ops|
  {
    Owned(st) && (ops != [] ==> AlwaysOwned(Step(st, ops[0]), ops[1..]))
  }

  ghost predicate MeetsDemands(st: State, ops: seq<Op>)
    requires Legal(st, ops)
    decreases |ops|
  {
    ops != [] ==> StepDemand(st, ops[0]) && MeetsDemands(Step(st, ops[0]), ops[1..])
  }

  // Throughout a run each live mount owns an entry of its own, which freeing finds, exactly when
  // every operation meets its demand.
  lemma {:induction false} RunKeepsOwned(st: State, ops: seq<Op>)
    requires Owned(st) && Legal(st, ops)
    ensures AlwaysOwned(st, ops) <==> MeetsDemands(st, ops)
    ensures MeetsDemands(st, ops) ==> Owned(Run(st, ops))
    decreases |ops|
  {
    hide Owned, Step, StepDemand, Callable;
    if ops != [] {
      StepExact(st, ops[0]);
      if Owned(Step(st, ops[0])) { RunKeepsOwned(Step(st, ops[0]), ops[1..]); }
    }
  }

  // -------- The fake ids that a task's mounts show --------

  // A zygote making one mount.
  predicate MakesFake(op: Op, task: nat) {
    (op.Mount? || op.Clone?) && op.c == Caller(task, Zygote)
  }

  predicate CopiesFor(op: Op, task: nat) {
    op.CopyNs? && op.c.task == task
  }

  function NextFake(st: State, task: nat): nat {
    if task in st.fake then st.fake[task] else 0
  }

  lemma StepFake(st: State, op: Op, task: nat)
    requires Callable(st, op)
    ensures MakesFake(op, task) ==>
              var r := Step(st, op);
              op.h in r.mounts && r.mounts[op.h].id == NextFake(st, task) && NextFake(r, task) == NextFake(st, task) + 1
    ensures !MakesFake(op, task) && !CopiesFor(op, task) ==> NextFake(Step(st, op), task) == NextFake(st, task)
  {
    hide KernMount, CloneMnt, CopyTree, Least;
    match op
    case Mount(h, c) => KernMountShows(st, h, c);
    case Clone(h, old', c) => CloneShows(st, h, old', c, false);
    case CopyNs(hs, olds, c) => CopyTreeFake(st, hs, olds, c);
    case Free(h) =>
  }

  lemma {:induction false} CopyTreeFake(st: State, hs: seq<nat>, olds: seq<nat>, c: Caller)
    requires |hs| == |olds| && forall o | o in olds :: o in st.mounts
    ensures CopyTree(st, hs, olds, c).fake == st.fake
    decreases |hs|
  {
    if hs != [] {
      CloneShape(st, hs[0], olds[0], c, true);
      hide CloneMnt, Grown, Made;
      CopyTreeFake(CloneMnt(st, hs[0], olds[0], c, true), hs[1..], olds[1..], c);
    }
  }

  // The ids that the task's mounts show when they are made, one by one, in a run.
  ghost function Shown(st: State, ops: seq<Op>, task: nat): seq<nat>
    requires Legal(st, ops)
    decreases |ops|
  {
    if ops == [] then []
    else
      StepFake(st, ops[0], task);
      (if MakesFake(ops[0], task) then [Step(st, ops[0]).mounts[ops[0].h].id] else [])
      + Shown(Step(st, ops[0]), ops[1..], task)
  }

  // Whatever other tasks do and whatever is freed meanwhile, these ids are consecutive from the
  // task's next fake id on.
  lemma {:induction false} ShownConsecutive(st: State, ops: seq<Op>, task: nat)
    requires Legal(st, ops) && forall op | op in ops :: !CopiesFor(op, task)
    ensures forall i | 0 <= i < |Shown(st, ops, task)| :: Shown(st, ops, task)[i] == NextFake(st, task) + i
    ensures NextFake(Run(st, ops), task) == NextFake(st, task) + |Shown(st, ops, task)|
    decreases |ops|
  {
    hide Step, Callable, MakesFake, CopiesFor, NextFake;
    if ops != [] {
      assert ops[0] in ops && forall op | op in ops[1..] :: op in ops;
      StepFake(st, ops[0], task);
      ShownConsecutive(Step(st, ops[0]), ops[1..], task);
    }
  }

  // After a zygote's copy of a namespace they go on where the visible ids of the copy end.
  lemma ShownAfterCopy(st: State, hs: seq<nat>, olds: seq<nat>, c: Caller, ops: seq<Op>)
    requires Owned(st) && Callable(st, CopyNs(hs, olds, c)) && c.domain == Zygote && TreeDemand(st, olds, c)
    requires st.mounts[olds[0]].id < SUS_ID
    requires Legal(CopyMntNs(st, hs, olds, c), ops) && forall op | op in ops :: !CopiesFor(op, c.task)
    ensures var r := CopyMntNs(st, hs, olds, c);
            forall i, j | 0 <= i < |Shown(r, ops, c.task)| && 0 <= j < |hs| ::
              && hs[j] in r.mounts && hs[0] in r.mounts
              && Shown(r, ops, c.task)[i] == r.mounts[hs[0]].id + Visible(st.mounts, olds) + i
              && (st.mounts[olds[j]].id < SUS_ID ==> r.mounts[hs[j]].id < Shown(r, ops, c.task)[i])
  {
    hide TreeDemand, Owned, Visible, CopyMntNs, CopyTree, SmallestFree, Shown, Legal, CopiesFor;
    var r := CopyMntNs(st, hs, olds, c);
    ShownConsecutive(r, ops, c.task);
    CopyEnds(st, hs, olds, c);
    forall j | 0 <= j < |hs|
      ensures hs[j] in r.mounts && hs[0] in r.mounts && NextFake(r, c.task) == r.mounts[hs[0]].id + Visible(st.mounts, olds)
      ensures st.mounts[olds[j]].id < SUS_ID ==> r.mounts[hs[j]].id < NextFake(r, c.task)
    {
      CopyBelow(st, hs, olds, c, j);
    }
  }

  // The copy's first mount shows the least free id, and the task's next one follows them all.
  lemma CopyEnds(st: State, hs: seq<nat>, olds: seq<nat>, c: Caller)
    requires Owned(st) && Callable(st, CopyNs(hs, olds, c)) && c.domain == Zygote && TreeDemand(st, olds, c)
    requires st.mounts[olds[0]].id < SUS_ID
    ensures var r := CopyMntNs(st, hs, olds, c);
            && hs[0] in r.mounts && r.mounts[hs[0]].id == SmallestFree(st.normal, 0) && c.task in r.fake
            && r.fake[c.task] == SmallestFree(st.normal, 0) + Visible(st.mounts, olds)
  {
    hide TreeDemand, Owned, Visible, CopyTree, SmallestFree;
    ZygoteCopyConsecutive(st, hs, olds, c, 0);
    assert olds[..0] == [];
    NoneVisible(st.mounts);
    hide CopyCall;
  }

  lemma CopyBelow(st: State, hs: seq<nat>, olds: seq<nat>, c: Caller, j: nat)
    requires Owned(st) && Callable(st, CopyNs(hs, olds, c)) && c.domain == Zygote && TreeDemand(st, olds, c)
    requires st.mounts[olds[0]].id < SUS_ID && j < |hs|
    ensures var r := CopyMntNs(st, hs, olds, c);
            && hs[j] in r.mounts
            && (st.mounts[olds[j]].id < SUS_ID ==> r.mounts[hs[j]].id < SmallestFree(st.normal, 0) + Visible(st.mounts, olds))
  {
    hide TreeDemand, Owned, Visible, CopyMntNs, CopyTree, SmallestFree;
    ZygoteCopyConsecutive(st, hs, olds, c, j);
    VisiblePrefix(st.mounts, olds, j);
  }

  lemma NoneVisible(mounts: map<nat, Mnt>)
    ensures Visible(mounts, []) == 0
  {
  }

  lemma {:induction false} VisiblePrefix(mounts: map<nat, Mnt>, hs: seq<nat>, j: nat)
    requires j < |hs| && forall h | h in hs :: h in mounts
    ensures forall h | h in hs[..j] :: h in mounts
    ensures Visible(mounts, hs) >= Visible(mounts, hs[..j]) + if mounts[hs[j]].id < SUS_ID then 1 else 0
    decreases |hs|
  {
    if j > 0 {
      VisiblePrefix(mounts, hs[1..], j - 1);
      assert hs[..j][1..] == hs[1..][..j - 1];
    }
  }

  // After anybody else's copy of a namespace they start from 0 again.
  lemma ShownAfterOtherCopy(st: State, hs: seq<nat>, olds: seq<nat>, c: Caller, ops: seq<Op>)
    requires Callable(st, CopyNs(hs, olds, c)) && c.domain != Zygote
    requires Legal(CopyMntNs(st, hs, olds, c), ops) && forall op | op in ops :: !CopiesFor(op, c.task)
    ensures forall i | 0 <= i < |Shown(CopyMntNs(st, hs, olds, c), ops, c.task)| ::
              Shown(CopyMntNs(st, hs, olds, c), ops, c.task)[i] == i
  {
    ShownConsecutive(CopyMntNs(st, hs, olds, c), ops, c.task);
    hide CopyTree, Shown, Legal;
  }
}
