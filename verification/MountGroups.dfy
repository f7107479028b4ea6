/** Peer group ids from their two pools, told apart by a threshold when they are released. */
module MountGroups {
  import opened MountIds

  const SUS_GROUP: nat := 1000

  // groupOf holds the id of each mount that is in a peer group. peer only tells the groups
  // apart: mounts that inherit an id are peers of the one they were cloned from.
  datatype Groups = Groups(normal: set<nat>, sus: set<nat>, groupOf: map<nat, nat>, peer: map<nat, nat>, next: nat)

  // A group id of 0 is none.
  function Grouped(groupOf: map<nat, nat>): map<nat, nat> {
    map h | h in groupOf && groupOf[h] != 0 :: groupOf[h]
  }

  lemma GroupedUpdate(groupOf: map<nat, nat>, h: nat, id: nat)
    requires id != 0
    ensures Grouped(groupOf[h := id]) == Grouped(groupOf)[h := id]
  {
  }

  lemma GroupedDrop(groupOf: map<nat, nat>, h: nat)
    ensures Grouped(groupOf[h := 0]) == Grouped(groupOf) - {h}
    ensures h in groupOf && groupOf[h] != 0 ==> h in Grouped(groupOf) && Grouped(groupOf)[h] == groupOf[h]
  {
  }

  // A mount founds a group; the pool follows the mount's id.
  function AllocGroup(g: Groups, h: nat, mntId: nat): Groups {
    var id := if mntId >= SUS_ID then SmallestFree(g.sus, SUS_GROUP) else SmallestFree(g.normal, 1);
    Groups(if mntId >= SUS_ID then g.normal else g.normal + {id}, if mntId >= SUS_ID then g.sus + {id} else g.sus,
           g.groupOf[h := id], g.peer[h := g.next], g.next + 1)
  }

  // The id is given back; the pool follows the id alone.
  function ReleaseGroup(g: Groups, h: nat): Groups
    requires h in g.groupOf
  {
    var id := g.groupOf[h];
    Groups(if id >= SUS_GROUP then g.normal else g.normal - {id}, if id >= SUS_GROUP then g.sus - {id} else g.sus,
           g.groupOf - {h}, g.peer - {h}, g.next)
  }

  function Join(g: Groups, h: nat, from: nat): Groups
    requires from in g.groupOf && from in g.peer
  {
    g.(groupOf := g.groupOf[h := g.groupOf[from]], peer := g.peer[h := g.peer[from]])
  }

  predicate LastPeer(g: Groups, h: nat)
    requires h in g.peer
  {
    forall k | k in g.peer && k != h :: g.peer[k] != g.peer[h]
  }

  // Only the last peer gives the id back.
  function Leave(g: Groups, h: nat): Groups
    requires h in g.groupOf && h in g.peer
  {
    if LastPeer(g, h) then ReleaseGroup(g, h) else g.(groupOf := g.groupOf - {h}, peer := g.peer - {h})
  }

  ghost predicate HeldBy(pool: set<nat>, groupOf: map<nat, nat>) {
    forall i | i in pool :: exists h :: h in groupOf && groupOf[h] == i
  }

  ghost predicate PeersAgree(g: Groups) {
    && g.peer.Keys == g.groupOf.Keys
    && (forall h | h in g.peer :: g.peer[h] < g.next)
    && forall h, k | h in g.groupOf && k in g.groupOf :: g.groupOf[h] == g.groupOf[k] <==> g.peer[h] == g.peer[k]
  }

  ghost predicate Pooled(g: Groups) {
    && (forall h | h in g.groupOf :: g.groupOf[h] >= 1 && g.groupOf[h] in if g.groupOf[h] >= SUS_GROUP then g.sus else g.normal)
    && (forall i | i in g.normal :: 1 <= i < SUS_GROUP)
    && (forall i | i in g.sus :: i >= SUS_GROUP)
  }

  // Mounts have the same group id exactly when they are peers, each id is taken in the pool its
  // number tells, and nothing else is taken.
  ghost predicate GroupsOwned(g: Groups) {
    PeersAgree(g) && Pooled(g) && HeldBy(g.normal, g.groupOf) && HeldBy(g.sus, g.groupOf)
  }

  // A sus mount's group id, or any while a normal one is free below the threshold.
  predicate GroupDemand(g: Groups, mntId: nat) {
    mntId >= SUS_ID || exists i: nat | 1 <= i < SUS_GROUP :: i !in g.normal
  }

  lemma HeldAfterAlloc(pool: set<nat>, groupOf: map<nat, nat>, h: nat, id: nat)
    requires HeldBy(pool, groupOf) && h !in groupOf
    ensures HeldBy(pool, groupOf[h := id]) && HeldBy(pool + {id}, groupOf[h := id])
  {
    var groupOf' := groupOf[h := id];
    assert groupOf'[h] == id;
    forall i | i in pool
      ensures exists k :: k in groupOf' && groupOf'[k] == i
    {
      var k :| k in groupOf && groupOf[k] == i;
      assert groupOf'[k] == i;
    }
  }

  lemma HeldAfterRelease(pool: set<nat>, groupOf: map<nat, nat>, h: nat)
    requires HeldBy(pool, groupOf) && h in groupOf
    ensures HeldBy(pool - {groupOf[h]}, groupOf - {h})
    ensures groupOf[h] !in pool ==> HeldBy(pool, groupOf - {h})
  {
    var groupOf' := groupOf - {h};
    forall i | i in pool && i != groupOf[h]
      ensures exists k :: k in groupOf' && groupOf'[k] == i
    {
      var k :| k in groupOf && groupOf[k] == i;
      assert k in groupOf' && groupOf'[k] == i;
    }
  }

  lemma FreeBelow(g: Groups)
    ensures SmallestFree(g.normal, 1) < SUS_GROUP <==> exists i: nat | 1 <= i < SUS_GROUP :: i !in g.normal
  {
    var id := SmallestFree(g.normal, 1);
    if id < SUS_GROUP { assert 1 <= id < SUS_GROUP && id !in g.normal; }
  }

  lemma AllocExact(g: Groups, h: nat, mntId: nat)
    requires GroupsOwned(g) && h !in g.groupOf
    ensures GroupsOwned(AllocGroup(g, h, mntId)) <==> GroupDemand(g, mntId)
  {
    var r := AllocGroup(g, h, mntId);
    var id := r.groupOf[h];
    FreeBelow(g);
    HeldAfterAlloc(g.normal, g.groupOf, h, id);
    HeldAfterAlloc(g.sus, g.groupOf, h, id);
    hide HeldBy, SmallestFree;
    assert r.groupOf == g.groupOf[h := id];
    if GroupDemand(g, mntId) {
      NewIdPooled(g, r, h, id);
    } else {
      hide PeersAgree;
      assert id in r.normal && id >= SUS_GROUP;
    }
  }

  lemma NewIdPooled(g: Groups, r: Groups, h: nat, id: nat)
    requires PeersAgree(g) && Pooled(g) && h !in g.groupOf && id >= 1
    requires r.groupOf == g.groupOf[h := id] && r.peer == g.peer[h := g.next] && r.next == g.next + 1
    requires if id >= SUS_GROUP then r.normal == g.normal && r.sus == g.sus + {id} && id !in g.sus
             else r.normal == g.normal + {id} && r.sus == g.sus && id !in g.normal
    ensures PeersAgree(r) && Pooled(r)
  {
    assert forall k | k in g.groupOf :: g.groupOf[k] != id;
    hide PeersAgree, Pooled;
    PeerFounded(g, r, h, id);
    PoolFounded(g, r, h, id);
  }

  lemma PeerFounded(g: Groups, r: Groups, h: nat, id: nat)
    requires PeersAgree(g) && h !in g.groupOf && forall k | k in g.groupOf :: g.groupOf[k] != id
    requires r.groupOf == g.groupOf[h := id] && r.peer == g.peer[h := g.next] && r.next == g.next + 1
    ensures PeersAgree(r)
  {
    assert r.groupOf[h] == id && r.peer[h] == g.next;
  }

  lemma PoolFounded(g: Groups, r: Groups, h: nat, id: nat)
    requires Pooled(g) && id >= 1 && r.groupOf == g.groupOf[h := id]
    requires if id >= SUS_GROUP then r.normal == g.normal && r.sus == g.sus + {id}
             else r.normal == g.normal + {id} && r.sus == g.sus
    ensures Pooled(r)
  {
  }

  // A clone that inherits its original's id joins the group.
  lemma JoinKeepsOwned(g: Groups, h: nat, from: nat)
    requires GroupsOwned(g) && h !in g.groupOf && from in g.groupOf
    ensures GroupsOwned(Join(g, h, from))
  {
    var r, id := Join(g, h, from), g.groupOf[from];
    hide HeldBy, PeersAgree, Pooled;
    PeerAdded(g, r, h, from);
    JoinPooled(g, r, h, from);
    HeldAfterJoin(g.normal, g.groupOf, h, id);
    HeldAfterJoin(g.sus, g.groupOf, h, id);
  }

  lemma PeerAdded(g: Groups, r: Groups, h: nat, from: nat)
    requires PeersAgree(g) && h !in g.groupOf && from in g.groupOf && r.next == g.next
    requires r.groupOf == g.groupOf[h := g.groupOf[from]] && r.peer == g.peer[h := g.peer[from]]
    ensures PeersAgree(r)
  {
    assert r.groupOf[h] == g.groupOf[from] && r.peer[h] == g.peer[from];
  }

  lemma JoinPooled(g: Groups, r: Groups, h: nat, from: nat)
    requires Pooled(g) && from in g.groupOf && r.normal == g.normal && r.sus == g.sus && r.groupOf == g.groupOf[h := g.groupOf[from]]
    ensures Pooled(r)
  {
  }

  lemma HeldAfterJoin(pool: set<nat>, groupOf: map<nat, nat>, h: nat, id: nat)
    requires HeldBy(pool, groupOf) && h !in groupOf
    ensures HeldBy(pool, groupOf[h := id])
  {
    HeldAfterAlloc(pool, groupOf, h, id);
    hide HeldBy;
  }

  lemma HeldAfterLeave(pool: set<nat>, groupOf: map<nat, nat>, h: nat, k: nat)
    requires HeldBy(pool, groupOf) && h in groupOf && k in groupOf && k != h && groupOf[k] == groupOf[h]
    ensures HeldBy(pool, groupOf - {h})
  {
    var groupOf' := groupOf - {h};
    forall i | i in pool
      ensures exists j :: j in groupOf' && groupOf'[j] == i
    {
      var j :| j in groupOf && groupOf[j] == i;
      if j == h { assert k in groupOf' && groupOf'[k] == i; } else { assert j in groupOf' && groupOf'[j] == i; }
    }
  }

  // The last peer of a group gives exactly the group's id back, to the pool it came from; any
  // other leaves both pools alone.
  lemma LeaveReturnsOwned(g: Groups, h: nat)
    requires GroupsOwned(g) && h in g.groupOf
    ensures GroupsOwned(Leave(g, h))
    ensures var r, id := Leave(g, h), g.groupOf[h];
            && r.normal == (if LastPeer(g, h) && id in g.normal then g.normal - {id} else g.normal)
            && r.sus == (if LastPeer(g, h) && id in g.sus then g.sus - {id} else g.sus)
            && (id in g.normal <==> id !in g.sus)
  {
    hide HeldBy;
    var r := Leave(g, h);
    PeerRemoved(g, r, h);
    if LastPeer(g, h) {
      HeldAfterRelease(g.normal, g.groupOf, h);
      HeldAfterRelease(g.sus, g.groupOf, h);
      OthersPooled(g, r, h);
    } else {
      var k :| k in g.peer && k != h && g.peer[k] == g.peer[h];
      assert g.groupOf[k] == g.groupOf[h];
      HeldAfterLeave(g.normal, g.groupOf, h, k);
      HeldAfterLeave(g.sus, g.groupOf, h, k);
    }
    hide PeersAgree;
  }

  lemma PeerRemoved(g: Groups, r: Groups, h: nat)
    requires PeersAgree(g) && r.groupOf == g.groupOf - {h} && r.peer == g.peer - {h} && r.next == g.next
    ensures PeersAgree(r)
  {
  }

  lemma OthersPooled(g: Groups, r: Groups, h: nat)
    requires PeersAgree(g) && Pooled(g) && h in g.groupOf && h in g.peer && LastPeer(g, h) && r == ReleaseGroup(g, h)
    ensures Pooled(r)
  {
    assert forall k | k in g.groupOf && k != h :: g.groupOf[k] != g.groupOf[h];
    hide PeersAgree;
  }

  // -------- Over runs --------

  datatype Op = Found(h: nat, mntId: nat) | Inherit(h: nat, from: nat) | Part(h: nat)

  predicate Callable(g: Groups, op: Op) {
    match op
    case Found(h, mntId) => h !in g.groupOf
    case Inherit(h, from) => h !in g.groupOf && from in g.groupOf && from in g.peer
    case Part(h) => h in g.groupOf && h in g.peer
  }

  function Step(g: Groups, op: Op): Groups
    requires Callable(g, op)
  {
    match op
    case Found(h, mntId) => AllocGroup(g, h, mntId)
    case Inherit(h, from) => Join(g, h, from)
    case Part(h) => Leave(g, h)
  }

  ghost predicate Legal(g: Groups, ops: seq<Op>)
    decreases |ops|
  {
    ops != [] ==> Callable(g, ops[0]) && Legal(Step(g, ops[0]), ops[1..])
  }

  ghost predicate AlwaysOwned(g: Groups, ops: seq<Op>)
    requires Legal(g, ops)
    decreases |ops|
  {
    GroupsOwned(g) && (ops != [] ==> AlwaysOwned(Step(g, ops[0]), ops[1..]))
  }

  ghost predicate MeetsDemands(g: Groups, ops: seq<Op>)
    requires Legal(g, ops)
    decreases |ops|
  {
    ops != [] ==> (ops[0].Found? ==> GroupDemand(g, ops[0].mntId)) && MeetsDemands(Step(g, ops[0]), ops[1..])
  }

  // Throughout a run exactly the peers share a group id, and the last of them gives it back to
  // its own pool, exactly when no normal id is taken while all below the threshold are.
  lemma {:induction false} GroupRunsOwned(g: Groups, ops: seq<Op>)
    requires GroupsOwned(g) && Legal(g, ops)
    ensures AlwaysOwned(g, ops) <==> MeetsDemands(g, ops)
    decreases |ops|
  {
    hide GroupsOwned, AllocGroup, Join, Leave, GroupDemand;
    if ops != [] {
      match ops[0] {
        case Found(h, mntId) => AllocExact(g, h, mntId);
        case Inherit(h, from) => JoinKeepsOwned(g, h, from);
        case Part(h) => LeaveReturnsOwned(g, h);
      }
      if GroupsOwned(Step(g, ops[0])) { GroupRunsOwned(Step(g, ops[0]), ops[1..]); }
    }
  }

  // Founding takes the least free id for the mount's kind and shows it to nobody else's group.
  lemma FoundingTakes(g: Groups, h: nat, mntId: nat)
    ensures var r := AllocGroup(g, h, mntId);
            && h in r.groupOf
            && var id := r.groupOf[h];
            && r.groupOf == g.groupOf[h := id]
            && if mntId >= 100000 then Least(g.sus, 1000, id) && r.sus == g.sus + {id} && r.normal == g.normal
               else Least(g.normal, 1, id) && r.normal == g.normal + {id} && r.sus == g.sus
  {
    hide SmallestFree;
  }

  // Releasing goes by the number alone.
  lemma ReleaseFollowsNumber(g: Groups, h: nat)
    requires h in g.groupOf
    ensures var r, id := ReleaseGroup(g, h), g.groupOf[h];
            && h !in r.groupOf
            && if id >= 1000 then r.sus == g.sus - {id} && r.normal == g.normal else r.normal == g.normal - {id} && r.sus == g.sus
  {
  }
}
