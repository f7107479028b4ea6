/** The mount table whose id pools and mount fields the kernel updates in place. View is the
    state it stands for; owner only records which pool entry a mount has taken. */
module MountTable {
  import opened MountIds
  import G = MountGroups

  method IdaAlloc(pool: set<nat>, min: nat) returns (id: nat)
    ensures id == SmallestFree(pool, min)
  {
    id := min;
    while id in pool
      invariant min <= id <= SmallestFree(pool, min)
      invariant forall i | min <= i < id :: i in pool
      decreases SmallestFree(pool, min) - id
    {
      id := id + 1;
    }
  }

  class MountTable {
    var normal: set<nat>
    var sus: set<nat>
    var mounts: map<nat, Mnt>
    ghost var owner: map<nat, Owner>
    var fake: map<nat, nat>
    var groups: set<nat>
    var susGroups: set<nat>
    var groupOf: map<nat, nat>
    ghost var peer: map<nat, nat>
    ghost var nextPeer: nat

    ghost function View(): State
      reads this
    {
      State(normal, sus, mounts, owner, fake)
    }

    method AllocVfsmnt(h: nat, spoof: bool, custom: nat)
      modifies this`normal, this`sus, this`mounts, this`owner
      ensures View() == MountIds.AllocVfsmnt(old(View()), h, spoof, custom)
    {
      var id := custom;
      if spoof {
        if custom == 0 {
          id := IdaAlloc(sus, SUS_ID);
          sus := sus + {id};
          owner := owner[h := Sus(id)];
        } else {
          owner := owner[h := Nothing];
        }
      } else {
        id := IdaAlloc(normal, 0);
        normal := normal + {id};
        owner := owner[h := Normal(id)];
      }
      mounts := mounts[h := Mnt(id, 0)];
    }

    method SpoofId(h: nat, task: nat)
      requires h in mounts
      modifies this`mounts, this`fake
      ensures View() == Spoof(old(View()), h, task)
    {
      var m := mounts[h].(backup := mounts[h].id);
      var next := if task in fake then fake[task] else 0;
      mounts := mounts[h := m.(id := next)];
      fake := fake[task := next + 1];
    }

    method VfsKernMount(h: nat, c: Caller)
      modifies this`normal, this`sus, this`mounts, this`owner, this`fake
      ensures View() == KernMount(old(View()), h, c)
    {
      AllocVfsmnt(h, c.domain == Ksu, 0);
      if c.domain == Zygote {
        SpoofId(h, c.task);
      }
    }

    method CloneMnt(h: nat, old': nat, c: Caller, copyNs: bool, zygoteCopyNs: bool)
      requires old' in mounts
      requires zygoteCopyNs == (copyNs && c.domain == Zygote)
      modifies this`normal, this`sus, this`mounts, this`owner, this`fake
      ensures View() == MountIds.CloneMnt(old(View()), h, old', c, copyNs)
    {
      var oldId := mounts[old'].id;
      if c.domain == Ksu {
        if !copyNs {
          AllocVfsmnt(h, true, 0);
        } else {
          AllocVfsmnt(h, true, oldId);
          mounts := mounts[h := mounts[h].(backup := UNSHARE_MARK)];
        }
      } else if c.domain == Zygote && oldId >= SUS_ID {
        AllocVfsmnt(h, true, 0);
      } else if copyNs && oldId >= SUS_ID {
        AllocVfsmnt(h, true, 0);
      } else {
        AllocVfsmnt(h, false, 0);
      }
      if c.domain == Zygote && !zygoteCopyNs {
        SpoofId(h, c.task);
      }
    }

    method CopyMntNs(hs: seq<nat>, olds: seq<nat>, c: Caller)
      requires |hs| == |olds| > 0 && forall o | o in olds :: o in mounts
      modifies this`normal, this`sus, this`mounts, this`owner, this`fake
      ensures View() == MountIds.CopyMntNs(old(View()), hs, olds, c)
    {
      ghost var st := View();
      assert hs[0..] == hs && olds[0..] == olds;
      var i := 0;
      while i < |hs|
        invariant 0 <= i <= |hs|
        invariant forall o | o in olds :: o in mounts
        invariant CopyTree(View(), hs[i..], olds[i..], c) == CopyTree(st, hs, olds, c)
      {
        assert hs[i..][1..] == hs[i + 1..] && olds[i..][1..] == olds[i + 1..];
        assert hs[i..][0] == hs[i] && olds[i..][0] == olds[i] && forall o | o in olds[i..] :: o in olds;
        CloneMnt(hs[i], olds[i], c, true, c.domain == Zygote);
        i := i + 1;
      }
      assert View() == CopyTree(st, hs, olds, c);
      assert hs[0] in mounts && forall h | h in hs :: h in mounts;
      var last := 0;
      if c.domain == Zygote {
        last := RenumberVisible(hs);
      }
      fake := fake[c.task := last];
    }

    method RenumberVisible(hs: seq<nat>) returns (last: nat)
      requires hs != [] && forall h | h in hs :: h in mounts
      modifies this`mounts
      ensures (mounts, last) == Renumber(old(mounts), hs, old(mounts[hs[0]].id))
    {
      ghost var goal := Renumber(mounts, hs, mounts[hs[0]].id);
      last := mounts[hs[0]].id;
      assert hs[0..] == hs;
      var i := 0;
      while i < |hs|
        invariant 0 <= i <= |hs|
        invariant forall h | h in hs :: h in mounts
        invariant Renumber(mounts, hs[i..], last) == goal
      {
        assert hs[i..][1..] == hs[i + 1..] && hs[i] in hs;
        var q := hs[i];
        i := i + 1;
        if mounts[q].id >= SUS_ID {
          continue;
        }
        var m := mounts[q].(backup := mounts[q].id);
        mounts := mounts[q := m.(id := last)];
        last := last + 1;
      }
    }

    method MntFreeId(h: nat)
      requires h in mounts
      modifies this`normal, this`sus, this`mounts, this`owner
      ensures View() == FreeMnt(old(View()), h)
    {
      var m := mounts[h];
      if m.backup == UNSHARE_MARK {
      } else if m.id >= SUS_ID {
        sus := sus - {m.id};
      } else if m.backup != 0 {
        normal := normal - {m.backup};
      } else {
        normal := normal - {m.id};
      }
      mounts := mounts - {h};
      owner := owner - {h};
    }

    // A group id of 0 is none.
    ghost function GroupView(): G.Groups
      reads this
    {
      G.Groups(groups, susGroups, G.Grouped(groupOf), peer, nextPeer)
    }

    method MntAllocGroupId(h: nat)
      requires h in mounts
      modifies this`groups, this`susGroups, this`groupOf, this`peer, this`nextPeer
      ensures GroupView() == G.AllocGroup(old(GroupView()), h, mounts[h].id)
    {
      hide SmallestFree, G.Grouped;
      var id;
      if mounts[h].id >= SUS_ID {
        id := IdaAlloc(susGroups, G.SUS_GROUP);
        susGroups := susGroups + {id};
      } else {
        id := IdaAlloc(groups, 1);
        groups := groups + {id};
      }
      G.GroupedUpdate(groupOf, h, id);
      groupOf := groupOf[h := id];
      peer, nextPeer := peer[h := nextPeer], nextPeer + 1;
    }

    // Called for the last peer of a group.
    method MntReleaseGroupId(h: nat)
      requires h in groupOf
      modifies this`groups, this`susGroups, this`groupOf, this`peer, this`nextPeer
      ensures groupOf == old(groupOf)[h := 0]
      ensures old(groupOf[h]) != 0 ==> GroupView() == G.ReleaseGroup(old(GroupView()), h)
      ensures old(groupOf[h]) == 0 ==> groups == old(groups) - {0} && susGroups == old(susGroups)
    {
      G.GroupedDrop(groupOf, h);
      hide G.Grouped;
      if groupOf[h] >= G.SUS_GROUP {
        susGroups := susGroups - {groupOf[h]};
        peer := peer - {h};
        groupOf := groupOf[h := 0];
        return;
      }
      groups := groups - {groupOf[h]};
      peer := peer - {h};
      groupOf := groupOf[h := 0];
    }
  }
}
