/** The rule table as the list of its nodes, and the two maps it stands for: access vectors by
    key, and extended-permission bitmaps by key, kind and driver. */
module Avtab {
  import opened Options
  import opened Sepolicy

  // An extended-permission bitmap is eight 32-bit words.
  datatype XpermData = XpermData(kind: XpermKind, driver: nat, words: seq<set<int>>)

  datatype AvNode = AvNode(key: AvKey, bits: set<int>, xperms: Option<XpermData>)
  {
    // Two nodes with the same slot are the same rule.
    function Slot(): (AvKey, Option<(XpermKind, nat)>) {
      (key, if xperms.Some? then Some((xperms.value.kind, xperms.value.driver)) else None)
    }

    predicate Valid() {
      && (xperms.Some? <==> key.specified.IsXperms())
      && (xperms.Some? ==> |xperms.value.words| == 8)
    }
  }

  function Flat(words: seq<set<int>>): set<int>
    requires |words| == 8
  {
    set x | 0 <= x < 256 && x % 32 in words[x / 32]
  }

  ghost predicate ValidTable(tab: seq<AvNode>) {
    && (forall n | n in tab :: n.Valid())
    && forall i, j | 0 <= i < j < |tab| :: tab[i].Slot() != tab[j].Slot()
  }

  ghost predicate Holds(tab: seq<AvNode>, slot: (AvKey, Option<(XpermKind, nat)>)) {
    exists n :: n in tab && n.Slot() == slot
  }

  ghost function AvView(tab: seq<AvNode>): map<AvKey, set<int>>
    requires ValidTable(tab)
  {
    map n | n in tab && n.xperms.None? :: n.key := n.bits
  }

  function XKey(n: AvNode): XpermKey
    requires n.xperms.Some?
  {
    XpermKey(n.key, n.xperms.value.kind, n.xperms.value.driver)
  }

  ghost function XpermView(tab: seq<AvNode>): map<XpermKey, set<int>>
    requires ValidTable(tab)
  {
    map n | n in tab && n.xperms.Some? :: XKey(n) := Flat(n.xperms.value.words)
  }

  lemma AppendValid(tab: seq<AvNode>, n: AvNode)
    requires ValidTable(tab) && n.Valid() && !Holds(tab, n.Slot())
    ensures ValidTable(tab + [n])
  {
    assert forall m :: m in tab + [n] <==> m in tab || m == n;
    assert forall i | 0 <= i < |tab| :: tab[i] in tab;
  }

  lemma AppendAv(tab: seq<AvNode>, n: AvNode)
    requires ValidTable(tab) && ValidTable(tab + [n])
    ensures AvView(tab + [n]) == if n.xperms.None? then AvView(tab)[n.key := n.bits] else AvView(tab)
  {
    assert forall m :: m in tab + [n] <==> m in tab || m == n;
    assert forall i | 0 <= i < |tab| :: (tab + [n])[i] == tab[i];
    assert (tab + [n])[|tab|] == n;
  }

  lemma AppendXperm(tab: seq<AvNode>, n: AvNode)
    requires n.Valid() && ValidTable(tab) && ValidTable(tab + [n])
    ensures XpermView(tab + [n]) ==
            if n.xperms.Some? then XpermView(tab)[XKey(n) := Flat(n.xperms.value.words)] else XpermView(tab)
  {
    assert forall m :: m in tab + [n] <==> m in tab || m == n;
    assert (tab + [n])[|tab|] == n;
    hide Flat;
  }

  lemma ViewAppend(tab: seq<AvNode>, n: AvNode)
    requires ValidTable(tab) && n.Valid() && !Holds(tab, n.Slot())
    ensures ValidTable(tab + [n])
    ensures AvView(tab + [n]) == if n.xperms.None? then AvView(tab)[n.key := n.bits] else AvView(tab)
    ensures XpermView(tab + [n]) ==
            if n.xperms.Some? then XpermView(tab)[XKey(n) := Flat(n.xperms.value.words)] else XpermView(tab)
  {
    hide ValidTable, AvView, XpermView, Holds;
    AppendValid(tab, n);
    AppendAv(tab, n);
    AppendXperm(tab, n);
  }

  lemma ViewUpdate(tab: seq<AvNode>, i: nat, bits: set<int>)
    requires ValidTable(tab) && i < |tab| && tab[i].xperms.None?
    ensures ValidTable(tab[i := tab[i].(bits := bits)])
    ensures AvView(tab[i := tab[i].(bits := bits)]) == AvView(tab)[tab[i].key := bits]
    ensures XpermView(tab[i := tab[i].(bits := bits)]) == XpermView(tab)
  {
    var n := tab[i].(bits := bits);
    assert tab[i] in tab && tab[i].Valid() && n.Valid();
    UpdateMembers(tab, i, n);
    UpdateValid(tab, i, n);
    assert forall m | m in tab && m != tab[i] :: m.Slot() != tab[i].Slot();
    hide Flat;
  }

  lemma UpdateValid(tab: seq<AvNode>, i: nat, n: AvNode)
    requires ValidTable(tab) && i < |tab| && n.Valid() && n.Slot() == tab[i].Slot()
    ensures ValidTable(tab[i := n])
  {
    assert forall j | 0 <= j < |tab| :: tab[i := n][j].Slot() == tab[j].Slot();
    assert forall j | 0 <= j < |tab| :: tab[j] in tab;
  }

  lemma UpdateMembers<T>(tab: seq<T>, i: nat, n: T)
    requires i < |tab| && forall j | 0 <= j < |tab| && j != i :: tab[j] != tab[i]
    ensures forall m :: m in tab[i := n] <==> (m in tab && m != tab[i]) || m == n
  {
    var tab' := tab[i := n];
    forall m
      ensures m in tab' <==> (m in tab && m != tab[i]) || m == tab'[i]
    {
      if m in tab && m != tab[i] {
        var j :| 0 <= j < |tab| && tab[j] == m;
        assert tab'[j] == m;
      }
      if m == tab[i] && m in tab' {
        var j :| 0 <= j < |tab'| && tab'[j] == m;
      }
    }
  }

  lemma ViewAt(tab: seq<AvNode>, i: nat)
    requires ValidTable(tab) && i < |tab|
    ensures tab[i].xperms.None? ==> tab[i].key in AvView(tab) && AvView(tab)[tab[i].key] == tab[i].bits
    ensures tab[i].xperms.Some? ==> XKey(tab[i]) in XpermView(tab)
  {
    assert tab[i] in tab;
  }
}
