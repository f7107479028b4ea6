/** The in-memory SELinux policy as a value, and every rewriting operation on it as a
    function: what the operations of PolicyDb compute, independent of hash order. */
module Sepolicy {
  import opened Options

  // A 32-bit access vector is the set of its bit positions; ALL_BITS is ~0U.
  const ALL_BITS: set<int> := set i: int | 0 <= i < 32

  // A type or an attribute; an alias is a second name for the same value.
  datatype TypeDatum = TypeDatum(value: nat, primary: bool, attribute: bool)

  // typeNames are the types and attributes an expression was written with, names its
  // expansion; both hold value - 1.
  datatype ExprKind = CexprNames | CexprOther
  datatype ConstraintExpr = ConstraintExpr(kind: ExprKind, typeNames: set<int>, names: set<int>)

  datatype ClassDatum = ClassDatum(value: nat, perms: map<string, nat>, common: Option<map<string, nat>>,
                                   constraints: seq<seq<ConstraintExpr>>)

  datatype Effect = Allowed | AuditAllow | AuditDeny | XpermsAllowed | XpermsAuditAllow | XpermsDontAudit
  {
    predicate IsXperms() { XpermsAllowed? || XpermsAuditAllow? || XpermsDontAudit? }
  }

  datatype AvKey = AvKey(source: int, target: int, cls: int, specified: Effect)

  datatype XpermKind = IoctlDriver | IoctlFunction
  datatype XpermKey = XpermKey(key: AvKey, kind: XpermKind, driver: nat)

  datatype Policy = Policy(
    types: map<string, TypeDatum>,
    nprim: nat,
    classes: map<string, ClassDatum>,
    av: map<AvKey, set<int>>,            // one access vector per key
    xperms: map<XpermKey, set<int>>,     // one 256-bit bitmap per key, kind and driver
    rows: seq<set<int>>,                 // type_attr_map_array
    structs: seq<TypeDatum>,             // type_val_to_struct
    names: seq<string>,                  // sym_val_to_name[SYM_TYPES]
    roles: seq<set<int>>,
    len: nat)

  // sizeof(avtab_key) + sizeof(avtab_datum); an extended permission adds two u8 and eight u32.
  const AV_NODE_SIZE: nat := 16
  const XPERM_NODE_SIZE: nat := 50

  // -------- Access vector rules --------

  predicate StripAv(effect: Effect, invert: bool) {
    (effect == AuditDeny) == !invert
  }

  function Default(effect: Effect): set<int> {
    if effect == AuditDeny then ALL_BITS else {}
  }

  function Read(av: map<AvKey, set<int>>, k: AvKey): set<int> {
    if k in av then av[k] else Default(k.specified)
  }

  // The bits a rule names: one permission, or the whole vector.
  function PermBits(perm: Option<nat>): set<int>
  {
    if perm.Some? then {perm.value - 1} else ALL_BITS
  }

  function Update(word: set<int>, perm: Option<nat>, invert: bool): set<int>
  {
    if invert then (if perm.Some? then word - PermBits(perm) else {})
    else if perm.Some? then word + PermBits(perm) else ALL_BITS
  }

  function ValuesOf(types: map<string, TypeDatum>, names: set<string>, all: bool): set<nat> {
    set n | n in names && n in types && (all || types[n].attribute) :: types[n].value
  }

  function Values(types: map<string, TypeDatum>, all: bool): set<nat> {
    ValuesOf(types, types.Keys, all)
  }

  function ClassValuesOf(classes: map<string, ClassDatum>, names: set<string>): set<nat> {
    set n | n in names && n in classes :: classes[n].value
  }

  function TypeSide(types: map<string, TypeDatum>, d: Option<TypeDatum>, all: bool): set<nat> {
    if d.Some? then {d.value.value} else Values(types, all)
  }

  function ClassSide(classes: map<string, ClassDatum>, c: Option<ClassDatum>): set<nat> {
    if c.Some? then {c.value.value} else ClassValuesOf(classes, classes.Keys)
  }

  function Box(S: set<nat>, T: set<nat>, C: set<nat>, effect: Effect): set<AvKey> {
    set s, t, c | s in S && t in T && c in C :: AvKey(s, t, c, effect)
  }

  function Footprint(types: map<string, TypeDatum>, classes: map<string, ClassDatum>, src: Option<TypeDatum>,
                     tgt: Option<TypeDatum>, cls: Option<ClassDatum>, effect: Effect, all: bool): set<AvKey>
  {
    Box(TypeSide(types, src, all), TypeSide(types, tgt, all), ClassSide(classes, cls), effect)
  }

  function Rewrite(av: map<AvKey, set<int>>, foot: set<AvKey>, perm: Option<nat>, invert: bool): map<AvKey, set<int>>
  {
    map k | k in av.Keys + foot :: if k in foot then Update(Read(av, k), perm, invert) else av[k]
  }

  function LookupType(types: map<string, TypeDatum>, name: Option<string>): Option<TypeDatum>
    requires name.Some? ==> name.value in types
  {
    if name.Some? then Some(types[name.value]) else None
  }

  function LookupClass(classes: map<string, ClassDatum>, name: Option<string>): Option<ClassDatum>
    requires name.Some? ==> name.value in classes
  {
    if name.Some? then Some(classes[name.value]) else None
  }

  // A permission is looked up in the class, then in the common it inherits from.
  function FindPerm(c: ClassDatum, perm: string): Option<nat> {
    if perm in c.perms then Some(c.perms[perm])
    else if c.common.Some? && perm in c.common.value then Some(c.common.value[perm])
    else None
  }

  predicate SidesExist(p: Policy, s: Option<string>, t: Option<string>, c: Option<string>) {
    && (s.Some? ==> s.value in p.types)
    && (t.Some? ==> t.value in p.types)
    && (c.Some? ==> c.value in p.classes)
  }

  predicate RuleExists(p: Policy, s: Option<string>, t: Option<string>, c: Option<string>, perm: Option<string>) {
    && SidesExist(p, s, t, c)
    && (perm.Some? ==> c.Some? && FindPerm(p.classes[c.value], perm.value).Some?)
  }

  function PermValue(p: Policy, c: Option<string>, perm: Option<string>): Option<nat>
    requires perm.Some? ==> c.Some? && c.value in p.classes
  {
    if perm.Some? then FindPerm(p.classes[c.value], perm.value) else None
  }

  function ApplyRule(p: Policy, foot: set<AvKey>, perm: Option<nat>, invert: bool): Policy {
    p.(av := Rewrite(p.av, foot, perm, invert), len := p.len + AV_NODE_SIZE * |foot - p.av.Keys|)
  }

  function AddRuleRaw(p: Policy, src: Option<TypeDatum>, tgt: Option<TypeDatum>, cls: Option<ClassDatum>,
                      perm: Option<nat>, effect: Effect, invert: bool): Policy
  {
    ApplyRule(p, Footprint(p.types, p.classes, src, tgt, cls, effect, StripAv(effect, invert)), perm, invert)
  }

  function AddRule(p: Policy, s: Option<string>, t: Option<string>, c: Option<string>, perm: Option<string>,
                   effect: Effect, invert: bool): Policy
  {
    if !RuleExists(p, s, t, c, perm) then p
    else AddRuleRaw(p, LookupType(p.types, s), LookupType(p.types, t), LookupClass(p.classes, c),
                    PermValue(p, c, perm), effect, invert)
  }

  // -------- Extended permissions --------

  function Driver(x: nat): nat { x / 256 % 256 }
  function Func(x: nat): nat { x % 256 }

  function XpermKindOf(low: nat, high: nat): XpermKind {
    if Driver(low) != Driver(high) then IoctlDriver else IoctlFunction
  }

  function XpermDriverOf(low: nat, high: nat): nat {
    if Driver(low) != Driver(high) then 0 else Driver(low)
  }

  function Span(lo: int, hi: int): (r: set<int>)
    ensures forall i :: i in r <==> lo <= i <= hi
    decreases hi - lo
  {
    if hi < lo then {} else Span(lo, hi - 1) + {hi}
  }

  // Clearing bits of a zeroed bitmap leaves it zero.
  function XpermBits(low: nat, high: nat, invert: bool): set<int> {
    if invert then {}
    else if Driver(low) != Driver(high) then Span(Driver(low), Driver(high))
    else Span(Func(low), Func(high))
  }

  function XpermKeys(foot: set<AvKey>, kind: XpermKind, driver: nat): set<XpermKey> {
    set k | k in foot :: XpermKey(k, kind, driver)
  }

  // A bitmap already present for the key, kind and driver wins.
  function XpermInsert(xperms: map<XpermKey, set<int>>, keys: set<XpermKey>, bits: set<int>): map<XpermKey, set<int>> {
    map k | k in xperms.Keys + keys :: if k in xperms then xperms[k] else bits
  }

  function InsertXperms(p: Policy, keys: set<XpermKey>, bits: set<int>): Policy {
    p.(xperms := XpermInsert(p.xperms, keys, bits), len := p.len + XPERM_NODE_SIZE * |keys - p.xperms.Keys|)
  }

  function ApplyXperm(p: Policy, foot: set<AvKey>, low: nat, high: nat, invert: bool): Policy {
    InsertXperms(p, XpermKeys(foot, XpermKindOf(low, high), XpermDriverOf(low, high)), XpermBits(low, high, invert))
  }

  function AddXpermRuleRaw(p: Policy, src: Option<TypeDatum>, tgt: Option<TypeDatum>, cls: Option<ClassDatum>,
                           low: nat, high: nat, effect: Effect, invert: bool): Policy
  {
    ApplyXperm(p, Footprint(p.types, p.classes, src, tgt, cls, effect, false), low, high, invert)
  }

  // The range is None for ALL, otherwise its two parsed ends.
  function AddXpermRule(p: Policy, s: Option<string>, t: Option<string>, c: Option<string>,
                        range: Option<(nat, nat)>, effect: Effect, invert: bool): Policy
  {
    if !SidesExist(p, s, t, c) then p
    else
      var (low, high) := if range.Some? then range.value else (0, 0xFFFF);
      AddXpermRuleRaw(p, LookupType(p.types, s), LookupType(p.types, t), LookupClass(p.classes, c),
                      low, high, effect, invert)
  }

  // -------- Types and attributes --------

  function GrowRoles(roles: seq<set<int>>, bit: int): seq<set<int>> {
    seq(|roles|, i requires 0 <= i < |roles| => roles[i] + {bit})
  }

  function AddType(p: Policy, name: string, attr: bool): Policy {
    if name in p.types then p
    else
      var datum := TypeDatum(p.nprim + 1, true, attr);
      p.(types := p.types[name := datum], nprim := p.nprim + 1,
         rows := p.rows + [{p.nprim}], structs := p.structs + [datum], names := p.names + [name],
         roles := GrowRoles(p.roles, p.nprim))
  }

  function CloseExpr(e: ConstraintExpr, bit: int, attrBit: int): ConstraintExpr {
    if e.kind == CexprNames && attrBit in e.typeNames then e.(names := e.names + {bit}) else e
  }

  function CloseNode(n: seq<ConstraintExpr>, bit: int, attrBit: int): seq<ConstraintExpr> {
    seq(|n|, i requires 0 <= i < |n| => CloseExpr(n[i], bit, attrBit))
  }

  function CloseClass(c: ClassDatum, bit: int, attrBit: int): ClassDatum {
    c.(constraints := seq(|c.constraints|, i requires 0 <= i < |c.constraints| => CloseNode(c.constraints[i], bit, attrBit)))
  }

  function CloseClasses(classes: map<string, ClassDatum>, bit: int, attrBit: int): map<string, ClassDatum> {
    map n | n in classes :: CloseClass(classes[n], bit, attrBit)
  }

  predicate CanAddAttribute(p: Policy, name: string, attr: string) {
    && name in p.types && !p.types[name].attribute
    && attr in p.types && p.types[attr].attribute
  }

  function SetBit(rows: seq<set<int>>, row: int, bit: int): seq<set<int>> {
    if 0 <= row < |rows| then rows[row := rows[row] + {bit}] else rows
  }

  function AddTypeAttribute(p: Policy, name: string, attr: string): Policy
  {
    if !CanAddAttribute(p, name, attr) then p
    else
      var bit, attrBit := p.types[name].value - 1, p.types[attr].value - 1;
      p.(rows := SetBit(p.rows, bit, attrBit), classes := CloseClasses(p.classes, bit, attrBit))
  }

  // -------- What a loaded policy satisfies --------

  ghost predicate WellFormedPerms(perms: map<string, nat>) {
    forall q | q in perms :: 1 <= perms[q] <= 32
  }

  ghost predicate WellFormedClasses(classes: map<string, ClassDatum>) {
    forall n | n in classes ::
      && WellFormedPerms(classes[n].perms)
      && (classes[n].common.Some? ==> WellFormedPerms(classes[n].common.value))
  }

  // Row v - 1 of all three tables belongs to the type with value v.
  ghost predicate TablesMatch(p: Policy) {
    && |p.rows| == |p.structs| == |p.names| == p.nprim
    && forall i {:trigger p.names[i]} | 0 <= i < p.nprim ::
         && p.names[i] in p.types
         && p.types[p.names[i]] == p.structs[i]
         && p.structs[i].value == i + 1
  }

  // Every name in the symbol table stands for one of these types.
  ghost predicate SymbolsResolve(p: Policy)
    requires |p.structs| == p.nprim
  {
    forall n {:trigger n in p.types} | n in p.types ::
      && 1 <= p.types[n].value <= p.nprim
      && p.structs[p.types[n].value - 1].attribute == p.types[n].attribute
  }

  // Every type is in its own row, and rows hold known types only.
  ghost predicate RowsInRange(rows: seq<set<int>>) {
    forall i | 0 <= i < |rows| :: i in rows[i] && forall b | b in rows[i] :: 0 <= b < |rows|
  }

  ghost predicate Coherent(p: Policy) {
    TablesMatch(p) && SymbolsResolve(p) && RowsInRange(p.rows)
  }

  ghost predicate KeysNamed(p: Policy) {
    forall k | k in p.av :: 1 <= k.source <= p.nprim && 1 <= k.target <= p.nprim
  }

  ghost predicate WellFormed(p: Policy) {
    WellFormedClasses(p.classes) && Coherent(p) && KeysNamed(p)
  }
}
