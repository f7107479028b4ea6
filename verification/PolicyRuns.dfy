/** What any run of policy rewriting operations keeps, and what the rules it adds mean for
    the access decisions taken from the rewritten policy. */
module PolicyRuns {
  import opened Options
  import opened Sepolicy

  datatype Op =
    | Allow(s: Option<string>, t: Option<string>, c: Option<string>, perm: Option<string>)
    | Deny(s: Option<string>, t: Option<string>, c: Option<string>, perm: Option<string>)
    | AuditAllowRule(s: Option<string>, t: Option<string>, c: Option<string>, perm: Option<string>)
    | DontAudit(s: Option<string>, t: Option<string>, c: Option<string>, perm: Option<string>)
    | Xperm(s: Option<string>, t: Option<string>, c: Option<string>, range: Option<(nat, nat)>, effect: Effect)
    | Type(name: string, attr: string)
    | Attribute(name: string)
    | TypeAttribute(name: string, attr: string)

  function Step(p: Policy, op: Op): Policy
  {
    match op
    case Allow(s, t, c, q) => AddRule(p, s, t, c, q, Allowed, false)
    case Deny(s, t, c, q) => AddRule(p, s, t, c, q, Allowed, true)
    case AuditAllowRule(s, t, c, q) => AddRule(p, s, t, c, q, AuditAllow, false)
    case DontAudit(s, t, c, q) => AddRule(p, s, t, c, q, AuditDeny, true)
    case Xperm(s, t, c, range, effect) => AddXpermRule(p, s, t, c, range, effect, false)
    case Type(name, attr) =>
      AddTypeAttribute(AddType(p, name, false), name, attr)
    case Attribute(name) => AddType(p, name, true)
    case TypeAttribute(name, attr) => AddTypeAttribute(p, name, attr)
  }

  function Run(p: Policy, ops: seq<Op>): Policy
    decreases |ops|
  {
    if ops == [] then p else Run(Step(p, ops[0]), ops[1..])
  }

  // -------- Coherence --------

  lemma AddTypeKeepsTables(p: Policy, name: string, attr: bool)
    requires Coherent(p) && name !in p.types
    ensures TablesMatch(AddType(p, name, attr))
  {
    hide SymbolsResolve, RowsInRange;
    var q := AddType(p, name, attr);
    forall i | 0 <= i < q.nprim
      ensures q.names[i] in q.types && q.types[q.names[i]] == q.structs[i] && q.structs[i].value == i + 1
    {
      if i < p.nprim { assert q.names[i] == p.names[i]; }
    }
  }

  lemma AddTypeKeepsRows(p: Policy, name: string, attr: bool)
    requires Coherent(p) && name !in p.types
    ensures RowsInRange(AddType(p, name, attr).rows)
  {
    hide SymbolsResolve;
    var rows := AddType(p, name, attr).rows;
    forall i | 0 <= i < |rows|
      ensures i in rows[i] && forall b | b in rows[i] :: 0 <= b < |rows|
    {
      if i < p.nprim { assert rows[i] == p.rows[i]; }
    }
  }

  lemma AddTypeKeepsWellFormed(p: Policy, name: string, attr: bool)
    requires WellFormed(p)
    ensures WellFormed(AddType(p, name, attr))
  {
    if name !in p.types {
      AddTypeKeepsTables(p, name, attr);
      AddTypeKeepsRows(p, name, attr);
      hide RowsInRange;
      assert SymbolsResolve(AddType(p, name, attr));
    }
  }

  lemma AddTypeAttributeKeepsWellFormed(p: Policy, name: string, attr: string)
    requires WellFormed(p)
    ensures WellFormed(AddTypeAttribute(p, name, attr))
  {
  }

  lemma NamedValues(p: Policy, all: bool)
    requires Coherent(p)
    ensures forall v :: v in Values(p.types, all) <==> 1 <= v <= p.nprim && (all || p.structs[v - 1].attribute)
  {
    hide RowsInRange;
    forall v | 1 <= v <= p.nprim && (all || p.structs[v - 1].attribute)
      ensures v in Values(p.types, all)
    {
      assert p.names[v - 1] in p.types;
    }
  }

  lemma FootprintNamed(p: Policy, s: Option<string>, t: Option<string>, c: Option<ClassDatum>, effect: Effect, all: bool)
    requires Coherent(p)
    requires (s.Some? ==> s.value in p.types) && (t.Some? ==> t.value in p.types)
    ensures forall k | k in Footprint(p.types, p.classes, LookupType(p.types, s), LookupType(p.types, t), c, effect, all) ::
              1 <= k.source <= p.nprim && 1 <= k.target <= p.nprim
  {
    NamedValues(p, all);
    hide TablesMatch, RowsInRange, Values;
  }

  // q differs from p in its rule tables at most.
  ghost predicate SameTables(p: Policy, q: Policy) {
    && q.types == p.types && q.nprim == p.nprim && q.structs == p.structs && q.names == p.names
    && q.rows == p.rows && q.roles == p.roles && q.classes == p.classes
  }

  lemma SameTablesCoherent(p: Policy, q: Policy)
    requires SameTables(p, q) && Coherent(p)
    ensures Coherent(q)
  {
  }

  lemma AddRuleRawSameTables(p: Policy, src: Option<TypeDatum>, tgt: Option<TypeDatum>, cls: Option<ClassDatum>,
                             perm: Option<nat>, effect: Effect, invert: bool)
    ensures SameTables(p, AddRuleRaw(p, src, tgt, cls, perm, effect, invert))
  {
  }

  lemma AddRuleSameTables(p: Policy, s: Option<string>, t: Option<string>, c: Option<string>, q: Option<string>,
                          effect: Effect, invert: bool)
    ensures SameTables(p, AddRule(p, s, t, c, q, effect, invert))
  {
    hide AddRuleRaw;
    if RuleExists(p, s, t, c, q) {
      AddRuleRawSameTables(p, LookupType(p.types, s), LookupType(p.types, t), LookupClass(p.classes, c),
                           PermValue(p, c, q), effect, invert);
    }
  }

  lemma AddRuleKeysNamed(p: Policy, s: Option<string>, t: Option<string>, c: Option<string>, q: Option<string>,
                         effect: Effect, invert: bool)
    requires Coherent(p) && KeysNamed(p)
    ensures KeysNamed(AddRule(p, s, t, c, q, effect, invert))
  {
    if RuleExists(p, s, t, c, q) {
      FootprintNamed(p, s, t, LookupClass(p.classes, c), effect, StripAv(effect, invert));
      hide Coherent, Footprint, FindPerm, Update, Read;
    }
  }

  lemma AddRuleKeepsWellFormed(p: Policy, s: Option<string>, t: Option<string>, c: Option<string>, q: Option<string>,
                               effect: Effect, invert: bool)
    requires WellFormed(p)
    ensures WellFormed(AddRule(p, s, t, c, q, effect, invert))
  {
    AddRuleSameTables(p, s, t, c, q, effect, invert);
    AddRuleKeysNamed(p, s, t, c, q, effect, invert);
    hide Coherent, AddRule, KeysNamed, WellFormedClasses;
    SameTablesCoherent(p, AddRule(p, s, t, c, q, effect, invert));
  }

  lemma AddXpermRawSameTables(p: Policy, src: Option<TypeDatum>, tgt: Option<TypeDatum>, cls: Option<ClassDatum>,
                              low: nat, high: nat, effect: Effect)
    ensures SameTables(p, AddXpermRuleRaw(p, src, tgt, cls, low, high, effect, false))
    ensures AddXpermRuleRaw(p, src, tgt, cls, low, high, effect, false).av == p.av
  {
  }

  lemma AddXpermKeepsWellFormed(p: Policy, s: Option<string>, t: Option<string>, c: Option<string>,
                                range: Option<(nat, nat)>, effect: Effect)
    requires WellFormed(p)
    ensures WellFormed(AddXpermRule(p, s, t, c, range, effect, false))
    ensures SameTables(p, AddXpermRule(p, s, t, c, range, effect, false))
    ensures AddXpermRule(p, s, t, c, range, effect, false).av == p.av
  {
    hide AddXpermRuleRaw, Coherent;
    if SidesExist(p, s, t, c) {
      var (low, high) := if range.Some? then range.value else (0, 0xFFFF);
      AddXpermRawSameTables(p, LookupType(p.types, s), LookupType(p.types, t), LookupClass(p.classes, c), low, high, effect);
    }
    SameTablesCoherent(p, AddXpermRule(p, s, t, c, range, effect, false));
  }

  lemma StepKeepsWellFormed(p: Policy, op: Op)
    requires WellFormed(p)
    ensures WellFormed(Step(p, op))
  {
    hide WellFormed, AddRule, AddXpermRule, AddType, AddTypeAttribute;
    match op
    case Allow(s, t, c, q) => AddRuleKeepsWellFormed(p, s, t, c, q, Allowed, false);
    case Deny(s, t, c, q) => AddRuleKeepsWellFormed(p, s, t, c, q, Allowed, true);
    case AuditAllowRule(s, t, c, q) => AddRuleKeepsWellFormed(p, s, t, c, q, AuditAllow, false);
    case DontAudit(s, t, c, q) => AddRuleKeepsWellFormed(p, s, t, c, q, AuditDeny, true);
    case Xperm(s, t, c, range, effect) => AddXpermKeepsWellFormed(p, s, t, c, range, effect);
    case Type(name, attr) =>
      AddTypeKeepsWellFormed(p, name, false);
      AddTypeAttributeKeepsWellFormed(AddType(p, name, false), name, attr);
    case Attribute(name) => AddTypeKeepsWellFormed(p, name, true);
    case TypeAttribute(name, attr) => AddTypeAttributeKeepsWellFormed(p, name, attr);
  }

  // The attribute bit an operation asks to set, as (row, bit), when it succeeds in p.
  function RequestedBy(p: Policy, op: Op): set<(int, int)> {
    match op
    case Type(name, attr) => RequestedAttribute(AddType(p, name, false), name, attr)
    case TypeAttribute(name, attr) => RequestedAttribute(p, name, attr)
    case _ => {}
  }

  function RequestedAttribute(p: Policy, name: string, attr: string): set<(int, int)> {
    if CanAddAttribute(p, name, attr) then {(p.types[name].value - 1, p.types[attr].value - 1)} else {}
  }

  function Requested(p: Policy, ops: seq<Op>): set<(int, int)>
    decreases |ops|
  {
    if ops == [] then {} else RequestedBy(p, ops[0]) + Requested(Step(p, ops[0]), ops[1..])
  }

  // The tables of r begin with those of p, and every name keeps its meaning.
  ghost predicate Extends(p: Policy, r: Policy) {
    && p.nprim <= r.nprim && |p.structs| == |p.names| == p.nprim && |r.structs| == |r.names| == r.nprim
    && p.structs == r.structs[..p.nprim]
    && p.names == r.names[..p.nprim]
    && forall n | n in p.types :: n in r.types && r.types[n] == p.types[n]
  }

  // A new row starts as its own bit, and beyond that a row gains exactly the requested bits.
  ghost predicate RowsGrown(p: seq<set<int>>, r: seq<set<int>>, requested: set<(int, int)>) {
    && |p| <= |r|
    && forall i, b | 0 <= i < |r| ::
         b in r[i] <==> (if i < |p| then b in p[i] else b == i) || (i, b) in requested
  }

  // Each role gains exactly the types from the first new one on.
  ghost predicate RolesGrown(p: seq<set<int>>, r: seq<set<int>>, from: int, to: int) {
    && |p| == |r|
    && forall k, b | 0 <= k < |p| :: b in r[k] <==> b in p[k] || from <= b < to
  }

  ghost predicate GrownBy(p: Policy, r: Policy, requested: set<(int, int)>) {
    && Extends(p, r)
    && |p.rows| == p.nprim && |r.rows| == r.nprim
    && RowsGrown(p.rows, r.rows, requested)
    && RolesGrown(p.roles, r.roles, p.nprim, r.nprim)
  }

  lemma ExtendsTrans(p: Policy, q: Policy, r: Policy)
    requires Extends(p, q) && Extends(q, r)
    ensures Extends(p, r)
  {
    assert r.structs[..p.nprim] == r.structs[..q.nprim][..p.nprim];
    assert r.names[..p.nprim] == r.names[..q.nprim][..p.nprim];
  }

  lemma RowsGrownTrans(p: seq<set<int>>, q: seq<set<int>>, r: seq<set<int>>, pq: set<(int, int)>, qr: set<(int, int)>)
    requires RowsGrown(p, q, pq) && RowsGrown(q, r, qr)
    requires forall x | x in pq :: x.0 < |q|
    ensures RowsGrown(p, r, pq + qr)
  {
    forall i, b | 0 <= i < |r|
      ensures b in r[i] <==> (if i < |p| then b in p[i] else b == i) || (i, b) in pq + qr
    {
      if i < |q| {
        assert b in r[i] <==> b in q[i] || (i, b) in qr;
        assert b in q[i] <==> (if i < |p| then b in p[i] else b == i) || (i, b) in pq;
      }
    }
  }

  lemma GrownByTrans(p: Policy, q: Policy, r: Policy, pq: set<(int, int)>, qr: set<(int, int)>)
    requires GrownBy(p, q, pq) && GrownBy(q, r, qr)
    requires forall x | x in pq :: x.0 < q.nprim
    ensures GrownBy(p, r, pq + qr)
  {
    ExtendsTrans(p, q, r);
    RowsGrownTrans(p.rows, q.rows, r.rows, pq, qr);
    assert RolesGrown(p.roles, r.roles, p.nprim, r.nprim) by { hide RowsGrown; }
  }

  lemma AddTypeGrows(p: Policy, name: string, attr: bool)
    requires WellFormed(p)
    ensures GrownBy(p, AddType(p, name, attr), {})
  {
    hide SymbolsResolve, WellFormedClasses, KeysNamed;
    var q := AddType(p, name, attr);
    assert p.structs == q.structs[..p.nprim] && p.names == q.names[..p.nprim];
    assert RowsGrown(p.rows, q.rows, {});
    assert RolesGrown(p.roles, q.roles, p.nprim, q.nprim);
  }

  lemma AddTypeAttributeGrows(p: Policy, name: string, attr: string)
    requires WellFormed(p)
    ensures GrownBy(p, AddTypeAttribute(p, name, attr), RequestedAttribute(p, name, attr))
  {
    hide WellFormedClasses, KeysNamed;
    var q := AddTypeAttribute(p, name, attr);
    assert p.structs == q.structs[..p.nprim] && p.names == q.names[..p.nprim];
    assert RowsGrown(p.rows, q.rows, RequestedAttribute(p, name, attr));
    assert RolesGrown(p.roles, q.roles, p.nprim, q.nprim);
  }

  lemma SameTablesGrow(p: Policy, q: Policy)
    requires WellFormed(p)
    requires SameTables(p, q)
    ensures GrownBy(p, q, {})
  {
  }

  lemma RequestedInRange(p: Policy, op: Op)
    requires WellFormed(p)
    ensures forall x | x in RequestedBy(p, op) :: x.0 < Step(p, op).nprim
  {
    if op.Type? { AddTypeKeepsWellFormed(p, op.name, false); }
    hide TablesMatch, RowsInRange, AddRule, AddXpermRule, AddType;
  }

  lemma RuleSameTables(p: Policy, op: Op)
    requires WellFormed(p) && !op.Type? && !op.Attribute? && !op.TypeAttribute?
    ensures SameTables(p, Step(p, op))
  {
    hide AddRule, AddXpermRule, WellFormed;
    match op
    case Allow(s, t, c, q) => AddRuleSameTables(p, s, t, c, q, Allowed, false);
    case Deny(s, t, c, q) => AddRuleSameTables(p, s, t, c, q, Allowed, true);
    case AuditAllowRule(s, t, c, q) => AddRuleSameTables(p, s, t, c, q, AuditAllow, false);
    case DontAudit(s, t, c, q) => AddRuleSameTables(p, s, t, c, q, AuditDeny, true);
    case Xperm(s, t, c, range, effect) => AddXpermKeepsWellFormed(p, s, t, c, range, effect);
  }

  lemma StepGrows(p: Policy, op: Op)
    requires WellFormed(p)
    ensures GrownBy(p, Step(p, op), RequestedBy(p, op))
  {
    hide GrownBy, WellFormed, AddRule, AddXpermRule, AddType, AddTypeAttribute;
    match op
    case Type(name, attr) =>
      var q := AddType(p, name, false);
      AddTypeKeepsWellFormed(p, name, false);
      AddTypeGrows(p, name, false);
      AddTypeAttributeGrows(q, name, attr);
      RequestedInRange(p, op);
      GrownByTrans(p, q, Step(p, op), {}, RequestedBy(p, op));
      assert {} + RequestedBy(p, op) == RequestedBy(p, op);
    case Attribute(name) => AddTypeGrows(p, name, true);
    case TypeAttribute(name, attr) => AddTypeAttributeGrows(p, name, attr);
    case _ =>
      RuleSameTables(p, op);
      SameTablesGrow(p, Step(p, op));
  }

  lemma GrownByRefl(p: Policy)
    requires WellFormed(p)
    ensures GrownBy(p, p, {})
  {
    SameTablesGrow(p, p);
  }

  // Over any run all three tables keep one row per type, in agreement with the symbol table;
  // old rows survive but for the requested bits, and each role gains each new type.
  lemma {:induction false} RunGrows(p: Policy, ops: seq<Op>)
    requires WellFormed(p)
    ensures WellFormed(Run(p, ops)) && GrownBy(p, Run(p, ops), Requested(p, ops))
    decreases |ops|
  {
    hide WellFormed, Step, RequestedBy, GrownBy;
    if ops == [] {
      GrownByRefl(p);
    } else {
      var q := Step(p, ops[0]);
      StepKeepsWellFormed(p, ops[0]);
      StepGrows(p, ops[0]);
      RequestedInRange(p, ops[0]);
      RunGrows(q, ops[1..]);
      GrownByTrans(p, q, Run(p, ops), RequestedBy(p, ops[0]), Requested(q, ops[1..]));
    }
  }
}
