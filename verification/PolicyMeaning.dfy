/** What the rewritten rule table decides: access is granted, and a denial is audited, by
    looking at every pair taken from the attribute rows of the two types. */
module PolicyMeaning {
  import opened Options
  import opened Sepolicy
  import opened PolicyRuns

  // The bit one table entry holds for the types or attributes in rows a and b.
  predicate Holds(p: Policy, effect: Effect, a: int, b: int, cls: int, bit: int) {
    bit in Read(p.av, AvKey(a + 1, b + 1, cls, effect))
  }

  // Types are given by their row, value - 1.
  ghost predicate Access(p: Policy, i: nat, j: nat, cls: int, bit: int)
    requires i < |p.rows| && j < |p.rows|
  {
    exists a, b :: a in p.rows[i] && b in p.rows[j] && Holds(p, Allowed, a, b, cls, bit)
  }

  ghost predicate Audited(p: Policy, i: nat, j: nat, cls: int, bit: int)
    requires i < |p.rows| && j < |p.rows|
  {
    forall a, b :: a in p.rows[i] && b in p.rows[j] ==> Holds(p, AuditDeny, a, b, cls, bit)
  }

  // Whether one side of a rule names the type or attribute in row a.
  predicate Names(p: Policy, side: Option<string>, all: bool, a: int)
    requires side.Some? ==> side.value in p.types
  {
    if side.Some? then p.types[side.value].value == a + 1
    else 0 <= a < |p.structs| && (all || p.structs[a].attribute)
  }

  // Whether one side of a rule applies to a type with this attribute row.
  ghost predicate Covers(p: Policy, side: Option<string>, all: bool, row: set<int>)
    requires side.Some? ==> side.value in p.types
  {
    exists a :: a in row && Names(p, side, all, a)
  }

  // Whether a rule names this class and permission bit.
  ghost predicate Grants(p: Policy, c: Option<string>, q: Option<string>, cls: int, bit: int)
    requires RuleExists(p, None, None, c, q)
  {
    cls in ClassSide(p.classes, LookupClass(p.classes, c)) && bit in PermBits(PermValue(p, c, q))
  }

  // -------- One rule, read back key by key --------

  lemma RewriteAt(av: map<AvKey, set<int>>, foot: set<AvKey>, perm: Option<nat>, invert: bool, k: AvKey)
    ensures Read(Rewrite(av, foot, perm, invert), k) ==
            if k in foot then Update(Read(av, k), perm, invert) else Read(av, k)
  {
  }

  lemma AddRuleAt(p: Policy, s: Option<string>, t: Option<string>, c: Option<string>, q: Option<string>,
                  effect: Effect, invert: bool, k: AvKey)
    requires RuleExists(p, s, t, c, q)
    ensures Read(AddRule(p, s, t, c, q, effect, invert).av, k) ==
            if k in Footprint(p.types, p.classes, LookupType(p.types, s), LookupType(p.types, t), LookupClass(p.classes, c),
                              effect, StripAv(effect, invert))
            then Update(Read(p.av, k), PermValue(p, c, q), invert) else Read(p.av, k)
  {
    hide Rewrite, Read, Update, Footprint, FindPerm;
    RewriteAt(p.av, Footprint(p.types, p.classes, LookupType(p.types, s), LookupType(p.types, t), LookupClass(p.classes, c),
                              effect, StripAv(effect, invert)), PermValue(p, c, q), invert, k);
  }

  lemma InFootprint(p: Policy, s: Option<string>, t: Option<string>, c: Option<string>, effect: Effect, all: bool,
                    a: int, b: int, cls: int)
    requires Coherent(p) && SidesExist(p, s, t, c)
    ensures AvKey(a + 1, b + 1, cls, effect)
              in Footprint(p.types, p.classes, LookupType(p.types, s), LookupType(p.types, t), LookupClass(p.classes, c), effect, all)
            <==> Names(p, s, all, a) && Names(p, t, all, b) && cls in ClassSide(p.classes, LookupClass(p.classes, c))
  {
    NamedValues(p, all);
    hide Coherent, Values;
  }

  lemma UpdateBit(word: set<int>, perm: Option<nat>, invert: bool, bit: int)
    requires 0 <= bit < 32
    ensures bit in Update(word, perm, invert) <==>
            if invert then bit in word && bit !in PermBits(perm) else bit in word || bit in PermBits(perm)
  {
  }

  // The pointwise update, as the recursion over wildcards performs it: one key of one effect.
  lemma RuleAt(p: Policy, s: Option<string>, t: Option<string>, c: Option<string>, q: Option<string>,
               effect: Effect, invert: bool, a: int, b: int, cls: int, e: Effect, bit: int)
    requires WellFormed(p) && RuleExists(p, s, t, c, q) && 0 <= bit < 32
    ensures var all := StripAv(effect, invert);
            Holds(AddRule(p, s, t, c, q, effect, invert), e, a, b, cls, bit) <==>
            if e == effect && Names(p, s, all, a) && Names(p, t, all, b) && Grants(p, c, q, cls, bit)
            then !invert else Holds(p, e, a, b, cls, bit)
  {
    hide Coherent, Read, Update, AddRule, FindPerm;
    var all := StripAv(effect, invert);
    var k := AvKey(a + 1, b + 1, cls, e);
    AddRuleAt(p, s, t, c, q, effect, invert, k);
    UpdateBit(Read(p.av, k), PermValue(p, c, q), invert, bit);
    if e == effect {
      InFootprint(p, s, t, c, effect, all, a, b, cls);
    }
  }

  // -------- What each rule means --------

  // ksu_allow adds exactly the pairs both of whose sides it covers; an ALL side covers the
  // types that carry some attribute.
  lemma AllowMeaning(p: Policy, s: Option<string>, t: Option<string>, c: Option<string>, q: Option<string>,
                     i: nat, j: nat, cls: int, bit: int)
    requires WellFormed(p) && RuleExists(p, s, t, c, q) && i < p.nprim && j < p.nprim && 0 <= bit < 32
    ensures var r := Step(p, Allow(s, t, c, q));
            && r.rows == p.rows
            && (Access(r, i, j, cls, bit) <==>
                || Access(p, i, j, cls, bit)
                || (Covers(p, s, false, p.rows[i]) && Covers(p, t, false, p.rows[j]) && Grants(p, c, q, cls, bit)))
  {
    var r := Step(p, Allow(s, t, c, q));
    AddRuleSameTables(p, s, t, c, q, Allowed, false);
    forall a, b
      ensures Holds(r, Allowed, a, b, cls, bit) <==>
              || Holds(p, Allowed, a, b, cls, bit)
              || (Names(p, s, false, a) && Names(p, t, false, b) && Grants(p, c, q, cls, bit))
    {
      RuleAt(p, s, t, c, q, Allowed, false, a, b, cls, Allowed, bit);
    }
    hide Names, Grants, Holds, WellFormed, RuleExists, Step;
    AllowPairs(p, r, s, t, c, q, i, j, cls, bit);
  }

  lemma AllowPairs(p: Policy, r: Policy, s: Option<string>, t: Option<string>, c: Option<string>, q: Option<string>,
                   i: nat, j: nat, cls: int, bit: int)
    requires RuleExists(p, s, t, c, q) && r.rows == p.rows && i < |p.rows| && j < |p.rows|
    requires forall a, b :: Holds(r, Allowed, a, b, cls, bit) <==>
                            || Holds(p, Allowed, a, b, cls, bit)
                            || (Names(p, s, false, a) && Names(p, t, false, b) && Grants(p, c, q, cls, bit))
    ensures Access(r, i, j, cls, bit) <==>
            || Access(p, i, j, cls, bit)
            || (Covers(p, s, false, p.rows[i]) && Covers(p, t, false, p.rows[j]) && Grants(p, c, q, cls, bit))
  {
    hide Holds, Names, Grants;
    if Covers(p, s, false, p.rows[i]) && Covers(p, t, false, p.rows[j]) && Grants(p, c, q, cls, bit) {
      var a :| a in p.rows[i] && Names(p, s, false, a);
      var b :| b in p.rows[j] && Names(p, t, false, b);
      assert Holds(r, Allowed, a, b, cls, bit);
    }
  }

  // ksu_deny leaves exactly the pairs granted by an entry the rule does not name; here an ALL
  // side names every type and attribute.
  lemma DenyMeaning(p: Policy, s: Option<string>, t: Option<string>, c: Option<string>, q: Option<string>,
                    i: nat, j: nat, cls: int, bit: int)
    requires WellFormed(p) && RuleExists(p, s, t, c, q) && i < p.nprim && j < p.nprim && 0 <= bit < 32
    ensures var r := Step(p, Deny(s, t, c, q));
            && r.rows == p.rows
            && (Access(r, i, j, cls, bit) <==>
                exists a, b :: a in p.rows[i] && b in p.rows[j] && Holds(p, Allowed, a, b, cls, bit)
                               && !(Names(p, s, true, a) && Names(p, t, true, b) && Grants(p, c, q, cls, bit)))
  {
    var r := Step(p, Deny(s, t, c, q));
    AddRuleSameTables(p, s, t, c, q, Allowed, true);
    forall a, b
      ensures Holds(r, Allowed, a, b, cls, bit) <==>
              Holds(p, Allowed, a, b, cls, bit)
              && !(Names(p, s, true, a) && Names(p, t, true, b) && Grants(p, c, q, cls, bit))
    {
      RuleAt(p, s, t, c, q, Allowed, true, a, b, cls, Allowed, bit);
    }
    hide Names, Grants, Holds, WellFormed, RuleExists, Step;
  }

  // ksu_dontaudit silences exactly the denials both of whose sides it covers.
  lemma DontAuditMeaning(p: Policy, s: Option<string>, t: Option<string>, c: Option<string>, q: Option<string>,
                         i: nat, j: nat, cls: int, bit: int)
    requires WellFormed(p) && RuleExists(p, s, t, c, q) && i < p.nprim && j < p.nprim && 0 <= bit < 32
    ensures var r := Step(p, DontAudit(s, t, c, q));
            && r.rows == p.rows
            && (Audited(r, i, j, cls, bit) <==>
                && Audited(p, i, j, cls, bit)
                && !(Covers(p, s, false, p.rows[i]) && Covers(p, t, false, p.rows[j]) && Grants(p, c, q, cls, bit)))
  {
    var r := Step(p, DontAudit(s, t, c, q));
    AddRuleSameTables(p, s, t, c, q, AuditDeny, true);
    forall a, b
      ensures Holds(r, AuditDeny, a, b, cls, bit) <==>
              Holds(p, AuditDeny, a, b, cls, bit)
              && !(Names(p, s, false, a) && Names(p, t, false, b) && Grants(p, c, q, cls, bit))
    {
      RuleAt(p, s, t, c, q, AuditDeny, true, a, b, cls, AuditDeny, bit);
    }
    hide Names, Grants, Holds, WellFormed, RuleExists, Step;
    if Covers(p, s, false, p.rows[i]) && Covers(p, t, false, p.rows[j]) && Grants(p, c, q, cls, bit) {
      var a :| a in p.rows[i] && Names(p, s, false, a);
      var b :| b in p.rows[j] && Names(p, t, false, b);
      assert !Holds(r, AuditDeny, a, b, cls, bit);
    }
  }

  // -------- Over runs --------

  // Whether a rule that succeeds names this entry's bit.
  ghost predicate Named(p: Policy, s: Option<string>, t: Option<string>, c: Option<string>, q: Option<string>, all: bool,
                        a: int, b: int, cls: int, bit: int)
  {
    RuleExists(p, s, t, c, q) && Names(p, s, all, a) && Names(p, t, all, b) && Grants(p, c, q, cls, bit)
  }

  // What one operation makes of a bit of a kind: the rules of that kind set it, and ksu_deny and
  // ksu_dontaudit clear it. An ALL side of ksu_deny names every type, one of the others
  // attributes only.
  ghost predicate After(p: Policy, op: Op, e: Effect, a: int, b: int, cls: int, bit: int, before: bool) {
    match op
    case Allow(s, t, c, q) => before || (e == Allowed && Named(p, s, t, c, q, false, a, b, cls, bit))
    case Deny(s, t, c, q) => before && !(e == Allowed && Named(p, s, t, c, q, true, a, b, cls, bit))
    case AuditAllowRule(s, t, c, q) => before || (e == AuditAllow && Named(p, s, t, c, q, false, a, b, cls, bit))
    case DontAudit(s, t, c, q) => before && !(e == AuditDeny && Named(p, s, t, c, q, false, a, b, cls, bit))
    case _ => before
  }

  // What the last rule naming the bit makes of it, each rule read in the policy it meets.
  ghost predicate LastRule(p: Policy, ops: seq<Op>, e: Effect, a: int, b: int, cls: int, bit: int, before: bool)
    decreases |ops|
  {
    if ops == [] then before
    else LastRule(Step(p, ops[0]), ops[1..], e, a, b, cls, bit, After(p, ops[0], e, a, b, cls, bit, before))
  }

  lemma RuleHolds(p: Policy, s: Option<string>, t: Option<string>, c: Option<string>, q: Option<string>,
                  effect: Effect, invert: bool, e: Effect, a: int, b: int, cls: int, bit: int)
    requires WellFormed(p) && 0 <= bit < 32
    ensures Holds(AddRule(p, s, t, c, q, effect, invert), e, a, b, cls, bit) <==>
            if e == effect && Named(p, s, t, c, q, StripAv(effect, invert), a, b, cls, bit) then !invert
            else Holds(p, e, a, b, cls, bit)
  {
    if RuleExists(p, s, t, c, q) {
      hide AddRule, Holds, Names, Grants, RuleExists, WellFormed;
      RuleAt(p, s, t, c, q, effect, invert, a, b, cls, e, bit);
    } else {
      hide Holds, WellFormed, Names, Grants;
    }
  }

  lemma StepHolds(p: Policy, op: Op, e: Effect, a: int, b: int, cls: int, bit: int)
    requires WellFormed(p) && 0 <= bit < 32
    ensures Holds(Step(p, op), e, a, b, cls, bit) <==> After(p, op, e, a, b, cls, bit, Holds(p, e, a, b, cls, bit))
  {
    hide AddRule, AddXpermRule, Named;
    match op
    case Allow(s, t, c, q) => RuleHolds(p, s, t, c, q, Allowed, false, e, a, b, cls, bit); hide Holds, WellFormed;
    case Deny(s, t, c, q) => RuleHolds(p, s, t, c, q, Allowed, true, e, a, b, cls, bit); hide Holds, WellFormed;
    case AuditAllowRule(s, t, c, q) => RuleHolds(p, s, t, c, q, AuditAllow, false, e, a, b, cls, bit); hide Holds, WellFormed;
    case DontAudit(s, t, c, q) => RuleHolds(p, s, t, c, q, AuditDeny, true, e, a, b, cls, bit); hide Holds, WellFormed;
    case Xperm(s, t, c, range, effect) => AddXpermKeepsWellFormed(p, s, t, c, range, effect);
    case Type(name, attr) =>
    case Attribute(name) =>
    case TypeAttribute(name, attr) =>
  }

  // Over any run, in whatever way rules are mixed, each allow, auditallow and auditdeny bit is
  // what the last rule naming it makes of it.
  lemma {:induction false} RunHolds(p: Policy, ops: seq<Op>, e: Effect, a: int, b: int, cls: int, bit: int)
    requires WellFormed(p) && 0 <= bit < 32
    ensures Holds(Run(p, ops), e, a, b, cls, bit) <==> LastRule(p, ops, e, a, b, cls, bit, Holds(p, e, a, b, cls, bit))
    decreases |ops|
  {
    hide Holds, Step, WellFormed, After;
    if ops != [] {
      StepHolds(p, ops[0], e, a, b, cls, bit);
      StepKeepsWellFormed(p, ops[0]);
      RunHolds(Step(p, ops[0]), ops[1..], e, a, b, cls, bit);
    }
  }

  // The access of two types after any run.
  lemma RunAccess(p: Policy, ops: seq<Op>, i: nat, j: nat, cls: int, bit: int)
    requires WellFormed(p) && 0 <= bit < 32 && i < |Run(p, ops).rows| && j < |Run(p, ops).rows|
    ensures Access(Run(p, ops), i, j, cls, bit) <==>
            exists a, b :: a in Run(p, ops).rows[i] && b in Run(p, ops).rows[j]
                           && LastRule(p, ops, Allowed, a, b, cls, bit, Holds(p, Allowed, a, b, cls, bit))
  {
    hide Holds, Run, LastRule, WellFormed;
    forall a, b
      ensures Holds(Run(p, ops), Allowed, a, b, cls, bit) <==>
              LastRule(p, ops, Allowed, a, b, cls, bit, Holds(p, Allowed, a, b, cls, bit))
    {
      RunHolds(p, ops, Allowed, a, b, cls, bit);
    }
  }

  // Whether a denial between two types is audited after any run.
  lemma RunAudited(p: Policy, ops: seq<Op>, i: nat, j: nat, cls: int, bit: int)
    requires WellFormed(p) && 0 <= bit < 32 && i < |Run(p, ops).rows| && j < |Run(p, ops).rows|
    ensures Audited(Run(p, ops), i, j, cls, bit) <==>
            forall a, b :: a in Run(p, ops).rows[i] && b in Run(p, ops).rows[j] ==>
              LastRule(p, ops, AuditDeny, a, b, cls, bit, Holds(p, AuditDeny, a, b, cls, bit))
  {
    hide Holds, Run, LastRule, WellFormed;
    forall a, b
      ensures Holds(Run(p, ops), AuditDeny, a, b, cls, bit) <==>
              LastRule(p, ops, AuditDeny, a, b, cls, bit, Holds(p, AuditDeny, a, b, cls, bit))
    {
      RunHolds(p, ops, AuditDeny, a, b, cls, bit);
    }
  }

  // A run without a ksu_deny naming the bit keeps it, one without a ksu_allow naming it never
  // sets it; rules on other types, classes or permissions do not matter.
  ghost predicate NeverDenied(p: Policy, ops: seq<Op>, a: int, b: int, cls: int, bit: int)
    decreases |ops|
  {
    ops == [] || (After(p, ops[0], Allowed, a, b, cls, bit, true) && NeverDenied(Step(p, ops[0]), ops[1..], a, b, cls, bit))
  }

  ghost predicate NeverAllowed(p: Policy, ops: seq<Op>, a: int, b: int, cls: int, bit: int)
    decreases |ops|
  {
    ops == [] || (!After(p, ops[0], Allowed, a, b, cls, bit, false) && NeverAllowed(Step(p, ops[0]), ops[1..], a, b, cls, bit))
  }

  lemma {:induction false} UnnamedKeeps(p: Policy, ops: seq<Op>, a: int, b: int, cls: int, bit: int)
    ensures NeverDenied(p, ops, a, b, cls, bit) ==> LastRule(p, ops, Allowed, a, b, cls, bit, true)
    ensures NeverAllowed(p, ops, a, b, cls, bit) ==> !LastRule(p, ops, Allowed, a, b, cls, bit, false)
    decreases |ops|
  {
    hide After, Step;
    if ops != [] {
      UnnamedKeeps(Step(p, ops[0]), ops[1..], a, b, cls, bit);
    }
  }

  // A wildcard-source ksu_allow reaches every type that carries an attribute known when the rule
  // was added, whenever the type was created: its access to any type the target side covers
  // lasts through every run that does not deny that attribute this permission. The target side
  // may be ALL.
  lemma WildcardAllowReachesLaterTypes(p: Policy, t: Option<string>, c: Option<string>, q: Option<string>, ops: seq<Op>,
                                       i: nat, j: nat, attr: int, tgt: int, cls: int, bit: int)
    requires WellFormed(p) && Named(p, None, t, c, q, false, attr, tgt, cls, bit) && 0 <= bit < 32
    requires var r := Run(Step(p, Allow(None, t, c, q)), ops);
             && i < |r.rows| && j < |r.rows| && attr in r.rows[i] && tgt in r.rows[j]
    ensures LastRule(Step(p, Allow(None, t, c, q)), ops, Allowed, attr, tgt, cls, bit, true) ==>
            Access(Run(Step(p, Allow(None, t, c, q)), ops), i, j, cls, bit)
    ensures NeverDenied(Step(p, Allow(None, t, c, q)), ops, attr, tgt, cls, bit) ==>
            Access(Run(Step(p, Allow(None, t, c, q)), ops), i, j, cls, bit)
  {
    hide Holds, WellFormed, Named, Step, Run, LastRule;
    var p' := Step(p, Allow(None, t, c, q));
    StepHolds(p, Allow(None, t, c, q), Allowed, attr, tgt, cls, bit);
    StepKeepsWellFormed(p, Allow(None, t, c, q));
    RunHolds(p', ops, Allowed, attr, tgt, cls, bit);
    UnnamedKeeps(p', ops, attr, tgt, cls, bit);
  }

  // ... and the type t itself is such a target, so the rule never loses its plain reading.
  lemma TargetCarriesItself(p: Policy, t: string, op: Op, ops: seq<Op>)
    requires WellFormed(p) && t in p.types
    ensures var r := Run(Step(p, op), ops);
            p.types[t].value <= |r.rows| && p.types[t].value - 1 in r.rows[p.types[t].value - 1]
  {
    StepKeepsWellFormed(p, op);
    RunGrows(Step(p, op), ops);
    StepGrows(p, op);
    hide WellFormedClasses, KeysNamed, TablesMatch, RolesGrown, RowsGrown, Step, Run;
  }

  // After a wildcard/wildcard ksu_deny two types have the permission exactly through entries
  // that a later rule allows, whatever types and attributes the run creates; without such a
  // rule no pair of types has it.
  lemma WildcardDenyLeavesNoAccess(p: Policy, c: Option<string>, q: Option<string>, ops: seq<Op>,
                                   i: nat, j: nat, cls: int, bit: int)
    requires WellFormed(p) && RuleExists(p, None, None, c, q) && Grants(p, c, q, cls, bit) && 0 <= bit < 32
    requires var r := Run(Step(p, Deny(None, None, c, q)), ops); i < |r.rows| && j < |r.rows|
    ensures var p' := Step(p, Deny(None, None, c, q));
            var r := Run(p', ops);
            && (Access(r, i, j, cls, bit) <==>
                exists a, b :: a in r.rows[i] && b in r.rows[j] && LastRule(p', ops, Allowed, a, b, cls, bit, false))
            && ((forall a, b :: a in r.rows[i] && b in r.rows[j] ==> NeverAllowed(p', ops, a, b, cls, bit)) ==>
                  !Access(r, i, j, cls, bit))
  {
    hide Holds, WellFormed, Grants, RuleExists, AddRule, Run, Names, LastRule, NeverAllowed;
    var p' := Step(p, Deny(None, None, c, q));
    StepKeepsWellFormed(p, Deny(None, None, c, q));
    forall a, b
      ensures !Holds(p', Allowed, a, b, cls, bit)
      ensures NeverAllowed(p', ops, a, b, cls, bit) ==> !LastRule(p', ops, Allowed, a, b, cls, bit, false)
    {
      RuleAt(p, None, None, c, q, Allowed, true, a, b, cls, Allowed, bit);
      UnnamedKeeps(p', ops, a, b, cls, bit);
      if Holds(p, Allowed, a, b, cls, bit) {
        UnnamedKeyIsEmpty(p, a, b, cls, bit);
      }
    }
    RunAccess(p', ops, i, j, cls, bit);
    hide Access, Step;
    assert forall a, b :: LastRule(p', ops, Allowed, a, b, cls, bit, Holds(p', Allowed, a, b, cls, bit)) <==> LastRule(p', ops, Allowed, a, b, cls, bit, false);
  }

  lemma UnnamedKeyIsEmpty(p: Policy, a: int, b: int, cls: int, bit: int)
    requires WellFormed(p) && Holds(p, Allowed, a, b, cls, bit)
    ensures Names(p, None, true, a) && Names(p, None, true, b)
  {
  }
}
