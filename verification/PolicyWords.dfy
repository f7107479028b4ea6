/** What the ksu_* wrappers do to the rule tables, entry by entry and bit by bit, in terms of the
    policy's own symbol tables. */
module PolicyWords {
  import opened Options
  import opened Sepolicy
  import opened PolicyRuns

  // The word that a key has; every denial is audited unless an entry says otherwise.
  function Word(p: Policy, k: AvKey): set<int> {
    if k in p.av then p.av[k] else if k.specified == AuditDeny then Span(0, 31) else {}
  }

  // q has the value v in the class, or else in the common that the class inherits.
  predicate HasValue(c: ClassDatum, q: string, v: nat) {
    if q in c.perms then v == c.perms[q] else c.common.Some? && q in c.common.value && v == c.common.value[q]
  }

  // p with one word written. An entry that was not there takes 16 bytes.
  function Written(p: Policy, k: AvKey, word: set<int>): Policy {
    p.(av := p.av[k := word], len := p.len + if k in p.av then 0 else 16)
  }

  function KeyOf(p: Policy, s: string, t: string, c: string, effect: Effect): AvKey
    requires s in p.types && t in p.types && c in p.classes
  {
    AvKey(p.types[s].value, p.types[t].value, p.classes[c].value, effect)
  }

  lemma OneKey(p: Policy, s: string, t: string, c: string, effect: Effect, all: bool)
    requires s in p.types && t in p.types && c in p.classes
    ensures Footprint(p.types, p.classes, Some(p.types[s]), Some(p.types[t]), Some(p.classes[c]), effect, all) ==
            {KeyOf(p, s, t, c, effect)}
  {
  }

  lemma OneNew<K>(k: K, keys: set<K>)
    ensures |{k} - keys| == if k in keys then 0 else 1
  {
    assert {k} - keys == if k in keys then {} else {k};
  }

  lemma OneEntry(p: Policy, k: AvKey, perm: Option<nat>, invert: bool)
    ensures ApplyRule(p, {k}, perm, invert) == Written(p, k, Update(Read(p.av, k), perm, invert))
  {
    OneRewrite(p.av, k, perm, invert);
    OneNew(k, p.av.Keys);
    hide Update, Read, Rewrite;
  }

  lemma OneRewrite(av: map<AvKey, set<int>>, k: AvKey, perm: Option<nat>, invert: bool)
    ensures Rewrite(av, {k}, perm, invert) == av[k := Update(Read(av, k), perm, invert)]
  {
    hide Update, Read;
  }

  lemma AllBits()
    ensures ALL_BITS == Span(0, 31)
  {
  }

  lemma NamedRule(p: Policy, s: string, t: string, c: string, q: Option<string>, effect: Effect, invert: bool)
    requires s in p.types && t in p.types && c in p.classes && (q.Some? ==> FindPerm(p.classes[c], q.value).Some?)
    ensures var k := KeyOf(p, s, t, c, effect);
            AddRule(p, Some(s), Some(t), Some(c), q, effect, invert) ==
            Written(p, k, Update(Read(p.av, k), PermValue(p, Some(c), q), invert))
  {
    hide FindPerm, Footprint, Update, Read, ApplyRule, Written;
    OneKey(p, s, t, c, effect, StripAv(effect, invert));
    OneEntry(p, KeyOf(p, s, t, c, effect), PermValue(p, Some(c), q), invert);
  }

  // With every side named, each wrapper writes one bit of one word: the permission with value v
  // is bit v - 1.
  lemma KsuRuleBit(p: Policy, s: string, t: string, c: string, q: string, v: nat)
    requires s in p.types && t in p.types && c in p.classes && HasValue(p.classes[c], q, v)
    ensures var k := KeyOf(p, s, t, c, Allowed);
            && Step(p, Allow(Some(s), Some(t), Some(c), Some(q))) == Written(p, k, Word(p, k) + {v - 1})
            && Step(p, Deny(Some(s), Some(t), Some(c), Some(q))) == Written(p, k, Word(p, k) - {v - 1})
    ensures var k := KeyOf(p, s, t, c, AuditAllow);
            Step(p, AuditAllowRule(Some(s), Some(t), Some(c), Some(q))) == Written(p, k, Word(p, k) + {v - 1})
    ensures var k := KeyOf(p, s, t, c, AuditDeny);
            Step(p, DontAudit(Some(s), Some(t), Some(c), Some(q))) == Written(p, k, Word(p, k) - {v - 1})
  {
    AllBits();
    hide KeyOf, AddRule, Written, Span, ALL_BITS;
    NamedRule(p, s, t, c, Some(q), Allowed, false);
    NamedRule(p, s, t, c, Some(q), Allowed, true);
    NamedRule(p, s, t, c, Some(q), AuditAllow, false);
    NamedRule(p, s, t, c, Some(q), AuditDeny, true);
  }

  // Without a permission each wrapper writes the whole word.
  lemma KsuRuleWord(p: Policy, s: string, t: string, c: string)
    requires s in p.types && t in p.types && c in p.classes
    ensures var k, all := KeyOf(p, s, t, c, Allowed), Span(0, 31);
            && Step(p, Allow(Some(s), Some(t), Some(c), None)) == Written(p, k, all)
            && Step(p, Deny(Some(s), Some(t), Some(c), None)) == Written(p, k, {})
    ensures var k, all := KeyOf(p, s, t, c, AuditAllow), Span(0, 31);
            Step(p, AuditAllowRule(Some(s), Some(t), Some(c), None)) == Written(p, k, all)
    ensures var k := KeyOf(p, s, t, c, AuditDeny);
            Step(p, DontAudit(Some(s), Some(t), Some(c), None)) == Written(p, k, {})
  {
    AllBits();
    hide KeyOf, AddRule, Written, Span, ALL_BITS;
    NamedRule(p, s, t, c, None, Allowed, false);
    NamedRule(p, s, t, c, None, Allowed, true);
    NamedRule(p, s, t, c, None, AuditAllow, false);
    NamedRule(p, s, t, c, None, AuditDeny, true);
  }

  // -------- Wildcards --------

  // A value that one side of a rule stands for. An open side is every type for a deny, and every
  // attribute for the others.
  ghost predicate TypeMeant(p: Policy, side: Option<string>, all: bool, v: int)
    requires side.Some? ==> side.value in p.types
  {
    exists n :: n in p.types && p.types[n].value == v && (if side.Some? then n == side.value else all || p.types[n].attribute)
  }

  // An open class is every class.
  ghost predicate ClassMeant(p: Policy, side: Option<string>, v: int)
    requires side.Some? ==> side.value in p.classes
  {
    exists n :: n in p.classes && p.classes[n].value == v && (side.Some? ==> n == side.value)
  }

  ghost predicate Meant(p: Policy, s: Option<string>, t: Option<string>, c: Option<string>, all: bool, k: AvKey)
    requires SidesExist(p, s, t, c)
  {
    TypeMeant(p, s, all, k.source) && TypeMeant(p, t, all, k.target) && ClassMeant(p, c, k.cls)
  }

  lemma MeantIsFootprint(p: Policy, s: Option<string>, t: Option<string>, c: Option<string>, effect: Effect, all: bool, k: AvKey)
    requires SidesExist(p, s, t, c)
    ensures k in Footprint(p.types, p.classes, LookupType(p.types, s), LookupType(p.types, t), LookupClass(p.classes, c), effect, all)
            <==> k.specified == effect && Meant(p, s, t, c, all, k)
  {
    TypeMeantIsSide(p, s, all, k.source);
    TypeMeantIsSide(p, t, all, k.target);
    ClassMeantIsSide(p, c, k.cls);
    hide TypeSide, ClassSide, TypeMeant, ClassMeant;
    InBox(TypeSide(p.types, LookupType(p.types, s), all), TypeSide(p.types, LookupType(p.types, t), all),
          ClassSide(p.classes, LookupClass(p.classes, c)), effect, k);
    hide Box, LookupType, LookupClass;
  }

  lemma InBox(S: set<nat>, T: set<nat>, C: set<nat>, effect: Effect, k: AvKey)
    ensures k in Box(S, T, C, effect) <==> k.specified == effect && k.source in S && k.target in T && k.cls in C
  {
  }

  lemma TypeMeantIsSide(p: Policy, side: Option<string>, all: bool, v: int)
    requires side.Some? ==> side.value in p.types
    ensures v in TypeSide(p.types, LookupType(p.types, side), all) <==> TypeMeant(p, side, all, v)
  {
    if side.Some? { assert side.value in p.types; }
  }

  lemma ClassMeantIsSide(p: Policy, side: Option<string>, v: int)
    requires side.Some? ==> side.value in p.classes
    ensures v in ClassSide(p.classes, LookupClass(p.classes, side)) <==> ClassMeant(p, side, v)
  {
    if side.Some? { assert side.value in p.classes; }
  }

  // The whole word, or the bit of the permission's value.
  ghost predicate BitMeant(p: Policy, c: Option<string>, q: Option<string>, b: nat)
    requires q.Some? ==> c.Some? && c.value in p.classes
  {
    q.Some? ==> HasValue(p.classes[c.value], q.value, b + 1)
  }

  // Each wrapper, with any sides open: which entries it adds, and each of their bits.
  lemma KsuRuleReaches(p: Policy, op: Op, s: Option<string>, t: Option<string>, c: Option<string>, q: Option<string>,
                       effect: Effect, sets: bool, k: AvKey, b: nat)
    requires || (op == Allow(s, t, c, q) && effect == Allowed && sets)
             || (op == Deny(s, t, c, q) && effect == Allowed && !sets)
             || (op == AuditAllowRule(s, t, c, q) && effect == AuditAllow && sets)
             || (op == DontAudit(s, t, c, q) && effect == AuditDeny && !sets)
    requires RuleExists(p, s, t, c, q) && b < 32
    ensures var meant := k.specified == effect && Meant(p, s, t, c, op.Deny?, k);
            var r := Step(p, op);
            && (k in r.av <==> k in p.av || meant)
            && (k in r.av && !meant ==> r.av[k] == p.av[k])
            && (meant ==> (b in r.av[k] <==> if BitMeant(p, c, q, b) then sets else b in Word(p, k)))
  {
    MeantIsFootprint(p, s, t, c, effect, op.Deny?, k);
    BitMeantIsPerm(p, c, q, b);
    RuleRewrites(p, op, s, t, c, q, effect, sets);
    hide Step, BitMeant, Meant, FindPerm;
    var foot := Footprint(p.types, p.classes, LookupType(p.types, s), LookupType(p.types, t), LookupClass(p.classes, c), effect, op.Deny?);
    RewriteBit(p, foot, PermValue(p, c, q), !sets, k, b);
    hide Footprint, Rewrite, PermValue, Word;
  }

  lemma RuleRewrites(p: Policy, op: Op, s: Option<string>, t: Option<string>, c: Option<string>, q: Option<string>,
                     effect: Effect, sets: bool)
    requires || (op == Allow(s, t, c, q) && effect == Allowed && sets)
             || (op == Deny(s, t, c, q) && effect == Allowed && !sets)
             || (op == AuditAllowRule(s, t, c, q) && effect == AuditAllow && sets)
             || (op == DontAudit(s, t, c, q) && effect == AuditDeny && !sets)
    requires RuleExists(p, s, t, c, q)
    ensures Step(p, op).av == Rewrite(p.av, Footprint(p.types, p.classes, LookupType(p.types, s), LookupType(p.types, t),
                                                      LookupClass(p.classes, c), effect, op.Deny?), PermValue(p, c, q), !sets)
  {
    hide Rewrite, Footprint, FindPerm, SidesExist;
    assert StripAv(effect, !sets) == op.Deny?;
    assert Step(p, op) == AddRule(p, s, t, c, q, effect, !sets);
    hide Step;
  }

  lemma RewriteBit(p: Policy, foot: set<AvKey>, perm: Option<nat>, invert: bool, k: AvKey, b: nat)
    requires b < 32
    ensures var r := Rewrite(p.av, foot, perm, invert);
            && (k in r <==> k in p.av || k in foot)
            && (k in r && k !in foot ==> r[k] == p.av[k])
            && (k in foot ==> (b in r[k] <==> if perm.Some? ==> b == perm.value - 1 then !invert else b in Word(p, k)))
  {
    AllBits();
  }

  lemma BitMeantIsPerm(p: Policy, c: Option<string>, q: Option<string>, b: nat)
    requires q.Some? ==> c.Some? && c.value in p.classes && FindPerm(p.classes[c.value], q.value).Some?
    ensures BitMeant(p, c, q, b) <==> PermValue(p, c, q).Some? ==> b == PermValue(p, c, q).value - 1
  {
  }

  // A rule on a permission that neither the class nor its common has changes nothing.
  lemma UnknownPermission(p: Policy, s: Option<string>, t: Option<string>, c: string, q: string, effect: Effect, invert: bool)
    requires SidesExist(p, s, t, Some(c)) && forall v: nat :: !HasValue(p.classes[c], q, v)
    ensures AddRule(p, s, t, Some(c), Some(q), effect, invert) == p
  {
    if FindPerm(p.classes[c], q).Some? { assert HasValue(p.classes[c], q, FindPerm(p.classes[c], q).value); }
  }

  // -------- Extended permissions --------

  // With every side named, a range of codes adds one node unless it is there: for codes of one
  // driver it holds their low bytes, else the drivers. Without a range it holds every driver.
  lemma KsuXpermNode(p: Policy, s: string, t: string, c: string, range: Option<(nat, nat)>, effect: Effect)
    requires s in p.types && t in p.types && c in p.classes
    requires range.Some? ==> range.value.0 < 0x10000 && range.value.1 < 0x10000
    ensures var from, to := if range.Some? then range.value.0 else 0, if range.Some? then range.value.1 else 0xFFFF;
            var one := from / 256 == to / 256;
            var x := XpermKey(KeyOf(p, s, t, c, effect), if one then IoctlFunction else IoctlDriver, if one then from / 256 else 0);
            var bits := if one then Span(from % 256, to % 256) else Span(from / 256, to / 256);
            Step(p, Xperm(Some(s), Some(t), Some(c), range, effect)) ==
            if x in p.xperms then p else p.(xperms := p.xperms[x := bits], len := p.len + 50)
  {
    hide Footprint, KeyOf, Span, XpermBits, InsertXperms, XpermKindOf, XpermDriverOf, XpermKeys;
    var from, to := if range.Some? then range.value.0 else 0, if range.Some? then range.value.1 else 0xFFFF;
    var k, kind, driver := KeyOf(p, s, t, c, effect), XpermKindOf(from, to), XpermDriverOf(from, to);
    OneKey(p, s, t, c, effect, false);
    OneXpermKey(k, kind, driver);
    OneNode(p, XpermKey(k, kind, driver), XpermBits(from, to, false));
    BitsAre(from, to);
  }

  lemma OneXpermKey(k: AvKey, kind: XpermKind, driver: nat)
    ensures XpermKeys({k}, kind, driver) == {XpermKey(k, kind, driver)}
  {
  }

  lemma OneNode(p: Policy, x: XpermKey, bits: set<int>)
    ensures InsertXperms(p, {x}, bits) == if x in p.xperms then p else p.(xperms := p.xperms[x := bits], len := p.len + 50)
  {
    OneInsert(p.xperms, x, bits);
    OneNew(x, p.xperms.Keys);
    hide XpermInsert;
  }

  lemma OneInsert(xperms: map<XpermKey, set<int>>, x: XpermKey, bits: set<int>)
    ensures XpermInsert(xperms, {x}, bits) == if x in xperms then xperms else xperms[x := bits]
  {
  }

  lemma BitsAre(from: nat, to: nat)
    requires from < 0x10000 && to < 0x10000
    ensures XpermBits(from, to, false) == if from / 256 == to / 256 then Span(from % 256, to % 256) else Span(from / 256, to / 256)
    ensures XpermKindOf(from, to) == if from / 256 == to / 256 then IoctlFunction else IoctlDriver
    ensures XpermDriverOf(from, to) == if from / 256 == to / 256 then from / 256 else 0
  {
    assert from / 256 % 256 == from / 256 && to / 256 % 256 == to / 256;
  }

  // With sides open, nodes of these numbers are added for exactly the attributes and classes.
  lemma KsuXpermReaches(p: Policy, s: Option<string>, t: Option<string>, c: Option<string>,
                        range: Option<(nat, nat)>, effect: Effect, x: XpermKey)
    requires SidesExist(p, s, t, c)
    requires range.Some? ==> range.value.0 < 0x10000 && range.value.1 < 0x10000
    ensures var from, to := if range.Some? then range.value.0 else 0, if range.Some? then range.value.1 else 0xFFFF;
            var r := Step(p, Xperm(s, t, c, range, effect));
            x in r.xperms <==>
              || x in p.xperms
              || (x.key.specified == effect && Meant(p, s, t, c, false, x.key)
                  && x.kind == (if from / 256 == to / 256 then IoctlFunction else IoctlDriver)
                  && x.driver == (if from / 256 == to / 256 then from / 256 else 0))
  {
    var from, to := if range.Some? then range.value.0 else 0, if range.Some? then range.value.1 else 0xFFFF;
    MeantIsFootprint(p, s, t, c, effect, false, x.key);
    BitsAre(from, to);
    hide Footprint, Meant, XpermBits, XpermKindOf, XpermDriverOf;
  }
}
