/** Rules on several sets of keys combine to one rule on their union: what lets a wildcard be
    expanded one name at a time, in any order and with repetitions. */
module RuleAlgebra {
  import opened Options
  import opened Sepolicy

  lemma UpdateIdempotent(word: set<int>, perm: Option<nat>, invert: bool)
    ensures Update(Update(word, perm, invert), perm, invert) == Update(word, perm, invert)
  {
  }

  lemma RewriteUnion(av: map<AvKey, set<int>>, F: set<AvKey>, G: set<AvKey>, perm: Option<nat>, invert: bool)
    ensures Rewrite(Rewrite(av, F, perm, invert), G, perm, invert) == Rewrite(av, F + G, perm, invert)
  {
    var one, two, both := Rewrite(av, F, perm, invert), Rewrite(Rewrite(av, F, perm, invert), G, perm, invert), Rewrite(av, F + G, perm, invert);
    assert two.Keys == both.Keys;
    forall k | k in both
      ensures two[k] == both[k]
    {
      UpdateIdempotent(Read(av, k), perm, invert);
    }
  }

  lemma NewKeys<K>(old': set<K>, F: set<K>, G: set<K>)
    ensures |(F + G) - old'| == |F - old'| + |G - (old' + F)|
  {
    assert (F + G) - old' == (F - old') + (G - (old' + F));
    assert (F - old') !! (G - (old' + F));
  }

  lemma ApplyRuleUnion(p: Policy, F: set<AvKey>, G: set<AvKey>, perm: Option<nat>, invert: bool)
    ensures ApplyRule(ApplyRule(p, F, perm, invert), G, perm, invert) == ApplyRule(p, F + G, perm, invert)
  {
    RewriteUnion(p.av, F, G, perm, invert);
    assert Rewrite(p.av, F, perm, invert).Keys == p.av.Keys + F;
    NewKeys(p.av.Keys, F, G);
    hide Rewrite;
  }

  lemma ApplyRuleNowhere(p: Policy, perm: Option<nat>, invert: bool)
    ensures ApplyRule(p, {}, perm, invert) == p
  {
    assert Rewrite(p.av, {}, perm, invert) == p.av;
    assert {} - p.av.Keys == {};
  }

  lemma XpermInsertUnion(xperms: map<XpermKey, set<int>>, f: set<XpermKey>, g: set<XpermKey>, bits: set<int>)
    ensures XpermInsert(XpermInsert(xperms, f, bits), g, bits) == XpermInsert(xperms, f + g, bits)
  {
  }

  lemma XpermKeysUnion(F: set<AvKey>, G: set<AvKey>, kind: XpermKind, driver: nat)
    ensures XpermKeys(F + G, kind, driver) == XpermKeys(F, kind, driver) + XpermKeys(G, kind, driver)
  {
  }

  lemma InsertXpermsUnion(p: Policy, f: set<XpermKey>, g: set<XpermKey>, bits: set<int>)
    ensures InsertXperms(InsertXperms(p, f, bits), g, bits) == InsertXperms(p, f + g, bits)
  {
    XpermInsertUnion(p.xperms, f, g, bits);
    assert XpermInsert(p.xperms, f, bits).Keys == p.xperms.Keys + f;
    NewKeys(p.xperms.Keys, f, g);
    hide XpermInsert;
  }

  lemma ApplyXpermUnion(p: Policy, F: set<AvKey>, G: set<AvKey>, low: nat, high: nat, invert: bool)
    ensures ApplyXperm(ApplyXperm(p, F, low, high, invert), G, low, high, invert) == ApplyXperm(p, F + G, low, high, invert)
  {
    hide InsertXperms, XpermBits, XpermKindOf, XpermDriverOf;
    var kind, driver, bits := XpermKindOf(low, high), XpermDriverOf(low, high), XpermBits(low, high, invert);
    XpermKeysUnion(F, G, kind, driver);
    hide XpermKeys;
    InsertXpermsUnion(p, XpermKeys(F, kind, driver), XpermKeys(G, kind, driver), bits);
  }

  lemma ApplyXpermNowhere(p: Policy, low: nat, high: nat, invert: bool)
    ensures ApplyXperm(p, {}, low, high, invert) == p
  {
    assert XpermKeys({}, XpermKindOf(low, high), XpermDriverOf(low, high)) == {};
    assert XpermInsert(p.xperms, {}, XpermBits(low, high, invert)) == p.xperms;
    assert {} - p.xperms.Keys == {};
  }

  lemma BoxUnion(S: set<nat>, S': set<nat>, T: set<nat>, T': set<nat>, C: set<nat>, C': set<nat>, e: Effect)
    ensures Box(S + S', T, C, e) == Box(S, T, C, e) + Box(S', T, C, e)
    ensures Box(S, T + T', C, e) == Box(S, T, C, e) + Box(S, T', C, e)
    ensures Box(S, T, C + C', e) == Box(S, T, C, e) + Box(S, T, C', e)
  {
  }

  lemma ValuesGrow(types: map<string, TypeDatum>, names: set<string>, n: string, all: bool)
    requires n in types
    ensures ValuesOf(types, names + {n}, all) ==
            ValuesOf(types, names, all) + if all || types[n].attribute then {types[n].value} else {}
  {
  }

  lemma ClassValuesGrow(classes: map<string, ClassDatum>, names: set<string>, n: string)
    requires n in classes
    ensures ClassValuesOf(classes, names + {n}) == ClassValuesOf(classes, names) + {classes[n].value}
  {
  }

  // -------- One more name of a wildcard --------

  lemma SourceStep(p: Policy, done: set<string>, n: string, all: bool, T: set<nat>, C: set<nat>, e: Effect,
                   perm: Option<nat>, invert: bool)
    requires n in p.types
    ensures var q := ApplyRule(p, Box(ValuesOf(p.types, done, all), T, C, e), perm, invert);
            ApplyRule(p, Box(ValuesOf(p.types, done + {n}, all), T, C, e), perm, invert) ==
            if all || p.types[n].attribute then ApplyRule(q, Box({p.types[n].value}, T, C, e), perm, invert) else q
  {
    hide Box, ApplyRule;
    ValuesGrow(p.types, done, n, all);
    hide ValuesOf;
    var S := ValuesOf(p.types, done, all);
    assert S + {} == S;
    BoxUnion(S, {p.types[n].value}, T, {}, C, {}, e);
    ApplyRuleUnion(p, Box(S, T, C, e), Box({p.types[n].value}, T, C, e), perm, invert);
  }

  lemma TargetStep(p: Policy, done: set<string>, n: string, all: bool, S: set<nat>, C: set<nat>, e: Effect,
                   perm: Option<nat>, invert: bool)
    requires n in p.types
    ensures var q := ApplyRule(p, Box(S, ValuesOf(p.types, done, all), C, e), perm, invert);
            ApplyRule(p, Box(S, ValuesOf(p.types, done + {n}, all), C, e), perm, invert) ==
            if all || p.types[n].attribute then ApplyRule(q, Box(S, {p.types[n].value}, C, e), perm, invert) else q
  {
    hide Box, ApplyRule;
    ValuesGrow(p.types, done, n, all);
    hide ValuesOf;
    var T := ValuesOf(p.types, done, all);
    assert T + {} == T;
    BoxUnion(S, {}, T, {p.types[n].value}, C, {}, e);
    ApplyRuleUnion(p, Box(S, T, C, e), Box(S, {p.types[n].value}, C, e), perm, invert);
  }

  lemma ClassStep(p: Policy, done: set<string>, n: string, S: set<nat>, T: set<nat>, e: Effect,
                  perm: Option<nat>, invert: bool)
    requires n in p.classes
    ensures var q := ApplyRule(p, Box(S, T, ClassValuesOf(p.classes, done), e), perm, invert);
            ApplyRule(p, Box(S, T, ClassValuesOf(p.classes, done + {n}), e), perm, invert) ==
            ApplyRule(q, Box(S, T, {p.classes[n].value}, e), perm, invert)
  {
    hide Box, ApplyRule;
    ClassValuesGrow(p.classes, done, n);
    hide ClassValuesOf;
    var C := ClassValuesOf(p.classes, done);
    BoxUnion(S, {}, T, {}, C, {p.classes[n].value}, e);
    ApplyRuleUnion(p, Box(S, T, C, e), Box(S, T, {p.classes[n].value}, e), perm, invert);
  }

  lemma StartStep(p: Policy, S: set<nat>, T: set<nat>, C: set<nat>, all: bool, e: Effect, perm: Option<nat>, invert: bool)
    ensures p == ApplyRule(p, Box(ValuesOf(p.types, {}, all), T, C, e), perm, invert)
    ensures p == ApplyRule(p, Box(S, ValuesOf(p.types, {}, all), C, e), perm, invert)
    ensures p == ApplyRule(p, Box(S, T, ClassValuesOf(p.classes, {}), e), perm, invert)
  {
    assert Box(ValuesOf(p.types, {}, all), T, C, e) == {};
    assert Box(S, ValuesOf(p.types, {}, all), C, e) == {};
    assert Box(S, T, ClassValuesOf(p.classes, {}), e) == {};
    hide Box, ApplyRule;
    ApplyRuleNowhere(p, perm, invert);
  }

  lemma SingleFootprint(p: Policy, src: TypeDatum, tgt: TypeDatum, cls: ClassDatum, e: Effect, all: bool)
    ensures Footprint(p.types, p.classes, Some(src), Some(tgt), Some(cls), e, all) ==
            {AvKey(src.value, tgt.value, cls.value, e)}
  {
  }

  lemma SingleKey(av: map<AvKey, set<int>>, key: AvKey, perm: Option<nat>, invert: bool)
    ensures Rewrite(av, {key}, perm, invert) == av[key := Update(Read(av, key), perm, invert)]
    ensures |{key} - av.Keys| == if key in av then 0 else 1
  {
    hide Update, Read;
    assert {key} - av.Keys == if key in av then {} else {key};
  }

  lemma ApplySingle(p: Policy, key: AvKey, perm: Option<nat>, invert: bool)
    ensures ApplyRule(p, {key}, perm, invert) ==
            p.(av := p.av[key := Update(Read(p.av, key), perm, invert)],
               len := p.len + if key in p.av then 0 else AV_NODE_SIZE)
  {
    SingleKey(p.av, key, perm, invert);
    hide Rewrite, Update, Read;
  }

  // A rule whose three sides are given writes one entry.
  lemma SingleRule(p: Policy, src: TypeDatum, tgt: TypeDatum, cls: ClassDatum, perm: Option<nat>, e: Effect, invert: bool)
    ensures var key := AvKey(src.value, tgt.value, cls.value, e);
            AddRuleRaw(p, Some(src), Some(tgt), Some(cls), perm, e, invert) ==
            p.(av := p.av[key := Update(Read(p.av, key), perm, invert)],
               len := p.len + if key in p.av then 0 else AV_NODE_SIZE)
  {
    hide ApplyRule, Footprint, Update, Read;
    SingleFootprint(p, src, tgt, cls, e, StripAv(e, invert));
    ApplySingle(p, AvKey(src.value, tgt.value, cls.value, e), perm, invert);
  }

  // -------- The same for extended permissions, where ALL sides name attributes only --------

  lemma XpermStart(p: Policy, S: set<nat>, T: set<nat>, C: set<nat>, e: Effect, low: nat, high: nat, invert: bool)
    ensures p == ApplyXperm(p, Box(ValuesOf(p.types, {}, false), T, C, e), low, high, invert)
    ensures p == ApplyXperm(p, Box(S, ValuesOf(p.types, {}, false), C, e), low, high, invert)
    ensures p == ApplyXperm(p, Box(S, T, ClassValuesOf(p.classes, {}), e), low, high, invert)
  {
    assert Box(ValuesOf(p.types, {}, false), T, C, e) == {};
    assert Box(S, ValuesOf(p.types, {}, false), C, e) == {};
    assert Box(S, T, ClassValuesOf(p.classes, {}), e) == {};
    hide Box, ApplyXperm;
    ApplyXpermNowhere(p, low, high, invert);
  }

  lemma XpermSourceStep(p: Policy, done: set<string>, n: string, T: set<nat>, C: set<nat>, e: Effect,
                        low: nat, high: nat, invert: bool)
    requires n in p.types
    ensures var q := ApplyXperm(p, Box(ValuesOf(p.types, done, false), T, C, e), low, high, invert);
            ApplyXperm(p, Box(ValuesOf(p.types, done + {n}, false), T, C, e), low, high, invert) ==
            if p.types[n].attribute then ApplyXperm(q, Box({p.types[n].value}, T, C, e), low, high, invert) else q
  {
    hide Box, ApplyXperm;
    ValuesGrow(p.types, done, n, false);
    hide ValuesOf;
    var S := ValuesOf(p.types, done, false);
    assert S + {} == S;
    BoxUnion(S, {p.types[n].value}, T, {}, C, {}, e);
    ApplyXpermUnion(p, Box(S, T, C, e), Box({p.types[n].value}, T, C, e), low, high, invert);
  }

  lemma XpermTargetStep(p: Policy, done: set<string>, n: string, S: set<nat>, C: set<nat>, e: Effect,
                        low: nat, high: nat, invert: bool)
    requires n in p.types
    ensures var q := ApplyXperm(p, Box(S, ValuesOf(p.types, done, false), C, e), low, high, invert);
            ApplyXperm(p, Box(S, ValuesOf(p.types, done + {n}, false), C, e), low, high, invert) ==
            if p.types[n].attribute then ApplyXperm(q, Box(S, {p.types[n].value}, C, e), low, high, invert) else q
  {
    hide Box, ApplyXperm;
    ValuesGrow(p.types, done, n, false);
    hide ValuesOf;
    var T := ValuesOf(p.types, done, false);
    assert T + {} == T;
    BoxUnion(S, {}, T, {p.types[n].value}, C, {}, e);
    ApplyXpermUnion(p, Box(S, T, C, e), Box(S, {p.types[n].value}, C, e), low, high, invert);
  }

  lemma XpermClassStep(p: Policy, done: set<string>, n: string, S: set<nat>, T: set<nat>, e: Effect,
                       low: nat, high: nat, invert: bool)
    requires n in p.classes
    ensures var q := ApplyXperm(p, Box(S, T, ClassValuesOf(p.classes, done), e), low, high, invert);
            ApplyXperm(p, Box(S, T, ClassValuesOf(p.classes, done + {n}), e), low, high, invert) ==
            ApplyXperm(q, Box(S, T, {p.classes[n].value}, e), low, high, invert)
  {
    hide Box, ApplyXperm;
    ClassValuesGrow(p.classes, done, n);
    hide ClassValuesOf;
    var C := ClassValuesOf(p.classes, done);
    BoxUnion(S, {}, T, {}, C, {p.classes[n].value}, e);
    ApplyXpermUnion(p, Box(S, T, C, e), Box(S, T, {p.classes[n].value}, e), low, high, invert);
  }

  lemma InsertSingle(p: Policy, x: XpermKey, bits: set<int>)
    ensures InsertXperms(p, {x}, bits) ==
            if x in p.xperms then p else p.(xperms := p.xperms[x := bits], len := p.len + XPERM_NODE_SIZE)
  {
    assert {x} - p.xperms.Keys == if x in p.xperms then {} else {x};
    assert XpermInsert(p.xperms, {x}, bits) == if x in p.xperms then p.xperms else p.xperms[x := bits];
    hide XpermInsert;
  }

  lemma SingleXperm(p: Policy, src: TypeDatum, tgt: TypeDatum, cls: ClassDatum, low: nat, high: nat, e: Effect, invert: bool)
    ensures var x := XpermKey(AvKey(src.value, tgt.value, cls.value, e), XpermKindOf(low, high), XpermDriverOf(low, high));
            AddXpermRuleRaw(p, Some(src), Some(tgt), Some(cls), low, high, e, invert) ==
            if x in p.xperms then p
            else p.(xperms := p.xperms[x := XpermBits(low, high, invert)], len := p.len + XPERM_NODE_SIZE)
  {
    hide InsertXperms, Footprint, XpermBits, XpermKindOf, XpermDriverOf;
    SingleFootprint(p, src, tgt, cls, e, false);
    var key := AvKey(src.value, tgt.value, cls.value, e);
    var x := XpermKey(key, XpermKindOf(low, high), XpermDriverOf(low, high));
    assert XpermKeys({key}, XpermKindOf(low, high), XpermDriverOf(low, high)) == {x};
    hide XpermKeys;
    InsertSingle(p, x, XpermBits(low, high, invert));
  }
}
