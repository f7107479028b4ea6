/** The policy database that the rewriter edits in place. View is the policy it stands for, and
    every method is proved to compute the corresponding function of module Sepolicy. */
module PolicyDb {
  import opened Options
  import opened Sepolicy
  import opened PolicyRuns
  import opened Avtab
  import opened RuleAlgebra

  class PolicyDb {
    var types: map<string, TypeDatum>
    var nprim: nat
    var classes: map<string, ClassDatum>
    var avtab: seq<AvNode>
    var len: nat
    var typeAttrMap: array<set<int>>
    var typeValToStruct: array<TypeDatum>
    var valToName: array<string>
    var roleTypes: array<set<int>>

    // The same rule is stored once.
    ghost predicate Valid()
      reads this
    {
      && ValidTable(avtab)
      && typeAttrMap != roleTypes
    }

    ghost function View(): Policy
      requires Valid()
      reads this, typeAttrMap, typeValToStruct, valToName, roleTypes
    {
      Policy(types, nprim, classes, AvView(avtab), XpermView(avtab), typeAttrMap[..], typeValToStruct[..],
             valToName[..], roleTypes[..], len)
    }

    // -------- Rules --------

    // Finds the node of a rule, or inserts it with the default of its kind.
    method GetAvtabNode(key: AvKey, xperms: Option<XpermData>) returns (i: nat)
      requires Valid() && (key.specified.IsXperms() <==> xperms.Some?)
      requires xperms.Some? ==> |xperms.value.words| == 8
      modifies this`avtab, this`len
      ensures Valid()
      ensures i < |avtab| && avtab[i].key == key
      ensures xperms.None? ==>
                && View() == old(View()).(av := AvView(avtab), len := len)
                && AvView(avtab) == old(AvView(avtab))[key := Read(old(AvView(avtab)), key)]
                && len == old(len) + if key in old(AvView(avtab)) then 0 else AV_NODE_SIZE
      ensures xperms.Some? ==>
                && View() == old(View()).(xperms := XpermView(avtab), len := len)
                && var x := XpermKey(key, xperms.value.kind, xperms.value.driver);
                   if x in old(XpermView(avtab)) then XpermView(avtab) == old(XpermView(avtab)) && len == old(len)
                   else && XpermView(avtab) == old(XpermView(avtab))[x := Flat(xperms.value.words)]
                        && len == old(len) + XPERM_NODE_SIZE
    {
      ghost var slot := (key, if xperms.Some? then Some((xperms.value.kind, xperms.value.driver)) else None);
      i := 0;
      while i < |avtab| && !(avtab[i].key == key &&
                             (xperms.Some? ==> avtab[i].xperms.Some? &&
                                               avtab[i].xperms.value.kind == xperms.value.kind &&
                                               avtab[i].xperms.value.driver == xperms.value.driver))
        invariant i <= |avtab|
        invariant forall j | 0 <= j < i :: avtab[j].Slot() != slot
      {
        assert avtab[i] in avtab;
        i := i + 1;
      }
      if i < |avtab| {
        ViewAt(avtab, i);
        assert avtab[i] in avtab;
        assert xperms.None? ==> AvView(avtab)[key := Read(AvView(avtab), key)] == AvView(avtab);
      } else {
        var node := AvNode(key, if xperms.Some? then {} else Default(key.specified), xperms);
        assert !Holds(avtab, slot);
        ViewAppend(avtab, node);
        avtab := avtab + [node];
        len := len + if xperms.Some? then XPERM_NODE_SIZE else AV_NODE_SIZE;
      }
    }

    method AddRuleAnySource(tgt: Option<TypeDatum>, cls: Option<ClassDatum>, perm: Option<nat>, effect: Effect, invert: bool)
      requires Valid() && !effect.IsXperms()
      modifies this`avtab, this`len
      ensures Valid()
      ensures View() == Sepolicy.AddRuleRaw(old(View()), None, tgt, cls, perm, effect, invert)
      decreases 1 + (if tgt.None? then 1 else 0) + (if cls.None? then 1 else 0), 0
    {
      hide ApplyRule, Box, ValuesOf, ClassSide, StripAv, ValidTable;
      ghost var p := View();
      var all := StripAv(effect, invert);
      ghost var T, C := TypeSide(types, tgt, all), ClassSide(classes, cls);
      ghost var done: set<string> := {};
      var names := types.Keys;
      StartStep(p, {}, T, C, all, effect, perm, invert);
      while names != {}
        invariant Valid() && done + names == types.Keys
        invariant View() == ApplyRule(p, Box(ValuesOf(types, done, all), T, C, effect), perm, invert)
      {
        var n :| n in names;
        SourceStep(p, done, n, all, T, C, effect, perm, invert);
        if all || types[n].attribute {
          AddRuleRaw(Some(types[n]), tgt, cls, perm, effect, invert);
        }
        done, names := done + {n}, names - {n};
      }
      assert done == types.Keys;
    }

    method AddRuleAnyTarget(src: TypeDatum, cls: Option<ClassDatum>, perm: Option<nat>, effect: Effect, invert: bool)
      requires Valid() && !effect.IsXperms()
      modifies this`avtab, this`len
      ensures Valid()
      ensures View() == Sepolicy.AddRuleRaw(old(View()), Some(src), None, cls, perm, effect, invert)
      decreases 1 + (if cls.None? then 1 else 0), 0
    {
      hide ApplyRule, Box, ValuesOf, ClassSide, StripAv, ValidTable;
      ghost var p := View();
      var all := StripAv(effect, invert);
      ghost var S, C := TypeSide(types, Some(src), all), ClassSide(classes, cls);
      ghost var done: set<string> := {};
      var names := types.Keys;
      StartStep(p, S, {}, C, all, effect, perm, invert);
      while names != {}
        invariant Valid() && done + names == types.Keys
        invariant View() == ApplyRule(p, Box(S, ValuesOf(types, done, all), C, effect), perm, invert)
      {
        var n :| n in names;
        TargetStep(p, done, n, all, S, C, effect, perm, invert);
        if all || types[n].attribute {
          AddRuleRaw(Some(src), Some(types[n]), cls, perm, effect, invert);
        }
        done, names := done + {n}, names - {n};
      }
      assert done == types.Keys;
    }

    method AddRuleAnyClass(src: TypeDatum, tgt: TypeDatum, perm: Option<nat>, effect: Effect, invert: bool)
      requires Valid() && !effect.IsXperms()
      modifies this`avtab, this`len
      ensures Valid()
      ensures View() == Sepolicy.AddRuleRaw(old(View()), Some(src), Some(tgt), None, perm, effect, invert)
      decreases 1, 0
    {
      hide ApplyRule, Box, ClassValuesOf, StripAv, ValidTable;
      ghost var p := View();
      ghost var S, T := {src.value}, {tgt.value};
      ghost var done: set<string> := {};
      var names := classes.Keys;
      StartStep(p, S, T, {}, true, effect, perm, invert);
      while names != {}
        invariant Valid() && done + names == classes.Keys
        invariant View() == ApplyRule(p, Box(S, T, ClassValuesOf(classes, done), effect), perm, invert)
      {
        var n :| n in names;
        ClassStep(p, done, n, S, T, effect, perm, invert);
        AddRuleRaw(Some(src), Some(tgt), Some(classes[n]), perm, effect, invert);
        done, names := done + {n}, names - {n};
      }
      assert done == classes.Keys;
    }

    // A missing side stands for ALL and is expanded over the symbol table, in whatever order
    // the hash table yields its names.
    method AddRuleRaw(src: Option<TypeDatum>, tgt: Option<TypeDatum>, cls: Option<ClassDatum>,
                      perm: Option<nat>, effect: Effect, invert: bool)
      requires Valid() && !effect.IsXperms()
      modifies this`avtab, this`len
      ensures Valid()
      ensures View() == Sepolicy.AddRuleRaw(old(View()), src, tgt, cls, perm, effect, invert)
      decreases (if src.None? then 1 else 0) + (if tgt.None? then 1 else 0) + (if cls.None? then 1 else 0), 1
    {
      hide Sepolicy.AddRuleRaw;
      if src == None {
        AddRuleAnySource(tgt, cls, perm, effect, invert);
      } else if tgt == None {
        AddRuleAnyTarget(src.value, cls, perm, effect, invert);
      } else if cls == None {
        AddRuleAnyClass(src.value, tgt.value, perm, effect, invert);
      } else {
        SingleRule(View(), src.value, tgt.value, cls.value, perm, effect, invert);
        WriteEntry(AvKey(src.value.value, tgt.value.value, cls.value.value, effect), perm, invert);
      }
    }

    method WriteEntry(key: AvKey, perm: Option<nat>, invert: bool)
      requires Valid() && !key.specified.IsXperms()
      modifies this`avtab, this`len
      ensures Valid()
      ensures View() == old(View()).(av := old(View()).av[key := Update(Read(old(View()).av, key), perm, invert)],
                                     len := old(len) + if key in old(View()).av then 0 else AV_NODE_SIZE)
    {
      hide Read, ValidTable;
      ghost var old' := AvView(avtab);
      var i := GetAvtabNode(key, None);
      assert avtab[i].xperms.None? by { NodeIsWord(avtab, i); }
      ViewAt(avtab, i);
      var word := avtab[i].bits;
      if invert {
        word := if perm.Some? then word - {perm.value - 1} else {};
      } else {
        word := if perm.Some? then word + {perm.value - 1} else ALL_BITS;
      }
      ViewUpdate(avtab, i, word);
      avtab := avtab[i := avtab[i].(bits := word)];
      assert AvView(avtab) == old'[key := word];
    }

    method AddRule(s: Option<string>, t: Option<string>, c: Option<string>, perm: Option<string>,
                   effect: Effect, invert: bool) returns (ok: bool)
      requires Valid() && !effect.IsXperms()
      modifies this`avtab, this`len
      ensures Valid()
      ensures ok <==> RuleExists(old(View()), s, t, c, perm)
      ensures View() == Sepolicy.AddRule(old(View()), s, t, c, perm, effect, invert)
    {
      hide Sepolicy.AddRuleRaw, ValidTable;
      var src: Option<TypeDatum>, tgt: Option<TypeDatum> := None, None;
      var cls: Option<ClassDatum>, bit: Option<nat> := None, None;
      if s.Some? {
        if s.value !in types { return false; }
        src := Some(types[s.value]);
      }
      if t.Some? {
        if t.value !in types { return false; }
        tgt := Some(types[t.value]);
      }
      if c.Some? {
        if c.value !in classes { return false; }
        cls := Some(classes[c.value]);
      }
      if perm.Some? {
        if c.None? { return false; }
        bit := FindPerm(cls.value, perm.value);
        if bit.None? { return false; }
      }
      AddRuleRaw(src, tgt, cls, bit, effect, invert);
      ok := true;
    }

    // -------- Extended permissions --------

    method AddXpermAnySource(tgt: Option<TypeDatum>, cls: Option<ClassDatum>, low: nat, high: nat, effect: Effect, invert: bool)
      requires Valid() && effect.IsXperms()
      modifies this`avtab, this`len
      ensures Valid()
      ensures View() == Sepolicy.AddXpermRuleRaw(old(View()), None, tgt, cls, low, high, effect, invert)
      decreases 1 + (if tgt.None? then 1 else 0) + (if cls.None? then 1 else 0), 0
    {
      hide ApplyXperm, Box, ValuesOf, ClassSide, ValidTable;
      ghost var p := View();
      ghost var T, C := TypeSide(types, tgt, false), ClassSide(classes, cls);
      ghost var done: set<string> := {};
      var names := types.Keys;
      XpermStart(p, {}, T, C, effect, low, high, invert);
      while names != {}
        invariant Valid() && done + names == types.Keys
        invariant View() == ApplyXperm(p, Box(ValuesOf(types, done, false), T, C, effect), low, high, invert)
      {
        var n :| n in names;
        XpermSourceStep(p, done, n, T, C, effect, low, high, invert);
        if types[n].attribute {
          AddXpermRuleRaw(Some(types[n]), tgt, cls, low, high, effect, invert);
        }
        done, names := done + {n}, names - {n};
      }
      assert done == types.Keys;
    }

    method AddXpermAnyTarget(src: TypeDatum, cls: Option<ClassDatum>, low: nat, high: nat, effect: Effect, invert: bool)
      requires Valid() && effect.IsXperms()
      modifies this`avtab, this`len
      ensures Valid()
      ensures View() == Sepolicy.AddXpermRuleRaw(old(View()), Some(src), None, cls, low, high, effect, invert)
      decreases 1 + (if cls.None? then 1 else 0), 0
    {
      hide ApplyXperm, Box, ValuesOf, ClassSide, ValidTable;
      ghost var p := View();
      ghost var S, C := TypeSide(types, Some(src), false), ClassSide(classes, cls);
      ghost var done: set<string> := {};
      var names := types.Keys;
      XpermStart(p, S, {}, C, effect, low, high, invert);
      while names != {}
        invariant Valid() && done + names == types.Keys
        invariant View() == ApplyXperm(p, Box(S, ValuesOf(types, done, false), C, effect), low, high, invert)
      {
        var n :| n in names;
        XpermTargetStep(p, done, n, S, C, effect, low, high, invert);
        if types[n].attribute {
          AddXpermRuleRaw(Some(src), Some(types[n]), cls, low, high, effect, invert);
        }
        done, names := done + {n}, names - {n};
      }
      assert done == types.Keys;
    }

    method AddXpermAnyClass(src: TypeDatum, tgt: TypeDatum, low: nat, high: nat, effect: Effect, invert: bool)
      requires Valid() && effect.IsXperms()
      modifies this`avtab, this`len
      ensures Valid()
      ensures View() == Sepolicy.AddXpermRuleRaw(old(View()), Some(src), Some(tgt), None, low, high, effect, invert)
      decreases 1, 0
    {
      hide ApplyXperm, Box, ClassValuesOf, ValidTable;
      ghost var p := View();
      ghost var S, T := {src.value}, {tgt.value};
      ghost var done: set<string> := {};
      var names := classes.Keys;
      XpermStart(p, S, T, {}, effect, low, high, invert);
      while names != {}
        invariant Valid() && done + names == classes.Keys
        invariant View() == ApplyXperm(p, Box(S, T, ClassValuesOf(classes, done), effect), low, high, invert)
      {
        var n :| n in names;
        XpermClassStep(p, done, n, S, T, effect, low, high, invert);
        AddXpermRuleRaw(Some(src), Some(tgt), Some(classes[n]), low, high, effect, invert);
        done, names := done + {n}, names - {n};
      }
      assert done == classes.Keys;
    }

    method AddXpermRuleRaw(src: Option<TypeDatum>, tgt: Option<TypeDatum>, cls: Option<ClassDatum>,
                           low: nat, high: nat, effect: Effect, invert: bool)
      requires Valid() && effect.IsXperms()
      modifies this`avtab, this`len
      ensures Valid()
      ensures View() == Sepolicy.AddXpermRuleRaw(old(View()), src, tgt, cls, low, high, effect, invert)
      decreases (if src.None? then 1 else 0) + (if tgt.None? then 1 else 0) + (if cls.None? then 1 else 0), 1
    {
      hide Sepolicy.AddXpermRuleRaw, ValidTable, XpermBits;
      if src == None {
        AddXpermAnySource(tgt, cls, low, high, effect, invert);
      } else if tgt == None {
        AddXpermAnyTarget(src.value, cls, low, high, effect, invert);
      } else if cls == None {
        AddXpermAnyClass(src.value, tgt.value, low, high, effect, invert);
      } else {
        SingleXperm(View(), src.value, tgt.value, cls.value, low, high, effect, invert);
        var xperms := EncodeXperms(low, high, invert);
        var i := GetAvtabNode(AvKey(src.value.value, tgt.value.value, cls.value.value, effect), Some(xperms));
      }
    }

    // A missing range stands for ALL.
    method AddXpermRule(s: Option<string>, t: Option<string>, c: Option<string>,
                        range: Option<(nat, nat)>, effect: Effect, invert: bool) returns (ok: bool)
      requires Valid() && effect.IsXperms()
      modifies this`avtab, this`len
      ensures Valid()
      ensures ok <==> SidesExist(old(View()), s, t, c)
      ensures View() == Sepolicy.AddXpermRule(old(View()), s, t, c, range, effect, invert)
    {
      hide Sepolicy.AddXpermRuleRaw, ValidTable;
      var src: Option<TypeDatum>, tgt: Option<TypeDatum>, cls: Option<ClassDatum> := None, None, None;
      if s.Some? {
        if s.value !in types { return false; }
        src := Some(types[s.value]);
      }
      if t.Some? {
        if t.value !in types { return false; }
        tgt := Some(types[t.value]);
      }
      if c.Some? {
        if c.value !in classes { return false; }
        cls := Some(classes[c.value]);
      }
      var low, high := 0, 0xFFFF;
      if range.Some? {
        low, high := range.value.0, range.value.1;
      }
      AddXpermRuleRaw(src, tgt, cls, low, high, effect, invert);
      ok := true;
    }

    // -------- Types and attributes --------

    method AddType(name: string, attr: bool) returns (ok: bool)
      requires Valid() && Coherent(View())
      modifies this, roleTypes
      ensures Valid() && ok
      ensures View() == Sepolicy.AddType(old(View()), name, attr)
      ensures roleTypes == old(roleTypes)
      ensures fresh(typeAttrMap) || typeAttrMap == old(typeAttrMap)
    {
      hide ValidTable, Coherent, AvView, XpermView;
      if name in types {
        return true;
      }
      TableSizes(View());
      nprim := nprim + 1;
      var value := nprim;
      var datum := TypeDatum(value, true, attr);
      types := types[name := datum];
      typeAttrMap := GrowTable(typeAttrMap, {}, {value - 1});
      typeValToStruct := GrowTable(typeValToStruct, datum, datum);
      valToName := GrowTable(valToName, "", name);
      AddBitToAll(roleTypes, value - 1);
      ok := true;
    }

    method AddTypeAttributeRaw(type': TypeDatum, attr: TypeDatum)
      requires Valid() && 1 <= type'.value <= typeAttrMap.Length
      modifies this`classes, typeAttrMap
      ensures Valid()
      ensures View() == old(View()).(rows := SetBit(old(View()).rows, type'.value - 1, attr.value - 1),
                                     classes := CloseClasses(old(View()).classes, type'.value - 1, attr.value - 1))
    {
      hide ValidTable, AvView, XpermView;
      var bit, attrBit := type'.value - 1, attr.value - 1;
      typeAttrMap[bit] := typeAttrMap[bit] + {attrBit};
      ghost var before, rows := classes, typeAttrMap[..];
      assert rows == SetBit(old(typeAttrMap[..]), bit, attrBit);
      var names := classes.Keys;
      while names != {}
        invariant typeAttrMap[..] == rows
        invariant classes.Keys == before.Keys && names <= before.Keys
        invariant forall n | n in before ::
            classes[n] == if n in names then before[n] else CloseClass(before[n], bit, attrBit)
      {
        var n :| n in names;
        var constraints := CloseConstraints(classes[n], bit, attrBit);
        classes := classes[n := classes[n].(constraints := constraints)];
        names := names - {n};
      }
      assert classes == CloseClasses(before, bit, attrBit);
    }

    method AddTypeAttribute(name: string, attr: string) returns (ok: bool)
      requires Valid() && Coherent(View())
      modifies this`classes, typeAttrMap
      ensures Valid()
      ensures ok <==> CanAddAttribute(old(View()), name, attr)
      ensures View() == Sepolicy.AddTypeAttribute(old(View()), name, attr)
    {
      hide ValidTable, AvView, XpermView, TablesMatch, RowsInRange, CloseClasses, SetBit;
      if name !in types || types[name].attribute {
        return false;
      }
      if attr !in types || !types[attr].attribute {
        return false;
      }
      TypeInRange(View(), name);
      AddTypeAttributeRaw(types[name], types[attr]);
      ok := true;
    }

    // The type is created even when the attribute then cannot be added.
    method KsuType(name: string, attr: string) returns (ok: bool)
      requires Valid() && WellFormed(View())
      modifies this, roleTypes, typeAttrMap
      ensures Valid()
      ensures ok <==> (name in old(types) ==> !old(types)[name].attribute) && attr in old(types) && old(types)[attr].attribute
      ensures View() == Step(old(View()), Type(name, attr))
    {
      hide ValidTable, AvView, XpermView, Coherent, KeysNamed, WellFormedClasses, Sepolicy.AddType, Sepolicy.AddTypeAttribute;
      AddTypeKeepsWellFormed(View(), name, false);
      AddTypeNames(View(), name, attr);
      ok := AddType(name, false);
      if ok {
        ok := AddTypeAttribute(name, attr);
      }
    }

    // -------- The exported operations --------

    method Apply(op: Op)
      requires Valid() && WellFormed(View())
      requires op.Xperm? ==> op.effect.IsXperms()
      modifies this, roleTypes, typeAttrMap
      ensures Valid()
      ensures View() == Step(old(View()), op)
    {
      hide ValidTable, AvView, XpermView, Coherent, KeysNamed, WellFormedClasses;
      hide Sepolicy.AddRule, Sepolicy.AddXpermRule, Sepolicy.AddType, Sepolicy.AddTypeAttribute;
      match op
      case Allow(s, t, c, perm) => var _ := AddRule(s, t, c, perm, Allowed, false);
      case Deny(s, t, c, perm) => var _ := AddRule(s, t, c, perm, Allowed, true);
      case AuditAllowRule(s, t, c, perm) => var _ := AddRule(s, t, c, perm, AuditAllow, false);
      case DontAudit(s, t, c, perm) => var _ := AddRule(s, t, c, perm, AuditDeny, true);
      case Xperm(s, t, c, range, effect) => var _ := AddXpermRule(s, t, c, range, effect, false);
      case Type(name, attr) => var _ := KsuType(name, attr);
      case Attribute(name) => var _ := AddType(name, true);
      case TypeAttribute(name, attr) => var _ := AddTypeAttribute(name, attr);
    }
  }

  // The source frees nothing and cannot fail here: a bigger table with the old rows in front.
  method Realloc<T>(old': array<T>, newLength: nat, zero: T) returns (a: array<T>)
    requires old'.Length <= newLength
    ensures fresh(a) && a.Length == newLength
    ensures a[..old'.Length] == old'[..]
    ensures forall i | old'.Length <= i < newLength :: a[i] == zero
  {
    a := new T[newLength](_ => zero);
    for i := 0 to old'.Length
      invariant a[..i] == old'[..i]
      invariant forall k | i <= k < newLength :: a[k] == zero
    {
      a[i] := old'[i];
    }
  }

  // The bigger table with its new last row filled in.
  method GrowTable<T>(old': array<T>, zero: T, last: T) returns (a: array<T>)
    ensures fresh(a) && a[..] == old'[..] + [last]
  {
    a := Realloc(old', old'.Length + 1, zero);
    a[old'.Length] := last;
  }

  lemma AddTypeNames(p: Policy, name: string, attr: string)
    ensures CanAddAttribute(Sepolicy.AddType(p, name, false), name, attr) <==>
            (name in p.types ==> !p.types[name].attribute) && attr in p.types && p.types[attr].attribute
  {
  }

  lemma TableSizes(p: Policy)
    requires Coherent(p)
    ensures |p.rows| == |p.structs| == |p.names| == p.nprim
  {
  }

  method AddBitToAll(roles: array<set<int>>, bit: int)
    modifies roles
    ensures roles[..] == GrowRoles(old(roles[..]), bit)
  {
    for i := 0 to roles.Length
      invariant forall k | 0 <= k < roles.Length :: roles[k] == if k < i then old(roles[k]) + {bit} else old(roles[k])
    {
      roles[i] := roles[i] + {bit};
    }
  }

  lemma TypeInRange(p: Policy, name: string)
    requires Coherent(p) && name in p.types
    ensures 1 <= p.types[name].value <= |p.rows|
  {
  }

  method CloseConstraints(c: ClassDatum, bit: int, attrBit: int) returns (constraints: seq<seq<ConstraintExpr>>)
    ensures c.(constraints := constraints) == CloseClass(c, bit, attrBit)
  {
    constraints := c.constraints;
    for n := 0 to |constraints|
      invariant |constraints| == |c.constraints|
      invariant forall m | 0 <= m < |constraints| ::
          constraints[m] == if m < n then CloseNode(c.constraints[m], bit, attrBit) else c.constraints[m]
    {
      var node := constraints[n];
      for k := 0 to |node|
        invariant |node| == |c.constraints[n]|
        invariant forall m | 0 <= m < |node| ::
            node[m] == if m < k then CloseExpr(c.constraints[n][m], bit, attrBit) else c.constraints[n][m]
      {
        var e := node[k];
        if e.kind == CexprNames && attrBit in e.typeNames {
          node := node[k := e.(names := e.names + {bit})];
        }
      }
      constraints := constraints[n := node];
    }
  }

  lemma FlatSet(words: seq<set<int>>, x: nat, on: bool)
    requires |words| == 8 && x < 256
    ensures var w := words[x / 32];
            Flat(words[x / 32 := if on then w + {x % 32} else w - {x % 32}]) == if on then Flat(words) + {x} else Flat(words) - {x}
  {
    var words' := words[x / 32 := if on then words[x / 32] + {x % 32} else words[x / 32] - {x % 32}];
    forall y | 0 <= y < 256
      ensures y % 32 in words'[y / 32] <==> if y == x then on else y % 32 in words[y / 32]
    {
    }
  }

  // Bit x of the bitmap is bit x % 32 of word x / 32.
  method EncodeXperms(low: nat, high: nat, invert: bool) returns (x: XpermData)
    ensures x.kind == XpermKindOf(low, high) && x.driver == XpermDriverOf(low, high)
    ensures |x.words| == 8
    ensures Flat(x.words) == XpermBits(low, high, invert)
  {
    var words := new set<int>[8](_ => {});
    var kind, driver, from, to := IoctlFunction, Driver(low), Func(low), Func(high);
    if Driver(low) != Driver(high) {
      kind, driver, from, to := IoctlDriver, 0, Driver(low), Driver(high);
    }
    var i := from;
    while i <= to
      invariant 0 <= i <= 256 && (from <= to ==> i <= to + 1) && (to < from ==> i == from)
      invariant Flat(words[..]) == if invert then {} else Span(from, i - 1)
    {
      hide Flat;
      FlatSet(words[..], i, !invert);
      if invert {
        words[i / 32] := words[i / 32] - {i % 32};
      } else {
        words[i / 32] := words[i / 32] + {i % 32};
      }
      assert Span(from, i) == Span(from, i - 1) + {i};
      i := i + 1;
    }
    x := XpermData(kind, driver, words[..]);
  }

  lemma NodeIsWord(tab: seq<AvNode>, i: nat)
    requires ValidTable(tab) && i < |tab|
    ensures tab[i].xperms.None? <==> !tab[i].key.specified.IsXperms()
    ensures tab[i].xperms.Some? ==> |tab[i].xperms.value.words| == 8
  {
    assert tab[i] in tab;
  }
}
