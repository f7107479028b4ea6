/** Constraint expressions written with an attribute stay expanded to the types carrying it. */
module PolicyConstraints {
  import opened Sepolicy
  import opened PolicyRuns

  // Every non-attribute type carrying an attribute the expression lists is in its expansion.
  ghost predicate ExprClosed(e: ConstraintExpr, rows: seq<set<int>>, structs: seq<TypeDatum>)
    requires |rows| == |structs|
  {
    e.kind == CexprNames ==>
      forall v, a | 0 <= v < |rows| && a in rows[v] && a in e.typeNames ::
        !structs[v].attribute && 0 <= a < |structs| && structs[a].attribute ==> v in e.names
  }

  predicate InClass(e: ConstraintExpr, c: ClassDatum) {
    exists n, k :: 0 <= n < |c.constraints| && 0 <= k < |c.constraints[n]| && c.constraints[n][k] == e
  }

  ghost predicate Closed(p: Policy)
    requires |p.rows| == |p.structs|
  {
    forall n, e | n in p.classes && InClass(e, p.classes[n]) :: ExprClosed(e, p.rows, p.structs)
  }

  lemma ClosedClassMember(c: ClassDatum, bit: int, attrBit: int, e: ConstraintExpr) returns (d: ConstraintExpr)
    requires InClass(e, CloseClass(c, bit, attrBit))
    ensures InClass(d, c) && e == CloseExpr(d, bit, attrBit)
  {
    var cc := CloseClass(c, bit, attrBit);
    var n, k :| 0 <= n < |cc.constraints| && 0 <= k < |cc.constraints[n]| && cc.constraints[n][k] == e;
    assert cc.constraints[n] == CloseNode(c.constraints[n], bit, attrBit);
    d := c.constraints[n][k];
  }

  lemma AddTypeKeepsClosed(p: Policy, name: string, attr: bool)
    requires WellFormed(p) && Closed(p)
    ensures WellFormed(AddType(p, name, attr)) && Closed(AddType(p, name, attr))
  {
    AddTypeKeepsWellFormed(p, name, attr);
    if name !in p.types {
      var r := AddType(p, name, attr);
      forall n, e | n in r.classes && InClass(e, r.classes[n])
        ensures ExprClosed(e, r.rows, r.structs)
      {
        hide TablesMatch, SymbolsResolve, WellFormedClasses, KeysNamed, InClass;
        assert ExprClosed(e, p.rows, p.structs);
        NewTypeKeepsExpr(p, e, attr);
      }
    }
  }

  lemma NewTypeKeepsExpr(p: Policy, e: ConstraintExpr, attr: bool)
    requires |p.rows| == |p.structs| == p.nprim && RowsInRange(p.rows) && ExprClosed(e, p.rows, p.structs)
    ensures ExprClosed(e, p.rows + [{p.nprim}], p.structs + [TypeDatum(p.nprim + 1, true, attr)])
  {
  }

  lemma AttributeClosesExpr(rows: seq<set<int>>, structs: seq<TypeDatum>, d: ConstraintExpr, bit: int, attrBit: int)
    requires |rows| == |structs| && ExprClosed(d, rows, structs)
    ensures ExprClosed(CloseExpr(d, bit, attrBit), SetBit(rows, bit, attrBit), structs)
  {
  }

  lemma AddTypeAttributeKeepsClosed(p: Policy, name: string, attr: string)
    requires WellFormed(p) && Closed(p)
    ensures |AddTypeAttribute(p, name, attr).rows| == |AddTypeAttribute(p, name, attr).structs|
    ensures Closed(AddTypeAttribute(p, name, attr))
  {
    if CanAddAttribute(p, name, attr) {
      var r := AddTypeAttribute(p, name, attr);
      var bit, attrBit := p.types[name].value - 1, p.types[attr].value - 1;
      forall n, e | n in r.classes && InClass(e, r.classes[n])
        ensures ExprClosed(e, r.rows, r.structs)
      {
        var d := ClosedClassMember(p.classes[n], bit, attrBit, e);
        AttributeClosesExpr(p.rows, p.structs, d, bit, attrBit);
      }
    }
  }

  lemma StepKeepsClosed(p: Policy, op: Op)
    requires WellFormed(p) && Closed(p)
    ensures WellFormed(Step(p, op)) && Closed(Step(p, op))
  {
    StepKeepsWellFormed(p, op);
    hide ExprClosed, InClass, AddRule, AddXpermRule, AddType, AddTypeAttribute;
    match op
    case Type(name, attr) =>
      AddTypeKeepsClosed(p, name, false);
      AddTypeAttributeKeepsClosed(AddType(p, name, false), name, attr);
    case Attribute(name) => AddTypeKeepsClosed(p, name, true);
    case TypeAttribute(name, attr) => AddTypeAttributeKeepsClosed(p, name, attr);
    case _ => RuleSameTables(p, op);
  }

  // Constraint closure survives every run of rules, attribute additions and type creations.
  lemma {:induction false} RunKeepsClosed(p: Policy, ops: seq<Op>)
    requires WellFormed(p) && Closed(p)
    ensures WellFormed(Run(p, ops)) && Closed(Run(p, ops))
    decreases |ops|
  {
    hide WellFormed, Closed, Step;
    if ops != [] {
      StepKeepsClosed(p, ops[0]);
      RunKeepsClosed(Step(p, ops[0]), ops[1..]);
    }
  }

  // -------- Exactly which names an expansion gains --------

  ghost predicate ExprGrown(d: ConstraintExpr, e: ConstraintExpr, requested: set<(int, int)>) {
    && e.kind == d.kind && e.typeNames == d.typeNames
    && forall v :: v in e.names <==>
         v in d.names || (d.kind == CexprNames && exists a :: a in d.typeNames && (v, a) in requested)
  }

  ghost predicate ClassGrown(c: ClassDatum, d: ClassDatum, requested: set<(int, int)>) {
    && d.value == c.value && d.perms == c.perms && d.common == c.common
    && |d.constraints| == |c.constraints|
    && (forall n | 0 <= n < |c.constraints| :: |d.constraints[n]| == |c.constraints[n]|)
    && forall n, k | 0 <= n < |c.constraints| && 0 <= k < |c.constraints[n]| ::
         ExprGrown(c.constraints[n][k], d.constraints[n][k], requested)
  }

  ghost predicate ClassesGrown(c: map<string, ClassDatum>, d: map<string, ClassDatum>, requested: set<(int, int)>) {
    d.Keys == c.Keys && forall n | n in c :: ClassGrown(c[n], d[n], requested)
  }

  lemma ExprGrownTrans(d: ConstraintExpr, e: ConstraintExpr, f: ConstraintExpr, de: set<(int, int)>, ef: set<(int, int)>)
    requires ExprGrown(d, e, de) && ExprGrown(e, f, ef)
    ensures ExprGrown(d, f, de + ef)
  {
    forall v
      ensures v in f.names <==>
              v in d.names || (d.kind == CexprNames && exists a :: a in d.typeNames && (v, a) in de + ef)
    {
      assert v in f.names <==> v in e.names || (d.kind == CexprNames && exists a :: a in d.typeNames && (v, a) in ef);
      assert (exists a :: a in d.typeNames && (v, a) in de + ef) <==>
             (exists a :: a in d.typeNames && (v, a) in de) || (exists a :: a in d.typeNames && (v, a) in ef);
    }
  }

  lemma ClassGrownTrans(c: ClassDatum, d: ClassDatum, e: ClassDatum, cd: set<(int, int)>, de: set<(int, int)>)
    requires ClassGrown(c, d, cd) && ClassGrown(d, e, de)
    ensures ClassGrown(c, e, cd + de)
  {
    forall n, k | 0 <= n < |c.constraints| && 0 <= k < |c.constraints[n]|
      ensures ExprGrown(c.constraints[n][k], e.constraints[n][k], cd + de)
    {
      hide ExprGrown;
      ExprGrownTrans(c.constraints[n][k], d.constraints[n][k], e.constraints[n][k], cd, de);
    }
  }

  lemma ClassesUngrown(c: map<string, ClassDatum>)
    ensures ClassesGrown(c, c, {})
  {
  }

  lemma CloseClassesGrown(c: map<string, ClassDatum>, bit: int, attrBit: int)
    ensures ClassesGrown(c, CloseClasses(c, bit, attrBit), {(bit, attrBit)})
  {
    forall n | n in c
      ensures ClassGrown(c[n], CloseClass(c[n], bit, attrBit), {(bit, attrBit)})
    {
      forall m, k | 0 <= m < |c[n].constraints| && 0 <= k < |c[n].constraints[m]|
        ensures ExprGrown(c[n].constraints[m][k], CloseExpr(c[n].constraints[m][k], bit, attrBit), {(bit, attrBit)})
      {
      }
      assert forall m | 0 <= m < |c[n].constraints| ::
          CloseClass(c[n], bit, attrBit).constraints[m] == CloseNode(c[n].constraints[m], bit, attrBit);
    }
  }

  lemma StepGrowsNames(p: Policy, op: Op)
    requires WellFormed(p)
    ensures ClassesGrown(p.classes, Step(p, op).classes, RequestedBy(p, op))
  {
    ClassesUngrown(p.classes);
    match op
    case Type(name, attr) => AddTypeAttributeGrowsNames(AddType(p, name, false), name, attr);
    case Attribute(name) => hide ClassesGrown;
    case TypeAttribute(name, attr) => AddTypeAttributeGrowsNames(p, name, attr);
    case _ =>
      RuleSameTables(p, op);
      hide ClassesGrown, Step;
  }

  lemma AddTypeAttributeGrowsNames(p: Policy, name: string, attr: string)
    ensures ClassesGrown(p.classes, AddTypeAttribute(p, name, attr).classes, RequestedAttribute(p, name, attr))
  {
    ClassesUngrown(p.classes);
    if CanAddAttribute(p, name, attr) {
      CloseClassesGrown(p.classes, p.types[name].value - 1, p.types[attr].value - 1);
    }
    hide ClassesGrown;
  }

  // Over any run an expression keeps what it was written with, and its expansion gains
  // exactly the types to which a listed attribute was added.
  lemma {:induction false} RunGrowsNames(p: Policy, ops: seq<Op>)
    requires WellFormed(p)
    ensures ClassesGrown(p.classes, Run(p, ops).classes, Requested(p, ops))
    decreases |ops|
  {
    hide WellFormed, ClassGrown, Step, RequestedBy;
    if ops == [] {
      ClassesUngrown(p.classes);
    } else {
      var q, r := Step(p, ops[0]), Run(p, ops);
      StepGrowsNames(p, ops[0]);
      StepKeepsWellFormed(p, ops[0]);
      RunGrowsNames(q, ops[1..]);
      forall n | n in p.classes
        ensures ClassGrown(p.classes[n], r.classes[n], Requested(p, ops))
      {
        ClassGrownTrans(p.classes[n], q.classes[n], r.classes[n], RequestedBy(p, ops[0]), Requested(q, ops[1..]));
      }
    }
  }
}
