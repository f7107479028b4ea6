/** What becomes of names that were new to the policy: over any run they are types or attributes
    according to the first operation that used them. */
module PolicyNames {
  import opened Options
  import opened Sepolicy
  import opened PolicyRuns

  predicate Introduces(op: Op, n: string) {
    (op.Type? || op.Attribute?) && op.name == n
  }

  lemma StepKeepsDatum(p: Policy, op: Op, n: string)
    requires WellFormed(p) && n in p.types
    ensures n in Step(p, op).types && Step(p, op).types[n] == p.types[n]
  {
    StepGrows(p, op);
    hide Step, WellFormed, RowsGrown, RolesGrown;
  }

  lemma RunKeepsDatum(p: Policy, ops: seq<Op>, n: string)
    requires WellFormed(p) && n in p.types
    ensures n in Run(p, ops).types && Run(p, ops).types[n] == p.types[n]
  {
    RunGrows(p, ops);
    hide Run, WellFormed, RowsGrown, RolesGrown;
  }

  lemma StepNewName(p: Policy, op: Op, n: string)
    requires WellFormed(p) && n !in p.types
    ensures n in Step(p, op).types <==> Introduces(op, n)
    ensures Introduces(op, n) ==> Step(p, op).types[n] == TypeDatum(p.nprim + 1, true, op.Attribute?)
  {
    if !op.Type? && !op.Attribute? && !op.TypeAttribute? {
      RuleSameTables(p, op);
      hide Step;
    }
  }

  // A new name is there after a run exactly when some operation introduced it, and is an
  // attribute exactly when the first of these was ksu_attribute.
  lemma {:induction false} RunNewName(p: Policy, ops: seq<Op>, n: string)
    requires WellFormed(p) && n !in p.types
    ensures n in Run(p, ops).types <==> exists i :: 0 <= i < |ops| && Introduces(ops[i], n)
    ensures forall i | 0 <= i < |ops| && Introduces(ops[i], n) && forall j | 0 <= j < i :: !Introduces(ops[j], n) ::
              n in Run(p, ops).types && Run(p, ops).types[n] == TypeDatum(Run(p, ops[..i]).nprim + 1, true, ops[i].Attribute?)
    decreases |ops|
  {
    hide WellFormed, Step, Introduces;
    if ops != [] {
      var q := Step(p, ops[0]);
      StepNewName(p, ops[0], n);
      StepKeepsWellFormed(p, ops[0]);
      if Introduces(ops[0], n) {
        RunKeepsDatum(q, ops[1..], n);
        assert ops[..0] == [] && Run(p, []) == p;
      } else {
        RunNewName(q, ops[1..], n);
        forall i | 0 < i <= |ops|
          ensures Run(p, ops[..i]) == Run(q, ops[1..][..i - 1])
        {
          assert ops[..i][1..] == ops[1..][..i - 1];
        }
        assert forall i | 0 <= i < |ops[1..]| :: ops[1..][i] == ops[i + 1];
      }
    }
  }

  lemma AddBit(q: Policy, n: string, t: string)
    requires Coherent(q) && n in q.types && q.types[n].attribute && t in q.types && !q.types[t].attribute
    ensures var i := q.types[t].value - 1;
            0 <= i < |q.rows| && Step(q, TypeAttribute(t, n)).rows == q.rows[i := q.rows[i] + {q.types[n].value - 1}]
  {
    hide RowsInRange;
  }

  // Once ksu_attribute has made an attribute of a new name, whatever else is done, it can be
  // added to every plain type, whose row then has its bit.
  lemma NewAttributeWorks(p: Policy, n: string, ops: seq<Op>, t: string)
    requires WellFormed(p) && n !in p.types
    requires var q := Run(Step(p, Attribute(n)), ops); t in q.types && !q.types[t].attribute
    ensures var q := Run(Step(p, Attribute(n)), ops);
            var r := Step(q, TypeAttribute(t, n));
            var i := q.types[t].value - 1;
            && 0 <= i < |q.rows|
            && r.rows == q.rows[i := q.rows[i] + {p.nprim}]
  {
    hide WellFormedClasses, KeysNamed, Coherent, GrownBy;
    StepKeepsWellFormed(p, Attribute(n));
    StepNewName(p, Attribute(n), n);
    var p' := Step(p, Attribute(n));
    RunKeepsDatum(p', ops, n);
    RunGrows(p', ops);
    var q := Run(p', ops);
    hide Run, Step;
    AddBit(q, n, t);
  }

  // A new name that ksu_type has made a type can never be added as an attribute.
  lemma NewTypeIsPlain(p: Policy, n: string, attr: string, ops: seq<Op>, t: string)
    requires WellFormed(p) && n !in p.types
    ensures var q := Run(Step(p, Type(n, attr)), ops); Step(q, TypeAttribute(t, n)) == q
  {
    StepKeepsWellFormed(p, Type(n, attr));
    StepNewName(p, Type(n, attr), n);
    RunKeepsDatum(Step(p, Type(n, attr)), ops, n);
    hide Run;
  }
}
