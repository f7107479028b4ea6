/** Which ioctl codes an extended permission rule covers, and that the first bitmap stored for
    a key, kind and driver is never changed. */
module PolicyXperms {
  import opened Options
  import opened Sepolicy
  import opened PolicyRuns

  // A driver bitmap covers whole drivers; a function bitmap covers codes of one driver.
  predicate CodeIn(kind: XpermKind, driver: nat, bits: set<int>, code: nat) {
    if kind == IoctlDriver then Driver(code) in bits else Driver(code) == driver && Func(code) in bits
  }

  predicate RuleCovers(low: nat, high: nat, code: nat) {
    CodeIn(XpermKindOf(low, high), XpermDriverOf(low, high), XpermBits(low, high, false), code)
  }

  lemma CodeSplit(code: nat)
    requires code < 0x10000
    ensures code == 256 * Driver(code) + Func(code) && Func(code) < 256
  {
  }

  lemma RangeCovers(low: nat, high: nat, code: nat)
    requires low <= high < 0x10000 && code < 0x10000
    ensures RuleCovers(low, high, code) <==>
            if Driver(low) == Driver(high) then low <= code <= high else Driver(low) <= Driver(code) <= Driver(high)
  {
    CodeSplit(low);
    CodeSplit(high);
    CodeSplit(code);
    hide Driver, Func;
  }

  ghost predicate Exact(low: nat, high: nat) {
    forall code: nat | code < 0x10000 :: RuleCovers(low, high, code) <==> low <= code <= high
  }

  lemma DriverOrder(low: nat, code: nat, high: nat)
    requires low <= code <= high < 0x10000
    ensures Driver(low) <= Driver(code) <= Driver(high)
  {
  }

  // The first and the last code of the drivers at both ends.
  lemma DriverEnds(low: nat, high: nat)
    requires low <= high < 0x10000
    ensures var first, last := low - Func(low), high + (255 - Func(high));
            0 <= first <= low && high <= last < 0x10000 && Driver(first) == Driver(low) && Driver(last) == Driver(high)
  {
  }

  lemma AlignedCovers(low: nat, high: nat, code: nat)
    requires low <= high < 0x10000 && code < 0x10000 && Func(low) == 0 && Func(high) == 255
    requires Driver(low) <= Driver(code) <= Driver(high)
    ensures low <= code <= high
  {
  }

  // The range is always covered, and nothing else is exactly when it lies in one driver or
  // consists of whole drivers.
  lemma RangeExactness(low: nat, high: nat)
    requires low <= high < 0x10000
    ensures forall code: nat | low <= code <= high :: RuleCovers(low, high, code)
    ensures Exact(low, high) <==> Driver(low) == Driver(high) || (Func(low) == 0 && Func(high) == 255)
  {
    DriverEnds(low, high);
    hide Driver, Func, RuleCovers;
    forall code: nat | code < 0x10000
      ensures RuleCovers(low, high, code) <==>
              if Driver(low) == Driver(high) then low <= code <= high else Driver(low) <= Driver(code) <= Driver(high)
      ensures low <= code <= high ==> Driver(low) <= Driver(code) <= Driver(high)
      ensures Func(low) == 0 && Func(high) == 255 && Driver(low) <= Driver(code) <= Driver(high) ==> low <= code <= high
    {
      RangeCovers(low, high, code);
      if low <= code <= high { DriverOrder(low, code, high); }
      if Func(low) == 0 && Func(high) == 255 && Driver(low) <= Driver(code) <= Driver(high) { AlignedCovers(low, high, code); }
    }
    if Driver(low) != Driver(high) {
      DriverOrder(low, high, high);
      assert RuleCovers(low, high, low - Func(low));
      assert RuleCovers(low, high, high + (255 - Func(high)));
    }
  }

  // A range given backwards covers nothing.
  lemma ReversedRangeIsEmpty(low: nat, high: nat, code: nat)
    requires high < low < 0x10000 && code < 0x10000
    ensures !RuleCovers(low, high, code)
  {
  }

  // -------- The table, entry by entry --------

  lemma AddXpermRuleAt(p: Policy, s: Option<string>, t: Option<string>, c: Option<string>,
                       range: Option<(nat, nat)>, effect: Effect, x: XpermKey)
    requires Coherent(p) && SidesExist(p, s, t, c)
    ensures var (low, high) := if range.Some? then range.value else (0, 0xFFFF);
            var r := AddXpermRule(p, s, t, c, range, effect, false);
            var named := && x.key in Footprint(p.types, p.classes, LookupType(p.types, s), LookupType(p.types, t),
                                               LookupClass(p.classes, c), effect, false)
                         && x.kind == XpermKindOf(low, high) && x.driver == XpermDriverOf(low, high);
            && (x in r.xperms <==> x in p.xperms || named)
            && (x in p.xperms ==> r.xperms[x] == p.xperms[x])
            && (x !in p.xperms && named ==> r.xperms[x] == XpermBits(low, high, false))
  {
    hide Coherent, Footprint;
  }

  // A node that the rule adds covers its range: exactly within one driver, as whole drivers
  // otherwise, and every one of the 65536 codes for ALL.
  lemma NewNodeCovers(p: Policy, s: Option<string>, t: Option<string>, c: Option<string>,
                      range: Option<(nat, nat)>, effect: Effect, x: XpermKey, code: nat)
    requires Coherent(p) && SidesExist(p, s, t, c) && code < 0x10000
    requires x !in p.xperms && x in AddXpermRule(p, s, t, c, range, effect, false).xperms
    ensures var bits := AddXpermRule(p, s, t, c, range, effect, false).xperms[x];
            && (range.None? ==> CodeIn(x.kind, x.driver, bits, code))
            && (range.Some? && range.value.0 <= range.value.1 < 0x10000 ==>
                  var (low, high) := range.value;
                  (CodeIn(x.kind, x.driver, bits, code) <==>
                   if Driver(low) == Driver(high) then low <= code <= high else Driver(low) <= Driver(code) <= Driver(high)))
  {
    hide Coherent, AddXpermRule, CodeIn, XpermBits, XpermKindOf, XpermDriverOf, Driver, SidesExist;
    var (low, high) := if range.Some? then range.value else (0, 0xFFFF);
    NewNodeIs(p, s, t, c, range, effect, x);
    RangeBitsCover(low, high, code);
    DriverOrder(0, code, 0xFFFF);
    AllDrivers();
  }

  lemma NewNodeIs(p: Policy, s: Option<string>, t: Option<string>, c: Option<string>,
                  range: Option<(nat, nat)>, effect: Effect, x: XpermKey)
    requires Coherent(p) && SidesExist(p, s, t, c)
    requires x !in p.xperms && x in AddXpermRule(p, s, t, c, range, effect, false).xperms
    ensures var (low, high) := if range.Some? then range.value else (0, 0xFFFF);
            && x.kind == XpermKindOf(low, high) && x.driver == XpermDriverOf(low, high)
            && AddXpermRule(p, s, t, c, range, effect, false).xperms[x] == XpermBits(low, high, false)
  {
    AddXpermRuleAt(p, s, t, c, range, effect, x);
    hide Coherent, AddXpermRule, Footprint, XpermBits, XpermKindOf, XpermDriverOf;
  }

  lemma RangeBitsCover(low: nat, high: nat, code: nat)
    requires code < 0x10000
    ensures low <= high < 0x10000 ==>
              (CodeIn(XpermKindOf(low, high), XpermDriverOf(low, high), XpermBits(low, high, false), code) <==>
               if Driver(low) == Driver(high) then low <= code <= high else Driver(low) <= Driver(code) <= Driver(high))
  {
    if low <= high < 0x10000 { RangeCovers(low, high, code); }
    hide CodeIn, XpermBits, XpermKindOf, XpermDriverOf, Driver;
  }

  lemma AllDrivers()
    ensures Driver(0) != Driver(0xFFFF)
  {
  }

  lemma AddRuleKeepsXperms(p: Policy, s: Option<string>, t: Option<string>, c: Option<string>, q: Option<string>,
                           effect: Effect, invert: bool)
    ensures AddRule(p, s, t, c, q, effect, invert).xperms == p.xperms
  {
    hide Footprint, Rewrite, RuleExists, PermValue, LookupType, LookupClass;
  }

  lemma StepKeepsXperms(p: Policy, op: Op, x: XpermKey)
    requires WellFormed(p) && x in p.xperms
    ensures x in Step(p, op).xperms && Step(p, op).xperms[x] == p.xperms[x]
  {
    hide AddRule, AddXpermRule, Coherent;
    match op
    case Allow(s, t, c, q) => AddRuleKeepsXperms(p, s, t, c, q, Allowed, false);
    case Deny(s, t, c, q) => AddRuleKeepsXperms(p, s, t, c, q, Allowed, true);
    case AuditAllowRule(s, t, c, q) => AddRuleKeepsXperms(p, s, t, c, q, AuditAllow, false);
    case DontAudit(s, t, c, q) => AddRuleKeepsXperms(p, s, t, c, q, AuditDeny, true);
    case Xperm(s, t, c, range, effect) => AddXpermKeepsEntry(p, s, t, c, range, effect, x);
    case Type(name, attr) =>
    case Attribute(name) =>
    case TypeAttribute(name, attr) =>
  }

  lemma AddXpermKeepsEntry(p: Policy, s: Option<string>, t: Option<string>, c: Option<string>,
                           range: Option<(nat, nat)>, effect: Effect, x: XpermKey)
    requires Coherent(p) && x in p.xperms
    ensures var r := AddXpermRule(p, s, t, c, range, effect, false); x in r.xperms && r.xperms[x] == p.xperms[x]
  {
    if SidesExist(p, s, t, c) {
      AddXpermRuleAt(p, s, t, c, range, effect, x);
    }
    hide AddXpermRuleRaw, Coherent;
  }

  // Over any run the bitmap first stored for a key, kind and driver is the one that stays: a
  // later rule with another range of the same driver is ignored.
  lemma {:induction false} FirstXpermWins(p: Policy, ops: seq<Op>, x: XpermKey)
    requires WellFormed(p) && x in p.xperms
    ensures x in Run(p, ops).xperms && Run(p, ops).xperms[x] == p.xperms[x]
    decreases |ops|
  {
    hide WellFormed, Step;
    if ops != [] {
      StepKeepsXperms(p, ops[0], x);
      StepKeepsWellFormed(p, ops[0]);
      FirstXpermWins(Step(p, ops[0]), ops[1..], x);
    }
  }

  // Whether a rule stores a node at x when there is none.
  ghost predicate NamesNode(p: Policy, op: Op, x: XpermKey) {
    op.Xperm? && SidesExist(p, op.s, op.t, op.c)
    && var (low, high) := Ends(op.range);
    && x.key in Footprint(p.types, p.classes, LookupType(p.types, op.s), LookupType(p.types, op.t),
                          LookupClass(p.classes, op.c), op.effect, false)
    && x.kind == XpermKindOf(low, high) && x.driver == XpermDriverOf(low, high)
  }

  function Ends(range: Option<(nat, nat)>): (nat, nat) {
    if range.Some? then range.value else (0, 0xFFFF)
  }

  // The bitmap of the first rule of a run that names x.
  ghost function FirstBitmap(p: Policy, ops: seq<Op>, x: XpermKey): Option<set<int>>
    decreases |ops|
  {
    if ops == [] then None
    else if NamesNode(p, ops[0], x) then Some(XpermBits(Ends(ops[0].range).0, Ends(ops[0].range).1, false))
    else FirstBitmap(Step(p, ops[0]), ops[1..], x)
  }

  lemma StepNewNode(p: Policy, op: Op, x: XpermKey)
    requires WellFormed(p) && x !in p.xperms
    ensures x in Step(p, op).xperms <==> NamesNode(p, op, x)
    ensures NamesNode(p, op, x) ==> Step(p, op).xperms[x] == XpermBits(Ends(op.range).0, Ends(op.range).1, false)
  {
    hide AddRule, AddXpermRule, Coherent, Footprint, XpermBits, XpermKindOf, XpermDriverOf;
    match op
    case Allow(s, t, c, q) => AddRuleKeepsXperms(p, s, t, c, q, Allowed, false);
    case Deny(s, t, c, q) => AddRuleKeepsXperms(p, s, t, c, q, Allowed, true);
    case AuditAllowRule(s, t, c, q) => AddRuleKeepsXperms(p, s, t, c, q, AuditAllow, false);
    case DontAudit(s, t, c, q) => AddRuleKeepsXperms(p, s, t, c, q, AuditDeny, true);
    case Xperm(s, t, c, range, effect) =>
      if SidesExist(p, s, t, c) {
        AddXpermRuleAt(p, s, t, c, range, effect, x);
      } else {
        FailedXperm(p, s, t, c, range, effect);
      }
    case Type(name, attr) =>
    case Attribute(name) =>
    case TypeAttribute(name, attr) =>
  }

  lemma FailedXperm(p: Policy, s: Option<string>, t: Option<string>, c: Option<string>, range: Option<(nat, nat)>, effect: Effect)
    requires !SidesExist(p, s, t, c)
    ensures AddXpermRule(p, s, t, c, range, effect, false) == p
  {
  }

  // What a run leaves at a key, kind and driver without a bitmap: that of the first succeeding
  // rule naming it, or none.
  lemma {:induction false} RunNewNode(p: Policy, ops: seq<Op>, x: XpermKey)
    requires WellFormed(p) && x !in p.xperms
    ensures x in Run(p, ops).xperms <==> FirstBitmap(p, ops, x).Some?
    ensures x in Run(p, ops).xperms ==> Run(p, ops).xperms[x] == FirstBitmap(p, ops, x).value
    decreases |ops|
  {
    hide WellFormed, Step, NamesNode, XpermBits;
    if ops != [] {
      StepNewNode(p, ops[0], x);
      StepKeepsWellFormed(p, ops[0]);
      if NamesNode(p, ops[0], x) {
        FirstXpermWins(Step(p, ops[0]), ops[1..], x);
      } else {
        RunNewNode(Step(p, ops[0]), ops[1..], x);
      }
    }
  }
}
