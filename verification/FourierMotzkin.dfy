/**
 SolveLinearInequalities of src/arith/solve_linear_inequality.cc: Fourier-Motzkin
 elimination with pruning, and the group bounds it returns
 (src/arith/int_constraints.cc).
 */
module FourierMotzkin {
  import opened Options
  import opened IntOperator
  import opened Exprs
  import opened Constraints

  const Zero: Expr := Const(0)

  // ----- normalising comparisons to `e <= 0`, `e == 0`, `e != 0` -----

  predicate Normal(c: Cond) {
    c.Cmp? ==> c.rhs == Zero && (c.op == EQ || c.op == NE || c.op == LE)
  }

  ghost predicate AllNormal(cs: seq<Cond>) {
    forall c :: c in cs ==> Normal(c)
  }

  /** NormalizeComparisons; its analyzer knows no ranges. */
  function Normalize(an: Analyzer, c: Cond): Cond {
    match c
    case Cmp(EQ, a, b) => Cmp(EQ, an.simplify(map[], Sub(a, b)), Zero)
    case Cmp(NE, a, b) => Cmp(NE, an.simplify(map[], Sub(a, b)), Zero)
    case Cmp(LT, a, b) => Cmp(LE, an.simplify(map[], Add(Sub(a, b), Const(1))), Zero)
    case Cmp(LE, a, b) => Cmp(LE, an.simplify(map[], Sub(a, b)), Zero)
    case Cmp(GT, a, b) => Cmp(LE, an.simplify(map[], Add(Sub(b, a), Const(1))), Zero)
    case Cmp(GE, a, b) => Cmp(LE, an.simplify(map[], Sub(b, a)), Zero)
    case And(p, q) => And(Normalize(an, p), Normalize(an, q))
    case Or(p, q) => Or(Normalize(an, p), Normalize(an, q))
    case Not(p) => Not(Normalize(an, p))
    case Lit(_) => c
  }

  lemma SimplifiedDifference(an: Analyzer, a: Expr, b: Expr, rho: Valuation)
    requires an.SoundSimplify()
    ensures Eval(an.simplify(map[], Sub(a, b)), rho) == Eval(a, rho) - Eval(b, rho)
    ensures Eval(an.simplify(map[], Add(Sub(a, b), Const(1))), rho) == Eval(a, rho) - Eval(b, rho) + 1
    ensures Vars(an.simplify(map[], Sub(a, b))) <= Vars(a) + Vars(b)
    ensures Vars(an.simplify(map[], Add(Sub(a, b), Const(1)))) <= Vars(a) + Vars(b)
  {
    assert InRanges(map[], rho);
    assert Eval(Const(1), rho) == 1 && Vars(Const(1)) == {};
    assert Vars(Sub(a, b)) == Vars(a) + Vars(b);
  }

  lemma NormalizeComparison(an: Analyzer, c: Cond, rho: Valuation)
    requires an.SoundSimplify() && c.Cmp?
    ensures Holds(Normalize(an, c), rho) == Holds(c, rho) && CondVars(Normalize(an, c)) <= CondVars(c)
  {
    SimplifiedDifference(an, c.lhs, c.rhs, rho);
    SimplifiedDifference(an, c.rhs, c.lhs, rho);
    assert Eval(Zero, rho) == 0 && Vars(Zero) == {};
  }

  /** Normalising keeps the truth of a formula and adds no variable. */
  lemma {:induction false} NormalizeHolds(an: Analyzer, c: Cond, rho: Valuation)
    requires an.SoundSimplify()
    ensures Holds(Normalize(an, c), rho) == Holds(c, rho)
    ensures CondVars(Normalize(an, c)) <= CondVars(c)
  {
    match c
    case Lit(_) =>
    case Cmp(_, _, _) => NormalizeComparison(an, c, rho);
    case And(p, q) => NormalizeHolds(an, p, rho); NormalizeHolds(an, q, rho);
    case Or(p, q) => NormalizeHolds(an, p, rho); NormalizeHolds(an, q, rho);
    case Not(p) => NormalizeHolds(an, p, rho);
  }

  lemma NormalizeIsNormal(an: Analyzer, c: Cond)
    ensures Normal(Normalize(an, c))
  {
  }

  // ----- adding an inequality to a set, dropping dominated ones -----

  /** Within the ranges, `s` says what `s0` and `c` say together. */
  ghost predicate Adds(rs: Ranges, s: seq<Cond>, s0: seq<Cond>, c: Cond) {
    forall rho: Valuation :: InRanges(rs, rho) ==> (AllHold(s, rho) <==> AllHold(s0, rho) && Holds(c, rho))
  }

  /** `s` and `s0` agree wherever `c` holds. */
  ghost predicate SameUnder(rs: Ranges, s: seq<Cond>, s0: seq<Cond>, c: Cond) {
    forall rho: Valuation :: InRanges(rs, rho) && Holds(c, rho) ==> (AllHold(s, rho) <==> AllHold(s0, rho))
  }

  /** `p` implies `q` because `q.lhs - p.lhs <= 0` was proved. */
  lemma Dominates(an: Analyzer, rs: Ranges, p: Cond, q: Cond, rho: Valuation)
    requires an.SoundProver() && InRanges(rs, rho) && Normal(p) && Normal(q)
    requires p.Cmp? && q.Cmp? && p.op == LE && q.op == LE
    requires an.canProve(rs, Cmp(LE, Sub(q.lhs, p.lhs), Zero))
    ensures Holds(p, rho) ==> Holds(q, rho)
  {
    assert Holds(Cmp(LE, Sub(q.lhs, p.lhs), Zero), rho);
    assert Eval(Zero, rho) == 0;
    assert Eval(Sub(q.lhs, p.lhs), rho) == Eval(q.lhs, rho) - Eval(p.lhs, rho);
  }

  lemma Redundant(rs: Ranges, s: seq<Cond>, s0: seq<Cond>, c: Cond)
    requires SameUnder(rs, s, s0, c)
    requires forall rho: Valuation :: InRanges(rs, rho) && AllHold(s, rho) ==> Holds(c, rho)
    requires forall rho: Valuation :: InRanges(rs, rho) && AllHold(s0, rho) && Holds(c, rho) ==> AllHold(s, rho)
    ensures Adds(rs, s, s0, c)
  {
  }

  lemma EraseSame(rs: Ranges, s: seq<Cond>, i: nat, s0: seq<Cond>, c: Cond)
    requires i < |s| && SameUnder(rs, s, s0, c)
    requires forall rho: Valuation :: InRanges(rs, rho) && Holds(c, rho) ==> Holds(s[i], rho)
    ensures SameUnder(rs, s[..i] + s[i + 1..], s0, c)
  {
    forall rho: Valuation | InRanges(rs, rho) && Holds(c, rho)
      ensures AllHold(s[..i] + s[i + 1..], rho) <==> AllHold(s0, rho)
    {
      AllHoldErase(s, i, rho);
    }
  }

  lemma PushSame(rs: Ranges, s: seq<Cond>, s0: seq<Cond>, c: Cond)
    requires SameUnder(rs, s, s0, c)
    ensures Adds(rs, s + [c], s0, c)
  {
    forall rho: Valuation | InRanges(rs, rho) ensures AllHold(s + [c], rho) <==> AllHold(s0, rho) && Holds(c, rho) {
      AllHoldAdd(s, c, rho);
    }
  }

  predicate IsLE(c: Cond) {
    c.Cmp? && c.op == LE
  }

  method AddInequality(an: Analyzer, rs: Ranges, s0: seq<Cond>, c: Cond) returns (s: seq<Cond>)
    requires an.SoundProver() && AllNormal(s0) && Normal(c)
    ensures Adds(rs, s, s0, c) && forall d :: d in s ==> d in s0 || d == c
  {
    s := s0;
    if an.canProve(rs, c) || c in s0 { return; }
    if IsLE(c) {
      var i := 0;
      while i < |s|
        invariant i <= |s| && SameUnder(rs, s, s0, c)
        invariant forall d :: d in s ==> d in s0
        decreases |s| - i
      {
        var le := s[i];
        if IsLE(le) && an.canProve(rs, Cmp(LE, Sub(c.lhs, le.lhs), Zero)) {
          forall rho: Valuation | InRanges(rs, rho) && AllHold(s, rho)
            ensures Holds(c, rho)
          {
            Dominates(an, rs, le, c, rho);
          }
          Redundant(rs, s, s0, c);
          return;
        } else if IsLE(le) && an.canProve(rs, Cmp(LE, Sub(le.lhs, c.lhs), Zero)) {
          forall rho: Valuation | InRanges(rs, rho) && Holds(c, rho)
            ensures Holds(s[i], rho)
          {
            Dominates(an, rs, c, le, rho);
          }
          EraseSame(rs, s, i, s0, c);
          s := s[..i] + s[i + 1..];
        } else {
          i := i + 1;
        }
      }
    }
    PushSame(rs, s, s0, c);
    s := s + [c];
  }

  // ----- classification by the sign of the coefficient -----

  /** coef * v + rest <= 0. */
  datatype Polar = Polar(coef: int, rest: Expr)

  predicate PolarHolds(p: Polar, y: int, rho: Valuation) {
    p.coef * y + Eval(p.rest, rho) <= 0
  }

  predicate PolarsHold(ps: seq<Polar>, y: int, rho: Valuation) {
    forall i :: 0 <= i < |ps| ==> PolarHolds(ps[i], y, rho)
  }

  lemma PolarsAdd(ps: seq<Polar>, p: Polar, y: int, rho: Valuation)
    ensures PolarsHold(ps + [p], y, rho) <==> PolarsHold(ps, y, rho) && PolarHolds(p, y, rho)
  {
    assert (ps + [p])[|ps|] == p;
    forall i | 0 <= i < |ps| ensures (ps + [p])[i] == ps[i] {}
  }

  /** The four containers the classification fills. */
  datatype Classes = Classes(next: seq<Cond>, rest: seq<Cond>, pos: seq<Polar>, neg: seq<Polar>)

  ghost predicate ClassesHold(c: Classes, v: string, rho: Valuation) {
    AllHold(c.next, rho) && AllHold(c.rest, rho) && PolarsHold(c.pos, rho(v), rho) && PolarsHold(c.neg, rho(v), rho)
  }

  ghost predicate Signed(c: Classes) {
    && (forall p :: p in c.pos ==> p.coef > 0)
    && (forall p :: p in c.neg ==> p.coef < 0)
    && AllNormal(c.next)
  }

  ghost predicate Clear(vs: set<string>, gone: set<string>) {
    forall x :: x in vs ==> x !in gone
  }

  /** Nothing but the unclassified formulas mentions a variable of `gone`. */
  ghost predicate Avoids(c: Classes, gone: set<string>) {
    && (forall d :: d in c.next ==> Clear(CondVars(d), gone))
    && (forall p :: p in c.pos ==> Clear(Vars(p.rest), gone))
    && (forall p :: p in c.neg ==> Clear(Vars(p.rest), gone))
  }

  /** A constant zero coefficient is reported for v only if it does not occur in e. */
  ghost predicate ReportsAbsence(an: Analyzer, e: Expr, v: string) {
    |an.detectLinear(e, [v])| == 2 && an.detectLinear(e, [v])[0] == Zero ==> v !in Vars(e)
  }

  /** On what the simplifier returns, a constant zero coefficient means absence. */
  ghost predicate ZeroMeansAbsent(an: Analyzer) {
    forall e, v :: ReportsAbsence(an, an.simplify(map[], e), v)
  }

  ghost predicate Reported(an: Analyzer, c: Cond) {
    c.Cmp? ==> forall v :: ReportsAbsence(an, c.lhs, v)
  }

  ghost predicate AllReported(an: Analyzer, cs: seq<Cond>) {
    forall c :: c in cs ==> Reported(an, c)
  }

  /** The normalised comparisons are about simplified expressions. */
  lemma NormalizeReported(an: Analyzer, c: Cond)
    requires ZeroMeansAbsent(an)
    ensures Reported(an, Normalize(an, c))
  {
  }

  lemma LinearValue(an: Analyzer, e: Expr, v: string, rho: Valuation)
    requires an.SoundDetector() && an.detectLinear(e, [v]) != []
    ensures var cs := an.detectLinear(e, [v]);
      |cs| == 2 && Eval(e, rho) == Eval(cs[0], rho) * rho(v) + Eval(cs[1], rho) && Vars(cs[1]) <= Vars(e) &&
        v !in Vars(cs[1])
  {
    var cs := an.detectLinear(e, [v]);
    assert IsLinearForm(e, [v], cs);
    assert [v][..0] == [] && cs[..1][..0] == [];
    assert Weighted(cs[..1], [v], rho) == Weighted(cs[..1][..0], [v][..0], rho) + Eval(cs[0], rho) * rho(v);
    assert [v][0] == v;
  }

  function Negated(e: Expr): Expr {
    Sub(Zero, e)
  }

  /** One formula of ClassifyByPolarity, except that adding to `next` is left to the caller (None). */
  function Classify(an: Analyzer, v: string, c: Cond, k: Classes): Option<Classes> {
    if c.Cmp? && (c.op == LE || c.op == EQ) then
      var cs := an.detectLinear(c.lhs, [v]);
      if |cs| == 2 && cs[0].Const? then
        var k0, e := cs[0].value, cs[1];
        if k0 == 0 then None
        else if c.op == LE then
          if k0 > 0 then Some(k.(pos := k.pos + [Polar(k0, e)])) else Some(k.(neg := k.neg + [Polar(k0, e)]))
        else if k0 > 0 then Some(k.(pos := k.pos + [Polar(k0, e)], neg := k.neg + [Polar(-k0, Negated(e))]))
        else Some(k.(pos := k.pos + [Polar(-k0, Negated(e))], neg := k.neg + [Polar(k0, e)]))
      else Some(k.(rest := k.rest + [c]))
    else Some(k.(rest := k.rest + [c]))
  }

  lemma ClassifyHolds(an: Analyzer, v: string, c: Cond, k: Classes, rho: Valuation)
    requires an.SoundDetector() && Normal(c) && Classify(an, v, c, k).Some?
    ensures ClassesHold(Classify(an, v, c, k).value, v, rho) <==> ClassesHold(k, v, rho) && Holds(c, rho)
  {
    AllHoldAdd(k.rest, c, rho);
    if c.Cmp? && (c.op == LE || c.op == EQ) {
      var cs := an.detectLinear(c.lhs, [v]);
      if |cs| == 2 && cs[0].Const? {
        LinearValue(an, c.lhs, v, rho);
        var k0, e := cs[0].value, cs[1];
        assert Eval(Zero, rho) == 0 && Eval(Negated(e), rho) == -Eval(e, rho) && Eval(Const(k0), rho) == k0;
        PolarsAdd(k.pos, Polar(k0, e), rho(v), rho);
        PolarsAdd(k.neg, Polar(k0, e), rho(v), rho);
        PolarsAdd(k.pos, Polar(-k0, Negated(e)), rho(v), rho);
        PolarsAdd(k.neg, Polar(-k0, Negated(e)), rho(v), rho);
        assert (-k0) * rho(v) == -(k0 * rho(v));
      }
    }
  }

  lemma ClassifyAvoids(an: Analyzer, v: string, c: Cond, k: Classes, gone: set<string>)
    requires an.SoundDetector() && Normal(c) && Avoids(k, gone + {v}) && Clear(CondVars(c), gone)
    ensures Classify(an, v, c, k).Some? ==> Avoids(Classify(an, v, c, k).value, gone + {v})
    ensures Classify(an, v, c, k).None? && Reported(an, c) ==> Clear(CondVars(c), gone + {v})
  {
    if c.Cmp? && (c.op == LE || c.op == EQ) {
      var cs := an.detectLinear(c.lhs, [v]);
      if |cs| == 2 && cs[0].Const? { DetectedClear(an, c, v, gone); }
    }
  }

  lemma DetectedClear(an: Analyzer, c: Cond, v: string, gone: set<string>)
    requires an.SoundDetector() && Normal(c) && c.Cmp? && Clear(CondVars(c), gone) && an.detectLinear(c.lhs, [v]) != []
    ensures var cs := an.detectLinear(c.lhs, [v]);
      |cs| == 2 && Clear(Vars(cs[1]), gone + {v}) && Clear(Vars(Negated(cs[1])), gone + {v})
    ensures an.detectLinear(c.lhs, [v])[0] == Zero && Reported(an, c) ==> Clear(CondVars(c), gone + {v})
  {
    LinearValue(an, c.lhs, v, x => 0);
    var rest := an.detectLinear(c.lhs, [v])[1];
    NegatedVars(rest);
    NormalVars(c);
    ClearMore(Vars(rest), Vars(c.lhs), gone, v);
    ClearMore(Vars(c.lhs), Vars(c.lhs), gone, v);
    if Reported(an, c) { assert ReportsAbsence(an, c.lhs, v); }
  }

  lemma ClearMore(small: set<string>, big: set<string>, gone: set<string>, v: string)
    requires small <= big && Clear(big, gone)
    ensures v !in small ==> Clear(small, gone + {v})
  {
  }

  lemma NegatedVars(e: Expr)
    ensures Vars(Negated(e)) == Vars(e)
  {
    assert Vars(Zero) == {};
  }

  lemma NormalVars(c: Cond)
    requires Normal(c) && c.Cmp?
    ensures CondVars(c) == Vars(c.lhs)
  {
    assert Vars(Zero) == {};
  }

  ghost predicate AllClear(cs: seq<Cond>, gone: set<string>) {
    forall c :: c in cs ==> Clear(CondVars(c), gone)
  }

  /** `k` says what `k0` and the formulas `cs` say together. */
  ghost predicate Classified(rs: Ranges, k: Classes, k0: Classes, cs: seq<Cond>, v: string) {
    forall rho: Valuation :: InRanges(rs, rho) ==>
      (ClassesHold(k, v, rho) <==> ClassesHold(k0, v, rho) && AllHold(cs, rho))
  }

  method ClassifyByPolarity(an: Analyzer, rs: Ranges, v: string, current: seq<Cond>, k0: Classes,
      ghost gone: set<string>)
    returns (k: Classes)
    requires an.SoundProver() && an.SoundDetector() && AllNormal(current) && Signed(k0)
    ensures Signed(k) && Classified(rs, k, k0, current, v) && k0.pos <= k.pos && k0.neg <= k.neg
    ensures AllReported(an, current) && Avoids(k0, gone + {v}) && AllClear(current, gone) ==> Avoids(k, gone + {v})
    ensures AllReported(an, current) && AllReported(an, k0.next) ==> AllReported(an, k.next)
  {
    k := k0;
    for i := 0 to |current|
      invariant Signed(k) && Classified(rs, k, k0, current[..i], v) && k0.pos <= k.pos && k0.neg <= k.neg
      invariant AllReported(an, current) && Avoids(k0, gone + {v}) && AllClear(current, gone) ==>
        Avoids(k, gone + {v})
      invariant AllReported(an, current) && AllReported(an, k0.next) ==> AllReported(an, k.next)
    {
      var before := k;
      var c := current[i];
      assert Normal(c);
      var r := Classify(an, v, c, k);
      ClassifySigned(an, v, c, k);
      if Avoids(k, gone + {v}) && Clear(CondVars(c), gone) { ClassifyAvoids(an, v, c, k, gone); }
      if r.None? {
        var next := AddInequality(an, rs, k.next, c);
        k := k.(next := next);
      } else {
        k := r.value;
      }
      forall rho: Valuation | InRanges(rs, rho)
        ensures ClassesHold(k, v, rho) <==> ClassesHold(k0, v, rho) && AllHold(current[..i + 1], rho)
      {
        AllHoldSnoc(current, i, rho);
        if r.Some? { ClassifyHolds(an, v, c, before, rho); }
      }
    }
    assert current[..|current|] == current;
  }

  lemma ClassifySigned(an: Analyzer, v: string, c: Cond, k: Classes)
    requires Signed(k)
    ensures Classify(an, v, c, k).Some? ==> Signed(Classify(an, v, c, k).value)
  {
  }

  // ----- combining opposite polarities -----

  function Combination(p: Polar, n: Polar, g: int): Expr
    requires g != 0
  {
    Sub(Mul(Const(TruncDiv(p.coef, g)), n.rest), Mul(Const(TruncDiv(n.coef, g)), p.rest))
  }

  lemma CombinationArithmetic(a: int, b: int, g: int, x: int, ep: int, en: int)
    requires a > 0 && b > 0 && g > 0 && (a * g) * x + ep <= 0 && -((b * g) * x) + en <= 0
    ensures a * en + b * ep <= 0
  {
    assert b * ep <= b * -((a * g) * x);
    assert a * en <= a * ((b * g) * x);
    assert b * ((a * g) * x) == a * ((b * g) * x);
  }

  /** Eliminating the variable from two opposite inequalities gives a consequence of them. */
  lemma CombinationHolds(p: Polar, n: Polar, g: int, v: string, rho: Valuation)
    requires p.coef > 0 && n.coef < 0 && g > 0 && Divides(g, p.coef) && Divides(g, -n.coef)
    requires PolarHolds(p, rho(v), rho) && PolarHolds(n, rho(v), rho)
    ensures Eval(Combination(p, n, g), rho) <= 0
  {
    var a, b := Quotient(p.coef, g), Quotient(-n.coef, g);
    ExactDivision(p.coef, g);
    DividesIntro(g, n.coef, -b);
    ExactDivision(n.coef, g);
    var m := TruncDiv(n.coef, g);
    assert m * g == (-b) * g;
    Cancel(m, -b, g);
    assert (-(b * g)) * rho(v) == -((b * g) * rho(v));
    CombinationArithmetic(a, b, g, rho(v), Eval(p.rest, rho), Eval(n.rest, rho));
    assert Eval(Const(a), rho) == a && Eval(Const(m), rho) == m;
    assert m * Eval(p.rest, rho) == -(b * Eval(p.rest, rho));
  }

  lemma CombinationVars(p: Polar, n: Polar, g: int, gone: set<string>)
    requires g != 0 && Clear(Vars(p.rest), gone) && Clear(Vars(n.rest), gone)
    ensures Clear(CondVars(Cmp(LE, Combination(p, n, g), Zero)), gone)
  {
    var a, b := Const(TruncDiv(p.coef, g)), Const(TruncDiv(n.coef, g));
    assert Vars(a) == {} && Vars(b) == {} && Vars(Zero) == {};
    assert Vars(Mul(a, n.rest)) == Vars(n.rest) && Vars(Mul(b, p.rest)) == Vars(p.rest);
    assert CondVars(Cmp(LE, Combination(p, n, g), Zero)) == Vars(n.rest) + Vars(p.rest);
  }

  /** `next` is `k.next` with consequences of the two polarities added. */
  ghost predicate Extends(rs: Ranges, next: seq<Cond>, k: Classes, v: string) {
    forall rho: Valuation :: InRanges(rs, rho) && PolarsHold(k.pos, rho(v), rho) && PolarsHold(k.neg, rho(v), rho) ==>
      (AllHold(next, rho) <==> AllHold(k.next, rho))
  }

  method CombinePair(an: Analyzer, rs: Ranges, v: string, p: Polar, n: Polar, next0: seq<Cond>, ghost k: Classes,
      ghost gone: set<string>)
    returns (next: seq<Cond>)
    requires an.SoundProver() && an.SoundSimplify() && p in k.pos && n in k.neg && Signed(k)
    requires AllNormal(next0) && Extends(rs, next0, k, v)
    ensures AllNormal(next) && Extends(rs, next, k, v)
    ensures Avoids(k, gone) && AllClear(next0, gone) ==> AllClear(next, gone)
    ensures ZeroMeansAbsent(an) && AllReported(an, next0) ==> AllReported(an, next)
  {
    var g, x, y := ExtendedEuclidean(p.coef, -n.coef);
    assert g > 0;
    var raw := Cmp(LE, Combination(p, n, g), Zero);
    var simple := an.simplifyCond(rs, raw);
    var c := Normalize(an, simple);
    NormalizeIsNormal(an, simple);
    if ZeroMeansAbsent(an) { NormalizeReported(an, simple); }
    next := AddInequality(an, rs, next0, c);
    forall rho: Valuation | InRanges(rs, rho) && PolarsHold(k.pos, rho(v), rho) && PolarsHold(k.neg, rho(v), rho)
      ensures AllHold(next, rho) <==> AllHold(k.next, rho)
    {
      CombinationHolds(p, n, g, v, rho);
      NormalizeHolds(an, simple, rho);
      assert Eval(Zero, rho) == 0;
      assert Holds(raw, rho);
    }
    if Avoids(k, gone) {
      CombinationVars(p, n, g, gone);
      NormalizeHolds(an, simple, z => 0);
    }
  }

  method CombinePolarities(an: Analyzer, rs: Ranges, v: string, k: Classes,
      ghost gone: set<string>) returns (next: seq<Cond>)
    requires an.SoundProver() && an.SoundSimplify() && Signed(k)
    ensures AllNormal(next) && Extends(rs, next, k, v)
    ensures Avoids(k, gone) ==> AllClear(next, gone)
    ensures ZeroMeansAbsent(an) && AllReported(an, k.next) ==> AllReported(an, next)
  {
    next := k.next;
    for i := 0 to |k.pos|
      invariant AllNormal(next) && Extends(rs, next, k, v)
      invariant Avoids(k, gone) ==> AllClear(next, gone)
      invariant ZeroMeansAbsent(an) && AllReported(an, k.next) ==> AllReported(an, next)
    {
      for j := 0 to |k.neg|
        invariant AllNormal(next) && Extends(rs, next, k, v)
        invariant Avoids(k, gone) ==> AllClear(next, gone)
        invariant ZeroMeansAbsent(an) && AllReported(an, k.next) ==> AllReported(an, next)
      {
        next := CombinePair(an, rs, v, k.pos[i], k.neg[j], next, k, gone);
      }
    }
  }

  // ----- bounds of the eliminated variable -----

  /** coef * v is at least every `lower`, at most every `upper` and equal to every `equal`. */
  datatype IntGroupBounds = IntGroupBounds(coef: int, lower: seq<Expr>, equal: seq<Expr>, upper: seq<Expr>)

  datatype Side = Upper | Equal | Lower

  predicate Within(side: Side, y: int, bound: int) {
    match side
    case Upper => y <= bound
    case Equal => y == bound
    case Lower => y >= bound
  }

  predicate Bounded(side: Side, y: int, bs: seq<Expr>, rho: Valuation) {
    forall i :: 0 <= i < |bs| ==> Within(side, y, Eval(bs[i], rho))
  }

  predicate GroupHolds(b: IntGroupBounds, y: int, rho: Valuation) {
    Bounded(Lower, y, b.lower, rho) && Bounded(Equal, y, b.equal, rho) && Bounded(Upper, y, b.upper, rho)
  }

  lemma BoundedAdd(side: Side, y: int, bs: seq<Expr>, e: Expr, rho: Valuation)
    ensures Bounded(side, y, bs + [e], rho) <==> Bounded(side, y, bs, rho) && Within(side, y, Eval(e, rho))
  {
    assert (bs + [e])[|bs|] == e;
    forall i | 0 <= i < |bs| ensures (bs + [e])[i] == bs[i] {}
  }

  lemma BoundedErase(side: Side, y: int, bs: seq<Expr>, i: nat, rho: Valuation)
    requires i < |bs|
    ensures Bounded(side, y, bs, rho) <==>
      Bounded(side, y, bs[..i] + bs[i + 1..], rho) && Within(side, y, Eval(bs[i], rho))
  {
    var r := bs[..i] + bs[i + 1..];
    assert forall j :: 0 <= j < i ==> r[j] == bs[j];
    assert forall j :: i < j < |bs| ==> r[j - 1] == bs[j];
    forall j | 0 <= j < |r| ensures r[j] == bs[if j < i then j else j + 1] {}
  }

  /** The bounds `bs` say what `bs0` and `e` say together. */
  ghost predicate AddsBound(rs: Ranges, side: Side, bs: seq<Expr>, bs0: seq<Expr>, e: Expr) {
    forall rho: Valuation, y :: InRanges(rs, rho) ==>
      (Bounded(side, y, bs, rho) <==> Bounded(side, y, bs0, rho) && Within(side, y, Eval(e, rho)))
  }

  ghost predicate SameWithin(rs: Ranges, side: Side, bs: seq<Expr>, bs0: seq<Expr>, e: Expr) {
    forall rho: Valuation, y :: InRanges(rs, rho) && Within(side, y, Eval(e, rho)) ==>
      (Bounded(side, y, bs, rho) <==> Bounded(side, y, bs0, rho))
  }

  /** `o` is at least as strong as `e`: the comparison the solver asks to be proved. */
  function AtLeastAsStrong(side: Side, o: Expr, e: Expr): Cond {
    Cmp(if side == Upper then LE else GE, Sub(o, e), Zero)
  }

  function AtMostAsStrong(side: Side, o: Expr, e: Expr): Cond {
    Cmp(if side == Upper then GE else LE, Sub(o, e), Zero)
  }

  lemma StrengthMeans(side: Side, o: Expr, e: Expr, y: int, rho: Valuation)
    requires side != Equal
    ensures Holds(AtLeastAsStrong(side, o, e), rho) && Within(side, y, Eval(o, rho)) ==> Within(side, y, Eval(e, rho))
    ensures Holds(AtMostAsStrong(side, o, e), rho) && Within(side, y, Eval(e, rho)) ==> Within(side, y, Eval(o, rho))
  {
    assert Eval(Zero, rho) == 0;
    assert Eval(Sub(o, e), rho) == Eval(o, rho) - Eval(e, rho);
  }

  /** Skip a dominated bound, erase the bounds it dominates, and append it. */
  method AddBound(an: Analyzer, rs: Ranges, side: Side, bs0: seq<Expr>, e: Expr) returns (bs: seq<Expr>)
    requires an.SoundProver() && side != Equal
    ensures AddsBound(rs, side, bs, bs0, e) && forall b :: b in bs ==> b in bs0 || b == e
  {
    bs := bs0;
    for i := 0 to |bs| {
      if an.canProve(rs, AtLeastAsStrong(side, bs[i], e)) {
        forall rho: Valuation, y | InRanges(rs, rho) && Bounded(side, y, bs, rho)
          ensures Within(side, y, Eval(e, rho))
        {
          StrengthMeans(side, bs[i], e, y, rho);
        }
        return;
      }
    }
    var i := 0;
    while i < |bs|
      invariant i <= |bs| && SameWithin(rs, side, bs, bs0, e) && forall b :: b in bs ==> b in bs0
      decreases |bs| - i
    {
      if an.canProve(rs, AtMostAsStrong(side, bs[i], e)) {
        forall rho: Valuation, y | InRanges(rs, rho) && Within(side, y, Eval(e, rho))
          ensures Bounded(side, y, bs[..i] + bs[i + 1..], rho) <==> Bounded(side, y, bs0, rho)
        {
          StrengthMeans(side, bs[i], e, y, rho);
          BoundedErase(side, y, bs, i, rho);
        }
        bs := bs[..i] + bs[i + 1..];
      } else {
        i := i + 1;
      }
    }
    forall rho: Valuation, y | InRanges(rs, rho)
      ensures Bounded(side, y, bs + [e], rho) <==> Bounded(side, y, bs0, rho) && Within(side, y, Eval(e, rho))
    {
      BoundedAdd(side, y, bs, e, rho);
    }
    bs := bs + [e];
  }

  function SideOf(p: Polar): Side {
    if p.coef > 0 then Upper else Lower
  }

  /** -m / coef * rest, the bound of m * v. */
  function ScaledBound(m: int, p: Polar): Expr
    requires p.coef != 0
  {
    Mul(Const(TruncDiv(-m, p.coef)), p.rest)
  }

  lemma ScaledOrder(q: int, a: int, b: int)
    requires q > 0
    ensures a <= b <==> q * a <= q * b
  {
    assert q * b - q * a == q * (b - a);
    if a > b { assert q * (a - b) >= 1; }
  }

  /** c * v + e <= 0 bounds m * v by -m / c * e when c divides m. */
  lemma BoundMeans(m: int, p: Polar, x: int, rho: Valuation)
    requires m > 0 && p.coef != 0 && Divides(Abs(p.coef), m)
    ensures PolarHolds(p, x, rho) <==> Within(SideOf(p), m * x, Eval(ScaledBound(m, p), rho))
  {
    var d := Abs(p.coef);
    var q, e := Quotient(m, d), Eval(p.rest, rho);
    assert q > 0;
    var t := TruncDiv(-m, p.coef);
    DividesIntro(p.coef, -m, if p.coef > 0 then -q else q);
    ExactDivision(-m, p.coef);
    Cancel(t, if p.coef > 0 then -q else q, p.coef);
    assert Eval(Const(t), rho) == t;
    assert Eval(ScaledBound(m, p), rho) == t * e;
    assert m * x == q * (d * x);
    if p.coef > 0 {
      ScaledOrder(q, d * x, -e);
      assert q * -e == (-q) * e;
    } else {
      assert p.coef * x == -(d * x);
      ScaledOrder(q, e, d * x);
    }
  }

  /** Bounding m * y by `bs` says what the inequalities `ps` say of y. */
  ghost predicate BoundsOf(rs: Ranges, side: Side, bs: seq<Expr>, ps: seq<Polar>, m: int) {
    forall rho: Valuation, y :: InRanges(rs, rho) ==> (Bounded(side, m * y, bs, rho) <==> PolarsHold(ps, y, rho))
  }

  method CollectBounds(an: Analyzer, rs: Ranges, side: Side, ps: seq<Polar>, m: int,
      ghost gone: set<string>) returns (bs: seq<Expr>)
    requires an.SoundProver() && an.SoundSimplify() && m > 0
    requires forall p :: p in ps ==> p.coef != 0 && Divides(Abs(p.coef), m) && SideOf(p) == side
    requires side != Equal
    ensures BoundsOf(rs, side, bs, ps, m)
    ensures (forall p :: p in ps ==> Clear(Vars(p.rest), gone)) ==> forall b :: b in bs ==> Clear(Vars(b), gone)
  {
    bs := [];
    for i := 0 to |ps|
      invariant BoundsOf(rs, side, bs, ps[..i], m)
      invariant (forall p :: p in ps ==> Clear(Vars(p.rest), gone)) ==> forall b :: b in bs ==> Clear(Vars(b), gone)
    {
      var p := ps[i];
      var before := bs;
      var e := an.simplify(rs, ScaledBound(m, p));
      bs := AddBound(an, rs, side, bs, e);
      forall rho: Valuation, y | InRanges(rs, rho)
        ensures Bounded(side, m * y, bs, rho) <==> PolarsHold(ps[..i + 1], y, rho)
      {
        assert ps[..i + 1] == ps[..i] + [p];
        PolarsAdd(ps[..i], p, y, rho);
        BoundMeans(m, p, y, rho);
      }
      assert Vars(Const(TruncDiv(-m, p.coef))) == {};
      assert Vars(ScaledBound(m, p)) == Vars(p.rest);
    }
    assert ps[..|ps|] == ps;
  }

  // ----- matching bounds become equalities -----

  /** Lower, equal and upper bounds together mean the same before and after. */
  ghost predicate SameBounds(l: seq<Expr>, e: seq<Expr>, u: seq<Expr>, l0: seq<Expr>, u0: seq<Expr>) {
    forall rho: Valuation, y ::
      (Bounded(Lower, y, l, rho) && Bounded(Equal, y, e, rho) && Bounded(Upper, y, u, rho)) <==>
      (Bounded(Lower, y, l0, rho) && Bounded(Upper, y, u0, rho))
  }

  predicate Comes(l: seq<Expr>, e: seq<Expr>, u: seq<Expr>, l0: seq<Expr>, u0: seq<Expr>) {
    && (forall b :: b in l ==> b in l0)
    && (forall b :: b in e ==> b in l0)
    && (forall b :: b in u ==> b in u0)
  }

  method FindBound(bs: seq<Expr>, e: Expr) returns (i: int)
    ensures i == -1 <==> e !in bs
    ensures i != -1 ==> 0 <= i < |bs| && bs[i] == e && e !in bs[..i]
  {
    i := 0;
    while i < |bs|
      invariant 0 <= i <= |bs| && e !in bs[..i]
    {
      if bs[i] == e { return; }
      i := i + 1;
    }
    i := -1;
  }

  lemma MovePair(l: seq<Expr>, e: seq<Expr>, u: seq<Expr>, l0: seq<Expr>, u0: seq<Expr>, i: nat, j: nat)
    requires SameBounds(l, e, u, l0, u0) && i < |u| && j < |l| && u[i] == l[j]
    ensures SameBounds(l[..j] + l[j + 1..], e + [l[j]], u[..i] + u[i + 1..], l0, u0)
  {
    forall rho: Valuation, y
      ensures (Bounded(Lower, y, l[..j] + l[j + 1..], rho) && Bounded(Equal, y, e + [l[j]], rho) &&
        Bounded(Upper, y, u[..i] + u[i + 1..], rho)) <==>
        (Bounded(Lower, y, l0, rho) && Bounded(Upper, y, u0, rho))
    {
      BoundedErase(Lower, y, l, j, rho);
      BoundedErase(Upper, y, u, i, rho);
      BoundedAdd(Equal, y, e, l[j], rho);
    }
  }

  method MoveEquality(u0: seq<Expr>, l0: seq<Expr>) returns (l: seq<Expr>, e: seq<Expr>, u: seq<Expr>)
    ensures SameBounds(l, e, u, l0, u0) && Comes(l, e, u, l0, u0)
    ensures forall b :: b in u ==> b !in l
  {
    l, e, u := l0, [], u0;
    var i := 0;
    while i < |u|
      invariant i <= |u| && SameBounds(l, e, u, l0, u0) && Comes(l, e, u, l0, u0)
      invariant forall b :: b in u[..i] ==> b !in l
      decreases |u| - i
    {
      var j := FindBound(l, u[i]);
      if j != -1 {
        MovePair(l, e, u, l0, u0, i, j);
        assert (u[..i] + u[i + 1..])[..i] == u[..i];
        l, e, u := l[..j] + l[j + 1..], e + [l[j]], u[..i] + u[i + 1..];
      } else {
        assert u[..i + 1] == u[..i] + [u[i]];
        i := i + 1;
      }
    }
    assert u[..i] == u;
  }

  // ----- ordering the equalities by complexity -----

  /** CalculateExprComplexity: the number of nodes. */
  function Complexity(e: Expr): nat {
    match e
    case Const(_) => 1
    case Var(_) => 1
    case Select(c, a, b) => 1 + CondComplexity(c) + Complexity(a) + Complexity(b)
    case Let(_, k, b) => 1 + Complexity(k) + Complexity(b)
    case Add(a, b) => 1 + Complexity(a) + Complexity(b)
    case Sub(a, b) => 1 + Complexity(a) + Complexity(b)
    case Mul(a, b) => 1 + Complexity(a) + Complexity(b)
    case Div(a, b) => 1 + Complexity(a) + Complexity(b)
    case Mod(a, b) => 1 + Complexity(a) + Complexity(b)
    case FloorDiv(a, b) => 1 + Complexity(a) + Complexity(b)
    case FloorMod(a, b) => 1 + Complexity(a) + Complexity(b)
    case Min(a, b) => 1 + Complexity(a) + Complexity(b)
    case Max(a, b) => 1 + Complexity(a) + Complexity(b)
  }

  function CondComplexity(c: Cond): nat {
    match c
    case Lit(_) => 1
    case Cmp(_, a, b) => 1 + Complexity(a) + Complexity(b)
    case And(p, q) => 1 + CondComplexity(p) + CondComplexity(q)
    case Or(p, q) => 1 + CondComplexity(p) + CondComplexity(q)
    case Not(p) => 1 + CondComplexity(p)
  }

  ghost predicate Ordered(es: seq<Expr>) {
    forall i, j :: 0 <= i < j < |es| ==> Complexity(es[i]) <= Complexity(es[j])
  }

  function Insert(e: Expr, es: seq<Expr>): (r: seq<Expr>)
    ensures multiset(r) == multiset(es) + multiset{e}
    ensures forall x :: x in r <==> x in es || x == e
  {
    if es == [] || Complexity(e) < Complexity(es[0]) then [e] + es
    else assert es == [es[0]] + es[1..]; [es[0]] + Insert(e, es[1..])
  }

  lemma {:induction false} InsertOrdered(e: Expr, es: seq<Expr>)
    requires Ordered(es)
    ensures Ordered(Insert(e, es))
  {
    if !(es == [] || Complexity(e) < Complexity(es[0])) {
      InsertOrdered(e, es[1..]);
      var r := Insert(e, es[1..]);
      forall i | 0 <= i < |r| ensures Complexity(es[0]) <= Complexity(r[i]) {
        assert r[i] in es[1..] || r[i] == e;
      }
    }
  }

  method SortByComplexity(es: seq<Expr>) returns (r: seq<Expr>)
    ensures multiset(r) == multiset(es) && Ordered(r)
  {
    r := [];
    for i := 0 to |es|
      invariant multiset(r) == multiset(es[..i]) && Ordered(r)
    {
      InsertOrdered(es[i], r);
      r := Insert(es[i], r);
      assert es[..i + 1] == es[..i] + [es[i]];
    }
    assert es[..|es|] == es;
  }

  lemma BoundedPermutes(side: Side, y: int, r: seq<Expr>, es: seq<Expr>, rho: Valuation)
    requires multiset(r) == multiset(es)
    ensures Bounded(side, y, r, rho) == Bounded(side, y, es, rho)
  {
    if Bounded(side, y, r, rho) {
      forall i | 0 <= i < |es| ensures Within(side, y, Eval(es[i], rho)) {
        assert es[i] in multiset(r);
        var j :| 0 <= j < |r| && r[j] == es[i];
      }
    } else if Bounded(side, y, es, rho) {
      forall i | 0 <= i < |r| ensures Within(side, y, Eval(r[i], rho)) {
        assert r[i] in multiset(es);
        var j :| 0 <= j < |es| && es[j] == r[i];
      }
    }
  }

  // ----- the solver -----

  /** IntGroupBounds written as conditions. */
  function BoundConditions(v: string, coef: int, op: CompareOp, bs: seq<Expr>): (r: seq<Cond>)
    ensures |r| == |bs| && forall i :: 0 <= i < |bs| ==> r[i] == Cmp(op, Mul(Const(coef), Var(v)), bs[i])
  {
    seq(|bs|, i requires 0 <= i < |bs| => Cmp(op, Mul(Const(coef), Var(v)), bs[i]))
  }

  function GroupConditions(v: string, b: IntGroupBounds): seq<Cond> {
    BoundConditions(v, b.coef, EQ, b.equal) + BoundConditions(v, b.coef, GE, b.lower) +
      BoundConditions(v, b.coef, LE, b.upper)
  }

  function AsConditions(vs: seq<string>, bounds: map<string, IntGroupBounds>, relations: seq<Cond>): seq<Cond>
    requires forall v :: v in vs ==> v in bounds
  {
    if vs == [] then relations else GroupConditions(vs[0], bounds[vs[0]]) + AsConditions(vs[1..], bounds, relations)
  }

  ghost predicate GroupsHold(vs: seq<string>, bounds: map<string, IntGroupBounds>, rho: Valuation)
    requires forall v :: v in vs ==> v in bounds
  {
    forall v :: v in vs ==> GroupHolds(bounds[v], bounds[v].coef * rho(v), rho)
  }

  lemma BoundConditionsHold(v: string, coef: int, op: CompareOp, side: Side, bs: seq<Expr>, rho: Valuation)
    requires (op == EQ && side == Equal) || (op == GE && side == Lower) || (op == LE && side == Upper)
    ensures AllHold(BoundConditions(v, coef, op, bs), rho) <==> Bounded(side, coef * rho(v), bs, rho)
  {
    assert Eval(Mul(Const(coef), Var(v)), rho) == coef * rho(v) by { assert Eval(Const(coef), rho) == coef; }
    var r := BoundConditions(v, coef, op, bs);
    assert forall i :: 0 <= i < |bs| ==> (Holds(r[i], rho) <==> Within(side, coef * rho(v), Eval(bs[i], rho)));
  }

  lemma GroupConditionsHold(v: string, b: IntGroupBounds, rho: Valuation)
    ensures AllHold(GroupConditions(v, b), rho) <==> GroupHolds(b, b.coef * rho(v), rho)
  {
    BoundConditionsHold(v, b.coef, EQ, Equal, b.equal, rho);
    BoundConditionsHold(v, b.coef, GE, Lower, b.lower, rho);
    BoundConditionsHold(v, b.coef, LE, Upper, b.upper, rho);
    var x, y, z := BoundConditions(v, b.coef, EQ, b.equal), BoundConditions(v, b.coef, GE, b.lower),
      BoundConditions(v, b.coef, LE, b.upper);
    AllHoldAppend(x, y, rho);
    AllHoldAppend(x + y, z, rho);
  }

  lemma {:induction false} AsConditionsHold(vs: seq<string>, bounds: map<string, IntGroupBounds>, relations: seq<Cond>,
      rho: Valuation)
    requires forall v :: v in vs ==> v in bounds
    ensures AllHold(AsConditions(vs, bounds, relations), rho) <==>
      GroupsHold(vs, bounds, rho) && AllHold(relations, rho)
  {
    if vs != [] {
      AsConditionsHold(vs[1..], bounds, relations, rho);
      GroupConditionsHold(vs[0], bounds[vs[0]], rho);
      AllHoldAppend(GroupConditions(vs[0], bounds[vs[0]]), AsConditions(vs[1..], bounds, relations), rho);
    }
  }

  /** The inequalities a range puts on its variable. */
  function FromRange(an: Analyzer, rs: Ranges, v: string, rest: seq<Cond>): Classes {
    if v in rs then
      Classes([], rest,
        [Polar(1, Negated(an.simplify(rs, Sub(Add(rs[v].lo, rs[v].extent), Const(1)))))],
        [Polar(-1, an.simplify(rs, rs[v].lo))])
    else Classes([], rest, [], [])
  }

  lemma FromRangeHolds(an: Analyzer, rs: Ranges, v: string, rest: seq<Cond>, rho: Valuation)
    requires an.SoundSimplify() && InRanges(rs, rho)
    ensures ClassesHold(FromRange(an, rs, v, rest), v, rho) <==> AllHold(rest, rho)
  {
    if v in rs {
      var r, u := rs[v], Sub(Add(rs[v].lo, rs[v].extent), Const(1));
      assert InRange(r, rho(v), rho);
      assert Eval(Const(1), rho) == 1 && Eval(Zero, rho) == 0;
      assert Eval(Add(r.lo, r.extent), rho) == Eval(r.lo, rho) + Eval(r.extent, rho);
      assert Eval(u, rho) == Eval(r.lo, rho) + Eval(r.extent, rho) - 1;
      assert Eval(an.simplify(rs, u), rho) == Eval(u, rho);
      assert Eval(Negated(an.simplify(rs, u)), rho) == -Eval(u, rho);
    }
  }

  lemma FromRangeAvoids(an: Analyzer, rs: Ranges, v: string, rest: seq<Cond>, gone: set<string>)
    requires an.SoundSimplify() && (v in rs ==> Clear(RangeVars(rs[v]), gone))
    ensures Avoids(FromRange(an, rs, v, rest), gone)
  {
    if v in rs {
      var r, u := rs[v], Sub(Add(rs[v].lo, rs[v].extent), Const(1));
      assert Vars(Const(1)) == {} && Vars(Zero) == {};
      assert Vars(Add(r.lo, r.extent)) == RangeVars(r);
      assert Vars(u) == RangeVars(r);
      assert Vars(Negated(an.simplify(rs, u))) == Vars(an.simplify(rs, u));
      assert Clear(Vars(an.simplify(rs, u)), gone);
    }
  }

  method CommonMultiple(ps: seq<Polar>, m0: int) returns (m: int)
    requires m0 > 0 && forall p :: p in ps ==> p.coef != 0
    ensures m > 0 && Divides(m0, m) && forall p :: p in ps ==> Divides(Abs(p.coef), m)
  {
    m := m0;
    DividesIntro(m0, m0, 1);
    for i := 0 to |ps|
      invariant m > 0 && Divides(m0, m) && forall p :: p in ps[..i] ==> Divides(Abs(p.coef), m)
    {
      var before := m;
      m := LeastCommonMultiple(m, Abs(ps[i].coef));
      DividesTransitive(m0, before, m);
      forall p | p in ps[..i + 1] ensures Divides(Abs(p.coef), m) {
        if p in ps[..i] { DividesTransitive(Abs(p.coef), before, m); }
      }
    }
    assert ps[..|ps|] == ps;
  }

  ghost predicate GroupClear(b: IntGroupBounds, gone: set<string>) {
    && (forall e :: e in b.lower ==> Clear(Vars(e), gone))
    && (forall e :: e in b.equal ==> Clear(Vars(e), gone))
    && (forall e :: e in b.upper ==> Clear(Vars(e), gone))
  }

  /** The group bounds of one variable from its classified inequalities. */
  method GroupOf(an: Analyzer, rs: Ranges, k: Classes, ghost gone: set<string>) returns (b: IntGroupBounds)
    requires an.SoundProver() && an.SoundSimplify() && Signed(k)
    ensures b.coef > 0 && Ordered(b.equal)
    ensures forall rho: Valuation, y :: InRanges(rs, rho) ==>
      (GroupHolds(b, b.coef * y, rho) <==> PolarsHold(k.pos, y, rho) && PolarsHold(k.neg, y, rho))
    ensures Avoids(k, gone) ==> GroupClear(b, gone)
  {
    var m1 := CommonMultiple(k.pos, 1);
    var m := CommonMultiple(k.neg, m1);
    forall p | p in k.pos ensures Divides(Abs(p.coef), m) { DividesTransitive(Abs(p.coef), m1, m); }
    var u0 := CollectBounds(an, rs, Upper, k.pos, m, gone);
    var l0 := CollectBounds(an, rs, Lower, k.neg, m, gone);
    var l, e, u := MoveEquality(u0, l0);
    var sorted := SortByComplexity(e);
    b := IntGroupBounds(m, l, sorted, u);
    forall x | x in sorted ensures x in e { assert x in multiset(e); }
    forall rho: Valuation, y | InRanges(rs, rho)
      ensures GroupHolds(b, m * y, rho) <==> PolarsHold(k.pos, y, rho) && PolarsHold(k.neg, y, rho)
    {
      BoundedPermutes(Equal, m * y, sorted, e, rho);
    }
  }

  /** The state between two eliminations. */
  datatype Progress = Progress(current: seq<Cond>, rest: seq<Cond>, bounds: map<string, IntGroupBounds>)

  /** Within the ranges, the state says what the relations say. */
  ghost predicate Faithful(sys: IntConstraints, s: Progress, done: seq<string>)
    requires forall v :: v in done ==> v in s.bounds
  {
    forall rho: Valuation :: InRanges(sys.ranges, rho) ==>
      (AllHold(sys.relations, rho) <==>
        AllHold(s.current, rho) && AllHold(s.rest, rho) && GroupsHold(done, s.bounds, rho))
  }

  /** Each group mentions only variables that come later in the list (or are not in it). */
  ghost predicate Triangular(vs: seq<string>, bounds: map<string, IntGroupBounds>)
    requires forall v :: v in vs ==> v in bounds
  {
    forall i :: 0 <= i < |vs| ==> ClearAt(vs, bounds[vs[i]], i)
  }

  ghost predicate ClearAt(vs: seq<string>, b: IntGroupBounds, i: nat)
    requires i < |vs|
  {
    GroupClear(b, Names(vs[..i + 1]))
  }

  lemma TriangularStep(vs: seq<string>, v: string, s: map<string, IntGroupBounds>, b: IntGroupBounds)
    requires (forall w :: w in vs ==> w in s) && v !in s
    requires Triangular(vs, s) && GroupClear(b, Names(vs) + {v})
    ensures Triangular(vs + [v], s[v := b])
  {
    var ws := vs + [v];
    forall i | 0 <= i < |ws| ensures ClearAt(ws, s[v := b][ws[i]], i) {
      if i < |vs| {
        assert ws[..i + 1] == vs[..i + 1];
        assert ClearAt(vs, s[vs[i]], i);
      } else {
        assert ws[..i + 1] == ws;
        assert Names(ws) == Names(vs) + {v};
      }
    }
  }

  /** The bounds of a variable with a range keep it within the range, whatever its value. */
  ghost predicate KeepsRange(rs: Ranges, v: string, b: IntGroupBounds) {
    v in rs ==> forall rho: Valuation, y :: InRanges(rs, rho) && GroupHolds(b, b.coef * y, rho) ==>
      InRange(rs[v], y, rho)
  }

  function Names(vs: seq<string>): set<string> {
    set v | v in vs
  }

  /** No range mentions a variable to solve for. */
  ghost predicate RangesApart(sys: IntConstraints) {
    forall v :: v in sys.ranges ==> Clear(RangeVars(sys.ranges[v]), Names(sys.variables))
  }

  /** Ranges apart from the solved variables, and a detector exact about absence on simplified input. */
  ghost predicate Separated(an: Analyzer, sys: IntConstraints) {
    ZeroMeansAbsent(an) && RangesApart(sys)
  }

  lemma ClearLess(sys: IntConstraints, v: string, gone: set<string>)
    requires RangesApart(sys) && v in sys.variables && gone <= Names(sys.variables)
    ensures v in sys.ranges ==> Clear(RangeVars(sys.ranges[v]), gone + {v})
  {
  }

  ghost predicate GoodGroup(rs: Ranges, v: string, b: IntGroupBounds) {
    b.coef > 0 && Ordered(b.equal) && KeepsRange(rs, v, b)
  }

  lemma RangeInPolars(an: Analyzer, rs: Ranges, v: string, k0: Classes, k: Classes, y: int, rho: Valuation)
    requires an.SoundSimplify() && v in rs && InRanges(rs, rho) && k0 == FromRange(an, rs, v, k0.rest)
    requires k0.pos <= k.pos && k0.neg <= k.neg && PolarsHold(k.pos, y, rho) && PolarsHold(k.neg, y, rho)
    ensures InRange(rs[v], y, rho)
  {
    var r, u := rs[v], Sub(Add(rs[v].lo, rs[v].extent), Const(1));
    assert PolarHolds(k.pos[0], y, rho) && PolarHolds(k.neg[0], y, rho);
    assert k.pos[0] == k0.pos[0] && k.neg[0] == k0.neg[0];
    assert Eval(Const(1), rho) == 1 && Eval(Zero, rho) == 0;
    assert Eval(Add(r.lo, r.extent), rho) == Eval(r.lo, rho) + Eval(r.extent, rho);
    assert Eval(u, rho) == Eval(r.lo, rho) + Eval(r.extent, rho) - 1;
    assert Eval(an.simplify(rs, u), rho) == Eval(u, rho);
    assert Eval(Negated(an.simplify(rs, u)), rho) == -Eval(u, rho);
  }

  /** `t` is `s` with v solved for: same meaning within the ranges, and v gone from what remains. */
  ghost predicate Eliminates(an: Analyzer, rs: Ranges, s: Progress, t: Progress, v: string, gone: set<string>) {
    && AllNormal(t.current) && v !in s.bounds && v in t.bounds && t.bounds == s.bounds[v := t.bounds[v]]
    && GoodGroup(rs, v, t.bounds[v])
    && SameMeaning(rs, s, t, v)
    && (AllReported(an, s.current) && (v in rs ==> Clear(RangeVars(rs[v]), gone + {v})) && AllClear(s.current, gone) ==>
        AllClear(t.current, gone + {v}) && GroupClear(t.bounds[v], gone + {v}))
    && (ZeroMeansAbsent(an) && AllReported(an, s.current) ==> AllReported(an, t.current))
  }

  ghost predicate SameMeaning(rs: Ranges, s: Progress, t: Progress, v: string)
    requires v in t.bounds
  {
    forall rho: Valuation :: InRanges(rs, rho) ==>
      (AllHold(s.current, rho) && AllHold(s.rest, rho) <==>
       AllHold(t.current, rho) && AllHold(t.rest, rho) && GroupHolds(t.bounds[v], t.bounds[v].coef * rho(v), rho))
  }

  /** Eliminate one variable. */
  method Eliminate(an: Analyzer, rs: Ranges, v: string, s: Progress, ghost gone: set<string>) returns (t: Progress)
    requires an.SoundProver() && an.SoundSimplify() && an.SoundDetector()
    requires AllNormal(s.current) && v !in s.bounds
    ensures Eliminates(an, rs, s, t, v, gone)
  {
    var k0 := FromRange(an, rs, v, s.rest);
    var k := ClassifyByPolarity(an, rs, v, s.current, k0, gone);
    var next := CombinePolarities(an, rs, v, k, gone + {v});
    var b := GroupOf(an, rs, k, gone + {v});
    t := Progress(next, k.rest, s.bounds[v := b]);
    if v in rs {
      forall rho: Valuation, y | InRanges(rs, rho) && GroupHolds(b, b.coef * y, rho) ensures InRange(rs[v], y, rho) {
        RangeInPolars(an, rs, v, k0, k, y, rho);
      }
    }
    forall rho: Valuation | InRanges(rs, rho)
      ensures AllHold(s.current, rho) && AllHold(s.rest, rho) <==>
        AllHold(t.current, rho) && AllHold(t.rest, rho) && GroupHolds(b, b.coef * rho(v), rho)
    {
      FromRangeHolds(an, rs, v, s.rest, rho);
      assert ClassesHold(k, v, rho) <==> ClassesHold(k0, v, rho) && AllHold(s.current, rho);
    }
    if (v in rs ==> Clear(RangeVars(rs[v]), gone + {v})) && AllClear(s.current, gone) {
      FromRangeAvoids(an, rs, v, s.rest, gone + {v});
    }
  }

  lemma FaithfulStep(sys: IntConstraints, s: Progress, t: Progress, done: seq<string>, v: string)
    requires forall w :: w in done ==> w in s.bounds
    requires Faithful(sys, s, done) && v !in s.bounds && v in t.bounds && t.bounds == s.bounds[v := t.bounds[v]]
    requires SameMeaning(sys.ranges, s, t, v)
    ensures Faithful(sys, t, done + [v])
  {
    forall rho: Valuation | InRanges(sys.ranges, rho)
      ensures GroupsHold(done + [v], t.bounds, rho) <==>
        GroupsHold(done, s.bounds, rho) && GroupHolds(t.bounds[v], t.bounds[v].coef * rho(v), rho)
    {
      if GroupsHold(done + [v], t.bounds, rho) {
        forall w | w in done ensures GroupHolds(s.bounds[w], s.bounds[w].coef * rho(w), rho) { assert w in done + [v]; }
        assert v in done + [v];
      }
    }
  }

  /** Normalise every relation and collect the set to solve. */
  method Collect(an: Analyzer, sys: IntConstraints) returns (current: seq<Cond>)
    requires an.SoundProver() && an.SoundSimplify()
    ensures AllNormal(current) && AllClear(current, {}) && (ZeroMeansAbsent(an) ==> AllReported(an, current))
    ensures sys.relations == [] ==> current == []
    ensures forall rho: Valuation :: InRanges(sys.ranges, rho) ==>
      (AllHold(current, rho) <==> AllHold(sys.relations, rho))
  {
    current := [];
    for i := 0 to |sys.relations|
      invariant AllNormal(current) && (i == 0 ==> current == []) && (ZeroMeansAbsent(an) ==> AllReported(an, current))
      invariant forall rho: Valuation :: InRanges(sys.ranges, rho) ==>
        (AllHold(current, rho) <==> AllHold(sys.relations[..i], rho))
    {
      var before := current;
      var simple := an.simplifyCond(sys.ranges, sys.relations[i]);
      NormalizeIsNormal(an, simple);
      if ZeroMeansAbsent(an) { NormalizeReported(an, simple); }
      current := AddInequality(an, sys.ranges, current, Normalize(an, simple));
      forall rho: Valuation | InRanges(sys.ranges, rho) ensures AllHold(current, rho) <==>
        AllHold(sys.relations[..i + 1], rho) {
        NormalizeHolds(an, simple, rho);
        AllHoldSnoc(sys.relations, i, rho);
      }
    }
    assert sys.relations[..|sys.relations|] == sys.relations;
  }

  /** What is left: simplified, without the true ones, and replaced by `false` on a contradiction. */
  method LeftOver(an: Analyzer, rs: Ranges, current: seq<Cond>) returns (other: seq<Cond>)
    requires an.SoundSimplify()
    ensures forall rho: Valuation :: InRanges(rs, rho) ==> (AllHold(other, rho) <==> AllHold(current, rho))
    ensures current == [] ==> other == []
    ensures other == [Lit(false)] || (Lit(false) !in other && Lit(true) !in other)
  {
    other := [];
    for i := 0 to |current|
      invariant forall rho: Valuation :: InRanges(rs, rho) ==> (AllHold(other, rho) <==> AllHold(current[..i], rho))
      invariant Lit(false) !in other && Lit(true) !in other && (i == 0 ==> other == [])
    {
      var before := other;
      var e := an.simplifyCond(rs, current[i]);
      if e == Lit(false) {
        other := [Lit(false)];
        forall rho: Valuation | InRanges(rs, rho) ensures !AllHold(other, rho) && !AllHold(current, rho) {
          assert Holds(e, rho) == Holds(current[i], rho);
          assert other[0] == Lit(false);
        }
        return;
      } else if e != Lit(true) {
        other := other + [e];
      }
      forall rho: Valuation | InRanges(rs, rho) ensures AllHold(other, rho) <==> AllHold(current[..i + 1], rho) {
        assert Holds(e, rho) == Holds(current[i], rho);
        AllHoldSnoc(current, i, rho);
        AllHoldAdd(before, e, rho);
      }
    }
    assert current[..|current|] == current;
  }

  /** The bounds and the leftover conditions say exactly what the relations say, within the ranges. */
  ghost predicate Solved(sys: IntConstraints, bounds: map<string, IntGroupBounds>, other: seq<Cond>)
    requires forall v :: v in sys.variables ==> v in bounds
  {
    forall rho: Valuation :: InRanges(sys.ranges, rho) ==>
      (AllHold(sys.relations, rho) <==> AllHold(AsConditions(sys.variables, bounds, other), rho))
  }

  /** The state after the first i variables. */
  ghost predicate EliminatedUpTo(an: Analyzer, sys: IntConstraints, s: Progress, done: seq<string>) {
    && AllNormal(s.current) && s.bounds.Keys == Names(done)
    && (forall v :: v in s.bounds ==> GoodGroup(sys.ranges, v, s.bounds[v]))
    && Faithful(sys, s, done)
    && (Separated(an, sys) ==>
          AllClear(s.current, Names(done)) && AllReported(an, s.current) && Triangular(done, s.bounds))
  }

  lemma EliminatedNext(an: Analyzer, sys: IntConstraints, s: Progress, t: Progress, done: seq<string>, v: string)
    requires EliminatedUpTo(an, sys, s, done) && v !in done
    requires Eliminates(an, sys.ranges, s, t, v, Names(done))
    requires Separated(an, sys) ==> (v in sys.ranges ==> Clear(RangeVars(sys.ranges[v]), Names(done) + {v}))
    ensures EliminatedUpTo(an, sys, t, done + [v])
  {
    assert Names(done + [v]) == Names(done) + {v};
    FaithfulStep(sys, s, t, done, v);
    if Separated(an, sys) { TriangularStep(done, v, s.bounds, t.bounds[v]); }
  }

  method EliminateAll(an: Analyzer, sys: IntConstraints, current: seq<Cond>) returns (s: Progress)
    requires an.SoundProver() && an.SoundSimplify() && an.SoundDetector() && Distinct(sys.variables)
    requires AllNormal(current) && AllClear(current, {}) && Faithful(sys, Progress(current, [], map[]), [])
    requires ZeroMeansAbsent(an) ==> AllReported(an, current)
    ensures EliminatedUpTo(an, sys, s, sys.variables)
    ensures sys.variables == [] ==> s == Progress(current, [], map[])
  {
    var vs := sys.variables;
    s := Progress(current, [], map[]);
    for i := 0 to |vs|
      invariant EliminatedUpTo(an, sys, s, vs[..i])
      invariant i == 0 ==> s == Progress(current, [], map[])
    {
      assert vs[..i + 1] == vs[..i] + [vs[i]];
      assert vs[i] !in vs[..i];
      ghost var before := s;
      if Separated(an, sys) { ClearLess(sys, vs[i], Names(vs[..i])); }
      s := Eliminate(an, sys.ranges, vs[i], s, Names(vs[..i]));
      EliminatedNext(an, sys, before, s, vs[..i], vs[i]);
    }
    assert vs[..|vs|] == vs;
  }

  method SolveLinearInequalities(an: Analyzer, sys: IntConstraints) returns (bounds: map<string, IntGroupBounds>,
      other: seq<Cond>)
    requires an.SoundProver() && an.SoundSimplify() && an.SoundDetector() && Distinct(sys.variables)
    ensures bounds.Keys == Names(sys.variables)
    ensures forall v :: v in bounds ==> GoodGroup(sys.ranges, v, bounds[v])
    ensures Solved(sys, bounds, other)
    ensures sys.variables == [] && sys.relations == [] ==> other == []
    ensures Separated(an, sys) ==> Triangular(sys.variables, bounds)
  {
    var current := Collect(an, sys);
    var s := EliminateAll(an, sys, current);
    bounds := s.bounds;
    var left := LeftOver(an, sys.ranges, s.current);
    other := left + s.rest;
    forall rho: Valuation | InRanges(sys.ranges, rho)
      ensures AllHold(sys.relations, rho) <==> AllHold(AsConditions(sys.variables, bounds, other), rho)
    {
      AsConditionsHold(sys.variables, bounds, other, rho);
      AllHoldAppend(left, s.rest, rho);
    }
  }
}
