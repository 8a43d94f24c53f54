/**
 FindBestRange of src/arith/int_constraints.cc and SolveInequalitiesToRange of
 src/arith/solve_linear_inequality.cc.
 */
module RangeSolver {
  import opened Options
  import opened IntOperator
  import opened Exprs
  import opened Constraints
  import opened FourierMotzkin

  /** Range(begin, end). */
  function RangeOf(begin: Expr, end: Expr): Range {
    Range(begin, if begin == Const(0) then end else Sub(end, begin))
  }

  lemma RangeOfMeans(begin: Expr, end: Expr, y: int, rho: Valuation)
    ensures InRange(RangeOf(begin, end), y, rho) <==> Eval(begin, rho) <= y < Eval(end, rho)
  {
    assert Eval(Sub(end, begin), rho) == Eval(end, rho) - Eval(begin, rho);
    assert begin == Const(0) ==> Eval(begin, rho) == 0;
  }

  // ----- adding a range to group bounds -----

  function PlusRange(an: Analyzer, b: IntGroupBounds, r: Range): IntGroupBounds {
    if r.extent == Const(1) then
      b.(equal := [an.simplify(map[], Mul(r.lo, Const(b.coef)))] + b.equal)
    else
      var top := Sub(Add(r.lo, r.extent), Const(1));
      b.(lower := [an.simplify(map[], Mul(r.lo, Const(b.coef)))] + b.lower,
         upper := [an.simplify(map[], Mul(top, Const(b.coef)))] + b.upper)
  }

  lemma BoundedCons(side: Side, y: int, e: Expr, bs: seq<Expr>, rho: Valuation)
    ensures Bounded(side, y, [e] + bs, rho) <==> Within(side, y, Eval(e, rho)) && Bounded(side, y, bs, rho)
  {
    assert ([e] + bs)[0] == e;
    assert forall i :: 0 <= i < |bs| ==> ([e] + bs)[i + 1] == bs[i];
    forall i | 0 <= i < |[e] + bs| ensures ([e] + bs)[i] == if i == 0 then e else bs[i - 1] {}
  }

  /** operator+: the bounds and the range together. */
  lemma PlusRangeMeans(an: Analyzer, b: IntGroupBounds, r: Range, y: int, rho: Valuation)
    requires an.SoundSimplify() && b.coef > 0
    ensures GroupHolds(PlusRange(an, b, r), b.coef * y, rho) <==> GroupHolds(b, b.coef * y, rho) && InRange(r, y, rho)
  {
    assert InRanges(map[], rho);
    var lo, top, c := r.lo, Sub(Add(r.lo, r.extent), Const(1)), Const(b.coef);
    var l, t := Eval(lo, rho), Eval(lo, rho) + Eval(r.extent, rho) - 1;
    assert Eval(c, rho) == b.coef && Eval(Const(1), rho) == 1;
    assert Eval(Add(r.lo, r.extent), rho) == l + Eval(r.extent, rho);
    assert Eval(top, rho) == t;
    var sl, st := an.simplify(map[], Mul(lo, c)), an.simplify(map[], Mul(top, c));
    assert Eval(sl, rho) == l * b.coef && Eval(st, rho) == t * b.coef;
    ScaledOrder(b.coef, l, y);
    ScaledOrder(b.coef, y, t);
    ScaledOrder(b.coef, y, l);
    BoundedCons(Equal, b.coef * y, sl, b.equal, rho);
    BoundedCons(Lower, b.coef * y, sl, b.lower, rho);
    BoundedCons(Upper, b.coef * y, st, b.upper, rho);
  }

  // ----- the best range -----

  function LowDivided(low: Expr, coef: int): Expr {
    FloorDiv(Sub(Add(low, Const(coef)), Const(1)), Const(coef))
  }

  /** x times c lies between l and u: what the two differences say. */
  lemma DividedBounds(l: int, u: int, c: int, x: int)
    requires c > 0 && l <= c * x <= u
    ensures (l + c - 1) / c <= x && x <= u / c && x - (l + c - 1) / c <= (u - l) / c
  {
    var d := (l + c - 1) / c;
    BelowQuotient(x, c, u);
    AboveQuotient(x, c, l);
    assert c * (x - d) == c * x - c * d;
    assert c * d == d * c;
    BelowQuotient(x - d, c, u - l);
  }

  lemma BelowQuotient(k: int, c: int, n: int)
    requires c > 0 && c * k <= n
    ensures k <= n / c
  {
    var q := n / c;
    assert n < c * (q + 1) by { assert n == q * c + n % c; }
    if k > q { MulAtLeastStep(c, q + 1, k); }
  }

  /** The rounded-up quotient is the least number whose multiple reaches n. */
  lemma AboveQuotient(k: int, c: int, n: int)
    requires c > 0 && n <= c * k
    ensures (n + c - 1) / c <= k && n <= c * ((n + c - 1) / c)
  {
    var d := (n + c - 1) / c;
    assert n + c - 1 == c * d + (n + c - 1) % c;
    if d > k { MulAtLeastStep(c, k + 1, d); }
  }

  lemma MulAtLeastStep(c: int, a: int, b: int)
    requires c > 0 && a <= b
    ensures c * a <= c * b
  {
  }

  lemma EvalFloorDiv(e: Expr, c: int, rho: Valuation)
    requires c > 0
    ensures Eval(FloorDiv(e, Const(c)), rho) == Eval(e, rho) / c
  {
    assert Eval(Const(c), rho) == c;
    FloorIsEuclidean(Eval(e, rho), c);
  }

  /** The over-approximated difference of one pair, if the interval evaluator bounds it. */
  function PairDifference(an: Analyzer, rs: Ranges, low: Expr, upp: Expr, coef: int): Option<Expr> {
    var diff1 := an.simplify(rs, FloorDiv(Sub(upp, low), Const(coef)));
    var over1 := match an.upperBound(rs, diff1) case Some(m) => Some(an.simplify(rs, m)) case None => None;
    var diff2 := an.simplify(rs, Sub(FloorDiv(upp, Const(coef)), an.simplify(rs, LowDivided(low, coef))));
    match an.upperBound(rs, diff2)
    case None => over1
    case Some(m) =>
      var over2 := an.simplify(rs, m);
      if over1.Some? then
        if an.canProve(rs, Cmp(LT, Sub(over2, over1.value), Zero)) then Some(over2) else over1
      else Some(over2)
  }

  /** Between the bounds, v is within the reported distance of its rounded lower bound. */
  ghost predicate Covers(rs: Ranges, b: IntGroupBounds, lower: Expr, difference: Expr) {
    forall rho: Valuation, y :: InRanges(rs, rho) && GroupHolds(b, b.coef * y, rho) ==>
      Eval(lower, rho) <= y <= Eval(lower, rho) + Eval(difference, rho)
  }

  lemma LowDividedValue(an: Analyzer, rs: Ranges, low: Expr, c: int, rho: Valuation)
    requires an.SoundSimplify() && c > 0 && InRanges(rs, rho)
    ensures Eval(an.simplify(rs, LowDivided(low, c)), rho) == (Eval(low, rho) + c - 1) / c
  {
    var e := Sub(Add(low, Const(c)), Const(1));
    assert Eval(Const(c), rho) == c && Eval(Const(1), rho) == 1;
    assert Eval(e, rho) == Eval(low, rho) + c - 1 by { assert Eval(Add(low, Const(c)), rho) == Eval(low, rho) + c; }
    EvalFloorDiv(e, c, rho);
  }

  lemma PairCovers(an: Analyzer, rs: Ranges, low: Expr, upp: Expr, c: int, y: int, rho: Valuation)
    requires an.SoundSimplify() && an.SoundIntervals() && c > 0 && InRanges(rs, rho)
    requires Eval(low, rho) <= c * y <= Eval(upp, rho) && PairDifference(an, rs, low, upp, c).Some?
    ensures var l := Eval(an.simplify(rs, LowDivided(low, c)), rho);
      l <= y <= l + Eval(PairDifference(an, rs, low, upp, c).value, rho)
  {
    LowDividedValue(an, rs, low, c, rho);
    DividedBounds(Eval(low, rho), Eval(upp, rho), c, y);
    var d1 := FloorDiv(Sub(upp, low), Const(c));
    EvalFloorDiv(Sub(upp, low), c, rho);
    EvalFloorDiv(upp, c, rho);
    var diff1 := an.simplify(rs, d1);
    assert Eval(diff1, rho) == (Eval(upp, rho) - Eval(low, rho)) / c;
    var ld := an.simplify(rs, LowDivided(low, c));
    var d2 := Sub(FloorDiv(upp, Const(c)), ld);
    var diff2 := an.simplify(rs, d2);
    assert Eval(diff2, rho) == Eval(upp, rho) / c - Eval(ld, rho);
    if an.upperBound(rs, diff1).Some? {
      assert Eval(an.simplify(rs, an.upperBound(rs, diff1).value), rho) >= Eval(diff1, rho);
    }
    if an.upperBound(rs, diff2).Some? {
      assert Eval(an.simplify(rs, an.upperBound(rs, diff2).value), rho) >= Eval(diff2, rho);
    }
  }

  lemma PairCoversAll(an: Analyzer, rs: Ranges, b: IntGroupBounds, low: Expr, upp: Expr)
    requires an.SoundSimplify() && an.SoundIntervals() && b.coef > 0
    requires low in b.equal + b.lower && upp in b.equal + b.upper && PairDifference(an, rs, low, upp, b.coef).Some?
    ensures Covers(rs, b, an.simplify(rs, LowDivided(low, b.coef)), PairDifference(an, rs, low, upp, b.coef).value)
  {
    forall rho: Valuation, y | InRanges(rs, rho) && GroupHolds(b, b.coef * y, rho)
      ensures var l := Eval(an.simplify(rs, LowDivided(low, b.coef)), rho);
        l <= y <= l + Eval(PairDifference(an, rs, low, upp, b.coef).value, rho)
    {
      BoundsHold(b, low, upp, b.coef * y, rho);
      PairCovers(an, rs, low, upp, b.coef, y, rho);
    }
  }

  lemma BoundsHold(b: IntGroupBounds, low: Expr, upp: Expr, y: int, rho: Valuation)
    requires low in b.equal + b.lower && upp in b.equal + b.upper && GroupHolds(b, y, rho)
    ensures Eval(low, rho) <= y <= Eval(upp, rho)
  {
    if low in b.equal {
      var i :| 0 <= i < |b.equal| && b.equal[i] == low;
      assert Within(Equal, y, Eval(b.equal[i], rho));
    } else {
      var i :| 0 <= i < |b.lower| && b.lower[i] == low;
      assert Within(Lower, y, Eval(b.lower[i], rho));
    }
    if upp in b.equal {
      var i :| 0 <= i < |b.equal| && b.equal[i] == upp;
      assert Within(Equal, y, Eval(b.equal[i], rho));
    } else {
      var i :| 0 <= i < |b.upper| && b.upper[i] == upp;
      assert Within(Upper, y, Eval(b.upper[i], rho));
    }
  }

  /** Every value between all the bounds lies in the range. */
  ghost predicate Contains(rs: Ranges, b: IntGroupBounds, r: Range) {
    forall rho: Valuation, y :: InRanges(rs, rho) && GroupHolds(b, b.coef * y, rho) ==> InRange(r, y, rho)
  }

  method FindBestRange(an: Analyzer, rs: Ranges, b: IntGroupBounds) returns (r: Option<Range>)
    requires an.SoundSimplify() && an.SoundIntervals() && b.coef > 0
    ensures r.Some? ==> Contains(rs, b, r.value)
    ensures r.None? ==> forall l, u :: l in b.equal + b.lower && u in b.equal + b.upper ==>
      PairDifference(an, rs, l, u, b.coef).None?
  {
    var lowers, uppers := b.equal + b.lower, b.equal + b.upper;
    if |lowers| == 1 && |uppers| == 1 && b.coef == 1 {
      r := Some(RangeOf(an.simplify(rs, lowers[0]), an.simplify(rs, Add(uppers[0], Const(1)))));
      forall rho: Valuation, y | InRanges(rs, rho) && GroupHolds(b, b.coef * y, rho) ensures InRange(r.value, y, rho) {
        assert lowers[0] in lowers && uppers[0] in uppers;
        BoundsHold(b, lowers[0], uppers[0], y, rho);
        RangeOfMeans(an.simplify(rs, lowers[0]), an.simplify(rs, Add(uppers[0], Const(1))), y, rho);
        assert Eval(Const(1), rho) == 1;
        assert Eval(Add(uppers[0], Const(1)), rho) == Eval(uppers[0], rho) + 1;
      }
      return;
    }
    var best: Option<(Expr, Expr)> := None;
    for i := 0 to |lowers|
      invariant best.Some? ==> Covers(rs, b, best.value.0, best.value.1)
      invariant best.None? ==> forall l, u :: l in lowers[..i] && u in uppers ==>
        PairDifference(an, rs, l, u, b.coef).None?
    {
      for j := 0 to |uppers|
        invariant best.Some? ==> Covers(rs, b, best.value.0, best.value.1)
        invariant best.None? ==> forall l, u :: l in lowers[..i] && u in uppers ==>
          PairDifference(an, rs, l, u, b.coef).None?
        invariant best.None? ==> forall u :: u in uppers[..j] ==> PairDifference(an, rs, lowers[i], u, b.coef).None?
      {
        var difference := PairDifference(an, rs, lowers[i], uppers[j], b.coef);
        if difference.Some? && (best.None? || an.canProve(rs, Cmp(LT, Sub(difference.value, best.value.1), Zero))) {
          assert lowers[i] in lowers && uppers[j] in uppers;
          PairCoversAll(an, rs, b, lowers[i], uppers[j]);
          best := Some((an.simplify(rs, LowDivided(lowers[i], b.coef)), difference.value));
        }
      }
    }
    if best.None? { return None; }
    r := Some(Range(best.value.0, an.simplify(rs, Add(best.value.1, Const(1)))));
    forall rho: Valuation, y | InRanges(rs, rho) && GroupHolds(b, b.coef * y, rho) ensures InRange(r.value, y, rho) {
      assert Eval(Const(1), rho) == 1;
      assert Eval(Add(best.value.1, Const(1)), rho) == Eval(best.value.1, rho) + 1;
    }
  }

  /** The pair of bounds that a range itself contributes. */
  function OwnPair(an: Analyzer, r: Range, coef: int): (Expr, Expr) {
    var low := an.simplify(map[], Mul(r.lo, Const(coef)));
    if r.extent == Const(1) then (low, low)
    else (low, an.simplify(map[], Mul(Sub(Add(r.lo, r.extent), Const(1)), Const(coef))))
  }

  /** The analyzer bounds the width of the range, whatever else it knows. */
  ghost predicate BoundsWidth(an: Analyzer, r: Range) {
    forall rs: Ranges, coef :: coef > 0 ==>
      PairDifference(an, rs, OwnPair(an, r, coef).0, OwnPair(an, r, coef).1, coef).Some?
  }

  lemma OwnPairAdded(an: Analyzer, b: IntGroupBounds, r: Range)
    ensures var c := PlusRange(an, b, r);
      OwnPair(an, r, b.coef).0 in c.equal + c.lower && OwnPair(an, r, b.coef).1 in c.equal + c.upper
  {
    var c := PlusRange(an, b, r);
    if r.extent == Const(1) {
      assert c.equal[0] == OwnPair(an, r, b.coef).0;
    } else {
      assert c.lower[0] == OwnPair(an, r, b.coef).0 && c.upper[0] == OwnPair(an, r, b.coef).1;
    }
  }

  // ----- solving to ranges -----

  /** Every solution of the system lies within the ranges found so far. */
  ghost predicate Reaches(sys: IntConstraints, rs: Ranges) {
    forall rho: Valuation :: Satisfies(sys, rho) ==> InRanges(rs, rho)
  }

  ghost predicate Unsatisfiable(sys: IntConstraints) {
    forall rho: Valuation :: !Satisfies(sys, rho)
  }

  /** The range found for one variable; None when none is found. */
  method RangeFor(an: Analyzer, rs: Ranges, v: string, b: IntGroupBounds) returns (r: Option<Range>)
    requires an.SoundSimplify() && an.SoundIntervals() && b.coef > 0
    ensures r.Some? ==> forall rho: Valuation :: InRanges(rs, rho) && GroupHolds(b, b.coef * rho(v), rho) ==>
      InRange(r.value, rho(v), rho)
    ensures (b.coef == 1 && b.equal != []) || (v in rs && BoundsWidth(an, rs[v])) ==> r.Some?
  {
    if b.coef == 1 && b.equal != [] {
      var e := b.equal[0];
      r := Some(RangeOf(e, an.simplify(rs, Add(e, Const(1)))));
      forall rho: Valuation | InRanges(rs, rho) && GroupHolds(b, b.coef * rho(v), rho)
        ensures InRange(r.value, rho(v), rho)
      {
        RangeOfMeans(e, an.simplify(rs, Add(e, Const(1))), rho(v), rho);
        assert Eval(Const(1), rho) == 1;
        assert Eval(Add(e, Const(1)), rho) == Eval(e, rho) + 1;
        assert Within(Equal, b.coef * rho(v), Eval(b.equal[0], rho));
      }
    } else {
      var c := if v in rs then PlusRange(an, b, rs[v]) else b;
      r := FindBestRange(an, rs, c);
      if v in rs && BoundsWidth(an, rs[v]) {
        OwnPairAdded(an, b, rs[v]);
        assert PairDifference(an, rs, OwnPair(an, rs[v], b.coef).0, OwnPair(an, rs[v], b.coef).1, b.coef).Some?;
      }
      forall rho: Valuation | r.Some? && InRanges(rs, rho) && GroupHolds(b, b.coef * rho(v), rho)
        ensures InRange(r.value, rho(v), rho)
      {
        if v in rs {
          PlusRangeMeans(an, b, rs[v], rho(v), rho);
          assert InRange(rs[v], rho(v), rho);
        }
      }
    }
  }

  /** The input ranges, replaced by the ranges found. */
  function Override(rs: Ranges, found: Ranges): Ranges {
    rs + found
  }

  lemma ReachesStep(sys: IntConstraints, bounds: map<string, IntGroupBounds>, other: seq<Cond>, rs: Ranges, v: string,
      r: Range)
    requires (forall w :: w in sys.variables ==> w in bounds) && Solved(sys, bounds, other) && v in sys.variables
    requires Reaches(sys, rs)
    requires forall rho: Valuation :: InRanges(rs, rho) && GroupHolds(bounds[v], bounds[v].coef * rho(v), rho) ==>
      InRange(r, rho(v), rho)
    ensures Reaches(sys, rs[v := r])
    ensures forall rho: Valuation :: Satisfies(sys, rho) ==> InRange(r, rho(v), rho)
  {
    forall rho: Valuation | Satisfies(sys, rho) ensures InRanges(rs[v := r], rho) && InRange(r, rho(v), rho) {
      AsConditionsHold(sys.variables, bounds, other, rho);
      assert InRange(r, rho(v), rho);
    }
  }

  /** Keep the conditions that the ranges do not prove. */
  method DropProved(an: Analyzer, rs: Ranges, cs: seq<Cond>) returns (r: seq<Cond>)
    requires an.SoundProver()
    ensures forall rho: Valuation :: InRanges(rs, rho) ==> (AllHold(r, rho) <==> AllHold(cs, rho))
    ensures (forall c :: c in r ==> c in cs) && |r| <= |cs|
  {
    r := [];
    for i := 0 to |cs|
      invariant forall rho: Valuation :: InRanges(rs, rho) ==> (AllHold(r, rho) <==> AllHold(cs[..i], rho))
      invariant (forall c :: c in r ==> c in cs) && |r| <= i
    {
      var before := r;
      if !an.canProve(rs, cs[i]) { r := r + [cs[i]]; }
      forall rho: Valuation | InRanges(rs, rho) ensures AllHold(r, rho) <==> AllHold(cs[..i + 1], rho) {
        AllHoldSnoc(cs, i, rho);
        AllHoldAdd(before, cs[i], rho);
      }
    }
    assert cs[..|cs|] == cs;
  }

  /** Input solutions are the output solutions that respect the input ranges. */
  ghost predicate SameSolutions(sys: IntConstraints, res: IntConstraints) {
    forall rho: Valuation :: Satisfies(sys, rho) <==> Satisfies(res, rho) && InRanges(sys.ranges, rho)
  }

  /** The analyzer bounds the width of every input range of a solved variable. */
  ghost predicate BoundsWidths(an: Analyzer, sys: IntConstraints) {
    forall v :: v in sys.variables && v in sys.ranges ==> BoundsWidth(an, sys.ranges[v])
  }

  /** Every ranged variable from position k on has got a range. */
  ghost predicate AllFound(sys: IntConstraints, k: nat, found: Ranges) {
    forall i :: k <= i < |sys.variables| && sys.variables[i] in sys.ranges ==> sys.variables[i] in found
  }

  /** No variable before position k has. */
  ghost predicate NoneFound(vs: seq<string>, k: nat, found: Ranges) {
    forall i :: 0 <= i < k && i < |vs| ==> vs[i] !in found
  }

  /** The ranges found for the variables from position k on, and the ranges in force. */
  ghost predicate FoundFrom(an: Analyzer, sys: IntConstraints, k: nat, rs: Ranges, found: Ranges) {
    && rs == Override(sys.ranges, found) && found.Keys <= Names(sys.variables) && NoneFound(sys.variables, k, found)
    && (BoundsWidths(an, sys) ==> AllFound(sys, k, found))
  }

  lemma FoundStep(an: Analyzer, sys: IntConstraints, k: nat, rs: Ranges, found: Ranges, c: Option<Range>)
    requires k < |sys.variables| && Distinct(sys.variables) && FoundFrom(an, sys, k + 1, rs, found)
    requires var v := sys.variables[k]; v in rs && BoundsWidth(an, rs[v]) ==> c.Some?
    ensures c.None? ==> FoundFrom(an, sys, k, rs, found)
    ensures c.Some? ==> FoundFrom(an, sys, k, rs[sys.variables[k] := c.value], found[sys.variables[k] := c.value])
  {
    var v := sys.variables[k];
    assert v !in found;
    assert v in Names(sys.variables);
  }

  /** Ranges of the solved variables, the last variable first; None when one of them is proved empty. */
  method FindRanges(an: Analyzer, sys: IntConstraints, bounds: map<string, IntGroupBounds>,
      ghost other: seq<Cond>) returns (r: Option<Ranges>)
    requires an.SoundProver() && an.SoundSimplify() && an.SoundIntervals()
    requires (forall v :: v in sys.variables ==> v in bounds && bounds[v].coef > 0) && Solved(sys, bounds, other)
    requires Distinct(sys.variables)
    ensures r.None? ==> Unsatisfiable(sys)
    ensures r.Some? && BoundsWidths(an, sys) ==> AllFound(sys, 0, r.value)
    ensures r.Some? ==> Reaches(sys, Override(sys.ranges, r.value)) && r.value.Keys <= Names(sys.variables)
  {
    var vs := sys.variables;
    var found: Ranges := map[];
    var rs := sys.ranges;
    var i := |vs|;
    while i > 0
      invariant 0 <= i <= |vs| && Reaches(sys, rs) && FoundFrom(an, sys, i, rs, found)
    {
      i := i - 1;
      var v := vs[i];
      var c := RangeFor(an, rs, v, bounds[v]);
      FoundStep(an, sys, i, rs, found, c);
      if c.Some? {
        ReachesStep(sys, bounds, other, rs, v, c.value);
        if !(bounds[v].coef == 1 && bounds[v].equal != []) && an.canProve(rs, Cmp(GE, Negated(c.value.extent), Zero)) {
          EmptyRange(an, sys, rs, v, c.value);
          return None;
        }
        found := found[v := c.value];
        rs := rs[v := c.value];
      }
    }
    r := Some(found);
  }

  method SolveInequalitiesToRange(an: Analyzer, sys: IntConstraints) returns (res: IntConstraints)
    requires an.SoundProver() && an.SoundSimplify() && an.SoundDetector() && an.SoundIntervals()
    requires Distinct(sys.variables)
    ensures SameSolutions(sys, res) && res.ranges.Keys <= Names(sys.variables)
    ensures sys.variables == [] && sys.relations == [] ==> res == IntConstraints([], map[], []) || Unsatisfiable(sys)
    ensures Separated(an, sys) && BoundsWidths(an, sys) ==> Exact(sys, res)
  {
    var bounds, other := SolveLinearInequalities(an, sys);
    var found := FindRanges(an, sys, bounds, other);
    if found.None? {
      res := IntConstraints([], map[], [Lit(false)]);
      NothingSatisfied(sys, res);
      return;
    }
    var rs := Override(sys.ranges, found.value);
    var relations := DropProved(an, rs, AsConditions(sys.variables, bounds, other));
    res := IntConstraints(sys.variables, found.value, relations);
    OverrideSame(sys, bounds, other, rs, res);
    if Separated(an, sys) && BoundsWidths(an, sys) {
      OverrideExact(sys, bounds, other, rs, res);
    }
  }

  lemma EmptyRange(an: Analyzer, sys: IntConstraints, rs: Ranges, v: string, r: Range)
    requires an.SoundProver() && an.canProve(rs, Cmp(GE, Negated(r.extent), Zero)) && Reaches(sys, rs)
    requires forall rho: Valuation :: Satisfies(sys, rho) ==> InRange(r, rho(v), rho)
    ensures Unsatisfiable(sys)
  {
    forall rho: Valuation ensures !Satisfies(sys, rho) {
      assert Eval(Zero, rho) == 0 && Eval(Negated(r.extent), rho) == -Eval(r.extent, rho);
      assert Satisfies(sys, rho) ==> Holds(Cmp(GE, Negated(r.extent), Zero), rho);
    }
  }

  lemma NothingSatisfied(sys: IntConstraints, res: IntConstraints)
    requires Unsatisfiable(sys) && res.relations == [Lit(false)]
    ensures SameSolutions(sys, res) && Exact(sys, res)
  {
    forall rho: Valuation ensures !Satisfies(res, rho) { assert !Holds(res.relations[0], rho); }
  }

  lemma OverrideSame(sys: IntConstraints, bounds: map<string, IntGroupBounds>, other: seq<Cond>, rs: Ranges,
      res: IntConstraints)
    requires (forall w :: w in sys.variables ==> w in bounds) && Solved(sys, bounds, other)
    requires Reaches(sys, rs) && rs == Override(sys.ranges, res.ranges)
    requires forall rho: Valuation :: InRanges(rs, rho) ==>
      (AllHold(res.relations, rho) <==> AllHold(AsConditions(sys.variables, bounds, other), rho))
    ensures SameSolutions(sys, res)
  {
    forall rho: Valuation ensures Satisfies(sys, rho) <==> Satisfies(res, rho) && InRanges(sys.ranges, rho) {
      if Satisfies(sys, rho) {
        assert InRanges(rs, rho);
        forall v | v in res.ranges ensures InRange(res.ranges[v], rho(v), rho) { assert rs[v] == res.ranges[v]; }
      } else if Satisfies(res, rho) && InRanges(sys.ranges, rho) {
        assert InRanges(rs, rho);
      }
    }
  }

  // ----- when the output needs no help from the input ranges of the solved variables -----

  /** The ranges of the names that are not solved for. */
  ghost predicate ParametersInRange(sys: IntConstraints, rho: Valuation) {
    forall v :: v in sys.ranges && v !in sys.variables ==> InRange(sys.ranges[v], rho(v), rho)
  }

  ghost predicate NonEmptyRanges(sys: IntConstraints, rho: Valuation) {
    forall v :: v in sys.ranges && v in sys.variables ==> Eval(sys.ranges[v].extent, rho) > 0
  }

  /** Wherever the parameters are in range and no input range is empty, output and input have the same solutions. */
  ghost predicate Exact(sys: IntConstraints, res: IntConstraints) {
    forall rho: Valuation :: ParametersInRange(sys, rho) && NonEmptyRanges(sys, rho) ==>
      (Satisfies(sys, rho) <==> Satisfies(res, rho))
  }

  /** `rho` with the first `k` variables moved to the start of their range. */
  function Reset(sys: IntConstraints, rho: Valuation, k: nat): Valuation
    requires k <= |sys.variables|
  {
    x => if x in sys.variables[..k] && x in sys.ranges then Eval(sys.ranges[x].lo, rho) else rho(x)
  }

  lemma ResetRange(sys: IntConstraints, rho: Valuation, k: nat, v: string, y: int)
    requires RangesApart(sys) && k <= |sys.variables| && v in sys.ranges
    ensures InRange(sys.ranges[v], y, Reset(sys, rho, k)) == InRange(sys.ranges[v], y, rho)
    ensures Eval(sys.ranges[v].lo, Reset(sys, rho, k)) == Eval(sys.ranges[v].lo, rho)
  {
    var r := sys.ranges[v];
    forall x | x in RangeVars(r) ensures Reset(sys, rho, k)(x) == rho(x) { assert x !in Names(sys.variables); }
    EvalAgree(r.lo, Reset(sys, rho, k), rho);
    EvalAgree(r.extent, Reset(sys, rho, k), rho);
  }

  lemma ResetInRanges(sys: IntConstraints, rho: Valuation, k: nat)
    requires RangesApart(sys) && k <= |sys.variables| && ParametersInRange(sys, rho) && NonEmptyRanges(sys, rho)
    requires forall j :: k <= j < |sys.variables| && sys.variables[j] in sys.ranges ==>
      InRange(sys.ranges[sys.variables[j]], rho(sys.variables[j]), rho)
    ensures InRanges(sys.ranges, Reset(sys, rho, k))
  {
    forall v | v in sys.ranges ensures InRange(sys.ranges[v], Reset(sys, rho, k)(v), Reset(sys, rho, k)) {
      ResetRange(sys, rho, k, v, Reset(sys, rho, k)(v));
      if v in sys.variables && v !in sys.variables[..k] {
        var j :| 0 <= j < |sys.variables| && sys.variables[j] == v;
        assert j >= k;
      }
    }
  }

  lemma GroupAgree(b: IntGroupBounds, gone: set<string>, y: int, rho: Valuation, sigma: Valuation)
    requires GroupClear(b, gone) && forall x :: x !in gone ==> rho(x) == sigma(x)
    ensures GroupHolds(b, y, rho) == GroupHolds(b, y, sigma)
  {
    forall e | e in b.lower || e in b.equal || e in b.upper ensures Eval(e, rho) == Eval(e, sigma) {
      assert Clear(Vars(e), gone);
      EvalAgree(e, rho, sigma);
    }
  }

  lemma BackStep(sys: IntConstraints, b: IntGroupBounds, rho: Valuation, k: nat)
    requires RangesApart(sys) && k < |sys.variables| && ParametersInRange(sys, rho) && NonEmptyRanges(sys, rho)
    requires forall j :: k + 1 <= j < |sys.variables| && sys.variables[j] in sys.ranges ==>
      InRange(sys.ranges[sys.variables[j]], rho(sys.variables[j]), rho)
    requires sys.variables[k] in sys.ranges && KeepsRange(sys.ranges, sys.variables[k], b)
    requires ClearAt(sys.variables, b, k) && GroupHolds(b, b.coef * rho(sys.variables[k]), rho)
    ensures InRange(sys.ranges[sys.variables[k]], rho(sys.variables[k]), rho)
  {
    var v := sys.variables[k];
    var sigma := Reset(sys, rho, k + 1);
    ResetInRanges(sys, rho, k + 1);
    GroupAgree(b, Names(sys.variables[..k + 1]), b.coef * rho(v), rho, sigma);
    assert InRange(sys.ranges[v], rho(v), sigma);
    ResetRange(sys, rho, k + 1, v, rho(v));
  }

  /** Back substitution: from the last variable to the first, the bounds put each one in its range. */
  lemma {:induction false} BackInRange(sys: IntConstraints, bounds: map<string, IntGroupBounds>,
      rho: Valuation, k: nat)
    requires RangesApart(sys) && k <= |sys.variables| && ParametersInRange(sys, rho) && NonEmptyRanges(sys, rho)
    requires (forall v :: v in sys.variables ==> v in bounds && KeepsRange(sys.ranges, v, bounds[v]))
    requires Triangular(sys.variables, bounds)
    requires GroupsHold(sys.variables, bounds, rho)
    ensures forall j :: k <= j < |sys.variables| && sys.variables[j] in sys.ranges ==>
      InRange(sys.ranges[sys.variables[j]], rho(sys.variables[j]), rho)
    decreases |sys.variables| - k
  {
    if k < |sys.variables| {
      BackInRange(sys, bounds, rho, k + 1);
      var v := sys.variables[k];
      if v in sys.ranges {
        BackStep(sys, bounds[v], rho, k);
      }
    }
  }

  lemma OverrideExact(sys: IntConstraints, bounds: map<string, IntGroupBounds>, other: seq<Cond>,
      rs: Ranges, res: IntConstraints)
    requires RangesApart(sys) && rs == Override(sys.ranges, res.ranges) && SameSolutions(sys, res)
    requires (forall v :: v in sys.variables ==> v in bounds && KeepsRange(sys.ranges, v, bounds[v]))
    requires Triangular(sys.variables, bounds)
    requires forall rho: Valuation :: InRanges(rs, rho) ==>
      (AllHold(res.relations, rho) <==> AllHold(AsConditions(sys.variables, bounds, other), rho))
    requires forall v :: v in sys.variables && v in sys.ranges ==> v in res.ranges
    ensures Exact(sys, res)
  {
    forall rho: Valuation | ParametersInRange(sys, rho) && NonEmptyRanges(sys, rho) && Satisfies(res, rho)
      ensures Satisfies(sys, rho)
    {
      OverrideRanges(sys, rs, res, rho);
      AsConditionsHold(sys.variables, bounds, other, rho);
      BackInRange(sys, bounds, rho, 0);
      AllInRange(sys, rho);
    }
  }

  lemma OverrideRanges(sys: IntConstraints, rs: Ranges, res: IntConstraints, rho: Valuation)
    requires rs == Override(sys.ranges, res.ranges) && ParametersInRange(sys, rho) && Satisfies(res, rho)
    requires forall v :: v in sys.variables && v in sys.ranges ==> v in res.ranges
    ensures InRanges(rs, rho)
  {
  }

  lemma AllInRange(sys: IntConstraints, rho: Valuation)
    requires ParametersInRange(sys, rho)
    requires forall j :: 0 <= j < |sys.variables| && sys.variables[j] in sys.ranges ==>
      InRange(sys.ranges[sys.variables[j]], rho(sys.variables[j]), rho)
    ensures InRanges(sys.ranges, rho)
  {
    forall v | v in sys.ranges ensures InRange(sys.ranges[v], rho(v), rho) {
      if v in sys.variables {
        var j :| 0 <= j < |sys.variables| && sys.variables[j] == v;
      }
    }
  }

  /** 0 <= name < hi, with nothing to solve for. */
  function OneParameter(name: string, hi: int): IntConstraints {
    IntConstraints([], map[name := Range(Const(0), Const(hi))], [])
  }

  lemma OneParameterMeans(name: string, hi: int, rho: Valuation)
    ensures Satisfies(OneParameter(name, hi), rho) <==> 0 <= rho(name) < hi
  {
    assert Eval(Const(0), rho) == 0 && Eval(Const(hi), rho) == hi;
    assert InRange(OneParameter(name, hi).ranges[name], rho(name), rho) <==> 0 <= rho(name) < hi;
  }

  lemma OneParameterSatisfiable(name: string, hi: int, rho: Valuation)
    requires hi > 0 && rho(name) == 0
    ensures !Unsatisfiable(OneParameter(name, hi))
  {
    OneParameterMeans(name, hi, rho);
    assert Satisfies(OneParameter(name, hi), rho);
  }

  /** Every valuation satisfies the answer, and only those within the range satisfy the input. */
  ghost predicate RangeLost(name: string, hi: int, res: IntConstraints, rho: Valuation) {
    Satisfies(res, rho) && (Satisfies(OneParameter(name, hi), rho) <==> 0 <= rho(name) < hi)
  }

  lemma LostByNothing(name: string, hi: int, rho: Valuation)
    ensures RangeLost(name, hi, IntConstraints([], map[], []), rho)
  {
    OneParameterMeans(name, hi, rho);
  }

  /** The ranges of names that are not solved for do not reach the output. */
  method ParameterRangesDropped(an: Analyzer, name: string, hi: int) returns (res: IntConstraints)
    requires an.SoundProver() && an.SoundSimplify() && an.SoundDetector() && an.SoundIntervals() && hi > 0
    ensures forall rho: Valuation :: RangeLost(name, hi, res, rho)
  {
    var sys := OneParameter(name, hi);
    res := SolveInequalitiesToRange(an, sys);
    OneParameterSatisfiable(name, hi, s => 0);
    assert res == IntConstraints([], map[], []);
    forall rho: Valuation ensures RangeLost(name, hi, res, rho) { LostByNothing(name, hi, rho); }
  }
}
