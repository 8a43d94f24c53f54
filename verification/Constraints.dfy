/**
 IntConstraints of src/arith/int_constraints.cc, and the analyzer the solvers
 consult. The analyzer (simplifier, prover, linear-form detector, interval
 evaluator) is a parameter: the theorems hold for every sound one.
 */
module Constraints {
  import opened Options
  import opened Exprs

  /** `lo <= v < lo + extent`. */
  datatype Range = Range(lo: Expr, extent: Expr)

  type Ranges = map<string, Range>

  datatype IntConstraints = IntConstraints(variables: seq<string>, ranges: Ranges, relations: seq<Cond>)

  predicate InRange(r: Range, k: int, rho: Valuation) {
    Eval(r.lo, rho) <= k < Eval(r.lo, rho) + Eval(r.extent, rho)
  }

  ghost predicate InRanges(rs: Ranges, rho: Valuation) {
    forall v :: v in rs ==> InRange(rs[v], rho(v), rho)
  }

  predicate AllHold(cs: seq<Cond>, rho: Valuation) {
    forall i :: 0 <= i < |cs| ==> Holds(cs[i], rho)
  }

  ghost predicate Satisfies(sys: IntConstraints, rho: Valuation) {
    InRanges(sys.ranges, rho) && AllHold(sys.relations, rho)
  }

  lemma AllHoldSnoc(cs: seq<Cond>, k: nat, rho: Valuation)
    requires k < |cs|
    ensures AllHold(cs[..k + 1], rho) <==> AllHold(cs[..k], rho) && Holds(cs[k], rho)
  {
    assert cs[..k + 1] == cs[..k] + [cs[k]];
    AllHoldAppend(cs[..k], [cs[k]], rho);
    assert AllHold([cs[k]], rho) <==> Holds([cs[k]][0], rho);
  }

  lemma AllHoldAppend(cs: seq<Cond>, ds: seq<Cond>, rho: Valuation)
    ensures AllHold(cs + ds, rho) <==> AllHold(cs, rho) && AllHold(ds, rho)
  {
    if AllHold(cs + ds, rho) {
      forall i | 0 <= i < |cs| ensures Holds(cs[i], rho) { assert (cs + ds)[i] == cs[i]; }
      forall i | 0 <= i < |ds| ensures Holds(ds[i], rho) { assert (cs + ds)[|cs| + i] == ds[i]; }
    }
  }

  lemma AllHoldAdd(cs: seq<Cond>, c: Cond, rho: Valuation)
    ensures AllHold(cs + [c], rho) <==> AllHold(cs, rho) && Holds(c, rho)
  {
    AllHoldAppend(cs, [c], rho);
    assert AllHold([c], rho) <==> Holds([c][0], rho);
  }

  lemma AllHoldErase(cs: seq<Cond>, i: nat, rho: Valuation)
    requires i < |cs|
    ensures AllHold(cs, rho) <==> AllHold(cs[..i] + cs[i + 1..], rho) && Holds(cs[i], rho)
  {
    assert cs == cs[..i] + ([cs[i]] + cs[i + 1..]);
    AllHoldAppend(cs[..i], [cs[i]] + cs[i + 1..], rho);
    AllHoldAppend([cs[i]], cs[i + 1..], rho);
    AllHoldAppend(cs[..i], cs[i + 1..], rho);
    AllHoldAdd([], cs[i], rho);
    assert [] + [cs[i]] == [cs[i]];
  }

  function RangeVars(r: Range): set<string> {
    Vars(r.lo) + Vars(r.extent)
  }

  ghost predicate Distinct(s: seq<string>) {
    forall i, j :: 0 <= i < j < |s| ==> s[i] != s[j]
  }

  // ----- the analyzer -----

  datatype Analyzer = Analyzer(
    simplify: (Ranges, Expr) -> Expr,
    simplifyCond: (Ranges, Cond) -> Cond,
    canProve: (Ranges, Cond) -> bool,
    detectLinear: (Expr, seq<string>) -> seq<Expr>,
    coverRange: (Ranges, Expr) -> Option<Range>,
    upperBound: (Ranges, Expr) -> Option<Expr>)
  {
    /** Simplification keeps values within the bound ranges and invents no variable. */
    ghost predicate SoundSimplify() {
      && (forall rs, e, rho: Valuation :: InRanges(rs, rho) ==> Eval(simplify(rs, e), rho) == Eval(e, rho))
      && (forall rs, e :: Vars(simplify(rs, e)) <= Vars(e))
      && (forall rs, c, rho: Valuation :: InRanges(rs, rho) ==> Holds(simplifyCond(rs, c), rho) == Holds(c, rho))
      && (forall rs, c :: CondVars(simplifyCond(rs, c)) <= CondVars(c))
    }

    ghost predicate SoundProver() {
      forall rs, c, rho: Valuation :: canProve(rs, c) && InRanges(rs, rho) ==> Holds(c, rho)
    }

    /** DetectLinearEquation: no answer, or coefficients free of `vs` and a constant term. */
    ghost predicate SoundDetector() {
      forall e, vs :: detectLinear(e, vs) == [] || IsLinearForm(e, vs, detectLinear(e, vs))
    }

    /** The interval evaluator over-approximates: a covering range and an upper bound. */
    ghost predicate SoundIntervals() {
      && (forall rs, e, rho: Valuation :: InRanges(rs, rho) && coverRange(rs, e).Some? ==>
            InRange(coverRange(rs, e).value, Eval(e, rho), rho))
      && (forall rs, e :: coverRange(rs, e).Some? ==> RangeVars(coverRange(rs, e).value) <= Vars(e) + AllRangeVars(rs))
      && (forall rs, e, rho: Valuation :: InRanges(rs, rho) && upperBound(rs, e).Some? ==>
            Eval(e, rho) <= Eval(upperBound(rs, e).value, rho))
    }
  }

  function AllRangeVars(rs: Ranges): set<string> {
    set v, w | v in rs && w in RangeVars(rs[v]) :: w
  }

  function Weighted(cs: seq<Expr>, vs: seq<string>, rho: Valuation): int
    requires |cs| == |vs|
  {
    if cs == [] then 0 else Weighted(cs[..|cs| - 1], vs[..|vs| - 1], rho) + Eval(cs[|cs| - 1], rho) * rho(vs[|vs| - 1])
  }

  ghost predicate IsLinearForm(e: Expr, vs: seq<string>, cs: seq<Expr>) {
    && |cs| == |vs| + 1
    && (forall i :: 0 <= i < |cs| ==> Vars(cs[i]) <= Vars(e) && forall j :: 0 <= j < |vs| ==> vs[j] !in Vars(cs[i]))
    && forall rho: Valuation :: Eval(e, rho) == Weighted(cs[..|vs|], vs, rho) + Eval(cs[|vs|], rho)
  }

  /** The analyzer that never helps. */
  const Trivial: Analyzer :=
    Analyzer((rs, e) => e, (rs, c) => c, (rs, c) => false, (e, vs) => [], (rs, e) => None, (rs, e) => None)

  lemma TrivialAnalyzerSound()
    ensures Trivial.SoundSimplify() && Trivial.SoundProver() && Trivial.SoundDetector() && Trivial.SoundIntervals()
  {
  }
}
