/**
 (x + b) // c and (x + b) % c for one iterator x, taken through the rewriter of
 src/arith/iter_affine_map.cc: exactly when the result is right.
 */
module IterOffsets {
  import opened Options
  import opened IntOperator
  import opened DivModLaws
  import opened Radix
  import opened Exprs
  import opened IterMapExprs
  import opened IterDivision
  import opened IterRewriter
  import opened IterFuser

  function Shifted(x: string, b: int, c: int, quotient: bool): Expr {
    if quotient then Expr.FloorDiv(Add(Var(x), Const(b)), Const(c)) else Expr.FloorMod(Add(Var(x), Const(b)), Const(c))
  }

  /** The whole iterator. */
  function Whole(x: string, iters: Iters): IterSplit
    requires x in iters
  {
    WholeMark(IterMark(VarSource(x), iters[x].extent), 1)
  }

  /** The iterator starts at 0 and has more than one value; no iterator is empty. */
  ghost predicate StartsAtZero(x: string, iters: Iters) {
    x in iters && iters[x].min == 0 && iters[x].extent > 1 && NonEmpty(iters)
  }

  /** The visitors use the rule for one split. */
  lemma ShiftedForm(x: string, b: int, c: int, quotient: bool, iters: Iters, simplifyTrivial: bool)
    requires StartsAtZero(x, iters) && c > 1
    ensures MutatedOf(Shifted(x, b, c, quotient), iters, simplifyTrivial) ==
      DivideSplit(Whole(x, iters), b, c, quotient)
  {
    var p := Whole(x, iters);
    assert InputEntry(x, iters[x], simplifyTrivial) == One(p);
    SumForm(x, b, iters, simplifyTrivial);
    var a := WithBase(p, b);
    assert MutatedOf(Const(c), iters, simplifyTrivial) == Plain(c);
    assert ToSum(a) == IterSum([p], b);
    assert DividendOf(a) == Some(IterSum([p], b));
    assert DivideOf(a, Plain(c), quotient) == DivideSplit(p, b, c, quotient);
  }

  lemma SumForm(x: string, b: int, iters: Iters, simplifyTrivial: bool)
    requires StartsAtZero(x, iters)
    ensures MutatedOf(Add(Var(x), Const(b)), iters, simplifyTrivial) == WithBase(Whole(x, iters), b)
  {
    var p := Whole(x, iters);
    assert MutatedOf(Var(x), iters, simplifyTrivial) == One(p);
    assert MutatedOf(Const(b), iters, simplifyTrivial) == Plain(b);
    assert AddedAll([p], [], 1) == [p];
  }

  /**
   The offset pushes no value across a multiple of the divisor (quotient); the divisor
   divides the offset (remainder).
   */
  predicate ShiftRight(n: int, b: int, c: int, quotient: bool)
    requires c > 0
  {
    if quotient then b % c + Least(n, c) <= c else Divides(c, b)
  }

  lemma ShiftIsRight(x: string, iters: Iters, b: int, c: int, quotient: bool)
    requires StartsAtZero(x, iters) && c > 1
    ensures Right(Whole(x, iters), b, c, quotient) <==> ShiftRight(iters[x].extent, b, c, quotient)
  {
    var n := iters[x].extent;
    var k := CeilingQuotient(n, 1);
    assert k == n;
  }

  /** The rule for the split is well-formed and right everywhere exactly under the condition. */
  lemma ShiftedRule(x: string, b: int, c: int, quotient: bool, iters: Iters)
    requires StartsAtZero(x, iters) && c > 1
    ensures KeepsValue(Whole(x, iters), b, c, quotient, iters) <==> ShiftRight(iters[x].extent, b, c, quotient)
  {
    var p := Whole(x, iters);
    WholeIsGood(x, iters);
    IteratorCovers(x, iters);
    DivisionExactness(p, b, c, quotient, iters);
    ShiftIsRight(x, iters, b, c, quotient);
  }

  lemma WholeIsGood(x: string, iters: Iters)
    requires StartsAtZero(x, iters)
    ensures GoodSplit(Whole(x, iters), iters)
    ensures forall v: Valuation :: InIters(iters, v) ==> SplitValue(Whole(x, iters), v) == v(x)
  {
    InputMeans(x, iters, false);
    assert InputEntry(x, iters[x], false) == One(Whole(x, iters));
    forall v: Valuation | InIters(iters, v) ensures SplitValue(Whole(x, iters), v) == v(x) {
      assert MutatedValue(One(Whole(x, iters)), v) == Eval(Var(x), v);
    }
  }

  /** The rewritten expression is well-formed and right everywhere exactly under the condition. */
  lemma ShiftedExactness(x: string, b: int, c: int, quotient: bool, iters: Iters, simplifyTrivial: bool)
    requires StartsAtZero(x, iters) && c > 1
    ensures Means(MutatedOf(Shifted(x, b, c, quotient), iters, simplifyTrivial), Shifted(x, b, c, quotient), iters) <==>
      ShiftRight(iters[x].extent, b, c, quotient)
  {
    ShiftedForm(x, b, c, quotient, iters, simplifyTrivial);
    ShiftedRule(x, b, c, quotient, iters);
    forall v: Valuation | InIters(iters, v)
      ensures Divide(SplitValue(Whole(x, iters), v) + b, c, quotient) == Eval(Shifted(x, b, c, quotient), v)
    {
      ShiftedValue(x, b, c, quotient, iters, v);
    }
  }

  lemma ShiftedValue(x: string, b: int, c: int, quotient: bool, iters: Iters, v: Valuation)
    requires StartsAtZero(x, iters) && c > 1 && InIters(iters, v)
    ensures Divide(SplitValue(Whole(x, iters), v) + b, c, quotient) == Eval(Shifted(x, b, c, quotient), v)
  {
    WholeIsGood(x, iters);
    assert Eval(Const(b), v) == b && Eval(Const(c), v) == c;
    assert Eval(Add(Var(x), Const(b)), v) == v(x) + b;
  }

  // ----- the whole run -----

  /** A single split is always fused. */
  lemma SingleFused(q: IterSplit, base: int)
    requires q.scale != 0
    ensures Fused(IterSum([q], base), true).Some?
  {
    var args := [q];
    assert Combined(IterSum(args, base)).None?;
    assert Candidate(args, NoneYet(1), None, 0) && Better(args, 0, -1);
    assert BaseFrom(args, NoneYet(1), None, 0, -1) == BaseFrom(args, NoneYet(1), None, -1, 0) == 0;
    var unit := q.(scale := IntOperator.FloorDiv(q.scale, q.scale));
    assert SelectFrom(args, NoneYet(1)[0 := true], [] + [unit], q.extent * q.scale, 0, q.scale, 1).Some?;
  }

  /** The result of the rule at scale 1. */
  lemma RuleResult(p: IterSplit, b: int, c: int, quotient: bool, iters: Iters)
    requires GoodSplit(p, iters) && p.scale == 1 && c > 1 && NonEmpty(iters)
    ensures var m := DivideSplit(p, b, c, quotient);
      !m.Unresolved? && GoodMutated(m, iters) && |ToSum(m).args| == 1 && ToSum(m).args[0].scale == 1
  {
    var corner: Valuation := x => if x in iters then iters[x].min else 0;
    assert InIters(iters, corner);
    UnitValue(p, b, c, quotient, iters, corner);
  }

  /** What Rewrite returns is right everywhere exactly under the condition. */
  method RewriteShifted(x: string, b: int, c: int, quotient: bool, iters: Iters, simplifyTrivial: bool)
    returns (r: Option<IterSum>)
    requires StartsAtZero(x, iters) && c > 1
    ensures r == RewrittenOf(Shifted(x, b, c, quotient), iters, simplifyTrivial) && r.Some?
    ensures (forall v: Valuation :: InIters(iters, v) ==> SumValue(r.value, v) == Eval(Shifted(x, b, c, quotient), v))
      <==> ShiftRight(iters[x].extent, b, c, quotient)
  {
    var e := Shifted(x, b, c, quotient);
    ghost var m := MutatedOf(e, iters, simplifyTrivial);
    ShiftedForm(x, b, c, quotient, iters, simplifyTrivial);
    WholeIsGood(x, iters);
    RuleResult(Whole(x, iters), b, c, quotient, iters);
    SingleFused(ToSum(m).args[0], ToSum(m).base);
    assert ToSum(m) == IterSum([ToSum(m).args[0]], ToSum(m).base);
    var rewriter := new IterMapRewriter(iters, simplifyTrivial);
    r := rewriter.Rewrite(e);
    ShiftedExactness(x, b, c, quotient, iters, simplifyTrivial);
    SameValues(r.value, m, e, iters);
  }

  lemma SameValues(s: IterSum, m: Mutated, e: Expr, iters: Iters)
    requires GoodMutated(m, iters) && SameSum(s, m, iters)
    ensures (forall v: Valuation :: InIters(iters, v) ==> SumValue(s, v) == Eval(e, v)) <==> Means(m, e, iters)
  {
    if Means(m, e, iters) {
      forall v: Valuation | InIters(iters, v) ensures SumValue(s, v) == Eval(e, v) {
        assert SumValue(s, v) == MutatedValue(m, v);
      }
    } else {
      var v: Valuation :| InIters(iters, v) && MutatedValue(m, v) != Eval(e, v);
      assert SumValue(s, v) != Eval(e, v);
    }
  }

  /** A divisor of the extent: the split of the quotient. */
  lemma EvenQuotient(x: string, n: int, b: int, c: int, k: int, iters: Iters)
    requires StartsAtZero(x, iters) && iters[x].extent == n && c > 1 && n == k * c && 0 <= b < c
    ensures DivideSplit(Whole(x, iters), b, c, true) == One(IterSplit(IterMark(VarSource(x), n), c, k, 1))
  {
    var p := Whole(x, iters);
    DivUnitForm(p, b, c);
    BaseQuotient(b, c);
    DivModUnique(b, c, 0, b);
    DividesIntro(c, n, k);
    TruncModZero(n, c);
    FloorUnique(n, c, k, 0);
  }

  /** (x + 1) // 2 with 0 <= x < 4 is rewritten to x // 2, which is wrong at x = 1. */
  lemma HalfOfNext(x: string, v: Valuation)
    requires v(x) == 1
    ensures var e, iters := Shifted(x, 1, 2, true), map[x := IterRange(0, 4)];
      InIters(iters, v) && MutatedOf(e, iters, true) == One(IterSplit(IterMark(VarSource(x), 4), 2, 2, 1)) &&
        MutatedValue(MutatedOf(e, iters, true), v) == 0 && Eval(e, v) == 1
  {
    var iters: Iters := map[x := IterRange(0, 4)];
    ShiftedForm(x, 1, 2, true, iters, true);
    EvenQuotient(x, 4, 1, 2, 2, iters);
    BelowLower(IterSplit(IterMark(VarSource(x), 4), 2, 2, 1), v);
    ShiftedEval(x, 1, 2, v);
    FloorUnique(v(x) + 1, 2, 1, 0);
  }

  lemma BelowLower(p: IterSplit, v: Valuation)
    requires p.lower > 0 && p.extent > 0 && 0 <= MarkValue(p.mark, v) < p.lower
    ensures SplitValue(p, v) == 0
  {
    var d := MarkValue(p.mark, v);
    DivModUnique(d, p.lower, 0, d);
    DivModUnique(0, p.extent, 0, 0);
    assert Digit(d, p.Slot()) == 0;
  }

  lemma ShiftedEval(x: string, b: int, c: int, v: Valuation)
    requires c > 0
    ensures Eval(Shifted(x, b, c, true), v) == IntOperator.FloorDiv(v(x) + b, c)
  {
    assert Eval(Const(b), v) == b && Eval(Const(c), v) == c;
    assert Eval(Add(Var(x), Const(b)), v) == v(x) + b;
  }
}
