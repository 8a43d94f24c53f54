/**
 What SplitDivConst and SplitModConst of src/arith/canonical_simplify.cc compute
 when a negative scale reaches the folding branch: the factor becomes negative,
 which truncation tolerates and flooring does not.
 */
module NegativeScale {
  import opened IntOperator
  import opened DivModes
  import opened Exprs
  import opened CanonicalForm
  import opened SplitFolding

  /** The branch that cancels a negative scale against the divisor. */
  predicate Hazard(s: SplitExpr, c: int)
    requires c > 0
  {
    s.scale < 0 && Cancelling(s, c)
  }

  /** c == s * k with s and k negative. */
  lemma NegativeQuotient(s: int, c: int)
    requires s < 0 && c > 0 && TruncMod(c, s) == 0
    ensures TruncDiv(c, s) < 0 && c == s * TruncDiv(c, s)
  {
    TruncLaw(c, s);
    PositiveFactor(-TruncDiv(c, s), -s);
  }

  /** A common negative factor cancels in both modes. */
  lemma NegativeScaleBy(y: int, s: int, k: int, mode: DivMode)
    requires s < 0 && k < 0
    ensures s * k > 0 && DivBy(y * s, s * k, mode) == DivBy(y, k, mode)
    ensures ModBy(y * s, s * k, mode) == ModBy(y, k, mode) * s
  {
    if mode == FloorMode {
      FloorLaw(y, k);
      var q, r := IntOperator.FloorDiv(y, k), IntOperator.FloorMod(y, k);
      NegativeRemainder(q, r, s, k);
      FloorUnique(y * s, s * k, q, r * s);
    } else {
      NegativeTrunc(y, s, k, y * s, s * k);
    }
  }

  lemma NegativeTrunc(y: int, s: int, k: int, ys: int, sk: int)
    requires s < 0 && k < 0 && ys == y * s && sk == s * k
    ensures sk > 0 && DivBy(ys, sk, TruncMode) == DivBy(y, k, TruncMode)
    ensures ModBy(ys, sk, TruncMode) == ModBy(y, k, TruncMode) * s
  {
    TwoSigns(y, s);
    TwoSigns(s, k);
    ScaleBy(-y, -s, -k, TruncMode);
    TruncReflect(y, k);
    TruncReflect(-y, k);
    NegatedProduct(ModBy(y, k, TruncMode), -s);
  }

  lemma TwoSigns(x: int, y: int)
    ensures (-x) * (-y) == x * y
  {
  }

  lemma NegativeRemainder(q: int, r: int, s: int, k: int)
    requires s < 0 && k < r <= 0
    ensures s * k > 0 && (q * k + r) * s == q * (s * k) + r * s && 0 <= r * s < s * k
  {
    assert (q * k) * s == q * (s * k);
    assert (-r) * (-s) >= 0 && (r - k) * (-s) > 0;
  }

  // ----- truncation: always right -----

  lemma TruncDivided(r: int, l: int, k: int)
    requires l > 0 && k < 0
    ensures l * k < 0 && TruncDiv(TruncDiv(r, l), k) == TruncDiv(r, l * k)
  {
    DivDivBy(r, l, -k, TruncMode);
    TruncReflect(TruncDiv(r, l), -k);
    NegatedFactor(l, k);
    TruncReflect(r, l * -k);
  }

  lemma TruncReduced(r: int, l: int, k: int)
    requires l > 0 && k < 0
    ensures l * k < 0 && TruncMod(TruncDiv(r, l), k) == TruncDiv(TruncMod(r, l * k), l)
  {
    ModSplitBy(r, -k, l, TruncMode);
    TruncReflect(TruncDiv(r, l), -k);
    NegatedFactor(l, k);
    TruncReflect(r, -(l * k));
  }

  lemma NegatedFactor(l: int, k: int)
    requires l > 0 && k < 0
    ensures -k * l == -(l * k) && l * -k == -(l * k) && l * k < 0
  {
    assert l * -k > 0;
  }

  // ----- which branch is taken -----

  lemma HazardDiv(s: SplitExpr, c: int, rho: Valuation)
    requires Positive(s) && c > 0 && Hazard(s, c)
    ensures var k, x := TruncDiv(c, s.scale), Eval(s.index, rho);
      && k < 0 && s.lower * k < 0
      && SplitValue(FoldDiv(s, c), rho) == DivBy(Reduced(x, s.upper, s.mode), s.lower * k, s.mode)
      && DivBy(SplitValue(s, rho), c, s.mode) == DivBy(DigitAt(s, x), k, s.mode)
  {
    var k, x := TruncDiv(c, s.scale), Eval(s.index, rho);
    NegativeQuotient(s.scale, c);
    assert s.lower * -k > 0;
    NegativeScaleBy(DigitAt(s, x), s.scale, k, s.mode);
    if s.upper.Fin? { DivisionValues(s.index, s.upper.k, s.mode, rho); }
  }

  lemma SmallDivided(l: int, k: int)
    requires l > 1 && k < 0
    ensures l * k < -1 && IntOperator.FloorDiv(1, l * k) == -1 && IntOperator.FloorDiv(0, k) == 0
    ensures IntOperator.FloorMod(1, l * k) == 1 + l * k
  {
    assert l * -k >= 2;
    FloorUnique(1, l * k, -1, 1 + l * k);
    FloorUnique(0, k, 0, 0);
  }

  /** At index value 1 a lower factor above 1 gives the digit 0. */
  lemma DigitOfOne(s: SplitExpr)
    requires Positive(s) && s.lower > 1
    ensures Reduced(1, s.upper, s.mode) == 1 && DigitAt(s, 1) == 0
  {
    if s.upper.Fin? {
      DividesBound(s.lower, s.upper.k);
      SmallBy(1, s.upper.k, s.mode);
    }
    SmallBy(1, s.lower, s.mode);
  }

  /**
   For positive factors folding a division is right at every value of the index, except for
   flooring a negative scale over a lower factor above 1. A branch that cancels nothing is right
   for all factors.
   */
  predicate DivIsRight(s: SplitExpr, c: int)
    requires c > 0
  {
    Cancelling(s, c) ==> Positive(s) && (s.scale < 0 && s.mode == FloorMode ==> s.lower == 1)
  }

  lemma FoldDivRight(s: SplitExpr, c: int, rho: Valuation)
    requires Valid(s) && c > 0 && DivIsRight(s, c)
    ensures SplitValue(FoldDiv(s, c), rho) == DivBy(SplitValue(s, rho), c, s.mode)
  {
    if !Hazard(s, c) {
      FoldDivValue(s, c, rho);
    } else {
      HazardDiv(s, c, rho);
      var r := Reduced(Eval(s.index, rho), s.upper, s.mode);
      if s.mode == TruncMode {
        TruncDivided(r, s.lower, TruncDiv(c, s.scale));
      } else {
        ExactBy(r, 1, FloorMode);
      }
    }
  }

  /** Exactly when folding a division is right for every value of the index. */
  lemma FoldDivExactness(name: string, s: SplitExpr, c: int)
    requires Positive(s) && c > 0 && s.index == Var(name)
    ensures (forall rho: Valuation :: SplitValue(FoldDiv(s, c), rho) == DivBy(SplitValue(s, rho), c, s.mode)) <==>
      DivIsRight(s, c)
  {
    if DivIsRight(s, c) {
      forall rho: Valuation
        ensures SplitValue(FoldDiv(s, c), rho) == DivBy(SplitValue(s, rho), c, s.mode)
      {
        FoldDivRight(s, c, rho);
      }
    } else {
      var one: Valuation := x => 1;
      HazardDiv(s, c, one);
      DigitOfOne(s);
      SmallDivided(s.lower, TruncDiv(c, s.scale));
      assert SplitValue(FoldDiv(s, c), one) != DivBy(SplitValue(s, one), c, s.mode);
    }
  }

  // ----- remainders -----

  /** The new upper factor divides the old one (or there is none). */
  predicate Shrinks(s: SplitExpr, c: int)
    requires s.scale != 0
  {
    var upper := s.lower * TruncDiv(c, s.scale);
    s.upper.Inf? || (upper != 0 && TruncMod(s.upper.k, upper) == 0)
  }

  /** The old upper factor divides the new one. */
  predicate Absorbs(s: SplitExpr, c: int)
    requires s.scale != 0
  {
    s.upper.Fin? && s.upper.k != 0 && TruncMod(s.lower * TruncDiv(c, s.scale), s.upper.k) == 0
  }

  predicate ModIsRight(s: SplitExpr, c: int)
    requires c > 0
  {
    Cancelling(s, c) ==> Positive(s) && (s.scale < 0 && s.mode == FloorMode ==>
      if Shrinks(s, c) then s.lower == 1
      else Absorbs(s, c) ==> s.upper.k == s.lower)
  }

  lemma HazardShrinks(visit: Expr -> Expr, s: SplitExpr, c: int, rho: Valuation)
    requires Keeps(visit, rho) && Positive(s) && c > 0 && Hazard(s, c) && Shrinks(s, c)
    ensures var upper := s.lower * TruncDiv(c, s.scale);
      upper < 0 && SplitValue(FoldMod(visit, s, c), rho) ==
        DivBy(ModBy(Eval(s.index, rho), upper, s.mode), s.lower, s.mode) * s.scale
  {
    NegativeQuotient(s.scale, c);
    var upper := s.lower * TruncDiv(c, s.scale);
    assert s.lower * -TruncDiv(c, s.scale) > 0;
    if s.upper.Fin? {
      VisitedDigit(visit, s, upper, rho);
      var updated := PlainSplit(visit(ModImpl(s.index, upper, s.mode)));
      RescaledValue(if s.lower > 1 then SplitDivConst(updated, s.lower, s.mode) else updated, s.scale, rho);
    }
  }

  lemma HazardRemainder(s: SplitExpr, c: int, rho: Valuation)
    requires Positive(s) && c > 0 && Hazard(s, c)
    ensures var k := TruncDiv(c, s.scale);
      k < 0 && s.lower * k < 0 &&
        ModBy(SplitValue(s, rho), c, s.mode) == ModBy(DigitAt(s, Eval(s.index, rho)), k, s.mode) * s.scale
  {
    NegativeQuotient(s.scale, c);
    assert s.lower * -TruncDiv(c, s.scale) > 0;
    NegativeScaleBy(DigitAt(s, Eval(s.index, rho)), s.scale, TruncDiv(c, s.scale), s.mode);
  }

  /** Truncation: the reduced digit is the digit of the reduced index. */
  lemma TruncRemainder(s: SplitExpr, k: int, x: int)
    requires Positive(s) && k < 0 && s.mode == TruncMode && (s.upper.Fin? ==> Divides(s.lower * k, s.upper.k))
    ensures s.lower * k < 0
    ensures ModBy(DigitAt(s, x), k, s.mode) == DivBy(ModBy(x, s.lower * k, s.mode), s.lower, s.mode)
  {
    TruncReduced(Reduced(x, s.upper, s.mode), s.lower, k);
    ReducedTwice(x, s.upper, s.lower * k, s.mode);
  }

  lemma ShrinksRight(visit: Expr -> Expr, s: SplitExpr, c: int, rho: Valuation)
    requires Keeps(visit, rho) && Positive(s) && c > 0 && Hazard(s, c) && Shrinks(s, c)
    requires (s.mode == FloorMode ==> s.lower == 1)
    ensures SplitValue(FoldMod(visit, s, c), rho) == ModBy(SplitValue(s, rho), c, s.mode)
  {
    HazardShrinks(visit, s, c, rho);
    HazardRemainder(s, c, rho);
    var k, x := TruncDiv(c, s.scale), Eval(s.index, rho);
    if s.upper.Fin? { TruncModZero(s.upper.k, s.lower * k); }
    if s.mode == TruncMode {
      TruncRemainder(s, k, x);
    } else {
      ReducedTwice(x, s.upper, k, s.mode);
      ExactBy(Reduced(x, s.upper, s.mode), 1, s.mode);
      ExactBy(ModBy(x, k, s.mode), 1, s.mode);
    }
  }

  /** Below the old upper factor the digit is its own truncated remainder. */
  lemma AbsorbedDigit(s: SplitExpr, k: int, x: int)
    requires Positive(s) && k < 0 && s.mode == TruncMode && s.upper.Fin? && Divides(s.upper.k, s.lower * k)
    ensures ModBy(DigitAt(s, x), k, s.mode) == DigitAt(s, x)
  {
    TruncReduced(Reduced(x, s.upper, s.mode), s.lower, k);
    var m := s.lower * k;
    ReducedBound(x, s.upper, s.mode);
    DividesSign(s.upper.k, m);
    DividesBound(s.upper.k, -m);
    SmallBy(Reduced(x, s.upper, s.mode), -m, s.mode);
    TruncReflect(Reduced(x, s.upper, s.mode), m);
  }

  lemma FoldModRight(visit: Expr -> Expr, s: SplitExpr, c: int, rho: Valuation)
    requires Keeps(visit, rho) && Valid(s) && c > 0 && ModIsRight(s, c)
    ensures SplitValue(FoldMod(visit, s, c), rho) == ModBy(SplitValue(s, rho), c, s.mode)
  {
    if !Hazard(s, c) {
      FoldModValue(visit, s, c, rho);
    } else if Shrinks(s, c) {
      ShrinksRight(visit, s, c, rho);
    } else if Absorbs(s, c) {
      HazardRemainder(s, c, rho);
      var k, x := TruncDiv(c, s.scale), Eval(s.index, rho);
      TruncModZero(s.lower * k, s.upper.k);
      if s.mode == TruncMode {
        AbsorbedDigit(s, k, x);
      } else {
        ReducedBound(x, s.upper, s.mode);
        SmallBy(Reduced(x, s.upper, s.mode), s.lower, s.mode);
        FloorUnique(0, k, 0, 0);
      }
    } else {
      ReducedPlainValue(s, c, rho);
    }
  }

  lemma WrongRemainder(l: int, k: int)
    requires l > 1 && k < 0
    ensures l * k < 0 && IntOperator.FloorDiv(IntOperator.FloorMod(1, l * k), l) == k && IntOperator.FloorMod(0, k) == 0
  {
    SmallDivided(l, k);
    FloorUnique(0, k, 0, 0);
    FloorUnique(1 + l * k, l, k, 1);
  }

  lemma ShrinksWrong(visit: Expr -> Expr, s: SplitExpr, c: int, one: Valuation)
    requires Keeps(visit, one) && Positive(s) && c > 0 && Hazard(s, c) && Shrinks(s, c) && s.mode == FloorMode
    requires s.lower > 1
    requires Eval(s.index, one) == 1
    ensures SplitValue(FoldMod(visit, s, c), one) != ModBy(SplitValue(s, one), c, s.mode)
  {
    HazardShrinks(visit, s, c, one);
    HazardRemainder(s, c, one);
    NegativeQuotient(s.scale, c);
    DigitOfOne(s);
    WrongRemainder(s.lower, TruncDiv(c, s.scale));
    ZeroAgainst(TruncDiv(c, s.scale), s.scale, c);
  }

  lemma ZeroAgainst(k: int, s: int, c: int)
    requires c > 0 && c == s * k
    ensures k * s != 0 * s
  {
  }

  lemma AbsorbsWrong(visit: Expr -> Expr, s: SplitExpr, c: int, at: Valuation)
    requires Positive(s) && c > 0 && Hazard(s, c) && !Shrinks(s, c) && Absorbs(s, c) && s.mode == FloorMode
    requires s.upper.k != s.lower
    requires Eval(s.index, at) == s.lower
    ensures SplitValue(FoldMod(visit, s, c), at) != ModBy(SplitValue(s, at), c, s.mode)
  {
    HazardRemainder(s, c, at);
    var k := TruncDiv(c, s.scale);
    DividesBound(s.lower, s.upper.k);
    SmallBy(s.lower, s.upper.k, s.mode);
    ExactBy(1, s.lower, s.mode);
    assert DigitAt(s, s.lower) == 1;
    FloorLaw(1, k);
    assert IntOperator.FloorMod(1, k) <= 0;
    assert IntOperator.FloorMod(1, k) * s.scale != 1 * s.scale;
  }

  /** Exactly when folding a remainder is right for every value of the index. */
  lemma FoldModExactness(visit: Expr -> Expr, name: string, s: SplitExpr, c: int)
    requires (forall rho: Valuation :: Keeps(visit, rho)) && Positive(s) && c > 0 && s.index == Var(name)
    ensures (forall rho: Valuation ::
      SplitValue(FoldMod(visit, s, c), rho) == ModBy(SplitValue(s, rho), c, s.mode)) <==> ModIsRight(s, c)
  {
    if ModIsRight(s, c) {
      forall rho: Valuation ensures SplitValue(FoldMod(visit, s, c), rho) == ModBy(SplitValue(s, rho), c, s.mode) {
        FoldModRight(visit, s, c, rho);
      }
    } else if Shrinks(s, c) {
      ShrinksWrong(visit, s, c, x => 1);
    } else {
      AbsorbsWrong(visit, s, c, x => s.lower);
    }
  }

  // ----- the conversion included -----

  predicate DivFoldsRight(s: SplitExpr, c: int, mode: DivMode)
    requires c > 0
  {
    DivIsRight(ConvertDivMode(s, mode), c)
  }

  predicate ModFoldsRight(s: SplitExpr, c: int, mode: DivMode)
    requires c > 0
  {
    ModIsRight(ConvertDivMode(s, mode), c)
  }

  /** Dividing a split gives a valid split, and the quotient in the chosen mode wherever the fold is right. */
  lemma SplitDivConstValue(s: SplitExpr, c: int, mode: DivMode, rho: Valuation)
    requires Valid(s) && c > 0
    ensures Valid(SplitDivConst(s, c, mode))
    ensures DivFoldsRight(s, c, mode) ==>
      SplitValue(SplitDivConst(s, c, mode), rho) == DivBy(SplitValue(s, rho), c, mode)
  {
    ConvertValue(s, mode, rho);
    FoldDivValid(ConvertDivMode(s, mode), c);
    if DivFoldsRight(s, c, mode) { FoldDivRight(ConvertDivMode(s, mode), c, rho); }
  }

  /** The same for the remainder. */
  lemma SplitModConstValue(visit: Expr -> Expr, s: SplitExpr, c: int, mode: DivMode, rho: Valuation)
    requires Keeps(visit, rho) && Valid(s) && c > 0
    ensures Valid(SplitModConst(visit, s, c, mode))
    ensures ModFoldsRight(s, c, mode) ==>
      SplitValue(SplitModConst(visit, s, c, mode), rho) == ModBy(SplitValue(s, rho), c, mode)
  {
    ConvertValue(s, mode, rho);
    FoldModValid(visit, ConvertDivMode(s, mode), c, rho);
    if ModFoldsRight(s, c, mode) { FoldModRight(visit, ConvertDivMode(s, mode), c, rho); }
  }
}
