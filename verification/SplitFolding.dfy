/**
 Folding a division or remainder by a constant into one split: SplitDivConst and
 SplitModConst of src/arith/canonical_simplify.cc, in both division modes.
 */
module SplitFolding {
  import opened IntOperator
  import opened DivModes
  import opened Exprs
  import opened CanonicalForm

  /** Same value in the requested mode. */
  function ConvertDivMode(s: SplitExpr, mode: DivMode): SplitExpr {
    if s.mode == mode then s
    else if IsPlain(s) then s.(mode := mode)
    else PlainSplit(NormalizeSplit(s, 1)).(mode := mode)
  }

  lemma ConvertValue(s: SplitExpr, mode: DivMode, rho: Valuation)
    requires Valid(s)
    ensures Valid(ConvertDivMode(s, mode)) && ConvertDivMode(s, mode).mode == mode
    ensures Positive(s) ==> Positive(ConvertDivMode(s, mode))
    ensures SplitValue(ConvertDivMode(s, mode), rho) == SplitValue(s, rho)
  {
    if s.mode != mode {
      if IsPlain(s) {
        PlainValue(s, rho);
        PlainValue(s.(mode := mode), rho);
      } else {
        NormalizeSplitValue(s, 1, rho);
        PlainValue(PlainSplit(NormalizeSplit(s, 1)).(mode := mode), rho);
      }
    }
  }

  /** The branch that cancels the scale against the divisor. */
  predicate Cancelling(s: SplitExpr, c: int)
    requires c > 0
  {
    s.scale != 0 && TruncMod(s.scale, c) != 0 && TruncMod(c, s.scale) == 0
  }

  /** Only positive numbers are cancelled. */
  predicate FoldsPositive(s: SplitExpr, c: int)
    requires c > 0
  {
    Cancelling(s, c) ==> Positive(s) && s.scale > 0
  }

  /** The division of an already converted split. */
  function FoldDiv(s: SplitExpr, c: int): SplitExpr
    requires c > 0
  {
    if TruncMod(s.scale, c) == 0 then s.(scale := TruncDiv(s.scale, c))
    else if s.scale != 0 && TruncMod(c, s.scale) == 0 then
      var lower := s.lower * TruncDiv(c, s.scale);
      if s.upper.Inf? || (lower != 0 && TruncMod(s.upper.k, lower) == 0) then s.(scale := 1, lower := lower)
      else if s.upper.k <= lower then PlainSplit(Const(0))
      else s.(index := ModImpl(s.index, s.upper.k, s.mode), upper := Inf, scale := 1, lower := lower)
    else PlainSplit(NormalizeSplit(s, 1)).(lower := c, mode := s.mode)
  }

  function SplitDivConst(s: SplitExpr, c: int, mode: DivMode): SplitExpr
    requires c > 0
  {
    FoldDiv(ConvertDivMode(s, mode), c)
  }

  function FoldMod(visit: Expr -> Expr, s: SplitExpr, c: int): SplitExpr
    requires c > 0
  {
    if TruncMod(s.scale, c) == 0 then s.(scale := 0)
    else if s.scale != 0 && TruncMod(c, s.scale) == 0 then
      var upper := s.lower * TruncDiv(c, s.scale);
      if s.upper.Inf? || (upper != 0 && TruncMod(s.upper.k, upper) == 0) then
        if s.upper.Fin? && upper < s.upper.k then
          var updated := PlainSplit(visit(ModImpl(s.index, upper, s.mode)));
          if s.lower > 1 then
            var r := SplitDivConst(updated, s.lower, s.mode);
            r.(scale := r.scale * s.scale)
          else updated.(scale := s.scale)
        else s.(upper := Fin(upper))
      else if s.upper.k != 0 && TruncMod(upper, s.upper.k) == 0 then s
      else ReducedPlain(s, c)
    else ReducedPlain(s, c)
  }

  function ReducedPlain(s: SplitExpr, c: int): SplitExpr {
    PlainSplit(NormalizeSplit(s, 1)).(mode := s.mode, upper := Fin(c))
  }

  function SplitModConst(visit: Expr -> Expr, s: SplitExpr, c: int, mode: DivMode): SplitExpr
    requires c > 0
  {
    FoldMod(visit, ConvertDivMode(s, mode), c)
  }

  // ----- arithmetic of one fold -----

  /** y * s divided by s * k. */
  lemma ScaledDivision(y: int, s: int, c: int, mode: DivMode)
    requires c > 0 && s > 0 && TruncMod(c, s) == 0
    ensures var k := TruncDiv(c, s);
      k > 0 && c == s * k && DivBy(y * s, c, mode) == DivBy(y, k, mode) &&
        ModBy(y * s, c, mode) == ModBy(y, k, mode) * s
  {
    TruncLaw(c, s);
    ScaledBy(y, s, TruncDiv(c, s), c, mode);
  }

  lemma ScaledBy(y: int, s: int, k: int, c: int, mode: DivMode)
    requires c > 0 && s > 0 && c == k * s
    ensures k > 0 && c == s * k
    ensures DivBy(y * s, c, mode) == DivBy(y, k, mode) && ModBy(y * s, c, mode) == ModBy(y, k, mode) * s
  {
    PositiveFactor(k, s);
    assert k * s == s * k;
    ScaleBy(y, s, k, mode);
  }

  lemma DivisibleScale(y: int, s: int, c: int, mode: DivMode)
    requires c > 0 && TruncMod(s, c) == 0
    ensures s == TruncDiv(s, c) * c && DivBy(y * s, c, mode) == y * TruncDiv(s, c) && ModBy(y * s, c, mode) == 0
  {
    TruncLaw(s, c);
    var q := TruncDiv(s, c);
    assert y * (q * c) == (y * q) * c;
    ExactBy(y * q, c, mode);
  }

  lemma ReducedBound(x: int, upper: Factor, mode: DivMode)
    requires upper.Fin? && upper.k > 0
    ensures Abs(Reduced(x, upper, mode)) < upper.k && (mode == FloorMode ==> Reduced(x, upper, mode) >= 0)
  {
    DivModBy(x, upper.k, mode);
  }

  /** Dividing a digit: the lower factor grows. */
  lemma DigitDivided(s: SplitExpr, k: int, x: int)
    requires Positive(s) && k > 0
    ensures s.lower * k > 0
    ensures DivBy(DigitAt(s, x), k, s.mode) == DivBy(Reduced(x, s.upper, s.mode), s.lower * k, s.mode)
  {
    DivDivBy(Reduced(x, s.upper, s.mode), s.lower, k, s.mode);
  }

  /** Reducing a digit: the upper factor shrinks. */
  lemma DigitReduced(s: SplitExpr, k: int, x: int)
    requires Positive(s) && k > 0
    ensures s.lower * k > 0
    ensures ModBy(DigitAt(s, x), k, s.mode) ==
      DivBy(ModBy(Reduced(x, s.upper, s.mode), s.lower * k, s.mode), s.lower, s.mode)
  {
    ModSplitBy(Reduced(x, s.upper, s.mode), k, s.lower, s.mode);
    assert k * s.lower == s.lower * k;
  }

  // ----- folding a division, positive scale -----

  lemma FoldDivBranch(s: SplitExpr, c: int, rho: Valuation)
    requires Positive(s) && c > 0 && s.scale > 0 && Cancelling(s, c)
    ensures SplitValue(FoldDiv(s, c), rho) == DivBy(DigitAt(s, Eval(s.index, rho)), TruncDiv(c, s.scale), s.mode)
  {
    var k, x := TruncDiv(c, s.scale), Eval(s.index, rho);
    ScaledDivision(0, s.scale, c, s.mode);
    DigitDivided(s, k, x);
    var lower := s.lower * k;
    if s.upper.Inf? {
    } else {
      TruncModZero(s.upper.k, lower);
      ReducedBound(x, s.upper, s.mode);
      if TruncMod(s.upper.k, lower) == 0 {
      } else if s.upper.k <= lower {
        SmallBy(Reduced(x, s.upper, s.mode), lower, s.mode);
        PlainValue(PlainSplit(Const(0)), rho);
      } else {
        DivisionValues(s.index, s.upper.k, s.mode, rho);
      }
    }
  }

  /** The folded split is valid, whatever the signs. */
  lemma FoldDivValid(s: SplitExpr, c: int)
    requires Valid(s) && c > 0
    ensures Valid(FoldDiv(s, c))
  {
    if Cancelling(s, c) {
      CancelledFactor(s, c);
      var lower := s.lower * TruncDiv(c, s.scale);
      if s.upper.Fin? { TruncModZero(s.upper.k, lower); }
    }
  }

  /** The factor that cancelling gives is a multiple of the old one and not 0. */
  lemma CancelledFactor(s: SplitExpr, c: int)
    requires Valid(s) && c > 0 && Cancelling(s, c)
    ensures s.lower * TruncDiv(c, s.scale) != 0 && Divides(s.lower, s.lower * TruncDiv(c, s.scale))
  {
    TruncLaw(c, s.scale);
    NonzeroProduct(s.lower, TruncDiv(c, s.scale));
    DividesIntro(s.lower, s.lower * TruncDiv(c, s.scale), TruncDiv(c, s.scale));
  }

  /** The folded split has the quotient as its value, at every valuation. */
  lemma FoldDivValue(s: SplitExpr, c: int, rho: Valuation)
    requires Valid(s) && c > 0 && FoldsPositive(s, c)
    ensures SplitValue(FoldDiv(s, c), rho) == DivBy(SplitValue(s, rho), c, s.mode)
  {
    var y := DigitAt(s, Eval(s.index, rho));
    if TruncMod(s.scale, c) == 0 {
      DivisibleScale(y, s.scale, c, s.mode);
    } else if Cancelling(s, c) {
      FoldDivBranch(s, c, rho);
      ScaledDivision(y, s.scale, c, s.mode);
    } else {
      NormalizeSplitValue(s, 1, rho);
    }
  }

  /** Dividing a plain expression. */
  lemma PlainDivConst(e: Expr, c: int, mode: DivMode, rho: Valuation)
    requires c > 0
    ensures Valid(SplitDivConst(PlainSplit(e), c, mode))
    ensures SplitValue(SplitDivConst(PlainSplit(e), c, mode), rho) == DivBy(Eval(e, rho), c, mode)
  {
    PlainValue(PlainSplit(e), rho);
    ConvertValue(PlainSplit(e), mode, rho);
    FoldDivValid(ConvertDivMode(PlainSplit(e), mode), c);
    FoldDivValue(ConvertDivMode(PlainSplit(e), mode), c, rho);
  }

  // ----- folding a remainder, positive scale -----

  /** The recursive simplification keeps values. */
  ghost predicate Keeps(visit: Expr -> Expr, rho: Valuation) {
    forall e :: Eval(visit(e), rho) == Eval(e, rho)
  }

  lemma VisitedDigit(visit: Expr -> Expr, s: SplitExpr, upper: int, rho: Valuation)
    requires Keeps(visit, rho) && s.lower != 0 && upper != 0
    ensures var updated := PlainSplit(visit(ModImpl(s.index, upper, s.mode)));
      var r := if s.lower > 1 then SplitDivConst(updated, s.lower, s.mode) else updated;
      Valid(r) && (s.lower > 0 ==>
        SplitValue(r, rho) == DivBy(ModBy(Eval(s.index, rho), upper, s.mode), s.lower, s.mode))
  {
    var updated := PlainSplit(visit(ModImpl(s.index, upper, s.mode)));
    DivisionValues(s.index, upper, s.mode, rho);
    PlainValue(updated, rho);
    if s.lower > 1 {
      PlainDivConst(updated.index, s.lower, s.mode, rho);
    } else {
      ExactBy(SplitValue(updated, rho), 1, s.mode);
    }
  }

  lemma RescaledValue(r: SplitExpr, k: int, rho: Valuation)
    ensures SplitValue(r.(scale := r.scale * k), rho) == SplitValue(r, rho) * k
  {
    Distribute(DigitAt(r, Eval(r.index, rho)), 0, r.scale, k);
    assert DigitAt(r.(scale := r.scale * k), Eval(r.index, rho)) == DigitAt(r, Eval(r.index, rho));
  }

  lemma FoldModBranch(visit: Expr -> Expr, s: SplitExpr, c: int, rho: Valuation)
    requires Keeps(visit, rho) && Positive(s) && c > 0 && s.scale > 0 && Cancelling(s, c)
    ensures SplitValue(FoldMod(visit, s, c), rho) == ModBy(SplitValue(s, rho), c, s.mode)
  {
    var k, x := TruncDiv(c, s.scale), Eval(s.index, rho);
    var y, upper := DigitAt(s, x), s.lower * k;
    ScaledDivision(y, s.scale, c, s.mode);
    DigitReduced(s, k, x);
    DividesIntro(s.lower, upper, k);
    if s.upper.Fin? {
      TruncModZero(s.upper.k, upper);
      TruncModZero(upper, s.upper.k);
    }
    if s.upper.Inf? {
    } else if TruncMod(s.upper.k, upper) == 0 {
      ReducedTwice(x, s.upper, upper, s.mode);
      if upper < s.upper.k {
        VisitedDigit(visit, s, upper, rho);
        var updated := PlainSplit(visit(ModImpl(s.index, upper, s.mode)));
        RescaledValue(if s.lower > 1 then SplitDivConst(updated, s.lower, s.mode) else updated, s.scale, rho);
      } else {
        assert DigitAt(s.(upper := Fin(upper)), x) == DivBy(ModBy(x, upper, s.mode), s.lower, s.mode);
      }
    } else if TruncMod(upper, s.upper.k) == 0 {
      ReducedBound(x, s.upper, s.mode);
      DividesBound(s.upper.k, upper);
      SmallBy(Reduced(x, s.upper, s.mode), upper, s.mode);
    } else {
      ReducedPlainValue(s, c, rho);
    }
  }

  lemma ReducedPlainValue(s: SplitExpr, c: int, rho: Valuation)
    requires Valid(s) && c > 0
    ensures Valid(ReducedPlain(s, c)) && SplitValue(ReducedPlain(s, c), rho) == ModBy(SplitValue(s, rho), c, s.mode)
  {
    NormalizeSplitValue(s, 1, rho);
    DividesIntro(1, c, c);
    ExactBy(ModBy(SplitValue(s, rho), c, s.mode), 1, s.mode);
  }

  lemma FoldModValid(visit: Expr -> Expr, s: SplitExpr, c: int, rho: Valuation)
    requires Keeps(visit, rho) && Valid(s) && c > 0
    ensures Valid(FoldMod(visit, s, c))
  {
    if Cancelling(s, c) {
      CancelledFactor(s, c);
      VisitedDigit(visit, s, s.lower * TruncDiv(c, s.scale), rho);
    }
    ReducedPlainValue(s, c, rho);
  }

  lemma FoldModValue(visit: Expr -> Expr, s: SplitExpr, c: int, rho: Valuation)
    requires Keeps(visit, rho) && Valid(s) && c > 0 && FoldsPositive(s, c)
    ensures SplitValue(FoldMod(visit, s, c), rho) == ModBy(SplitValue(s, rho), c, s.mode)
  {
    if TruncMod(s.scale, c) == 0 {
      DivisibleScale(DigitAt(s, Eval(s.index, rho)), s.scale, c, s.mode);
    } else if Cancelling(s, c) {
      FoldModBranch(visit, s, c, rho);
    } else {
      ReducedPlainValue(s, c, rho);
    }
  }
}
