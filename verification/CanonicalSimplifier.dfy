/**
 The expression visitors of src/arith/canonical_simplify.cc over +, -, *, and the
 four division operators. The bound analyses, the prover and the recursive
 simplification of sub-expressions are a parameter assumed sound.
 */
module CanonicalSimplifier {
  import opened Options
  import opened IntOperator
  import opened DivModLaws
  import opened DivModes
  import opened Exprs
  import opened CanonicalForm
  import opened SplitFolding
  import opened NegativeScale

  datatype Oracle = Oracle(
    visit: Expr -> Expr,
    proves: Cond -> bool,
    least: Expr -> Option<int>,
    most: Expr -> Option<int>)

  /** Everything the oracle says is true at `rho`. */
  ghost predicate Sound(o: Oracle, rho: Valuation) {
    && Keeps(o.visit, rho)
    && (forall c :: o.proves(c) ==> Holds(c, rho))
    && (forall e :: o.least(e).Some? ==> o.least(e).value <= Eval(e, rho))
    && (forall e :: o.most(e).Some? ==> Eval(e, rho) <= o.most(e).value)
  }

  // ----- what mutation returns -----

  datatype Canon = Plain(e: Expr) | Split(split: SplitExpr) | Sum(sum: SumExpr)

  ghost predicate Good(c: Canon) {
    match c
    case Plain(_) => true
    case Split(s) => Valid(s)
    case Sum(s) => AllValid(s.args)
  }

  function CanonValue(c: Canon, rho: Valuation): int {
    match c
    case Plain(e) => Eval(e, rho)
    case Split(s) => SplitValue(s, rho)
    case Sum(s) => SumValue(s, rho)
  }

  function Normalize(c: Canon): Expr {
    match c
    case Plain(e) => e
    case Split(s) => NormalizeSplit(s, 1)
    case Sum(s) => NormalizeSum(s)
  }

  function ToSplitExpr(c: Canon): SplitExpr {
    match c
    case Split(s) => s
    case Sum(s) => if s.base == 0 && |s.args| == 1 then s.args[0] else PlainSplit(NormalizeSum(s))
    case Plain(e) => PlainSplit(e)
  }

  function ToSumExpr(c: Canon): SumExpr {
    match c
    case Sum(s) => s
    case Plain(Const(k)) => SumExpr([], k)
    case _ => SumExpr([ToSplitExpr(c)], 0)
  }

  lemma NormalizeValue(c: Canon, rho: Valuation)
    requires Good(c)
    ensures Eval(Normalize(c), rho) == CanonValue(c, rho)
  {
    match c
    case Plain(_) =>
    case Split(s) => NormalizeSplitValue(s, 1, rho);
    case Sum(s) => NormalizeSumValue(s, rho);
  }

  lemma ToSplitValue(c: Canon, rho: Valuation)
    requires Good(c)
    ensures Valid(ToSplitExpr(c)) && SplitValue(ToSplitExpr(c), rho) == CanonValue(c, rho)
  {
    match c
    case Split(_) =>
    case Sum(s) =>
      if s.base == 0 && |s.args| == 1 {
        assert s.args == [s.args[0]];
        TotalSingle(s.args[0], MeasureOf(rho));
      } else {
        NormalizeSumValue(s, rho);
        PlainValue(PlainSplit(NormalizeSum(s)), rho);
      }
    case Plain(e) => PlainValue(PlainSplit(e), rho);
  }

  lemma ToSumValue(c: Canon, rho: Valuation)
    requires Good(c)
    ensures AllValid(ToSumExpr(c).args) && SumValue(ToSumExpr(c), rho) == CanonValue(c, rho)
  {
    if !c.Sum? && !(c.Plain? && c.e.Const?) {
      ToSplitValue(c, rho);
      TotalSingle(ToSplitExpr(c), MeasureOf(rho));
    }
  }

  predicate IsConst(c: Canon, k: int) {
    c == Plain(Const(k))
  }

  // ----- addition, subtraction, multiplication -----

  /** a + scale * b, with scale 1 or -1. */
  function AddCanon(a: Canon, b: Canon, scale: int): Canon {
    if a.Plain? && a.e.Const? && b.Plain? && b.e.Const? then Plain(Const(a.e.value + scale * b.e.value))
    else if IsConst(a, 0) && scale == 1 then b
    else if IsConst(b, 0) then a
    else
      var lhs := ToSumExpr(a);
      if b.Plain? && b.e.Const? then Sum(lhs.(base := lhs.base + scale * b.e.value))
      else if b.Sum? then Sum(AddSum(lhs, b.sum, scale))
      else Sum(lhs.(args := AddSplit(lhs.args, ToSplitExpr(b), scale)))
  }

  lemma AddToSum(lhs: SumExpr, b: Canon, scale: int, rho: Valuation)
    requires AllValid(lhs.args) && Good(b) && !(b.Plain? && b.e.Const?)
    ensures var r := if b.Sum? then AddSum(lhs, b.sum, scale)
      else lhs.(args := AddSplit(lhs.args, ToSplitExpr(b), scale));
      AllValid(r.args) && SumValue(r, rho) == SumValue(lhs, rho) + CanonValue(b, rho) * scale
  {
    if b.Sum? {
      AddSumValue(lhs, b.sum, scale, rho);
      AddArgsValid(lhs.args, b.sum.args, scale);
    } else {
      ToSplitValue(b, rho);
      AddSplitValue(lhs.args, ToSplitExpr(b), scale, rho);
      AddSplitValid(lhs.args, ToSplitExpr(b), scale);
    }
  }

  lemma AddCanonValue(a: Canon, b: Canon, scale: int, rho: Valuation)
    requires Good(a) && Good(b) && (scale == 1 || scale == -1)
    ensures Good(AddCanon(a, b, scale))
    ensures CanonValue(AddCanon(a, b, scale), rho) == CanonValue(a, rho) + scale * CanonValue(b, rho)
  {
    if (a.Plain? && a.e.Const? && b.Plain? && b.e.Const?) || (IsConst(a, 0) && scale == 1) || IsConst(b, 0) {
    } else {
      ToSumValue(a, rho);
      if !(b.Plain? && b.e.Const?) {
        AddToSum(ToSumExpr(a), b, scale, rho);
        Commute(CanonValue(b, rho), scale);
      }
    }
  }

  function TimesConst(a: Canon, k: int): Canon {
    if a.Plain? && a.e.Const? then Plain(Const(a.e.value * k))
    else if k == 1 then a
    else if k == 0 then Plain(Const(0))
    else if a.Sum? then Sum(MulSum(a.sum, k))
    else
      var s := ToSplitExpr(a);
      Split(s.(scale := s.scale * k))
  }

  function MulCanon(a: Canon, b: Canon): Canon {
    if b.Plain? && b.e.Const? then TimesConst(a, b.e.value)
    else if a.Plain? && a.e.Const? then TimesConst(b, a.e.value)
    else Plain(Mul(Normalize(a), Normalize(b)))
  }

  lemma TimesConstValue(a: Canon, k: int, rho: Valuation)
    requires Good(a)
    ensures Good(TimesConst(a, k)) && CanonValue(TimesConst(a, k), rho) == CanonValue(a, rho) * k
  {
    if !(a.Plain? && a.e.Const?) && k != 1 && k != 0 {
      if a.Sum? {
        MulSumValue(a.sum, k, rho);
        assert forall i :: 0 <= i < |a.sum.args| ==> Valid(a.sum.args[i]);
      } else {
        ToSplitValue(a, rho);
        RescaledValue(ToSplitExpr(a), k, rho);
      }
    }
  }

  lemma MulPlainValue(a: Canon, b: Canon, rho: Valuation)
    requires Good(a) && Good(b)
    ensures CanonValue(Plain(Mul(Normalize(a), Normalize(b))), rho) == CanonValue(a, rho) * CanonValue(b, rho)
  {
    NormalizeValue(a, rho);
    NormalizeValue(b, rho);
    var p, q := Normalize(a), Normalize(b);
    assert Eval(Mul(p, q), rho) == Eval(p, rho) * Eval(q, rho);
  }

  lemma MulCanonValue(a: Canon, b: Canon, rho: Valuation)
    requires Good(a) && Good(b)
    ensures Good(MulCanon(a, b)) && CanonValue(MulCanon(a, b), rho) == CanonValue(a, rho) * CanonValue(b, rho)
  {
    if b.Plain? && b.e.Const? {
      TimesConstValue(a, b.e.value, rho);
    } else if a.Plain? && a.e.Const? {
      TimesConstValue(b, a.e.value, rho);
      Commute(CanonValue(b, rho), a.e.value);
    } else {
      MulPlainValue(a, b, rho);
    }
  }

  lemma Commute(x: int, y: int)
    ensures x * y == y * x
  {
  }

  // ----- separating the divisible part -----

  predicate ByConst(s: SplitExpr, c: int)
    requires c > 0
  {
    TruncMod(s.scale, c) == 0
  }

  function Select(args: seq<SplitExpr>, c: int, divisible: bool): seq<SplitExpr>
    requires c > 0
  {
    if args == [] then [] else
      var k := |args| - 1;
      Select(args[..k], c, divisible) + if ByConst(args[k], c) == divisible then [args[k]] else []
  }

  /** SeparateDivisibleParts. */
  function Divisible(sum: SumExpr, c: int): SumExpr
    requires c > 0
  {
    SumExpr(Select(sum.args, c, true), if TruncMod(sum.base, c) == 0 then sum.base else 0)
  }

  function NonDivisible(sum: SumExpr, c: int): SumExpr
    requires c > 0
  {
    SumExpr(Select(sum.args, c, false), if TruncMod(sum.base, c) == 0 then 0 else sum.base)
  }

  lemma {:induction false} SelectLaws(args: seq<SplitExpr>, c: int, t: Measure)
    requires c > 0
    ensures Total(Select(args, c, true), t) + Total(Select(args, c, false), t) == Total(args, t)
    ensures forall i :: 0 <= i < |Select(args, c, true)| ==> ByConst(Select(args, c, true)[i], c)
  {
    if args != [] {
      var k := |args| - 1;
      SelectLaws(args[..k], c, t);
      TotalAppend(Select(args[..k], c, true), [args[k]], t);
      TotalAppend(Select(args[..k], c, false), [args[k]], t);
      TotalSingle(args[k], t);
      assert Select(args[..k], c, true) + [] == Select(args[..k], c, true);
      assert Select(args[..k], c, false) + [] == Select(args[..k], c, false);
    }
  }

  lemma {:induction false} SelectValid(args: seq<SplitExpr>, c: int, divisible: bool)
    requires c > 0 && AllValid(args)
    ensures AllValid(Select(args, c, divisible))
  {
    if args != [] { SelectValid(args[..|args| - 1], c, divisible); }
  }

  lemma ZeroDivides(c: int)
    requires c > 0
    ensures TruncMod(0, c) == 0
  {
    TruncLaw(0, c);
  }

  /** The two parts add up to the sum and the first is c times its exact quotient. */
  lemma SeparateValue(sum: SumExpr, c: int, rho: Valuation)
    requires c > 0 && AllValid(sum.args)
    ensures SumValue(Divisible(sum, c), rho) + SumValue(NonDivisible(sum, c), rho) == SumValue(sum, rho)
    ensures AllValid(Divisible(sum, c).args) && AllValid(NonDivisible(sum, c).args)
    ensures DivisibleBy(Divisible(sum, c), c)
    ensures SumValue(DivideSum(Divisible(sum, c), c), rho) * c == SumValue(Divisible(sum, c), rho)
    ensures AllValid(DivideSum(Divisible(sum, c), c).args)
  {
    SelectLaws(sum.args, c, MeasureOf(rho));
    SelectValid(sum.args, c, true);
    SelectValid(sum.args, c, false);
    ZeroDivides(c);
    forall i | 0 <= i < |Divisible(sum, c).args| ensures TruncMod(Divisible(sum, c).args[i].scale, c) == 0 {
      assert ByConst(Divisible(sum, c).args[i], c);
    }
    DivideSumValue(Divisible(sum, c), c, rho);
  }

  // ----- division and remainder by a positive constant -----

  /** Either the result, or the split still to be folded. */
  datatype Step = Done(result: Canon) | Fold(split: SplitExpr)

  predicate NonNegative(o: Oracle, e: Expr) {
    o.proves(Cmp(GE, e, Const(0)))
  }

  predicate Below(o: Oracle, e: Expr, c: int) {
    o.proves(Cmp(LT, e, Const(c)))
  }

  /** 0 <= a < c by its constant bounds. */
  predicate Within(o: Oracle, e: Expr, c: int) {
    o.least(e).Some? && o.least(e).value >= 0 && o.most(e).Some? && o.most(e).value < c
  }

  /** The quotient of the divisible part plus that of the rest. */
  function WithExtra(o: Oracle, quotient: SumExpr, extra: SumExpr, c: int, mode: DivMode): Canon
    requires c > 0
  {
    var temp := NormalizeSum(extra);
    if extra == SumExpr([], 0) then Sum(quotient)
    else if temp.Const? then Sum(quotient.(base := quotient.base + DivBy(temp.value, c, mode)))
    else if Below(o, temp, c) && (mode == TruncMode || NonNegative(o, temp)) then Sum(quotient)
    else Sum(quotient.(args := AddSplit(quotient.args, SplitDivConst(PlainSplit(temp), c, mode), 1)))
  }

  function DivideParts(o: Oracle, sum: SumExpr, c: int, mode: DivMode): Canon
    requires c > 0 && DivisibleBy(Divisible(sum, c), c)
  {
    WithExtra(o, DivideSum(Divisible(sum, c), c), NonDivisible(sum, c), c, mode)
  }

  /** The parts may be divided separately: always when flooring, both non-negative when truncating. */
  predicate Separable(o: Oracle, sum: SumExpr, c: int, mode: DivMode)
    requires c > 0
  {
    || mode == FloorMode
    || NonDivisible(sum, c) == SumExpr([], 0)
    || (NonNegative(o, NormalizeSum(Divisible(sum, c))) && NonNegative(o, NormalizeSum(NonDivisible(sum, c))))
  }

  function DivStep(o: Oracle, a: Canon, c: int, mode: DivMode): Step
    requires c > 0
  {
    if c == 1 then Done(a)
    else if a.Sum? && DivisibleBy(Divisible(a.sum, c), c) &&
      Separable(o, a.sum, c, mode) then Done(DivideParts(o, a.sum, c, mode))
    else if !a.Sum? && Within(o, Normalize(a), c) then Done(Plain(Const(0)))
    else Fold(ToSplitExpr(a))
  }

  function DivCanon(o: Oracle, a: Canon, c: int, mode: DivMode): Canon
    requires c > 0
  {
    match DivStep(o, a, c, mode)
    case Done(r) => r
    case Fold(s) => Split(SplitDivConst(s, c, mode))
  }

  /** The remainder keeps only the part that the divisor does not divide. */
  function ModStep(o: Oracle, a: Canon, c: int, mode: DivMode): Step
    requires c > 0
  {
    if a.Sum? then
      var extra := NonDivisible(a.sum, c);
      var temp := NormalizeSum(extra);
      if mode == TruncMode && extra == SumExpr([], 0) then Done(Plain(Const(0)))
      else if Separable(o, a.sum, c, mode) then
        if temp.Const? then Done(Plain(Const(ModBy(temp.value, c, mode))))
        else if Below(o, temp, c) && (mode == TruncMode || NonNegative(o, temp)) then Done(Plain(temp))
        else Fold(ToSplitExpr(Sum(Rebased(o, extra, c, mode))))
      else Fold(ToSplitExpr(Sum(Rebased(o, a.sum, c, mode))))
    else if Within(o, Normalize(a), c) then Done(a)
    else Fold(ToSplitExpr(a))
  }

  /** The constant offset reduced by the divisor, where that keeps the remainder. */
  function Rebased(o: Oracle, sum: SumExpr, c: int, mode: DivMode): SumExpr
    requires c > 0
  {
    var base := ModBy(sum.base, c, mode);
    var low := o.least(NormalizeSum(sum));
    if mode == FloorMode ||
      (low.Some? && low.value >= 0 && low.value - sum.base + base >= 0) then sum.(base := base) else sum
  }

  function ModCanon(o: Oracle, a: Canon, c: int, mode: DivMode): Canon
    requires c > 0
  {
    match ModStep(o, a, c, mode)
    case Done(r) => r
    case Fold(s) => Split(SplitModConst(o.visit, s, c, mode))
  }

  /** The fold is right. */
  predicate RightStep(step: Step, c: int, mode: DivMode, quotient: bool)
    requires c > 0
  {
    step.Fold? ==> if quotient then DivFoldsRight(step.split, c, mode) else ModFoldsRight(step.split, c, mode)
  }

  lemma ProvedBounds(o: Oracle, e: Expr, c: int, rho: Valuation)
    requires Sound(o, rho)
    ensures NonNegative(o, e) ==> Eval(e, rho) >= 0
    ensures Below(o, e, c) ==> Eval(e, rho) < c
    ensures Within(o, e, c) ==> 0 <= Eval(e, rho) < c
  {
    assert Eval(Const(0), rho) == 0 && Eval(Const(c), rho) == c;
    assert NonNegative(o, e) ==> Holds(Cmp(GE, e, Const(0)), rho);
    assert Below(o, e, c) ==> Holds(Cmp(LT, e, Const(c)), rho);
  }

  /** Non-negative parts, needed by truncation. */
  lemma SeparableSigns(o: Oracle, sum: SumExpr, c: int, mode: DivMode, rho: Valuation)
    requires Sound(o, rho) && c > 0 && AllValid(sum.args) && Separable(o, sum, c, mode) && mode == TruncMode
    ensures NonDivisible(sum, c) == SumExpr([], 0) ||
      (SumValue(Divisible(sum, c), rho) >= 0 && SumValue(NonDivisible(sum, c), rho) >= 0)
  {
    SeparateValue(sum, c, rho);
    NormalizeSumValue(Divisible(sum, c), rho);
    NormalizeSumValue(NonDivisible(sum, c), rho);
    ProvedBounds(o, NormalizeSum(Divisible(sum, c)), c, rho);
    ProvedBounds(o, NormalizeSum(NonDivisible(sum, c)), c, rho);
  }

  lemma PartsArithmetic(v: int, d: int, q: int, x: int, c: int, mode: DivMode)
    requires c > 0 && v == d + x && d == q * c && (mode == FloorMode || x == 0 || (d >= 0 && x >= 0))
    ensures DivBy(v, c, mode) == q + DivBy(x, c, mode) && ModBy(v, c, mode) == ModBy(x, c, mode)
  {
    if x == 0 {
      ExactBy(q, c, mode);
      ExactBy(0, c, mode);
    } else {
      AddMultipleBy(x, q, c, mode);
    }
  }

  /** Dividing the parts separately divides the sum. */
  lemma PartsQuotient(o: Oracle, sum: SumExpr, c: int, mode: DivMode, rho: Valuation)
    requires Sound(o, rho) && c > 0 && AllValid(sum.args) && Separable(o, sum, c, mode)
    ensures DivisibleBy(Divisible(sum, c), c)
    ensures DivBy(SumValue(sum, rho), c, mode) ==
      SumValue(DivideSum(Divisible(sum, c), c), rho) + DivBy(SumValue(NonDivisible(sum, c), rho), c, mode)
    ensures ModBy(SumValue(sum, rho), c, mode) == ModBy(SumValue(NonDivisible(sum, c), rho), c, mode)
  {
    SeparateValue(sum, c, rho);
    if mode == TruncMode { SeparableSigns(o, sum, c, mode, rho); }
    EmptyValue(NonDivisible(sum, c), rho);
    PartsArithmetic(SumValue(sum, rho), SumValue(Divisible(sum, c), rho),
      SumValue(DivideSum(Divisible(sum, c), c), rho),
      SumValue(NonDivisible(sum, c), rho), c, mode);
  }

  lemma EmptyValue(sum: SumExpr, rho: Valuation)
    ensures sum == SumExpr([], 0) ==> SumValue(sum, rho) == 0
  {
  }

  /** What the non-divisible part contributes to the quotient. */
  lemma ExtraQuotient(o: Oracle, quotient: SumExpr, extra: SumExpr, c: int, mode: DivMode, rho: Valuation)
    requires Sound(o, rho) && c > 0 && AllValid(quotient.args) && AllValid(extra.args)
    requires mode == FloorMode || extra == SumExpr([], 0) || SumValue(extra, rho) >= 0
    ensures Good(WithExtra(o, quotient, extra, c, mode))
    ensures CanonValue(WithExtra(o, quotient, extra, c, mode), rho) ==
      SumValue(quotient, rho) + DivBy(SumValue(extra, rho), c, mode)
  {
    var temp := NormalizeSum(extra);
    NormalizeSumValue(extra, rho);
    ProvedBounds(o, temp, c, rho);
    if extra == SumExpr([], 0) {
      ExactBy(0, c, mode);
    } else if temp.Const? {
    } else if Below(o, temp, c) && (mode == TruncMode || NonNegative(o, temp)) {
      SmallBy(Eval(temp, rho), c, mode);
    } else {
      PlainDivConst(temp, c, mode, rho);
      AddSplitValue(quotient.args, SplitDivConst(PlainSplit(temp), c, mode), 1, rho);
      AddSplitValid(quotient.args, SplitDivConst(PlainSplit(temp), c, mode), 1);
    }
  }

  lemma DividePartsValue(o: Oracle, sum: SumExpr, c: int, mode: DivMode, rho: Valuation)
    requires Sound(o, rho) && c > 0 && AllValid(sum.args) && Separable(o, sum, c, mode)
    ensures DivisibleBy(Divisible(sum, c), c)
    ensures Good(DivideParts(o, sum, c, mode))
    ensures CanonValue(DivideParts(o, sum, c, mode), rho) == DivBy(SumValue(sum, rho), c, mode)
  {
    SeparateValue(sum, c, rho);
    PartsQuotient(o, sum, c, mode, rho);
    if mode == TruncMode { SeparableSigns(o, sum, c, mode, rho); }
    ExtraQuotient(o, DivideSum(Divisible(sum, c), c), NonDivisible(sum, c), c, mode, rho);
  }

  /** The division visitors compute the quotient. */
  lemma DivCanonValue(o: Oracle, a: Canon, c: int, mode: DivMode, rho: Valuation)
    requires Sound(o, rho) && Good(a) && c > 0 && RightStep(DivStep(o, a, c, mode), c, mode, true)
    ensures Good(DivCanon(o, a, c, mode))
    ensures CanonValue(DivCanon(o, a, c, mode), rho) == DivBy(CanonValue(a, rho), c, mode)
  {
    if c == 1 {
      ExactBy(CanonValue(a, rho), 1, mode);
    } else if a.Sum? && DivisibleBy(Divisible(a.sum, c), c) && Separable(o, a.sum, c, mode) {
      DividePartsValue(o, a.sum, c, mode, rho);
    } else if !a.Sum? && Within(o, Normalize(a), c) {
      NormalizeValue(a, rho);
      ProvedBounds(o, Normalize(a), c, rho);
      SmallBy(CanonValue(a, rho), c, mode);
    } else {
      ToSplitValue(a, rho);
      SplitDivConstValue(ToSplitExpr(a), c, mode, rho);
    }
  }

  lemma RebasedValue(o: Oracle, sum: SumExpr, c: int, mode: DivMode, rho: Valuation)
    requires Sound(o, rho) && c > 0 && AllValid(sum.args)
    ensures AllValid(Rebased(o, sum, c, mode).args)
    ensures ModBy(SumValue(Rebased(o, sum, c, mode), rho), c, mode) == ModBy(SumValue(sum, rho), c, mode)
  {
    var base := ModBy(sum.base, c, mode);
    DivModBy(sum.base, c, mode);
    var q, v, w := DivBy(sum.base, c, mode), SumValue(sum, rho), SumValue(sum.(base := base), rho);
    assert v == w + q * c;
    NormalizeSumValue(sum, rho);
    if Rebased(o, sum, c, mode) != sum {
      if mode == FloorMode {
        AddMultipleBy(w, q, c, mode);
      } else {
        SameRemainder(v, w, q, c);
      }
    }
  }

  /** Non-negative numbers that differ by a multiple have the same truncated remainder. */
  lemma SameRemainder(v: int, w: int, q: int, c: int)
    requires c > 0 && v >= 0 && w >= 0 && v == w + q * c
    ensures ModBy(v, c, TruncMode) == ModBy(w, c, TruncMode)
  {
    TruncIs(v, c);
    TruncIs(w, c);
    AddMultipleDiv(w, q, c);
  }

  lemma ModStepFold(o: Oracle, sum: SumExpr, c: int, mode: DivMode, rho: Valuation)
    requires Sound(o, rho) && AllValid(sum.args) && c > 0
    requires ModFoldsRight(ToSplitExpr(Sum(Rebased(o, sum, c, mode))), c, mode)
    ensures var r := SplitModConst(o.visit, ToSplitExpr(Sum(Rebased(o, sum, c, mode))), c, mode);
      Valid(r) && SplitValue(r, rho) == ModBy(SumValue(sum, rho), c, mode)
  {
    RebasedValue(o, sum, c, mode, rho);
    ToSplitValue(Sum(Rebased(o, sum, c, mode)), rho);
    SplitModConstValue(o.visit, ToSplitExpr(Sum(Rebased(o, sum, c, mode))), c, mode, rho);
  }

  lemma ModSumValue(o: Oracle, sum: SumExpr, c: int, mode: DivMode, rho: Valuation)
    requires Sound(o, rho) && AllValid(sum.args) && c > 0 && RightStep(ModStep(o, Sum(sum), c, mode), c, mode, false)
    ensures Good(ModCanon(o, Sum(sum), c, mode))
    ensures CanonValue(ModCanon(o, Sum(sum), c, mode), rho) == ModBy(SumValue(sum, rho), c, mode)
  {
    SeparateValue(sum, c, rho);
    var extra := NonDivisible(sum, c);
    var temp := NormalizeSum(extra);
    NormalizeSumValue(extra, rho);
    ProvedBounds(o, temp, c, rho);
    if Separable(o, sum, c, mode) {
      PartsQuotient(o, sum, c, mode, rho);
      if mode == TruncMode { SeparableSigns(o, sum, c, mode, rho); }
      if mode == TruncMode && extra == SumExpr([], 0) {
        ExactBy(0, c, mode);
      } else if temp.Const? {
      } else if Below(o, temp, c) && (mode == TruncMode || NonNegative(o, temp)) {
        SmallBy(Eval(temp, rho), c, mode);
      } else {
        ModStepFold(o, extra, c, mode, rho);
      }
    } else {
      ModStepFold(o, sum, c, mode, rho);
    }
  }

  /** The remainder visitors compute the remainder. */
  lemma ModCanonValue(o: Oracle, a: Canon, c: int, mode: DivMode, rho: Valuation)
    requires Sound(o, rho) && Good(a) && c > 0 && RightStep(ModStep(o, a, c, mode), c, mode, false)
    ensures Good(ModCanon(o, a, c, mode))
    ensures CanonValue(ModCanon(o, a, c, mode), rho) == ModBy(CanonValue(a, rho), c, mode)
  {
    if a.Sum? {
      ModSumValue(o, a.sum, c, mode, rho);
    } else if Within(o, Normalize(a), c) {
      NormalizeValue(a, rho);
      ProvedBounds(o, Normalize(a), c, rho);
      SmallBy(CanonValue(a, rho), c, mode);
    } else {
      ToSplitValue(a, rho);
      SplitModConstValue(o.visit, ToSplitExpr(a), c, mode, rho);
    }
  }

  // ----- the whole expression -----

  function QuotientCanon(o: Oracle, a: Canon, b: Canon, mode: DivMode, quotient: bool): Canon {
    if a.Plain? && a.e.Const? && b.Plain? && b.e.Const? && b.e.value != 0 then
      Plain(Const(if quotient then DivBy(a.e.value, b.e.value, mode) else ModBy(a.e.value, b.e.value, mode)))
    else if IsConst(a, 0) then a
    else if IsConst(b, 1) then (if quotient then a else Plain(Const(0)))
    else if b.Plain? && b.e.Const? && b.e.value > 0 then
      if quotient then DivCanon(o, a, b.e.value, mode) else ModCanon(o, a, b.e.value, mode)
    else Plain(QuotientExpr(Normalize(a), Normalize(b), mode, quotient))
  }

  function QuotientExpr(a: Expr, b: Expr, mode: DivMode, quotient: bool): Expr {
    match (mode, quotient)
    case (TruncMode, true) => Div(a, b)
    case (TruncMode, false) => Mod(a, b)
    case (FloorMode, true) => Expr.FloorDiv(a, b)
    case (FloorMode, false) => Expr.FloorMod(a, b)
  }

  /** CanonicalMutate. */
  function Mutate(o: Oracle, e: Expr): Canon {
    match e
    case Const(_) => Plain(e)
    case Var(_) => Plain(e)
    case Add(a, b) => AddCanon(Mutate(o, a), Mutate(o, b), 1)
    case Sub(a, b) => AddCanon(Mutate(o, a), Mutate(o, b), -1)
    case Mul(a, b) => MulCanon(Mutate(o, a), Mutate(o, b))
    case Div(a, b) => QuotientCanon(o, Mutate(o, a), Mutate(o, b), TruncMode, true)
    case Mod(a, b) => QuotientCanon(o, Mutate(o, a), Mutate(o, b), TruncMode, false)
    case FloorDiv(a, b) => QuotientCanon(o, Mutate(o, a), Mutate(o, b), FloorMode, true)
    case FloorMod(a, b) => QuotientCanon(o, Mutate(o, a), Mutate(o, b), FloorMode, false)
    case _ => Plain(o.visit(e))
  }

  /** A division node whose folded split, if any, is right. */
  predicate RightQuotient(o: Oracle, a: Canon, b: Canon, mode: DivMode, quotient: bool) {
    b.Plain? && b.e.Const? && b.e.value > 0 ==>
      RightStep(if quotient then DivStep(o, a, b.e.value, mode)
        else ModStep(o, a, b.e.value, mode), b.e.value, mode, quotient)
  }

  /** Every division node of the expression is right. */
  predicate RightThroughout(o: Oracle, e: Expr) {
    match e
    case Add(a, b) => RightThroughout(o, a) && RightThroughout(o, b)
    case Sub(a, b) => RightThroughout(o, a) && RightThroughout(o, b)
    case Mul(a, b) => RightThroughout(o, a) && RightThroughout(o, b)
    case Div(a, b) => RightThroughout(o, a) && RightThroughout(o, b) &&
      RightQuotient(o, Mutate(o, a), Mutate(o, b), TruncMode, true)
    case Mod(a, b) => RightThroughout(o, a) && RightThroughout(o, b) &&
      RightQuotient(o, Mutate(o, a), Mutate(o, b), TruncMode, false)
    case FloorDiv(a, b) => RightThroughout(o, a) && RightThroughout(o, b) &&
      RightQuotient(o, Mutate(o, a), Mutate(o, b), FloorMode, true)
    case FloorMod(a, b) => RightThroughout(o, a) && RightThroughout(o, b) &&
      RightQuotient(o, Mutate(o, a), Mutate(o, b), FloorMode, false)
    case _ => true
  }

  function QuotientValue(x: int, y: int, mode: DivMode, quotient: bool): int {
    if y == 0 then 0 else if quotient then DivBy(x, y, mode) else ModBy(x, y, mode)
  }

  lemma QuotientExprValue(a: Expr, b: Expr, mode: DivMode, quotient: bool, rho: Valuation)
    ensures Eval(QuotientExpr(a, b, mode, quotient), rho) == QuotientValue(Eval(a, rho), Eval(b, rho), mode, quotient)
  {
    var x, y := Eval(a, rho), Eval(b, rho);
    if mode == TruncMode {
      assert Eval(Div(a, b), rho) == QuotientValue(x, y, TruncMode, true);
      assert Eval(Mod(a, b), rho) == QuotientValue(x, y, TruncMode, false);
    } else {
      assert Eval(Expr.FloorDiv(a, b), rho) == QuotientValue(x, y, FloorMode, true);
      assert Eval(Expr.FloorMod(a, b), rho) == QuotientValue(x, y, FloorMode, false);
    }
  }

  lemma QuotientCanonValue(o: Oracle, a: Canon, b: Canon, mode: DivMode, quotient: bool, rho: Valuation)
    requires Sound(o, rho) && Good(a) && Good(b) && RightQuotient(o, a, b, mode, quotient)
    ensures Good(QuotientCanon(o, a, b, mode, quotient))
    ensures CanonValue(QuotientCanon(o, a, b, mode, quotient), rho) ==
      QuotientValue(CanonValue(a, rho), CanonValue(b, rho), mode, quotient)
  {
    if a.Plain? && a.e.Const? && b.Plain? && b.e.Const? && b.e.value != 0 {
    } else if IsConst(a, 0) {
      if CanonValue(b, rho) != 0 { ExactBy(0, CanonValue(b, rho), mode); }
    } else if IsConst(b, 1) {
      ExactBy(CanonValue(a, rho), 1, mode);
    } else if b.Plain? && b.e.Const? && b.e.value > 0 {
      if quotient {
        DivCanonValue(o, a, b.e.value, mode, rho);
      } else {
        ModCanonValue(o, a, b.e.value, mode, rho);
      }
    } else {
      NormalizeValue(a, rho);
      NormalizeValue(b, rho);
      QuotientExprValue(Normalize(a), Normalize(b), mode, quotient, rho);
    }
  }

  /** A division node, by the canonical forms x and y of its operands. */
  lemma QuotientNode(o: Oracle, a: Expr, b: Expr, x: Canon, y: Canon, mode: DivMode, quotient: bool, rho: Valuation)
    requires Sound(o, rho) && RightQuotient(o, x, y, mode, quotient)
    requires Good(x) && Good(y) && CanonValue(x, rho) == Eval(a, rho) && CanonValue(y, rho) == Eval(b, rho)
    ensures var r := QuotientCanon(o, x, y, mode, quotient);
      Good(r) && CanonValue(r, rho) == Eval(QuotientExpr(a, b, mode, quotient), rho)
  {
    QuotientCanonValue(o, x, y, mode, quotient, rho);
    QuotientExprValue(a, b, mode, quotient, rho);
  }

  predicate IsDivision(e: Expr) {
    e.Div? || e.Mod? || e.FloorDiv? || e.FloorMod?
  }

  function ModeOf(e: Expr): DivMode {
    if e.Div? || e.Mod? then TruncMode else FloorMode
  }

  predicate IsQuotient(e: Expr) {
    e.Div? || e.FloorDiv?
  }

  /** Canonicalising a division node with canonicalised operands. */
  lemma DivisionNode(o: Oracle, e: Expr, rho: Valuation)
    requires IsDivision(e) && Sound(o, rho)
    requires RightQuotient(o, Mutate(o, e.a), Mutate(o, e.b), ModeOf(e), IsQuotient(e))
    requires Good(Mutate(o, e.a)) && CanonValue(Mutate(o, e.a), rho) == Eval(e.a, rho)
    requires Good(Mutate(o, e.b)) && CanonValue(Mutate(o, e.b), rho) == Eval(e.b, rho)
    ensures Good(Mutate(o, e)) && CanonValue(Mutate(o, e), rho) == Eval(e, rho)
  {
    assert e == QuotientExpr(e.a, e.b, ModeOf(e), IsQuotient(e));
    QuotientNode(o, e.a, e.b, Mutate(o, e.a), Mutate(o, e.b), ModeOf(e), IsQuotient(e), rho);
  }

  lemma SumNode(o: Oracle, e: Expr, x: Canon, y: Canon, rho: Valuation)
    requires (e.Add? || e.Sub? || e.Mul?) && x == Mutate(o, e.a) && y == Mutate(o, e.b)
    requires Good(x) && CanonValue(x, rho) == Eval(e.a, rho) && Good(y) && CanonValue(y, rho) == Eval(e.b, rho)
    ensures Good(Mutate(o, e)) && CanonValue(Mutate(o, e), rho) == Eval(e, rho)
  {
    match e
    case Add(_, _) => AddCanonValue(x, y, 1, rho);
    case Sub(_, _) => AddCanonValue(x, y, -1, rho);
    case Mul(_, _) => MulCanonValue(x, y, rho);
  }

  /** Canonicalising keeps the value of every expression whose divisions are right. */
  lemma {:induction false} MutateValue(o: Oracle, e: Expr, rho: Valuation)
    requires Sound(o, rho) && RightThroughout(o, e)
    ensures Good(Mutate(o, e)) && CanonValue(Mutate(o, e), rho) == Eval(e, rho)
  {
    if e.Add? || e.Sub? || e.Mul? {
      MutateValue(o, e.a, rho);
      MutateValue(o, e.b, rho);
      SumNode(o, e, Mutate(o, e.a), Mutate(o, e.b), rho);
    } else if IsDivision(e) {
      MutateValue(o, e.a, rho);
      MutateValue(o, e.b, rho);
      DivisionNode(o, e, rho);
    }
  }

  /** CanonicalSimplify: the normalised expression has the value of the original. */
  lemma SimplifyValue(o: Oracle, e: Expr, rho: Valuation)
    requires Sound(o, rho) && RightThroughout(o, e)
    ensures Eval(Normalize(Mutate(o, e)), rho) == Eval(e, rho)
  {
    MutateValue(o, e, rho);
    NormalizeValue(Mutate(o, e), rho);
  }

  // ----- an expression that reaches the hazard -----

  /** An oracle that knows nothing. */
  const Blank: Oracle := Oracle(e => e, c => false, e => None, e => None)

  /** (x // l) * s // c. */
  function ScaledFloor(name: string, l: int, s: int, c: int): Expr {
    Expr.FloorDiv(Mul(Expr.FloorDiv(Var(name), Const(l)), Const(s)), Const(c))
  }

  /** Its dividend as a split. */
  function ScaledSplit(name: string, l: int, s: int): SplitExpr {
    PlainSplit(Var(name)).(lower := l, scale := s, mode := FloorMode)
  }

  lemma ScaledDivisor(name: string, l: int)
    requires l > 1
    ensures SplitDivConst(PlainSplit(Var(name)), l, FloorMode) == ScaledSplit(name, l, 1)
  {
    TruncLaw(1, l);
    TruncLaw(l, 1);
    assert TruncMod(1, l) == 1 && TruncMod(l, 1) == 0 && TruncDiv(l, 1) == l;
  }

  lemma UnscaledDividend(name: string, l: int)
    requires l > 1
    ensures Mutate(Blank, Expr.FloorDiv(Var(name), Const(l))) == Split(ScaledSplit(name, l, 1))
  {
    assert Mutate(Blank, Var(name)) == Plain(Var(name)) && Mutate(Blank, Const(l)) == Plain(Const(l));
    assert DivStep(Blank, Plain(Var(name)), l, FloorMode) == Fold(PlainSplit(Var(name)));
    ScaledDivisor(name, l);
  }

  lemma ScaledDividend(name: string, l: int, s: int)
    requires l > 1 && s < 0
    ensures Mutate(Blank, Mul(Expr.FloorDiv(Var(name), Const(l)), Const(s))) == Split(ScaledSplit(name, l, s))
  {
    UnscaledDividend(name, l);
    assert Mutate(Blank, Const(s)) == Plain(Const(s));
    assert TimesConst(Split(ScaledSplit(name, l, 1)), s) == Split(ScaledSplit(name, l, s));
  }

  lemma ScaledResult(name: string, l: int, s: int, c: int)
    requires l > 1 && s < 0 && c > 1
    ensures Mutate(Blank, ScaledFloor(name, l, s, c)) == Split(FoldDiv(ScaledSplit(name, l, s), c))
  {
    ScaledDividend(name, l, s);
    assert Mutate(Blank, Const(c)) == Plain(Const(c));
  }

  lemma ScaledValues(name: string, l: int, s: int, c: int, rho: Valuation)
    requires l > 1 && c > 1
    ensures Eval(ScaledFloor(name, l, s, c), rho) == DivBy(SplitValue(ScaledSplit(name, l, s), rho), c, FloorMode)
  {
    var q := Expr.FloorDiv(Var(name), Const(l));
    assert Eval(Const(l), rho) == l && Eval(Const(s), rho) == s && Eval(Const(c), rho) == c &&
      Eval(Var(name), rho) == rho(name);
    assert Eval(q, rho) == IntOperator.FloorDiv(rho(name), l);
    assert Eval(Mul(q, Const(s)), rho) == Eval(q, rho) * s;
  }

  /** The simplifier, knowing nothing, keeps the value of e. */
  ghost predicate KeptByBlank(e: Expr, rho: Valuation) {
    Eval(Normalize(Mutate(Blank, e)), rho) == Eval(e, rho)
  }

  lemma ScaledAt(name: string, l: int, s: int, c: int, rho: Valuation)
    requires l > 1 && s < 0 && c > 1
    ensures KeptByBlank(ScaledFloor(name, l, s, c), rho) <==>
      SplitValue(FoldDiv(ScaledSplit(name, l, s), c), rho) ==
        DivBy(SplitValue(ScaledSplit(name, l, s), rho), c, FloorMode)
  {
    ScaledResult(name, l, s, c);
    FoldDivValid(ScaledSplit(name, l, s), c);
    NormalizeSplitValue(FoldDiv(ScaledSplit(name, l, s), c), 1, rho);
    ScaledValues(name, l, s, c, rho);
  }

  /** It keeps (x // l) * s // c for every x exactly when the fold is right. */
  lemma ScaledFloorExactness(name: string, l: int, s: int, c: int)
    requires l > 1 && s < 0 && c > 1
    ensures (forall rho: Valuation :: KeptByBlank(ScaledFloor(name, l, s, c), rho)) <==>
      !(TruncMod(s, c) != 0 && TruncMod(c, s) == 0)
  {
    var split := ScaledSplit(name, l, s);
    assert DivIsRight(split, c) <==> !(TruncMod(s, c) != 0 && TruncMod(c, s) == 0);
    FoldDivExactness(name, split, c);
    forall rho: Valuation
      ensures KeptByBlank(ScaledFloor(name, l, s, c), rho) <==>
        SplitValue(FoldDiv(split, c), rho) == DivBy(SplitValue(split, rho), c, split.mode)
    {
      ScaledAt(name, l, s, c, rho);
    }
  }
}
