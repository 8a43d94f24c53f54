/**
 Dividing one iterator split plus an offset by a constant, in src/arith/iter_affine_map.cc:
 the rules for quotient and remainder, and exactly when they keep the value.
 */
module IterDivision {
  import opened IntOperator
  import opened DivModLaws
  import opened Radix
  import opened Exprs
  import opened IterMapExprs

  // ----- (split + base) // rhs and (split + base) % rhs -----

  /**
   Padding. The pass that collects padding enlarges the extent to a multiple of
   the divisor; a pass with no padding recorded leaves the split alone but still
   reports the offset of the base as left padding.
   */
  function PadDividendToDivisor(p: IterSplit, base: int, divisor: int, updating: bool): (IterSplit, int)
    requires divisor != 0
  {
    var leftPad := IntOperator.FloorMod(base, divisor);
    if !updating then (p, leftPad) else
    var rightEdge := leftPad + p.extent;
    var rightPad := if CanProveDivisible(rightEdge, divisor) then 0 else IntOperator.FloorMod(-rightEdge, divisor);
    if leftPad == 0 && rightPad == 0 then (p, 0)
    else (p.(extent := leftPad + p.extent + rightPad), leftPad)
  }

  /** The unscaled tail of SplitFloorDivConst. */
  function DivUnitScale(p: IterSplit, base: int, rhs: int, updating: bool): Mutated
    requires rhs != 0
  {
    var (padded, leftPad) := PadDividendToDivisor(p, base, rhs, updating);
    var newSplit :=
      if CanProveDivisible(padded.extent, rhs) then
        IterSplit(padded.mark, padded.lower * rhs, IntOperator.FloorDiv(padded.extent, rhs), padded.scale)
      else if padded.lower == 1 && padded.extent == padded.mark.extent then
        IterSplit(padded.mark, rhs, IntOperator.FloorDiv(padded.extent + rhs - 1, rhs), padded.scale)
      else
        IterSplit(IterMark(SumSource(IterSum([padded], 0)), padded.extent), rhs,
          IntOperator.FloorDiv(padded.extent + rhs - 1, rhs), 1);
    var newBase := IntOperator.FloorDiv(base - leftPad, rhs);
    if newBase == 0 then One(newSplit) else Many(IterSum([newSplit], newBase))
  }

  function SplitFloorDivConst(p: IterSplit, base: int, rhs: int, updating: bool): Mutated
    requires rhs != 0
  {
    if rhs == 1 then
      if base == 0 then One(p) else Many(IterSum([p], base))
    else if p.scale == 1 then DivUnitScale(p, base, rhs, updating)
    else if CanProveDivisible(p.scale, rhs) && base == 0 then
      One(p.(scale := IntOperator.FloorDiv(p.scale, rhs)))
    else if CanProveDivisible(p.scale, rhs) && CanProveDivisible(base, rhs) then
      Many(IterSum([p.(scale := IntOperator.FloorDiv(p.scale, rhs))], IntOperator.FloorDiv(base, rhs)))
    else if CanProveDivisible(rhs, p.scale) && base == 0 then
      DivUnitScale(p.(scale := 1), base, Nonzero(IntOperator.FloorDiv(rhs, p.scale)), updating)
    else if CanProveDivisible(rhs, p.scale) && CanProveDivisible(base, p.scale) then
      DivUnitScale(p.(scale := 1), IntOperator.FloorDiv(base, p.scale),
        Nonzero(IntOperator.FloorDiv(rhs, p.scale)), updating)
    else Unresolved
  }

  /** A divisor known to be nonzero because it divides a nonzero number exactly. */
  function Nonzero(k: int): (r: int)
    ensures r != 0 && (k != 0 ==> r == k)
  {
    if k == 0 then 1 else k
  }

  function SplitFloorModConst(p: IterSplit, base: int, rhs: int, updating: bool): Mutated
    requires rhs != 0
  {
    if rhs == 1 then Plain(0)
    else if p.scale == 1 then ModUnitScale(p, base, rhs, updating)
    else if CanProveDivisible(p.scale, rhs) && CanProveDivisible(base, rhs) then Plain(0)
    else if CanProveDivisible(rhs, p.scale) && base == 0 then
      ModUnitScale(p, base, Nonzero(IntOperator.FloorDiv(rhs, p.scale)), updating)
    else if CanProveDivisible(rhs, p.scale) && CanProveDivisible(base, p.scale) then
      ModUnitScale(p, IntOperator.FloorDiv(base, p.scale), Nonzero(IntOperator.FloorDiv(rhs, p.scale)), updating)
    else Unresolved
  }

  function ModUnitScale(p: IterSplit, base: int, rhs: int, updating: bool): Mutated
    requires rhs != 0
  {
    var (padded, _) := PadDividendToDivisor(p, base, rhs, updating);
    One(IterSplit(padded.mark, padded.lower, rhs, padded.scale))
  }

  function DivideSplit(p: IterSplit, base: int, rhs: int, quotient: bool): Mutated
    requires rhs != 0
  {
    if quotient then SplitFloorDivConst(p, base, rhs, false) else SplitFloorModConst(p, base, rhs, false)
  }

  function Divide(x: int, c: int, quotient: bool): int {
    if c == 0 then 0 else if quotient then IntOperator.FloorDiv(x, c) else IntOperator.FloorMod(x, c)
  }

  // ----- the exact condition, on numbers -----

  function CeilingQuotient(e: int, rhs: int): (k: int)
    requires e > 0 && rhs > 0
    ensures k > 0 && (k - 1) * rhs < e <= rhs * k
  {
    if e % rhs == 0 then e / rhs else
      assert e == (e / rhs) * rhs + e % rhs;
      e / rhs + 1
  }

  function Least(a: int, b: int): int {
    if a < b then a else b
  }

  /**
   A split of positive factors over a mark with values below `top`: the offset pushes no
   digit across a multiple of the divisor; the divisor divides the offset, and the extent
   unless the digits never reach it.
   */
  predicate UnitRight(lower: int, extent: int, top: int, base: int, rhs: int, quotient: bool)
    requires lower > 0 && top > 0 && rhs > 0
  {
    var steps := CeilingQuotient(top, lower);
    if quotient then base % rhs + Least(Least(extent, steps), rhs) <= rhs
    else Divides(rhs, base) && (Divides(rhs, extent) || steps <= extent)
  }

  /** What the rules compute is right for the source value x. */
  predicate RuleAt(x: int, lower: int, extent: int, base: int, rhs: int, quotient: bool)
    requires lower > 0 && extent > 0 && rhs > 0
  {
    var z := x / lower;
    var y := z % extent;
    if quotient then y / rhs + base / rhs == (y + base) / rhs else z % rhs == (y + base) % rhs
  }

  lemma QuotientAt(y: int, base: int, rhs: int)
    requires rhs > 0
    ensures y / rhs + base / rhs == (y + base) / rhs <==> y % rhs + base % rhs < rhs
  {
    var q, r := y / rhs + base / rhs, y % rhs + base % rhs;
    assert y + base == q * rhs + r by { QuotientSum(y, base, rhs, y / rhs, base / rhs); }
    if r < rhs {
      DivModUnique(y + base, rhs, q, r);
    } else {
      assert (q + 1) * rhs == q * rhs + rhs;
      DivModUnique(y + base, rhs, q + 1, r - rhs);
    }
  }

  lemma QuotientSum(y: int, base: int, rhs: int, p: int, q: int)
    requires rhs > 0 && p == y / rhs && q == base / rhs
    ensures y + base == (p + q) * rhs + (y % rhs + base % rhs)
  {
    assert (p + q) * rhs == p * rhs + q * rhs;
  }

  lemma RemainderAt(y: int, base: int, rhs: int)
    requires rhs > 0
    ensures y % rhs == (y + base) % rhs <==> Divides(rhs, base)
  {
    var r, b := y % rhs, base % rhs;
    assert y + base == (y / rhs + base / rhs) * rhs + (r + b) by { QuotientSum(y, base, rhs, y / rhs, base / rhs); }
    var q := y / rhs + base / rhs;
    if r + b < rhs {
      DivModUnique(y + base, rhs, q, r + b);
    } else {
      assert (q + 1) * rhs == q * rhs + rhs;
      DivModUnique(y + base, rhs, q + 1, r + b - rhs);
    }
  }

  /** The digits below the number of steps are those the source values reach. */
  lemma Steps(x: int, lower: int, top: int)
    requires lower > 0 && 0 <= x < top
    ensures 0 <= x / lower < CeilingQuotient(top, lower)
  {
    QuotientBound(x, lower, CeilingQuotient(top, lower));
  }

  lemma Reached(z: int, lower: int, top: int)
    requires lower > 0 && top > 0 && 0 <= z < CeilingQuotient(top, lower)
    ensures 0 <= z * lower < top && (z * lower) / lower == z
  {
    var k := CeilingQuotient(top, lower);
    assert 0 <= z * lower <= (k - 1) * lower;
    DivModUnique(z * lower, lower, z, 0);
  }

  lemma SmallRemainder(y: int, n: int, rhs: int)
    requires rhs > 0 && 0 <= y < n
    ensures y % rhs < Least(n, rhs)
  {
    if y < rhs { DivModUnique(y, rhs, 0, y); }
  }

  /** At every source value the rules are right under the condition. */
  lemma RuleRight(x: int, lower: int, extent: int, top: int, base: int, rhs: int, quotient: bool)
    requires lower > 0 && extent > 0 && rhs > 0 && 0 <= x < top && UnitRight(lower, extent, top, base, rhs, quotient)
    ensures RuleAt(x, lower, extent, base, rhs, quotient)
  {
    var z, steps := x / lower, CeilingQuotient(top, lower);
    var y := z % extent;
    Steps(x, lower, top);
    if z < extent { DivModUnique(z, extent, 0, z); }
    if quotient {
      SmallRemainder(y, Least(extent, steps), rhs);
      QuotientAt(y, base, rhs);
    } else {
      RemainderAt(y, base, rhs);
      if Divides(rhs, extent) { SameRemainder(z, extent, rhs); }
    }
  }

  lemma SameRemainder(z: int, extent: int, rhs: int)
    requires extent > 0 && rhs > 0 && Divides(rhs, extent)
    ensures z % rhs == (z % extent) % rhs
  {
    var k := Quotient(extent, rhs);
    assert k > 0;
    ModSplit(z, k, rhs);
  }

  /** And only under it. */
  lemma RuleWrong(lower: int, extent: int, top: int, base: int, rhs: int, quotient: bool) returns (x: int)
    requires lower > 0 && extent > 0 && rhs > 0 && top > 0 && !UnitRight(lower, extent, top, base, rhs, quotient)
    ensures 0 <= x < top && !RuleAt(x, lower, extent, base, rhs, quotient)
  {
    var steps := CeilingQuotient(top, lower);
    var z;
    if quotient {
      z := Least(Least(extent, steps), rhs) - 1;
      DivModUnique(z, extent, 0, z);
      DivModUnique(z, rhs, 0, z);
      QuotientAt(z, base, rhs);
    } else if !Divides(rhs, base) {
      z := 0;
      RemainderAt(0, base, rhs);
    } else {
      z := extent;
      DivModUnique(extent, extent, 1, 0);
      RemainderAt(0, base, rhs);
    }
    Reached(z, lower, top);
    x := z * lower;
  }

  // ----- the rules at scale 1 -----

  /** A split, or a split and an offset. */
  function WithBase(q: IterSplit, base: int): Mutated {
    if base == 0 then One(q) else Many(IterSum([q], base))
  }

  lemma WithBaseMeans(q: IterSplit, base: int, iters: Iters, v: Valuation)
    ensures MutatedValue(WithBase(q, base), v) == SplitValue(q, v) + base
    ensures GoodMutated(WithBase(q, base), iters) <==> GoodSplit(q, iters)
  {
    SumIsList(IterSum([q], base), v);
    assert [q][..0] == [];
    assert ListValue([q], v) == SplitValue(q, v);
    if base != 0 { assert IterSum([q], base).args[0] == q; }
  }

  /** The split of the quotient. */
  function QuotientSplit(p: IterSplit, rhs: int): IterSplit
    requires rhs != 0
  {
    if CanProveDivisible(p.extent, rhs) then IterSplit(p.mark, p.lower * rhs,
      IntOperator.FloorDiv(p.extent, rhs), p.scale)
    else if p.lower == 1 && p.extent == p.mark.extent then
      IterSplit(p.mark, rhs, IntOperator.FloorDiv(p.extent + rhs - 1, rhs), p.scale)
    else IterSplit(IterMark(SumSource(IterSum([p], 0)), p.extent), rhs,
      IntOperator.FloorDiv(p.extent + rhs - 1, rhs), 1)
  }

  lemma DivUnitForm(p: IterSplit, base: int, rhs: int)
    requires rhs != 0
    ensures DivUnitScale(p, base, rhs, false) ==
      WithBase(QuotientSplit(p, rhs), IntOperator.FloorDiv(base - IntOperator.FloorMod(base, rhs), rhs))
  {
  }

  lemma BaseQuotient(base: int, rhs: int)
    requires rhs > 0
    ensures IntOperator.FloorDiv(base - IntOperator.FloorMod(base, rhs), rhs) == base / rhs
  {
    FloorIsEuclidean(base, rhs);
    FloorIsEuclidean(base - base % rhs, rhs);
    DivModUnique(base - base % rhs, rhs, base / rhs, 0);
  }

  lemma CeilingForm(e: int, rhs: int)
    requires e > 0 && rhs > 0
    ensures IntOperator.FloorDiv(e + rhs - 1, rhs) == CeilingQuotient(e, rhs)
  {
    var k := CeilingQuotient(e, rhs);
    FloorIsEuclidean(e + rhs - 1, rhs);
    assert (k - 1) * rhs == k * rhs - rhs && rhs * k == k * rhs;
    DivModUnique(e + rhs - 1, rhs, k, e + rhs - 1 - k * rhs);
  }

  /** The digit of the split divided by the divisor, in each of the three forms. */
  lemma QuotientSplitValue(p: IterSplit, rhs: int, iters: Iters, v: Valuation)
    requires GoodSplit(p, iters) && p.scale == 1 && rhs > 0 && InIters(iters, v)
    ensures SplitValue(QuotientSplit(p, rhs), v) == Digit(MarkValue(p.mark, v), p.Slot()) / rhs
  {
    var x, y := MarkValue(p.mark, v), Digit(MarkValue(p.mark, v), p.Slot());
    TruncModZero(p.extent, rhs);
    CeilingForm(p.extent, rhs);
    if Divides(rhs, p.extent) {
      ExactSplitValue(p, rhs, v);
    } else if p.lower == 1 && p.extent == p.mark.extent {
      assert x / 1 == x;
      DivModUnique(x, p.extent, 0, x);
      QuotientBound(x, rhs, CeilingQuotient(p.extent, rhs));
    } else {
      NestedMark(p, v);
      QuotientBound(y, rhs, CeilingQuotient(p.extent, rhs));
    }
  }

  lemma ExactSplitValue(p: IterSplit, rhs: int, v: Valuation)
    requires p.lower > 0 && p.extent > 0 && p.scale == 1 && rhs > 0 && Divides(rhs, p.extent)
    ensures p.lower * rhs > 0 && IntOperator.FloorDiv(p.extent, rhs) > 0
    ensures SplitValue(IterSplit(p.mark, p.lower * rhs, IntOperator.FloorDiv(p.extent, rhs), p.scale), v) ==
      Digit(MarkValue(p.mark, v), p.Slot()) / rhs
  {
    var x, k := MarkValue(p.mark, v), Quotient(p.extent, rhs);
    ExactDivision(p.extent, rhs);
    assert k > 0;
    DivDiv(x, p.lower, rhs);
    ModSplit(x / p.lower, k, rhs);
  }

  /** The mark that wraps one split of scale 1 has its digit as value. */
  lemma NestedMark(p: IterSplit, v: Valuation)
    requires p.scale == 1 && p.lower > 0 && p.extent > 0
    ensures MarkValue(IterMark(SumSource(IterSum([p], 0)), p.extent), v) == Digit(MarkValue(p.mark, v), p.Slot())
  {
    WithBaseMeans(p, 0, map[], v);
    SumIsList(IterSum([p], 0), v);
    assert [p][..0] == [];
    assert ListValue([p], v) == SplitValue(p, v);
  }

  lemma QuotientSplitGood(p: IterSplit, rhs: int, iters: Iters)
    requires GoodSplit(p, iters) && p.scale == 1 && rhs != 0
    ensures GoodSplit(QuotientSplit(p, rhs), iters) <==> rhs > 0
  {
    TruncModZero(p.extent, rhs);
    if rhs < 0 {
      assert p.lower * -rhs > 0;
    } else if Divides(rhs, p.extent) {
      ExactSplitValue(p, rhs, x => 0);
    } else {
      CeilingForm(p.extent, rhs);
      if !(p.lower == 1 && p.extent == p.mark.extent) { NestedMarkGood(p, iters); }
    }
  }

  lemma NestedMarkGood(p: IterSplit, iters: Iters)
    requires GoodSplit(p, iters) && p.scale == 1
    ensures GoodMark(IterMark(SumSource(IterSum([p], 0)), p.extent), iters)
  {
    var m := IterMark(SumSource(IterSum([p], 0)), p.extent);
    forall v: Valuation | InIters(iters, v) ensures 0 <= MarkValue(m, v) < m.extent { NestedMark(p, v); }
    assert GoodSum(IterSum([p], 0), iters);
  }

  // ----- every scale -----

  /** Positive factors. */
  predicate Sized(p: IterSplit) {
    p.lower > 0 && p.extent > 0 && p.mark.extent > 0
  }

  lemma GoodIsSized(p: IterSplit, iters: Iters)
    requires GoodSplit(p, iters)
    ensures Sized(p)
  {
    assert GoodMark(p.mark, iters);
  }

  predicate UnitRightFor(p: IterSplit, base: int, rhs: int, quotient: bool) {
    Sized(p) && rhs > 0 && UnitRight(p.lower, p.extent, p.mark.extent, base, rhs, quotient)
  }

  /** The scale and the offset are multiples of the divisor. */
  predicate Exact(p: IterSplit, base: int, rhs: int) {
    p.scale != 1 && Divides(rhs, p.scale) && Divides(rhs, base)
  }

  /** The divisor and the offset are multiples of the scale, which cancels. */
  predicate Coarse(p: IterSplit, base: int, rhs: int) {
    p.scale != 1 && p.scale != 0 && !Exact(p, base, rhs) && Divides(p.scale, rhs) && Divides(p.scale, base)
  }

  /**
   The rules keep the value and the positive factors, for dividends with a mark that takes all its values exactly then.
   */
  predicate Right(p: IterSplit, base: int, rhs: int, quotient: bool) {
    || rhs == 1
    || (p.scale == 1 && UnitRightFor(p, base, rhs, quotient))
    || Exact(p, base, rhs)
    || (Coarse(p, base, rhs) && UnitRightFor(p, Quotient(base, p.scale), Quotient(rhs, p.scale), quotient))
  }

  function ExactResult(p: IterSplit, base: int, rhs: int, quotient: bool): Mutated
    requires Exact(p, base, rhs)
  {
    if quotient then WithBase(p.(scale := Quotient(p.scale, rhs)), Quotient(base, rhs)) else Plain(0)
  }

  /** The rules for scale 1; the remainder keeps the scale. */
  function UnitResult(p: IterSplit, base: int, rhs: int, quotient: bool): Mutated
    requires rhs != 0
  {
    if quotient then DivUnitScale(p.(scale := 1), base, rhs, false) else ModUnitScale(p, base, rhs, false)
  }

  /** The rule taken, by the scale. */
  lemma Branches(p: IterSplit, base: int, rhs: int, quotient: bool)
    requires rhs != 0 && rhs != 1 && p.scale != 1
    ensures Exact(p, base, rhs) ==> DivideSplit(p, base, rhs, quotient) == ExactResult(p, base, rhs, quotient)
    ensures Coarse(p, base, rhs) ==>
      Quotient(rhs, p.scale) != 0 &&
        DivideSplit(p, base, rhs, quotient) == UnitResult(p, Quotient(base, p.scale), Quotient(rhs, p.scale), quotient)
    ensures DivideSplit(p, base, rhs, quotient).Unresolved? <==> !Exact(p, base, rhs) && !Coarse(p, base, rhs)
  {
    TruncModZero(p.scale, rhs);
    TruncModZero(base, rhs);
    if Exact(p, base, rhs) {
      ExactDivision(p.scale, rhs);
      ExactDivision(base, rhs);
    }
    if p.scale != 0 {
      TruncModZero(rhs, p.scale);
      TruncModZero(base, p.scale);
    }
    if base == 0 { DividesIntro(rhs, 0, 0); DividesIntro(p.scale, 0, 0); }
    if Coarse(p, base, rhs) {
      ExactDivision(rhs, p.scale);
      ExactDivision(base, p.scale);
      assert Quotient(rhs, p.scale) != 0;
    }
  }

  /** A common factor of either sign cancels. */
  lemma CommonFactor(y: int, s: int, r: int, d: int, rhs: int)
    requires s != 0 && r > 0 && d == y * s && rhs == r * s
    ensures rhs != 0 && IntOperator.FloorDiv(d, rhs) == y / r && IntOperator.FloorMod(d, rhs) == (y % r) * s
  {
    var q, b := y / r, y % r;
    assert y == q * r + b;
    assert (q * r + b) * s == q * (r * s) + b * s;
    ScaledRemainder(b, r, s);
    FloorUnique(d, rhs, q, b * s);
  }

  lemma ScaledRemainder(b: int, r: int, s: int)
    requires s != 0 && 0 <= b < r
    ensures r * s != 0 && if r * s > 0 then 0 <= b * s < r * s else r * s < b * s <= 0
  {
    if s > 0 {
      assert (r - b) * s > 0 && b * s >= 0 && r * s > 0;
    } else {
      assert (r - b) * -s > 0 && b * -s >= 0 && r * -s > 0;
    }
  }

  lemma ExactValue(x: int, s: int, q: int, t: int, rhs: int, d: int, base: int, quotient: bool)
    requires rhs != 0 && d == x * s && s == q * rhs && base == t * rhs
    ensures Divide(d + base, rhs, quotient) == if quotient then x * q + t else 0
  {
    assert x * (q * rhs) == (x * q) * rhs;
    FloorUnique(d + base, rhs, x * q + t, 0);
  }

  /** At scale 1: the value of the rule, well-formed for positive divisors only. */
  lemma UnitValue(p: IterSplit, base: int, rhs: int, quotient: bool, iters: Iters, v: Valuation)
    requires GoodSplit(p, iters) && rhs > 0 && (quotient ==> p.scale == 1) && InIters(iters, v)
    ensures var r, x := if quotient then DivUnitScale(p, base, rhs, false)
      else ModUnitScale(p, base, rhs, false), MarkValue(p.mark, v);
      && GoodMutated(r, iters)
      && MutatedValue(r, v) == if quotient then Digit(x, p.Slot()) / rhs + base / rhs
        else ((x / p.lower) % rhs) * p.scale
  {
    if quotient {
      DivUnitForm(p, base, rhs);
      BaseQuotient(base, rhs);
      QuotientSplitGood(p, rhs, iters);
      QuotientSplitValue(p, rhs, iters, v);
      WithBaseMeans(QuotientSplit(p, rhs), base / rhs, iters, v);
    }
  }

  /** A unit rule on a split of any scale is right at v exactly when it is right on the numbers. */
  lemma UnitAt(p: IterSplit, base: int, rhs: int, quotient: bool, iters: Iters, v: Valuation, s: int, b: int, c: int)
    requires GoodSplit(p, iters) && p.scale == s != 0 && rhs > 0 && b == base * s && c == rhs * s && InIters(iters, v)
    ensures c != 0
    ensures var r, x := UnitResult(p, base, rhs, quotient), MarkValue(p.mark, v);
      && GoodMutated(r, iters)
      && (MutatedValue(r, v) == Divide(SplitValue(p, v) + b, c, quotient) <==>
        RuleAt(x, p.lower, p.extent, base, rhs, quotient))
  {
    var x := MarkValue(p.mark, v);
    var y, one := Digit(x, p.Slot()), p.(scale := 1);
    assert one.Slot() == p.Slot() && GoodSplit(one, iters);
    assert SplitValue(p, v) == y * s;
    assert y * s + b == (y + base) * s;
    CommonFactor(y + base, s, rhs, y * s + b, c);
    UnitValue(if quotient then one else p, base, rhs, quotient, iters, v);
    if !quotient { SameProduct((x / p.lower) % rhs, (y + base) % rhs, s); }
  }

  lemma SameProduct(a: int, b: int, s: int)
    requires s != 0
    ensures a * s == b * s <==> a == b
  {
    if a * s == b * s { Cancel(a, b, s); }
  }

  /** Under the condition the rules compute quotient and remainder, and stay well-formed. */
  lemma DivideSplitValue(p: IterSplit, base: int, rhs: int, quotient: bool, iters: Iters, v: Valuation)
    requires GoodSplit(p, iters) && rhs != 0 && Right(p, base, rhs, quotient) && InIters(iters, v)
    ensures var r := DivideSplit(p, base, rhs, quotient);
      GoodMutated(r, iters) && !r.Unresolved? && MutatedValue(r, v) == Divide(SplitValue(p, v) + base, rhs, quotient)
  {
    var x := MarkValue(p.mark, v);
    if rhs == 1 {
      WithBaseMeans(p, base, iters, v);
      FloorUnique(SplitValue(p, v) + base, 1, SplitValue(p, v) + base, 0);
    } else if p.scale == 1 {
      UnitAt(p, base, rhs, quotient, iters, v, 1, base, rhs);
      assert p.(scale := 1) == p;
      RuleRight(x, p.lower, p.extent, p.mark.extent, base, rhs, quotient);
    } else {
      Branches(p, base, rhs, quotient);
      if Exact(p, base, rhs) {
        ExactAt(p, base, rhs, quotient, iters, v);
      } else {
        var b, c := Quotient(base, p.scale), Quotient(rhs, p.scale);
        UnitAt(p, b, c, quotient, iters, v, p.scale, base, rhs);
        RuleRight(x, p.lower, p.extent, p.mark.extent, b, c, quotient);
      }
    }
  }

  lemma ExactAt(p: IterSplit, base: int, rhs: int, quotient: bool, iters: Iters, v: Valuation)
    requires GoodSplit(p, iters) && rhs != 0 && rhs != 1 && Exact(p, base, rhs)
    ensures var r := DivideSplit(p, base, rhs, quotient);
      GoodMutated(r, iters) && !r.Unresolved? && MutatedValue(r, v) == Divide(SplitValue(p, v) + base, rhs, quotient)
  {
    Branches(p, base, rhs, quotient);
    var q, t, d := Quotient(p.scale, rhs), Quotient(base, rhs), Digit(MarkValue(p.mark, v), p.Slot());
    var np := p.(scale := q);
    assert np.Slot() == p.Slot() && GoodSplit(np, iters);
    assert SplitValue(p, v) == d * p.scale && SplitValue(np, v) == d * q;
    ExactValue(d, p.scale, q, t, rhs, SplitValue(p, v), base, quotient);
    WithBaseMeans(np, t, iters, v);
  }

  // ----- exactness -----

  /** Over the box the mark takes every value below its extent. */
  ghost predicate Covers(m: IterMark, iters: Iters) {
    forall x :: 0 <= x < m.extent ==> Takes(m, iters, x)
  }

  ghost predicate Takes(m: IterMark, iters: Iters, x: int) {
    exists v: Valuation :: InIters(iters, v) && MarkValue(m, v) == x
  }

  /** Iterators do. */
  lemma IteratorCovers(name: string, iters: Iters)
    requires name in iters && iters[name].min == 0 && forall x :: x in iters ==> iters[x].extent > 0
    ensures Covers(IterMark(VarSource(name), iters[name].extent), iters)
  {
    var m := IterMark(VarSource(name), iters[name].extent);
    forall x | 0 <= x < m.extent ensures Takes(m, iters, x) {
      var v: Valuation := y => if y == name then x else if y in iters then iters[y].min else 0;
      assert InIters(iters, v) && MarkValue(m, v) == x;
    }
  }

  /** The rule's result is well-formed and right at every point of the box. */
  ghost predicate KeepsValue(p: IterSplit, base: int, rhs: int, quotient: bool, iters: Iters)
    requires rhs != 0
  {
    var r := DivideSplit(p, base, rhs, quotient);
    && GoodMutated(r, iters)
    && forall v: Valuation :: InIters(iters, v) ==> MutatedValue(r, v) == Divide(SplitValue(p, v) + base, rhs, quotient)
  }

  /** A unit rule with a divisor that is not positive gives a factor that is not positive. */
  lemma NegativeUnit(p: IterSplit, base: int, rhs: int, quotient: bool, iters: Iters)
    requires GoodSplit(p, iters) && rhs < 0
    ensures !GoodMutated(UnitResult(p, base, rhs, quotient), iters)
  {
    if quotient {
      var one := p.(scale := 1);
      assert GoodSplit(one, iters);
      DivUnitForm(one, base, rhs);
      QuotientSplitGood(one, rhs, iters);
      WithBaseMeans(QuotientSplit(one, rhs), IntOperator.FloorDiv(base - IntOperator.FloorMod(base, rhs), rhs), iters,
        x => 0);
    }
  }

  lemma UnitWrong(p: IterSplit, base: int, rhs: int, quotient: bool, iters: Iters, b: int,
      c: int) returns (v: Valuation)
    requires GoodSplit(p, iters) && Sized(p) && Covers(p.mark, iters) && p.scale != 0 && rhs > 0 && b == base * p.scale
    requires c == rhs * p.scale
    requires !UnitRightFor(p, base, rhs, quotient)
    ensures c != 0 && InIters(iters, v)
    ensures MutatedValue(UnitResult(p, base, rhs, quotient), v)
      != Divide(SplitValue(p, v) + b, c, quotient)
  {
    var x := RuleWrong(p.lower, p.extent, p.mark.extent, base, rhs, quotient);
    assert Takes(p.mark, iters, x);
    v :| InIters(iters, v) && MarkValue(p.mark, v) == x;
    UnitAt(p, base, rhs, quotient, iters, v, p.scale, b, c);
  }

  lemma RightKeeps(p: IterSplit, base: int, rhs: int, quotient: bool, iters: Iters)
    requires GoodSplit(p, iters) && Takes(p.mark, iters, 0) && rhs != 0 && Right(p, base, rhs, quotient)
    ensures KeepsValue(p, base, rhs, quotient, iters)
  {
    var r := DivideSplit(p, base, rhs, quotient);
    forall v: Valuation | InIters(iters, v)
      ensures MutatedValue(r, v) == Divide(SplitValue(p, v) + base, rhs, quotient) && GoodMutated(r, iters)
    {
      DivideSplitValue(p, base, rhs, quotient, iters, v);
    }
  }

  lemma WrongLoses(p: IterSplit, base: int, rhs: int, quotient: bool, iters: Iters, b: int, c: int)
    requires GoodSplit(p, iters) && Covers(p.mark, iters) && rhs != 0 && c != 0 && p.scale != 0 && base == b * p.scale
    requires rhs == c * p.scale
    requires DivideSplit(p, base, rhs, quotient) == UnitResult(p, b, c, quotient)
    requires !UnitRightFor(p, b, c, quotient)
    ensures !KeepsValue(p, base, rhs, quotient, iters)
  {
    if c < 0 {
      NegativeUnit(p, b, c, quotient, iters);
    } else {
      GoodIsSized(p, iters);
      var v := UnitWrong(p, b, c, quotient, iters, base, rhs);
    }
  }

  /**
   For a mark that takes all its values, whatever the signs: whenever a rule answers, it keeps the value exactly when
   Right.
   */
  lemma DivisionExactness(p: IterSplit, base: int, rhs: int, quotient: bool, iters: Iters)
    requires GoodSplit(p, iters) && Covers(p.mark, iters) && rhs != 0
    requires !DivideSplit(p, base, rhs, quotient).Unresolved?
    ensures KeepsValue(p, base, rhs, quotient, iters) <==> Right(p, base, rhs, quotient)
  {
    GoodIsSized(p, iters);
    assert Takes(p.mark, iters, 0);
    if Right(p, base, rhs, quotient) {
      RightKeeps(p, base, rhs, quotient, iters);
    } else if p.scale == 1 {
      assert p.(scale := 1) == p;
      WrongLoses(p, base, rhs, quotient, iters, base, rhs);
    } else {
      Branches(p, base, rhs, quotient);
      WrongLoses(p, base, rhs, quotient, iters, Quotient(base, p.scale), Quotient(rhs, p.scale));
    }
  }

  // ----- the pass that collects padding -----

  /** No padding: the divisor is positive and divides both the offset and the extent. */
  predicate Unpadded(extent: int, base: int, rhs: int) {
    rhs > 0 && Divides(rhs, base) && Divides(rhs, extent)
  }

  /** Where no padding is needed the two passes agree, and the rules keep the value. */
  lemma UnpaddedSame(p: IterSplit, base: int, rhs: int)
    requires Sized(p) && Unpadded(p.extent, base, rhs)
    ensures DivUnitScale(p, base, rhs, true) == DivUnitScale(p, base, rhs, false)
    ensures ModUnitScale(p, base, rhs, true) == ModUnitScale(p, base, rhs, false)
    ensures UnitRightFor(p, base, rhs, true) && UnitRightFor(p, base, rhs, false)
  {
    FloorModZero(base, rhs);
    TruncModZero(p.extent, rhs);
  }
}
