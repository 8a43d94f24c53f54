/**
 Iterator-map expressions of src/arith/iter_affine_map.cc with constant factors:
 marks, splits and sums, their value, the rules for dividing one split, and the
 conversion back to ordinary expressions.
 */
module IterMapExprs {
  import opened IntOperator
  import opened DivModLaws
  import opened Radix
  import opened Exprs

  /** `min <= v < min + extent` for an input iterator. */
  datatype IterRange = IterRange(min: int, extent: int)

  type Iters = map<string, IterRange>

  /** The source of a mark: a variable, a variable minus its minimum, or a fused sum. */
  datatype MarkSource = VarSource(name: string) | OffsetSource(name: string, min: int) | SumSource(sum: IterSum)

  datatype IterMark = IterMark(source: MarkSource, extent: int)

  /** ((mark // lower) % extent) * scale. */
  datatype IterSplit = IterSplit(mark: IterMark, lower: int, extent: int, scale: int) {
    function Slot(): Slot { Radix.Slot(lower, extent) }
  }

  datatype IterSum = IterSum(args: seq<IterSplit>, base: int)

  /** IterSplitExpr(mark, scale): the whole mark. */
  function WholeMark(mark: IterMark, scale: int): IterSplit {
    IterSplit(mark, 1, mark.extent, scale)
  }

  // ----- values -----

  ghost predicate InIters(iters: Iters, v: Valuation) {
    forall x :: x in iters ==> iters[x].min <= v(x) < iters[x].min + iters[x].extent
  }

  function MarkValue(m: IterMark, v: Valuation): int
    decreases m
  {
    match m.source
    case VarSource(x) => v(x)
    case OffsetSource(x, min) => v(x) - min
    case SumSource(s) => SumValue(s, v)
  }

  function SplitValue(p: IterSplit, v: Valuation): int
    decreases p
  {
    var x := MarkValue(p.mark, v);
    if Positive(p.Slot()) then Digit(x, p.Slot()) * p.scale else 0
  }

  function SumValue(s: IterSum, v: Valuation): int
    decreases s
  {
    ArgsValue(s, |s.args|, v) + s.base
  }

  function ArgsValue(s: IterSum, k: nat, v: Valuation): int
    requires k <= |s.args|
    decreases s, 0, k
  {
    if k == 0 then 0 else ArgsValue(s, k - 1, v) + SplitValue(s.args[k - 1], v)
  }

  /** The sum of a list of splits. */
  function ListValue(ps: seq<IterSplit>, v: Valuation): int {
    if ps == [] then 0 else ListValue(ps[..|ps| - 1], v) + SplitValue(ps[|ps| - 1], v)
  }

  lemma {:induction false} ArgsAreList(s: IterSum, k: nat, v: Valuation)
    requires k <= |s.args|
    ensures ArgsValue(s, k, v) == ListValue(s.args[..k], v)
  {
    if k > 0 {
      ArgsAreList(s, k - 1, v);
      assert s.args[..k][..k - 1] == s.args[..k - 1];
    }
  }

  lemma SumIsList(s: IterSum, v: Valuation)
    ensures SumValue(s, v) == ListValue(s.args, v) + s.base
  {
    ArgsAreList(s, |s.args|, v);
    assert s.args[..|s.args|] == s.args;
  }

  lemma {:induction false} ListAppend(ps: seq<IterSplit>, qs: seq<IterSplit>, v: Valuation)
    ensures ListValue(ps + qs, v) == ListValue(ps, v) + ListValue(qs, v)
  {
    if qs == [] {
      assert ps + qs == ps;
    } else {
      var k := |qs| - 1;
      ListAppend(ps, qs[..k], v);
      assert (ps + qs)[..|ps + qs| - 1] == ps + qs[..k];
    }
  }

  // ----- well-formedness: positive factors, and marks with values in [0, extent) -----

  ghost predicate GoodMark(m: IterMark, iters: Iters)
    decreases m
  {
    && m.extent > 0
    && (forall v: Valuation :: InIters(iters, v) ==> 0 <= MarkValue(m, v) < m.extent)
    && (m.source.SumSource? ==> GoodSum(m.source.sum, iters))
  }

  ghost predicate GoodSplit(p: IterSplit, iters: Iters)
    decreases p
  {
    p.lower > 0 && p.extent > 0 && GoodMark(p.mark, iters)
  }

  ghost predicate GoodSum(s: IterSum, iters: Iters)
    decreases s
  {
    forall k :: 0 <= k < |s.args| ==> GoodSplit(s.args[k], iters)
  }

  ghost predicate GoodList(ps: seq<IterSplit>, iters: Iters) {
    forall k :: 0 <= k < |ps| ==> GoodSplit(ps[k], iters)
  }

  /** A split of the whole mark has the mark's value. */
  lemma WholeMarkValue(m: IterMark, scale: int, iters: Iters, v: Valuation)
    requires GoodMark(m, iters) && InIters(iters, v)
    ensures SplitValue(WholeMark(m, scale), v) == MarkValue(m, v) * scale
  {
    var x := MarkValue(m, v);
    assert x / 1 == x;
    DivModUnique(x, m.extent, 0, x);
  }

  // ----- what mutation returns -----

  /** A constant, a split, a sum, or an expression left unresolved. */
  datatype Mutated = Unresolved | Plain(c: int) | One(split: IterSplit) | Many(sum: IterSum)

  function ToSum(m: Mutated): IterSum
    requires !m.Unresolved?
  {
    match m
    case Plain(c) => IterSum([], c)
    case One(p) => IterSum([p], 0)
    case Many(s) => s
  }

  function MutatedValue(m: Mutated, v: Valuation): int {
    match m
    case Unresolved => 0
    case Plain(c) => c
    case One(p) => SplitValue(p, v)
    case Many(s) => SumValue(s, v)
  }

  ghost predicate GoodMutated(m: Mutated, iters: Iters) {
    match m
    case Unresolved => true
    case Plain(_) => true
    case One(p) => GoodSplit(p, iters)
    case Many(s) => GoodSum(s, iters)
  }

  lemma ToSumValue(m: Mutated, v: Valuation)
    requires !m.Unresolved?
    ensures SumValue(ToSum(m), v) == MutatedValue(m, v)
  {
    if m.One? {
      SumIsList(ToSum(m), v);
      assert ToSum(m).args[..0] == [];
      assert ListValue([m.split], v) == ListValue([m.split][..0], v) + SplitValue(m.split, v);
    }
  }

  // ----- conversion back to expressions -----

  /** IterMapToExprNormalizer::ConvertIterSplitExpr and ConvertIterSumExpr. */
  function ConvertMark(m: IterMark): Expr
    decreases m
  {
    match m.source
    case VarSource(x) => Var(x)
    case OffsetSource(x, min) => Sub(Var(x), Const(min))
    case SumSource(s) => ConvertSum(s)
  }

  function ConvertSplit(p: IterSplit): Expr
    decreases p
  {
    var source := ConvertMark(p.mark);
    if p.extent == p.mark.extent && p.lower == 1 then Mul(source, Const(p.scale))
    else if p.mark.extent == p.lower * p.extent then
      if p.extent == 1 && p.mark.extent != 1 then Const(0)
      else Mul(Expr.FloorDiv(source, Const(p.lower)), Const(p.scale))
    else Mul(Expr.FloorDiv(Expr.FloorMod(source, Const(p.lower * p.extent)), Const(p.lower)), Const(p.scale))
  }

  function ConvertSum(s: IterSum): Expr
    decreases s
  {
    Add(ConvertArgs(s, |s.args|), Const(s.base))
  }

  function ConvertArgs(s: IterSum, k: nat): Expr
    requires k <= |s.args|
    decreases s, 0, k
  {
    if k == 0 then Const(0) else Add(ConvertArgs(s, k - 1), ConvertSplit(s.args[k - 1]))
  }

  lemma EvalFloorDiv(e: Expr, k: int, v: Valuation)
    requires k > 0
    ensures Eval(Expr.FloorDiv(e, Const(k)), v) == Eval(e, v) / k
    ensures Eval(Expr.FloorMod(e, Const(k)), v) == Eval(e, v) % k
  {
    assert Eval(Const(k), v) == k;
    FloorIsEuclidean(Eval(e, v), k);
  }

  lemma EvalScaled(e: Expr, k: int, v: Valuation)
    ensures Eval(Mul(e, Const(k)), v) == Eval(e, v) * k
  {
    assert Eval(Const(k), v) == k;
  }

  /** The three forms of a split agree with its digit. */
  lemma SplitForms(x: int, lower: int, extent: int, markExtent: int)
    requires lower > 0 && extent > 0 && 0 <= x < markExtent
    ensures lower * extent > 0 && (x % (lower * extent)) / lower == (x / lower) % extent
    ensures extent == markExtent && lower == 1 ==> (x / lower) % extent == x
    ensures markExtent == lower * extent ==> (x / lower) % extent == x / lower && (extent == 1 ==> x / lower == 0)
  {
    ModSplit(x, extent, lower);
    assert extent * lower == lower * extent;
    if extent == markExtent && lower == 1 {
      assert x / 1 == x;
      DivModUnique(x, extent, 0, x);
    }
    if markExtent == lower * extent { QuotientBound(x, lower, extent); }
  }

  /** Converting back keeps the value at every point of the iterator box. */
  lemma {:induction false} ConvertSplitValue(p: IterSplit, iters: Iters, v: Valuation)
    requires GoodSplit(p, iters) && InIters(iters, v)
    ensures Eval(ConvertSplit(p), v) == SplitValue(p, v)
    decreases p, 1
  {
    ConvertMarkValue(p.mark, iters, v);
    var x, source := MarkValue(p.mark, v), ConvertMark(p.mark);
    SplitForms(x, p.lower, p.extent, p.mark.extent);
    EvalScaled(source, p.scale, v);
    EvalFloorDiv(source, p.lower, v);
    EvalScaled(Expr.FloorDiv(source, Const(p.lower)), p.scale, v);
    EvalFloorDiv(source, p.lower * p.extent, v);
    var low := Expr.FloorMod(source, Const(p.lower * p.extent));
    EvalFloorDiv(low, p.lower, v);
    EvalScaled(Expr.FloorDiv(low, Const(p.lower)), p.scale, v);
  }

  lemma {:induction false} ConvertMarkValue(m: IterMark, iters: Iters, v: Valuation)
    requires GoodMark(m, iters) && InIters(iters, v)
    ensures Eval(ConvertMark(m), v) == MarkValue(m, v)
    decreases m, 1
  {
    match m.source
    case VarSource(_) =>
    case OffsetSource(_, min) => assert Eval(Const(min), v) == min;
    case SumSource(s) => ConvertSumValue(s, iters, v);
  }

  lemma {:induction false} ConvertSumValue(s: IterSum, iters: Iters, v: Valuation)
    requires GoodSum(s, iters) && InIters(iters, v)
    ensures Eval(ConvertSum(s), v) == SumValue(s, v)
    decreases s, 1
  {
    ConvertArgsValue(s, |s.args|, iters, v);
    assert Eval(Const(s.base), v) == s.base;
  }

  lemma {:induction false} ConvertArgsValue(s: IterSum, k: nat, iters: Iters, v: Valuation)
    requires GoodSum(s, iters) && InIters(iters, v) && k <= |s.args|
    ensures Eval(ConvertArgs(s, k), v) == ArgsValue(s, k, v)
    decreases s, 0, k
  {
    if k > 0 {
      ConvertArgsValue(s, k - 1, iters, v);
      ConvertSplitValue(s.args[k - 1], iters, v);
    }
  }
}
