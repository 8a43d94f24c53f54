/**
 The expression visitors of IterMapRewriter (src/arith/iter_affine_map.cc): an
 index expression becomes a sum of splits, its dividends are fused into one
 mark, and the result is a single split plus an offset. No iterator
 constraints, constant factors, Bijective level.
 */
module IterFuser {
  import opened Options
  import opened IntOperator
  import opened Radix
  import opened Exprs
  import opened IterMapExprs
  import opened IterDivision
  import opened IterRewriter

  // ----- adding and scaling sums -----

  lemma {:induction false} ListUpdate(ps: seq<IterSplit>, i: nat, q: IterSplit, v: Valuation)
    requires i < |ps|
    ensures ListValue(ps[i := q], v) == ListValue(ps, v) - SplitValue(ps[i], v) + SplitValue(q, v)
  {
    var k := |ps| - 1;
    if i == k {
      assert ps[i := q][..k] == ps[..k];
    } else {
      assert ps[i := q][..k] == ps[..k][i := q];
      ListUpdate(ps[..k], i, q, v);
    }
  }

  lemma ScaleSum(p: IterSplit, q: IterSplit, v: Valuation)
    requires p.mark == q.mark && p.lower == q.lower && p.extent == q.extent
    ensures SplitValue(q.(scale := p.scale + q.scale), v) == SplitValue(p, v) + SplitValue(q, v)
    ensures SplitValue(q.(scale := p.scale - q.scale), v) == SplitValue(p, v) - SplitValue(q, v)
  {
    assert q.(scale := p.scale + q.scale).Slot() == q.Slot() == p.Slot() == q.(scale := p.scale - q.scale).Slot();
    if Positive(q.Slot()) {
      var d := Digit(MarkValue(q.mark, v), q.Slot());
      assert d * (p.scale + q.scale) == d * p.scale + d * q.scale;
      assert d * (p.scale - q.scale) == d * p.scale - d * q.scale;
    }
  }

  /** `r` is `lhs` plus or minus the split, at every valuation. */
  ghost predicate AddsSplit(r: seq<IterSplit>, lhs: seq<IterSplit>, rhs: IterSplit, sign: int) {
    && (forall iters: Iters :: GoodList(lhs, iters) && GoodSplit(rhs, iters) ==> GoodList(r, iters))
    && (forall v: Valuation :: ListValue(r, v) == ListValue(lhs, v) + sign * SplitValue(rhs, v))
  }

  predicate SameSlot(p: IterSplit, q: IterSplit) {
    p.mark == q.mark && p.lower == q.lower && p.extent == q.extent
  }

  /** Merge with the first split of the same slot from position i on, or append. */
  function AddedFrom(lhs: seq<IterSplit>, rhs: IterSplit, sign: int, i: nat): seq<IterSplit>
    requires i <= |lhs|
    decreases |lhs| - i
  {
    if i == |lhs| then lhs + [if sign > 0 then rhs else rhs.(scale := 0 - rhs.scale)]
    else if SameSlot(lhs[i], rhs) then
      lhs[i := rhs.(scale := if sign > 0 then lhs[i].scale + rhs.scale else lhs[i].scale - rhs.scale)]
    else AddedFrom(lhs, rhs, sign, i + 1)
  }

  method AddToLhs(lhs: seq<IterSplit>, rhs: IterSplit, sign: int) returns (r: seq<IterSplit>)
    requires sign == 1 || sign == -1
    ensures r == AddedFrom(lhs, rhs, sign, 0) && AddsSplit(r, lhs, rhs, sign)
  {
    for i := 0 to |lhs|
      invariant AddedFrom(lhs, rhs, sign, i) == AddedFrom(lhs, rhs, sign, 0)
    {
      var lvalue := lhs[i];
      if SameSlot(lvalue, rhs) {
        var merged := rhs.(scale := if sign > 0 then lvalue.scale + rhs.scale else lvalue.scale - rhs.scale);
        r := lhs[i := merged];
        forall v: Valuation ensures ListValue(r, v) == ListValue(lhs, v) + sign * SplitValue(rhs, v) {
          ListUpdate(lhs, i, merged, v);
          ScaleSum(lvalue, rhs, v);
        }
        return;
      }
    }
    var last := if sign > 0 then rhs else rhs.(scale := 0 - rhs.scale);
    r := lhs + [last];
    forall v: Valuation ensures ListValue(r, v) == ListValue(lhs, v) + sign * SplitValue(rhs, v) {
      ListAppend(lhs, [last], v);
      SingleValue(last, v);
      ScaledSplit(rhs, -1, v);
      assert -1 * rhs.scale == 0 - rhs.scale;
    }
  }

  ghost predicate AddsSum(r: IterSum, lhs: IterSum, rhs: IterSum, sign: int) {
    && (forall iters: Iters :: GoodSum(lhs, iters) && GoodSum(rhs, iters) ==> GoodSum(r, iters))
    && (forall v: Valuation :: SumValue(r, v) == SumValue(lhs, v) + sign * SumValue(rhs, v))
  }

  /** One split after the other. */
  function AddedAll(args: seq<IterSplit>, more: seq<IterSplit>, sign: int): seq<IterSplit> {
    if more == [] then args else AddedFrom(AddedAll(args, more[..|more| - 1], sign), more[|more| - 1], sign, 0)
  }

  function AddedSum(lhs: IterSum, rhs: IterSum, sign: int): IterSum {
    IterSum(AddedAll(lhs.args, rhs.args, sign), if sign > 0 then lhs.base + rhs.base else lhs.base - rhs.base)
  }

  method AddSumToLhs(lhs: IterSum, rhs: IterSum, sign: int) returns (r: IterSum)
    requires sign == 1 || sign == -1
    ensures r == AddedSum(lhs, rhs, sign) && AddsSum(r, lhs, rhs, sign)
  {
    var args := lhs.args;
    for i := 0 to |rhs.args|
      invariant args == AddedAll(lhs.args, rhs.args[..i], sign)
      invariant forall iters: Iters :: GoodSum(lhs, iters) && GoodSum(rhs, iters) ==> GoodList(args, iters)
      invariant forall v: Valuation :: ListValue(args, v) == ListValue(lhs.args, v) + sign * ListValue(rhs.args[..i], v)
    {
      ghost var before := args;
      assert rhs.args[..i + 1][..i] == rhs.args[..i];
      args := AddToLhs(args, rhs.args[i], sign);
      forall v: Valuation ensures ListValue(args, v) ==
        ListValue(lhs.args, v) + sign * ListValue(rhs.args[..i + 1], v) {
        assert ListValue(before, v) == ListValue(lhs.args, v) + sign * ListValue(rhs.args[..i], v);
      }
    }
    assert rhs.args[..|rhs.args|] == rhs.args;
    r := IterSum(args, if sign > 0 then lhs.base + rhs.base else lhs.base - rhs.base);
    forall v: Valuation ensures SumValue(r, v) == SumValue(lhs, v) + sign * SumValue(rhs, v) {
      SumIsList(r, v);
      SumIsList(lhs, v);
      SumIsList(rhs, v);
    }
  }

  ghost predicate ScalesSum(r: IterSum, lhs: IterSum, c: int) {
    && (forall iters: Iters :: GoodSum(lhs, iters) ==> GoodSum(r, iters))
    && (forall v: Valuation :: SumValue(r, v) == SumValue(lhs, v) * c)
  }

  function Scaled(ps: seq<IterSplit>, c: int): (r: seq<IterSplit>)
    ensures |r| == |ps| && forall k :: 0 <= k < |ps| ==> r[k] == ps[k].(scale := ps[k].scale * c)
  {
    seq(|ps|, k requires 0 <= k < |ps| => ps[k].(scale := ps[k].scale * c))
  }

  lemma {:induction false} ScaledValue(ps: seq<IterSplit>, c: int, v: Valuation)
    ensures ListValue(Scaled(ps, c), v) == ListValue(ps, v) * c
  {
    if ps != [] {
      var k := |ps| - 1;
      ScaledValue(ps[..k], c, v);
      assert Scaled(ps, c)[..k] == Scaled(ps[..k], c);
      ScaledSplit(ps[k], c, v);
      TwoProducts(ListValue(ps[..k], v), SplitValue(ps[k], v), c);
    }
  }

  lemma ScaledSumValue(lhs: IterSum, c: int)
    ensures ScalesSum(IterSum(Scaled(lhs.args, c), lhs.base * c), lhs, c)
  {
    var r := IterSum(Scaled(lhs.args, c), lhs.base * c);
    forall v: Valuation ensures SumValue(r, v) == SumValue(lhs, v) * c {
      ScaledValue(lhs.args, c, v);
      SumIsList(r, v);
      SumIsList(lhs, v);
      TwoProducts(ListValue(lhs.args, v), lhs.base, c);
    }
  }

  lemma TwoProducts(a: int, b: int, c: int)
    ensures (a + b) * c == a * c + b * c
  {
  }

  method MulToLhs(lhs: IterSum, c: int) returns (r: IterSum)
    ensures r == IterSum(Scaled(lhs.args, c), lhs.base * c) && ScalesSum(r, lhs, c)
  {
    var args := lhs.args;
    for i := 0 to |lhs.args|
      invariant args == Scaled(lhs.args[..i], c) + lhs.args[i..]
    {
      args := args[i := args[i].(scale := args[i].scale * c)];
    }
    ScaledSumValue(lhs, c);
    assert args == Scaled(lhs.args, c);
    r := IterSum(args, lhs.base * c);
  }

  // ----- the visitors -----

  /** The entry of an input iterator. */
  function InputEntry(x: string, r: IterRange, simplifyTrivial: bool): Mutated {
    if simplifyTrivial && r.extent == 1 then Many(IterSum([], r.min))
    else if r.min == 0 then One(WholeMark(IterMark(VarSource(x), r.extent), 1))
    else Many(IterSum([WholeMark(IterMark(OffsetSource(x, r.min), r.extent), 1)], r.min))
  }

  // ----- what the visitors compute -----

  /** The splits in the order of their scales, divided by the base scale; none if no split has the expected scale. */
  function SelectFrom(args: seq<IterSplit>, visited: seq<bool>, flat: seq<IterSplit>, expected: int, baseIndex: nat,
      baseScale: int, i: nat): Option<seq<IterSplit>>
    requires |visited| == |args| && baseIndex < |args| && baseScale != 0 && i <= |args|
    decreases |args| - i
  {
    if i == |args| then Some(flat) else
      var pos := if i == 0 then baseIndex
        else ExactFrom(args, visited, expected, None, |args| - 1, FirstUnit(args, 0), -1);
      if pos == -1 then None else
        var unit := args[pos].(scale := IntOperator.FloorDiv(args[pos].scale, baseScale));
        SelectFrom(args, visited[pos := true], flat + [unit], args[pos].extent * expected, baseIndex, baseScale, i + 1)
  }

  /** Splits fused into one mark. */
  function FusedArgs(args: seq<IterSplit>): Option<IterSplit> {
    var visited := NoneYet(|args|);
    var baseIndex := BaseFrom(args, visited, None, |args| - 1, -1);
    if baseIndex == -1 || args[baseIndex].scale == 0 then None else
      var baseScale := args[baseIndex].scale;
      match SelectFrom(args, visited, [], baseScale, baseIndex, baseScale, 0)
      case None => None
      case Some(flat) => Some(WholeMark(FusedMark(IterSum(Reversed(flat), 0)), baseScale))
  }

  /** TryFuseIters with exact matching; a zero base scale makes the original stop on a division by zero. */
  function Fused(expr: IterSum, allowEarlySkip: bool): Option<IterSum> {
    var combined := Combined(expr);
    if combined.Some? && |combined.value.args| <= 1 && allowEarlySkip then combined else
      match FusedArgs(if combined.Some? then combined.value.args else expr.args)
      case None => None
      case Some(p) => Some(IterSum([p], expr.base))
  }

  function AddOf(a: Mutated, b: Mutated, sign: int): Mutated {
    if a.Unresolved? || b.Unresolved? then Unresolved
    else if a.Plain? && b.Plain? then Plain(if sign > 0 then a.c + b.c else a.c - b.c)
    else if sign > 0 && a.Plain? && a.c == 0 then b
    else if b.Plain? && b.c == 0 then a
    else Many(AddedSum(ToSum(a), ToSum(b), sign))
  }

  function MulOf(a: Mutated, b: Mutated): Mutated {
    if a.Unresolved? || b.Unresolved? then Unresolved
    else if a.Plain? && b.Plain? then Plain(a.c * b.c)
    else if !a.Plain? && !b.Plain? then Unresolved
    else
      var it, c := if a.Plain? then b else a, if a.Plain? then a.c else b.c;
      if c == 1 then it else if c == 0 then Plain(0) else
        match it
        case Many(sum) => Many(IterSum(Scaled(sum.args, c), sum.base * c))
        case One(p) => One(p.(scale := p.scale * c))
  }

  /** PreprocessDividend: one split and an offset. */
  function DividendOf(a: Mutated): Option<IterSum>
    requires a.One? || a.Many?
  {
    var sum := ToSum(a);
    if a.Many? && sum.args == [] then None
    else if |sum.args| == 1 then Some(sum)
    else Fused(sum, true)
  }

  /** The division rules are used, on one split. */
  predicate DividesSplit(a: Mutated, b: Mutated) {
    (a.One? || a.Many?) && b.Plain? && b.c != 0 && b.c != 1 && DividendOf(a).Some? && |DividendOf(a).value.args| == 1
  }

  function DivideOf(a: Mutated, b: Mutated, quotient: bool): Mutated {
    if a.Unresolved? || b.Unresolved? || (b.Plain? && b.c == 0) then Unresolved
    else if a.Plain? && b.Plain? then Plain(Divide(a.c, b.c, quotient))
    else if a.Plain? && a.c == 0 then a
    else if b.Plain? && b.c == 1 then (if quotient then a else Plain(0))
    else if DividesSplit(a, b) then
      var sum := DividendOf(a).value;
      DivideSplit(sum.args[0], sum.base, b.c, quotient)
    else Unresolved
  }

  /** The division of the operands keeps its value: the rule is right for the split it is used on. */
  predicate RightDivision(a: Mutated, b: Mutated, quotient: bool) {
    DividesSplit(a, b) ==> Right(DividendOf(a).value.args[0], DividendOf(a).value.base, b.c, quotient)
  }

  /** What an expression is rewritten to. */
  function MutatedOf(e: Expr, iters: Iters, simplifyTrivial: bool): Mutated {
    match e
    case Const(c) => Plain(c)
    case Var(x) => if x in iters then InputEntry(x, iters[x], simplifyTrivial) else Unresolved
    case Add(p, q) => AddOf(MutatedOf(p, iters, simplifyTrivial), MutatedOf(q, iters, simplifyTrivial), 1)
    case Sub(p, q) => AddOf(MutatedOf(p, iters, simplifyTrivial), MutatedOf(q, iters, simplifyTrivial), -1)
    case Mul(p, q) => MulOf(MutatedOf(p, iters, simplifyTrivial), MutatedOf(q, iters, simplifyTrivial))
    case FloorDiv(p, q) => DivideOf(MutatedOf(p, iters, simplifyTrivial), MutatedOf(q, iters, simplifyTrivial), true)
    case FloorMod(p, q) => DivideOf(MutatedOf(p, iters, simplifyTrivial), MutatedOf(q, iters, simplifyTrivial), false)
    case _ => Unresolved
  }

  /** Every division of the expression is right. */
  predicate RightDivisions(e: Expr, iters: Iters, simplifyTrivial: bool) {
    match e
    case Add(p, q) => RightDivisions(p, iters, simplifyTrivial) && RightDivisions(q, iters, simplifyTrivial)
    case Sub(p, q) => RightDivisions(p, iters, simplifyTrivial) && RightDivisions(q, iters, simplifyTrivial)
    case Mul(p, q) => RightDivisions(p, iters, simplifyTrivial) && RightDivisions(q, iters, simplifyTrivial)
    case FloorDiv(p, q) =>
      && RightDivisions(p, iters, simplifyTrivial) && RightDivisions(q, iters, simplifyTrivial)
      && RightDivision(MutatedOf(p, iters, simplifyTrivial), MutatedOf(q, iters, simplifyTrivial), true)
    case FloorMod(p, q) =>
      && RightDivisions(p, iters, simplifyTrivial) && RightDivisions(q, iters, simplifyTrivial)
      && RightDivision(MutatedOf(p, iters, simplifyTrivial), MutatedOf(q, iters, simplifyTrivial), false)
    case _ => true
  }

  /** The rewritten form has the expression's value at every point of the box. */
  ghost predicate Means(m: Mutated, e: Expr, iters: Iters) {
    GoodMutated(m, iters) && forall v: Valuation :: InIters(iters, v) ==> MutatedValue(m, v) == Eval(e, v)
  }

  ghost predicate NonEmpty(iters: Iters) {
    forall x :: x in iters ==> iters[x].extent > 0
  }

  lemma InputMeans(x: string, iters: Iters, simplifyTrivial: bool)
    requires x in iters && NonEmpty(iters)
    ensures Means(InputEntry(x, iters[x], simplifyTrivial), Var(x), iters)
  {
    var r := iters[x];
    var m := InputEntry(x, r, simplifyTrivial);
    if simplifyTrivial && r.extent == 1 {
      forall v: Valuation | InIters(iters, v) ensures MutatedValue(m, v) == v(x) { SumIsList(m.sum, v); }
    } else if r.min == 0 {
      assert GoodMark(m.split.mark, iters);
      forall v: Valuation | InIters(iters, v) ensures MutatedValue(m, v) == v(x) {
        WholeMarkValue(m.split.mark, 1, iters, v);
      }
    } else {
      var p := m.sum.args[0];
      assert GoodMark(p.mark, iters);
      assert GoodSplit(p, iters) && GoodSum(m.sum, iters);
      forall v: Valuation | InIters(iters, v) ensures MutatedValue(m, v) == v(x) {
        WholeMarkValue(p.mark, 1, iters, v);
        SumIsList(m.sum, v);
        SingleValue(p, v);
      }
    }
  }

  class IterMapRewriter {
    const iters: Iters
    const simplifyTrivial: bool
    var varMap: map<string, Mutated>
    var sumFuseMap: map<IterSum, IterMark>

    ghost predicate Valid()
      reads this
    {
      && varMap == (map x | x in iters :: InputEntry(x, iters[x], simplifyTrivial))
      && forall f :: f in sumFuseMap ==> sumFuseMap[f] == FusedMark(f)
    }

    constructor (iters: Iters, simplifyTrivial: bool)
      ensures Valid() && this.iters == iters && this.simplifyTrivial == simplifyTrivial
    {
      this.iters, this.simplifyTrivial := iters, simplifyTrivial;
      varMap := map x | x in iters :: InputEntry(x, iters[x], simplifyTrivial);
      sumFuseMap := map[];
    }

    method TryFuseIters(expr0: IterSum, allowEarlySkip: bool) returns (r: Option<IterSum>)
      requires Valid()
      modifies this`sumFuseMap
      ensures Valid() && r == Fused(expr0, allowEarlySkip)
      ensures r.Some? ==> |r.value.args| == 1 && r.value.base == expr0.base
      ensures r.Some? && GoodSum(expr0, iters) ==> Keeps(r.value.args, expr0.args, iters)
    {
      var args := expr0.args;
      var combined := TryCombineSplitFromSameSource(expr0, iters);
      if combined.Some? {
        args := combined.value.args;
        if |args| <= 1 && allowEarlySkip { return combined; }
      }
      var p := FuseArgs(args);
      if p.None? { return None; }
      r := Some(IterSum([p.value], expr0.base));
    }

    /** Exact matching; a zero base scale makes the original stop on a division by zero. */
    method FuseArgs(args: seq<IterSplit>) returns (r: Option<IterSplit>)
      requires Valid()
      modifies this`sumFuseMap
      ensures Valid() && r == FusedArgs(args)
      ensures r.Some? && GoodList(args, iters) ==> Keeps([r.value], args, iters)
    {
      var visited := NoneYet(|args|);
      var baseIndex := FindBaseIter(args, visited, None, |args| - 1);
      if baseIndex == -1 { return None; }
      var baseScale := args[baseIndex].scale;
      if baseScale == 0 { return None; }
      var firstUnit := FindFirstPossibleUnitExtentIndex(args);
      var picked, flat, expected := Select(args, baseIndex, baseScale, firstUnit);
      if picked.None? { return None; }
      var mark := CachedMark(flat, expected, baseScale);
      if GoodList(args, iters) { FusedValue(args, picked.value, flat, baseScale, iters); }
      r := Some(WholeMark(mark, baseScale));
    }

    /** The mark of a flattened sum, from the cache or new. */
    method CachedMark(flat: seq<IterSplit>, expected: int, baseScale: int) returns (mark: IterMark)
      requires Valid() && baseScale != 0 && expected == baseScale * Product(flat)
      modifies this`sumFuseMap
      ensures Valid() && mark == FusedMark(IterSum(Reversed(flat), 0))
    {
      var flattened := IterSum(Reversed(flat), 0);
      ExactScale(baseScale, Product(flat));
      ProductReversed(flat);
      if flattened !in sumFuseMap {
        sumFuseMap := sumFuseMap[flattened := IterMark(SumSource(flattened), TruncDiv(expected, baseScale))];
      }
      mark := sumFuseMap[flattened];
    }

    /**
     The loop at iter_affine_map.cc:1123-1206: pick every split in the order of its scale; fails when no split has the
     expected scale.
     */
    method Select(args: seq<IterSplit>, baseIndex: nat, baseScale: int, firstUnit: nat)
      returns (r: Option<seq<IterSplit>>, flat: seq<IterSplit>, expected: int)
      requires baseIndex < |args| && args[baseIndex].scale == baseScale != 0 && firstUnit == FirstUnit(args, 0)
      requires forall i :: 0 <= i < firstUnit && i < |args| ==> args[i].extent != 1
      ensures SelectFrom(args, NoneYet(|args|), [], baseScale, baseIndex, baseScale, 0) ==
        if r.Some? then Some(flat) else None
      ensures expected == baseScale * Product(flat)
      ensures r.Some? ==> Flat(flat) && ScaledBy(r.value, flat, baseScale)
      ensures r.Some? && GoodList(args, iters) ==> Keeps(r.value, args, iters)
    {
      var visited := NoneYet(|args|);
      var picked: seq<IterSplit> := [];
      flat, expected := [], baseScale;
      BalancedStart(args, iters);
      NoneVisited(|args|);
      for i := 0 to |args|
        invariant |visited| == |args| && Unvisited(visited) == |args| - i && |picked| == i
        invariant i == 0 ==> !visited[baseIndex]
        invariant SelectFrom(args, visited, flat, expected, baseIndex, baseScale, i) ==
          SelectFrom(args, NoneYet(|args|), [], baseScale, baseIndex, baseScale, 0)
        invariant expected == baseScale * Product(flat)
        invariant Flat(flat) && ScaledBy(picked, flat, baseScale)
        invariant GoodList(args, iters) ==> Balanced(args, visited, picked, iters)
      {
        var pos := baseIndex as int;
        if i != 0 {
          pos := FindIterWithExactScale(args, visited, expected, None, |args| - 1, firstUnit);
        }
        if pos == -1 { return None, flat, expected; }
        var arg := args[pos];
        var unit := arg.(scale := IntOperator.FloorDiv(arg.scale, baseScale));
        SelectStep(picked, flat, arg, unit, baseScale, expected);
        UnvisitedMark(visited, pos);
        if GoodList(args, iters) { BalancedMove(args, visited, picked, pos, iters); }
        visited, picked, flat := visited[pos := true], picked + [arg], flat + [unit];
        expected := arg.extent * expected;
      }
      AllVisited(visited);
      if GoodList(args, iters) { BalancedEnd(args, visited, picked, iters); }
      r := Some(picked);
    }

    // ----- visitors -----

    method PreprocessDividend(a: Mutated) returns (r: Option<IterSum>)
      requires Valid() && (a.One? || a.Many?)
      modifies this`sumFuseMap
      ensures Valid() && r == DividendOf(a) && (r.Some? ==> |r.value.args| == 1)
      ensures r.Some? && GoodMutated(a, iters) ==> SameSum(r.value, a, iters)
    {
      var sum := ToSum(a);
      if a.One? {
        r := Some(sum);
        SameAsSum(sum, a, iters);
      } else if sum.args == [] {
        r := None;
      } else if |sum.args| == 1 {
        r := Some(sum);
        SameAsSum(sum, a, iters);
      } else {
        r := TryFuseIters(sum, true);
        if r.Some? && GoodMutated(a, iters) { KeptSum(r.value, sum, a, iters); }
      }
    }

    /** VisitExpr_ of FloorDiv and FloorMod on rewritten operands. */
    method DivideMutated(a: Mutated, b: Mutated, quotient: bool) returns (m: Mutated)
      requires Valid() && !a.Unresolved? && !b.Unresolved?
      modifies this`sumFuseMap
      ensures Valid() && m == DivideOf(a, b, quotient)
      ensures NonEmpty(iters) && GoodMutated(a, iters) && RightDivision(a, b, quotient) && !m.Unresolved? ==>
        Divided(m, a, b, quotient, iters)
    {
      if b.Plain? && b.c == 0 { return Unresolved; }
      if a.Plain? && b.Plain? { return Plain(Divide(a.c, b.c, quotient)); }
      if a.Plain? && a.c == 0 {
        m := a;
        ZeroDivided(b, quotient, iters);
        return;
      }
      if b.Plain? && b.c == 1 {
        m := if quotient then a else Plain(0);
        DividedByOne(a, quotient, iters);
        return;
      }
      if !b.Plain? { return Unresolved; }
      var sum := PreprocessDividend(a);
      if sum.None? { return Unresolved; }
      var split, base := sum.value.args[0], sum.value.base;
      m := DivideSplit(split, base, b.c, quotient);
      if NonEmpty(iters) && GoodMutated(a, iters) && RightDivision(a, b, quotient) {
        DividedBySplit(sum.value, a, b.c, quotient, iters);
      }
    }

    /** DirectMutate. */
    method Mutate(e: Expr) returns (m: Mutated)
      requires Valid()
      modifies this`sumFuseMap
      ensures Valid() && m == MutatedOf(e, iters, simplifyTrivial)
      ensures NonEmpty(iters) && RightDivisions(e, iters, simplifyTrivial) && !m.Unresolved? ==> Means(m, e, iters)
      decreases e
    {
      match e
      case Const(c) => m := Plain(c);
      case Var(x) =>
        m := if x in varMap then varMap[x] else Unresolved;
        if x in iters && NonEmpty(iters) { InputMeans(x, iters, simplifyTrivial); }
      case Add(p, q) =>
        var a := Mutate(p);
        var b := Mutate(q);
        m := Unresolved;
        if !a.Unresolved? && !b.Unresolved? { m := AddMutated(a, b, 1); }
      case Sub(p, q) =>
        var a := Mutate(p);
        var b := Mutate(q);
        m := Unresolved;
        if !a.Unresolved? && !b.Unresolved? { m := AddMutated(a, b, -1); }
      case Mul(p, q) =>
        var a := Mutate(p);
        var b := Mutate(q);
        m := Unresolved;
        if !a.Unresolved? && !b.Unresolved? { m := MulMutated(a, b); }
      case FloorDiv(p, q) =>
        m := MutateDivision(e, p, q, true);
      case FloorMod(p, q) =>
        m := MutateDivision(e, p, q, false);
      case _ => m := Unresolved;
    }

    method MutateDivision(e: Expr, p: Expr, q: Expr, quotient: bool) returns (m: Mutated)
      requires Valid() && e == if quotient then Expr.FloorDiv(p, q) else Expr.FloorMod(p, q)
      modifies this`sumFuseMap
      ensures Valid() && m == MutatedOf(e, iters, simplifyTrivial)
      ensures NonEmpty(iters) && RightDivisions(e, iters, simplifyTrivial) && !m.Unresolved? ==> Means(m, e, iters)
      decreases e, 0
    {
      var a := Mutate(p);
      var b := Mutate(q);
      m := Unresolved;
      if !a.Unresolved? && !b.Unresolved? {
        m := DivideMutated(a, b, quotient);
        if NonEmpty(iters) && RightDivisions(e, iters, simplifyTrivial) && !m.Unresolved? {
          DividedMeans(m, a, b, p, q, quotient, iters);
        }
      }
    }

    /**
     Rewrite: at most one split plus an offset, equal to the index at every point of the box, also once converted back.
     */
    method Rewrite(e: Expr) returns (r: Option<IterSum>)
      requires Valid()
      modifies this`sumFuseMap
      ensures Valid() && r == RewrittenOf(e, iters, simplifyTrivial)
      ensures r.Some? ==> |r.value.args| <= 1
      ensures r.Some? && RightDivisions(e, iters, simplifyTrivial) ==> forall v: Valuation :: InIters(iters, v) ==>
        SumValue(r.value, v) == Eval(e, v) && Eval(ConvertSum(r.value), v) == Eval(e, v)
      ensures r.Some? && RightDivisions(e, iters, simplifyTrivial) && NonEmpty(iters) ==> GoodSum(r.value, iters)
      ensures r.Some? && GoodMutated(MutatedOf(e, iters, simplifyTrivial), iters) ==>
        SameSum(r.value, MutatedOf(e, iters, simplifyTrivial), iters)
    {
      var m := Mutate(e);
      if m.Unresolved? { return None; }
      var sum := ToSum(m);
      if sum.args == [] {
        r := Some(sum);
        SameAsSum(sum, m, iters);
      } else {
        r := TryFuseIters(sum, true);
        if r.Some? && GoodMutated(m, iters) { KeptSum(r.value, sum, m, iters); }
      }
      if r.Some? && RightDivisions(e, iters, simplifyTrivial) {
        if NonEmpty(iters) { ConvertedMeans(r.value, m, e, iters); } else { EmptyBox(iters); }
      }
    }
  }

  /** What an index is rewritten to. */
  function RewrittenOf(e: Expr, iters: Iters, simplifyTrivial: bool): Option<IterSum> {
    var m := MutatedOf(e, iters, simplifyTrivial);
    if m.Unresolved? then None
    else if ToSum(m).args == [] then Some(ToSum(m))
    else Fused(ToSum(m), true)
  }

  /** The sum has the value of the rewritten operand. */
  ghost predicate SameSum(s: IterSum, a: Mutated, iters: Iters) {
    GoodSum(s, iters) && forall v: Valuation :: InIters(iters, v) ==> SumValue(s, v) == MutatedValue(a, v)
  }

  lemma SameAsSum(s: IterSum, a: Mutated, iters: Iters)
    requires !a.Unresolved? && s == ToSum(a)
    ensures GoodMutated(a, iters) ==> SameSum(s, a, iters)
  {
    forall v: Valuation | InIters(iters, v) ensures SumValue(s, v) == MutatedValue(a, v) { ToSumValue(a, v); }
  }

  lemma KeptSum(r: IterSum, s: IterSum, a: Mutated, iters: Iters)
    requires !a.Unresolved? && s == ToSum(a) && GoodMutated(a, iters)
    requires Keeps(r.args, s.args, iters) && r.base == s.base
    ensures SameSum(r, a, iters)
  {
    forall v: Valuation | InIters(iters, v) ensures SumValue(r, v) == MutatedValue(a, v) {
      ToSumValue(a, v);
      SumIsList(r, v);
      SumIsList(s, v);
    }
  }

  /** `m` is the floor quotient or remainder of `a` by `b`. */
  ghost predicate Divided(m: Mutated, a: Mutated, b: Mutated, quotient: bool, iters: Iters) {
    && GoodMutated(m, iters)
    && forall v: Valuation :: InIters(iters, v) ==>
      MutatedValue(m, v) == Divide(MutatedValue(a, v), MutatedValue(b, v), quotient)
  }

  lemma ZeroDivided(b: Mutated, quotient: bool, iters: Iters)
    ensures Divided(Plain(0), Plain(0), b, quotient, iters)
  {
    forall v: Valuation | InIters(iters, v) ensures Divide(0, MutatedValue(b, v), quotient) == 0 {
      if MutatedValue(b, v) != 0 { FloorUnique(0, MutatedValue(b, v), 0, 0); }
    }
  }

  lemma DividedByOne(a: Mutated, quotient: bool, iters: Iters)
    ensures GoodMutated(a, iters) ==> Divided(if quotient then a else Plain(0), a, Plain(1), quotient, iters)
  {
    forall v: Valuation | InIters(iters, v)
      ensures Divide(MutatedValue(a, v), 1, quotient) == if quotient then MutatedValue(a, v) else 0
    {
      FloorUnique(MutatedValue(a, v), 1, MutatedValue(a, v), 0);
    }
  }

  lemma DividedBySplit(s: IterSum, a: Mutated, c: int, quotient: bool, iters: Iters)
    requires |s.args| == 1 && SameSum(s, a, iters) && c != 0 && Right(s.args[0], s.base, c, quotient) && NonEmpty(iters)
    ensures Divided(DivideSplit(s.args[0], s.base, c, quotient), a, Plain(c), quotient, iters)
  {
    var p := s.args[0];
    var m := DivideSplit(p, s.base, c, quotient);
    assert GoodSplit(p, iters);
    forall v: Valuation | InIters(iters, v)
      ensures GoodMutated(m, iters) && MutatedValue(m, v) == Divide(MutatedValue(a, v), c, quotient)
    {
      DivideSplitValue(p, s.base, c, quotient, iters, v);
      SumIsList(s, v);
      SingleValue(p, v);
      assert s.args == [p];
    }
    var corner: Valuation := x => if x in iters then iters[x].min else 0;
    assert InIters(iters, corner);
    assert MutatedValue(m, corner) == Divide(MutatedValue(a, corner), c, quotient);
  }

  lemma DividedMeans(m: Mutated, a: Mutated, b: Mutated, p: Expr, q: Expr, quotient: bool, iters: Iters)
    requires Means(a, p, iters) && Means(b, q, iters) && Divided(m, a, b, quotient, iters)
    ensures Means(m, if quotient then Expr.FloorDiv(p, q) else Expr.FloorMod(p, q), iters)
  {
  }

  lemma ConvertedMeans(s: IterSum, m: Mutated, e: Expr, iters: Iters)
    requires Means(m, e, iters) && SameSum(s, m, iters)
    ensures forall v: Valuation :: InIters(iters, v) ==>
      SumValue(s, v) == Eval(e, v) && Eval(ConvertSum(s), v) == Eval(e, v)
  {
    forall v: Valuation | InIters(iters, v) ensures SumValue(s, v) == Eval(e, v) &&
      Eval(ConvertSum(s), v) == Eval(e, v) {
      ConvertSumValue(s, iters, v);
    }
  }

  lemma EmptyBox(iters: Iters)
    requires !NonEmpty(iters)
    ensures forall v: Valuation :: !InIters(iters, v)
  {
    var x :| x in iters && iters[x].extent <= 0;
  }

  /** `m` is `a` plus or minus `b`. */
  ghost predicate AddsMutated(m: Mutated, a: Mutated, b: Mutated, sign: int) {
    && (forall iters: Iters :: GoodMutated(a, iters) && GoodMutated(b, iters) ==> GoodMutated(m, iters))
    && (forall v: Valuation :: MutatedValue(m, v) == MutatedValue(a, v) + sign * MutatedValue(b, v))
  }

  method AddMutated(a: Mutated, b: Mutated, sign: int) returns (m: Mutated)
    requires !a.Unresolved? && !b.Unresolved? && (sign == 1 || sign == -1)
    ensures m == AddOf(a, b, sign) && !m.Unresolved? && AddsMutated(m, a, b, sign)
  {
    if a.Plain? && b.Plain? { return Plain(if sign > 0 then a.c + b.c else a.c - b.c); }
    if sign > 0 && a.Plain? && a.c == 0 { return b; }
    if b.Plain? && b.c == 0 { return a; }
    var lhs, rhs := ToSum(a), ToSum(b);
    var r := AddSumToLhs(lhs, rhs, sign);
    m := Many(r);
    forall v: Valuation ensures MutatedValue(m, v) == MutatedValue(a, v) + sign * MutatedValue(b, v) {
      ToSumValue(a, v);
      ToSumValue(b, v);
    }
    forall iters: Iters | GoodMutated(a, iters) && GoodMutated(b, iters) ensures GoodMutated(m, iters) {
      assert GoodSum(lhs, iters) && GoodSum(rhs, iters);
    }
  }

  /** `m` is `a` times `b`. */
  ghost predicate TimesMutated(m: Mutated, a: Mutated, b: Mutated) {
    && (forall iters: Iters :: GoodMutated(a, iters) && GoodMutated(b, iters) ==> GoodMutated(m, iters))
    && (forall v: Valuation :: MutatedValue(m, v) == MutatedValue(a, v) * MutatedValue(b, v))
  }

  method MulMutated(a: Mutated, b: Mutated) returns (m: Mutated)
    requires !a.Unresolved? && !b.Unresolved?
    ensures m == MulOf(a, b) && (m.Unresolved? <==> !a.Plain? && !b.Plain?)
    ensures !m.Unresolved? ==> TimesMutated(m, a, b)
  {
    if a.Plain? && b.Plain? { return Plain(a.c * b.c); }
    if !a.Plain? && !b.Plain? { return Unresolved; }
    var it, c := if a.Plain? then b else a, if a.Plain? then a.c else b.c;
    if c == 1 { return it; }
    if c == 0 { return Plain(0); }
    match it
    case Many(sum) =>
      var r := MulToLhs(sum, c);
      m := Many(r);
    case One(p) =>
      m := One(p.(scale := p.scale * c));
      forall v: Valuation ensures MutatedValue(m, v) == MutatedValue(it, v) * c { ScaledSplit(p, c, v); }
  }

  /** One more split of the expected scale. */
  lemma SelectStep(picked: seq<IterSplit>, flat: seq<IterSplit>, arg: IterSplit, unit: IterSplit, base: int,
      expected: int)
    requires base != 0 && arg.scale == expected == base * Product(flat)
    requires unit == arg.(scale := IntOperator.FloorDiv(arg.scale, base))
    requires Flat(flat) && ScaledBy(picked, flat, base)
    ensures Flat(flat + [unit]) && ScaledBy(picked + [arg], flat + [unit], base)
    ensures arg.extent * expected == base * Product(flat + [unit])
  {
    ExactScale(base, Product(flat));
    FlatExtend(flat, unit);
    ExpectedStep(base, Product(flat), arg.extent);
    assert arg == unit.(scale := base * unit.scale);
  }

  lemma ExpectedStep(base: int, top: int, e: int)
    ensures e * (base * top) == base * (top * e)
  {
  }
}
