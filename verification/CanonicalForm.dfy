/**
 The split/sum normal form of src/arith/canonical_simplify.cc: SplitExprNode,
 SumExprNode and the merge of splits.
 */
module CanonicalForm {
  import opened IntOperator
  import opened DivModes
  import opened Exprs

  /** An upper factor; `Inf` is kPosInf. */
  datatype Factor = Inf | Fin(k: int)

  /** ((index % upper) / lower) * scale. */
  datatype SplitExpr = SplitExpr(index: Expr, lower: int, upper: Factor, scale: int, mode: DivMode)

  datatype SumExpr = SumExpr(args: seq<SplitExpr>, base: int)

  /** The invariant of a split: upper is infinite or a multiple of lower, neither is 0. */
  predicate Valid(s: SplitExpr) {
    s.lower != 0 && (s.upper.Fin? ==> s.upper.k != 0 && Divides(s.lower, s.upper.k))
  }

  /** The factors are positive as well. */
  predicate Positive(s: SplitExpr) {
    Valid(s) && s.lower > 0 && (s.upper.Fin? ==> s.upper.k > 0)
  }

  predicate AllValid(args: seq<SplitExpr>) {
    forall i :: 0 <= i < |args| ==> Valid(args[i])
  }

  // ----- values -----

  function Reduced(x: int, upper: Factor, mode: DivMode): int {
    if upper.Fin? && upper.k != 0 then ModBy(x, upper.k, mode) else x
  }

  /** The split without its scale, when its index has the value x. */
  function DigitAt(s: SplitExpr, x: int): int {
    if s.lower == 0 then 0 else DivBy(Reduced(x, s.upper, s.mode), s.lower, s.mode)
  }

  /** A way to value splits. */
  type Measure = SplitExpr -> int

  function Total(args: seq<SplitExpr>, t: Measure): int {
    if args == [] then 0 else Total(args[..|args| - 1], t) + t(args[|args| - 1])
  }

  function MeasureOf(rho: Valuation): Measure {
    (s: SplitExpr) => SplitValue(s, rho)
  }

  function SplitValue(s: SplitExpr, rho: Valuation): int {
    DigitAt(s, Eval(s.index, rho)) * s.scale
  }

  function ArgsValue(args: seq<SplitExpr>, rho: Valuation): int {
    Total(args, MeasureOf(rho))
  }

  function SumValue(s: SumExpr, rho: Valuation): int {
    ArgsValue(s.args, rho) + s.base
  }

  /** lower == 1 and no upper: the index itself, the same in both modes. */
  predicate IsPlain(s: SplitExpr) {
    s.lower == 1 && s.upper.Inf?
  }

  predicate DivModeCompatibleTo(s: SplitExpr, mode: DivMode) {
    s.mode == mode || IsPlain(s)
  }

  function PlainSplit(e: Expr): SplitExpr {
    SplitExpr(e, 1, Inf, 1, TruncMode)
  }

  lemma PlainValue(s: SplitExpr, rho: Valuation)
    requires IsPlain(s)
    ensures SplitValue(s, rho) == Eval(s.index, rho) * s.scale
  {
    ExactBy(Eval(s.index, rho), 1, s.mode);
  }

  // ----- sums of lists -----

  lemma {:induction false} TotalAppend(a: seq<SplitExpr>, b: seq<SplitExpr>, t: Measure)
    ensures Total(a + b, t) == Total(a, t) + Total(b, t)
  {
    if b == [] {
      assert a + b == a;
    } else {
      var k := |b| - 1;
      TotalAppend(a, b[..k], t);
      assert (a + b)[..|a + b| - 1] == a + b[..k];
    }
  }

  lemma TotalSingle(s: SplitExpr, t: Measure)
    ensures Total([s], t) == t(s)
  {
    assert [s][..0] == [];
  }

  lemma TotalAround(a: seq<SplitExpr>, s: SplitExpr, b: seq<SplitExpr>, t: Measure)
    ensures Total(a + [s] + b, t) == Total(a, t) + t(s) + Total(b, t)
  {
    TotalAppend(a + [s], b, t);
    TotalAppend(a, [s], t);
    TotalSingle(s, t);
  }

  lemma TotalBetween(a: seq<SplitExpr>, s: SplitExpr, b: seq<SplitExpr>, args: seq<SplitExpr>, next: seq<SplitExpr>,
      t: Measure)
    requires a + b == args && next == a + [s] + b
    ensures Total(next, t) == Total(args, t) + t(s)
  {
    TotalAround(a, s, b, t);
    TotalAppend(a, b, t);
  }

  lemma TotalInsert(args: seq<SplitExpr>, j: nat, s: SplitExpr, t: Measure)
    requires j <= |args|
    ensures Total(args[..j] + [s] + args[j..], t) == Total(args, t) + t(s)
  {
    assert args[..j] + args[j..] == args;
    TotalBetween(args[..j], s, args[j..], args, args[..j] + [s] + args[j..], t);
  }

  lemma TotalUpdate(args: seq<SplitExpr>, j: nat, s: SplitExpr, t: Measure)
    requires j < |args|
    ensures Total(args[j := s], t) == Total(args, t) - t(args[j]) + t(s)
  {
    TotalAround(args[..j], s, args[j + 1..], t);
    TotalAround(args[..j], args[j], args[j + 1..], t);
    assert args[j := s] == args[..j] + [s] + args[j + 1..];
    assert args == args[..j] + [args[j]] + args[j + 1..];
  }

  // ----- adding a split -----

  /** Equal indices are neighbours, in descending order of lower factor. */
  ghost predicate Segmented(args: seq<SplitExpr>) {
    && (forall i, j, k :: 0 <= i < j < k < |args| && args[i].index == args[k].index ==> args[j].index == args[i].index)
    && (forall i, j :: 0 <= i < j < |args| && args[i].index == args[j].index ==> args[i].lower >= args[j].lower)
  }

  /** The first position with the given index, or the end. */
  function FirstIndex(args: seq<SplitExpr>, e: Expr, start: nat): (p: nat)
    requires start <= |args|
    ensures start <= p <= |args| && (p < |args| ==> args[p].index == e)
    ensures forall i :: start <= i < p ==> args[i].index != e
    decreases |args| - start
  {
    if start == |args| || args[start].index == e then start else FirstIndex(args, e, start + 1)
  }

  predicate SameSlot(a: SplitExpr, b: SplitExpr) {
    a.lower == b.lower && a.upper == b.upper && DivModeCompatibleTo(a, b.mode)
  }

  predicate StopsAt(args: seq<SplitExpr>, other: SplitExpr, j: nat)
    requires j < |args|
  {
    args[j].index != other.index || other.lower > args[j].lower || SameSlot(other, args[j])
  }

  /** Where the scan from j stops: the position to insert before or to merge into, or the end. */
  function Scan(args: seq<SplitExpr>, other: SplitExpr, j: nat): (p: nat)
    requires j <= |args|
    ensures j <= p <= |args| && (p < |args| ==> StopsAt(args, other, p))
    ensures forall i :: j <= i < p ==> !StopsAt(args, other, i)
    decreases |args| - j
  {
    if j == |args| || StopsAt(args, other, j) then j else Scan(args, other, j + 1)
  }

  predicate Merges(args: seq<SplitExpr>, other: SplitExpr, p: nat)
    requires p < |args|
  {
    args[p].index == other.index && !(other.lower > args[p].lower) && SameSlot(other, args[p])
  }

  /** args += other * scale. */
  function AddSplit(args: seq<SplitExpr>, other: SplitExpr, scale: int): seq<SplitExpr> {
    if other.scale == 0 then args else
      var p := Scan(args, other, FirstIndex(args, other.index, 0));
      if p < |args| && Merges(args, other, p) then
        args[p := args[p].(scale := args[p].scale + other.scale * scale)]
      else args[..p] + [other.(scale := other.scale * scale)] + args[p..]
  }

  lemma SameSlotDigit(a: SplitExpr, b: SplitExpr, x: int)
    requires SameSlot(a, b)
    ensures DigitAt(a, x) == DigitAt(b, x)
  {
    if a.mode != b.mode {
      ExactBy(x, 1, a.mode);
      ExactBy(x, 1, b.mode);
    }
  }

  /** Multiplying the scale multiplies the value. */
  predicate ScalesBy(t: Measure, s: SplitExpr, k: int) {
    t(s.(scale := s.scale * k)) == t(s) * k
  }

  /** Splits of one slot add up by their scales. */
  predicate FoldsInto(t: Measure, a: SplitExpr, b: SplitExpr, k: int) {
    a.index == b.index && SameSlot(b, a) ==> t(a.(scale := a.scale + b.scale * k)) == t(a) + t(b) * k
  }

  predicate Cancels(t: Measure, s: SplitExpr) {
    t(s.(scale := 0)) == 0
  }

  /** Joining two splits of one index keeps their sum. */
  predicate JoinsTo(t: Measure, lhs: SplitExpr, rhs: SplitExpr) {
    Valid(lhs) && Valid(rhs) && lhs.index == rhs.index && Joins(lhs, rhs) ==>
      t(rhs.(upper := lhs.upper)) == t(lhs) + t(rhs)
  }

  /** What the sums rely on. */
  ghost predicate Linear(t: Measure) {
    && (forall s, k :: ScalesBy(t, s, k))
    && (forall a, b, k :: FoldsInto(t, a, b, k))
    && (forall s :: Cancels(t, s))
    && (forall lhs, rhs :: JoinsTo(t, lhs, rhs))
  }

  lemma MeasureIsLinear(rho: Valuation)
    ensures Linear(MeasureOf(rho))
  {
    var t := MeasureOf(rho);
    forall s, k ensures ScalesBy(t, s, k) {
      assert DigitAt(s.(scale := s.scale * k), Eval(s.index, rho)) == DigitAt(s, Eval(s.index, rho));
      Distribute(DigitAt(s, Eval(s.index, rho)), 0, s.scale, k);
    }
    forall a, b, k ensures FoldsInto(t, a, b, k) {
      if a.index == b.index && SameSlot(b, a) {
        var x := Eval(a.index, rho);
        SameSlotDigit(b, a, x);
        assert DigitAt(a.(scale := a.scale + b.scale * k), x) == DigitAt(a, x);
        Distribute(DigitAt(a, x), a.scale, b.scale, k);
      }
    }
    forall lhs, rhs ensures JoinsTo(t, lhs, rhs) {
      if Valid(lhs) && Valid(rhs) && lhs.index == rhs.index && Joins(lhs, rhs) {
        JoinValue(lhs, rhs, Eval(lhs.index, rho));
      }
    }
  }

  lemma AddSplitTotal(args: seq<SplitExpr>, other: SplitExpr, scale: int, t: Measure)
    requires Linear(t)
    ensures Total(AddSplit(args, other, scale), t) == Total(args, t) + t(other) * scale
  {
    var p := Scan(args, other, FirstIndex(args, other.index, 0));
    if other.scale == 0 {
      assert Cancels(t, other) && other == other.(scale := 0);
    } else if p < |args| && Merges(args, other, p) {
      assert FoldsInto(t, args[p], other, scale);
      TotalUpdate(args, p, args[p].(scale := args[p].scale + other.scale * scale), t);
    } else {
      assert ScalesBy(t, other, scale);
      TotalInsert(args, p, other.(scale := other.scale * scale), t);
    }
  }

  /** Adding changes the value by scale times the added split. */
  lemma AddSplitValue(args: seq<SplitExpr>, other: SplitExpr, scale: int, rho: Valuation)
    ensures ArgsValue(AddSplit(args, other, scale), rho) == ArgsValue(args, rho) + SplitValue(other, rho) * scale
  {
    MeasureIsLinear(rho);
    AddSplitTotal(args, other, scale, MeasureOf(rho));
  }

  lemma Distribute(d: int, a: int, b: int, c: int)
    ensures d * (a + b * c) == d * a + (d * b) * c
    ensures d * (b * c) == (d * b) * c
  {
  }

  lemma AddSplitValid(args: seq<SplitExpr>, other: SplitExpr, scale: int)
    requires AllValid(args) && Valid(other)
    ensures AllValid(AddSplit(args, other, scale))
  {
  }

  /** Adding keeps equal indices together and sorted. */
  lemma AddSplitSegmented(args: seq<SplitExpr>, other: SplitExpr, scale: int)
    requires Segmented(args)
    ensures Segmented(AddSplit(args, other, scale))
  {
    if other.scale != 0 {
      var f := FirstIndex(args, other.index, 0);
      var p := Scan(args, other, f);
      if p < |args| && Merges(args, other, p) {
        KeepSlots(args, AddSplit(args, other, scale));
      } else {
        forall i | f <= i < p ensures args[i].index == other.index && other.lower <= args[i].lower {
          assert !StopsAt(args, other, i);
        }
        InsertSegmented(args, other.(scale := other.scale * scale), f, p);
      }
    }
  }

  lemma KeepSlots(args: seq<SplitExpr>, r: seq<SplitExpr>)
    requires Segmented(args) && |r| == |args|
    requires forall i :: 0 <= i < |args| ==> r[i].index == args[i].index && r[i].lower == args[i].lower
    ensures Segmented(r)
  {
  }

  lemma InsertSegmented(args: seq<SplitExpr>, s: SplitExpr, f: nat, p: nat)
    requires Segmented(args) && f <= p <= |args|
    requires forall i :: 0 <= i < f ==> args[i].index != s.index
    requires f == |args| || args[f].index == s.index
    requires forall i :: f <= i < p ==> args[i].index == s.index && s.lower <= args[i].lower
    requires p < |args| && args[p].index == s.index ==> s.lower >= args[p].lower
    ensures Segmented(args[..p] + [s] + args[p..])
  {
    var r := args[..p] + [s] + args[p..];
    assert forall i :: 0 <= i < p ==> r[i] == args[i];
    assert forall i :: p < i < |r| ==> r[i] == args[i - 1];
    assert f == p && f < |args| ==> args[p].index == s.index;
    forall i | p <= i < |args| && args[i].index == s.index ensures args[p].index == s.index &&
      args[i].lower <= s.lower && f < |args| {
      if p < i && f < p { assert args[f].index == args[i].index; }
    }
    forall i, j | 0 <= i < j < |r| && r[i].index == r[j].index ensures r[i].lower >= r[j].lower {
      OldPosition(args, s, p, i);
      OldPosition(args, s, p, j);
    }
    forall i, j, k | 0 <= i < j < k < |r| && r[i].index == r[k].index ensures r[j].index == r[i].index {
      OldPosition(args, s, p, i);
      OldPosition(args, s, p, j);
      OldPosition(args, s, p, k);
    }
  }

  lemma OldPosition(args: seq<SplitExpr>, s: SplitExpr, p: nat, i: nat)
    requires p <= |args| && i <= |args|
    ensures var r := args[..p] + [s] + args[p..];
      r[i] == if i < p then args[i] else if i == p then s else args[i - 1]
  {
  }

  // ----- adding, scaling and dividing sums -----

  function AddArgs(args: seq<SplitExpr>, others: seq<SplitExpr>, scale: int): seq<SplitExpr> {
    if others == [] then args else AddSplit(AddArgs(args, others[..|others| - 1], scale), others[|others| - 1], scale)
  }

  /** sum + other * scale. */
  function AddSum(sum: SumExpr, other: SumExpr, scale: int): SumExpr {
    SumExpr(AddArgs(sum.args, other.args, scale), sum.base + other.base * scale)
  }

  ghost predicate Canonical(sum: SumExpr) {
    AllValid(sum.args) && Segmented(sum.args)
  }

  lemma {:induction false} AddArgsTotal(args: seq<SplitExpr>, others: seq<SplitExpr>, scale: int, t: Measure)
    requires Linear(t)
    ensures Total(AddArgs(args, others, scale), t) == Total(args, t) + Total(others, t) * scale
  {
    if others != [] {
      var k := |others| - 1;
      AddArgsTotal(args, others[..k], scale, t);
      var before, after := AddArgs(args, others[..k], scale), AddArgs(args, others, scale);
      AddedLast(before, after, others[k], scale, t);
      AddedTerms(Total(args, t), Total(before, t), Total(after, t), Total(others[..k], t), t(others[k]), scale);
    }
  }

  lemma AddedLast(before: seq<SplitExpr>, after: seq<SplitExpr>, other: SplitExpr, scale: int, t: Measure)
    requires Linear(t) && after == AddSplit(before, other, scale)
    ensures Total(after, t) == Total(before, t) + t(other) * scale
  {
    AddSplitTotal(before, other, scale, t);
  }

  lemma AddedTerms(start: int, before: int, after: int, a: int, b: int, k: int)
    requires before == start + a * k && after == before + b * k
    ensures after == start + (a + b) * k
  {
    SumTimes(a, b, k);
  }

  lemma SumTimes(a: int, b: int, k: int)
    ensures (a + b) * k == a * k + b * k
  {
  }

  lemma {:induction false} AddArgsValid(args: seq<SplitExpr>, others: seq<SplitExpr>, scale: int)
    requires AllValid(args) && AllValid(others)
    ensures AllValid(AddArgs(args, others, scale))
  {
    if others != [] {
      var k := |others| - 1;
      AddArgsValid(args, others[..k], scale);
      AddSplitValid(AddArgs(args, others[..k], scale), others[k], scale);
    }
  }

  lemma {:induction false} AddArgsSegmented(args: seq<SplitExpr>, others: seq<SplitExpr>, scale: int)
    requires Segmented(args)
    ensures Segmented(AddArgs(args, others, scale))
  {
    if others != [] {
      var k := |others| - 1;
      AddArgsSegmented(args, others[..k], scale);
      AddSplitSegmented(AddArgs(args, others[..k], scale), others[k], scale);
    }
  }

  /** Adding a sum with a scale: exact value, and the canonical order is kept. */
  lemma AddSumValue(sum: SumExpr, other: SumExpr, scale: int, rho: Valuation)
    ensures SumValue(AddSum(sum, other, scale), rho) == SumValue(sum, rho) + SumValue(other, rho) * scale
    ensures Canonical(sum) && AllValid(other.args) ==> Canonical(AddSum(sum, other, scale))
  {
    MeasureIsLinear(rho);
    AddArgsTotal(sum.args, other.args, scale, MeasureOf(rho));
    SumTimes(ArgsValue(other.args, rho), other.base, scale);
    if Canonical(sum) && AllValid(other.args) {
      AddArgsValid(sum.args, other.args, scale);
      AddArgsSegmented(sum.args, other.args, scale);
    }
  }

  function Rescale(args: seq<SplitExpr>, f: int -> int): (r: seq<SplitExpr>)
    ensures |r| == |args| && forall i :: 0 <= i < |args| ==> r[i] == args[i].(scale := f(args[i].scale))
  {
    seq(|args|, i requires 0 <= i < |args| => args[i].(scale := f(args[i].scale)))
  }

  /** Every scale becomes `k` times what it was. */
  ghost predicate Multiplied(r: seq<SplitExpr>, args: seq<SplitExpr>, k: int) {
    |r| == |args| && forall i :: 0 <= i < |args| ==>
      r[i] == args[i].(scale := r[i].scale) && r[i].scale == args[i].scale * k
  }

  lemma {:induction false} MultipliedTotal(r: seq<SplitExpr>, args: seq<SplitExpr>, k: int, t: Measure)
    requires Multiplied(r, args, k) && Linear(t)
    ensures Total(r, t) == Total(args, t) * k
  {
    if args != [] {
      var n := |args| - 1;
      MultipliedTotal(r[..n], args[..n], k, t);
      assert r[n] == args[n].(scale := r[n].scale) && r[n].scale == args[n].scale * k;
      assert ScalesBy(t, args[n], k);
      SumTimes(Total(args[..n], t), t(args[n]), k);
    }
  }

  lemma MultipliedSum(r: SumExpr, sum: SumExpr, k: int, rho: Valuation)
    requires Multiplied(r.args, sum.args, k) && r.base == sum.base * k
    ensures SumValue(r, rho) == SumValue(sum, rho) * k
  {
    MeasureIsLinear(rho);
    MultipliedTotal(r.args, sum.args, k, MeasureOf(rho));
    SumTimes(ArgsValue(sum.args, rho), sum.base, k);
  }

  function MulSum(sum: SumExpr, k: int): SumExpr {
    SumExpr(Rescale(sum.args, c => c * k), sum.base * k)
  }

  lemma MulSumValue(sum: SumExpr, k: int, rho: Valuation)
    ensures SumValue(MulSum(sum, k), rho) == SumValue(sum, rho) * k
    ensures Canonical(sum) ==> Canonical(MulSum(sum, k))
  {
    MultipliedSum(MulSum(sum, k), sum, k, rho);
    if Canonical(sum) { KeepSlots(sum.args, MulSum(sum, k).args); }
  }

  predicate DivisibleBy(sum: SumExpr, k: int)
    requires k != 0
  {
    TruncMod(sum.base, k) == 0 && forall i :: 0 <= i < |sum.args| ==> TruncMod(sum.args[i].scale, k) == 0
  }

  function DivideSum(sum: SumExpr, k: int): SumExpr
    requires k != 0 && DivisibleBy(sum, k)
  {
    SumExpr(Rescale(sum.args, c => TruncDiv(c, k)), TruncDiv(sum.base, k))
  }

  function DividedSplit(s: SplitExpr, k: int): SplitExpr
    requires k != 0
  {
    s.(scale := TruncDiv(s.scale, k))
  }

  lemma DividedAt(sum: SumExpr, k: int, i: nat)
    requires k != 0 && DivisibleBy(sum, k) && i < |sum.args|
    ensures |DivideSum(sum, k).args| == |sum.args| && DivideSum(sum, k).args[i] == DividedSplit(sum.args[i], k)
  {
  }

  /** Exact division undoes multiplication. */
  lemma DivideSumValue(sum: SumExpr, k: int, rho: Valuation)
    requires k != 0 && DivisibleBy(sum, k)
    ensures SumValue(DivideSum(sum, k), rho) * k == SumValue(sum, rho)
    ensures Canonical(sum) ==> Canonical(DivideSum(sum, k))
    ensures AllValid(sum.args) ==> AllValid(DivideSum(sum, k).args)
  {
    var r := DivideSum(sum, k);
    TruncLaw(sum.base, k);
    forall i | 0 <= i < |sum.args| ensures sum.args[i].scale == r.args[i].scale * k { TruncLaw(sum.args[i].scale, k); }
    forall i | 0 <= i < |r.args| ensures sum.args[i] == r.args[i].(scale := sum.args[i].scale) {}
    MultipliedSum(sum, r, k, rho);
    if Canonical(sum) { KeepSlots(sum.args, r.args); }
  }

  // ----- merging splits of one index -----

  predicate Joins(lhs: SplitExpr, rhs: SplitExpr) {
    && rhs.upper == Fin(lhs.lower) && rhs.scale != 0 && TruncMod(lhs.scale, rhs.scale) == 0
    && lhs.lower == TruncDiv(lhs.scale, rhs.scale) * rhs.lower
    && DivModeCompatibleTo(lhs, rhs.mode)
  }

  /** The inner loop: fold args[i] into a later split of the same index. */
  function MergeRow(args: seq<SplitExpr>, i: nat, j: nat): (r: seq<SplitExpr>)
    requires i < j <= |args|
    ensures |r| == |args|
    decreases |args| - j
  {
    if j == |args| then args else
      var lhs, rhs := args[i], args[j];
      if lhs.index != rhs.index then args
      else if lhs.upper.Fin? && lhs.upper.k < rhs.lower then args
      else if SameSlot(lhs, rhs) then
        MergeRow(Folded(args, i, j), i, j + 1)
      else if Joins(lhs, rhs) then args[j := rhs.(upper := lhs.upper)][i := lhs.(scale := 0)]
      else MergeRow(args, i, j + 1)
  }

  function MergeAll(args: seq<SplitExpr>, i: nat): (r: seq<SplitExpr>)
    requires i <= |args|
    ensures |r| == |args|
    decreases |args| - i
  {
    if i == |args| then args
    else if args[i].scale == 0 then MergeAll(args, i + 1)
    else MergeAll(MergeRow(args, i, i + 1), i + 1)
  }

  lemma ReducedTwice(x: int, upper: Factor, m: int, mode: DivMode)
    requires m != 0 && (upper.Fin? ==> upper.k != 0 && Divides(m, upper.k))
    ensures ModBy(Reduced(x, upper, mode), m, mode) == ModBy(x, m, mode)
  {
    if upper.Fin? { NestedBy(x, Quotient(upper.k, m), m, mode); }
  }

  lemma JoinValue(lhs: SplitExpr, rhs: SplitExpr, x: int)
    requires Valid(lhs) && Valid(rhs) && Joins(lhs, rhs)
    ensures Valid(rhs.(upper := lhs.upper))
    ensures DigitAt(rhs.(upper := lhs.upper), x) * rhs.scale ==
      DigitAt(lhs, x) * lhs.scale + DigitAt(rhs, x) * rhs.scale
  {
    var s, c, t := TruncDiv(lhs.scale, rhs.scale), rhs.lower, rhs.scale;
    TruncLaw(lhs.scale, rhs.scale);
    NonzeroFactor(s, c);
    var m := rhs.mode;
    if lhs.mode != m { SameSlotDigit(lhs, lhs.(mode := m), x); }
    var y := Reduced(x, lhs.upper, m);
    NestedBy(y, s, c, m);
    ReducedTwice(x, lhs.upper, s * c, m);
    assert DigitAt(lhs, x) == DivBy(y, s * c, m);
    assert DigitAt(rhs, x) == DivBy(ModBy(x, s * c, m), c, m);
    JoinScales(DigitAt(lhs, x), s, DigitAt(rhs, x), t);
    if lhs.upper.Fin? {
      DividesIntro(c, s * c, s);
      DividesTransitive(c, lhs.lower, lhs.upper.k);
    }
  }

  lemma JoinScales(a: int, s: int, b: int, t: int)
    ensures (a * s + b) * t == a * (s * t) + b * t
  {
  }

  lemma NonzeroFactor(s: int, c: int)
    requires s * c != 0
    ensures s != 0 && c != 0
  {
  }

  lemma PositiveFactor(s: int, c: int)
    requires c > 0 && s * c > 0
    ensures s > 0
  {
  }

  lemma MoveTotal(args: seq<SplitExpr>, i: nat, j: nat, l: SplitExpr, r: SplitExpr, t: Measure)
    requires i < j < |args|
    ensures Total(args[j := r][i := l], t) == Total(args, t) - t(args[i]) - t(args[j]) + t(l) + t(r)
  {
    TotalUpdate(args, j, r, t);
    TotalUpdate(args[j := r], i, l, t);
  }

  /** args[i] is emptied into args[j]. */
  function Folded(args: seq<SplitExpr>, i: nat, j: nat): seq<SplitExpr>
    requires i < j < |args|
  {
    args[j := args[j].(scale := args[j].scale + args[i].scale)][i := args[i].(scale := 0)]
  }

  lemma SameSlotFold(args: seq<SplitExpr>, i: nat, j: nat, t: Measure)
    requires i < j < |args| && Linear(t) && args[i].index == args[j].index && SameSlot(args[i], args[j])
    ensures Total(Folded(args, i, j), t) == Total(args, t)
  {
    FoldsOnce(t, args[j], args[i]);
    EmptiedTotal(args, i, j, args[i].(scale := 0), args[j].(scale := args[j].scale + args[i].scale), t);
  }

  /** The value moves from position i to position j. */
  lemma EmptiedTotal(args: seq<SplitExpr>, i: nat, j: nat, l: SplitExpr, r: SplitExpr, t: Measure)
    requires i < j < |args| && t(l) == 0 && t(r) == t(args[j]) + t(args[i])
    ensures Total(args[j := r][i := l], t) == Total(args, t)
  {
    MoveTotal(args, i, j, l, r, t);
  }

  lemma FoldsOnce(t: Measure, a: SplitExpr, b: SplitExpr)
    requires Linear(t) && a.index == b.index && SameSlot(b, a)
    ensures t(a.(scale := a.scale + b.scale)) == t(a) + t(b) && t(b.(scale := 0)) == 0
  {
    assert FoldsInto(t, a, b, 1) && Cancels(t, b);
    assert b.scale * 1 == b.scale;
  }

  lemma JoinFold(args: seq<SplitExpr>, i: nat, j: nat, t: Measure)
    requires i < j < |args| && Linear(t) && AllValid(args) && args[i].index == args[j].index && Joins(args[i], args[j])
    ensures Total(args[j := args[j].(upper := args[i].upper)][i := args[i].(scale := 0)], t) == Total(args, t)
  {
    MoveTotal(args, i, j, args[i].(scale := 0), args[j].(upper := args[i].upper), t);
    assert Cancels(t, args[i]) && JoinsTo(t, args[i], args[j]);
  }

  /** One row keeps the value. */
  lemma {:induction false} MergeRowTotal(args: seq<SplitExpr>, i: nat, j: nat, t: Measure)
    requires i < j <= |args| && AllValid(args) && Linear(t)
    ensures Total(MergeRow(args, i, j), t) == Total(args, t)
    decreases |args| - j
  {
    if j < |args| && args[i].index == args[j].index {
      var lhs, rhs := args[i], args[j];
      if !(lhs.upper.Fin? && lhs.upper.k < rhs.lower) {
        if SameSlot(lhs, rhs) {
          SameSlotFold(args, i, j, t);
          MergeRowTotal(Folded(args, i, j), i, j + 1, t);
        } else if Joins(lhs, rhs) {
          JoinFold(args, i, j, t);
        } else {
          MergeRowTotal(args, i, j + 1, t);
        }
      }
    }
  }

  lemma {:induction false} MergeRowValid(args: seq<SplitExpr>, i: nat, j: nat)
    requires i < j <= |args| && AllValid(args)
    ensures AllValid(MergeRow(args, i, j))
    decreases |args| - j
  {
    if j < |args| && args[i].index == args[j].index {
      var lhs, rhs := args[i], args[j];
      if !(lhs.upper.Fin? && lhs.upper.k < rhs.lower) {
        if SameSlot(lhs, rhs) {
          MergeRowValid(Folded(args, i, j), i, j + 1);
        } else if Joins(lhs, rhs) {
          JoinValue(lhs, rhs, 0);
        } else {
          MergeRowValid(args, i, j + 1);
        }
      }
    }
  }

  lemma {:induction false} MergeAllTotal(args: seq<SplitExpr>, i: nat, t: Measure)
    requires i <= |args| && AllValid(args) && Linear(t)
    ensures AllValid(MergeAll(args, i)) && Total(MergeAll(args, i), t) == Total(args, t)
    decreases |args| - i
  {
    if i < |args| {
      if args[i].scale == 0 {
        MergeAllTotal(args, i + 1, t);
      } else {
        MergeRowTotal(args, i, i + 1, t);
        MergeRowValid(args, i, i + 1);
        MergeAllTotal(MergeRow(args, i, i + 1), i + 1, t);
      }
    }
  }

  // ----- the final stable sort -----

  predicate Above(a: Factor, b: Factor) {
    b.Fin? && (a.Inf? || a.k > b.k)
  }

  /** The order of the final sort: descending scale, lower factor, upper factor, mode. */
  predicate Before(a: SplitExpr, b: SplitExpr) {
    if a.scale != b.scale then a.scale > b.scale
    else if a.lower != b.lower then a.lower > b.lower
    else if a.upper != b.upper then Above(a.upper, b.upper)
    else a.mode == FloorMode && b.mode == TruncMode
  }

  function InsertSplit(s: SplitExpr, es: seq<SplitExpr>): seq<SplitExpr> {
    if es == [] || Before(s, es[0]) then [s] + es else [es[0]] + InsertSplit(s, es[1..])
  }

  function SortSplits(args: seq<SplitExpr>): seq<SplitExpr> {
    if args == [] then [] else InsertSplit(args[|args| - 1], SortSplits(args[..|args| - 1]))
  }

  ghost predicate Sorted(es: seq<SplitExpr>) {
    forall i, j :: 0 <= i < j < |es| ==> !Before(es[j], es[i])
  }

  lemma {:induction false} InsertTotal(s: SplitExpr, es: seq<SplitExpr>, t: Measure)
    ensures Total(InsertSplit(s, es), t) == Total(es, t) + t(s)
  {
    if es == [] || Before(s, es[0]) {
      TotalFirst(s, es, t);
    } else {
      InsertTotal(s, es[1..], t);
      assert es == [es[0]] + es[1..];
      TotalFirst(es[0], es[1..], t);
      TotalFirst(es[0], InsertSplit(s, es[1..]), t);
    }
  }

  lemma TotalFirst(s: SplitExpr, es: seq<SplitExpr>, t: Measure)
    ensures Total([s] + es, t) == t(s) + Total(es, t)
  {
    TotalAppend([s], es, t);
    TotalSingle(s, t);
  }

  lemma {:induction false} InsertPermutes(s: SplitExpr, es: seq<SplitExpr>)
    ensures multiset(InsertSplit(s, es)) == multiset(es) + multiset{s}
  {
    if !(es == [] || Before(s, es[0])) {
      InsertPermutes(s, es[1..]);
      assert es == [es[0]] + es[1..];
    }
  }

  lemma BeforeOrder(a: SplitExpr, b: SplitExpr, c: SplitExpr)
    ensures Before(a, b) ==> !Before(b, a)
    ensures !Before(b, a) && !Before(c, b) ==> !Before(c, a)
  {
  }

  lemma {:induction false} InsertSorted(s: SplitExpr, es: seq<SplitExpr>)
    requires Sorted(es)
    ensures Sorted(InsertSplit(s, es))
  {
    if es == [] || Before(s, es[0]) {
      forall i | 0 <= i < |es| ensures !Before(es[i], s) {
        BeforeOrder(s, es[0], es[i]);
        if i > 0 { assert !Before(es[i], es[0]); }
      }
    } else {
      InsertSorted(s, es[1..]);
      InsertPermutes(s, es[1..]);
      var r := InsertSplit(s, es[1..]);
      forall i | 0 <= i < |r| ensures !Before(r[i], es[0]) {
        assert r[i] in multiset(r);
      }
    }
  }

  lemma {:induction false} SortTotal(args: seq<SplitExpr>, t: Measure)
    ensures Total(SortSplits(args), t) == Total(args, t)
  {
    if args != [] {
      SortTotal(args[..|args| - 1], t);
      InsertTotal(args[|args| - 1], SortSplits(args[..|args| - 1]), t);
    }
  }

  lemma {:induction false} SortPermutes(args: seq<SplitExpr>)
    ensures multiset(SortSplits(args)) == multiset(args) && Sorted(SortSplits(args))
  {
    if args != [] {
      var k := |args| - 1;
      SortPermutes(args[..k]);
      InsertPermutes(args[k], SortSplits(args[..k]));
      InsertSorted(args[k], SortSplits(args[..k]));
      assert args == args[..k] + [args[k]];
    }
  }

  function SimplifySplitExprs(args: seq<SplitExpr>): seq<SplitExpr> {
    SortSplits(MergeAll(args, 0))
  }

  /** Merging and sorting keep the value of the sum. */
  lemma SimplifySplitExprsValue(args: seq<SplitExpr>, rho: Valuation)
    requires AllValid(args)
    ensures ArgsValue(SimplifySplitExprs(args), rho) == ArgsValue(args, rho)
    ensures AllValid(SimplifySplitExprs(args)) && Sorted(SimplifySplitExprs(args))
  {
    MeasureIsLinear(rho);
    MergeAllTotal(args, 0, MeasureOf(rho));
    SortTotal(MergeAll(args, 0), MeasureOf(rho));
    SortPermutes(MergeAll(args, 0));
    var m, r := MergeAll(args, 0), SortSplits(MergeAll(args, 0));
    forall i | 0 <= i < |r| ensures Valid(r[i]) {
      assert r[i] in multiset(m);
    }
  }

  // ----- back to expressions -----

  /** Operators that fold constants as they build. */
  function Plus(a: Expr, b: Expr): Expr {
    if a.Const? && b.Const? then Const(a.value + b.value)
    else if a == Const(0) then b else if b == Const(0) then a else Add(a, b)
  }

  function Minus(a: Expr, b: Expr): Expr {
    if a.Const? && b.Const? then Const(a.value - b.value) else if b == Const(0) then a else Sub(a, b)
  }

  function Times(a: Expr, k: int): Expr {
    if a.Const? then Const(a.value * k) else if k == 1 then a else if k == 0 then Const(0) else Mul(a, Const(k))
  }

  function DivImpl(a: Expr, k: int, mode: DivMode): Expr {
    if k != 0 && a.Const? then Const(DivBy(a.value, k, mode))
    else if k == 1 then a
    else if mode == TruncMode then Div(a, Const(k)) else Expr.FloorDiv(a, Const(k))
  }

  function ModImpl(a: Expr, k: int, mode: DivMode): Expr {
    if k != 0 && a.Const? then Const(ModBy(a.value, k, mode))
    else if k == 1 then Const(0)
    else if mode == TruncMode then Mod(a, Const(k)) else Expr.FloorMod(a, Const(k))
  }

  lemma OperatorValues(a: Expr, b: Expr, rho: Valuation)
    ensures Eval(Plus(a, b), rho) == Eval(a, rho) + Eval(b, rho)
    ensures Eval(Minus(a, b), rho) == Eval(a, rho) - Eval(b, rho)
  {
  }

  lemma TimesValue(a: Expr, k: int, rho: Valuation)
    ensures Eval(Times(a, k), rho) == Eval(a, rho) * k
  {
    assert Eval(Const(k), rho) == k;
    if !a.Const? && k != 1 && k != 0 { assert Eval(Mul(a, Const(k)), rho) == Eval(a, rho) * k; }
  }

  lemma DivisionValues(a: Expr, k: int, mode: DivMode, rho: Valuation)
    requires k != 0
    ensures Eval(DivImpl(a, k, mode), rho) == DivBy(Eval(a, rho), k, mode)
    ensures Eval(ModImpl(a, k, mode), rho) == ModBy(Eval(a, rho), k, mode)
  {
    if a.Const? {
      ConstValue(a.value, rho);
      ConstValue(DivBy(a.value, k, mode), rho);
      ConstValue(ModBy(a.value, k, mode), rho);
    } else if k == 1 {
      ExactBy(Eval(a, rho), 1, mode);
      ConstValue(0, rho);
    } else {
      OperatorByConst(a, k, mode, rho);
    }
  }

  lemma ConstValue(k: int, rho: Valuation)
    ensures Eval(Const(k), rho) == k
  {
  }

  lemma OperatorByConst(a: Expr, k: int, mode: DivMode, rho: Valuation)
    requires k != 0
    ensures Eval(if mode == TruncMode then Div(a, Const(k)) else Expr.FloorDiv(a, Const(k)), rho) ==
      DivBy(Eval(a, rho), k, mode)
    ensures Eval(if mode == TruncMode then Mod(a, Const(k)) else Expr.FloorMod(a, Const(k)), rho) ==
      ModBy(Eval(a, rho), k, mode)
  {
    ConstValue(k, rho);
  }

  function NormalizeSplit(s: SplitExpr, sscale: int): Expr {
    if s.scale == 0 then Const(0) else
      var reduced := if s.upper.Fin? then ModImpl(s.index, s.upper.k, s.mode) else s.index;
      var divided := if s.lower != 1 then DivImpl(reduced, s.lower, s.mode) else reduced;
      if s.scale * sscale != 1 then Times(divided, s.scale * sscale) else divided
  }

  /** The factors can be divided by. */
  predicate Nonzero(s: SplitExpr) {
    s.lower != 0 && (s.upper.Fin? ==> s.upper.k != 0)
  }

  lemma DigitExpr(s: SplitExpr, rho: Valuation)
    requires Nonzero(s)
    ensures var reduced := if s.upper.Fin? then ModImpl(s.index, s.upper.k, s.mode) else s.index;
      Eval(if s.lower != 1 then DivImpl(reduced, s.lower, s.mode) else reduced, rho) == DigitAt(s, Eval(s.index, rho))
  {
    var reduced := if s.upper.Fin? then ModImpl(s.index, s.upper.k, s.mode) else s.index;
    if s.upper.Fin? { DivisionValues(s.index, s.upper.k, s.mode, rho); }
    DivisionValues(reduced, s.lower, s.mode, rho);
    if s.lower == 1 { ExactBy(Eval(reduced, rho), 1, s.mode); }
  }

  lemma NormalizeSplitValue(s: SplitExpr, sscale: int, rho: Valuation)
    requires Nonzero(s)
    ensures Eval(NormalizeSplit(s, sscale), rho) == SplitValue(s, rho) * sscale
  {
    var x := Eval(s.index, rho);
    if s.scale != 0 {
      DigitExpr(s, rho);
      var reduced := if s.upper.Fin? then ModImpl(s.index, s.upper.k, s.mode) else s.index;
      var divided := if s.lower != 1 then DivImpl(reduced, s.lower, s.mode) else reduced;
      TimesValue(divided, s.scale * sscale, rho);
      Distribute(DigitAt(s, x), 0, s.scale, sscale);
      if s.scale * sscale == 1 { assert DigitAt(s, x) * 1 == DigitAt(s, x); }
    }
  }

  /** Positive scales are added, in order. */
  function Positives(args: seq<SplitExpr>, res: Expr): Expr {
    if args == [] then res
    else Positives(args[1..], if args[0].scale > 0 then Plus(res, NormalizeSplit(args[0], 1)) else res)
  }

  /** Negative scales are subtracted, in order. */
  function Negatives(args: seq<SplitExpr>, res: Expr): Expr {
    if args == [] then res
    else Negatives(args[1..], if args[0].scale < 0 then Minus(res, NormalizeSplit(args[0], -1)) else res)
  }

  function NormalizeArgs(args: seq<SplitExpr>, base: int): Expr {
    var positive := Positives(args, Const(0));
    var based := if base > 0 then Plus(positive, Const(base)) else positive;
    var negative := Negatives(args, based);
    if base < 0 then Minus(negative, Const(-base)) else negative
  }

  /** SumExprNode::Normalize. */
  function NormalizeSum(sum: SumExpr): Expr {
    if sum.args == [] then Const(sum.base) else NormalizeArgs(SimplifySplitExprs(sum.args), sum.base)
  }

  lemma {:induction false} SignedParts(args: seq<SplitExpr>, p: Expr, n: Expr, rho: Valuation)
    requires forall i :: 0 <= i < |args| ==> Nonzero(args[i])
    ensures Eval(Positives(args, p), rho) - Eval(p, rho) + (Eval(Negatives(args, n), rho) - Eval(n, rho)) ==
      ArgsValue(args, rho)
  {
    if args != [] {
      var a := args[0];
      var p1 := if a.scale > 0 then Plus(p, NormalizeSplit(a, 1)) else p;
      var n1 := if a.scale < 0 then Minus(n, NormalizeSplit(a, -1)) else n;
      SignedParts(args[1..], p1, n1, rho);
      SignedPart(a, p, n, rho);
      FirstTotal(args, MeasureOf(rho));
    }
  }

  lemma SignedPart(a: SplitExpr, p: Expr, n: Expr, rho: Valuation)
    requires Nonzero(a)
    ensures var p1 := if a.scale > 0 then Plus(p, NormalizeSplit(a, 1)) else p;
      var n1 := if a.scale < 0 then Minus(n, NormalizeSplit(a, -1)) else n;
      Eval(p1, rho) - Eval(p, rho) + (Eval(n1, rho) - Eval(n, rho)) == SplitValue(a, rho)
  {
    OperatorValues(p, NormalizeSplit(a, 1), rho);
    OperatorValues(n, NormalizeSplit(a, -1), rho);
    NormalizeSplitValue(a, 1, rho);
    NormalizeSplitValue(a, -1, rho);
    if a.scale == 0 { assert SplitValue(a, rho) == 0; }
  }

  lemma FirstTotal(args: seq<SplitExpr>, t: Measure)
    requires args != []
    ensures Total(args, t) == t(args[0]) + Total(args[1..], t)
  {
    TotalAround([], args[0], args[1..], t);
    assert [] + [args[0]] + args[1..] == args;
  }

  /** The expression of a sum has its value. */
  lemma NormalizeSumValue(sum: SumExpr, rho: Valuation)
    requires AllValid(sum.args)
    ensures Eval(NormalizeSum(sum), rho) == SumValue(sum, rho)
  {
    if sum.args != [] {
      SimplifySplitExprsValue(sum.args, rho);
      NormalizeArgsValue(SimplifySplitExprs(sum.args), sum.base, rho);
    }
  }

  lemma NormalizeArgsValue(args: seq<SplitExpr>, base: int, rho: Valuation)
    requires AllValid(args)
    ensures Eval(NormalizeArgs(args, base), rho) == ArgsValue(args, rho) + base
  {
    var positive := Positives(args, Const(0));
    var based := if base > 0 then Plus(positive, Const(base)) else positive;
    var negative := Negatives(args, based);
    forall i | 0 <= i < |args| ensures Nonzero(args[i]) { assert Valid(args[i]); }
    SignedParts(args, Const(0), based, rho);
    assert Eval(Const(0), rho) == 0 && Eval(Const(base), rho) == base && Eval(Const(-base), rho) == -base;
    OperatorValues(positive, Const(base), rho);
    OperatorValues(negative, Const(-base), rho);
  }
}
