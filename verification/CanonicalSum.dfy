/**
 SumExprNode of src/arith/canonical_simplify.cc as the mutable object it is: each
 method is proved against the function of CanonicalForm that specifies it.
 */
module CanonicalSum {
  import opened IntOperator
  import opened Exprs
  import opened CanonicalForm

  class SumExprNode {
    var args: seq<SplitExpr>
    var base: int

    function Contents(): SumExpr
      reads this
    {
      SumExpr(args, base)
    }

    constructor ()
      ensures Contents() == SumExpr([], 0)
    {
      args, base := [], 0;
    }


    method AddConstant(value: int)
      modifies this`base
      ensures base == old(base) + value
      ensures forall rho: Valuation :: SumValue(Contents(), rho) == SumValue(old(Contents()), rho) + value
    {
      base := base + value;
    }

    method AddToSelf(other: SplitExpr, scale: int)
      modifies this`args
      ensures args == AddSplit(old(args), other, scale)
      ensures old(Segmented(args)) ==> Segmented(args)
      ensures forall rho: Valuation ::
        SumValue(Contents(), rho) == SumValue(old(Contents()), rho) + SplitValue(other, rho) * scale
    {
      ghost var before := args;
      Place(other, scale);
      forall rho: Valuation ensures ArgsValue(args, rho) == ArgsValue(before, rho) + SplitValue(other, rho) * scale {
        AddSplitValue(before, other, scale, rho);
      }
      if Segmented(before) { AddSplitSegmented(before, other, scale); }
    }

    /** The scan for the place of a split: merge, insert or append. */
    method Place(other: SplitExpr, scale: int)
      modifies this`args
      ensures args == AddSplit(old(args), other, scale)
    {
      if other.scale == 0 { return; }
      var start := 0;
      while start < |args|
        invariant 0 <= start <= |args|
        invariant FirstIndex(args, other.index, 0) == FirstIndex(args, other.index, start)
      {
        if args[start].index == other.index { break; }
        start := start + 1;
      }
      assert start == FirstIndex(args, other.index, 0);
      var j := start;
      while j < |args|
        invariant start <= j <= |args|
        invariant args == old(args) && Scan(args, other, start) == Scan(args, other, j)
      {
        if args[j].index != other.index || other.lower > args[j].lower {
          args := args[..j] + [other.(scale := other.scale * scale)] + args[j..];
          return;
        }
        if SameSlot(other, args[j]) {
          args := args[j := args[j].(scale := args[j].scale + other.scale * scale)];
          return;
        }
        j := j + 1;
      }
      args := args + [other.(scale := other.scale * scale)];
      assert args == old(args)[..j] + [other.(scale := other.scale * scale)] + old(args)[j..];
    }

    method AddSumToSelf(other: SumExpr, scale: int)
      modifies this
      ensures Contents() == AddSum(old(Contents()), other, scale)
      ensures forall rho: Valuation ::
        SumValue(Contents(), rho) == SumValue(old(Contents()), rho) + SumValue(other, rho) * scale
      ensures old(Canonical(Contents())) && AllValid(other.args) ==> Canonical(Contents())
    {
      ghost var before := Contents();
      for i := 0 to |other.args|
        invariant args == AddArgs(before.args, other.args[..i], scale) && base == before.base
      {
        assert other.args[..i + 1][..i] == other.args[..i];
        AddToSelf(other.args[i], scale);
      }
      assert other.args[..|other.args|] == other.args;
      AddConstant(other.base * scale);
      forall rho: Valuation ensures SumValue(Contents(), rho) == SumValue(before, rho) + SumValue(other, rho) * scale {
        AddSumValue(before, other, scale, rho);
      }
      AddSumValue(before, other, scale, x => 0);
    }

    method MulToSelf(scale: int)
      modifies this
      ensures Contents() == MulSum(old(Contents()), scale)
      ensures forall rho: Valuation :: SumValue(Contents(), rho) == SumValue(old(Contents()), rho) * scale
    {
      ghost var before := Contents();
      base := base * scale;
      ghost var product := MulSum(before, scale);
      for i := 0 to |args|
        invariant |args| == |before.args| == |product.args| && base == product.base
        invariant forall k :: 0 <= k < i ==> args[k] == product.args[k]
        invariant forall k :: i <= k < |args| ==> args[k] == before.args[k]
      {
        args := args[i := args[i].(scale := args[i].scale * scale)];
      }
      assert args == product.args;
      forall rho: Valuation ensures SumValue(Contents(), rho) == SumValue(before, rho) * scale {
        MulSumValue(before, scale, rho);
      }
    }

    method DivideBy(scale: int)
      requires scale != 0 && DivisibleBy(Contents(), scale)
      modifies this
      ensures Contents() == DivideSum(old(Contents()), scale)
      ensures forall rho: Valuation :: SumValue(Contents(), rho) * scale == SumValue(old(Contents()), rho)
    {
      ghost var before := Contents();
      ghost var quotient := DivideSum(before, scale);
      base := TruncDiv(base, scale);
      for i := 0 to |args|
        invariant |args| == |before.args| == |quotient.args| && base == quotient.base
        invariant forall k :: 0 <= k < i ==> args[k] == quotient.args[k]
        invariant forall k :: i <= k < |args| ==> args[k] == before.args[k]
      {
        DividedAt(before, scale, i);
        args := args[i := DividedSplit(args[i], scale)];
      }
      assert args == quotient.args;
      forall rho: Valuation ensures SumValue(Contents(), rho) * scale == SumValue(before, rho) {
        DivideSumValue(before, scale, rho);
      }
    }

    /** The nested loops of SimplifySplitExprs, followed by the stable sort. */
    static method SimplifyArgs(args0: seq<SplitExpr>) returns (args: seq<SplitExpr>)
      requires AllValid(args0)
      ensures args == SimplifySplitExprs(args0) && Sorted(args)
      ensures forall rho: Valuation :: ArgsValue(args, rho) == ArgsValue(args0, rho)
    {
      args := args0;
      for i := 0 to |args0|
        invariant |args| == |args0| && MergeAll(args, i) == MergeAll(args0, 0)
      {
        if args[i].scale != 0 {
          args := MergeRowInPlace(args, i);
        }
      }
      var merged := args;
      args := [];
      for i := 0 to |merged|
        invariant args == SortSplits(merged[..i])
      {
        assert merged[..i + 1][..i] == merged[..i];
        args := InsertSplit(merged[i], args);
      }
      assert merged[..|merged|] == merged;
      forall rho: Valuation
        ensures ArgsValue(args, rho) == ArgsValue(args0, rho)
      {
        SimplifySplitExprsValue(args0, rho);
      }
      SimplifySplitExprsValue(args0, x => 0);
    }

    static method MergeRowInPlace(args0: seq<SplitExpr>, i: nat) returns (args: seq<SplitExpr>)
      requires i < |args0|
      ensures args == MergeRow(args0, i, i + 1)
    {
      args := args0;
      var j := i + 1;
      while j < |args|
        invariant i < j <= |args| && |args| == |args0|
        invariant MergeRow(args, i, j) == MergeRow(args0, i, i + 1)
      {
        var lhs, rhs := args[i], args[j];
        if lhs.index != rhs.index { return; }
        if lhs.upper.Fin? && lhs.upper.k < rhs.lower { return; }
        if SameSlot(lhs, rhs) {
          args := args[j := rhs.(scale := rhs.scale + lhs.scale)];
          args := args[i := lhs.(scale := 0)];
        } else if Joins(lhs, rhs) {
          args := args[j := rhs.(upper := lhs.upper)];
          args := args[i := lhs.(scale := 0)];
          return;
        }
        j := j + 1;
      }
    }
  }
}
