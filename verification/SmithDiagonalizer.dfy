/**
 The in-place algorithm SmithNormalFormDiag of src/arith/solve_linear_equation.cc,
 proved to keep the represented system, to end with a diagonal matrix, and to
 terminate although an iteration can repeat its own index.
 */
module SmithDiagonalizer {
  import opened IntOperator
  import opened LinearAlgebra
  import opened Exprs
  import opened SmithNormalForm

  // ----- rank of a column, for termination -----

  /** Smallest nonzero magnitude in column `c` from row `i` on; 0 if there is none. */
  ghost function MinAbs(S: Matrix, c: nat, i: nat): nat
    requires i <= |S| && forall k :: 0 <= k < |S| ==> c < |S[k]|
    decreases |S| - i
  {
    if i == |S| then 0 else
      var rest := MinAbs(S, c, i + 1);
      var v := Abs(S[i][c]);
      if v != 0 && (rest == 0 || v < rest) then v else rest
  }

  lemma {:induction false} MinAbsBound(S: Matrix, c: nat, i: nat, k: nat)
    requires i <= k < |S| && forall r :: 0 <= r < |S| ==> c < |S[r]|
    requires S[k][c] != 0
    ensures 0 < MinAbs(S, c, i) <= Abs(S[k][c])
    decreases |S| - i
  {
    if i < k { MinAbsBound(S, c, i + 1, k); }
  }

  lemma {:induction false} MinAbsAttained(S: Matrix, c: nat, i: nat)
    requires i <= |S| && forall r :: 0 <= r < |S| ==> c < |S[r]|
    ensures MinAbs(S, c, i) != 0 ==> exists k :: i <= k < |S| && Abs(S[k][c]) == MinAbs(S, c, i)
    decreases |S| - i
  {
    if i < |S| { MinAbsAttained(S, c, i + 1); }
  }

  /** An all-zero column ranks above every other; otherwise the smallest magnitude counts. */
  ghost function ZeroRank(S: Matrix, index: nat, m: nat, n: nat): nat
    requires IsMatrix(S, m, n)
  {
    if index < m && index < n && MinAbs(S, index, index) == 0 then 1 else 0
  }

  ghost function PivotRank(S: Matrix, index: nat, m: nat, n: nat): nat
    requires IsMatrix(S, m, n)
  {
    if index < m && index < n then MinAbs(S, index, index) else 0
  }

  /** A repeated iteration with a smaller pivot has smaller rank. */
  lemma RankDrops(S: Matrix, T: Matrix, index: nat, m: nat, n: nat)
    requires IsMatrix(S, m, n) && IsMatrix(T, m, n) && index < m && index < n
    requires T[index][index] != 0
    requires MinAbs(S, index, index) != 0 ==> Abs(T[index][index]) < MinAbs(S, index, index)
    ensures ZeroRank(T, index, m, n) == 0
    ensures ZeroRank(S, index, m, n) == 1 || PivotRank(T, index, m, n) < PivotRank(S, index, m, n)
  {
    MinAbsBound(T, index, index, index);
  }

  // ----- steps keep the cleared cross -----

  lemma RowStepCleared(s: Sys, p: nat, q: nat, a: int, b: int, c: int, d: int)
    requires s.Shape() && p < q < |s.y| && Cleared(s.S, p, |s.y|, |s.x|)
    ensures Cleared(RowStep(s, p, q, a, b, c, d).S, p, |s.y|, |s.x|)
  {
  }

  lemma ColStepCleared(s: Sys, p: nat, q: nat, a: int, b: int, c: int, d: int)
    requires s.Shape() && p < q < |s.x| && Cleared(s.S, p, |s.y|, |s.x|)
    ensures Cleared(ColStep(s, p, q, a, b, c, d).S, p, |s.y|, |s.x|)
  {
  }

  /** Entries in [lo, hi) of `base` replaced by those of a*r + b*s. */
  ghost function PartialCombine(base: Vector, a: int, r: Vector, b: int, s: Vector, lo: nat, hi: nat): (t: Vector)
    requires |base| == |r| == |s|
    ensures |t| == |base|
  {
    seq(|r|, k requires 0 <= k < |r| => if lo <= k < hi then a * r[k] + b * s[k] else base[k])
  }

  lemma NegatedTimes(m: int, x: int)
    ensures (-m) * x == -(m * x)
  {
  }

  lemma PartialStart(base: Vector, a: int, r: Vector, b: int, s: Vector, lo: nat)
    requires |base| == |r| == |s|
    ensures PartialCombine(base, a, r, b, s, lo, lo) == base
  {
  }

  lemma PartialNext(base: Vector, a: int, r: Vector, b: int, s: Vector, lo: nat, j: nat)
    requires |base| == |r| == |s| && lo <= j < |r|
    ensures PartialCombine(base, a, r, b, s, lo, j)[j] == base[j]
    ensures PartialCombine(base, a, r, b, s, lo, j + 1) ==
      PartialCombine(base, a, r, b, s, lo, j)[j := a * r[j] + b * s[j]]
  {
  }

  /** Where both rows are zero before `lo`, the combination is complete. */
  lemma PartialEnd(base: Vector, a: int, r: Vector, b: int, s: Vector, lo: nat)
    requires |base| == |r| == |s| && lo <= |r|
    requires forall k :: 0 <= k < lo ==> base[k] == 0 && r[k] == 0 && s[k] == 0
    ensures PartialCombine(base, a, r, b, s, lo, |r|) == Combine(a, r, b, s)
  {
    forall k | 0 <= k < |r| ensures PartialCombine(base, a, r, b, s, lo, |r|)[k] == Combine(a, r, b, s)[k] {
      if k < lo { assert a * r[k] == 0 && b * s[k] == 0; }
    }
  }

  /** If the chosen entry is zero, so is the column below the cleared part. */
  lemma ColumnAllZero(S: Matrix, index: nat, best: nat)
    requires index <= best < |S| && (forall k :: 0 <= k < |S| ==> index < |S[k]|)
    requires Abs(S[best][index]) == MinAbs(S, index, index) && S[best][index] == 0
    ensures forall k :: index <= k < |S| ==> S[k][index] == 0
  {
    forall k | index <= k < |S| ensures S[k][index] == 0 {
      if S[k][index] != 0 { MinAbsBound(S, index, index, k); }
    }
  }

  /** The multipliers that bring gcd(pivot, s) to the pivot and 0 to the other entry. */
  method Multipliers(pivot: int, s: int) returns (a: int, b: int, nG: int, mG: int, exact: bool)
    requires pivot != 0
    ensures a * mG + b * nG == 1
    ensures nG * pivot - mG * s == 0
    ensures a * pivot + b * s != 0
    ensures exact ==> a == 1 && b == 0
    ensures !exact ==> Abs(a * pivot + b * s) < Abs(pivot)
  {
    var g: int;
    TruncModZero(s, pivot);
    exact := TruncMod(s, pivot) == 0;
    if !exact {
      g, a, b := ExtendedEuclidean(pivot, s);
      StrictDivisor(pivot, s, g);
    } else {
      g, a, b := pivot, 1, 0;
      DividesIntro(pivot, pivot, 1);
    }
    ExactDivision(pivot, g);
    ExactDivision(s, g);
    mG, nG := TruncDiv(pivot, g), TruncDiv(s, g);
    UnitCombination(pivot, s, g, a, b, nG, mG);
  }

  lemma StrictDivisor(pivot: int, s: int, g: int)
    requires pivot != 0 && Divides(g, pivot) && Divides(g, s) && !Divides(pivot, s)
    ensures Abs(g) < Abs(pivot)
  {
    DividesBound(g, pivot);
    DividesSign(g, s);
  }

  lemma UnitCombination(pivot: int, s: int, g: int, a: int, b: int, nG: int, mG: int)
    requires g != 0 && g == a * pivot + b * s && mG * g == pivot && nG * g == s
    ensures a * mG + b * nG == 1 && nG * pivot - mG * s == 0
  {
    assert (a * mG + b * nG) * g == 1 * g by { Distribute(g, a, mG, b, nG); }
    Cancel(a * mG + b * nG, 1, g);
    assert nG * (mG * g) == mG * (nG * g);
  }

  class Diagonalizer {
    var S: Matrix
    var V: Matrix
    var x: seq<Expr>
    var y: seq<Expr>

    ghost function State(): Sys
      reads this
    {
      Sys(S, V, x, y)
    }

    constructor (S0: Matrix, V0: Matrix, x0: seq<Expr>, y0: seq<Expr>)
      ensures State() == Sys(S0, V0, x0, y0)
    {
      S, V, x, y := S0, V0, x0, y0;
    }

    /** Rows `index` and `i`, entry by entry from column `index` on. */
    method CombineRows(index: nat, i: nat, a: int, b: int, nG: int, mG: int)
      requires State().Shape() && index < i < |y| && index < |x|
      requires Cleared(S, index, |y|, |x|)
      modifies this
      ensures State() == RowStep(old(State()), index, i, a, b, nG, mG)
    {
      ghost var P, Q := S[index], S[i];
      PartialStart(P, a, P, b, Q, index);
      PartialStart(Q, nG, P, -mG, Q, index);
      var j := index;
      while j < |S[i]|
        invariant index <= j <= |x|
        invariant S == old(S)[index := PartialCombine(P, a, P, b, Q, index, j)][i := PartialCombine(Q, nG, P, -mG,
          Q, index, j)]
        invariant V == old(V) && x == old(x) && y == old(y)
      {
        PartialNext(P, a, P, b, Q, index, j);
        PartialNext(Q, nG, P, -mG, Q, index, j);
        NegatedTimes(mG, Q[j]);
        var newIndexJ := a * S[index][j] + b * S[i][j];
        var newIJ := nG * S[index][j] - mG * S[i][j];
        S := S[index := S[index][j := newIndexJ]][i := S[i][j := newIJ]];
        j := j + 1;
      }
      PartialEnd(P, a, P, b, Q, index);
      PartialEnd(Q, nG, P, -mG, Q, index);
      var newIndexRhs := LinComb(a, y[index], b, y[i]);
      var newIRhs := LinDiff(nG, y[index], mG, y[i]);
      y := y[index := newIndexRhs][i := newIRhs];
    }

    /** Columns `index` and `j` of S and V, and the inverse step on x. */
    method CombineColumns(index: nat, j: nat, a: int, b: int, nG: int, mG: int)
      requires State().Shape() && index < j < |x| && index < |y|
      requires Cleared(S, index, |y|, |x|)
      modifies this
      ensures State() == ColStep(old(State()), index, j, a, b, nG, mG)
    {
      var i := index;
      while i < |S|
        invariant index <= i <= |S| == |old(S)|
        invariant forall k :: 0 <= k < |S| ==>
          S[k] == if index <= k < i then ColumnsOfRow(old(S)[k], index, j, a, b, nG, mG) else old(S)[k]
        invariant V == old(V) && x == old(x) && y == old(y)
      {
        var newIIndex := a * S[i][index] + b * S[i][j];
        var newIJ := nG * S[i][index] - mG * S[i][j];
        S := S[i := S[i][index := newIIndex][j := newIJ]];
        i := i + 1;
      }
      forall k | 0 <= k < index ensures S[k] == ColumnsOfRow(old(S)[k], index, j, a, b, nG, mG) {
        assert old(S)[k][index] == 0 && old(S)[k][j] == 0;
      }
      assert S == ColumnsOf(old(S), index, j, a, b, nG, mG);
      i := 0;
      while i < |x|
        invariant 0 <= i <= |V| == |old(V)|
        invariant forall k :: 0 <= k < |V| ==>
          V[k] == if k < i then ColumnsOfRow(old(V)[k], index, j, a, b, nG, mG) else old(V)[k]
        invariant S == ColumnsOf(old(S), index, j, a, b, nG, mG) && x == old(x) && y == old(y)
      {
        var newIIndex := a * V[i][index] + b * V[i][j];
        var newIJ := nG * V[i][index] - mG * V[i][j];
        V := V[i := V[i][index := newIIndex][j := newIJ]];
        i := i + 1;
      }
      assert V == ColumnsOf(old(V), index, j, a, b, nG, mG);
      var newIndex := LinComb(mG, x[index], nG, x[j]);
      var newJ := LinDiff(b, x[index], a, x[j]);
      x := x[index := newIndex][j := newJ];
    }

    /** Exchange columns `index` and `j`. */
    method ExchangeColumns(index: nat, j: nat)
      requires State().Shape() && index < j < |x| && index < |y|
      requires Cleared(S, index, |y|, |x|)
      modifies this
      ensures State() == SwapCols(old(State()), index, j)
    {
      var i := index;
      while i < |S|
        invariant index <= i <= |S| == |old(S)|
        invariant forall k :: 0 <= k < |S| ==>
          S[k] == if index <= k < i then SwapEntries(old(S)[k], index, j) else old(S)[k]
        invariant V == old(V) && x == old(x) && y == old(y)
      {
        S := S[i := S[i][index := S[i][j]][j := S[i][index]]];
        i := i + 1;
      }
      forall k | 0 <= k < index ensures S[k] == SwapEntries(old(S)[k], index, j) {
        assert old(S)[k][index] == 0 && old(S)[k][j] == 0;
      }
      assert S == SwapColumns(old(S), index, j);
      x := x[index := x[j]][j := x[index]];
      i := 0;
      while i < |x|
        invariant 0 <= i <= |V| == |old(V)| == |x|
        invariant forall k :: 0 <= k < |V| ==> V[k] == if k < i then SwapEntries(old(V)[k], index, j) else old(V)[k]
        invariant S == SwapColumns(old(S), index, j) && x == SwapEntries(old(x), index, j) && y == old(y)
      {
        V := V[i := V[i][index := V[i][j]][j := V[i][index]]];
        i := i + 1;
      }
      assert V == SwapColumns(old(V), index, j);
    }

    /** A row with the smallest nonzero entry of column `index`, if there is one. */
    method ChooseRow(index: nat) returns (best: nat)
      requires State().Shape() && index < |y| && index < |x|
      ensures index <= best < |y|
      ensures Abs(S[best][index]) == MinAbs(S, index, index)
    {
      best := index;
      for i := index to |S|
        invariant index <= best < |S|
        invariant forall k :: index <= k < i && S[k][index] != 0 ==>
          S[best][index] != 0 && Abs(S[best][index]) <= Abs(S[k][index])
      {
        var sOld := S[best][index];
        var sNew := S[i][index];
        if sNew != 0 {
          if sOld == 0 || Abs(sNew) < Abs(sOld) {
            best := i;
          }
        }
      }
      MinAbsAttained(S, index, index);
      if S[best][index] != 0 { MinAbsBound(S, index, index, best); }
    }

    /** Bring a nonzero entry to the pivot position if row or column `index` has one. */
    method PlacePivot(index: nat, ghost A: Matrix, ghost rhs: seq<Expr>, ghost orig: seq<Expr>)
      requires Represents(State(), A, rhs, orig) && index < |y| && index < |x|
      requires Cleared(S, index, |y|, |x|)
      modifies this
      ensures Represents(State(), A, rhs, orig) && Cleared(S, index, |y|, |x|)
      ensures |x| == old(|x|) && |y| == old(|y|)
      ensures old(MinAbs(S, index, index)) != 0 ==> Abs(S[index][index]) == old(MinAbs(S, index, index))
      ensures S[index][index] == 0 ==> Cleared(S, index + 1, |y|, |x|)
    {
      var best := ChooseRow(index);
      SwapRowsKeeps(State(), index, best, A, rhs, orig);
      S := S[index := S[best]][best := S[index]];
      y := y[index := y[best]][best := y[index]];
      assert State() == SwapRows(old(State()), index, best);
      if S[index][index] == 0 {
        ColumnAllZero(old(S), index, best);
        forall k | index <= k < |S| ensures S[k][index] == 0 {
          assert S[k] == old(S)[if k == index then best else if k == best then index else k];
        }
        var j := index + 1;
        while j < |x|
          invariant index < j <= |x|
          invariant State() == SwapRows(old(State()), index, best)
          invariant forall k :: index < k < j ==> S[index][k] == 0
        {
          if S[index][j] != 0 {
            SwapColsIsColStep(State(), index, j);
            ColStepKeeps(State(), SwapCols(State(), index, j), index, j, 0, 1, 1, 0, A, rhs, orig);
            ExchangeColumns(index, j);
            return;
          }
          j := j + 1;
        }
      }
    }

    /** Zero column `index` below the pivot by row steps. */
    method ClearColumn(index: nat, ghost A: Matrix, ghost rhs: seq<Expr>, ghost orig: seq<Expr>)
      requires Represents(State(), A, rhs, orig) && index < |y| && index < |x|
      requires Cleared(S, index, |y|, |x|) && S[index][index] != 0
      modifies this
      ensures Represents(State(), A, rhs, orig) && Cleared(S, index, |y|, |x|)
      ensures |x| == old(|x|) && |y| == old(|y|)
      ensures S[index][index] != 0 && Abs(S[index][index]) <= old(Abs(S[index][index]))
      ensures forall k :: index < k < |y| ==> S[k][index] == 0
    {
      var i := index + 1;
      while i < |S|
        invariant Represents(State(), A, rhs, orig)
        invariant |x| == old(|x|) && |y| == old(|y|) && index < i <= |y|
        invariant Cleared(S, index, |y|, |x|)
        invariant S[index][index] != 0 && Abs(S[index][index]) <= old(Abs(S[index][index]))
        invariant forall k :: index < k < i ==> S[k][index] == 0
      {
        if S[i][index] != 0 {
          var a, b, nG, mG, exact := Multipliers(S[index][index], S[i][index]);
          RowStepKeeps(State(), index, i, a, b, nG, mG, A, rhs, orig);
          RowStepCleared(State(), index, i, a, b, nG, mG);
          CombineRows(index, i, a, b, nG, mG);
        }
        i := i + 1;
      }
    }

    /** Zero row `index` right of the pivot by column steps. */
    method ClearRow(index: nat, ghost A: Matrix, ghost rhs: seq<Expr>, ghost orig: seq<Expr>) returns (changed: bool)
      requires Represents(State(), A, rhs, orig) && index < |y| && index < |x|
      requires Cleared(S, index, |y|, |x|) && S[index][index] != 0
      requires forall k :: index < k < |y| ==> S[k][index] == 0
      modifies this
      ensures Represents(State(), A, rhs, orig) && Cleared(S, index, |y|, |x|)
      ensures |x| == old(|x|) && |y| == old(|y|)
      ensures S[index][index] != 0
      ensures changed ==> Abs(S[index][index]) < old(Abs(S[index][index]))
      ensures !changed ==> Cleared(S, index + 1, |y|, |x|)
    {
      changed := false;
      var j := index + 1;
      while j < |x|
        invariant Represents(State(), A, rhs, orig)
        invariant |x| == old(|x|) && |y| == old(|y|) && index < j <= |x|
        invariant Cleared(S, index, |y|, |x|)
        invariant S[index][index] != 0
        invariant if changed then Abs(S[index][index]) < old(Abs(S[index][index]))
          else S[index][index] == old(S[index][index])
        invariant !changed ==> forall k :: index < k < |y| ==> S[k][index] == 0
        invariant forall k :: index < k < j ==> S[index][k] == 0
      {
        if S[index][j] != 0 {
          var a, b, nG, mG, exact := Multipliers(S[index][index], S[index][j]);
          if !exact { changed := true; }
          ColStepIsColStep(State(), index, j, a, b, nG, mG);
          ColStepKeeps(State(), ColStep(State(), index, j, a, b, nG, mG), index, j, a, b, nG, mG, A, rhs, orig);
          ColStepCleared(State(), index, j, a, b, nG, mG);
          CombineColumns(index, j, a, b, nG, mG);
        }
        j := j + 1;
      }
    }

    /** SmithNormalFormDiag, relative to any system `A orig == rhs` the state represents. */
    method Diagonalize(ghost A: Matrix, ghost rhs: seq<Expr>, ghost orig: seq<Expr>)
      requires Represents(State(), A, rhs, orig)
      modifies this
      ensures Represents(State(), A, rhs, orig)
      ensures |x| == old(|x|) && |y| == old(|y|)
      ensures Diagonal(S, |y|, |x|)
    {
      if |S| == 0 || |V| == 0 { return; }
      var m, n := |S|, |x|;
      var index := 0;
      while index < m && index < n
        invariant Represents(State(), A, rhs, orig) && |x| == n && |y| == m
        invariant 0 <= index <= m && index <= n
        invariant Cleared(S, index, m, n)
        decreases (if m < n then m else n) - index, ZeroRank(S, index, m, n), PivotRank(S, index, m, n)
      {
        ghost var before := S;
        PlacePivot(index, A, rhs, orig);
        if S[index][index] == 0 {
          index := index + 1;
          continue;
        }
        ClearColumn(index, A, rhs, orig);
        var changed := ClearRow(index, A, rhs, orig);
        if changed {
          // the source decrements the index and repeats the iteration
          RankDrops(before, S, index, m, n);
        } else {
          index := index + 1;
        }
      }
    }
  }
}
