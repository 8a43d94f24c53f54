/**
 SmithNormalFormDiag of src/arith/solve_linear_equation.cc: in-place
 diagonalisation of an integer matrix S by row and column steps, carrying the
 column transform V, the symbolic vector x and the symbolic right-hand side y.
 */
module SmithNormalForm {
  import opened LinearAlgebra
  import opened Exprs

  /** The four objects the diagonalisation works on. */
  datatype Sys = Sys(S: Matrix, V: Matrix, x: seq<Expr>, y: seq<Expr>) {
    ghost predicate Shape() {
      IsMatrix(S, |y|, |x|) && IsMatrix(V, |x|, |x|)
    }
  }

  function Values(es: seq<Expr>, rho: Valuation): (u: Vector)
    ensures |u| == |es|
    ensures forall i :: 0 <= i < |es| ==> u[i] == Eval(es[i], rho)
  {
    seq(|es|, i requires 0 <= i < |es| => Eval(es[i], rho))
  }

  // ----- what every step keeps -----

  /** `V x` is the vector of the original unknowns. */
  ghost predicate Recovers(V: Matrix, x: seq<Expr>, orig: seq<Expr>)
    requires IsMatrix(V, |orig|, |x|)
  {
    forall rho: Valuation :: Maps(V, Values(x, rho), Values(orig, rho))
  }

  /** Conversely, if the original unknowns are `V u` then `x` evaluates to `u`. */
  ghost predicate Inverts(V: Matrix, x: seq<Expr>, orig: seq<Expr>)
    requires IsMatrix(V, |orig|, |x|)
  {
    forall rho: Valuation, u: Vector :: |u| == |x| && Maps(V, u, Values(orig, rho)) ==> Values(x, rho) == u
  }

  ghost predicate Maps(V: Matrix, u: Vector, w: Vector)
    requires IsMatrix(V, |w|, |u|)
  {
    forall i :: 0 <= i < |V| ==> Dot(V[i], u) == w[i]
  }

  ghost predicate SolvedBy(S: Matrix, x: seq<Expr>, y: seq<Expr>, rho: Valuation)
    requires IsMatrix(S, |y|, |x|)
  {
    Solves(S, Values(x, rho), Values(y, rho))
  }

  /** `S x == y` and `T z == w` have the same solutions. */
  ghost predicate Equivalent(S: Matrix, x: seq<Expr>, y: seq<Expr>, T: Matrix, z: seq<Expr>, w: seq<Expr>)
    requires IsMatrix(S, |y|, |x|) && IsMatrix(T, |w|, |z|)
  {
    forall rho: Valuation :: SolvedBy(S, x, y, rho) <==> SolvedBy(T, z, w, rho)
  }

  function VarsOf(es: seq<Expr>): set<string> {
    set i, v | 0 <= i < |es| && v in Vars(es[i]) :: v
  }

  /** The invariant of the whole diagonalisation, relative to the system `A orig == b`. */
  ghost predicate Represents(s: Sys, A: Matrix, b: seq<Expr>, orig: seq<Expr>) {
    && s.Shape() && |orig| == |s.x| && |b| == |s.y| && IsMatrix(A, |b|, |orig|)
    && Recovers(s.V, s.x, orig) && Inverts(s.V, s.x, orig) && Equivalent(s.S, s.x, s.y, A, orig, b)
    && VarsOf(s.x) <= VarsOf(orig) && VarsOf(s.y) <= VarsOf(b)
  }

  /** Row and column `k` are zero off the diagonal for every `k < index`. */
  ghost predicate Cleared(S: Matrix, index: nat, m: nat, n: nat)
    requires IsMatrix(S, m, n)
  {
    forall i, j :: 0 <= i < m && 0 <= j < n && i != j && (i < index || j < index) ==> S[i][j] == 0
  }

  ghost predicate Diagonal(S: Matrix, m: nat, n: nat)
    requires IsMatrix(S, m, n)
  {
    forall i, j :: 0 <= i < m && 0 <= j < n && i != j ==> S[i][j] == 0
  }

  lemma InitialRepresents(A: Matrix, b: seq<Expr>, orig: seq<Expr>)
    requires IsMatrix(A, |b|, |orig|)
    ensures Represents(Sys(A, Identity(|orig|), orig, b), A, b, orig)
  {
    forall u: Vector, i | |u| == |orig| && 0 <= i < |orig|
      ensures Dot(Identity(|orig|)[i], u) == u[i]
    {
      IdentityDot(|orig|, u, i);
    }
  }

  // ----- the steps, as functions of the system -----

  function SwapEntries<T>(r: seq<T>, p: nat, q: nat): (t: seq<T>)
    requires p < |r| && q < |r|
    ensures |t| == |r|
  {
    r[p := r[q]][q := r[p]]
  }

  /** Rows and right-hand sides p and q exchanged. */
  function SwapRows(s: Sys, p: nat, q: nat): Sys
    requires p < |s.S| && q < |s.S| && |s.S| == |s.y|
  {
    s.(S := SwapEntries(s.S, p, q), y := SwapEntries(s.y, p, q))
  }

  function SwapColumns(S: Matrix, p: nat, q: nat): (T: Matrix)
    requires forall i :: 0 <= i < |S| ==> p < |S[i]| && q < |S[i]|
    ensures |T| == |S| && forall i :: 0 <= i < |S| ==> T[i] == SwapEntries(S[i], p, q)
  {
    seq(|S|, i requires 0 <= i < |S| => SwapEntries(S[i], p, q))
  }

  /** Columns p and q of S and V and entries p and q of x exchanged. */
  function SwapCols(s: Sys, p: nat, q: nat): Sys
    requires s.Shape() && p < |s.x| && q < |s.x|
  {
    s.(S := SwapColumns(s.S, p, q), V := SwapColumns(s.V, p, q), x := SwapEntries(s.x, p, q))
  }

  function LinComb(a: int, e: Expr, b: int, f: Expr): Expr {
    Add(Mul(Const(a), e), Mul(Const(b), f))
  }

  function LinDiff(a: int, e: Expr, b: int, f: Expr): Expr {
    Sub(Mul(Const(a), e), Mul(Const(b), f))
  }

  /** Rows p and q become a*p + b*q and c*p - d*q, on both sides of the equations. */
  function RowStep(s: Sys, p: nat, q: nat, a: int, b: int, c: int, d: int): Sys
    requires s.Shape() && p < |s.y| && q < |s.y|
  {
    s.(S := s.S[p := Combine(a, s.S[p], b, s.S[q])][q := Combine(c, s.S[p], -d, s.S[q])],
       y := s.y[p := LinComb(a, s.y[p], b, s.y[q])][q := LinDiff(c, s.y[p], d, s.y[q])])
  }

  function ColumnsOf(S: Matrix, p: nat, q: nat, a: int, b: int, c: int, d: int): (T: Matrix)
    requires forall i :: 0 <= i < |S| ==> p < |S[i]| && q < |S[i]|
    ensures |T| == |S|
    ensures forall i :: 0 <= i < |S| ==> T[i] == ColumnsOfRow(S[i], p, q, a, b, c, d)
  {
    seq(|S|, i requires 0 <= i < |S| => ColumnsOfRow(S[i], p, q, a, b, c, d))
  }

  /** Columns p and q of S and V, with the inverse step on x. */
  function ColStep(s: Sys, p: nat, q: nat, a: int, b: int, c: int, d: int): Sys
    requires s.Shape() && p < |s.x| && q < |s.x|
  {
    s.(S := ColumnsOf(s.S, p, q, a, b, c, d), V := ColumnsOf(s.V, p, q, a, b, c, d),
       x := s.x[p := LinComb(d, s.x[p], c, s.x[q])][q := LinDiff(b, s.x[p], a, s.x[q])])
  }

  // ----- every step keeps the representation -----

  lemma RowStepKeeps(s: Sys, p: nat, q: nat, a: int, b: int, c: int, d: int, A: Matrix, rhs: seq<Expr>, orig: seq<Expr>)
    requires Represents(s, A, rhs, orig)
    requires p < |s.y| && q < |s.y| && p != q && a * d + b * c == 1
    ensures Represents(RowStep(s, p, q, a, b, c, d), A, rhs, orig)
  {
    var t := RowStep(s, p, q, a, b, c, d);
    assert t.Shape();
    forall rho: Valuation
      ensures SolvedBy(t.S, t.x, t.y, rho) <==> SolvedBy(s.S, s.x, s.y, rho)
    {
      RowStepSolutions(s, p, q, a, b, c, d, rho);
    }
    forall j, v | 0 <= j < |t.y| && v in Vars(t.y[j]) ensures v in VarsOf(s.y) {
      LinearVars(a, s.y[p], b, s.y[q]);
      LinearVars(c, s.y[p], d, s.y[q]);
    }
  }

  lemma LinearVars(a: int, e: Expr, b: int, f: Expr)
    ensures Vars(LinComb(a, e, b, f)) <= Vars(e) + Vars(f)
    ensures Vars(LinDiff(a, e, b, f)) <= Vars(e) + Vars(f)
  {
    ScaledVars(a, e);
    ScaledVars(b, f);
  }

  lemma ScaledVars(a: int, e: Expr)
    ensures Vars(Mul(Const(a), e)) <= Vars(e)
  {
    assert Vars(Const(a)) == {};
  }

  lemma RowStepSolutions(s: Sys, p: nat, q: nat, a: int, b: int, c: int, d: int, rho: Valuation)
    requires s.Shape()
    requires p < |s.y| && q < |s.y| && p != q && a * d + b * c == 1
    ensures RowStep(s, p, q, a, b, c, d).Shape()
    ensures var t := RowStep(s, p, q, a, b, c, d); SolvedBy(t.S, t.x, t.y, rho) <==> SolvedBy(s.S, s.x, s.y, rho)
  {
    var t := RowStep(s, p, q, a, b, c, d);
    var u, y, z := Values(s.x, rho), Values(s.y, rho), Values(t.y, rho);
    DotCombine(a, s.S[p], b, s.S[q], u);
    DotCombine(c, s.S[p], -d, s.S[q], u);
    LinearValues(a, s.y[p], b, s.y[q], rho);
    LinearValues(c, s.y[p], d, s.y[q], rho);
    var e, f := Dot(s.S[p], u), Dot(s.S[q], u);
    assert -d * f == -(d * f);
    RowsEquivalent(e, f, y[p], y[q], a, b, c, d);
    SolvesUpdate(s.S, t.S, u, y, z, p, q);
  }

  lemma LinearValues(a: int, e: Expr, b: int, f: Expr, rho: Valuation)
    ensures Eval(LinComb(a, e, b, f), rho) == a * Eval(e, rho) + b * Eval(f, rho)
    ensures Eval(LinDiff(a, e, b, f), rho) == a * Eval(e, rho) - b * Eval(f, rho)
  {
    assert Eval(Mul(Const(a), e), rho) == a * Eval(e, rho);
    assert Eval(Mul(Const(b), f), rho) == b * Eval(f, rho);
  }

  lemma SolvesUpdate(S: Matrix, T: Matrix, u: Vector, y: Vector, z: Vector, p: nat, q: nat)
    requires IsMatrix(S, |y|, |u|) && IsMatrix(T, |z|, |u|) && |z| == |y| && p < |y| && q < |y|
    requires forall i :: 0 <= i < |y| && i != p && i != q ==> T[i] == S[i] && z[i] == y[i]
    requires (Dot(S[p], u) == y[p] && Dot(S[q], u) == y[q]) <==> (Dot(T[p], u) == z[p] && Dot(T[q], u) == z[q])
    ensures Solves(T, u, z) <==> Solves(S, u, y)
  {
    if Solves(T, u, z) {
      forall i | 0 <= i < |S| ensures Dot(S[i], u) == y[i] { if i != p && i != q { assert T[i] == S[i]; } }
    }
    if Solves(S, u, y) {
      forall i | 0 <= i < |T| ensures Dot(T[i], u) == z[i] { if i != p && i != q { assert T[i] == S[i]; } }
    }
  }

  lemma SwapRowsKeeps(s: Sys, p: nat, q: nat, A: Matrix, rhs: seq<Expr>, orig: seq<Expr>)
    requires Represents(s, A, rhs, orig) && p < |s.y| && q < |s.y|
    ensures Represents(SwapRows(s, p, q), A, rhs, orig)
  {
    var t := SwapRows(s, p, q);
    assert t.Shape();
    forall rho: Valuation
      ensures SolvedBy(t.S, t.x, t.y, rho) <==> SolvedBy(s.S, s.x, s.y, rho)
    {
      SolvesUpdate(s.S, t.S, Values(s.x, rho), Values(s.y, rho), Values(t.y, rho), p, q);
    }
  }

  /** Columns p, q of S and V stepped by [[a, c], [b, -d]] and x evaluating to the inverse step. */
  ghost predicate IsColStep(s: Sys, t: Sys, p: nat, q: nat, a: int, b: int, c: int, d: int)
    requires s.Shape() && p < |s.x| && q < |s.x|
  {
    && t.Shape() && |t.x| == |s.x| && t.y == s.y
    && VarsOf(t.x) <= VarsOf(s.x)
    && t.S == ColumnsOf(s.S, p, q, a, b, c, d) && t.V == ColumnsOf(s.V, p, q, a, b, c, d)
    && forall rho: Valuation :: Values(t.x, rho) == Undo(Values(s.x, rho), p, q, a, b, c, d)
  }

  lemma ColStepIsColStep(s: Sys, p: nat, q: nat, a: int, b: int, c: int, d: int)
    requires s.Shape() && p < |s.x| && q < |s.x| && p != q
    ensures IsColStep(s, ColStep(s, p, q, a, b, c, d), p, q, a, b, c, d)
  {
    var t := ColStep(s, p, q, a, b, c, d);
    forall j, v | 0 <= j < |t.x| && v in Vars(t.x[j]) ensures v in VarsOf(s.x) {
      LinearVars(d, s.x[p], c, s.x[q]);
      LinearVars(b, s.x[p], a, s.x[q]);
    }
    forall rho: Valuation
      ensures Values(t.x, rho) == Undo(Values(s.x, rho), p, q, a, b, c, d)
    {
      LinearValues(d, s.x[p], c, s.x[q], rho);
      LinearValues(b, s.x[p], a, s.x[q], rho);
      var u, v := Values(t.x, rho), Undo(Values(s.x, rho), p, q, a, b, c, d);
      assert forall i :: 0 <= i < |u| ==> u[i] == v[i];
    }
  }

  lemma ColStepKeeps(s: Sys, t: Sys, p: nat, q: nat, a: int, b: int, c: int, d: int, A: Matrix, rhs: seq<Expr>,
      orig: seq<Expr>)
    requires Represents(s, A, rhs, orig)
    requires p < |s.x| && q < |s.x| && p != q && a * d + b * c == 1
    requires IsColStep(s, t, p, q, a, b, c, d)
    ensures Represents(t, A, rhs, orig)
  {
    forall rho: Valuation
      ensures Maps(t.V, Values(t.x, rho), Values(orig, rho))
      ensures SolvedBy(t.S, t.x, t.y, rho) <==> SolvedBy(s.S, s.x, s.y, rho)
    {
      assert Maps(s.V, Values(s.x, rho), Values(orig, rho));
      ColumnsKeepMaps(s.V, Values(s.x, rho), Values(orig, rho), p, q, a, b, c, d);
      ColumnsKeepMaps(s.S, Values(s.x, rho), Values(s.y, rho), p, q, a, b, c, d);
    }
    ColStepInverts(s, t, p, q, a, b, c, d, orig);
  }

  lemma ColumnsKeepMaps(S: Matrix, u: Vector, w: Vector, p: nat, q: nat, a: int, b: int, c: int, d: int)
    requires IsMatrix(S, |w|, |u|) && p < |u| && q < |u| && p != q && a * d + b * c == 1
    ensures Maps(ColumnsOf(S, p, q, a, b, c, d), Undo(u, p, q, a, b, c, d), w) <==> Maps(S, u, w)
    ensures Solves(ColumnsOf(S, p, q, a, b, c, d), Undo(u, p, q, a, b, c, d), w) <==> Solves(S, u, w)
  {
    var T := ColumnsOf(S, p, q, a, b, c, d);
    forall i | 0 <= i < |S|
      ensures Dot(T[i], Undo(u, p, q, a, b, c, d)) == Dot(S[i], u)
    {
      ColumnsKeepDot(S[i], u, p, q, a, b, c, d);
    }
  }

  lemma ColStepInverts(s: Sys, t: Sys, p: nat, q: nat, a: int, b: int, c: int, d: int, orig: seq<Expr>)
    requires s.Shape() && |orig| == |s.x| && Inverts(s.V, s.x, orig)
    requires p < |s.x| && q < |s.x| && p != q && a * d + b * c == 1
    requires IsColStep(s, t, p, q, a, b, c, d)
    ensures Inverts(t.V, t.x, orig)
  {
    forall rho: Valuation, u: Vector | |u| == |t.x| && Maps(t.V, u, Values(orig, rho))
      ensures Values(t.x, rho) == u
    {
      var w := Redo(u, p, q, a, b, c, d);
      forall i | 0 <= i < |s.V| ensures Dot(s.V[i], w) == Values(orig, rho)[i] {
        ColumnsMoveToVector(s.V[i], u, p, q, a, b, c, d);
        assert Dot(t.V[i], u) == Values(orig, rho)[i];
      }
      assert Maps(s.V, w, Values(orig, rho));
      assert Values(s.x, rho) == w;
      UndoRedo(u, p, q, a, b, c, d);
    }
  }

  lemma SwapEntriesStep(r: Vector, p: nat, q: nat)
    requires p < |r| && q < |r| && p != q
    ensures SwapEntries(r, p, q) == ColumnsOfRow(r, p, q, 0, 1, 1, 0) == Undo(r, p, q, 0, 1, 1, 0)
  {
  }

  lemma SwapColumnsStep(S: Matrix, m: nat, n: nat, p: nat, q: nat)
    requires IsMatrix(S, m, n) && p < n && q < n && p != q
    ensures SwapColumns(S, p, q) == ColumnsOf(S, p, q, 0, 1, 1, 0)
  {
    forall i | 0 <= i < |S|
      ensures SwapColumns(S, p, q)[i] == ColumnsOf(S, p, q, 0, 1, 1, 0)[i]
    {
      SwapEntriesStep(S[i], p, q);
    }
  }

  /** Exchanging columns is the step with a = d = 0, b = c = 1. */
  lemma SwapColsIsColStep(s: Sys, p: nat, q: nat)
    requires s.Shape() && p < |s.x| && q < |s.x| && p != q
    ensures IsColStep(s, SwapCols(s, p, q), p, q, 0, 1, 1, 0)
  {
    SwapColumnsStep(s.S, |s.y|, |s.x|, p, q);
    SwapColumnsStep(s.V, |s.x|, |s.x|, p, q);
    forall rho: Valuation
      ensures Values(SwapCols(s, p, q).x, rho) == Undo(Values(s.x, rho), p, q, 0, 1, 1, 0)
    {
      SwapEntriesStep(Values(s.x, rho), p, q);
      assert Values(SwapCols(s, p, q).x, rho) == SwapEntries(Values(s.x, rho), p, q);
    }
  }
}
