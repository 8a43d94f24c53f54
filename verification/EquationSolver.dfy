/**
 SolveLinearEquations of src/arith/solve_linear_equation.cc: the linear
 equations of a constraint system are diagonalised, the determined unknowns are
 divided out, the others become new variables, and everything else is carried
 over by substitution.
 */
module EquationSolver {
  import opened Options
  import opened IntOperator
  import opened LinearAlgebra
  import opened Exprs
  import opened Constraints
  import opened SmithNormalForm
  import SmithDiagonalizer

  /** IntConstraintsTransform: the new system and the two variable maps. */
  datatype Transform = Transform(dst: IntConstraints, oldToNew: Substitution, newToOld: Substitution)

  function VarExprs(vs: seq<string>): (es: seq<Expr>)
    ensures |es| == |vs| && forall i :: 0 <= i < |vs| ==> es[i] == Var(vs[i])
  {
    seq(|vs|, i requires 0 <= i < |vs| => Var(vs[i]))
  }

  // ----- what a correct transform is -----

  /** Solutions map forward to solutions, and coming back recovers every unknown. */
  ghost predicate Complete(src: IntConstraints, t: Transform) {
    forall rho: Valuation :: Satisfies(src, rho) ==>
      var sigma := Apply(t.newToOld, rho);
      Satisfies(t.dst, sigma) && forall i :: 0 <= i < |src.variables| ==>
        Apply(t.oldToNew, sigma)(src.variables[i]) == rho(src.variables[i])
  }

  /** Every solution of the new system, whatever the new variables are, gives a solution. */
  ghost predicate Correct(src: IntConstraints, t: Transform) {
    forall sigma: Valuation :: Satisfies(t.dst, sigma) ==> Satisfies(src, Apply(t.oldToNew, sigma))
  }

  // ----- solving a diagonal system -----

  predicate Pinned(S: Matrix, n: nat, j: nat)
    requires IsMatrix(S, |S|, n)
  {
    j < n && j < |S| && S[j][j] != 0
  }

  /** The condition under which equation `j` has a solution. */
  function Existence(S: Matrix, n: nat, y: seq<Expr>, j: nat): Cond
    requires IsMatrix(S, |y|, n) && j < |y|
  {
    if j >= n || S[j][j] == 0 then Cmp(EQ, y[j], Const(0))
    else Cmp(EQ, FloorMod(y[j], Const(Abs(S[j][j]))), Const(0))
  }

  /** The value of a determined entry. */
  function PinnedValue(S: Matrix, n: nat, y: seq<Expr>, j: nat): Expr
    requires IsMatrix(S, |y|, n) && Pinned(S, n, j)
  {
    if S[j][j] >= 0 then FloorDiv(y[j], Const(S[j][j]))
    else FloorDiv(Sub(Const(0), y[j]), Const(-S[j][j]))
  }

  lemma DividePositive(s: int, u: int, y: int)
    requires s > 0
    ensures s * u == y <==> IntOperator.FloorMod(y, s) == 0 && u == IntOperator.FloorDiv(y, s)
  {
    FloorLaw(y, s);
    if s * u == y { FloorUnique(y, s, u, 0); }
  }

  lemma FloorModNegated(y: int, s: int)
    requires s > 0
    ensures IntOperator.FloorMod(y, s) == 0 <==> IntOperator.FloorMod(-y, s) == 0
  {
    FloorModZero(y, s);
    FloorModZero(-y, s);
    DividesSign(s, y);
  }

  lemma DivideOut(s: int, u: int, y: int)
    requires s != 0
    ensures s * u == y <==>
      IntOperator.FloorMod(y, Abs(s)) == 0 &&
        u == (if s >= 0 then IntOperator.FloorDiv(y, s) else IntOperator.FloorDiv(-y, -s))
  {
    if s > 0 {
      DividePositive(s, u, y);
    } else {
      assert s * u == y <==> (-s) * u == -y;
      DividePositive(-s, u, -y);
      FloorModNegated(y, -s);
    }
  }

  ghost predicate RowSolved(S: Matrix, n: nat, y: seq<Expr>, u: Vector, rho: Valuation, j: nat)
    requires IsMatrix(S, |y|, n) && j < |y| && |u| == n
  {
    Holds(Existence(S, n, y, j), rho) && (Pinned(S, n, j) ==> u[j] == Eval(PinnedValue(S, n, y, j), rho))
  }

  lemma DiagonalRow(S: Matrix, n: nat, y: seq<Expr>, u: Vector, rho: Valuation, j: nat)
    requires IsMatrix(S, |y|, n) && Diagonal(S, |y|, n) && |u| == n && j < |y|
    ensures Dot(S[j], u) == Eval(y[j], rho) <==> RowSolved(S, n, y, u, rho, j)
  {
    if Pinned(S, n, j) {
      assert Dot(S[j], u) == S[j][j] * u[j] by { DotSingle(S[j], u, j); }
      PinnedRow(S, n, y, u, rho, j);
    } else {
      assert Dot(S[j], u) == 0 by { DotZero(S[j], u); }
      ZeroRow(S, n, y, u, rho, j);
    }
  }

  lemma ZeroRow(S: Matrix, n: nat, y: seq<Expr>, u: Vector, rho: Valuation, j: nat)
    requires IsMatrix(S, |y|, n) && j < |y| && !Pinned(S, n, j) && |u| == n
    ensures 0 == Eval(y[j], rho) <==> RowSolved(S, n, y, u, rho, j)
  {
    assert Existence(S, n, y, j) == Cmp(EQ, y[j], Const(0));
    assert Eval(Const(0), rho) == 0;
  }

  lemma PinnedRow(S: Matrix, n: nat, y: seq<Expr>, u: Vector, rho: Valuation, j: nat)
    requires IsMatrix(S, |y|, n) && Pinned(S, n, j) && |u| == n
    ensures S[j][j] * u[j] == Eval(y[j], rho) <==> RowSolved(S, n, y, u, rho, j)
  {
    DivideOut(S[j][j], u[j], Eval(y[j], rho));
    PinnedEval(S, n, y, rho, j);
  }

  lemma PinnedEval(S: Matrix, n: nat, y: seq<Expr>, rho: Valuation, j: nat)
    requires IsMatrix(S, |y|, n) && Pinned(S, n, j)
    ensures var s, v := S[j][j], Eval(y[j], rho);
      && (Holds(Existence(S, n, y, j), rho) <==> IntOperator.FloorMod(v, Abs(s)) == 0)
      && Eval(PinnedValue(S, n, y, j), rho) == if s >= 0 then IntOperator.FloorDiv(v, s)
        else IntOperator.FloorDiv(-v, -s)
  {
    var s := S[j][j];
    assert Eval(Const(s), rho) == s && Eval(Const(-s), rho) == -s && Eval(Const(Abs(s)), rho) == Abs(s);
    assert Eval(Sub(Const(0), y[j]), rho) == -Eval(y[j], rho);
  }

  /** A diagonal system is solved by `u` iff every row is solvable and `u` has the pinned values. */
  lemma DiagonalSolutions(S: Matrix, n: nat, y: seq<Expr>, u: Vector, rho: Valuation)
    requires IsMatrix(S, |y|, n) && Diagonal(S, |y|, n) && |u| == n
    ensures Solves(S, u, Values(y, rho)) <==> forall j :: 0 <= j < |y| ==> RowSolved(S, n, y, u, rho, j)
  {
    forall j | 0 <= j < |y|
      ensures Dot(S[j], u) == Values(y, rho)[j] <==> RowSolved(S, n, y, u, rho, j)
    {
      DiagonalRow(S, n, y, u, rho, j);
    }
  }

  // ----- reading the equations off the relations -----

  ghost predicate Free(e: Expr, vs: seq<string>) {
    forall j :: 0 <= j < |vs| ==> vs[j] !in Vars(e)
  }

  lemma {:induction false} ConstantWeights(cs: seq<Expr>, row: Vector, vs: seq<string>, rho: Valuation)
    requires |cs| == |row| == |vs|
    requires forall i :: 0 <= i < |cs| ==> cs[i] == Const(row[i])
    ensures Weighted(cs, vs, rho) == Dot(row, Values(VarExprs(vs), rho))
  {
    if cs != [] {
      var k := |cs| - 1;
      ConstantWeights(cs[..k], row[..k], vs[..k], rho);
      assert Values(VarExprs(vs), rho)[..k] == Values(VarExprs(vs[..k]), rho);
    }
  }

  /** One equation as a matrix row and a right-hand side, when the detector finds integer coefficients. */
  method ReadEquation(vars: seq<string>, ranges: Ranges, an: Analyzer, a: Expr, b: Expr)
    returns (row: Vector, rhs: Expr)
    requires an.SoundSimplify() && an.SoundDetector()
    ensures row != [] ==>
      && |row| == |vars| && Free(rhs, vars) && Vars(rhs) <= Vars(a) + Vars(b)
      && forall rho: Valuation :: InRanges(ranges, rho) ==>
           (Eval(a, rho) == Eval(b, rho) <==> Dot(row, Values(VarExprs(vars), rho)) == Eval(rhs, rho))
  {
    var diff := an.simplify(ranges, Sub(a, b));
    var coeffs := an.detectLinear(diff, vars);
    row, rhs := [], Const(0);
    if coeffs == [] { return; }
    assert IsLinearForm(diff, vars, coeffs);
    var j := 0;
    while j < |coeffs| - 1
      invariant 0 <= j <= |vars| && |row| == j
      invariant forall i :: 0 <= i < j ==> coeffs[i] == Const(row[i])
    {
      if coeffs[j].Const? {
        row := row + [coeffs[j].value];
      } else {
        row := [];
        return;
      }
      j := j + 1;
    }
    rhs := Sub(Const(0), coeffs[|coeffs| - 1]);
    forall rho: Valuation | InRanges(ranges, rho)
      ensures Eval(a, rho) == Eval(b, rho) <==> Dot(row, Values(VarExprs(vars), rho)) == Eval(rhs, rho)
    {
      ConstantWeights(coeffs[..|vars|], row, vars, rho);
      assert Eval(diff, rho) == Eval(Sub(a, b), rho) == Eval(a, rho) - Eval(b, rho);
    }
  }

  /** The relations hold iff the rows are solved and the remaining relations hold. */
  ghost predicate SplitAs(src: IntConstraints, S: Matrix, Uy: seq<Expr>, rest: seq<Cond>, k: nat)
    requires k <= |src.relations| && IsMatrix(S, |Uy|, |src.variables|)
  {
    forall rho: Valuation :: InRanges(src.ranges, rho) ==>
      (AllHold(src.relations[..k], rho) <==> SolvedBy(S, VarExprs(src.variables), Uy, rho) && AllHold(rest, rho))
  }

  method ExtractRows(src: IntConstraints, an: Analyzer)
    returns (S: Matrix, Uy: seq<Expr>, rest: seq<Cond>)
    requires an.SoundSimplify() && an.SoundDetector()
    ensures IsMatrix(S, |Uy|, |src.variables|)
    ensures SplitAs(src, S, Uy, rest, |src.relations|) && |Uy| + |rest| == |src.relations|
    ensures forall i :: 0 <= i < |Uy| ==> Free(Uy[i], src.variables)
    ensures forall i :: 0 <= i < |Uy| ==> Vars(Uy[i]) <= RelationVars(src)
    ensures forall i :: 0 <= i < |rest| ==> rest[i] in src.relations
  {
    var n := |src.variables|;
    S, Uy, rest := [], [], [];
    for k := 0 to |src.relations|
      invariant IsMatrix(S, |Uy|, n)
      invariant SplitAs(src, S, Uy, rest, k) && |Uy| + |rest| == k
      invariant forall i :: 0 <= i < |Uy| ==> Free(Uy[i], src.variables) && Vars(Uy[i]) <= RelationVars(src)
      invariant forall i :: 0 <= i < |rest| ==> rest[i] in src.relations
    {
      var equation := src.relations[k];
      if equation.Cmp? && equation.op == EQ {
        var row, rhs := ReadEquation(src.variables, src.ranges, an, equation.lhs, equation.rhs);
        if row != [] {
          AddRow(src, S, Uy, rest, k, row, rhs);
          assert Vars(rhs) <= RelationVars(src) by {
            forall v | v in Vars(rhs) ensures v in RelationVars(src) { assert v in CondVars(src.relations[k]); }
          }
          S, Uy := S + [row], Uy + [rhs];
          continue;
        }
      }
      AddRest(src, S, Uy, rest, k);
      rest := rest + [equation];
    }
    assert src.relations[..|src.relations|] == src.relations;
  }

  function RelationVars(src: IntConstraints): set<string> {
    set i, v | 0 <= i < |src.relations| && v in CondVars(src.relations[i]) :: v
  }

  lemma AddRow(src: IntConstraints, S: Matrix, Uy: seq<Expr>, rest: seq<Cond>, k: nat, row: Vector, rhs: Expr)
    requires k < |src.relations| && IsMatrix(S, |Uy|, |src.variables|) && |row| == |src.variables|
    requires SplitAs(src, S, Uy, rest, k)
    requires src.relations[k].Cmp? && src.relations[k].op == EQ
    requires forall rho: Valuation :: InRanges(src.ranges, rho) ==>
      (Eval(src.relations[k].lhs, rho) == Eval(src.relations[k].rhs, rho) <==>
       Dot(row, Values(VarExprs(src.variables), rho)) == Eval(rhs, rho))
    ensures SplitAs(src, S + [row], Uy + [rhs], rest, k + 1)
  {
    forall rho: Valuation | InRanges(src.ranges, rho)
      ensures AllHold(src.relations[..k + 1], rho) <==>
        SolvedBy(S + [row], VarExprs(src.variables), Uy + [rhs], rho) && AllHold(rest, rho)
    {
      AllHoldSnoc(src.relations, k, rho);
      SolvesSnoc(S, Values(VarExprs(src.variables), rho), Values(Uy, rho), row, Eval(rhs, rho));
      assert Values(Uy + [rhs], rho) == Values(Uy, rho) + [Eval(rhs, rho)];
    }
  }

  lemma SolvesSnoc(S: Matrix, u: Vector, y: Vector, row: Vector, z: int)
    requires IsMatrix(S, |y|, |u|) && |row| == |u|
    ensures Solves(S + [row], u, y + [z]) <==> Solves(S, u, y) && Dot(row, u) == z
  {
    var T := S + [row];
    if Solves(T, u, y + [z]) {
      forall i | 0 <= i < |S| ensures Dot(S[i], u) == y[i] { assert T[i] == S[i]; }
      assert T[|S|] == row;
    }
  }

  lemma AddRest(src: IntConstraints, S: Matrix, Uy: seq<Expr>, rest: seq<Cond>, k: nat)
    requires k < |src.relations| && IsMatrix(S, |Uy|, |src.variables|)
    requires SplitAs(src, S, Uy, rest, k)
    ensures SplitAs(src, S, Uy, rest + [src.relations[k]], k + 1)
  {
    forall rho: Valuation | InRanges(src.ranges, rho)
      ensures AllHold(src.relations[..k + 1], rho) <==>
        SolvedBy(S, VarExprs(src.variables), Uy, rho) && AllHold(rest + [src.relations[k]], rho)
    {
      AllHoldSnoc(src.relations, k, rho);
      AllHoldAppend(rest, [src.relations[k]], rho);
      assert AllHold([src.relations[k]], rho) <==> Holds([src.relations[k]][0], rho);
    }
  }

  // ----- the new system -----

  /** The existence conditions, simplified; none if one of them is false. */
  method ExistenceRelations(S: Matrix, n: nat, y: seq<Expr>, ranges: Ranges, an: Analyzer)
    returns (solvable: bool, conds: seq<Cond>)
    requires IsMatrix(S, |y|, n) && an.SoundSimplify()
    ensures forall rho: Valuation :: InRanges(ranges, rho) ==>
      if solvable then AllHold(conds, rho) <==> RowsExist(S, n, y, rho, |y|) else !RowsExist(S, n, y, rho, |y|)
    ensures forall i :: 0 <= i < |conds| ==> Mentions(conds[i], y)
  {
    conds := [];
    for j := 0 to |y|
      invariant forall rho: Valuation :: InRanges(ranges, rho) ==> (AllHold(conds, rho) <==> RowsExist(S, n, y, rho, j))
      invariant forall i :: 0 <= i < |conds| ==> Mentions(conds[i], y)
    {
      var newRelation := an.simplifyCond(ranges, Existence(S, n, y, j));
      ExistenceVars(S, n, y, j);
      assert Mentions(newRelation, y) by { assert CondVars(newRelation) <= Vars(y[j]); }
      if newRelation == Lit(false) {
        forall rho: Valuation | InRanges(ranges, rho) ensures !RowsExist(S, n, y, rho, |y|) {
          assert !Holds(newRelation, rho);
        }
        return false, [];
      } else if newRelation != Lit(true) {
        forall rho: Valuation
          ensures AllHold(conds + [newRelation], rho) <==> AllHold(conds, rho) && Holds(newRelation, rho)
        {
          AllHoldAppend(conds, [newRelation], rho);
          assert AllHold([newRelation], rho) <==> Holds([newRelation][0], rho);
        }
        conds := conds + [newRelation];
      } else {
        assert forall rho: Valuation :: InRanges(ranges, rho) ==> Holds(newRelation, rho);
      }
    }
    solvable := true;
  }

  /** The condition speaks only of variables of one right-hand side. */
  ghost predicate Mentions(c: Cond, y: seq<Expr>) {
    exists j :: 0 <= j < |y| && CondVars(c) <= Vars(y[j])
  }

  lemma ExistenceVars(S: Matrix, n: nat, y: seq<Expr>, j: nat)
    requires IsMatrix(S, |y|, n) && j < |y|
    ensures CondVars(Existence(S, n, y, j)) <= Vars(y[j])
  {
    assert Vars(Const(0)) == {};
    if Pinned(S, n, j) {
      assert Vars(FloorMod(y[j], Const(Abs(S[j][j])))) == Vars(y[j]) + Vars(Const(Abs(S[j][j])));
    }
  }

  ghost predicate RowsExist(S: Matrix, n: nat, y: seq<Expr>, rho: Valuation, k: nat)
    requires IsMatrix(S, |y|, n) && k <= |y|
  {
    forall j :: 0 <= j < k ==> Holds(Existence(S, n, y, j), rho)
  }

  /** Entry `j` of the solution: a new variable for a free entry, a quotient for a pinned one. */
  ghost predicate IsEntry(e: Expr, S: Matrix, n: nat, x: seq<Expr>, y: seq<Expr>, ranges: Ranges, an: Analyzer,
      newToOld: Substitution, j: nat)
    requires IsMatrix(S, |y|, n) && j < |x|
  {
    if Pinned(S, n, j) then e == an.simplify(ranges, PinnedValue(S, n, y, j))
    else e.Var? && e.name in newToOld && newToOld[e.name] == an.simplify(ranges, x[j])
  }

  /** A simplified entry of `x`. */
  ghost predicate IsOld(e: Expr, x: seq<Expr>, ranges: Ranges, an: Analyzer) {
    exists j :: 0 <= j < |x| && e == an.simplify(ranges, x[j])
  }

  /** The entries of V^-1 x: a new variable, or the quotient that its row forces. */
  method SolveEntries(S: Matrix, n: nat, x: seq<Expr>, y: seq<Expr>, ranges: Ranges, an: Analyzer, names: seq<string>)
    returns (sol: seq<Expr>, newVars: seq<string>, newToOld: Substitution)
    requires IsMatrix(S, |y|, n) && |x| == n && |names| >= n && Distinct(names)
    ensures |sol| == n && newVars <= names
    ensures newToOld.Keys == set v | v in newVars
    ensures forall j :: 0 <= j < n ==> IsEntry(sol[j], S, n, x, y, ranges, an, newToOld, j)
    ensures forall u :: u in newToOld ==> IsOld(newToOld[u], x, ranges, an)
  {
    sol, newVars, newToOld := [], [], map[];
    for j := 0 to n
      invariant |sol| == j && |newVars| <= j && newVars <= names
      invariant newToOld.Keys == set v | v in newVars
      invariant forall k :: 0 <= k < j ==> IsEntry(sol[k], S, n, x, y, ranges, an, newToOld, k)
      invariant forall u :: u in newToOld ==> IsOld(newToOld[u], x, ranges, an)
    {
      if j >= |S| || S[j][j] == 0 {
        var v := names[|newVars|];
        assert v !in newVars;
        ghost var before := newToOld;
        sol := sol + [Var(v)];
        newVars := newVars + [v];
        newToOld := newToOld[v := an.simplify(ranges, x[j])];
        assert forall k :: 0 <= k < j ==> IsEntry(sol[k], S, n, x, y, ranges, an, before, k);
      } else {
        sol := sol + [an.simplify(ranges, PinnedValue(S, n, y, j))];
      }
    }
  }

  /** The symbolic sum 0 + r[0]*sol[0] + .... */
  function RowExpr(r: Vector, sol: seq<Expr>): Expr
    requires |r| == |sol|
  {
    if r == [] then Const(0)
    else Add(RowExpr(r[..|r| - 1], sol[..|r| - 1]), Mul(Const(r[|r| - 1]), sol[|r| - 1]))
  }

  lemma {:induction false} RowExprEval(r: Vector, sol: seq<Expr>, rho: Valuation)
    requires |r| == |sol|
    ensures Eval(RowExpr(r, sol), rho) == Dot(r, Values(sol, rho))
  {
    if r != [] {
      var k := |r| - 1;
      RowExprEval(r[..k], sol[..k], rho);
      assert Values(sol, rho)[..k] == Values(sol[..k], rho);
      assert Eval(Mul(Const(r[k]), sol[k]), rho) == r[k] * Eval(sol[k], rho);
    }
  }

  /** Every old variable in terms of the new ones. */
  method ExpressOld(vars: seq<string>, V: Matrix, sol: seq<Expr>, ranges: Ranges, an: Analyzer)
    returns (oldToNew: Substitution)
    requires IsMatrix(V, |vars|, |sol|) && Distinct(vars)
    ensures oldToNew.Keys == set v | v in vars
    ensures forall i :: 0 <= i < |vars| ==> oldToNew[vars[i]] == an.simplify(ranges, RowExpr(V[i], sol))
  {
    oldToNew := map[];
    for i := 0 to |vars|
      invariant oldToNew.Keys == set v | v in vars[..i]
      invariant forall k :: 0 <= k < i ==>
        vars[k] in oldToNew && oldToNew[vars[k]] == an.simplify(ranges, RowExpr(V[k], sol))
    {
      var e := Const(0);
      for j := 0 to |sol|
        invariant e == RowExpr(V[i][..j], sol[..j])
      {
        e := Add(e, Mul(Const(V[i][j]), sol[j]));
        assert V[i][..j + 1][..j] == V[i][..j] && sol[..j + 1][..j] == sol[..j];
      }
      assert V[i][..|sol|] == V[i] && sol[..|sol|] == sol;
      oldToNew := oldToNew[vars[i] := an.simplify(ranges, e)];
      assert vars[..i + 1] == vars[..i] + [vars[i]];
    }
    assert vars[..|vars|] == vars;
  }

  /** InferRange: ranges of the other variables, and covering ranges of the new ones. */
  method InferRanges(src: IntConstraints, newToOld: Substitution, newVars: seq<string>, an: Analyzer)
    returns (newRanges: Ranges)
    requires newToOld.Keys == set v | v in newVars
    requires forall v :: v in newVars ==> v !in src.ranges
    ensures forall v :: v in src.ranges && v !in src.variables ==> v in newRanges && newRanges[v] == src.ranges[v]
    ensures forall v :: v in newRanges && v !in newToOld ==> v in src.ranges && v !in src.variables
    ensures forall v :: v in newRanges && v in newToOld ==> an.coverRange(src.ranges, newToOld[v]) == Some(newRanges[v])
  {
    newRanges := map v | v in src.ranges && v !in src.variables :: src.ranges[v];
    for k := 0 to |newVars|
      invariant forall v :: v in src.ranges && v !in src.variables ==> v in newRanges && newRanges[v] == src.ranges[v]
      invariant forall v :: v in newRanges && v !in newToOld ==> v in src.ranges && v !in src.variables
      invariant forall v :: v in newRanges && v in newToOld ==>
        an.coverRange(src.ranges, newToOld[v]) == Some(newRanges[v])
    {
      var range := an.coverRange(src.ranges, newToOld[newVars[k]]);
      if range.Some? {
        newRanges := newRanges[newVars[k] := range.value];
      }
    }
  }

  /** The ranges of the old variables as conditions on the new ones. */
  method RangeRelations(src: IntConstraints, oldToNew: Substitution, newRanges: Ranges, an: Analyzer)
    returns (conds: seq<Cond>)
    requires an.SoundSimplify()
    requires forall i :: 0 <= i < |src.variables| ==> src.variables[i] in oldToNew
    ensures forall sigma: Valuation :: InRanges(newRanges, sigma) ==>
      (AllHold(conds, sigma) <==> OldRangesHold(src, oldToNew, sigma, |src.variables|))
  {
    conds := [];
    for i := 0 to |src.variables|
      invariant forall sigma: Valuation :: InRanges(newRanges, sigma) ==>
        (AllHold(conds, sigma) <==> OldRangesHold(src, oldToNew, sigma, i))
    {
      var v := src.variables[i];
      if v in src.ranges {
        var e, range := oldToNew[v], src.ranges[v];
        var lowerCond := an.simplifyCond(newRanges, Cmp(LE, range.lo, e));
        var upperCond := an.simplifyCond(newRanges, Cmp(LT, e, Add(range.lo, range.extent)));
        ghost var before := conds;
        if lowerCond != Lit(true) { conds := conds + [lowerCond]; }
        if upperCond != Lit(true) { conds := conds + [upperCond]; }
        forall sigma: Valuation | InRanges(newRanges, sigma)
          ensures AllHold(conds, sigma) <==> AllHold(before, sigma) && InRange(range, Eval(e, sigma), sigma)
        {
          TwoConditions(before, conds, lowerCond, upperCond, sigma);
          assert Holds(lowerCond, sigma) == Holds(Cmp(LE, range.lo, e), sigma);
          assert Holds(upperCond, sigma) == Holds(Cmp(LT, e, Add(range.lo, range.extent)), sigma);
          assert Eval(Add(range.lo, range.extent), sigma) == Eval(range.lo, sigma) + Eval(range.extent, sigma);
        }
      }
    }
  }

  lemma TwoConditions(before: seq<Cond>, after: seq<Cond>, c: Cond, d: Cond, sigma: Valuation)
    requires after == before + (if c != Lit(true) then [c] else []) + (if d != Lit(true) then [d] else [])
    ensures AllHold(after, sigma) <==> AllHold(before, sigma) && Holds(c, sigma) && Holds(d, sigma)
  {
    var x, z := if c != Lit(true) then [c] else [], if d != Lit(true) then [d] else [];
    assert AllHold(x, sigma) <==> Holds(c, sigma) by { if x != [] { assert x[0] == c; } }
    assert AllHold(z, sigma) <==> Holds(d, sigma) by { if z != [] { assert z[0] == d; } }
    AllHoldAppend(before, x, sigma);
    AllHoldAppend(before + x, z, sigma);
  }

  ghost predicate OldRangesHold(src: IntConstraints, oldToNew: Substitution, sigma: Valuation, k: nat)
    requires k <= |src.variables|
    requires forall i :: 0 <= i < |src.variables| ==> src.variables[i] in oldToNew
  {
    forall i :: 0 <= i < k && src.variables[i] in src.ranges ==>
      InRange(src.ranges[src.variables[i]], Eval(oldToNew[src.variables[i]], sigma), sigma)
  }

  /** The remaining relations, in terms of the new variables. */
  function SubstAll(cs: seq<Cond>, sub: Substitution): (ds: seq<Cond>)
    ensures |ds| == |cs| && forall i :: 0 <= i < |cs| ==> ds[i] == SubstCond(cs[i], sub)
  {
    seq(|cs|, i requires 0 <= i < |cs| => SubstCond(cs[i], sub))
  }

  // ----- the two directions -----

  /** What the callers of the solver provide: distinct unknowns, and names that are new. */
  ghost predicate WellPosed(src: IntConstraints, names: seq<string>) {
    && Distinct(src.variables) && Distinct(names) && |names| >= |src.variables|
    && (forall v :: v in names ==>
      v !in src.variables && v !in src.ranges && v !in AllRangeVars(src.ranges) && v !in RelationVars(src))
    && (forall i, v :: 0 <= i < |src.relations| && v in CondLetNames(src.relations[i]) ==>
          v !in src.variables && v !in names && v !in RelationVars(src))
  }

  /** No range mentions an unknown. */
  ghost predicate IndependentRanges(src: IntConstraints) {
    forall v :: v in src.variables ==> v !in AllRangeVars(src.ranges)
  }

  /** The unknowns that the ranges mention have, in sigma itself, the values that the new variables give them. */
  ghost predicate KeepsUnknowns(src: IntConstraints, oldToNew: Substitution, sigma: Valuation) {
    forall v :: v in src.variables && v in AllRangeVars(src.ranges) ==> sigma(v) == Apply(oldToNew, sigma)(v)
  }

  /** Everything the solver has computed, as the loops above leave it. */
  datatype Work = Work(s: Sys, A: Matrix, Uy: seq<Expr>, rest: seq<Cond>, existence: seq<Cond>,
                       sol: seq<Expr>, newVars: seq<string>, newToOld: Substitution, oldToNew: Substitution,
                       newRanges: Ranges, rangeConds: seq<Cond>)

  ghost predicate Prepared(src: IntConstraints, an: Analyzer, names: seq<string>, w: Work) {
    var n := |src.variables|;
    && IsMatrix(w.A, |w.Uy|, n)
    && SplitAs(src, w.A, w.Uy, w.rest, |src.relations|) && |w.Uy| + |w.rest| == |src.relations|
    && (forall i :: 0 <= i < |w.Uy| ==> Free(w.Uy[i], src.variables) && Vars(w.Uy[i]) <= RelationVars(src))
    && (forall i :: 0 <= i < |w.rest| ==> w.rest[i] in src.relations)
    && Represents(w.s, w.A, w.Uy, VarExprs(src.variables)) && Diagonal(w.s.S, |w.s.y|, n)
  }

  ghost predicate Finished(src: IntConstraints, an: Analyzer, names: seq<string>, w: Work) {
    Prepared(src, an, names, w) && Entered(src, an, names, w) && Expressed(src, an, w) && Ranged(src, an, w)
  }

  /** The existence conditions and the solution entries. */
  ghost predicate Entered(src: IntConstraints, an: Analyzer, names: seq<string>, w: Work)
    requires Prepared(src, an, names, w)
  {
    var n := |src.variables|;
    && (forall rho: Valuation :: InRanges(src.ranges, rho) ==>
      (AllHold(w.existence, rho) <==> RowsExist(w.s.S, n, w.s.y, rho, |w.s.y|)))
    && (forall i :: 0 <= i < |w.existence| ==> Mentions(w.existence[i], w.s.y))
    && |w.sol| == n && w.newVars <= names && w.newToOld.Keys == (set v | v in w.newVars)
    && (forall j :: 0 <= j < n ==> IsEntry(w.sol[j], w.s.S, n, w.s.x, w.s.y, src.ranges, an, w.newToOld, j))
    && (forall u :: u in w.newToOld ==> IsOld(w.newToOld[u], w.s.x, src.ranges, an))
  }

  /** The old variables in terms of the new ones. */
  ghost predicate Expressed(src: IntConstraints, an: Analyzer, w: Work)
    requires |w.sol| == |src.variables| && IsMatrix(w.s.V, |src.variables|, |src.variables|)
  {
    && w.oldToNew.Keys == (set v | v in src.variables)
    && (forall i :: 0 <= i < |src.variables| ==>
      w.oldToNew[src.variables[i]] == an.simplify(src.ranges, RowExpr(w.s.V[i], w.sol)))
  }

  /** The ranges of the new variables and the conditions for the old ranges. */
  ghost predicate Ranged(src: IntConstraints, an: Analyzer, w: Work)
    requires w.oldToNew.Keys == (set v | v in src.variables)
  {
    && (forall v :: v in src.ranges && v !in src.variables ==> v in w.newRanges && w.newRanges[v] == src.ranges[v])
    && (forall v :: v in w.newRanges && v !in w.newToOld ==> v in src.ranges && v !in src.variables)
    && (forall v :: v in w.newRanges && v in w.newToOld ==>
      an.coverRange(src.ranges, w.newToOld[v]) == Some(w.newRanges[v]))
    && (forall sigma: Valuation :: InRanges(w.newRanges, sigma) ==>
          (AllHold(w.rangeConds, sigma) <==> OldRangesHold(src, w.oldToNew, sigma, |src.variables|)))
  }

  function Assemble(w: Work): Transform {
    Transform(IntConstraints(w.newVars, w.newRanges, w.existence + w.rangeConds + SubstAll(w.rest, w.oldToNew)),
      w.oldToNew, w.newToOld)
  }

  lemma AssembleHolds(w: Work, sigma: Valuation)
    ensures AllHold(Assemble(w).dst.relations, sigma) <==>
      AllHold(w.existence, sigma) && AllHold(w.rangeConds, sigma) && AllHold(SubstAll(w.rest, w.oldToNew), sigma)
  {
    AllHoldAppend(w.existence, w.rangeConds, sigma);
    AllHoldAppend(w.existence + w.rangeConds, SubstAll(w.rest, w.oldToNew), sigma);
  }

  /** Right-hand sides mention neither unknowns nor new names. */
  lemma RhsVars(src: IntConstraints, an: Analyzer, names: seq<string>, w: Work, j: nat, v: string)
    requires WellPosed(src, names) && Prepared(src, an, names, w) && j < |w.s.y| && v in Vars(w.s.y[j])
    ensures v in RelationVars(src) && v !in src.variables && v !in names
  {
    assert v in VarsOf(w.s.y);
    assert v in VarsOf(w.Uy);
    var i :| 0 <= i < |w.Uy| && v in Vars(w.Uy[i]);
    assert Free(w.Uy[i], src.variables);
  }

  lemma PinnedVars(S: Matrix, n: nat, y: seq<Expr>, j: nat)
    requires IsMatrix(S, |y|, n) && Pinned(S, n, j)
    ensures Vars(PinnedValue(S, n, y, j)) <= Vars(y[j])
  {
    assert Vars(Const(S[j][j])) == {} && Vars(Const(-S[j][j])) == {} && Vars(Const(0)) == {};
    assert Vars(Sub(Const(0), y[j])) == Vars(Const(0)) + Vars(y[j]);
  }

  /** Solution entries mention new names and right-hand-side variables only. */
  lemma EntryVars(src: IntConstraints, an: Analyzer, names: seq<string>, w: Work, j: nat, v: string)
    requires an.SoundSimplify() && WellPosed(src, names) && Finished(src, an, names, w)
    requires j < |w.sol| && v in Vars(w.sol[j])
    ensures v !in src.variables && (v in names || v in RelationVars(src))
  {
    var n := |src.variables|;
    assert IsEntry(w.sol[j], w.s.S, n, w.s.x, w.s.y, src.ranges, an, w.newToOld, j);
    if Pinned(w.s.S, n, j) {
      PinnedVars(w.s.S, n, w.s.y, j);
      RhsVars(src, an, names, w, j, v);
    } else {
      assert v == w.sol[j].name && v in w.newVars;
      assert v in names;
    }
  }

  lemma {:induction false} RowExprVars(r: Vector, sol: seq<Expr>, v: string)
    requires |r| == |sol| && v in Vars(RowExpr(r, sol))
    ensures exists j :: 0 <= j < |sol| && v in Vars(sol[j])
  {
    if r != [] {
      var k := |r| - 1;
      assert Vars(Mul(Const(r[k]), sol[k])) == Vars(Const(r[k])) + Vars(sol[k]) == Vars(sol[k]);
      if v !in Vars(sol[k]) { RowExprVars(r[..k], sol[..k], v); }
    }
  }

  lemma OldToNewVars(src: IntConstraints, an: Analyzer, names: seq<string>, w: Work, i: nat, v: string)
    requires an.SoundSimplify() && WellPosed(src, names) && Finished(src, an, names, w)
    requires i < |src.variables| && v in Vars(w.oldToNew[src.variables[i]])
    ensures v !in src.variables && (v in names || v in RelationVars(src))
  {
    RowExprVars(w.s.V[i], w.sol, v);
    var j :| 0 <= j < |w.sol| && v in Vars(w.sol[j]);
    EntryVars(src, an, names, w, j, v);
  }

  lemma RestSubstitutes(src: IntConstraints, an: Analyzer, names: seq<string>, w: Work, sigma: Valuation)
    requires an.SoundSimplify() && WellPosed(src, names) && Finished(src, an, names, w)
    ensures AllHold(SubstAll(w.rest, w.oldToNew), sigma) <==> AllHold(w.rest, Apply(w.oldToNew, sigma))
  {
    forall k | 0 <= k < |w.rest|
      ensures Holds(SubstAll(w.rest, w.oldToNew)[k], sigma) <==> Holds(w.rest[k], Apply(w.oldToNew, sigma))
    {
      forall v | v in CondLetNames(w.rest[k]) ensures Unique(v, w.oldToNew) { LetUnique(src, an, names, w, k, v); }
      SubstHolds(w.rest[k], w.oldToNew, sigma);
    }
  }

  /** A name bound inside a remaining relation is not touched by the substitution. */
  lemma LetUnique(src: IntConstraints, an: Analyzer, names: seq<string>, w: Work, k: nat, v: string)
    requires an.SoundSimplify() && WellPosed(src, names) && Finished(src, an, names, w)
    requires k < |w.rest| && v in CondLetNames(w.rest[k])
    ensures Unique(v, w.oldToNew)
  {
    var r :| 0 <= r < |src.relations| && src.relations[r] == w.rest[k];
    assert v !in src.variables && v !in names && v !in RelationVars(src);
    forall u | u in w.oldToNew ensures v !in Vars(w.oldToNew[u]) {
      var i :| 0 <= i < |src.variables| && src.variables[i] == u;
      if v in Vars(w.oldToNew[u]) { OldToNewVars(src, an, names, w, i, v); }
    }
  }

  // ----- soundness: solutions of the new system give solutions of the old one -----

  lemma RangeAgree(r: Range, k: int, rho: Valuation, sigma: Valuation)
    requires Agree(RangeVars(r), rho, sigma)
    ensures InRange(r, k, rho) == InRange(r, k, sigma)
  {
    EvalAgree(r.lo, rho, sigma);
    EvalAgree(r.extent, rho, sigma);
  }

  lemma RangesMention(rs: Ranges, v: string)
    requires v in rs
    ensures RangeVars(rs[v]) <= AllRangeVars(rs)
  {
  }

  lemma BackRanges(src: IntConstraints, oldToNew: Substitution, newRanges: Ranges, sigma: Valuation)
    requires oldToNew.Keys == set v | v in src.variables
    requires KeepsUnknowns(src, oldToNew, sigma)
    requires forall v :: v in src.ranges && v !in src.variables ==> v in newRanges && newRanges[v] == src.ranges[v]
    requires InRanges(newRanges, sigma) && OldRangesHold(src, oldToNew, sigma, |src.variables|)
    ensures InRanges(src.ranges, Apply(oldToNew, sigma))
  {
    var rho := Apply(oldToNew, sigma);
    forall v | v in src.ranges
      ensures InRange(src.ranges[v], rho(v), rho)
    {
      RangesMention(src.ranges, v);
      forall z | z in RangeVars(src.ranges[v]) ensures rho(z) == sigma(z) { assert z in AllRangeVars(src.ranges); }
      RangeAgree(src.ranges[v], rho(v), rho, sigma);
      if v in src.variables {
        var i :| 0 <= i < |src.variables| && src.variables[i] == v;
        assert InRange(src.ranges[src.variables[i]], Eval(oldToNew[src.variables[i]], sigma), sigma);
      } else {
        assert InRange(newRanges[v], sigma(v), sigma);
      }
    }
  }

  lemma RowValue(r: Vector, sol: seq<Expr>, ranges: Ranges, an: Analyzer, rho: Valuation, sigma: Valuation)
    requires an.SoundSimplify() && |r| == |sol| && InRanges(ranges, rho)
    requires Agree(Vars(an.simplify(ranges, RowExpr(r, sol))), sigma, rho)
    ensures Eval(an.simplify(ranges, RowExpr(r, sol)), sigma) == Dot(r, Values(sol, rho))
  {
    EvalAgree(an.simplify(ranges, RowExpr(r, sol)), sigma, rho);
    RowExprEval(r, sol, rho);
  }

  lemma BackValue(src: IntConstraints, an: Analyzer, names: seq<string>, w: Work, sigma: Valuation, i: nat)
    requires an.SoundSimplify() && WellPosed(src, names) && Finished(src, an, names, w) && i < |src.variables|
    requires InRanges(src.ranges, Apply(w.oldToNew, sigma))
    ensures Dot(w.s.V[i], Values(w.sol, Apply(w.oldToNew, sigma))) == Apply(w.oldToNew, sigma)(src.variables[i])
  {
    var rho := Apply(w.oldToNew, sigma);
    var e := w.oldToNew[src.variables[i]];
    forall v | v in Vars(e) ensures sigma(v) == rho(v) { OldToNewVars(src, an, names, w, i, v); }
    RowValue(w.s.V[i], w.sol, src.ranges, an, rho, sigma);
  }

  lemma BackValues(src: IntConstraints, an: Analyzer, names: seq<string>, w: Work, sigma: Valuation)
    requires an.SoundSimplify() && WellPosed(src, names) && Finished(src, an, names, w)
    requires InRanges(src.ranges, Apply(w.oldToNew, sigma))
    ensures Values(w.s.x, Apply(w.oldToNew, sigma)) == Values(w.sol, Apply(w.oldToNew, sigma))
  {
    var rho := Apply(w.oldToNew, sigma);
    forall i | 0 <= i < |src.variables|
      ensures Dot(w.s.V[i], Values(w.sol, rho)) == rho(src.variables[i])
    {
      BackValue(src, an, names, w, sigma, i);
    }
    InvertsAt(w.s.V, w.s.x, src.variables, rho, Values(w.sol, rho));
  }

  lemma InvertsAt(V: Matrix, x: seq<Expr>, vars: seq<string>, rho: Valuation, u: Vector)
    requires IsMatrix(V, |vars|, |x|) && Inverts(V, x, VarExprs(vars)) && |u| == |x|
    requires forall i :: 0 <= i < |vars| ==> Dot(V[i], u) == rho(vars[i])
    ensures Values(x, rho) == u
  {
    var xs := VarExprs(vars);
    forall i | 0 <= i < |V| ensures Dot(V[i], u) == Values(xs, rho)[i] { assert Eval(xs[i], rho) == rho(vars[i]); }
    assert Maps(V, u, Values(xs, rho));
  }

  /** Conditions on right-hand sides cannot tell two valuations apart that agree on their variables. */
  lemma MentionsAgree(cs: seq<Cond>, y: seq<Expr>, rho: Valuation, sigma: Valuation)
    requires forall i :: 0 <= i < |cs| ==> Mentions(cs[i], y)
    requires Agree(VarsOf(y), rho, sigma)
    ensures AllHold(cs, rho) <==> AllHold(cs, sigma)
  {
    forall i | 0 <= i < |cs| ensures Holds(cs[i], rho) == Holds(cs[i], sigma) {
      assert Mentions(cs[i], y);
      HoldsAgree(cs[i], rho, sigma);
    }
  }

  lemma RhsAgree(src: IntConstraints, an: Analyzer, names: seq<string>, w: Work, rho: Valuation, sigma: Valuation)
    requires WellPosed(src, names) && Prepared(src, an, names, w)
    requires forall v :: v !in src.variables && v !in names ==> rho(v) == sigma(v)
    ensures Agree(VarsOf(w.s.y), rho, sigma)
  {
    forall v | v in VarsOf(w.s.y) ensures rho(v) == sigma(v) {
      var j :| 0 <= j < |w.s.y| && v in Vars(w.s.y[j]);
      RhsVars(src, an, names, w, j, v);
    }
  }

  /** With the rows solvable and the entries at their values, the diagonal system is solved. */
  lemma EntriesSolve(S: Matrix, n: nat, x: seq<Expr>, y: seq<Expr>, sol: seq<Expr>, ranges: Ranges, an: Analyzer,
      newToOld: Substitution, rho: Valuation)
    requires IsMatrix(S, |y|, n) && Diagonal(S, |y|, n) && |x| == n && |sol| == n && an.SoundSimplify()
    requires forall j :: 0 <= j < n ==> IsEntry(sol[j], S, n, x, y, ranges, an, newToOld, j)
    requires InRanges(ranges, rho) && RowsExist(S, n, y, rho, |y|) && Values(x, rho) == Values(sol, rho)
    ensures SolvedBy(S, x, y, rho)
  {
    var u := Values(x, rho);
    forall j | 0 <= j < |y| ensures RowSolved(S, n, y, u, rho, j) {
      assert Holds(Existence(S, n, y, j), rho);
      if Pinned(S, n, j) {
        assert IsEntry(sol[j], S, n, x, y, ranges, an, newToOld, j);
        assert u[j] == Eval(sol[j], rho) == Eval(PinnedValue(S, n, y, j), rho);
      }
    }
    DiagonalSolutions(S, n, y, u, rho);
  }

  lemma RelationsFromParts(src: IntConstraints, an: Analyzer, names: seq<string>, w: Work, rho: Valuation)
    requires Prepared(src, an, names, w) && InRanges(src.ranges, rho)
    ensures AllHold(src.relations, rho) <==> SolvedBy(w.s.S, w.s.x, w.s.y, rho) && AllHold(w.rest, rho)
  {
    assert src.relations[..|src.relations|] == src.relations;
    assert SolvedBy(w.s.S, w.s.x, w.s.y, rho) <==> SolvedBy(w.A, VarExprs(src.variables), w.Uy, rho);
  }

  /** A solution of the new system gives a solution of the old one exactly when it puts the unknowns in their ranges. */
  lemma Backward(src: IntConstraints, an: Analyzer, names: seq<string>, w: Work, sigma: Valuation)
    requires an.SoundSimplify() && WellPosed(src, names) && Finished(src, an, names, w)
    requires Satisfies(Assemble(w).dst, sigma)
    ensures Satisfies(src, Apply(w.oldToNew, sigma)) <==> InRanges(src.ranges, Apply(w.oldToNew, sigma))
    ensures KeepsUnknowns(src, w.oldToNew, sigma) ==> Satisfies(src, Apply(w.oldToNew, sigma))
  {
    var rho := Apply(w.oldToNew, sigma);
    AssembleHolds(w, sigma);
    if KeepsUnknowns(src, w.oldToNew, sigma) { BackRanges(src, w.oldToNew, w.newRanges, sigma); }
    if InRanges(src.ranges, rho) { BackwardRelations(src, an, names, w, sigma); }
  }

  lemma BackwardRelations(src: IntConstraints, an: Analyzer, names: seq<string>, w: Work, sigma: Valuation)
    requires an.SoundSimplify() && WellPosed(src, names) && Finished(src, an, names, w)
    requires AllHold(w.existence, sigma) && AllHold(SubstAll(w.rest, w.oldToNew), sigma)
    requires InRanges(src.ranges, Apply(w.oldToNew, sigma))
    ensures AllHold(src.relations, Apply(w.oldToNew, sigma))
  {
    var rho := Apply(w.oldToNew, sigma);
    assert AllHold(w.rest, rho) by { RestSubstitutes(src, an, names, w, sigma); }
    assert AllHold(w.existence, rho) by {
      RhsAgree(src, an, names, w, rho, sigma);
      MentionsAgree(w.existence, w.s.y, rho, sigma);
    }
    assert SolvedBy(w.s.S, w.s.x, w.s.y, rho) by {
      BackValues(src, an, names, w, sigma);
      EntriesSolve(w.s.S, |src.variables|, w.s.x, w.s.y, w.sol, src.ranges, an, w.newToOld, rho);
    }
    RelationsFromParts(src, an, names, w, rho);
  }

  // ----- completeness: solutions of the old system survive and are recovered -----

  lemma ForwardInRanges(src: IntConstraints, names: seq<string>, newToOld: Substitution, rho: Valuation)
    requires forall v :: v in names ==> v !in src.ranges && v !in AllRangeVars(src.ranges)
    requires forall v :: v in newToOld ==> v in names
    requires InRanges(src.ranges, rho)
    ensures InRanges(src.ranges, Apply(newToOld, rho))
  {
    var sigma := Apply(newToOld, rho);
    forall v | v in src.ranges ensures InRange(src.ranges[v], sigma(v), sigma) {
      RangesMention(src.ranges, v);
      RangeAgree(src.ranges[v], rho(v), rho, sigma);
    }
  }

  lemma ForwardEntry(S: Matrix, n: nat, x: seq<Expr>, y: seq<Expr>, e: Expr, ranges: Ranges, an: Analyzer,
      newToOld: Substitution, rho: Valuation, j: nat)
    requires IsMatrix(S, |y|, n) && |x| == n && j < n && an.SoundSimplify()
    requires IsEntry(e, S, n, x, y, ranges, an, newToOld, j)
    requires InRanges(ranges, rho) && InRanges(ranges, Apply(newToOld, rho))
    requires Agree(VarsOf(y), rho, Apply(newToOld, rho))
    requires Pinned(S, n, j) ==> RowSolved(S, n, y, Values(x, rho), rho, j)
    ensures Eval(e, Apply(newToOld, rho)) == Eval(x[j], rho)
  {
    if Pinned(S, n, j) {
      PinnedVars(S, n, y, j);
      assert Vars(y[j]) <= VarsOf(y);
      EvalAgree(PinnedValue(S, n, y, j), rho, Apply(newToOld, rho));
    }
  }

  lemma ForwardEntries(src: IntConstraints, an: Analyzer, names: seq<string>, w: Work, rho: Valuation)
    requires an.SoundSimplify() && Finished(src, an, names, w)
    requires InRanges(src.ranges, rho) && InRanges(src.ranges, Apply(w.newToOld, rho))
    requires Agree(VarsOf(w.s.y), rho, Apply(w.newToOld, rho))
    requires forall j :: 0 <= j < |w.s.y| ==> RowSolved(w.s.S, |src.variables|, w.s.y, Values(w.s.x, rho), rho, j)
    ensures Values(w.sol, Apply(w.newToOld, rho)) == Values(w.s.x, rho)
  {
    var sigma, n := Apply(w.newToOld, rho), |src.variables|;
    forall j | 0 <= j < n ensures Values(w.sol, sigma)[j] == Values(w.s.x, rho)[j] {
      assert IsEntry(w.sol[j], w.s.S, n, w.s.x, w.s.y, src.ranges, an, w.newToOld, j);
      ForwardEntry(w.s.S, n, w.s.x, w.s.y, w.sol[j], src.ranges, an, w.newToOld, rho, j);
    }
  }

  lemma ForwardUnknown(V: Matrix, x: seq<Expr>, vars: seq<string>, sol: seq<Expr>, e: Expr, ranges: Ranges,
      an: Analyzer, rho: Valuation, sigma: Valuation, i: nat)
    requires IsMatrix(V, |vars|, |x|) && |sol| == |x| && i < |vars| && an.SoundSimplify()
    requires Recovers(V, x, VarExprs(vars)) && e == an.simplify(ranges, RowExpr(V[i], sol))
    requires InRanges(ranges, sigma) && Values(sol, sigma) == Values(x, rho)
    ensures Eval(e, sigma) == rho(vars[i])
  {
    RowExprEval(V[i], sol, sigma);
    assert Maps(V, Values(x, rho), Values(VarExprs(vars), rho));
    assert Values(VarExprs(vars), rho)[i] == Eval(Var(vars[i]), rho);
  }

  lemma NewToOldVars(src: IntConstraints, an: Analyzer, names: seq<string>, w: Work, v: string, z: string)
    requires an.SoundSimplify() && WellPosed(src, names) && Finished(src, an, names, w) && v in w.newToOld
    requires z in Vars(w.newToOld[v])
    ensures z !in names
  {
    assert IsOld(w.newToOld[v], w.s.x, src.ranges, an);
    var j :| 0 <= j < |w.s.x| && w.newToOld[v] == an.simplify(src.ranges, w.s.x[j]);
    assert z in VarsOf(w.s.x);
    assert z in VarsOf(VarExprs(src.variables));
  }

  lemma ForwardNewRange(rs: Ranges, an: Analyzer, names: seq<string>, newToOld: Substitution, v: string, rho: Valuation)
    requires an.SoundIntervals() && InRanges(rs, rho) && v in newToOld && an.coverRange(rs, newToOld[v]).Some?
    requires forall z :: z in names ==> z !in AllRangeVars(rs) && z !in Vars(newToOld[v])
    requires forall z :: z in newToOld ==> z in names
    ensures InRange(an.coverRange(rs, newToOld[v]).value, Apply(newToOld, rho)(v), Apply(newToOld, rho))
  {
    var r := an.coverRange(rs, newToOld[v]).value;
    assert RangeVars(r) <= Vars(newToOld[v]) + AllRangeVars(rs);
    RangeAgree(r, Eval(newToOld[v], rho), rho, Apply(newToOld, rho));
  }

  lemma ForwardRanges(src: IntConstraints, an: Analyzer, names: seq<string>, w: Work, rho: Valuation)
    requires an.SoundSimplify() && an.SoundIntervals() && WellPosed(src, names) && Finished(src, an, names, w)
    requires InRanges(src.ranges, rho)
    ensures InRanges(w.newRanges, Apply(w.newToOld, rho))
  {
    forall v | v in w.newRanges
      ensures InRange(w.newRanges[v], Apply(w.newToOld, rho)(v), Apply(w.newToOld, rho))
    {
      ForwardRangeAt(src, an, names, w, rho, v);
    }
  }

  lemma ForwardRangeAt(src: IntConstraints, an: Analyzer, names: seq<string>, w: Work, rho: Valuation, v: string)
    requires an.SoundSimplify() && an.SoundIntervals() && WellPosed(src, names) && Finished(src, an, names, w)
    requires InRanges(src.ranges, rho) && v in w.newRanges
    ensures InRange(w.newRanges[v], Apply(w.newToOld, rho)(v), Apply(w.newToOld, rho))
  {
    if v in w.newToOld {
      assert an.coverRange(src.ranges, w.newToOld[v]) == Some(w.newRanges[v]);
      NewFree(src, an, names, w, v);
      ForwardNewRange(src.ranges, an, names, w.newToOld, v, rho);
    } else {
      KeptRange(src.ranges, names, w.newToOld, v, rho);
    }
  }

  lemma NewFree(src: IntConstraints, an: Analyzer, names: seq<string>, w: Work, v: string)
    requires an.SoundSimplify() && WellPosed(src, names) && Finished(src, an, names, w) && v in w.newToOld
    ensures forall z :: z in names ==> z !in Vars(w.newToOld[v])
  {
    forall z | z in names ensures z !in Vars(w.newToOld[v]) {
      if z in Vars(w.newToOld[v]) { NewToOldVars(src, an, names, w, v, z); }
    }
  }

  lemma KeptRange(rs: Ranges, names: seq<string>, newToOld: Substitution, v: string, rho: Valuation)
    requires v in rs && v !in newToOld && InRanges(rs, rho)
    requires forall z :: z in newToOld ==> z in names && z !in AllRangeVars(rs)
    ensures InRange(rs[v], Apply(newToOld, rho)(v), Apply(newToOld, rho))
  {
    RangesMention(rs, v);
    RangeAgree(rs[v], rho(v), rho, Apply(newToOld, rho));
  }

  lemma ForwardValues(src: IntConstraints, an: Analyzer, names: seq<string>, w: Work, rho: Valuation)
    requires an.SoundSimplify() && Finished(src, an, names, w)
    requires InRanges(src.ranges, rho) && InRanges(src.ranges, Apply(w.newToOld, rho))
    requires Agree(VarsOf(w.s.y), rho, Apply(w.newToOld, rho))
    requires SolvedBy(w.s.S, w.s.x, w.s.y, rho)
    ensures RowsExist(w.s.S, |src.variables|, w.s.y, rho, |w.s.y|)
    ensures forall i :: 0 <= i < |src.variables| ==>
      Eval(w.oldToNew[src.variables[i]], Apply(w.newToOld, rho)) == rho(src.variables[i])
  {
    var n := |src.variables|;
    DiagonalSolutions(w.s.S, n, w.s.y, Values(w.s.x, rho), rho);
    forall j | 0 <= j < |w.s.y| ensures Holds(Existence(w.s.S, n, w.s.y, j), rho) {
      assert RowSolved(w.s.S, n, w.s.y, Values(w.s.x, rho), rho, j);
    }
    ForwardEntries(src, an, names, w, rho);
    forall i | 0 <= i < n ensures Eval(w.oldToNew[src.variables[i]], Apply(w.newToOld, rho)) == rho(src.variables[i]) {
      ForwardUnknown(w.s.V, w.s.x, src.variables, w.sol, w.oldToNew[src.variables[i]], src.ranges, an, rho,
        Apply(w.newToOld, rho), i);
    }
  }

  lemma Forward(src: IntConstraints, an: Analyzer, names: seq<string>, w: Work, rho: Valuation)
    requires an.SoundSimplify() && an.SoundIntervals() && WellPosed(src, names) && Finished(src, an, names, w)
    requires Satisfies(src, rho)
    ensures Satisfies(Assemble(w).dst, Apply(w.newToOld, rho))
    ensures forall i :: 0 <= i < |src.variables| ==>
      Eval(w.oldToNew[src.variables[i]], Apply(w.newToOld, rho)) == rho(src.variables[i])
  {
    var sigma := Apply(w.newToOld, rho);
    assert SolvedBy(w.s.S, w.s.x, w.s.y, rho) && AllHold(w.rest, rho) by { RelationsFromParts(src, an, names, w, rho); }
    assert InRanges(src.ranges, sigma) by { ForwardInRanges(src, names, w.newToOld, rho); }
    assert InRanges(w.newRanges, sigma) by { ForwardRanges(src, an, names, w, rho); }
    assert Agree(VarsOf(w.s.y), rho, sigma) by { RhsAgree(src, an, names, w, rho, sigma); }
    ForwardValues(src, an, names, w, rho);
    assert AllHold(Assemble(w).dst.relations, sigma) by {
      ForwardConditions(src, an, names, w, rho);
      AssembleHolds(w, sigma);
    }
  }

  lemma ForwardConditions(src: IntConstraints, an: Analyzer, names: seq<string>, w: Work, rho: Valuation)
    requires an.SoundSimplify() && WellPosed(src, names) && Finished(src, an, names, w)
    requires InRanges(src.ranges, rho) && InRanges(w.newRanges, Apply(w.newToOld, rho))
    requires Agree(VarsOf(w.s.y), rho, Apply(w.newToOld, rho))
    requires RowsExist(w.s.S, |src.variables|, w.s.y, rho, |w.s.y|) && AllHold(w.rest, rho)
    requires forall i :: 0 <= i < |src.variables| ==>
      Eval(w.oldToNew[src.variables[i]], Apply(w.newToOld, rho)) == rho(src.variables[i])
    ensures var sigma := Apply(w.newToOld, rho);
      AllHold(w.existence, sigma) && AllHold(w.rangeConds, sigma) && AllHold(SubstAll(w.rest, w.oldToNew), sigma)
  {
    var sigma := Apply(w.newToOld, rho);
    assert AllHold(w.existence, sigma) by { MentionsAgree(w.existence, w.s.y, rho, sigma); }
    assert AllHold(w.rangeConds, sigma) by { ForwardOldRanges(src, names, w.newToOld, w.oldToNew, rho); }
    RestSubstitutes(src, an, names, w, sigma);
    ForwardRest(src, names, w.newToOld, w.oldToNew, w.rest, rho);
  }

  lemma ForwardOldRanges(src: IntConstraints, names: seq<string>, newToOld: Substitution, oldToNew: Substitution,
      rho: Valuation)
    requires forall v :: v in names ==> v !in AllRangeVars(src.ranges)
    requires forall v :: v in newToOld ==> v in names
    requires InRanges(src.ranges, rho)
    requires forall i :: 0 <= i < |src.variables| ==> src.variables[i] in oldToNew
    requires forall i :: 0 <= i < |src.variables| ==>
      Eval(oldToNew[src.variables[i]], Apply(newToOld, rho)) == rho(src.variables[i])
    ensures OldRangesHold(src, oldToNew, Apply(newToOld, rho), |src.variables|)
  {
    var sigma := Apply(newToOld, rho);
    forall i | 0 <= i < |src.variables| && src.variables[i] in src.ranges
      ensures InRange(src.ranges[src.variables[i]], Eval(oldToNew[src.variables[i]], sigma), sigma)
    {
      var v := src.variables[i];
      RangesMention(src.ranges, v);
      RangeAgree(src.ranges[v], rho(v), rho, sigma);
    }
  }

  lemma ForwardRest(src: IntConstraints, names: seq<string>, newToOld: Substitution, oldToNew: Substitution,
      rest: seq<Cond>, rho: Valuation)
    requires forall v :: v in names ==> v !in RelationVars(src)
    requires forall v :: v in newToOld ==> v in names
    requires oldToNew.Keys == set v | v in src.variables
    requires forall i :: 0 <= i < |src.variables| ==>
      Eval(oldToNew[src.variables[i]], Apply(newToOld, rho)) == rho(src.variables[i])
    requires forall i :: 0 <= i < |rest| ==> rest[i] in src.relations
    requires AllHold(rest, rho)
    ensures AllHold(rest, Apply(oldToNew, Apply(newToOld, rho)))
  {
    var back := Apply(oldToNew, Apply(newToOld, rho));
    forall k | 0 <= k < |rest| ensures Holds(rest[k], back) {
      var r :| 0 <= r < |src.relations| && src.relations[r] == rest[k];
      forall v | v in CondVars(rest[k]) ensures rho(v) == back(v) {
        assert v in RelationVars(src);
        if v in src.variables {
          var i :| 0 <= i < |src.variables| && src.variables[i] == v;
        }
      }
      HoldsAgree(rest[k], rho, back);
    }
  }

  // ----- the solver -----

  /** The answer for a system without a solution. */
  const NoSolution: Transform := Transform(IntConstraints([], map[], [Lit(false)]), map[], map[])

  lemma NoSolutionHas(sigma: Valuation)
    ensures !Satisfies(NoSolution.dst, sigma)
  {
    assert !Holds(NoSolution.dst.relations[0], sigma);
  }

  /** What the solver may return. */
  ghost predicate Produced(src: IntConstraints, an: Analyzer, names: seq<string>, t: Transform) {
    t == NoSolution || exists w :: Finished(src, an, names, w) && t == Assemble(w)
  }

  /** What a new solution gives: an old one exactly when it puts the unknowns in their ranges. */
  ghost predicate BackExact(src: IntConstraints, t: Transform) {
    forall sigma: Valuation :: Satisfies(t.dst, sigma) ==>
      && (Satisfies(src, Apply(t.oldToNew, sigma)) <==> InRanges(src.ranges, Apply(t.oldToNew, sigma)))
      && (KeepsUnknowns(src, t.oldToNew, sigma) ==> Satisfies(src, Apply(t.oldToNew, sigma)))
  }

  lemma FinishedComplete(src: IntConstraints, an: Analyzer, names: seq<string>, w: Work)
    requires an.SoundSimplify() && an.SoundIntervals() && WellPosed(src, names) && Finished(src, an, names, w)
    ensures Complete(src, Assemble(w))
  {
    forall rho: Valuation | Satisfies(src, rho)
      ensures Satisfies(Assemble(w).dst, Apply(w.newToOld, rho))
      ensures forall i :: 0 <= i < |src.variables| ==>
        Apply(w.oldToNew, Apply(w.newToOld, rho))(src.variables[i]) == rho(src.variables[i])
    {
      Forward(src, an, names, w, rho);
    }
  }

  lemma FinishedBack(src: IntConstraints, an: Analyzer, names: seq<string>, w: Work)
    requires an.SoundSimplify() && WellPosed(src, names) && Finished(src, an, names, w)
    ensures BackExact(src, Assemble(w)) && (IndependentRanges(src) ==> Correct(src, Assemble(w)))
  {
    forall sigma: Valuation | Satisfies(Assemble(w).dst, sigma)
      ensures Satisfies(src, Apply(w.oldToNew, sigma)) <==> InRanges(src.ranges, Apply(w.oldToNew, sigma))
      ensures KeepsUnknowns(src, w.oldToNew, sigma) ==> Satisfies(src, Apply(w.oldToNew, sigma))
    {
      Backward(src, an, names, w, sigma);
    }
  }

  lemma NothingToSolve(src: IntConstraints, an: Analyzer, names: seq<string>, w: Work)
    requires Prepared(src, an, names, w)
    requires forall rho: Valuation :: InRanges(src.ranges, rho) ==>
      !RowsExist(w.s.S, |src.variables|, w.s.y, rho, |w.s.y|)
    ensures Complete(src, NoSolution) && Correct(src, NoSolution) && BackExact(src, NoSolution)
  {
    forall rho: Valuation ensures !Satisfies(src, rho) {
      if InRanges(src.ranges, rho) { Unsolvable(src, an, names, w, rho); }
    }
    forall sigma: Valuation ensures !Satisfies(NoSolution.dst, sigma) { NoSolutionHas(sigma); }
  }

  /** The rows of the equations, diagonalised. */
  method Diagonalized(src: IntConstraints, an: Analyzer, ghost names: seq<string>) returns (w: Work)
    requires an.SoundSimplify() && an.SoundDetector()
    ensures Prepared(src, an, names, w)
  {
    var A, Uy, rest := ExtractRows(src, an);
    var orig := VarExprs(src.variables);
    InitialRepresents(A, Uy, orig);
    var d := new SmithDiagonalizer.Diagonalizer(A, Identity(|src.variables|), orig, Uy);
    d.Diagonalize(A, Uy, orig);
    w := Work(Sys(d.S, d.V, d.x, d.y), A, Uy, rest, [], [], [], map[], map[], map[], []);
  }

  /**
   SolveLinearEquations; `names` supplies the new variables. Always complete; a new
   solution gives an old one exactly when it puts the unknowns in their ranges, which it
   always does when no range mentions an unknown.
   */
  method SolveLinearEquations(src: IntConstraints, an: Analyzer, names: seq<string>) returns (t: Transform)
    requires an.SoundSimplify() && an.SoundDetector() && an.SoundIntervals()
    requires WellPosed(src, names)
    ensures Produced(src, an, names, t) && Complete(src, t) && (IndependentRanges(src) ==> Correct(src, t))
    ensures BackExact(src, t)
  {
    var w := Diagonalized(src, an, names);
    var s, n := w.s, |src.variables|;
    var solvable, existence := ExistenceRelations(s.S, n, s.y, src.ranges, an);
    if !solvable {
      // unable to solve the system
      NothingToSolve(src, an, names, w);
      return NoSolution;
    }
    var sol, newVars, newToOld := SolveEntries(s.S, n, s.x, s.y, src.ranges, an, names);
    var oldToNew := ExpressOld(src.variables, s.V, sol, src.ranges, an);
    var newRanges := InferRanges(src, newToOld, newVars, an);
    var rangeConds := RangeRelations(src, oldToNew, newRanges, an);
    w := Work(s, w.A, w.Uy, w.rest, existence, sol, newVars, newToOld, oldToNew, newRanges, rangeConds);
    assert Finished(src, an, names, w);
    FinishedComplete(src, an, names, w);
    FinishedBack(src, an, names, w);
    t := Assemble(w);
  }

  lemma Unsolvable(src: IntConstraints, an: Analyzer, names: seq<string>, w: Work, rho: Valuation)
    requires Prepared(src, an, names, w) && InRanges(src.ranges, rho)
    requires !RowsExist(w.s.S, |src.variables|, w.s.y, rho, |w.s.y|)
    ensures !AllHold(src.relations, rho)
  {
    RelationsFromParts(src, an, names, w, rho);
    DiagonalSolutions(w.s.S, |src.variables|, w.s.y, Values(w.s.x, rho), rho);
    var j :| 0 <= j < |w.s.y| && !Holds(Existence(w.s.S, |src.variables|, w.s.y, j), rho);
    assert !RowSolved(w.s.S, |src.variables|, w.s.y, Values(w.s.x, rho), rho, j);
  }

  // ----- a range over an unknown -----

  /** Without equations every unknown becomes a new variable, and the new variables give back any values. */
  lemma FreeUnknowns(src: IntConstraints, names: seq<string>, w: Work, rho: Valuation, sigma: Valuation)
    requires Finished(src, Trivial, names, w) && src.relations == []
    requires forall u :: u in w.newToOld ==> sigma(u) == Eval(w.newToOld[u], rho)
    ensures forall i :: 0 <= i < |src.variables| ==> Eval(w.oldToNew[src.variables[i]], sigma) == rho(src.variables[i])
  {
    var n := |src.variables|;
    forall k | 0 <= k < n ensures Values(w.sol, sigma)[k] == Values(w.s.x, rho)[k] {
      assert IsEntry(w.sol[k], w.s.S, n, w.s.x, w.s.y, src.ranges, Trivial, w.newToOld, k);
      FreeEntry(w.sol[k], w.s.S, n, w.s.x, w.s.y, src.ranges, w.newToOld, k, rho, sigma);
    }
    forall i | 0 <= i < n ensures Eval(w.oldToNew[src.variables[i]], sigma) == rho(src.variables[i]) {
      FreeOld(src.variables, w.s.V, w.s.x, w.sol, rho, sigma, i);
      assert w.oldToNew[src.variables[i]] == Trivial.simplify(src.ranges, RowExpr(w.s.V[i], w.sol));
    }
  }

  lemma FreeEntry(e: Expr, S: Matrix, n: nat, x: seq<Expr>, y: seq<Expr>, ranges: Ranges, newToOld: Substitution,
      k: nat, rho: Valuation, sigma: Valuation)
    requires IsMatrix(S, |y|, n) && |x| == n && k < n && y == []
    requires IsEntry(e, S, n, x, y, ranges, Trivial, newToOld, k)
    requires forall u :: u in newToOld ==> sigma(u) == Eval(newToOld[u], rho)
    ensures Eval(e, sigma) == Eval(x[k], rho)
  {
  }

  lemma FreeOld(vars: seq<string>, V: Matrix, x: seq<Expr>, sol: seq<Expr>, rho: Valuation, sigma: Valuation, i: nat)
    requires IsMatrix(V, |vars|, |x|) && |x| == |sol| == |vars| && i < |vars| && Recovers(V, x, VarExprs(vars))
    requires forall k :: 0 <= k < |x| ==> Values(sol, sigma)[k] == Values(x, rho)[k]
    ensures Eval(RowExpr(V[i], sol), sigma) == rho(vars[i])
  {
    assert Values(sol, sigma) == Values(x, rho);
    RowExprEval(V[i], sol, sigma);
    assert Maps(V, Values(x, rho), Values(VarExprs(vars), rho));
    assert Values(VarExprs(vars), rho)[i] == Eval(Var(vars[i]), rho);
  }

  /** Without equations the new system only asks for the emitted bounds. */
  lemma FreeSatisfied(src: IntConstraints, names: seq<string>, w: Work, inside: Valuation, sigma: Valuation)
    requires Finished(src, Trivial, names, w) && src.relations == [] && InRanges(src.ranges, inside)
    requires (forall v :: v in src.ranges ==> v in src.variables)
    requires OldRangesHold(src, w.oldToNew, sigma, |src.variables|)
    ensures Satisfies(Assemble(w).dst, sigma)
  {
    assert InRanges(w.newRanges, sigma) by { FreeRanges(src, names, w); }
    assert AllHold(w.existence, sigma) by { FreeExistence(src, names, w, inside, sigma); }
    assert AllHold(w.rangeConds, sigma);
    assert w.rest == [];
    AssembleHolds(w, sigma);
  }

  lemma FreeRanges(src: IntConstraints, names: seq<string>, w: Work)
    requires Finished(src, Trivial, names, w) && forall v :: v in src.ranges ==> v in src.variables
    ensures w.newRanges == map[]
  {
    forall v | v in w.newToOld ensures v !in w.newRanges {
      assert Trivial.coverRange(src.ranges, w.newToOld[v]) == None;
    }
  }

  lemma FreeExistence(src: IntConstraints, names: seq<string>, w: Work, inside: Valuation, sigma: Valuation)
    requires Finished(src, Trivial, names, w) && src.relations == [] && InRanges(src.ranges, inside)
    ensures AllHold(w.existence, sigma)
  {
    assert RowsExist(w.s.S, |src.variables|, w.s.y, inside, 0);
    MentionsAgree(w.existence, w.s.y, inside, sigma);
  }

  /** Any values rho of the unknowns are reached where sigma meets the emitted bounds. */
  lemma FreePoint(src: IntConstraints, names: seq<string>, w: Work, inside: Valuation, rho: Valuation, sigma: Valuation)
    requires Finished(src, Trivial, names, w) && src.relations == [] && InRanges(src.ranges, inside)
    requires forall u :: u in w.newToOld ==> sigma(u) == Eval(w.newToOld[u], rho)
    requires forall v :: v in src.ranges ==> v in src.variables && InRange(src.ranges[v], rho(v), sigma)
    ensures Satisfies(Assemble(w).dst, sigma)
    ensures forall v :: v in src.variables ==> Apply(w.oldToNew, sigma)(v) == rho(v)
  {
    FreeUnknowns(src, names, w, rho, sigma);
    FreeSatisfied(src, names, w, inside, sigma);
  }

  lemma NewAreNames(src: IntConstraints, names: seq<string>, w: Work, v: string)
    requires WellPosed(src, names) && Finished(src, Trivial, names, w) && v in src.variables
    ensures v !in w.newToOld
  {
  }

  /** i and j with j in [0, i), and no equation. */
  function Triangle(i: string, j: string): IntConstraints {
    IntConstraints([i, j], map[j := Range(Const(0), Var(i))], [])
  }

  lemma TriangleMeans(i: string, j: string, rho: Valuation)
    requires i != j
    ensures InRanges(Triangle(i, j).ranges, rho) <==> 0 <= rho(j) < rho(i)
  {
    UpTo(i, rho(j), rho);
    assert Triangle(i, j).ranges[j] == Range(Const(0), Var(i));
  }

  lemma UpTo(i: string, k: int, rho: Valuation)
    ensures InRange(Range(Const(0), Var(i)), k, rho) <==> 0 <= k < rho(i)
  {
    assert Eval(Var(i), rho) == rho(i) && Eval(Const(0), rho) == 0;
  }

  /** A point of the new system with 0 for i, 5 for j, and 10 for the old i. */
  lemma TrianglePoint(i: string, j: string, names: seq<string>, w: Work, inside: Valuation, rho: Valuation,
      sigma: Valuation)
    requires i != j && i !in w.newToOld && Finished(Triangle(i, j), Trivial, names, w)
    requires rho(i) == 0 && rho(j) == 5 && inside(i) == 1 && inside(j) == 0
    requires sigma(i) == 10 && forall u :: u in w.newToOld ==> sigma(u) == Eval(w.newToOld[u], rho)
    ensures Satisfies(Assemble(w).dst, sigma)
    ensures Apply(w.oldToNew, sigma)(i) == 0 && Apply(w.oldToNew, sigma)(j) == 5
  {
    var src := Triangle(i, j);
    TriangleUnknowns(i, j);
    assert InRange(src.ranges[j], rho(j), sigma) by { UpTo(i, 5, sigma); }
    assert InRanges(src.ranges, inside) by { TriangleMeans(i, j, inside); }
    FreePoint(src, names, w, inside, rho, sigma);
  }

  lemma TriangleUnknowns(i: string, j: string)
    ensures i in Triangle(i, j).variables && j in Triangle(i, j).variables
  {
    assert Triangle(i, j).variables[0] == i && Triangle(i, j).variables[1] == j;
  }

  lemma TriangleHasSolution(i: string, j: string, t: Transform, inside: Valuation)
    requires i != j && inside(i) == 1 && inside(j) == 0 && Complete(Triangle(i, j), t)
    ensures t != NoSolution
  {
    TriangleMeans(i, j, inside);
    assert Satisfies(Triangle(i, j), inside);
    NoSolutionHas(Apply(t.newToOld, inside));
  }

  lemma NotCorrectAt(src: IntConstraints, t: Transform, sigma: Valuation)
    requires Satisfies(t.dst, sigma) && !InRanges(src.ranges, Apply(t.oldToNew, sigma))
    ensures !Correct(src, t)
  {
  }

  lemma TriangleWork(i: string, j: string, names: seq<string>, w: Work, inside: Valuation, rho: Valuation,
      sigma: Valuation)
    requires i != j && i !in w.newToOld && Finished(Triangle(i, j), Trivial, names, w)
    requires rho(i) == 0 && rho(j) == 5 && inside(i) == 1 && inside(j) == 0
    requires sigma(i) == 10 && forall u :: u in w.newToOld ==> sigma(u) == Eval(w.newToOld[u], rho)
    ensures !Correct(Triangle(i, j), Assemble(w))
  {
    TrianglePoint(i, j, names, w, inside, rho, sigma);
    TriangleMeans(i, j, Apply(w.oldToNew, sigma));
    NotCorrectAt(Triangle(i, j), Assemble(w), sigma);
  }

  /**
   The emitted bound of j keeps the old i, which the new system leaves free, so it admits points outside the triangle.
   */
  lemma TriangleNotCorrect(i: string, j: string, names: seq<string>, w: Work)
    requires i != j && WellPosed(Triangle(i, j), names) && Finished(Triangle(i, j), Trivial, names, w)
    ensures !Correct(Triangle(i, j), Assemble(w))
  {
    assert i !in w.newToOld by {
      TriangleUnknowns(i, j);
      NewAreNames(Triangle(i, j), names, w, i);
    }
    var inside: Valuation, outside: Valuation := s => if s == i then 1 else 0, s => if s == j then 5 else 0;
    var sigma := Bind(Apply(w.newToOld, outside), i, 10);
    forall u | u in w.newToOld ensures sigma(u) == Eval(w.newToOld[u], outside) { assert u != i; }
    TriangleWork(i, j, names, w, inside, outside, sigma);
  }

  /** The solver run on a triangle: complete, but not correct. */
  method TriangleFails(i: string, j: string, names: seq<string>) returns (t: Transform)
    requires i != j && WellPosed(Triangle(i, j), names)
    ensures Complete(Triangle(i, j), t) && !Correct(Triangle(i, j), t)
  {
    TrivialAnalyzerSound();
    t := SolveLinearEquations(Triangle(i, j), Trivial, names);
    TriangleHasSolution(i, j, t, s => if s == i then 1 else 0);
    ghost var w :| Finished(Triangle(i, j), Trivial, names, w) && t == Assemble(w);
    TriangleNotCorrect(i, j, names, w);
  }
}
