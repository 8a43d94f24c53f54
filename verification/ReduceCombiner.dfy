/**
 SimplifyReduceCombiner of src/arith/canonical_simplify.cc: dropping the unused
 components of a tuple reduction.
 */
module ReduceCombiner {
  import opened Exprs

  /** A tuple combiner: component i of the result is result[i], over the names lhs and rhs. */
  datatype CommReducer = CommReducer(lhs: seq<string>, rhs: seq<string>, result: seq<Expr>, identity: seq<Expr>)

  /** `init` is empty when the reduction starts from the identity. */
  datatype Reduce = Reduce(combiner: CommReducer, source: seq<Expr>, valueIndex: nat, init: seq<Expr>)

  ghost predicate NoRepeats(s: seq<string>) {
    forall i, j :: 0 <= i < j < |s| ==> s[i] != s[j]
  }

  ghost predicate WellFormed(r: Reduce) {
    var n := |r.combiner.result|;
    && |r.combiner.lhs| == n && |r.combiner.rhs| == n && |r.combiner.identity| == n && |r.source| == n
    && (r.init == [] || |r.init| == n) && r.valueIndex < n
    && NoRepeats(r.combiner.lhs + r.combiner.rhs)
  }

  // ----- meaning -----

  function IndexOf(names: seq<string>, s: string): (i: nat)
    ensures i <= |names| && (s in names <==> i < |names|) && (i < |names| ==> names[i] == s)
  {
    if names == [] then 0 else if names[0] == s then 0 else IndexOf(names[1..], s) + 1
  }

  /** The valuation in which the combiner is evaluated. */
  function Operands(c: CommReducer, acc: seq<int>, src: seq<int>, rho: Valuation): Valuation
    requires |acc| == |c.lhs| && |src| == |c.rhs|
  {
    s => if s in c.lhs then acc[IndexOf(c.lhs, s)] else if s in c.rhs then src[IndexOf(c.rhs, s)] else rho(s)
  }

  function Values(es: seq<Expr>, rho: Valuation): (r: seq<int>)
    ensures |r| == |es| && forall i :: 0 <= i < |es| ==> r[i] == Eval(es[i], rho)
  {
    seq(|es|, i requires 0 <= i < |es| => Eval(es[i], rho))
  }

  /** The accumulated tuple after visiting the points in order. */
  ghost function Fold(r: Reduce, points: seq<Valuation>, rho: Valuation): (acc: seq<int>)
    requires WellFormed(r)
    ensures |acc| == |r.combiner.result|
  {
    if points == [] then Values(if r.init == [] then r.combiner.identity else r.init, rho)
    else
      var k := |points| - 1;
      Values(r.combiner.result, Operands(r.combiner, Fold(r, points[..k], rho), Values(r.source, points[k]), rho))
  }

  ghost function ReducedValue(r: Reduce, points: seq<Valuation>, rho: Valuation): int
    requires WellFormed(r)
  {
    Fold(r, points, rho)[r.valueIndex]
  }

  // ----- dependence and marking -----

  predicate Depends(c: CommReducer, result: seq<Expr>, j: nat, i: nat)
    requires j < |result| && i < |c.lhs| && i < |c.rhs|
  {
    c.lhs[i] in Vars(result[j]) || c.rhs[i] in Vars(result[j])
  }

  /** Everything a marked component depends on is marked. */
  ghost predicate ClosedAt(c: CommReducer, result: seq<Expr>, used: seq<bool>, j: nat)
    requires |result| == |used| == |c.lhs| == |c.rhs| && j < |used|
  {
    forall i :: 0 <= i < |used| && Depends(c, result, j, i) ==> used[i]
  }

  ghost predicate Closed(c: CommReducer, result: seq<Expr>, used: seq<bool>)
    requires |result| == |used| == |c.lhs| == |c.rhs|
  {
    forall j :: 0 <= j < |used| && used[j] ==> ClosedAt(c, result, used, j)
  }

  ghost predicate Includes(big: seq<bool>, small: seq<bool>) {
    |big| == |small| && forall i :: 0 <= i < |big| && small[i] ==> big[i]
  }

  function Unmarked(used: seq<bool>): nat {
    if used == [] then 0 else Unmarked(used[..|used| - 1]) + if used[|used| - 1] then 0 else 1
  }

  lemma {:induction false} UnmarkedLess(small: seq<bool>, big: seq<bool>, j: nat)
    requires Includes(big, small)
    ensures Unmarked(big) <= Unmarked(small)
    ensures j < |big| && big[j] && !small[j] ==> Unmarked(big) < Unmarked(small)
  {
    if big != [] {
      var k := |big| - 1;
      UnmarkedLess(small[..k], big[..k], j);
    }
  }

  /** mark_used as a recursive in-place marking. */
  class Marker {
    const combiner: CommReducer
    const result: seq<Expr>
    var used: seq<bool>

    ghost predicate Valid()
      reads this
    {
      |result| == |used| == |combiner.lhs| == |combiner.rhs|
    }

    constructor (combiner: CommReducer, result: seq<Expr>)
      requires |result| == |combiner.lhs| == |combiner.rhs|
      ensures Valid() && this.combiner == combiner && this.result == result && used == seq(|result|, i => false)
    {
      this.combiner, this.result := combiner, result;
      used := seq(|result|, i => false);
    }

    /**
     Marks idx and what it depends on; every component marked by the call is closed, and nothing outside a closed set is
     marked.
     */
    method MarkUsed(idx: nat)
      requires Valid() && idx < |used|
      modifies this`used
      ensures Valid() && Includes(used, old(used)) && used[idx]
      ensures forall j :: 0 <= j < |used| && used[j] && !old(used[j]) ==> ClosedAt(combiner, result, used, j)
      ensures forall big: seq<bool> :: Includes(big, old(used)) && big[idx] && Closed(combiner, result, big) ==>
        Includes(big, used)
      decreases Unmarked(used)
    {
      if used[idx] { return; }
      ghost var before := used;
      used := used[idx := true];
      UnmarkedLess(before, used, idx);
      for i := 0 to |result|
        invariant Valid() && Includes(used, before) && used[idx] && Includes(used, before[idx := true])
        invariant forall j :: 0 <= j < |used| && used[j] && !before[j] && j != idx ==>
          ClosedAt(combiner, result, used, j)
        invariant forall k :: 0 <= k < i && Depends(combiner, result, idx, k) ==> used[k]
        invariant forall big: seq<bool> :: Includes(big, before) && big[idx] && Closed(combiner, result, big) ==>
          Includes(big, used)
      {
        if !used[i] && (combiner.lhs[i] in Vars(result[idx]) || combiner.rhs[i] in Vars(result[idx])) {
          assert Depends(combiner, result, idx, i);
          ghost var mid := used;
          UnmarkedLess(before[idx := true], used, idx);
          MarkUsed(i);
          forall j | 0 <= j < |used| && used[j] && !before[j] && j != idx ensures ClosedAt(combiner, result, used, j) {
            if mid[j] { assert ClosedAt(combiner, result, mid, j); }
          }
          forall big: seq<bool> | Includes(big, before) && big[idx] && Closed(combiner, result, big)
            ensures Includes(big, used)
          {
            assert ClosedAt(combiner, result, big, idx);
            assert big[i];
          }
        }
      }
    }
  }

  // ----- projection -----

  /** The used indices below n, in order. */
  function Kept(used: seq<bool>, n: nat): (ks: seq<nat>)
    requires n <= |used|
    ensures |ks| <= n && forall t :: 0 <= t < |ks| ==> ks[t] < n && used[ks[t]]
  {
    if n == 0 then [] else Kept(used, n - 1) + if used[n - 1] then [n - 1] else []
  }

  function Project<T>(s: seq<T>, ks: seq<nat>): (r: seq<T>)
    requires forall t :: 0 <= t < |ks| ==> ks[t] < |s|
    ensures |r| == |ks| && forall t :: 0 <= t < |ks| ==> r[t] == s[ks[t]]
  {
    seq(|ks|, t requires 0 <= t < |ks| => s[ks[t]])
  }

  /** The position of a used index among the used ones is the number of used ones below it. */
  lemma {:induction false} KeptPosition(used: seq<bool>, n: nat, i: nat)
    requires i < n <= |used| && used[i]
    ensures |Kept(used, i)| < |Kept(used, n)| && Kept(used, n)[|Kept(used, i)|] == i
  {
    if n - 1 > i { KeptPosition(used, n - 1, i); }
  }

  lemma {:induction false} KeptDistinct(used: seq<bool>, n: nat, s: nat, t: nat)
    requires n <= |used| && s < t < |Kept(used, n)|
    ensures Kept(used, n)[s] < Kept(used, n)[t]
  {
    if t < |Kept(used, n - 1)| { KeptDistinct(used, n - 1, s, t); }
  }

  /** The reduction over the kept components. */
  function Projected(r: Reduce, result: seq<Expr>, identity: seq<Expr>, ks: seq<nat>, valueIndex: nat): Reduce
    requires forall t :: 0 <= t < |ks| ==> ks[t] < |result| && ks[t] < |identity| && ks[t] < |r.source|
    requires forall t :: 0 <= t < |ks| ==> ks[t] < |r.combiner.lhs| && ks[t] < |r.combiner.rhs|
    requires r.init == [] || forall t :: 0 <= t < |ks| ==> ks[t] < |r.init|
  {
    Reduce(CommReducer(Project(r.combiner.lhs, ks), Project(r.combiner.rhs, ks), Project(result, ks),
      Project(identity, ks)),
      Project(r.source, ks), valueIndex, if r.init == [] then [] else Project(r.init, ks))
  }

  /** `xs` has the values of `ys` under every valuation. */
  ghost predicate SameValues(xs: seq<Expr>, ys: seq<Expr>) {
    |xs| == |ys| && forall i, rho: Valuation :: 0 <= i < |xs| ==> Eval(xs[i], rho) == Eval(ys[i], rho)
  }

  lemma ProjectedWellFormed(r: Reduce, result: seq<Expr>, identity: seq<Expr>, used: seq<bool>)
    requires WellFormed(r) && |result| == |identity| == |used| == |r.combiner.result| && used[r.valueIndex]
    ensures WellFormed(Projected(r, result, identity, Kept(used, |used|), |Kept(used, r.valueIndex)|))
  {
    var ks := Kept(used, |used|);
    KeptPosition(used, |used|, r.valueIndex);
    var l, h := r.combiner.lhs, r.combiner.rhs;
    var names, news := l + h, Project(l, ks) + Project(h, ks);
    forall s, t | 0 <= s < t < |news| ensures news[s] != news[t] {
      var n, m := |l|, |ks|;
      var p := if s < m then ks[s] else n + ks[s - m];
      var q := if t < m then ks[t] else n + ks[t - m];
      assert news[s] == names[p] && news[t] == names[q];
      if t < m { KeptDistinct(used, |used|, s, t); }
      if s >= m { KeptDistinct(used, |used|, s - m, t - m); }
      assert p < q;
    }
  }

  lemma IndexOfName(names: seq<string>, i: nat)
    requires NoRepeats(names) && i < |names|
    ensures IndexOf(names, names[i]) == i
  {
    assert names[IndexOf(names, names[i])] == names[i];
  }

  lemma HalvesDistinct(l: seq<string>, h: seq<string>)
    requires NoRepeats(l + h)
    ensures NoRepeats(l) && NoRepeats(h) && forall i, j :: 0 <= i < |l| && 0 <= j < |h| ==> l[i] != h[j]
  {
    var names := l + h;
    forall i, j | 0 <= i < j < |l| ensures l[i] != l[j] { assert names[i] != names[j]; }
    forall i, j | 0 <= i < j < |h| ensures h[i] != h[j] { assert names[|l| + i] != names[|l| + j]; }
    forall i, j | 0 <= i < |l| && 0 <= j < |h| ensures l[i] != h[j] { assert names[i] != names[|l| + j]; }
  }

  /** A name of component i reads the component; any other name reads the outer valuation. */
  lemma OperandAt(c: CommReducer, acc: seq<int>, src: seq<int>, rho: Valuation, i: nat)
    requires |acc| == |c.lhs| == |src| == |c.rhs| && NoRepeats(c.lhs + c.rhs) && i < |c.lhs|
    ensures Operands(c, acc, src, rho)(c.lhs[i]) == acc[i]
    ensures Operands(c, acc, src, rho)(c.rhs[i]) == src[i]
  {
    HalvesDistinct(c.lhs, c.rhs);
    IndexOfName(c.lhs, i);
    IndexOfName(c.rhs, i);
    assert c.rhs[i] !in c.lhs;
  }

  /** On the names a kept component uses, the two operand valuations agree. */
  lemma OperandsAgree(r: Reduce, p: Reduce, result: seq<Expr>, used: seq<bool>, acc: seq<int>, src: seq<int>,
      rho: Valuation, j: nat)
    requires WellFormed(r) && |result| == |used| == |r.combiner.result| && Closed(r.combiner, result, used)
    requires WellFormed(p) && p.combiner.lhs == Project(r.combiner.lhs, Kept(used, |used|))
    requires p.combiner.rhs == Project(r.combiner.rhs, Kept(used, |used|))
    requires |acc| == |used| == |src| && j < |used| && used[j]
    ensures var ks := Kept(used, |used|);
      Agree(Vars(result[j]), Operands(p.combiner, Project(acc, ks), Project(src, ks), rho),
        Operands(r.combiner, acc, src, rho))
  {
    var ks, c, d := Kept(used, |used|), r.combiner, p.combiner;
    var small, full := Operands(d, Project(acc, ks), Project(src, ks), rho), Operands(c, acc, src, rho);
    assert ClosedAt(c, result, used, j);
    forall v | v in Vars(result[j]) ensures small(v) == full(v) {
      if v in c.lhs {
        var i := IndexOf(c.lhs, v);
        assert Depends(c, result, j, i);
        KeptPosition(used, |used|, i);
        OperandAt(c, acc, src, rho, i);
        OperandAt(d, Project(acc, ks), Project(src, ks), rho, |Kept(used, i)|);
      } else if v in c.rhs {
        var i := IndexOf(c.rhs, v);
        assert Depends(c, result, j, i);
        KeptPosition(used, |used|, i);
        OperandAt(c, acc, src, rho, i);
        OperandAt(d, Project(acc, ks), Project(src, ks), rho, |Kept(used, i)|);
      } else {
        assert v !in d.lhs by { forall t | 0 <= t < |ks| ensures d.lhs[t] != v {} }
        assert v !in d.rhs by { forall t | 0 <= t < |ks| ensures d.rhs[t] != v {} }
      }
    }
  }

  /** Folding the projected combiner is projecting the fold, over any points. */
  lemma {:induction false} FoldProjects(r: Reduce, result: seq<Expr>, identity: seq<Expr>, used: seq<bool>,
      points: seq<Valuation>, rho: Valuation)
    requires WellFormed(r) && |used| == |r.combiner.result| && used[r.valueIndex]
    requires SameValues(result, r.combiner.result) && SameValues(identity, r.combiner.identity)
    requires Closed(r.combiner, result, used)
    ensures var ks := Kept(used, |used|);
      var p := Projected(r, result, identity, ks, |Kept(used, r.valueIndex)|);
      WellFormed(p) && Fold(p, points, rho) == Project(Fold(r, points, rho), ks)
  {
    var ks := Kept(used, |used|);
    var p := Projected(r, result, identity, ks, |Kept(used, r.valueIndex)|);
    ProjectedWellFormed(r, result, identity, used);
    if points != [] {
      var k := |points| - 1;
      FoldProjects(r, result, identity, used, points[..k], rho);
      var acc, src := Fold(r, points[..k], rho), Values(r.source, points[k]);
      assert Values(p.source, points[k]) == Project(src, ks);
      forall t | 0 <= t < |ks| ensures Fold(p, points, rho)[t] == Fold(r, points, rho)[ks[t]] {
        OperandsAgree(r, p, result, used, acc, src, rho, ks[t]);
        EvalAgree(result[ks[t]], Operands(p.combiner, Project(acc, ks), Project(src, ks), rho),
          Operands(r.combiner, acc, src, rho));
        assert Eval(result[ks[t]], Operands(r.combiner, acc, src, rho)) ==
          Eval(r.combiner.result[ks[t]], Operands(r.combiner, acc, src, rho));
      }
    } else if r.init != [] {
      assert p.init == Project(r.init, ks);
      KeptPosition(used, |used|, r.valueIndex);
    }
  }

  /** The reduced value is unchanged, and the adjusted index selects the same component. */
  ghost predicate SameReduction(p: Reduce, r: Reduce)
    requires WellFormed(r)
  {
    WellFormed(p) && forall points: seq<Valuation>, rho: Valuation ::
      ReducedValue(p, points, rho) == ReducedValue(r, points, rho)
  }

  /** The marks include the effects and the value, and are closed under dependence. */
  ghost predicate Sufficient(r: Reduce, simplified: seq<Expr>, effects: seq<bool>, marks: seq<bool>)
    requires WellFormed(r) && |effects| == |simplified| == |r.combiner.result|
  {
    Includes(marks, effects) && marks[r.valueIndex] && Closed(r.combiner, simplified, marks)
  }

  /** MarkUsed from the value and from every component with an effect: the least sufficient marks. */
  method MarkAll(r: Reduce, simplified: seq<Expr>, effects: seq<bool>) returns (used: seq<bool>)
    requires WellFormed(r) && |effects| == |simplified| == |r.combiner.result|
    ensures Sufficient(r, simplified, effects, used)
    ensures forall big: seq<bool> :: Sufficient(r, simplified, effects, big) ==> Includes(big, used)
  {
    var marker := new Marker(r.combiner, simplified);
    marker.MarkUsed(r.valueIndex);
    for i := 0 to |simplified|
      invariant marker.Valid() && marker.used[r.valueIndex] && Closed(r.combiner, simplified, marker.used)
      invariant forall k :: 0 <= k < i && effects[k] ==> marker.used[k]
      invariant forall big: seq<bool> :: Sufficient(r, simplified, effects, big) ==> Includes(big, marker.used)
    {
      if effects[i] {
        ghost var before := marker.used;
        marker.MarkUsed(i);
        forall j | 0 <= j < |simplified| && marker.used[j] ensures ClosedAt(r.combiner, simplified, marker.used, j) {
          if before[j] { assert ClosedAt(r.combiner, simplified, before, j); }
        }
      }
    }
    used := marker.used;
  }

  /** The kept positions, and the position of the value among them. */
  method KeptIndices(used: seq<bool>, index: nat) returns (ks: seq<nat>, valueIndex: int)
    requires index < |used|
    ensures ks == Kept(used, |used|) && valueIndex == |Kept(used, index)|
  {
    ks, valueIndex := [], index;
    for i := 0 to |used|
      invariant ks == Kept(used, i)
      invariant valueIndex == index - (if i <= index then i - |ks| else index - |Kept(used, index)|)
    {
      if used[i] {
        ks := ks + [i];
      } else if i < index {
        valueIndex := valueIndex - 1;
      }
    }
  }

  method SimplifyReduceCombiner(r: Reduce, simplified: seq<Expr>, identity: seq<Expr>, effects: seq<bool>)
    returns (p: Reduce, ghost used: seq<bool>)
    requires WellFormed(r) && |effects| == |r.combiner.result|
    requires SameValues(simplified, r.combiner.result) && SameValues(identity, r.combiner.identity)
    ensures SameReduction(p, r)
    ensures |used| == |effects|
    ensures p == Projected(r, simplified, identity, Kept(used, |used|), |Kept(used, r.valueIndex)|)
    ensures Sufficient(r, simplified, effects, used)
    ensures forall big: seq<bool> :: Sufficient(r, simplified, effects, big) ==> Includes(big, used)
  {
    var marks := MarkAll(r, simplified, effects);
    used := marks;
    var ks, valueIndex := KeptIndices(marks, r.valueIndex);
    p := Projected(r, simplified, identity, ks, valueIndex);
    ProjectedWellFormed(r, simplified, identity, used);
    KeptPosition(used, |simplified|, r.valueIndex);
    forall points: seq<Valuation>, rho: Valuation ensures ReducedValue(p, points, rho) == ReducedValue(r, points, rho) {
      FoldProjects(r, simplified, identity, used, points, rho);
    }
  }
}
