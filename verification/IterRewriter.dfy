/**
 IterMapRewriter of src/arith/iter_affine_map.cc: rewriting an index expression
 into a sum of iterator splits, merging splits of one source and fusing a sum
 into one mark. First pass, constant factors, exact scale matching.
 */
module IterRewriter {
  import opened Options
  import opened IntOperator
  import opened DivModLaws
  import opened Radix
  import opened Exprs
  import opened IterMapExprs

  // ----- sums of the splits not yet visited -----

  function Pending(args: seq<IterSplit>, visited: seq<bool>, v: Valuation): int
    requires |visited| == |args|
  {
    if args == [] then 0 else
      var k := |args| - 1;
      Pending(args[..k], visited[..k], v) + if visited[k] then 0 else SplitValue(args[k], v)
  }

  lemma {:induction false} PendingMark(args: seq<IterSplit>, visited: seq<bool>, j: nat, v: Valuation)
    requires |visited| == |args| && j < |args| && !visited[j]
    ensures Pending(args, visited[j := true], v) == Pending(args, visited, v) - SplitValue(args[j], v)
  {
    var k := |args| - 1;
    if j == k {
      assert visited[j := true][..k] == visited[..k];
    } else {
      assert visited[j := true][..k] == visited[..k][j := true];
      PendingMark(args[..k], visited[..k], j, v);
    }
  }

  lemma {:induction false} PendingAll(args: seq<IterSplit>, visited: seq<bool>, v: Valuation)
    requires |visited| == |args|
    ensures (forall k :: 0 <= k < |args| ==> !visited[k]) ==> Pending(args, visited, v) == ListValue(args, v)
    ensures (forall k :: 0 <= k < |args| ==> visited[k]) ==> Pending(args, visited, v) == 0
  {
    if args != [] { PendingAll(args[..|args| - 1], visited[..|args| - 1], v); }
  }

  function Unvisited(visited: seq<bool>): nat {
    if visited == [] then 0 else Unvisited(visited[..|visited| - 1]) + if visited[|visited| - 1] then 0 else 1
  }

  lemma {:induction false} UnvisitedMark(visited: seq<bool>, j: nat)
    requires j < |visited| && !visited[j]
    ensures Unvisited(visited[j := true]) == Unvisited(visited) - 1
  {
    var k := |visited| - 1;
    if j == k {
      assert visited[j := true][..k] == visited[..k];
    } else {
      assert visited[j := true][..k] == visited[..k][j := true];
      UnvisitedMark(visited[..k], j);
    }
  }

  function Reversed<T>(s: seq<T>): (r: seq<T>)
    ensures |r| == |s| && forall k :: 0 <= k < |s| ==> r[k] == s[|s| - 1 - k]
  {
    seq(|s|, k requires 0 <= k < |s| => s[|s| - 1 - k])
  }

  lemma {:induction false} ReversedValue(ps: seq<IterSplit>, v: Valuation)
    ensures ListValue(Reversed(ps), v) == ListValue(ps, v)
  {
    if ps != [] {
      var k := |ps| - 1;
      ReversedValue(ps[..k], v);
      assert Reversed(ps) == [ps[k]] + Reversed(ps[..k]);
      ListAppend([ps[k]], Reversed(ps[..k]), v);
      SingleValue(ps[k], v);
    }
  }

  lemma SingleValue(p: IterSplit, v: Valuation)
    ensures ListValue([p], v) == SplitValue(p, v)
  {
    assert [p][..0] == [];
  }

  // ----- searching -----

  predicate Candidate(args: seq<IterSplit>, skip: seq<bool>, source: Option<IterMark>, i: nat)
    requires |skip| == |args| && i < |args|
  {
    !skip[i] && (source.Some? ==> args[i].mark == source.value)
  }

  /** The search of FindBaseIter from position i down, with the best candidate so far. */
  function BaseFrom(args: seq<IterSplit>, skip: seq<bool>, source: Option<IterMark>, i: int, best: int): (r: int)
    requires |skip| == |args| && -1 <= i < |args|
    requires (best == -1 || (0 <= best < |args| && Candidate(args, skip, source, best)))
    ensures r == -1 || (0 <= r < |args| && Candidate(args, skip, source, r))
    ensures r == -1 ==> best == -1 && forall k :: 0 <= k <= i ==> !Candidate(args, skip, source, k)
    decreases i + 1
  {
    if i < 0 then best
    else BaseFrom(args, skip, source, i - 1, if Candidate(args, skip, source, i) &&
      Better(args, i, best) then i else best)
  }

  /** A smaller scale, or the same scale and the first unit extent. */
  predicate Better(args: seq<IterSplit>, i: nat, best: int)
    requires i < |args| && -1 <= best < |args|
  {
    || best == -1 || args[i].scale < args[best].scale
    || (args[i].scale == args[best].scale && args[i].extent == 1 && args[best].extent != 1)
  }

  /** FindBaseIter for constant scales: the smallest scale, unit extents first on ties; -1 if there is no candidate. */
  method FindBaseIter(args: seq<IterSplit>, skip: seq<bool>, source: Option<IterMark>,
      rbegin: int) returns (baseIndex: int)
    requires |skip| == |args| && -1 <= rbegin < |args|
    ensures baseIndex == BaseFrom(args, skip, source, rbegin, -1)
    ensures baseIndex == -1 <==> forall i :: 0 <= i <= rbegin ==> !Candidate(args, skip, source, i)
    ensures baseIndex != -1 ==> 0 <= baseIndex <= rbegin && Candidate(args, skip, source, baseIndex)
    ensures baseIndex != -1 ==> forall i :: 0 <= i <= rbegin && Candidate(args, skip, source, i) ==>
      args[baseIndex].scale <= args[i].scale
  {
    baseIndex := -1;
    var minScale := 0;
    var i := rbegin;
    while i >= 0
      invariant -1 <= i <= rbegin
      invariant baseIndex == -1 ==> forall k :: i < k <= rbegin ==> !Candidate(args, skip, source, k)
      invariant baseIndex != -1 ==>
        i < baseIndex <= rbegin && Candidate(args, skip, source, baseIndex) && minScale == args[baseIndex].scale
      invariant -1 <= baseIndex < |args|
      invariant BaseFrom(args, skip, source, i, baseIndex) == BaseFrom(args, skip, source, rbegin, -1)
      invariant baseIndex != -1 ==> forall k :: i < k <= rbegin && Candidate(args, skip, source, k) ==>
        args[baseIndex].scale <= args[k].scale
    {
      if Candidate(args, skip, source, i) {
        if baseIndex == -1 || args[i].scale < minScale {
          minScale := args[i].scale;
          baseIndex := i;
        } else if args[i].scale == minScale && args[i].extent == 1 && args[baseIndex].extent != 1 {
          baseIndex := i;
        }
      }
      i := i - 1;
    }
  }

  /** The first unit extent from position k on, or the number of splits. */
  function FirstUnit(args: seq<IterSplit>, k: nat): nat
    requires k <= |args|
    decreases |args| - k
  {
    if k == |args| || args[k].extent == 1 then k else FirstUnit(args, k + 1)
  }

  method FindFirstPossibleUnitExtentIndex(args: seq<IterSplit>) returns (pos: nat)
    ensures pos == FirstUnit(args, 0)
    ensures pos <= |args| && (pos < |args| ==> args[pos].extent == 1)
    ensures forall i :: 0 <= i < pos ==> args[i].extent != 1
  {
    pos := 0;
    while pos < |args|
      invariant pos <= |args| && FirstUnit(args, pos) == FirstUnit(args, 0)
      invariant forall i :: 0 <= i < pos ==> args[i].extent != 1
    {
      if args[pos].extent == 1 { return; }
      pos := pos + 1;
    }
  }

  /** The search of FindIterWithExactScale from position j down. */
  function ExactFrom(args: seq<IterSplit>, skip: seq<bool>, expected: int, source: Option<IterMark>, j: int,
      firstUnit: nat, matched: int): (r: int)
    requires |skip| == |args| && -1 <= j < |args|
    requires (matched == -1 || (0 <= matched < |args| && !skip[matched] && args[matched].scale == expected))
    ensures r == -1 || (0 <= r < |args| && !skip[r] && args[r].scale == expected)
    decreases j + 1
  {
    if j < 0 then matched
    else if Candidate(args, skip, source, j) && args[j].scale == expected then
      var m := if matched == -1 then j else matched;
      if args[j].extent == 1 then j else if j <= firstUnit then m
        else ExactFrom(args, skip, expected, source, j - 1, firstUnit, m)
    else ExactFrom(args, skip, expected, source, j - 1, firstUnit, matched)
  }

  /** FindIterWithExactScale: a candidate of the expected scale, a unit extent if there is one; -1 if there is none. */
  method FindIterWithExactScale(args: seq<IterSplit>, skip: seq<bool>, expected: int, source: Option<IterMark>,
      rbegin: int, firstUnit: nat)
    returns (matched: int)
    requires |skip| == |args| && -1 <= rbegin < |args|
    requires forall i :: 0 <= i < firstUnit && i < |args| ==> args[i].extent != 1
    ensures matched == ExactFrom(args, skip, expected, source, rbegin, firstUnit, -1)
    ensures matched == -1 <==> forall j :: 0 <= j <= rbegin && Candidate(args, skip, source, j) ==>
      args[j].scale != expected
    ensures matched != -1 ==>
      0 <= matched <= rbegin && Candidate(args, skip, source, matched) && args[matched].scale == expected
    ensures matched != -1 && args[matched].extent != 1 ==>
      forall j :: 0 <= j <= rbegin && Candidate(args, skip, source, j) && args[j].scale == expected ==>
        args[j].extent != 1
  {
    matched := -1;
    var j := rbegin;
    while j >= 0
      invariant -1 <= j <= rbegin
      invariant matched == -1 <==> forall k :: j < k <= rbegin && Candidate(args, skip, source, k) ==>
        args[k].scale != expected
      invariant -1 <= matched < |args| && (matched != -1 ==> !skip[matched] && args[matched].scale == expected)
      invariant ExactFrom(args, skip, expected, source, j, firstUnit, matched) ==
        ExactFrom(args, skip, expected, source, rbegin, firstUnit, -1)
      invariant matched != -1 ==> j < matched <= rbegin && Candidate(args, skip, source, matched)
      invariant matched != -1 ==> args[matched].scale == expected && args[matched].extent != 1
      invariant forall k :: j < k <= rbegin && Candidate(args, skip, source, k) && args[k].scale == expected ==>
        args[k].extent != 1
    {
      if Candidate(args, skip, source, j) && args[j].scale == expected {
        if args[j].extent == 1 { return j; }
        if matched == -1 { matched := j; }
        if j <= firstUnit { return; }
      }
      j := j - 1;
    }
  }

  // ----- merging splits of one source -----

  /** ((x // (c*s)) % m) * s + (x // c) % s == (x // c) % (m*s). */
  lemma MergeValue(lhs: IterSplit, rhs: IterSplit, iters: Iters, v: Valuation)
    requires GoodSplit(lhs, iters) && GoodSplit(rhs, iters) && lhs.mark == rhs.mark
    requires lhs.scale == rhs.extent * rhs.scale && lhs.lower == rhs.lower * rhs.extent
    ensures var m := rhs.(extent := lhs.extent * rhs.extent);
      GoodSplit(m, iters) && SplitValue(m, v) == SplitValue(lhs, v) + SplitValue(rhs, v)
  {
    var x, c, s, m, t := MarkValue(rhs.mark, v), rhs.lower, rhs.extent, lhs.extent, rhs.scale;
    DivDiv(x, c, s);
    ModSplit(x / c, m, s);
    var hi, lo := ((x / c) / s) % m, (x / c) % s;
    assert SplitValue(lhs, v) == hi * (s * t);
    assert SplitValue(rhs, v) == lo * t;
    assert hi * (s * t) + lo * t == (hi * s + lo) * t;
  }

  /** What remains plus what has been collected is the original sum. */
  ghost predicate Balanced(args: seq<IterSplit>, visited: seq<bool>, collected: seq<IterSplit>, iters: Iters)
    requires |visited| == |args|
  {
    && GoodList(collected, iters)
    && forall v: Valuation :: InIters(iters, v) ==>
      Pending(args, visited, v) + ListValue(collected, v) == ListValue(args, v)
  }

  lemma BalancedMove(args: seq<IterSplit>, visited: seq<bool>, collected: seq<IterSplit>, j: nat, iters: Iters)
    requires GoodList(args, iters) && |visited| == |args| && j < |args| && !visited[j]
    requires Balanced(args, visited, collected, iters)
    ensures Balanced(args, visited[j := true], collected + [args[j]], iters)
  {
    forall v: Valuation | InIters(iters, v)
      ensures Pending(args, visited[j := true], v) + ListValue(collected + [args[j]], v) == ListValue(args, v)
    {
      PendingMark(args, visited, j, v);
      ListAppend(collected, [args[j]], v);
      SingleValue(args[j], v);
    }
  }

  lemma BalancedMerge(args: seq<IterSplit>, visited: seq<bool>, done: seq<IterSplit>, rhs: IterSplit, j: nat,
      iters: Iters)
    requires GoodList(args, iters) && |visited| == |args| && j < |args| && !visited[j]
    requires Balanced(args, visited, done + [rhs], iters) && GoodSplit(rhs, iters)
    requires args[j].mark == rhs.mark && args[j].scale == rhs.extent * rhs.scale
    requires args[j].lower == rhs.lower * rhs.extent
    ensures Balanced(args, visited[j := true], done + [rhs.(extent := args[j].extent * rhs.extent)], iters)
    ensures GoodSplit(rhs.(extent := args[j].extent * rhs.extent), iters)
  {
    var m := rhs.(extent := args[j].extent * rhs.extent);
    assert GoodSplit(args[j], iters);
    MergeGood(args[j], rhs, iters);
    forall k | 0 <= k < |done| ensures GoodSplit(done[k], iters) { assert (done + [rhs])[k] == done[k]; }
    forall v: Valuation | InIters(iters, v)
      ensures Pending(args, visited[j := true], v) + ListValue(done + [m], v) == ListValue(args, v)
    {
      PendingMark(args, visited, j, v);
      MergeValue(args[j], rhs, iters, v);
      ListAppend(done, [rhs], v);
      ListAppend(done, [m], v);
      SingleValue(rhs, v);
      SingleValue(m, v);
    }
  }

  lemma MergeGood(lhs: IterSplit, rhs: IterSplit, iters: Iters)
    requires GoodSplit(lhs, iters) && GoodSplit(rhs, iters)
    ensures GoodSplit(rhs.(extent := lhs.extent * rhs.extent), iters)
  {
    assert lhs.extent * rhs.extent > 0;
  }

  /** Absorb into rhs every split that continues it. */
  function Absorb(args: seq<IterSplit>, visited: seq<bool>, rhs: IterSplit, rend: nat,
      firstUnit: nat): (r: (IterSplit, seq<bool>))
    requires |visited| == |args| && rend < |args|
    ensures |r.1| == |args| && Unvisited(r.1) <= Unvisited(visited)
    decreases Unvisited(visited)
  {
    var matched := ExactFrom(args, visited, rhs.extent * rhs.scale, Some(rhs.mark), rend, firstUnit, -1);
    if matched == -1 || args[matched].lower != rhs.lower * rhs.extent then (rhs, visited)
    else
      UnvisitedMark(visited, matched);
      Absorb(args, visited[matched := true], rhs.(extent := args[matched].extent * rhs.extent), rend, firstUnit)
  }

  /**
   The loop of TryCombineSplitFromSameSource (iter_affine_map.cc:1055-1074): absorb into `rhs0` every split that
   continues it.
   */
  method CombineFrom(args: seq<IterSplit>, visited0: seq<bool>, rhs0: IterSplit, rend: nat, firstUnit: nat,
      ghost done: seq<IterSplit>, ghost iters: Iters)
    returns (rhs: IterSplit, visited: seq<bool>)
    requires |visited0| == |args| && rend < |args|
    requires forall i :: 0 <= i < firstUnit && i < |args| ==> args[i].extent != 1
    ensures |visited| == |args| && Unvisited(visited) <= Unvisited(visited0)
    ensures (rhs, visited) == Absorb(args, visited0, rhs0, rend, firstUnit)
    ensures forall k :: 0 <= k < |args| && visited0[k] ==> visited[k]
    ensures GoodList(args, iters) && GoodSplit(rhs0, iters) && Balanced(args, visited0, done + [rhs0], iters) ==>
      GoodSplit(rhs, iters) && Balanced(args, visited, done + [rhs], iters)
  {
    rhs, visited := rhs0, visited0;
    while true
      invariant |visited| == |args| && Unvisited(visited) <= Unvisited(visited0)
      invariant Absorb(args, visited, rhs, rend, firstUnit) == Absorb(args, visited0, rhs0, rend, firstUnit)
      invariant forall k :: 0 <= k < |args| && visited0[k] ==> visited[k]
      invariant GoodList(args, iters) && GoodSplit(rhs0, iters) && Balanced(args, visited0, done + [rhs0], iters) ==>
        GoodSplit(rhs, iters) && Balanced(args, visited, done + [rhs], iters)
      decreases Unvisited(visited)
    {
      var lhsScale := rhs.extent * rhs.scale;
      var matched := FindIterWithExactScale(args, visited, lhsScale, Some(rhs.mark), rend, firstUnit);
      if matched == -1 { break; }
      var lhs := args[matched];
      var lhsLower := rhs.lower * rhs.extent;
      if lhs.lower != lhsLower { break; }
      UnvisitedMark(visited, matched);
      if GoodList(args, iters) && GoodSplit(rhs0, iters) && Balanced(args, visited0, done + [rhs0], iters) {
        BalancedMerge(args, visited, done, rhs, matched, iters);
      }
      visited := visited[matched := true];
      rhs := rhs.(extent := lhs.extent * rhs.extent);
    }
  }

  ghost predicate Keeps(r: seq<IterSplit>, args: seq<IterSplit>, iters: Iters) {
    GoodList(r, iters) && forall v: Valuation :: InIters(iters, v) ==> ListValue(r, v) == ListValue(args, v)
  }

  lemma BalancedEnd(args: seq<IterSplit>, visited: seq<bool>, collected: seq<IterSplit>, iters: Iters)
    requires |visited| == |args| && Balanced(args, visited, collected, iters)
    requires forall k :: 0 <= k < |args| ==> visited[k]
    ensures Keeps(collected, args, iters) && Keeps(Reversed(collected), args, iters)
  {
    forall v: Valuation | InIters(iters, v)
      ensures ListValue(collected, v) == ListValue(args, v) && ListValue(Reversed(collected), v) == ListValue(args, v)
    {
      PendingAll(args, visited, v);
      ReversedValue(collected, v);
    }
  }

  lemma BalancedStart(args: seq<IterSplit>, iters: Iters)
    ensures Balanced(args, NoneYet(|args|), [], iters)
  {
    forall v: Valuation | InIters(iters, v)
      ensures Pending(args, NoneYet(|args|), v) + ListValue([], v) == ListValue(args, v)
    {
      PendingAll(args, NoneYet(|args|), v);
    }
  }

  /** Two splits of one source. */
  predicate SharedSource(args: seq<IterSplit>) {
    exists i, j :: 0 <= i < j < |args| && args[i].mark == args[j].mark
  }

  /** How many splits have the source. */
  function CountOf(args: seq<IterSplit>, m: IterMark): nat {
    if args == [] then 0 else CountOf(args[..|args| - 1], m) + if args[|args| - 1].mark == m then 1 else 0
  }

  predicate HasSource(args: seq<IterSplit>, m: IterMark) {
    exists k :: 0 <= k < |args| && args[k].mark == m
  }

  lemma {:induction false} CountNone(args: seq<IterSplit>, m: IterMark)
    requires !HasSource(args, m)
    ensures CountOf(args, m) == 0
  {
    if args != [] {
      var k := |args| - 1;
      assert args[k].mark != m;
      forall i | 0 <= i < k ensures args[..k][i].mark != m { assert args[i].mark != m; }
      CountNone(args[..k], m);
    }
  }

  lemma SourceSnoc(args: seq<IterSplit>, p: IterSplit, m: IterMark)
    ensures HasSource(args + [p], m) <==> HasSource(args, m) || p.mark == m
  {
    var all := args + [p];
    assert all[|args|] == p;
    if HasSource(args, m) {
      var k :| 0 <= k < |args| && args[k].mark == m;
      assert all[k].mark == m;
    }
  }

  lemma SharedSnoc(args: seq<IterSplit>, p: IterSplit)
    ensures SharedSource(args + [p]) <==> SharedSource(args) || HasSource(args, p.mark)
  {
    var all := args + [p];
    assert all[|args|] == p;
    if SharedSource(args) {
      var i, j :| 0 <= i < j < |args| && args[i].mark == args[j].mark;
      assert all[i].mark == all[j].mark;
    }
    if HasSource(args, p.mark) {
      var i :| 0 <= i < |args| && args[i].mark == p.mark;
      assert all[i].mark == all[|args|].mark;
    }
    if SharedSource(all) {
      var i, j :| 0 <= i < j < |all| && all[i].mark == all[j].mark;
      assert args[i].mark == all[i].mark;
      if j < |args| { assert args[j].mark == all[j].mark; }
    }
  }

  /** The map counts exactly the sources of the list. */
  ghost predicate Counted(args: seq<IterSplit>, hits: map<IterMark, int>) {
    && (forall m :: m in hits <==> HasSource(args, m))
    && (forall m :: m in hits ==> hits[m] == CountOf(args, m))
  }

  lemma CountedSnoc(args: seq<IterSplit>, p: IterSplit, hits: map<IterMark, int>)
    requires Counted(args, hits)
    ensures Counted(args + [p], hits[p.mark := if p.mark in hits then hits[p.mark] + 1 else 1])
  {
    assert (args + [p])[..|args|] == args;
    if p.mark !in hits { CountNone(args, p.mark); }
    forall m ensures HasSource(args + [p], m) <==> HasSource(args, m) || p.mark == m { SourceSnoc(args, p, m); }
  }

  /** How often each source occurs (iter_affine_map.cc:998-1013). */
  method CountSources(args: seq<IterSplit>) returns (hits: map<IterMark, int>, overlap: bool)
    ensures Counted(args, hits) && (overlap <==> SharedSource(args))
  {
    hits, overlap := map[], false;
    for i := 0 to |args|
      invariant Counted(args[..i], hits) && (overlap <==> SharedSource(args[..i]))
    {
      assert args[..i + 1] == args[..i] + [args[i]];
      CountedSnoc(args[..i], args[i], hits);
      SharedSnoc(args[..i], args[i]);
      var m := args[i].mark;
      if m in hits { overlap := true; }
      hits := hits[m := if m in hits then hits[m] + 1 else 1];
    }
    assert args[..|args|] == args;
  }

  /** The splits from position rend down, combined; innermost first. */
  function CombineLoop(args: seq<IterSplit>, visited: seq<bool>, reversed: seq<IterSplit>, rend: int,
      firstUnit: nat): seq<IterSplit>
    requires |visited| == |args| && -1 <= rend < |args|
    decreases Unvisited(visited) + rend + 1
  {
    if rend < 0 then reversed
    else if visited[rend] then CombineLoop(args, visited, reversed, rend - 1, firstUnit)
    else if CountOf(args, args[rend].mark) == 1 then
      UnvisitedMark(visited, rend);
      CombineLoop(args, visited[rend := true], reversed + [args[rend]], rend - 1, firstUnit)
    else
      assert Candidate(args, visited, Some(args[rend].mark), rend);
      var matched := BaseFrom(args, visited, Some(args[rend].mark), rend, -1);
      UnvisitedMark(visited, matched);
      var (rhs, after) := Absorb(args, visited[matched := true], args[matched], rend, firstUnit);
      CombineLoop(args, after, reversed + [rhs], rend, firstUnit)
  }

  function NoneYet(n: nat): (r: seq<bool>)
    ensures |r| == n && forall k :: 0 <= k < n ==> !r[k]
  {
    seq(n, k => false)
  }

  /** TryCombineSplitFromSameSource. */
  function Combined(expr: IterSum): Option<IterSum> {
    if |expr.args| <= 1 || !SharedSource(expr.args) then None
    else Some(IterSum(Reversed(CombineLoop(expr.args, NoneYet(|expr.args|), [], |expr.args| - 1,
      FirstUnit(expr.args, 0))), expr.base))
  }

  /** The innermost remaining split of a source, and all that continue it. */
  method CombineNext(args: seq<IterSplit>, visited0: seq<bool>, rend: nat, firstUnit: nat,
      ghost reversed: seq<IterSplit>, ghost iters: Iters) returns (rhs: IterSplit, visited: seq<bool>)
    requires |visited0| == |args| && rend < |args| && !visited0[rend] && CountOf(args, args[rend].mark) != 1
    requires forall i :: 0 <= i < firstUnit && i < |args| ==> args[i].extent != 1
    ensures |visited| == |args| && Unvisited(visited) < Unvisited(visited0)
    ensures forall k :: 0 <= k < |args| && visited0[k] ==> visited[k]
    ensures CombineLoop(args, visited0, reversed, rend, firstUnit) ==
      CombineLoop(args, visited, reversed + [rhs], rend, firstUnit)
    ensures GoodList(args, iters) && Balanced(args, visited0, reversed, iters) ==>
      Balanced(args, visited, reversed + [rhs], iters)
  {
    assert Candidate(args, visited0, Some(args[rend].mark), rend);
    var matched := FindBaseIter(args, visited0, Some(args[rend].mark), rend);
    if GoodList(args, iters) && Balanced(args, visited0, reversed, iters) {
      BalancedMove(args, visited0, reversed, matched, iters);
    }
    UnvisitedMark(visited0, matched);
    rhs, visited := CombineFrom(args, visited0[matched := true], args[matched], rend, firstUnit, reversed, iters);
  }

  /** A split that is alone with its source. */
  lemma SingleNext(args: seq<IterSplit>, visited: seq<bool>, rend: nat, firstUnit: nat, reversed: seq<IterSplit>,
      iters: Iters)
    requires |visited| == |args| && rend < |args| && !visited[rend] && CountOf(args, args[rend].mark) == 1
    ensures Unvisited(visited[rend := true]) < Unvisited(visited)
    ensures CombineLoop(args, visited, reversed, rend, firstUnit) ==
      CombineLoop(args, visited[rend := true], reversed + [args[rend]], rend - 1, firstUnit)
    ensures GoodList(args, iters) && Balanced(args, visited, reversed, iters) ==>
      Balanced(args, visited[rend := true], reversed + [args[rend]], iters)
  {
    if GoodList(args, iters) && Balanced(args, visited, reversed, iters) {
      BalancedMove(args, visited, reversed, rend, iters);
    }
    UnvisitedMark(visited, rend);
  }

  /** The elimination loop. */
  method CombineAll(args: seq<IterSplit>, hits: map<IterMark, int>, firstUnit: nat, ghost iters: Iters)
    returns (reversed: seq<IterSplit>)
    requires args != [] && (forall i :: 0 <= i < firstUnit && i < |args| ==> args[i].extent != 1)
    requires forall k :: 0 <= k < |args| ==> args[k].mark in hits && hits[args[k].mark] == CountOf(args, args[k].mark)
    ensures reversed != [] && reversed == CombineLoop(args, NoneYet(|args|), [], |args| - 1, firstUnit)
    ensures GoodList(args, iters) ==> Keeps(Reversed(reversed), args, iters)
  {
    var visited := NoneYet(|args|);
    reversed := [];
    BalancedStart(args, iters);
    var rend := |args| - 1;
    while rend >= 0
      invariant -1 <= rend < |args| && |visited| == |args|
      invariant CombineLoop(args, visited, reversed, rend, firstUnit) ==
        CombineLoop(args, NoneYet(|args|), [], |args| - 1, firstUnit)
      invariant forall k :: rend < k < |args| ==> visited[k]
      invariant reversed == [] ==> forall k :: 0 <= k < |args| ==> !visited[k]
      invariant GoodList(args, iters) ==> Balanced(args, visited, reversed, iters)
      decreases Unvisited(visited) + rend
    {
      if visited[rend] {
        rend := rend - 1;
      } else if hits[args[rend].mark] == 1 {
        SingleNext(args, visited, rend, firstUnit, reversed, iters);
        reversed := reversed + [args[rend]];
        visited := visited[rend := true];
        rend := rend - 1;
      } else {
        var rhs;
        rhs, visited := CombineNext(args, visited, rend, firstUnit, reversed, iters);
        reversed := reversed + [rhs];
      }
    }
    assert visited[0];
    if GoodList(args, iters) { BalancedEnd(args, visited, reversed, iters); }
  }

  method TryCombineSplitFromSameSource(expr: IterSum, ghost iters: Iters) returns (r: Option<IterSum>)
    ensures r == Combined(expr) && (r.Some? <==> SharedSource(expr.args))
    ensures r.Some? ==> r.value.base == expr.base && r.value.args != []
    ensures r.Some? && GoodSum(expr, iters) ==> Keeps(r.value.args, expr.args, iters)
  {
    var args := expr.args;
    if |args| <= 1 { return None; }
    var hits, overlap := CountSources(args);
    if !overlap { return None; }
    forall k | 0 <= k < |args| ensures args[k].mark in hits { assert HasSource(args, args[k].mark); }
    var firstUnit := FindFirstPossibleUnitExtentIndex(args);
    var reversed := CombineAll(args, hits, firstUnit, iters);
    r := Some(IterSum(Reversed(reversed), expr.base));
    assert |r.value.args| == |reversed|;
  }

  // ----- fusing a sum into one mark -----

  function Product(ps: seq<IterSplit>): int {
    if ps == [] then 1 else Product(ps[..|ps| - 1]) * ps[|ps| - 1].extent
  }

  /** Innermost first, each scale is the product of the inner extents. */
  ghost predicate Flat(ps: seq<IterSplit>) {
    forall t :: 0 <= t < |ps| ==> ps[t].scale == Product(ps[..t])
  }

  /** The same splits, with scales `base` times larger. */
  ghost predicate ScaledBy(picked: seq<IterSplit>, flat: seq<IterSplit>, base: int) {
    && |picked| == |flat|
    && forall t :: 0 <= t < |flat| ==> picked[t] == flat[t].(scale := base * flat[t].scale)
  }

  lemma {:induction false} FlatBound(ps: seq<IterSplit>, iters: Iters, v: Valuation)
    requires GoodList(ps, iters) && Flat(ps) && InIters(iters, v)
    ensures 0 <= ListValue(ps, v) < Product(ps)
  {
    if ps != [] {
      var k := |ps| - 1;
      assert forall t :: 0 <= t < k ==> ps[..k][..t] == ps[..t];
      FlatBound(ps[..k], iters, v);
      assert GoodSplit(ps[k], iters);
      var d := Digit(MarkValue(ps[k].mark, v), ps[k].Slot());
      FlatStep(ListValue(ps[..k], v), Product(ps[..k]), d, ps[k].extent);
    }
  }

  lemma FlatStep(low: int, top: int, d: int, e: int)
    requires 0 <= low < top && 0 <= d < e
    ensures 0 <= low + d * top < top * e
  {
    assert d * top <= (e - 1) * top;
    assert (e - 1) * top == top * e - top;
    assert d * top >= 0;
  }

  lemma {:induction false} ScaledByValue(picked: seq<IterSplit>, flat: seq<IterSplit>, base: int, v: Valuation)
    requires ScaledBy(picked, flat, base)
    ensures ListValue(picked, v) == base * ListValue(flat, v)
  {
    if flat != [] {
      var k := |flat| - 1;
      ScaledByValue(picked[..k], flat[..k], base, v);
      assert picked[k].Slot() == flat[k].Slot();
      ScaledSplit(flat[k], base, v);
    }
  }

  lemma ScaledSplit(p: IterSplit, c: int, v: Valuation)
    ensures SplitValue(p.(scale := c * p.scale), v) == c * SplitValue(p, v)
    ensures SplitValue(p.(scale := p.scale * c), v) == SplitValue(p, v) * c
  {
    assert p.(scale := c * p.scale).Slot() == p.Slot() && p.(scale := p.scale * c).Slot() == p.Slot();
    if Positive(p.Slot()) {
      var d := Digit(MarkValue(p.mark, v), p.Slot());
      assert d * (c * p.scale) == c * (d * p.scale);
      assert d * (p.scale * c) == (d * p.scale) * c;
    }
  }

  lemma {:induction false} ProductCons(p: IterSplit, ps: seq<IterSplit>)
    ensures Product([p] + ps) == p.extent * Product(ps)
  {
    if ps == [] {
      assert [p] + ps == [p] && [p][..0] == [];
    } else {
      var k := |ps| - 1;
      ProductCons(p, ps[..k]);
      assert ([p] + ps)[..k + 1] == [p] + ps[..k];
      assert (p.extent * Product(ps[..k])) * ps[k].extent == p.extent * (Product(ps[..k]) * ps[k].extent);
    }
  }

  lemma {:induction false} ProductReversed(ps: seq<IterSplit>)
    ensures Product(Reversed(ps)) == Product(ps)
  {
    if ps != [] {
      var k := |ps| - 1;
      ProductReversed(ps[..k]);
      assert Reversed(ps) == [ps[k]] + Reversed(ps[..k]);
      ProductCons(ps[k], Reversed(ps[..k]));
    }
  }

  /** The mark of a flattened sum: its values are below the product of the extents. */
  function FusedMark(flat: IterSum): IterMark {
    IterMark(SumSource(flat), Product(flat.args))
  }

  lemma FusedMarkGood(flat: seq<IterSplit>, iters: Iters)
    requires GoodList(flat, iters) && Flat(flat) && Product(flat) > 0
    ensures GoodMark(FusedMark(IterSum(Reversed(flat), 0)), iters)
    ensures forall v: Valuation :: InIters(iters, v) ==>
      MarkValue(FusedMark(IterSum(Reversed(flat), 0)), v) == ListValue(flat, v)
  {
    var f := IterSum(Reversed(flat), 0);
    ProductReversed(flat);
    assert GoodSum(f, iters);
    forall v: Valuation | InIters(iters, v)
      ensures 0 <= MarkValue(FusedMark(f), v) < Product(flat) && MarkValue(FusedMark(f), v) == ListValue(flat, v)
    {
      FlatBound(flat, iters, v);
      SumIsList(f, v);
      ReversedValue(flat, v);
    }
  }

  lemma {:induction false} ProductPositive(ps: seq<IterSplit>, iters: Iters)
    requires GoodList(ps, iters)
    ensures Product(ps) > 0
  {
    if ps != [] {
      ProductPositive(ps[..|ps| - 1], iters);
      assert GoodSplit(ps[|ps| - 1], iters);
      assert Product(ps[..|ps| - 1]) * ps[|ps| - 1].extent > 0;
    }
  }

  /** One mark scaled by `base` stands for the whole sum. */
  lemma FusedValue(args: seq<IterSplit>, picked: seq<IterSplit>, flat: seq<IterSplit>, base: int, iters: Iters)
    requires Keeps(picked, args, iters) && ScaledBy(picked, flat, base) && Flat(flat)
    ensures GoodMark(FusedMark(IterSum(Reversed(flat), 0)), iters)
    ensures Keeps([WholeMark(FusedMark(IterSum(Reversed(flat), 0)), base)], args, iters)
  {
    forall t | 0 <= t < |flat| ensures GoodSplit(flat[t], iters) { assert GoodSplit(picked[t], iters); }
    ProductPositive(flat, iters);
    FusedMarkGood(flat, iters);
    var mark := FusedMark(IterSum(Reversed(flat), 0));
    forall v: Valuation | InIters(iters, v) ensures ListValue([WholeMark(mark, base)], v) == ListValue(args, v) {
      ScaledByValue(picked, flat, base, v);
      MarkAlone(mark, base, ListValue(flat, v), iters, v);
    }
    WholeMarkGood(mark, base, iters);
  }

  lemma MarkAlone(mark: IterMark, base: int, x: int, iters: Iters, v: Valuation)
    requires GoodMark(mark, iters) && InIters(iters, v) && MarkValue(mark, v) == x
    ensures ListValue([WholeMark(mark, base)], v) == base * x
  {
    WholeMarkValue(mark, base, iters, v);
    SingleValue(WholeMark(mark, base), v);
  }

  lemma WholeMarkGood(mark: IterMark, base: int, iters: Iters)
    requires GoodMark(mark, iters)
    ensures GoodList([WholeMark(mark, base)], iters)
  {
  }

  lemma FlatExtend(flat: seq<IterSplit>, p: IterSplit)
    requires Flat(flat) && p.scale == Product(flat)
    ensures Flat(flat + [p]) && Product(flat + [p]) == Product(flat) * p.extent
  {
    var r := flat + [p];
    assert r[..|flat|] == flat;
    assert forall t :: 0 <= t < |flat| ==> r[..t] == flat[..t];
  }

  lemma AllVisited(visited: seq<bool>)
    requires Unvisited(visited) == 0
    ensures forall k :: 0 <= k < |visited| ==> visited[k]
  {
    if j: nat :| j < |visited| && !visited[j] { UnvisitedMark(visited, j); }
  }

  lemma {:induction false} NoneVisited(n: nat)
    ensures Unvisited(NoneYet(n)) == n
  {
    if n > 0 {
      assert NoneYet(n)[..n - 1] == NoneYet(n - 1);
      NoneVisited(n - 1);
    }
  }

  /** Exact division of a scale by the base scale. */
  lemma ExactScale(base: int, q: int)
    requires base != 0
    ensures IntOperator.FloorDiv(base * q, base) == q && TruncDiv(base * q, base) == q
  {
    DividesIntro(base, base * q, q);
    ExactDivision(base * q, base);
    Cancel(q, Quotient(base * q, base), base);
  }
}
