/**
 The coverage check of src/arith/iter_affine_map.cc (SearchSkipLowerFactor and
 TryNormalizeSplits, constant factors, no padding): accepting the splits of a
 mark makes the map from the mark's value to the splits' values bijective, or
 surjective when lower factors may be skipped.
 */
module IterSplits {
  import opened IntOperator
  import opened Radix

  datatype Level = Bijective | Surjective | NoCheck

  // ----- what acceptance means -----

  ghost predicate AllPositive(splits: seq<Slot>) {
    forall k :: 0 <= k < |splits| ==> Positive(splits[k])
  }

  /** Different source values have different split values. */
  ghost predicate Injective(splits: seq<Slot>, extent: int)
    requires AllPositive(splits)
  {
    forall x, y :: 0 <= x < extent && 0 <= y < extent && Digits(x, splits) == Digits(y, splits) ==> x == y
  }

  /** Every combination of split values is reached. */
  ghost predicate Onto(splits: seq<Slot>, extent: int)
    requires AllPositive(splits)
  {
    forall ds :: InBox(ds, splits) ==> exists x :: 0 <= x < extent && Digits(x, splits) == ds
  }

  // ----- arrangements -----

  /** `order` lists each index below `n` once. */
  ghost predicate Arrangement(order: seq<nat>, n: nat) {
    && |order| == n
    && (forall k :: 0 <= k < n ==> order[k] < n)
    && forall j, k :: 0 <= j < k < n ==> order[j] != order[k]
  }

  function Arranged(splits: seq<Slot>, order: seq<nat>): (r: seq<Slot>)
    requires forall k :: 0 <= k < |order| ==> order[k] < |splits|
    ensures |r| == |order| && forall k :: 0 <= k < |order| ==> r[k] == splits[order[k]]
  {
    seq(|order|, k requires 0 <= k < |order| => splits[order[k]])
  }

  ghost function Below(n: nat): (r: set<nat>)
    ensures |r| == n && forall k: nat :: k in r <==> k < n
  {
    if n == 0 then {} else Below(n - 1) + {n - 1}
  }

  ghost function Image(order: seq<nat>): (r: set<nat>)
    ensures forall v :: v in r <==> v in order
  {
    set v | v in order
  }

  lemma {:induction false} ImageSize(order: seq<nat>)
    requires forall j, k :: 0 <= j < k < |order| ==> order[j] != order[k]
    ensures |Image(order)| == |order|
  {
    if order != [] {
      var k := |order| - 1;
      ImageSize(order[..k]);
      assert order == order[..k] + [order[k]];
      assert Image(order) == Image(order[..k]) + {order[k]};
    }
  }

  /** An arrangement reaches every index. */
  lemma ArrangementOnto(order: seq<nat>, n: nat, j: nat)
    requires Arrangement(order, n) && j < n
    ensures exists k :: 0 <= k < n && order[k] == j
  {
    ImageSize(order);
    var rest := Below(n) - Image(order);
    assert Below(n) * Image(order) == Image(order);
    assert |rest| == 0;
    assert rest == {};
    assert j in Below(n) && j !in rest;
  }

  /** A chain within the extent is onto, however the splits were listed. */
  lemma ChainedOnto(splits: seq<Slot>, order: seq<nat>, extent: int)
    requires AllPositive(splits) && Arrangement(order, |splits|)
    requires Chained(Arranged(splits, order)) && Top(Arranged(splits, order)) <= extent
    ensures Onto(splits, extent)
  {
    var chain := Arranged(splits, order);
    forall ds | InBox(ds, splits)
      ensures exists x :: 0 <= x < extent && Digits(x, splits) == ds
    {
      var es := seq(|order|, k requires 0 <= k < |order| => ds[order[k]]);
      var x := Compose(es, chain);
      ComposeBound(es, chain);
      DigitsOfCompose(es, chain);
      forall j | 0 <= j < |splits| ensures Digits(x, splits)[j] == ds[j] {
        ArrangementOnto(order, |splits|, j);
        var k :| 0 <= k < |splits| && order[k] == j;
        assert Digits(x, chain)[k] == es[k];
      }
      assert Digits(x, splits) == ds;
    }
  }

  /** A gap-free chain up to the extent is one-to-one, however the splits were listed. */
  lemma ContiguousInjective(splits: seq<Slot>, order: seq<nat>, extent: int)
    requires AllPositive(splits) && Arrangement(order, |splits|)
    requires Contiguous(Arranged(splits, order)) && Top(Arranged(splits, order)) == extent
    ensures Injective(splits, extent)
  {
    var chain := Arranged(splits, order);
    forall x, y | 0 <= x < extent && 0 <= y < extent && Digits(x, splits) == Digits(y, splits)
      ensures x == y
    {
      forall k | 0 <= k < |chain| ensures Digits(x, chain)[k] == Digits(y, chain)[k] {
        assert Digits(x, splits)[order[k]] == Digits(y, splits)[order[k]];
      }
      assert Digits(x, chain) == Digits(y, chain);
      ComposeOfDigits(x, chain);
      ComposeOfDigits(y, chain);
    }
  }

  // ----- the algorithm -----

  ghost predicate Comparable(splits: seq<Slot>, used: seq<bool>)
    requires |used| == |splits|
  {
    forall i, j :: 0 <= i < |splits| && 0 <= j < |splits| && !used[i] && !used[j] ==>
      Divides(splits[i].lower, splits[j].lower) || Divides(splits[j].lower, splits[i].lower)
  }

  /** The unused split with the smallest lower factor, if all unused ones are multiples of the expected one. */
  method SearchSkipLowerFactor(splits: seq<Slot>, used: seq<bool>, expected: int) returns (res: nat)
    requires |used| == |splits| && AllPositive(splits) && expected > 0
    ensures res <= |splits|
    ensures res < |splits| ==> !used[res] && forall i :: 0 <= i < |splits| && !used[i] ==>
      Divides(expected, splits[i].lower)
    ensures res < |splits| && Comparable(splits, used) ==> forall i :: 0 <= i < |splits| && !used[i] ==>
      Divides(splits[res].lower, splits[i].lower)
    ensures res == |splits| <==> (forall i :: 0 <= i < |splits| ==> used[i]) || exists i ::
      0 <= i < |splits| && !used[i] && !Divides(expected, splits[i].lower)
  {
    res := |splits|;
    for i := 0 to |splits|
      invariant res == |splits| || (0 <= res < i && !used[res])
      invariant res == |splits| <==> forall k :: 0 <= k < i ==> used[k]
      invariant forall k :: 0 <= k < i && !used[k] ==> Divides(expected, splits[k].lower)
      invariant res < |splits| && Comparable(splits, used) ==> forall k :: 0 <= k < i && !used[k] ==>
        Divides(splits[res].lower, splits[k].lower)
    {
      if used[i] { continue; }
      TruncModZero(splits[i].lower, expected);
      if !CanProveDivisible(splits[i].lower, expected) {
        return |splits|;
      }
      if res < |splits| { TruncModZero(splits[res].lower, splits[i].lower); }
      if res == |splits| || CanProveDivisible(splits[res].lower, splits[i].lower) {
        ghost var before := res;
        res := i;
        DividesIntro(splits[i].lower, splits[i].lower, 1);
        if Comparable(splits, used) && before < |splits| {
          forall k | 0 <= k < i && !used[k] ensures Divides(splits[i].lower, splits[k].lower) {
            DividesTransitive(splits[i].lower, splits[before].lower, splits[k].lower);
          }
        }
      }
    }
  }

  /** The chosen splits so far: positions, flags and the factor where they end. */
  ghost predicate Progress(splits: seq<Slot>, used: seq<bool>, order: seq<nat>, iters: seq<Slot>, expected: int,
      level: Level) {
    && |used| == |splits|
    && (forall k :: 0 <= k < |order| ==> order[k] < |splits| && used[order[k]])
    && (forall k :: 0 <= k < |used| && used[k] ==> k in order)
    && (forall j, k :: 0 <= j < k < |order| ==> order[j] != order[k])
    && iters == Arranged(splits, order)
    && Chained(iters) && expected == Top(iters) && expected > 0
    && (forall k :: 0 <= k < |iters| ==> Divides(iters[k].lower * iters[k].extent, expected))
    && (level.Bijective? ==> Contiguous(iters))
  }

  lemma ProgressStep(splits: seq<Slot>, used: seq<bool>, order: seq<nat>, iters: seq<Slot>, expected: int, level: Level,
      j: nat)
    requires AllPositive(splits) && Progress(splits, used, order, iters, expected, level)
    requires j < |splits| && !used[j] && Divides(expected, splits[j].lower)
    requires level.Bijective? ==> splits[j].lower == expected
    ensures Progress(splits, used[j := true], order + [j], iters + [splits[j]],
      splits[j].lower * splits[j].extent, level)
  {
    var s, iters' := splits[j], iters + [splits[j]];
    UsedStep(used, order, j);
    ChainStep(iters, expected, s);
    assert iters' == Arranged(splits, order + [j]);
    if level.Bijective? { ContiguousStep(iters, s); }
  }

  lemma UsedStep(used: seq<bool>, order: seq<nat>, j: nat)
    requires j < |used| && forall k :: 0 <= k < |used| && used[k] ==> k in order
    ensures forall k :: 0 <= k < |used| && used[j := true][k] ==> k in order + [j]
  {
    assert (order + [j])[|order|] == j;
  }

  lemma ChainStep(iters: seq<Slot>, expected: int, s: Slot)
    requires Chained(iters) && Positive(s) && Divides(expected, s.lower)
    requires forall k :: 0 <= k < |iters| ==> Divides(iters[k].lower * iters[k].extent, expected)
    ensures Chained(iters + [s]) && s.lower * s.extent > 0
    ensures forall k :: 0 <= k < |iters + [s]| ==>
      Divides((iters + [s])[k].lower * (iters + [s])[k].extent, s.lower * s.extent)
  {
    forall k | 0 <= k < |iters| ensures Divides(iters[k].lower * iters[k].extent, s.lower) {
      DividesTransitive(iters[k].lower * iters[k].extent, expected, s.lower);
    }
    assert EndsDivide(iters, s.lower);
    ChainExtend(iters, s);
    assert s.lower * s.extent > 0;
  }

  lemma ContiguousStep(iters: seq<Slot>, s: Slot)
    requires Contiguous(iters) && Positive(s) && s.lower == Top(iters)
    ensures Contiguous(iters + [s])
  {
    var r := iters + [s];
    forall k | 0 <= k < |r| ensures r[k].lower == Top(r[..k]) {
      if k < |iters| { assert r[..k] == iters[..k]; } else { assert r[..k] == iters; }
    }
  }

  /** The next split: one that starts where the chain ends, or if lower factors may be skipped the best later one. */
  method NextSplit(splits: seq<Slot>, used: seq<bool>, expected: int, level: Level) returns (j: nat)
    requires |used| == |splits| && AllPositive(splits) && expected > 0
    ensures j <= |splits|
    ensures j < |splits| ==> !used[j] && Divides(expected, splits[j].lower)
    ensures j < |splits| && level.Bijective? ==> splits[j].lower == expected
    ensures level.Bijective? ==> forall k :: 0 <= k < j && splits[k].lower == expected ==> used[k]
  {
    j := 0;
    while j < |splits|
      invariant 0 <= j <= |splits|
      invariant forall k :: 0 <= k < j && splits[k].lower == expected ==> used[k]
    {
      if !used[j] && splits[j].lower == expected {
        DividesIntro(expected, splits[j].lower, 1);
        return;
      }
      j := j + 1;
    }
    if level.Bijective? { return; }
    j := SearchSkipLowerFactor(splits, used, expected);
  }

  /** Splits that start at the same lower factor keep the order in which they are listed. */
  ghost predicate FirstFit(splits: seq<Slot>, order: seq<nat>) {
    forall k, j: nat ::
      (0 <= k < |order| && order[k] < |splits| && j < order[k] && splits[j].lower == splits[order[k]].lower) ==>
        j in order[..k]
  }

  /** The splits follow each other without gap up to the extent. */
  ghost predicate Tiling(splits: seq<Slot>, order: seq<nat>, extent: int) {
    Arrangement(order, |splits|) && Contiguous(Arranged(splits, order)) && Top(Arranged(splits, order)) == extent
  }

  /** An arrangement that the search can produce. */
  ghost predicate Producible(splits: seq<Slot>, order: seq<nat>) {
    Arrangement(order, |splits|) && Contiguous(Arranged(splits, order)) && FirstFit(splits, order)
  }

  /** The search takes the next split of every producible arrangement. */
  lemma NextProduced(splits: seq<Slot>, used: seq<bool>, order: seq<nat>, iters: seq<Slot>, expected: int, w: seq<nat>,
      j: nat)
    requires Progress(splits, used, order, iters, expected, Bijective) && Producible(splits, w)
    requires |order| < |w| && order == w[..|order|] && j <= |splits|
    requires j < |splits| ==> !used[j] && splits[j].lower == expected
    requires forall k :: 0 <= k < j && splits[k].lower == expected ==> used[k]
    ensures j == w[|order|]
  {
    var i := |order|;
    assert iters == Arranged(splits, w)[..i];
    assert Arranged(splits, w)[i].lower == expected;
    assert w[i] !in order;
    assert forall h: nat :: h < w[i] && splits[h].lower == splits[w[i]].lower ==> h in w[..i];
  }

  /** What is produced is producible. */
  lemma FirstFitStep(splits: seq<Slot>, used: seq<bool>, order: seq<nat>, iters: seq<Slot>, expected: int, j: nat)
    requires Progress(splits, used, order, iters, expected, Bijective) && FirstFit(splits, order)
    requires j < |splits| && splits[j].lower == expected
    requires forall k :: 0 <= k < j && splits[k].lower == expected ==> used[k]
    ensures FirstFit(splits, order + [j])
  {
    var next := order + [j];
    forall k, h: nat | 0 <= k < |next| && next[k] < |splits| && h < next[k] && splits[h].lower == splits[next[k]].lower
      ensures h in next[..k]
    {
      if k < |order| { assert next[..k] == order[..k]; } else { assert next[..k] == order; }
    }
  }

  /** The splits in a chain, innermost first; `w` is any arrangement to be met. */
  method ArrangeSplits(splits: seq<Slot>, level: Level, ghost w: seq<nat>)
    returns (ok: bool, iters: seq<Slot>, expected: int, ghost order: seq<nat>, ghost used: seq<bool>)
    requires AllPositive(splits)
    ensures ok ==> Progress(splits, used, order, iters, expected, level) && |order| == |splits|
    ensures ok && level.Bijective? ==> FirstFit(splits, order)
    ensures level.Bijective? && Producible(splits, w) ==> ok && order == w
  {
    var taken := seq(|splits|, _ => false);
    iters, expected, order, used := [], 1, [], taken;
    for i := 0 to |splits|
      invariant Progress(splits, taken, order, iters, expected, level) && |order| == i
      invariant level.Bijective? ==> FirstFit(splits, order)
      invariant level.Bijective? && Producible(splits, w) ==> order == w[..i]
    {
      var j := NextSplit(splits, taken, expected, level);
      if level.Bijective? && Producible(splits, w) { NextProduced(splits, taken, order, iters, expected, w, j); }
      if j == |splits| {
        ok := false;
        return;
      }
      if level.Bijective? { FirstFitStep(splits, taken, order, iters, expected, j); }
      ProgressStep(splits, taken, order, iters, expected, level, j);
      order := order + [j];
      taken := taken[j := true];
      iters := iters + [splits[j]];
      expected := splits[j].lower * splits[j].extent;
    }
    ok, used := true, taken;
  }

  lemma ProgressOnto(splits: seq<Slot>, used: seq<bool>, order: seq<nat>, iters: seq<Slot>, expected: int, level: Level,
      extent: int)
    requires AllPositive(splits) && Progress(splits, used, order, iters, expected, level) && |order| == |splits|
    requires expected <= extent
    ensures Arrangement(order, |splits|) && Onto(splits, extent)
  {
    ChainedOnto(splits, order, extent);
  }

  lemma ProgressBijective(splits: seq<Slot>, used: seq<bool>, order: seq<nat>, iters: seq<Slot>, expected: int,
      extent: int)
    requires AllPositive(splits) && Progress(splits, used, order, iters, expected, Bijective) && |order| == |splits|
    requires expected == extent
    ensures Arrangement(order, |splits|) && Injective(splits, extent)
    ensures Contiguous(Arranged(splits, order)) && Top(Arranged(splits, order)) == extent
  {
    ContiguousInjective(splits, order, extent);
  }

  /** At the bijective level: accepted exactly when some tiling keeps the listed order of equal lower factors. */
  ghost predicate Acceptable(splits: seq<Slot>, extent: int) {
    exists w :: FirstFit(splits, w) && Tiling(splits, w, extent)
  }

  /**
   Outermost to innermost, or empty when the splits do not cover the mark. `order` is the
   arrangement found.
   */
  method TryNormalizeSplits(extent: int, splits: seq<Slot>, level: Level)
    returns (result: seq<Slot>, ghost order: seq<nat>)
    requires AllPositive(splits) && extent > 0
    ensures result != [] ==>
      && Arrangement(order, |splits|) && |result| == |splits|
      && (forall k :: 0 <= k < |splits| ==> result[|splits| - 1 - k] == splits[order[k]])
    ensures result != [] ==> Onto(splits, extent)
    ensures result != [] && level.Bijective? ==> Injective(splits, extent) && Tiling(splits, order, extent)
    ensures level.Bijective? && splits != [] ==> (result != [] <==> Acceptable(splits, extent))
  {
    ghost var w: seq<nat> := [];
    if Acceptable(splits, extent) { w :| FirstFit(splits, w) && Tiling(splits, w, extent); }
    var ok, iters, expected;
    ghost var used;
    ok, iters, expected, order, used := ArrangeSplits(splits, level, w);
    if !ok { return [], order; }
    var matchFull := expected == extent;
    if !matchFull {
      if level.Bijective? || !CanProveDivisible(extent, expected) {
        if level.Bijective? { NotTiled(splits, used, order, iters, expected, extent, w); }
        return [], order;
      }
      TruncModZero(extent, expected);
      DividesBound(expected, extent);
    }
    ProgressOnto(splits, used, order, iters, expected, level, extent);
    if level.Bijective? { ProgressBijective(splits, used, order, iters, expected, extent); }
    result := seq(|iters|, k requires 0 <= k < |iters| => iters[|iters| - 1 - k]);
    assert forall k :: 0 <= k < |splits| ==> result[|splits| - 1 - k] == iters[k];
  }

  lemma NotTiled(splits: seq<Slot>, used: seq<bool>, order: seq<nat>, iters: seq<Slot>, expected: int, extent: int,
      w: seq<nat>)
    requires Progress(splits, used, order, iters, expected, Bijective) && expected != extent
    requires Producible(splits, w) ==> order == w
    requires Acceptable(splits, extent) ==> FirstFit(splits, w) && Tiling(splits, w, extent)
    ensures !Acceptable(splits, extent)
  {
  }

  // ----- unit extents -----

  lemma {:induction false} LowersGrow(chain: seq<Slot>, i: nat, k: nat)
    requires Contiguous(chain) && i < k < |chain| && forall j :: 0 <= j < |chain| ==> chain[j].extent > 1
    ensures chain[i].lower < chain[k].lower
    decreases k
  {
    assert chain[k].lower == Top(chain[..k]);
    assert chain[..k][k - 1] == chain[k - 1];
    assert chain[k - 1].lower * chain[k - 1].extent > chain[k - 1].lower;
    if i < k - 1 { LowersGrow(chain, i, k - 1); }
  }

  lemma {:induction false} LowersClimb(chain: seq<Slot>, i: nat, k: nat)
    requires Contiguous(chain) && i < k < |chain|
    ensures chain[k].lower >= chain[i].lower * chain[i].extent
    decreases k
  {
    assert chain[k].lower == Top(chain[..k]);
    assert chain[..k][k - 1] == chain[k - 1];
    if i < k - 1 {
      LowersClimb(chain, i, k - 1);
      ProductGrows(chain[k - 1].lower, chain[k - 1].extent);
    }
  }

  lemma ProductGrows(a: int, b: int)
    requires a > 0 && b > 0
    ensures a * b >= a
  {
  }

  /** In a gap-free chain only a unit extent can stand twice. */
  lemma RepeatIsUnit(chain: seq<Slot>, i: nat, k: nat)
    requires Contiguous(chain) && i < |chain| && k < |chain| && i != k && chain[i] == chain[k]
    ensures chain[i].extent == 1
  {
    var a, e := chain[i].lower, chain[i].extent;
    if e > 1 { ProductExceeds(a, e); }
    LowersClimb(chain, if i < k then i else k, if i < k then k else i);
  }

  lemma ProductExceeds(a: int, b: int)
    requires a > 0 && b > 1
    ensures a * b > a
  {
  }

  /** Without unit extents lower factors differ, so every tiling is accepted. */
  lemma ProperTilingFits(splits: seq<Slot>, order: seq<nat>, extent: int)
    requires Tiling(splits, order, extent) && forall j :: 0 <= j < |splits| ==> splits[j].extent > 1
    ensures FirstFit(splits, order)
  {
    forall k, j: nat | 0 <= k < |order| && order[k] < |splits| && j < order[k]
      ensures splits[j].lower != splits[order[k]].lower
    {
      ArrangementOnto(order, |splits|, j);
      var h :| 0 <= h < |splits| && order[h] == j;
      LowersDiffer(Arranged(splits, order), h, k);
    }
  }

  lemma LowersDiffer(chain: seq<Slot>, i: nat, k: nat)
    requires Contiguous(chain) && i < |chain| && k < |chain| && i != k
    requires forall j :: 0 <= j < |chain| ==> chain[j].extent > 1
    ensures chain[i].lower != chain[k].lower
  {
    if i < k { LowersGrow(chain, i, k); } else { LowersGrow(chain, k, i); }
  }

  /** A unit extent listed after the split that starts at the same lower factor: there is a tiling, not accepted. */
  method UnitSplitRejected(n: int) returns (result: seq<Slot>)
    requires n > 1
    ensures result == [] && Tiling([Slot(1, n), Slot(1, 1)], [1, 0], n)
  {
    var splits := [Slot(1, n), Slot(1, 1)];
    UnitFirst(n);
    UnitNotAcceptable(n);
    ghost var order;
    result, order := TryNormalizeSplits(n, splits, Bijective);
  }

  lemma UnitFirst(n: int)
    requires n > 1
    ensures Tiling([Slot(1, n), Slot(1, 1)], [1, 0], n)
  {
    var chain := Arranged([Slot(1, n), Slot(1, 1)], [1, 0]);
    assert chain == [Slot(1, 1), Slot(1, n)];
    assert chain[..0] == [] && chain[..1] == [Slot(1, 1)];
  }

  lemma UnitNotAcceptable(n: int)
    requires n > 1
    ensures !Acceptable([Slot(1, n), Slot(1, 1)], n)
  {
    if w :| FirstFit([Slot(1, n), Slot(1, 1)], w) && Tiling([Slot(1, n), Slot(1, 1)], w, n) { UnitLast(n, w); }
  }

  lemma UnitLast(n: int, w: seq<nat>)
    requires n > 1
    ensures !(FirstFit([Slot(1, n), Slot(1, 1)], w) && Tiling([Slot(1, n), Slot(1, 1)], w, n))
  {
    var splits := [Slot(1, n), Slot(1, 1)];
    if Arrangement(w, 2) {
      if w[0] == 1 {
        assert 0 !in w[..0] && splits[0].lower == splits[w[0]].lower;
        assert !FirstFit(splits, w);
      } else {
        var chain := Arranged(splits, w);
        assert chain[..1] == [Slot(1, n)];
        assert Top(chain[..1]) == n && chain[1].lower == 1;
        assert !Contiguous(chain);
      }
    }
  }
}
