/**
 Fusing a sum of scaled digits into one mixed-radix number: when each scale is
 the previous scale times the previous extent, the sum is a multiple of one
 number whose digits are the summands.
 */
module Fusion {
  import opened IntOperator
  import opened Radix

  /** A summand: a digit below `extent`, multiplied by `scale`. */
  datatype Term = Term(extent: int, scale: int)

  /** Slots of terms listed innermost first. */
  function Slots(ts: seq<Term>): (r: seq<Slot>)
    ensures |r| == |ts|
    ensures forall t :: 0 <= t < |ts| ==> r[t].extent == ts[t].extent
  {
    if ts == [] then [] else
      var low := Slots(ts[..|ts| - 1]);
      low + [Slot(Top(low), ts[|ts| - 1].extent)]
  }

  ghost predicate AllExtents(ts: seq<Term>) {
    forall t :: 0 <= t < |ts| ==> ts[t].extent > 0
  }

  /** Each scale is `s` times the product of the inner extents. */
  ghost predicate FusedBy(ts: seq<Term>, s: int) {
    forall t :: 0 <= t < |ts| ==> ts[t].scale == s * Slots(ts)[t].lower
  }

  function WeightedSum(ts: seq<Term>, ds: seq<int>): int
    requires |ts| == |ds|
  {
    if ts == [] then 0 else
      var k := |ts| - 1;
      WeightedSum(ts[..k], ds[..k]) + ds[k] * ts[k].scale
  }

  lemma {:induction false} SlotsPrefix(ts: seq<Term>, k: nat)
    requires k <= |ts|
    ensures Slots(ts)[..k] == Slots(ts[..k])
  {
    if k < |ts| {
      var n := |ts| - 1;
      SlotsPrefix(ts[..n], k);
      assert ts[..n][..k] == ts[..k];
    } else {
      assert ts[..k] == ts;
    }
  }

  lemma SlotAt(ts: seq<Term>, t: nat)
    requires t < |ts|
    ensures Slots(ts)[t] == Slot(Top(Slots(ts[..t])), ts[t].extent)
  {
    SlotsPrefix(ts, t + 1);
    assert ts[..t + 1][..t] == ts[..t];
    assert Slots(ts)[t] == Slots(ts)[..t + 1][t];
  }

  lemma {:induction false} SlotsContiguous(ts: seq<Term>)
    requires AllExtents(ts)
    ensures Contiguous(Slots(ts)) && Top(Slots(ts)) > 0
  {
    if ts != [] {
      var k := |ts| - 1;
      SlotsContiguous(ts[..k]);
      ContiguousExtend(Slots(ts[..k]), ts[k].extent);
    }
  }

  lemma ContiguousExtend(low: seq<Slot>, extent: int)
    requires Contiguous(low) && Top(low) > 0 && extent > 0
    ensures Contiguous(low + [Slot(Top(low), extent)]) && Top(low + [Slot(Top(low), extent)]) > 0
  {
    var r := low + [Slot(Top(low), extent)];
    forall j | 0 <= j < |r| ensures Positive(r[j]) && r[j].lower == Top(r[..j]) {
      if j < |low| { assert r[..j] == low[..j]; } else { assert r[..j] == low; }
    }
    PositiveProduct(Top(low), extent);
  }

  lemma PositiveProduct(a: int, b: int)
    requires a > 0 && b > 0
    ensures a * b > 0
  {
  }

  /** The fused sum is `s` times the number the digits compose to. */
  lemma {:induction false} FusedValue(ts: seq<Term>, ds: seq<int>, s: int)
    requires |ts| == |ds| && FusedBy(ts, s)
    ensures WeightedSum(ts, ds) == s * Compose(ds, Slots(ts))
  {
    if ts != [] {
      var k, ss := |ts| - 1, Slots(ts);
      SlotsPrefix(ts, k);
      assert forall t :: 0 <= t < k ==> Slots(ts[..k])[t] == ss[t];
      FusedValue(ts[..k], ds[..k], s);
      FusedStep(s, Compose(ds[..k], ss[..k]), ds[k], ss[k].lower);
    }
  }

  lemma FusedStep(s: int, low: int, d: int, top: int)
    ensures s * low + d * (s * top) == s * (low + d * top)
  {
    assert d * (s * top) == s * (d * top);
  }

  lemma ScaledFloorDiv(s: int, f: int, p: int)
    requires s != 0 && p > 0
    ensures s * p != 0 && FloorDiv(s * f, s * p) == f / p
  {
    var q, r := f / p, f % p;
    assert f == q * p + r;
    ScaledRemainder(s, p, q, r);
    FloorUnique(s * (q * p + r), s * p, q, s * r);
  }

  lemma ScaledRemainder(s: int, p: int, q: int, r: int)
    requires s != 0 && 0 <= r < p
    ensures s * (q * p + r) == q * (s * p) + s * r
    ensures s * p != 0 && if s * p > 0 then 0 <= s * r < s * p else s * p < s * r <= 0
  {
    assert s * (q * p) == q * (s * p);
    if s > 0 {
      MulOrder(s, r, p);
    } else {
      MulOrder(-s, r, p);
      assert (-s) * p == -(s * p) && (-s) * r == -(s * r);
    }
  }

  lemma MulOrder(s: int, r: int, p: int)
    requires s > 0 && 0 <= r < p
    ensures 0 <= s * r < s * p
  {
    assert s * (p - r) > 0;
  }

  /** The composed number has the digits as its digits. */
  lemma ComposedDigit(ts: seq<Term>, ds: seq<int>, t: nat)
    requires |ts| == |ds| && t < |ts| && AllExtents(ts) && InBox(ds, Slots(ts))
    ensures Positive(Slots(ts)[t]) && Digit(Compose(ds, Slots(ts)), Slots(ts)[t]) == ds[t]
  {
    SlotsContiguous(ts);
    ContiguousIsChained(Slots(ts));
    DigitsOfCompose(ds, Slots(ts));
    assert Digits(Compose(ds, Slots(ts)), Slots(ts))[t] == ds[t];
  }

  lemma OutermostQuotient(ts: seq<Term>, ds: seq<int>)
    requires |ts| == |ds| && ts != [] && AllExtents(ts) && InBox(ds, Slots(ts))
    ensures var l := Slots(ts)[|ts| - 1].lower; l > 0 && Compose(ds, Slots(ts)) / l == ds[|ts| - 1]
  {
    var last := Slots(ts)[|ts| - 1];
    ComposedDigit(ts, ds, |ts| - 1);
    FusedBound(ts, ds);
    QuotientBound(Compose(ds, Slots(ts)), last.lower, last.extent);
  }

  /** Dividing by a term's scale and reducing by its extent recovers the digit; the outermost needs no reduction. */
  lemma FusedDigit(ts: seq<Term>, ds: seq<int>, s: int, t: nat)
    requires |ts| == |ds| && t < |ts| && s != 0 && FusedBy(ts, s) && AllExtents(ts)
    requires InBox(ds, Slots(ts))
    ensures ts[t].scale != 0
    ensures var q := FloorDiv(WeightedSum(ts, ds), ts[t].scale);
      q % ts[t].extent == ds[t] && (t == |ts| - 1 ==> q == ds[t])
  {
    FusedValue(ts, ds, s);
    ComposedDigit(ts, ds, t);
    ScaledFloorDiv(s, Compose(ds, Slots(ts)), Slots(ts)[t].lower);
    if t == |ts| - 1 { OutermostQuotient(ts, ds); }
  }

  /** The fused number is below the product of the extents. */
  lemma FusedBound(ts: seq<Term>, ds: seq<int>)
    requires |ts| == |ds| && AllExtents(ts) && InBox(ds, Slots(ts))
    ensures 0 <= Compose(ds, Slots(ts)) < Top(Slots(ts))
  {
    SlotsContiguous(ts);
    ContiguousIsChained(Slots(ts));
    ComposeBound(ds, Slots(ts));
  }
}
