/**
 Mixed-radix digits. An iterator split reads the digit (x // lower) % extent of
 its source; splits whose factors form a chain read independent digits.
 */
module Radix {
  import opened IntOperator

  datatype Slot = Slot(lower: int, extent: int)

  predicate Positive(s: Slot) {
    s.lower > 0 && s.extent > 0
  }

  function Digit(x: int, s: Slot): (d: int)
    requires Positive(s)
    ensures 0 <= d < s.extent
  {
    (x / s.lower) % s.extent
  }

  function Digits(x: int, slots: seq<Slot>): (ds: seq<int>)
    requires forall k :: 0 <= k < |slots| ==> Positive(slots[k])
    ensures |ds| == |slots| && forall k :: 0 <= k < |slots| ==> ds[k] == Digit(x, slots[k])
  {
    seq(|slots|, k requires 0 <= k < |slots| => Digit(x, slots[k]))
  }

  predicate InBox(ds: seq<int>, slots: seq<Slot>) {
    |ds| == |slots| && forall k :: 0 <= k < |slots| ==> 0 <= ds[k] < slots[k].extent
  }

  function Compose(ds: seq<int>, slots: seq<Slot>): int
    requires |ds| == |slots|
  {
    if ds == [] then 0
    else var k := |ds| - 1; Compose(ds[..k], slots[..k]) + ds[k] * slots[k].lower
  }

  /** Where the digits read so far end; the next slot may start at a multiple of it. */
  function Top(slots: seq<Slot>): int {
    if slots == [] then 1 else slots[|slots| - 1].lower * slots[|slots| - 1].extent
  }

  /** Innermost first; every slot starts at a multiple of where each earlier one ends. */
  predicate Chained(slots: seq<Slot>) {
    && (forall k :: 0 <= k < |slots| ==> Positive(slots[k]))
    && (forall j, k :: 0 <= j < k < |slots| ==> Divides(slots[j].lower * slots[j].extent, slots[k].lower))
  }

  /** No gap: every slot starts exactly where the previous one ends, the first at 1. */
  predicate Contiguous(slots: seq<Slot>) {
    && (forall k :: 0 <= k < |slots| ==> Positive(slots[k]))
    && (forall k :: 0 <= k < |slots| ==> slots[k].lower == Top(slots[..k]))
  }

  // ----- arithmetic of one digit -----

  lemma AddMultiple(y: int, l: int, t: int)
    requires l > 0
    ensures (y + t * l) / l == y / l + t && (y + t * l) % l == y % l
  {
    DivModUnique(y + t * l, l, y / l + t, y % l);
  }

  lemma DigitShift(y: int, s: Slot, m: int)
    requires Positive(s) && Divides(s.lower * s.extent, m)
    ensures Digit(y + m, s) == Digit(y, s)
  {
    var l, e := s.lower, s.extent;
    assert l * e > 0;
    var t := Quotient(m, l * e);
    assert m == (t * e) * l;
    AddMultiple(y, l, t * e);
    AddMultiple(y / l, e, t);
  }

  lemma TopDigit(y: int, s: Slot, d: int)
    requires Positive(s) && 0 <= y < s.lower && 0 <= d < s.extent
    ensures Digit(y + d * s.lower, s) == d
  {
    AddMultiple(y, s.lower, d);
    DivModUnique(y, s.lower, 0, y);
    DivModUnique(d, s.extent, 0, d);
  }

  lemma DigitTimes(d: int, l: int, e: int)
    requires 0 <= d < e && l > 0
    ensures 0 <= d * l <= l * e - l
  {
    assert d * l <= (e - 1) * l;
    assert (e - 1) * l == l * e - l;
  }

  lemma QuotientBound(x: int, l: int, e: int)
    requires l > 0 && e > 0 && 0 <= x < l * e
    ensures 0 <= x / l < e && (x / l) % e == x / l
  {
    if x / l >= e { assert (x / l) * l >= e * l; }
    DivModUnique(x / l, e, 0, x / l);
  }

  lemma ChainPrefix(slots: seq<Slot>, k: nat)
    requires Chained(slots) && k <= |slots|
    ensures Chained(slots[..k])
  {
  }

  lemma TopDividesNext(slots: seq<Slot>)
    requires Chained(slots) && slots != []
    ensures Top(slots[..|slots| - 1]) <= slots[|slots| - 1].lower && Top(slots) > 0
  {
    var k := |slots| - 1;
    if k > 0 {
      assert slots[..k][k - 1] == slots[k - 1];
      DividesBound(slots[k - 1].lower * slots[k - 1].extent, slots[k].lower);
      assert slots[k - 1].lower * slots[k - 1].extent > 0;
    }
  }

  /** Digits compose to a value below the top of the chain. */
  lemma {:induction false} ComposeBound(ds: seq<int>, slots: seq<Slot>)
    requires Chained(slots) && InBox(ds, slots)
    ensures 0 <= Compose(ds, slots) < Top(slots)
  {
    if ds != [] {
      var k := |ds| - 1;
      ChainPrefix(slots, k);
      ComposeBound(ds[..k], slots[..k]);
      TopDividesNext(slots);
      DigitTimes(ds[k], slots[k].lower, slots[k].extent);
    }
  }

  /** Reading a composed value gives the digits back: a chain reads independent digits. */
  lemma {:induction false} DigitsOfCompose(ds: seq<int>, slots: seq<Slot>)
    requires Chained(slots) && InBox(ds, slots)
    ensures Digits(Compose(ds, slots), slots) == ds
  {
    if ds != [] {
      var k := |ds| - 1;
      ChainPrefix(slots, k);
      DigitsOfCompose(ds[..k], slots[..k]);
      ComposeBound(ds[..k], slots[..k]);
      TopDividesNext(slots);
      LastAdded(ds, slots, k, Compose(ds[..k], slots[..k]), Compose(ds, slots));
    }
  }

  /** The digits of a number below the last slot, with the last digit added. */
  lemma LastAdded(ds: seq<int>, slots: seq<Slot>, k: nat, y: int, x: int)
    requires Chained(slots) && InBox(ds, slots) && k + 1 == |slots| && x == y + ds[k] * slots[k].lower
    requires 0 <= y < slots[k].lower && Digits(y, slots[..k]) == ds[..k]
    ensures Digits(x, slots) == ds
  {
    TopDigit(y, slots[k], ds[k]);
    forall j | 0 <= j < k ensures Digit(x, slots[j]) == ds[j] {
      assert Digits(y, slots[..k])[j] == ds[..k][j];
      HigherDigit(y, slots[j], ds[k], slots[k].lower);
    }
  }

  /** A higher digit does not change a lower one. */
  lemma HigherDigit(y: int, s: Slot, d: int, lower: int)
    requires Positive(s) && Divides(s.lower * s.extent, lower)
    ensures Digit(y + d * lower, s) == Digit(y, s)
  {
    DividesMultiple(s.lower * s.extent, lower, d);
    DigitShift(y, s, d * lower);
  }

  /** Everything read so far ends at a divisor of `top`. */
  ghost predicate EndsDivide(slots: seq<Slot>, top: int) {
    forall j :: 0 <= j < |slots| ==> Divides(slots[j].lower * slots[j].extent, top)
  }

  lemma ChainExtend(low: seq<Slot>, last: Slot)
    requires Chained(low) && Positive(last) && EndsDivide(low, last.lower)
    ensures Chained(low + [last]) && EndsDivide(low + [last], last.lower * last.extent)
  {
    var r, top := low + [last], last.lower * last.extent;
    DividesIntro(top, top, 1);
    forall j | 0 <= j < |low| ensures Divides(low[j].lower * low[j].extent, top) {
      DividesMultiple(low[j].lower * low[j].extent, last.lower, last.extent);
    }
  }

  lemma {:induction false} ContiguousIsChained(slots: seq<Slot>)
    requires Contiguous(slots)
    ensures Chained(slots) && EndsDivide(slots, Top(slots))
  {
    if slots != [] {
      var k := |slots| - 1;
      assert forall j :: 0 <= j < k ==> slots[..k][..j] == slots[..j];
      ContiguousIsChained(slots[..k]);
      ChainExtend(slots[..k], slots[k]);
      assert slots == slots[..k] + [slots[k]];
    }
  }

  lemma LowDigit(x: int, y: int, q: int, l: int, s: Slot)
    requires Positive(s) && Divides(s.lower * s.extent, l) && x == y + q * l
    ensures Digit(x, s) == Digit(y, s)
  {
    DividesMultiple(s.lower * s.extent, l, q);
    DigitShift(y, s, q * l);
  }

  /** Without gaps the digits of a value determine it. */
  lemma {:induction false} ComposeOfDigits(x: int, slots: seq<Slot>)
    requires Contiguous(slots) && 0 <= x < Top(slots)
    ensures Compose(Digits(x, slots), slots) == x
  {
    if slots != [] {
      var k := |slots| - 1;
      var low, last := slots[..k], slots[k];
      LastDigit(x, slots);
      var y, q := x % last.lower, x / last.lower;
      LowPart(x, y, q, slots);
      ComposeOfDigits(y, low);
      ComposeLast(Digits(x, slots), slots, y, q, last.lower);
      SplitNumber(x, last.lower);
    }
  }

  lemma LastDigit(x: int, slots: seq<Slot>)
    requires Contiguous(slots) && slots != [] && 0 <= x < Top(slots)
    ensures var last := slots[|slots| - 1];
      && last.lower > 0 && Digits(x, slots)[|slots| - 1] == x / last.lower
      && 0 <= x % last.lower < Top(slots[..|slots| - 1]) && x == x % last.lower + (x / last.lower) * last.lower
  {
    var last := slots[|slots| - 1];
    assert Positive(last) && last.lower == Top(slots[..|slots| - 1]);
    QuotientBound(x, last.lower, last.extent);
    SplitNumber(x, last.lower);
  }

  lemma SplitNumber(x: int, l: int)
    requires l > 0
    ensures x == x % l + (x / l) * l && 0 <= x % l < l
  {
  }

  /** The last digit completes what the lower ones compose to. */
  lemma ComposeLast(ds: seq<int>, slots: seq<Slot>, y: int, q: int, l: int)
    requires |ds| == |slots| > 0 && ds[|ds| - 1] == q && slots[|ds| - 1].lower == l
    requires Compose(ds[..|ds| - 1], slots[..|ds| - 1]) == y
    ensures Compose(ds, slots) == y + q * l
  {
  }

  lemma LowPart(x: int, y: int, q: int, slots: seq<Slot>)
    requires Contiguous(slots) && slots != [] && x == y + q * slots[|slots| - 1].lower
    ensures Contiguous(slots[..|slots| - 1])
    ensures Digits(x, slots)[..|slots| - 1] == Digits(y, slots[..|slots| - 1])
  {
    var k := |slots| - 1;
    var low := slots[..k];
    assert forall j :: 0 <= j < k ==> low[..j] == slots[..j];
    ContiguousIsChained(low);
    LowDigits(x, y, q, low, slots[k].lower);
    assert Digits(x, slots)[..k] == Digits(x, low);
  }

  lemma LowDigits(x: int, y: int, q: int, low: seq<Slot>, l: int)
    requires (forall j :: 0 <= j < |low| ==> Positive(low[j])) && EndsDivide(low, l) && x == y + q * l
    ensures Digits(x, low) == Digits(y, low)
  {
    forall j | 0 <= j < |low| ensures Digits(x, low)[j] == Digits(y, low)[j] { LowDigit(x, y, q, l, low[j]); }
  }
}
