/**
 The two division modes of the canonical simplifier, truncating and flooring,
 with the laws both obey for positive divisors.
 */
module DivModes {
  import opened IntOperator
  import opened DivModLaws

  datatype DivMode = TruncMode | FloorMode

  function DivBy(x: int, k: int, mode: DivMode): int
    requires k != 0
  {
    if mode == TruncMode then TruncDiv(x, k) else FloorDiv(x, k)
  }

  function ModBy(x: int, k: int, mode: DivMode): int
    requires k != 0
  {
    if mode == TruncMode then TruncMod(x, k) else FloorMod(x, k)
  }

  lemma DivModBy(x: int, k: int, mode: DivMode)
    requires k != 0
    ensures x == DivBy(x, k, mode) * k + ModBy(x, k, mode)
    ensures Abs(ModBy(x, k, mode)) < Abs(k)
    ensures mode == FloorMode && k > 0 ==> ModBy(x, k, mode) >= 0
    ensures x >= 0 && k > 0 ==> DivBy(x, k, mode) == x / k && ModBy(x, k, mode) == x % k
  {
    TruncLaw(x, k);
    FloorLaw(x, k);
    if x >= 0 && k > 0 {
      FloorIsEuclidean(x, k);
      assert TruncDiv(x, k) == x / k;
      assert x == (x / k) * k + x % k;
    }
  }

  /** r can be the remainder of x by k. */
  predicate Fits(x: int, k: int, r: int, mode: DivMode)
    requires k != 0
  {
    if mode == FloorMode then if k > 0 then 0 <= r < k else k < r <= 0
    else Abs(r) < Abs(k) && (x >= 0 ==> r >= 0) && (x <= 0 ==> r <= 0)
  }

  lemma FitsBy(x: int, k: int, mode: DivMode)
    requires k != 0
    ensures x == DivBy(x, k, mode) * k + ModBy(x, k, mode) && Fits(x, k, ModBy(x, k, mode), mode)
  {
    TruncLaw(x, k);
    FloorLaw(x, k);
  }

  lemma UniqueBy(x: int, k: int, q: int, r: int, mode: DivMode)
    requires k != 0 && x == q * k + r && Fits(x, k, r, mode)
    ensures DivBy(x, k, mode) == q && ModBy(x, k, mode) == r
  {
    if mode == FloorMode { FloorUnique(x, k, q, r); } else { TruncUnique(x, k, q, r); }
  }

  /** Reducing by a multiple of k first changes nothing modulo k, whatever the signs. */
  lemma NestedBy(x: int, s: int, k: int, mode: DivMode)
    requires s != 0 && k != 0
    ensures s * k != 0
    ensures DivBy(x, s * k, mode) * s + DivBy(ModBy(x, s * k, mode), k, mode) == DivBy(x, k, mode)
    ensures ModBy(ModBy(x, s * k, mode), k, mode) == ModBy(x, k, mode)
  {
    NonzeroProduct(s, k);
    var q, r := DivBy(x, s * k, mode), ModBy(x, s * k, mode);
    FitsBy(x, s * k, mode);
    FitsBy(r, k, mode);
    NestedSum(q, s, k, DivBy(r, k, mode), ModBy(r, k, mode));
    UniqueBy(x, k, q * s + DivBy(r, k, mode), ModBy(r, k, mode), mode);
  }

  lemma NonzeroProduct(s: int, k: int)
    requires s != 0 && k != 0
    ensures s * k != 0
  {
  }

  lemma NestedSum(q: int, s: int, k: int, p: int, b: int)
    ensures q * (s * k) + (p * k + b) == (q * s + p) * k + b
  {
    assert q * (s * k) == (q * s) * k;
  }

  /** A truncated division of -x mirrors that of x; the divisor's sign only flips the quotient. */
  lemma TruncReflect(x: int, k: int)
    requires k != 0
    ensures TruncDiv(-x, k) == -TruncDiv(x, k) && TruncMod(-x, k) == -TruncMod(x, k)
    ensures TruncDiv(x, -k) == -TruncDiv(x, k) && TruncMod(x, -k) == TruncMod(x, k)
  {
    QuotientReflects(x, k);
    var d := TruncDiv(x, k);
    SignedProducts(d, k);
  }

  lemma QuotientReflects(x: int, k: int)
    requires k != 0
    ensures TruncDiv(-x, k) == -TruncDiv(x, k) && TruncDiv(x, -k) == -TruncDiv(x, k)
  {
  }

  lemma SignedProducts(d: int, k: int)
    ensures (-d) * k == -(d * k) && (-d) * -k == d * k
  {
  }

  lemma FloorIs(x: int, k: int)
    requires k > 0
    ensures DivBy(x, k, FloorMode) == x / k && ModBy(x, k, FloorMode) == x % k
  {
    FloorIsEuclidean(x, k);
  }

  lemma TruncIs(x: int, k: int)
    requires k > 0 && x >= 0
    ensures DivBy(x, k, TruncMode) == x / k && ModBy(x, k, TruncMode) == x % k
  {
    assert x == (x / k) * k + x % k;
  }

  lemma TruncNegates(x: int, k: int)
    requires k != 0
    ensures DivBy(-x, k, TruncMode) == -DivBy(x, k, TruncMode) && ModBy(-x, k, TruncMode) == -ModBy(x, k, TruncMode)
  {
    TruncReflect(x, k);
  }

  // ----- dividing twice -----

  lemma DivDivBy(x: int, l: int, k: int, mode: DivMode)
    requires l > 0 && k > 0
    ensures l * k > 0 && DivBy(DivBy(x, l, mode), k, mode) == DivBy(x, l * k, mode)
    decreases x < 0
  {
    DivDiv(x, l, k);
    if mode == FloorMode {
      FloorIs(x, l);
      FloorIs(x / l, k);
      FloorIs(x, l * k);
    } else if x >= 0 {
      TruncIs(x, l);
      TruncIs(x / l, k);
      TruncIs(x, l * k);
    } else {
      DivDivBy(-x, l, k, mode);
      MirrorDivDiv(x, l, k, l * k);
    }
  }

  lemma MirrorDivDiv(x: int, l: int, k: int, m: int)
    requires l != 0 && k != 0 && m != 0
    requires DivBy(DivBy(-x, l, TruncMode), k, TruncMode) == DivBy(-x, m, TruncMode)
    ensures DivBy(DivBy(x, l, TruncMode), k, TruncMode) == DivBy(x, m, TruncMode)
  {
    TruncNegates(x, l);
    TruncNegates(x, m);
    TruncNegates(DivBy(x, l, TruncMode), k);
  }

  // ----- a remainder divided or reduced again -----

  lemma MirrorModSplit(x: int, k: int, r: int, m: int)
    requires k != 0 && r != 0 && m != 0
    requires DivBy(ModBy(-x, m, TruncMode), r, TruncMode) == ModBy(DivBy(-x, r, TruncMode), k, TruncMode)
    requires ModBy(ModBy(-x, m, TruncMode), r, TruncMode) == ModBy(-x, r, TruncMode)
    ensures DivBy(ModBy(x, m, TruncMode), r, TruncMode) == ModBy(DivBy(x, r, TruncMode), k, TruncMode)
    ensures ModBy(ModBy(x, m, TruncMode), r, TruncMode) == ModBy(x, r, TruncMode)
  {
    TruncNegates(x, m);
    TruncNegates(x, r);
    TruncNegates(ModBy(x, m, TruncMode), r);
    TruncNegates(DivBy(x, r, TruncMode), k);
  }

  lemma ModSplitBy(x: int, k: int, r: int, mode: DivMode)
    requires k > 0 && r > 0
    ensures k * r > 0
    ensures DivBy(ModBy(x, k * r, mode), r, mode) == ModBy(DivBy(x, r, mode), k, mode)
    ensures ModBy(ModBy(x, k * r, mode), r, mode) == ModBy(x, r, mode)
    decreases x < 0
  {
    ModSplit(x, k, r);
    if mode == FloorMode {
      FloorIs(x, k * r);
      FloorIs(x % (k * r), r);
      FloorIs(x, r);
      FloorIs(x / r, k);
    } else if x >= 0 {
      TruncIs(x, k * r);
      TruncIs(x % (k * r), r);
      TruncIs(x, r);
      TruncIs(x / r, k);
    } else {
      ModSplitBy(-x, k, r, mode);
      MirrorModSplit(x, k, r, k * r);
    }
  }

  // ----- a common factor -----

  lemma ScaleBy(x: int, s: int, k: int, mode: DivMode)
    requires s > 0 && k > 0
    ensures s * k > 0 && DivBy(x * s, s * k, mode) == DivBy(x, k, mode)
    ensures ModBy(x * s, s * k, mode) == ModBy(x, k, mode) * s
  {
    if mode == FloorMode {
      ScaleDivMod(x, s, k);
      FloorIs(x, k);
      FloorIs(s * x, s * k);
    } else if x >= 0 {
      ScaleTrunc(x, s, k);
    } else {
      ScaleTrunc(-x, s, k);
      assert (-x) * s == -(x * s);
      TruncNegates(-x, k);
      TruncNegates(-(x * s), s * k);
      NegatedProduct(ModBy(-x, k, mode), s);
    }
  }

  lemma NegatedProduct(a: int, s: int)
    ensures -(a * s) == (-a) * s
  {
  }

  lemma ScaleTrunc(x: int, s: int, k: int)
    requires s > 0 && k > 0 && x >= 0
    ensures s * k > 0 && DivBy(x * s, s * k, TruncMode) == DivBy(x, k, TruncMode)
    ensures ModBy(x * s, s * k, TruncMode) == ModBy(x, k, TruncMode) * s
  {
    ScaleDivMod(x, s, k);
    TruncIs(x, k);
    assert x * s >= 0;
    TruncIs(x * s, s * k);
  }

  lemma ExactBy(x: int, k: int, mode: DivMode)
    requires k != 0
    ensures DivBy(x * k, k, mode) == x && ModBy(x * k, k, mode) == 0
  {
    DividesIntro(k, x * k, x);
    ExactDivision(x * k, k);
    Cancel(x, Quotient(x * k, k), k);
  }

  /** Adding a multiple of the divisor adds to the quotient; truncation needs both parts non-negative. */
  lemma AddMultipleBy(x: int, q: int, k: int, mode: DivMode)
    requires k > 0 && (mode == FloorMode || (x >= 0 && q * k >= 0))
    ensures DivBy(q * k + x, k, mode) == q + DivBy(x, k, mode) && ModBy(q * k + x, k, mode) == ModBy(x, k, mode)
  {
    AddMultipleDiv(x, q, k);
    if mode == FloorMode {
      FloorIs(x, k);
      FloorIs(q * k + x, k);
    } else {
      TruncIs(x, k);
      TruncIs(q * k + x, k);
    }
  }

  /** A number of smaller magnitude than the divisor (not negative when flooring) is its own remainder. */
  lemma SmallBy(x: int, k: int, mode: DivMode)
    requires k > 0 && Abs(x) < k && (mode == FloorMode ==> x >= 0)
    ensures DivBy(x, k, mode) == 0 && ModBy(x, k, mode) == x
  {
    DivModUnique(Abs(x), k, 0, Abs(x));
    if x >= 0 {
      FloorIs(x, k);
      TruncIs(x, k);
    } else {
      TruncIs(-x, k);
      TruncNegates(-x, k);
    }
  }
}
