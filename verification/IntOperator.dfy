/**
 Integer operators of src/arith/int_operator.h: truncating and flooring
 division, the extended Euclidean algorithm, gcd and lcm.

 Integers are unbounded; C++ `/` and `%` truncate toward zero and are written
 out as `TruncDiv` and `TruncMod`.
 */
module IntOperator {

  function Abs(x: int): (r: nat)
    ensures r == x || r == -x
  {
    if x < 0 then -x else x
  }

  // ----- divisibility -----

  /** `d` divides `n`; only 0 is divisible by 0. */
  predicate Divides(d: int, n: int) {
    if d == 0 then n == 0 else n % d == 0
  }

  lemma DivModUnique(x: int, y: int, q: int, r: int)
    requires y != 0
    requires x == q * y + r && 0 <= r < Abs(y)
    ensures x / y == q && x % y == r
  {
    var q', r' := x / y, x % y;
    assert (q - q') * y == r' - r;
    if q - q' >= 1 {
      assert Abs(y) <= Abs((q - q') * y) by { MulAtLeast(q - q', y); }
    } else if q - q' <= -1 {
      assert Abs(y) <= Abs((q - q') * y) by { MulAtLeast(q - q', y); }
    }
  }

  lemma MulAtLeast(k: int, y: int)
    requires k != 0
    ensures Abs(y) <= Abs(k * y)
  {
    var ak, ay := Abs(k), Abs(y);
    assert Abs(k * y) == ak * ay by { AbsMul(k, y); }
    assert ak * ay == ay + (ak - 1) * ay;
    assert (ak - 1) * ay >= 0;
  }

  lemma AbsMul(k: int, y: int)
    ensures Abs(k * y) == Abs(k) * Abs(y)
  {
    if k >= 0 {
      if y >= 0 { assert k * y >= 0; } else { assert k * y == -(k * -y); assert k * -y >= 0; }
    } else {
      if y >= 0 { assert k * y == -(-k * y); assert -k * y >= 0; } else {
        assert k * y == -k * -y; assert -k * -y >= 0;
      }
    }
  }

  lemma DividesIntro(d: int, n: int, k: int)
    requires n == k * d
    ensures Divides(d, n)
  {
    if d != 0 { DivModUnique(n, d, k, 0); }
  }

  /** The quotient of an exact division. */
  function Quotient(n: int, d: int): (k: int)
    requires Divides(d, n)
    ensures n == k * d
  {
    if d == 0 then 0 else n / d
  }

  lemma DividesTransitive(a: int, b: int, c: int)
    requires Divides(a, b) && Divides(b, c)
    ensures Divides(a, c)
  {
    var k, l := Quotient(b, a), Quotient(c, b);
    assert c == (l * k) * a;
    DividesIntro(a, c, l * k);
  }

  lemma DividesCombination(d: int, m: int, n: int, x: int, y: int)
    requires Divides(d, m) && Divides(d, n)
    ensures Divides(d, m * x + n * y)
  {
    var k, l := Quotient(m, d), Quotient(n, d);
    assert m * x + n * y == (k * x + l * y) * d;
    DividesIntro(d, m * x + n * y, k * x + l * y);
  }

  lemma DividesMultiple(d: int, n: int, q: int)
    requires Divides(d, n)
    ensures Divides(d, q * n) && Divides(d, n * q)
  {
    var k := Quotient(n, d);
    TimesAssociates(q, k, d);
    DividesIntro(d, q * n, q * k);
  }

  lemma TimesAssociates(q: int, k: int, d: int)
    ensures q * (k * d) == (q * k) * d
  {
  }

  lemma DividesBound(d: int, n: int)
    requires Divides(d, n) && n != 0
    ensures d != 0 && Abs(d) <= Abs(n)
  {
    var k := Quotient(n, d);
    assert k != 0;
    MulAtLeast(k, d);
  }

  lemma DividesSign(d: int, n: int)
    ensures Divides(d, n) <==> Divides(-d, n)
    ensures Divides(d, n) <==> Divides(d, -n)
  {
    if Divides(d, n) {
      DividesIntro(-d, n, -Quotient(n, d));
      DividesIntro(d, -n, -Quotient(n, d));
    }
    if Divides(-d, n) { DividesIntro(d, n, -Quotient(n, -d)); }
    if Divides(d, -n) { DividesIntro(d, n, -Quotient(-n, d)); }
  }

  // ----- truncating and flooring division -----

  function TruncDiv(x: int, y: int): int
    requires y != 0
  {
    if x >= 0 then (if y > 0 then x / y else -(x / -y))
    else (if y > 0 then -(-x / y) else -x / -y)
  }

  function TruncMod(x: int, y: int): int
    requires y != 0
  {
    x - TruncDiv(x, y) * y
  }

  function FloorDiv(x: int, y: int): int
    requires y != 0
  {
    var rdiv := TruncDiv(x, y);
    var rmod := TruncMod(x, y);
    var isFloorDiv := (y >= 0 && rmod >= 0) || (y < 0 && rmod <= 0);
    if isFloorDiv then rdiv else rdiv - 1
  }

  function FloorMod(x: int, y: int): int
    requires y != 0
  {
    var rmod := TruncMod(x, y);
    var isFloorDiv := (y >= 0 && rmod >= 0) || (y < 0 && rmod <= 0);
    if isFloorDiv then rmod else rmod + y
  }

  /** Truncation: the remainder is smaller than the divisor and has the sign of `x`. */
  lemma TruncLaw(x: int, y: int)
    requires y != 0
    ensures x == TruncDiv(x, y) * y + TruncMod(x, y)
    ensures Abs(TruncMod(x, y)) < Abs(y)
    ensures x >= 0 ==> TruncMod(x, y) >= 0
    ensures x <= 0 ==> TruncMod(x, y) <= 0
  {
    var ax, ay := Abs(x), Abs(y);
    var q, r := ax / ay, ax % ay;
    assert ax == q * ay + r;
    if x >= 0 {
      if y > 0 { assert TruncDiv(x, y) == q; } else { assert TruncDiv(x, y) == -q; assert -q * y == q * ay; }
    } else {
      if y > 0 { assert TruncDiv(x, y) == -q; assert -q * y == -(q * ay); }
      else { assert TruncDiv(x, y) == q; assert q * y == -(q * ay); }
    }
  }

  /** Flooring: the remainder lies between 0 and the divisor, on the divisor's side. */
  lemma FloorLaw(x: int, y: int)
    requires y != 0
    ensures x == FloorDiv(x, y) * y + FloorMod(x, y)
    ensures y > 0 ==> 0 <= FloorMod(x, y) < y
    ensures y < 0 ==> y < FloorMod(x, y) <= 0
  {
    TruncLaw(x, y);
    assert (TruncDiv(x, y) - 1) * y == TruncDiv(x, y) * y - y;
  }

  /** The law determines quotient and remainder. */
  lemma FloorUnique(x: int, y: int, q: int, r: int)
    requires y != 0 && x == q * y + r
    requires if y > 0 then 0 <= r < y else y < r <= 0
    ensures FloorDiv(x, y) == q && FloorMod(x, y) == r
  {
    FloorLaw(x, y);
    SameQuotient(y, FloorDiv(x, y), FloorMod(x, y), q, r);
  }

  lemma SameQuotient(y: int, q1: int, r1: int, q2: int, r2: int)
    requires y != 0 && q1 * y + r1 == q2 * y + r2
    requires if y > 0 then 0 <= r1 < y && 0 <= r2 < y else y < r1 <= 0 && y < r2 <= 0
    ensures q1 == q2 && r1 == r2
  {
    assert (q1 - q2) * y == r2 - r1;
    if q1 != q2 { MulAtLeast(q1 - q2, y); }
  }

  lemma TruncUnique(x: int, y: int, q: int, r: int)
    requires y != 0 && x == q * y + r && Abs(r) < Abs(y)
    requires (x >= 0 ==> r >= 0) && (x <= 0 ==> r <= 0)
    ensures TruncDiv(x, y) == q && TruncMod(x, y) == r
  {
    TruncLaw(x, y);
    NearQuotient(y, TruncDiv(x, y), TruncMod(x, y), q, r);
  }

  lemma NearQuotient(y: int, q1: int, r1: int, q2: int, r2: int)
    requires y != 0 && q1 * y + r1 == q2 * y + r2 && Abs(r1 - r2) < Abs(y)
    ensures q1 == q2 && r1 == r2
  {
    QuotientGap(q1, q2, y);
    if q1 != q2 { MulAtLeast(q1 - q2, y); }
  }

  lemma QuotientGap(q1: int, q2: int, y: int)
    ensures (q1 - q2) * y == q1 * y - q2 * y
  {
  }

  lemma FloorIsEuclidean(x: int, y: int)
    requires y > 0
    ensures FloorDiv(x, y) == x / y && FloorMod(x, y) == x % y
  {
    FloorUnique(x, y, x / y, x % y);
  }

  /** On exact division all conventions agree with the quotient. */
  lemma ExactDivision(n: int, d: int)
    requires d != 0 && Divides(d, n)
    ensures TruncDiv(n, d) * d == n && TruncMod(n, d) == 0
    ensures FloorDiv(n, d) == TruncDiv(n, d) == Quotient(n, d) && FloorMod(n, d) == 0
  {
    FloorUnique(n, d, Quotient(n, d), 0);
    TruncLaw(n, d);
    var e := TruncDiv(n, d) - Quotient(n, d);
    assert e * d == -TruncMod(n, d);
    if e != 0 { MulAtLeast(e, d); }
  }

  /** CanProveDivisible of src/arith/iter_affine_map.cc, on constants. */
  predicate CanProveDivisible(lhs: int, rhs: int) {
    rhs != 0 && TruncMod(lhs, rhs) == 0
  }

  lemma TruncModZero(x: int, y: int)
    requires y != 0
    ensures TruncMod(x, y) == 0 <==> Divides(y, x)
  {
    TruncLaw(x, y);
    if TruncMod(x, y) == 0 { DividesIntro(y, x, TruncDiv(x, y)); }
    if Divides(y, x) { ExactDivision(x, y); }
  }

  lemma FloorModZero(x: int, y: int)
    requires y != 0
    ensures FloorMod(x, y) == 0 <==> Divides(y, x)
  {
    FloorLaw(x, y);
    if FloorMod(x, y) == 0 { DividesIntro(y, x, FloorDiv(x, y)); }
    if Divides(y, x) { ExactDivision(x, y); }
  }

  // ----- extended Euclid -----

  /** Bezout: `g` is a common divisor and an integer combination of `a` and `b`. */
  predicate Bezout(a: int, b: int, g: int, x: int, y: int) {
    g == a * x + b * y && Divides(g, a) && Divides(g, b)
  }

  /** A Bezout value is, up to sign, the greatest common divisor. */
  lemma BezoutIsGcd(a: int, b: int, g: int, x: int, y: int, d: int)
    requires Bezout(a, b, g, x, y)
    requires Divides(d, a) && Divides(d, b)
    ensures Divides(d, g)
  {
    DividesCombination(d, a, b, x, y);
  }

  /** Every common divisor of `r` and `r'` divides both `a` and `b`. */
  ghost predicate DivisorsReach(r: int, r': int, a: int, b: int) {
    forall d :: Divides(d, r) && Divides(d, r') ==> Divides(d, a) && Divides(d, b)
  }

  lemma DivisorsReachStep(oldR: int, r: int, q: int, a: int, b: int)
    requires DivisorsReach(oldR, r, a, b)
    ensures DivisorsReach(r, oldR - q * r, a, b)
  {
    forall d | Divides(d, r) && Divides(d, oldR - q * r)
      ensures Divides(d, a) && Divides(d, b)
    {
      DividesCombination(d, r, oldR - q * r, q, 1);
    }
  }

  lemma CombinationStep(a: int, b: int, oldR: int, oldS: int, oldT: int, r: int, s: int, t: int, q: int)
    requires oldR == a * oldS + b * oldT && r == a * s + b * t
    ensures oldR - q * r == a * (oldS - q * s) + b * (oldT - q * t)
  {
    assert q * r == a * (q * s) + b * (q * t);
  }

  lemma LastDivisor(r: int, a: int, b: int)
    requires DivisorsReach(r, 0, a, b)
    ensures Divides(r, a) && Divides(r, b)
  {
    DividesIntro(r, r, 1);
    DividesIntro(r, 0, 0);
  }

  /** int_operator.h ExtendedEuclidean; `g` can be negative only when `b` is. */
  method ExtendedEuclidean(a: int, b: int) returns (g: int, x: int, y: int)
    ensures Bezout(a, b, g, x, y)
    ensures g == 0 <==> a == 0 && b == 0
    ensures b >= 0 ==> g >= 0
  {
    var s, oldS := 0, 1;
    var r, oldR := b, if a >= 0 then a else -a;
    ghost var t, oldT := 1, 0;
    forall d | Divides(d, oldR) ensures Divides(d, a) { DividesSign(d, a); }
    while r != 0
      invariant oldR == Abs(a) * oldS + b * oldT
      invariant r == Abs(a) * s + b * t
      invariant DivisorsReach(oldR, r, a, b)
      invariant b >= 0 ==> oldR >= 0 && r >= 0
      decreases Abs(r)
    {
      var q := TruncDiv(oldR, r);
      TruncLaw(oldR, r);
      DivisorsReachStep(oldR, r, q, a, b);
      CombinationStep(Abs(a), b, oldR, oldS, oldT, r, s, t, q);
      oldT, t := t, oldT - q * t;
      var tmp := oldR;
      oldR := r;
      r := tmp - q * r;
      tmp := oldS;
      oldS := s;
      s := tmp - q * s;
    }
    LastDivisor(oldR, a, b);
    x := if a >= 0 then oldS else -oldS;
    g := oldR;
    y := EuclidCofactor(a, b, g, x, oldS, oldT);
  }

  /** The second cofactor, recovered by one exact division. */
  method EuclidCofactor(a: int, b: int, g: int, x: int, s: int, ghost t: int) returns (y: int)
    requires g == Abs(a) * s + b * t
    requires x == if a >= 0 then s else -s
    ensures g == a * x + b * y
  {
    assert x * a == Abs(a) * s;
    if b != 0 {
      DividesIntro(b, g - x * a, t);
      ExactDivision(g - x * a, b);
      y := TruncDiv(g - x * a, b);
    } else {
      y := 1;
    }
  }

  // ----- gcd and lcm -----

  /** Euclid's algorithm; `Gcd(0, 0) == 0`. */
  function Gcd(a: int, b: int): (g: nat)
    ensures Divides(g, a) && Divides(g, b)
    ensures g == 0 <==> a == 0 && b == 0
    decreases Abs(b)
  {
    if b == 0 then
      DividesIntro(Abs(a), a, if a >= 0 then 1 else -1);
      DividesIntro(Abs(a), 0, 0);
      Abs(a)
    else
      var g := Gcd(b, a % b);
      DividesCombination(g, b, a % b, a / b, 1);
      g
  }

  /** Every common divisor divides the gcd. */
  lemma {:induction false} GcdGreatest(a: int, b: int, d: int)
    requires Divides(d, a) && Divides(d, b)
    ensures Divides(d, Gcd(a, b))
    decreases Abs(b)
  {
    if b == 0 {
      DividesSign(d, a);
    } else {
      DividesCombination(d, a, b, 1, -(a / b));
      assert a * 1 + b * -(a / b) == a % b;
      GcdGreatest(b, a % b, d);
    }
  }

  lemma GcdUnique(a: int, b: int, g: nat)
    requires Divides(g, a) && Divides(g, b)
    requires forall d: nat :: Divides(d, a) && Divides(d, b) ==> Divides(d, g)
    ensures g == Gcd(a, b)
  {
    GcdGreatest(a, b, g);
    var h := Gcd(a, b);
    if g == 0 || h == 0 {
    } else {
      DividesBound(g, h);
      DividesBound(h, g);
    }
  }

  /** The gcd depends neither on order nor on signs. */
  lemma GcdSymmetric(a: int, b: int)
    ensures Gcd(a, b) == Gcd(b, a) == Gcd(-a, b) == Gcd(a, -b)
  {
    forall d: nat
      ensures Divides(d, a) <==> Divides(d, -a)
      ensures Divides(d, b) <==> Divides(d, -b)
    {
      DividesSign(d, a);
      DividesSign(d, b);
    }
    forall d: nat | Divides(d, a) && Divides(d, b) ensures Divides(d, Gcd(a, b)) { GcdGreatest(a, b, d); }
    GcdUnique(b, a, Gcd(a, b));
    GcdUnique(-a, b, Gcd(a, b));
    GcdUnique(a, -b, Gcd(a, b));
  }

  method ZeroAwareGCD(a0: int, b0: int) returns (g: nat)
    ensures g == Gcd(a0, b0)
  {
    var a, b := a0, b0;
    GcdSymmetric(a, b);
    if a < 0 { a := -a; }
    GcdSymmetric(a, b);
    if b < 0 { b := -b; }
    GcdSymmetric(a, b);
    if a < b { a, b := b, a; }
    if b == 0 { return a; }
    while a % b != 0
      invariant a >= 0 && b > 0
      invariant Gcd(a, b) == Gcd(a0, b0)
      decreases b
    {
      a := a % b;
      a, b := b, a;
    }
    return b;
  }

  /** `m` is a common multiple that divides every common multiple. */
  ghost predicate IsLcm(m: int, a: int, b: int) {
    && Divides(a, m) && Divides(b, m)
    && forall k :: Divides(a, k) && Divides(b, k) ==> Divides(m, k)
  }

  /** Of any signs; two zeros make the original divide by zero. */
  method LeastCommonMultiple(a: int, b: int) returns (m: int)
    requires a != 0 || b != 0
    ensures IsLcm(m, a, b) && (a > 0 && b > 0 ==> m > 0)
  {
    var g, x, y := ExtendedEuclidean(a, b);
    var p, q := Quotient(a, g), Quotient(b, g);
    assert a * b == (p * b) * g;
    DividesIntro(g, a * b, p * b);
    ExactDivision(a * b, g);
    m := TruncDiv(a * b, g);
    assert m * g == (p * b) * g;
    LcmLaw(a, b, g, x, y, p, q, m);
    if a > 0 && b > 0 { assert a * b > 0; }
  }

  lemma Cancel(u: int, v: int, g: int)
    requires g != 0 && u * g == v * g
    ensures u == v
  {
  }

  lemma LcmLaw(a: int, b: int, g: int, x: int, y: int, p: int, q: int, m: int)
    requires g != 0 && g == a * x + b * y
    requires a == p * g && b == q * g && m * g == a * b
    ensures IsLcm(m, a, b)
  {
    assert m == p * b by { assert (p * b) * g == a * b; Cancel(m, p * b, g); }
    assert m == q * a by { assert (q * a) * g == a * b; Cancel(m, q * a, g); }
    DividesIntro(b, m, p);
    DividesIntro(a, m, q);
    forall k | Divides(a, k) && Divides(b, k)
      ensures Divides(m, k)
    {
      LcmLeast(a, b, g, x, y, m, k, Quotient(k, a), Quotient(k, b));
    }
  }

  lemma LcmLeast(a: int, b: int, g: int, x: int, y: int, m: int, k: int, u: int, v: int)
    requires g != 0 && g == a * x + b * y && m * g == a * b
    requires k == u * a && k == v * b
    ensures Divides(m, k)
  {
    var w := v * x + u * y;
    calc {
      k * g;
      k * (a * x) + k * (b * y);
      (v * b) * (a * x) + (u * a) * (b * y);
      { assert (v * b) * (a * x) == (v * x) * (a * b); assert (u * a) * (b * y) == (u * y) * (a * b); }
      (v * x) * (a * b) + (u * y) * (a * b);
      w * (a * b);
      w * (m * g);
      (w * m) * g;
    }
    Cancel(k, w * m, g);
    DividesIntro(m, k, w);
  }
}
