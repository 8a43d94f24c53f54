/** Laws of nested division and remainder by positive numbers, used by the normal forms. */
module DivModLaws {
  import opened IntOperator

  lemma DivDiv(x: int, l: int, r: int)
    requires l > 0 && r > 0
    ensures l * r > 0 && (x / l) / r == x / (l * r)
  {
    var y, a := x / l, x % l;
    var q, b := y / r, y % r;
    assert l * r > 0;
    NestedRemainder(l, r, a, b);
    assert x == q * (l * r) + (b * l + a) by {
      assert x == y * l + a && y == q * r + b;
      assert (q * r + b) * l == q * (l * r) + b * l;
    }
    DivModUnique(x, l * r, q, b * l + a);
  }

  lemma NestedRemainder(l: int, r: int, a: int, b: int)
    requires l > 0 && 0 <= a < l && 0 <= b < r
    ensures 0 <= b * l + a < l * r
  {
    assert b * l <= (r - 1) * l;
    assert (r - 1) * l == l * r - l;
    assert b * l >= 0;
  }

  /** (y % (k*r)) splits into its quotient and remainder by r. */
  lemma ModSplit(y: int, k: int, r: int)
    requires k > 0 && r > 0
    ensures k * r > 0
    ensures (y % (k * r)) / r == (y / r) % k
    ensures (y % (k * r)) % r == y % r
    ensures y % (k * r) == ((y / r) % k) * r + y % r
  {
    var q, b := y / r, y % r;
    var p, c := q / k, q % k;
    SplitParts(y, k, r, q, b, p, c);
    NestedRemainder(r, k, b, c);
    assert r * k == k * r;
    DivModUnique(y, k * r, p, c * r + b);
    DivModUnique(c * r + b, r, c, b);
  }

  lemma SplitParts(y: int, k: int, r: int, q: int, b: int, p: int, c: int)
    requires k > 0 && r > 0 && y == q * r + b && q == p * k + c
    ensures k * r > 0 && y == p * (k * r) + (c * r + b)
  {
    assert (p * k + c) * r == (p * k) * r + c * r;
    assert (p * k) * r == p * (k * r);
  }

  lemma AddMultipleDiv(y: int, q: int, r: int)
    requires r > 0
    ensures (y + q * r) / r == y / r + q && (y + q * r) % r == y % r
  {
    DivModUnique(y + q * r, r, y / r + q, y % r);
  }

  /** A common positive factor cancels in division and moves out of the remainder. */
  lemma ScaleDivMod(y: int, s: int, r: int)
    requires s > 0 && r > 0
    ensures s * r > 0 && (s * y) / (s * r) == y / r && (s * y) % (s * r) == s * (y % r)
  {
    var q, b := y / r, y % r;
    assert s * r > 0;
    assert s * y == q * (s * r) + s * b by { assert y == q * r + b; assert s * (q * r) == q * (s * r); }
    assert s * (r - b) > 0;
    assert s * b >= 0;
    DivModUnique(s * y, s * r, q, s * b);
  }
}
