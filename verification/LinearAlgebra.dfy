/** Integer vectors and matrices, and how sums react to elementary row and column steps. */
module LinearAlgebra {

  type Vector = seq<int>
  type Matrix = seq<seq<int>>

  predicate IsMatrix(S: Matrix, m: nat, n: nat) {
    |S| == m && forall i :: 0 <= i < m ==> |S[i]| == n
  }

  function Dot(r: Vector, u: Vector): int
    requires |r| == |u|
  {
    if r == [] then 0 else Dot(r[..|r| - 1], u[..|u| - 1]) + r[|r| - 1] * u[|u| - 1]
  }

  /** `S u == y`. */
  ghost predicate Solves(S: Matrix, u: Vector, y: Vector)
    requires IsMatrix(S, |S|, |u|) && |y| == |S|
  {
    forall i :: 0 <= i < |S| ==> Dot(S[i], u) == y[i]
  }

  function Combine(a: int, r: Vector, b: int, s: Vector): (t: Vector)
    requires |r| == |s|
  {
    seq(|r|, k requires 0 <= k < |r| => a * r[k] + b * s[k])
  }

  lemma {:induction false} DotCombine(a: int, r: Vector, b: int, s: Vector, u: Vector)
    requires |r| == |s| == |u|
    ensures Dot(Combine(a, r, b, s), u) == a * Dot(r, u) + b * Dot(s, u)
  {
    if r != [] {
      var k := |r| - 1;
      var t := Combine(a, r, b, s);
      assert t[..k] == Combine(a, r[..k], b, s[..k]);
      DotCombine(a, r[..k], b, s[..k], u[..k]);
      assert (a * r[k] + b * s[k]) * u[k] == a * (r[k] * u[k]) + b * (s[k] * u[k]);
      assert a * Dot(r, u) == a * Dot(r[..k], u[..k]) + a * (r[k] * u[k]);
      assert b * Dot(s, u) == b * Dot(s[..k], u[..k]) + b * (s[k] * u[k]);
    }
  }

  lemma {:induction false} DotUpdate(r: Vector, u: Vector, p: nat, a: int, c: int)
    requires |r| == |u| && p < |r|
    ensures Dot(r[p := a], u[p := c]) == Dot(r, u) - r[p] * u[p] + a * c
  {
    var k := |r| - 1;
    if p == k {
      assert r[p := a][..k] == r[..k] && u[p := c][..k] == u[..k];
    } else {
      assert r[p := a][..k] == r[..k][p := a] && u[p := c][..k] == u[..k][p := c];
      DotUpdate(r[..k], u[..k], p, a, c);
    }
  }

  /** Entries `p` and `q` replaced in both factors. */
  lemma DotUpdate2(r: Vector, u: Vector, p: nat, q: nat, a: int, b: int, c: int, d: int)
    requires |r| == |u| && p < |r| && q < |r| && p != q
    ensures Dot(r[p := a][q := b], u[p := c][q := d])
         == Dot(r, u) - r[p] * u[p] - r[q] * u[q] + a * c + b * d
  {
    DotUpdate(r, u, p, a, c);
    DotUpdate(r[p := a], u[p := c], q, b, d);
  }

  lemma {:induction false} DotSingle(r: Vector, u: Vector, p: nat)
    requires |r| == |u| && p < |r|
    requires forall k :: 0 <= k < |r| && k != p ==> r[k] == 0
    ensures Dot(r, u) == r[p] * u[p]
  {
    var k := |r| - 1;
    if p == k {
      DotZero(r[..k], u[..k]);
    } else {
      DotSingle(r[..k], u[..k], p);
    }
  }

  lemma {:induction false} DotZero(r: Vector, u: Vector)
    requires |r| == |u|
    requires forall k :: 0 <= k < |r| ==> r[k] == 0
    ensures Dot(r, u) == 0
  {
    if r != [] { DotZero(r[..|r| - 1], u[..|u| - 1]); }
  }

  function Unit(n: nat, i: nat): (r: Vector) {
    seq(n, k => if k == i then 1 else 0)
  }

  function Identity(n: nat): (r: Matrix)
    ensures IsMatrix(r, n, n)
  {
    seq(n, i requires 0 <= i < n => Unit(n, i))
  }

  lemma IdentityDot(n: nat, u: Vector, i: nat)
    requires |u| == n && i < n
    ensures Dot(Identity(n)[i], u) == u[i]
  {
    DotSingle(Identity(n)[i], u, i);
  }

  // ----- the 2x2 steps -----

  /** `p` and `q` entries of a row multiplied by [[a, c], [b, -d]] on the right. */
  function ColumnsOfRow(r: Vector, p: nat, q: nat, a: int, b: int, c: int, d: int): (t: Vector)
    requires p < |r| && q < |r|
    ensures |t| == |r|
  {
    r[p := a * r[p] + b * r[q]][q := c * r[p] - d * r[q]]
  }

  /** The inverse of that step, on the vector the row is applied to. */
  function Undo(u: Vector, p: nat, q: nat, a: int, b: int, c: int, d: int): (t: Vector)
    requires p < |u| && q < |u|
    ensures |t| == |u|
  {
    u[p := d * u[p] + c * u[q]][q := b * u[p] - a * u[q]]
  }

  /** With determinant -1 the column step and its inverse leave every row's sum alone. */
  lemma ColumnsKeepDot(r: Vector, u: Vector, p: nat, q: nat, a: int, b: int, c: int, d: int)
    requires |r| == |u| && p < |r| && q < |r| && p != q
    requires a * d + b * c == 1
    ensures Dot(ColumnsOfRow(r, p, q, a, b, c, d), Undo(u, p, q, a, b, c, d)) == Dot(r, u)
  {
    ColumnsEntries(r, p, q, a, b, c, d);
    UndoEntries(u, p, q, a, b, c, d);
    var t, w := ColumnsOfRow(r, p, q, a, b, c, d), Undo(u, p, q, a, b, c, d);
    TwoByTwoNamed(r[p], r[q], u[p], u[q], a, b, c, d, t[p], t[q], w[p], w[q]);
    SameProducts(r, u, p, q, t, w);
  }

  /** Outside p and q nothing changed. */
  ghost predicate ChangedAt(t: Vector, r: Vector, p: nat, q: nat)
    requires p < |r| && q < |r|
  {
    |t| == |r| && t == r[p := t[p]][q := t[q]]
  }

  lemma ColumnsEntries(r: Vector, p: nat, q: nat, a: int, b: int, c: int, d: int)
    requires p < |r| && q < |r| && p != q
    ensures var t := ColumnsOfRow(r, p, q, a, b, c, d);
      ChangedAt(t, r, p, q) && t[p] == a * r[p] + b * r[q] && t[q] == c * r[p] - d * r[q]
  {
  }

  lemma UndoEntries(u: Vector, p: nat, q: nat, a: int, b: int, c: int, d: int)
    requires p < |u| && q < |u| && p != q
    ensures var w := Undo(u, p, q, a, b, c, d);
      ChangedAt(w, u, p, q) && w[p] == d * u[p] + c * u[q] && w[q] == b * u[p] - a * u[q]
  {
  }

  lemma SameProducts(r: Vector, u: Vector, p: nat, q: nat, t: Vector, w: Vector)
    requires |r| == |u| && p < |r| && q < |r| && p != q && ChangedAt(t, r, p, q) && ChangedAt(w, u, p, q)
    requires t[p] * w[p] + t[q] * w[q] == r[p] * u[p] + r[q] * u[q]
    ensures Dot(t, w) == Dot(r, u)
  {
    DotUpdate2(r, u, p, q, t[p], t[q], w[p], w[q]);
  }

  lemma TwoByTwoNamed(rp: int, rq: int, up: int, uq: int, a: int, b: int, c: int, d: int, x: int, y: int, z: int,
      w: int)
    requires a * d + b * c == 1
    requires x == a * rp + b * rq && y == c * rp - d * rq && z == d * up + c * uq && w == b * up - a * uq
    ensures x * z + y * w == rp * up + rq * uq
  {
    TwoByTwo(rp, rq, up, uq, a, b, c, d);
  }

  lemma TwoByTwo(rp: int, rq: int, up: int, uq: int, a: int, b: int, c: int, d: int)
    requires a * d + b * c == 1
    ensures (a * rp + b * rq) * (d * up + c * uq) + (c * rp - d * rq) * (b * up - a * uq) == rp * up + rq * uq
  {
    var x, y, z, w := rp * up, rp * uq, rq * up, rq * uq;
    assert (a * rp + b * rq) * (d * up + c * uq) == (a * d) * x + (a * c) * y + (b * d) * z + (b * c) * w by {
      Expand(a, rp, b, rq, d, up, c, uq);
    }
    assert (c * rp - d * rq) * (b * up - a * uq) == (c * b) * x - (c * a) * y - (d * b) * z + (d * a) * w by {
      Expand(c, rp, -d, rq, b, up, -a, uq);
      assert c * -a == -(c * a) && -d * b == -(d * b) && -d * -a == d * a;
      assert -(c * a) * y == -((c * a) * y) && -(d * b) * z == -((d * b) * z);
    }
    assert (a * d) * x + (c * b) * x == (a * d + b * c) * x;
    assert (b * c) * w + (d * a) * w == (a * d + b * c) * w;
  }

  lemma Expand(a: int, x: int, b: int, y: int, c: int, u: int, d: int, v: int)
    ensures (a * x + b * y) * (c * u + d * v)
         == (a * c) * (x * u) + (a * d) * (x * v) + (b * c) * (y * u) + (b * d) * (y * v)
  {
    MulSums(a * x, b * y, c * u, d * v);
    Regroup(a, x, c, u);
    Regroup(a, x, d, v);
    Regroup(b, y, c, u);
    Regroup(b, y, d, v);
  }

  lemma MulSums(p: int, q: int, r: int, s: int)
    ensures (p + q) * (r + s) == p * r + p * s + q * r + q * s
  {
  }

  lemma Regroup(a: int, x: int, c: int, u: int)
    ensures (a * x) * (c * u) == (a * c) * (x * u)
  {
    assert (a * x) * (c * u) == a * (x * (c * u));
    assert x * (c * u) == c * (x * u);
    assert a * (c * (x * u)) == (a * c) * (x * u);
  }

  lemma Distribute(k: int, a: int, x: int, b: int, y: int)
    ensures k * (a * x + b * y) == (k * a) * x + (k * b) * y
    ensures (a * x + b * y) * k == a * (x * k) + b * (y * k)
  {
    assert k * (a * x) == (k * a) * x;
    assert k * (b * y) == (k * b) * y;
    assert (a * x) * k == a * (x * k);
    assert (b * y) * k == b * (y * k);
  }

  /** The transposed identity: a column step moved onto the vector. */
  function Redo(u: Vector, p: nat, q: nat, a: int, b: int, c: int, d: int): (t: Vector)
    requires p < |u| && q < |u|
    ensures |t| == |u|
  {
    u[p := a * u[p] + c * u[q]][q := b * u[p] - d * u[q]]
  }

  lemma ColumnsMoveToVector(r: Vector, u: Vector, p: nat, q: nat, a: int, b: int, c: int, d: int)
    requires |r| == |u| && p < |r| && q < |r| && p != q
    ensures Dot(ColumnsOfRow(r, p, q, a, b, c, d), u) == Dot(r, Redo(u, p, q, a, b, c, d))
  {
    ColumnsEntries(r, p, q, a, b, c, d);
    RedoEntries(u, p, q, a, b, c, d);
    var t, w := ColumnsOfRow(r, p, q, a, b, c, d), Redo(u, p, q, a, b, c, d);
    TransposedNamed(r[p], r[q], u[p], u[q], a, b, c, d, t[p], t[q], w[p], w[q]);
    MovedProducts(r, u, p, q, t, w);
  }

  lemma RedoEntries(u: Vector, p: nat, q: nat, a: int, b: int, c: int, d: int)
    requires p < |u| && q < |u| && p != q
    ensures var w := Redo(u, p, q, a, b, c, d);
      ChangedAt(w, u, p, q) && w[p] == a * u[p] + c * u[q] && w[q] == b * u[p] - d * u[q]
  {
  }

  lemma MovedProducts(r: Vector, u: Vector, p: nat, q: nat, t: Vector, w: Vector)
    requires |r| == |u| && p < |r| && q < |r| && p != q && ChangedAt(t, r, p, q) && ChangedAt(w, u, p, q)
    requires t[p] * u[p] + t[q] * u[q] == r[p] * w[p] + r[q] * w[q]
    ensures Dot(t, u) == Dot(r, w)
  {
    assert u[p := u[p]][q := u[q]] == u && r[p := r[p]][q := r[q]] == r;
    DotUpdate2(r, u, p, q, t[p], t[q], u[p], u[q]);
    DotUpdate2(r, u, p, q, r[p], r[q], w[p], w[q]);
  }

  lemma TransposedNamed(rp: int, rq: int, up: int, uq: int, a: int, b: int, c: int, d: int, x: int, y: int, z: int,
      w: int)
    requires x == a * rp + b * rq && y == c * rp - d * rq && z == a * up + c * uq && w == b * up - d * uq
    ensures x * up + y * uq == rp * z + rq * w
  {
    Transposed(rp, rq, up, uq, a, b, c, d);
  }

  lemma Transposed(rp: int, rq: int, up: int, uq: int, a: int, b: int, c: int, d: int)
    ensures (a * rp + b * rq) * up + (c * rp - d * rq) * uq == rp * (a * up + c * uq) + rq * (b * up - d * uq)
  {
    Distribute(up, a, rp, b, rq);
    Distribute(uq, c, rp, -d, rq);
    Distribute(rp, a, up, c, uq);
    Distribute(rq, b, up, -d, uq);
    assert (-d) * rq == -(d * rq) && (-d) * uq == -(d * uq);
    assert a * (rp * up) == (rp * a) * up && b * (rq * up) == (rq * b) * up;
    assert c * (rp * uq) == (rp * c) * uq && (-d) * (rq * uq) == (rq * -d) * uq;
  }

  lemma UndoRedo(u: Vector, p: nat, q: nat, a: int, b: int, c: int, d: int)
    requires p < |u| && q < |u| && p != q && a * d + b * c == 1
    ensures Undo(Redo(u, p, q, a, b, c, d), p, q, a, b, c, d) == u
  {
    var up, uq := u[p], u[q];
    var vp, vq := a * up + c * uq, b * up - d * uq;
    InverseStep(up, uq, a, b, c, d);
  }

  lemma InverseStep(up: int, uq: int, a: int, b: int, c: int, d: int)
    requires a * d + b * c == 1
    ensures d * (a * up + c * uq) + c * (b * up - d * uq) == up
    ensures b * (a * up + c * uq) - a * (b * up - d * uq) == uq
  {
    assert b * up - d * uq == b * up + (-d) * uq;
    Distribute(d, a, up, c, uq);
    Distribute(c, b, up, -d, uq);
    Distribute(b, a, up, c, uq);
    Distribute(a, b, up, -d, uq);
    assert (d * a) * up + (c * b) * up == (a * d + b * c) * up;
    assert (d * c) * uq + (c * -d) * uq == 0;
    assert (b * a) * up - (a * b) * up == 0;
    assert (b * c) * uq - (a * -d) * uq == (a * d + b * c) * uq;
  }

  /** With determinant -1 two combined equations say the same as the two originals. */
  lemma RowsEquivalent(s: int, t: int, y: int, z: int, a: int, b: int, c: int, d: int)
    requires a * d + b * c == 1
    ensures (a * s + b * t == a * y + b * z && c * s - d * t == c * y - d * z) <==> (s == y && t == z)
  {
    var e, f := s - y, t - z;
    if a * s + b * t == a * y + b * z && c * s - d * t == c * y - d * z {
      assert a * e + b * f == 0 && c * e - d * f == 0;
      // the step matrix with rows (a, b), (c, -d) is inverted by (d, b), (c, -a)
      InverseStep(e, f, a, c, b, d);
    }
  }
}
