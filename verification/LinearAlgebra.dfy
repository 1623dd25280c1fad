/** Integer vectors and matrices as sequences, and the two-row and two-column operations of
    the diagonalisation. */
module LinearAlgebra {
  import opened IntOperator

  type Matrix = seq<seq<int>>

  ghost predicate Rect(M: Matrix, m: nat, n: nat) {
    |M| == m && forall i :: 0 <= i < m ==> |M[i]| == n
  }

  /** The sum of the first k products. */
  function DotTo(a: seq<int>, b: seq<int>, k: nat): int
    requires k <= |a| && k <= |b|
  {
    if k == 0 then 0 else DotTo(a, b, k - 1) + a[k - 1] * b[k - 1]
  }

  function Dot(a: seq<int>, b: seq<int>): int
    requires |a| == |b|
  {
    DotTo(a, b, |a|)
  }

  function MatVec(M: Matrix, v: seq<int>): (r: seq<int>)
    requires forall i :: 0 <= i < |M| ==> |M[i]| == |v|
    ensures |r| == |M| && forall i :: 0 <= i < |M| ==> r[i] == Dot(M[i], v)
  {
    seq(|M|, i requires 0 <= i < |M| => Dot(M[i], v))
  }

  /** M is one-to-one as a map on integer vectors of length n. */
  ghost predicate Injective(M: Matrix, n: nat)
    requires Rect(M, n, n)
  {
    forall s: seq<int>, t: seq<int> ::
      |s| == n && |t| == n && MatVec(M, s) == MatVec(M, t) ==> s == t
  }

  function Identity(n: nat): (M: Matrix)
    ensures Rect(M, n, n)
  {
    seq(n, i => seq(n, j => if i == j then 1 else 0))
  }

  // ----- dot products --------------------------------------------------------------------

  /** Vectors that differ only at p and q: the dot product changes by those two products. */
  lemma {:induction false} DotTwoPlaces(a: seq<int>, b: seq<int>, a': seq<int>, b': seq<int>, p: nat, q: nat, k: nat)
    requires |a| == |b| == |a'| == |b'| && p < |a| && q < |a| && p != q && k <= |a|
    requires forall i :: 0 <= i < |a| && i != p && i != q ==> a[i] == a'[i] && b[i] == b'[i]
    ensures DotTo(a', b', k) - DotTo(a, b, k) ==
            (if p < k then a'[p] * b'[p] - a[p] * b[p] else 0) +
            (if q < k then a'[q] * b'[q] - a[q] * b[q] else 0)
  {
    if k > 0 {
      DotTwoPlaces(a, b, a', b', p, q, k - 1);
    }
  }

  /** The dot product is linear in its first argument. */
  lemma {:induction false} DotLinear(a: seq<int>, b: seq<int>, c: seq<int>, v: seq<int>, x: int, y: int, k: nat)
    requires |a| == |b| == |c| == |v| && k <= |a|
    requires forall i :: 0 <= i < |a| ==> c[i] == x * a[i] + y * b[i]
    ensures DotTo(c, v, k) == x * DotTo(a, v, k) + y * DotTo(b, v, k)
  {
    if k > 0 {
      DotLinear(a, b, c, v, x, y, k - 1);
      var i := k - 1;
      LinearTerm(x, a[i], y, b[i], v[i]);
      Distribute(DotTo(a, v, i), a[i] * v[i], x);
      Distribute(DotTo(b, v, i), b[i] * v[i], y);
    }
  }

  lemma {:induction false} LinearTerm(x: int, a: int, y: int, b: int, v: int)
    ensures (x * a + y * b) * v == x * (a * v) + y * (b * v)
  {
    Distribute(x * a, y * b, v);
    MulAssoc(x, a, v);
    MulAssoc(y, b, v);
  }

  lemma {:induction false} DotIdentity(n: nat, i: nat, v: seq<int>, k: nat)
    requires i < n && |v| == n && k <= n
    ensures DotTo(Identity(n)[i], v, k) == if i < k then v[i] else 0
  {
    if k > 0 { DotIdentity(n, i, v, k - 1); }
  }

  /** A row that is zero away from column d. */
  lemma {:induction false} DotSingle(a: seq<int>, v: seq<int>, d: nat, k: nat)
    requires |a| == |v| && k <= |a|
    requires forall j :: 0 <= j < |a| && j != d ==> a[j] == 0
    ensures DotTo(a, v, k) == if d < k then a[d] * v[d] else 0
  {
    if k > 0 { DotSingle(a, v, d, k - 1); }
  }

  lemma {:induction false} IdentityInjective(n: nat)
    ensures Injective(Identity(n), n)
    ensures forall v: seq<int> :: |v| == n ==> MatVec(Identity(n), v) == v
  {
    forall v: seq<int> | |v| == n ensures MatVec(Identity(n), v) == v {
      forall i | 0 <= i < n ensures MatVec(Identity(n), v)[i] == v[i] {
        DotIdentity(n, i, v, n);
      }
    }
  }

  // ----- pair identities -----------------------------------------------------------------

  /** A 2x2 integer matrix [a c; b -d] with a*d + b*c == 1 followed by its inverse: the
      products with the transformed pair are those with the original pair. */
  lemma {:induction false} PairInverse(a: int, b: int, c: int, d: int, vp: int, vq: int, wp: int, wq: int)
    requires a * d + b * c == 1
    ensures (a * vp + b * vq) * (d * wp + c * wq) + (c * vp - d * vq) * (b * wp - a * wq)
            == vp * wp + vq * wq
  {
    var z := d * wp + c * wq;
    var w := b * wp - a * wq;
    var e := a * d + b * c;
    PairSolve(a, b, c, d, wp, wq);
    assert a * z + c * w == wp && b * z - d * w == wq;
    calc {
      (a * vp + b * vq) * z + (c * vp - d * vq) * w;
      { LinearTerm(a, vp, b, vq, z); LinearTerm(c, vp, -d, vq, w); MulSigns(d, vq); MulSigns(d, vq * w); }
      a * (vp * z) + b * (vq * z) + c * (vp * w) - d * (vq * w);
      { MulAssoc(a, vp, z); MulAssoc(vp, a, z); MulAssoc(b, vq, z); MulAssoc(vq, b, z);
        MulAssoc(c, vp, w); MulAssoc(vp, c, w); MulAssoc(d, vq, w); MulAssoc(vq, d, w); }
      vp * (a * z) + vq * (b * z) + vp * (c * w) - vq * (d * w);
      { Distribute(a * z, c * w, vp); Distribute(b * z, d * w, vq); }
      vp * (a * z + c * w) + vq * (b * z - d * w);
    }
  }

  /** The pair (d*p + c*q, b*p - a*q) determines (p, q). */
  lemma {:induction false} PairSolve(a: int, b: int, c: int, d: int, p: int, q: int)
    requires a * d + b * c == 1
    ensures a * (d * p + c * q) + c * (b * p - a * q) == p
    ensures b * (d * p + c * q) - d * (b * p - a * q) == q
  {
    PairFirst(a, b, c, d, p, q);
    PairSecond(a, b, c, d, p, q);
  }

  lemma {:induction false} PairFirst(a: int, b: int, c: int, d: int, p: int, q: int)
    ensures a * (d * p + c * q) + c * (b * p - a * q) == (a * d + b * c) * p
  {}

  lemma {:induction false} PairSecond(a: int, b: int, c: int, d: int, p: int, q: int)
    ensures b * (d * p + c * q) - d * (b * p - a * q) == (a * d + b * c) * q
  {}
}
