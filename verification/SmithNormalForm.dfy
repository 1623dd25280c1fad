/** Diagonalisation of an integer matrix by unimodular row and column operations
    (SmithNormalFormDiag in src/arith/solve_linear_equation.cc). */
module SmithNormalForm {
  import opened IntOperator
  import opened PrimExprs
  import opened LinearAlgebra

  /** The four containers the algorithm rewrites: the matrix S, the column transform V, the
      vector x of expressions for V^{-1} x, and the right-hand sides y. */
  datatype State = State(S: Matrix, V: Matrix, x: seq<Expr>, y: seq<Expr>)

  ghost predicate Shaped(st: State, m: nat, n: nat) {
    Rect(st.S, m, n) && Rect(st.V, n, n) && |st.x| == n && |st.y| == m
  }

  ghost predicate RowSolved(st: State, i: nat, env: Env)
    requires i < |st.S| && i < |st.y| && |st.S[i]| == |st.x|
  {
    Dot(st.S[i], EvalAll(st.x, env)) == Eval(st.y[i], env)
  }

  /** The valuation solves S * x = y. */
  ghost predicate Solved(st: State, m: nat, n: nat, env: Env)
    requires Shaped(st, m, n)
  {
    forall i :: 0 <= i < m ==> RowSolved(st, i, env)
  }

  /** What every step of the algorithm keeps: the solutions of S * x = y, the product V * x,
      and the invertibility of V over the integers. No expression gains a variable. */
  ghost predicate Preserves(st: State, st': State, m: nat, n: nat) {
    && Shaped(st, m, n) && Shaped(st', m, n)
    && (forall env: Env :: Solved(st, m, n, env) <==> Solved(st', m, n, env))
    && (forall env: Env :: MatVec(st'.V, EvalAll(st'.x, env)) == MatVec(st.V, EvalAll(st.x, env)))
    && (Injective(st.V, n) ==> Injective(st'.V, n))
    && VarsOf(st'.x) <= VarsOf(st.x) && VarsOf(st'.y) <= VarsOf(st.y)
  }

  lemma {:induction false} PreservesTrans(s0: State, s1: State, s2: State, m: nat, n: nat)
    requires Preserves(s0, s1, m, n) && Preserves(s1, s2, m, n)
    ensures Preserves(s0, s2, m, n)
  {}

  /** Rows and columns before index are zero off the diagonal. */
  ghost predicate DiagonalTo(S: Matrix, m: nat, n: nat, index: nat)
    requires Rect(S, m, n)
  {
    forall i, j :: 0 <= i < m && 0 <= j < n && (i < index || j < index) && i != j ==> S[i][j] == 0
  }

  // ----- the four elementary operations ---------------------------------------------------

  function SwapAt<T>(s: seq<T>, i: nat, j: nat): (r: seq<T>)
    requires i < |s| && j < |s|
    ensures |r| == |s| && r[i] == s[j] && r[j] == s[i]
    ensures forall k :: 0 <= k < |s| && k != i && k != j ==> r[k] == s[k]
  {
    s[i := s[j]][j := s[i]]
  }

  /** Row exchange, with the right-hand sides. */
  function RowsSwapped(st: State, p: nat, q: nat): State
    requires p < |st.S| && q < |st.S| && |st.y| == |st.S|
  {
    st.(S := SwapAt(st.S, p, q), y := SwapAt(st.y, p, q))
  }

  function ColumnsSwapped(M: Matrix, p: nat, q: nat, from: nat): (r: Matrix)
    requires forall i :: 0 <= i < |M| ==> p < |M[i]| && q < |M[i]|
    ensures |r| == |M| && forall i :: 0 <= i < |M| ==>
              r[i] == if i < from then M[i] else SwapAt(M[i], p, q)
  {
    seq(|M|, i requires 0 <= i < |M| => if i < from then M[i] else SwapAt(M[i], p, q))
  }

  /** Column exchange of S below `from`, of all of V, and of the entries of x. */
  function VariablesSwapped(st: State, p: nat, q: nat, from: nat): State
    requires forall i :: 0 <= i < |st.S| ==> p < |st.S[i]| && q < |st.S[i]|
    requires forall i :: 0 <= i < |st.V| ==> p < |st.V[i]| && q < |st.V[i]|
    requires p < |st.x| && q < |st.x|
  {
    State(ColumnsSwapped(st.S, p, q, from), ColumnsSwapped(st.V, p, q, 0), SwapAt(st.x, p, q), st.y)
  }

  /** x * r + y * s, entry by entry from column `from` on; entries before it stay those of r. */
  function RowCombo(r: seq<int>, s: seq<int>, x: int, y: int, from: nat): (t: seq<int>)
    requires |r| == |s|
    ensures |t| == |r| && forall j :: 0 <= j < |r| ==> t[j] == if j < from then r[j] else x * r[j] + y * s[j]
  {
    seq(|r|, j requires 0 <= j < |r| => if j < from then r[j] else x * r[j] + y * s[j])
  }

  /** Replacing two entries by combinations of those two adds no variable. */
  lemma {:induction false} PairVars(es: seq<Expr>, p: nat, q: nat, op: BinOp, op': BinOp, a: int, b: int, c: int,
      d: int)
    requires p < |es| && q < |es|
    ensures VarsOf(es[p := Bin(op, Scale(a, es[p]), Scale(b, es[q]))][q := Bin(op', Scale(c, es[p]), Scale(d, es[q]))])
            <= VarsOf(es)
    ensures VarsOf(SwapAt(es, p, q)) <= VarsOf(es)
  {
    var ep, eq := Bin(op, Scale(a, es[p]), Scale(b, es[q])), Bin(op', Scale(c, es[p]), Scale(d, es[q]));
    ScaleVars(op, a, es[p], b, es[q]);
    ScaleVars(op', c, es[p], d, es[q]);
    var r := es[p := ep][q := eq];
    assert forall i :: 0 <= i < |r| ==> FreeVars(r[i]) <= VarsOf(es);
  }

  /** Row p becomes a*p + b*i and row i becomes c*p - d*i, with their right-hand sides. */
  function RowsCombined(st: State, p: nat, i: nat, a: int, b: int, c: int, d: int): State
    requires p < |st.S| && i < |st.S| && |st.y| == |st.S| && |st.S[p]| == |st.S[i]|
  {
    var yp := Bin(Add, Scale(a, st.y[p]), Scale(b, st.y[i]));
    var yi := Bin(Sub, Scale(c, st.y[p]), Scale(d, st.y[i]));
    st.(S := st.S[p := RowCombo(st.S[p], st.S[i], a, b, p)][i := RowCombo(st.S[i], st.S[p], -d, c, p)],
        y := st.y[p := yp][i := yi])
  }

  function ColumnPair(r: seq<int>, p: nat, q: nat, a: int, b: int, c: int, d: int): (t: seq<int>)
    requires p < |r| && q < |r| && p != q
    ensures |t| == |r| && t[p] == a * r[p] + b * r[q] && t[q] == c * r[p] - d * r[q]
    ensures forall k :: 0 <= k < |r| && k != p && k != q ==> t[k] == r[k]
  {
    r[p := a * r[p] + b * r[q]][q := c * r[p] - d * r[q]]
  }

  function ColumnsCombined(M: Matrix, p: nat, q: nat, a: int, b: int, c: int, d: int, from: nat): (r: Matrix)
    requires p != q && forall i :: 0 <= i < |M| ==> p < |M[i]| && q < |M[i]|
    ensures |r| == |M| && forall i :: 0 <= i < |M| ==>
              r[i] == if i < from then M[i] else ColumnPair(M[i], p, q, a, b, c, d)
  {
    seq(|M|, i requires 0 <= i < |M| => if i < from then M[i] else ColumnPair(M[i], p, q, a, b, c, d))
  }

  /** Columns p and q of S (from row p) and of V are combined; x gets the inverse transform. */
  function VariablesCombined(st: State, p: nat, q: nat, a: int, b: int, c: int, d: int): State
    requires p != q && p < |st.x| && q < |st.x|
    requires forall i :: 0 <= i < |st.S| ==> p < |st.S[i]| && q < |st.S[i]|
    requires forall i :: 0 <= i < |st.V| ==> p < |st.V[i]| && q < |st.V[i]|
  {
    var xp := Bin(Add, Scale(d, st.x[p]), Scale(c, st.x[q]));
    var xq := Bin(Sub, Scale(b, st.x[p]), Scale(a, st.x[q]));
    State(ColumnsCombined(st.S, p, q, a, b, c, d, p), ColumnsCombined(st.V, p, q, a, b, c, d, 0),
          st.x[p := xp][q := xq], st.y)
  }

  // ----- each operation preserves the system ----------------------------------------------

  lemma {:induction false} RowsSwappedPreserves(st: State, p: nat, q: nat, m: nat, n: nat)
    requires Shaped(st, m, n) && p < m && q < m
    ensures Preserves(st, RowsSwapped(st, p, q), m, n)
  {
    var st' := RowsSwapped(st, p, q);
    PairVars(st.y, p, q, Add, Add, 1, 0, 0, 1);
    forall env: Env
      ensures Solved(st, m, n, env) <==> Solved(st', m, n, env)
    {
      assert forall i :: 0 <= i < m ==> (RowSolved(st', i, env) <==>
        RowSolved(st, if i == p then q else if i == q then p else i, env));
      if Solved(st', m, n, env) {
        forall i | 0 <= i < m ensures RowSolved(st, i, env) {
          assert RowSolved(st', if i == p then q else if i == q then p else i, env);
        }
      }
    }
  }

  /** Rows before `from` are zero in both columns, so leaving them alone changes nothing. */
  lemma {:induction false} RowUnderColumns(r: seq<int>, w: seq<int>, t: seq<int>, w': seq<int>, p: nat, q: nat)
    requires |r| == |w| == |t| == |w'| && p < |r| && q < |r| && p != q
    requires forall k :: 0 <= k < |r| && k != p && k != q ==> r[k] == t[k] && w[k] == w'[k]
    requires t[p] * w'[p] + t[q] * w'[q] == r[p] * w[p] + r[q] * w[q]
    ensures Dot(t, w') == Dot(r, w)
  {
    DotTwoPlaces(r, w, t, w', p, q, |r|);
  }

  lemma {:induction false} SwappedVector(x: seq<Expr>, p: nat, q: nat, env: Env)
    requires p < |x| && q < |x|
    ensures EvalAll(SwapAt(x, p, q), env) == SwapAt(EvalAll(x, env), p, q)
  {}

  lemma {:induction false} VariablesSwappedPreserves(st: State, p: nat, q: nat, m: nat, n: nat)
    requires Shaped(st, m, n) && p < q < n
    requires DiagonalTo(st.S, m, n, p)
    ensures Preserves(st, VariablesSwapped(st, p, q, p), m, n)
  {
    var st' := VariablesSwapped(st, p, q, p);
    PairVars(st.x, p, q, Add, Add, 1, 0, 0, 1);
    forall env: Env
      ensures Solved(st, m, n, env) <==> Solved(st', m, n, env)
      ensures MatVec(st'.V, EvalAll(st'.x, env)) == MatVec(st.V, EvalAll(st.x, env))
    {
      var w, w' := EvalAll(st.x, env), EvalAll(st'.x, env);
      SwappedVector(st.x, p, q, env);
      forall i | 0 <= i < m ensures RowSolved(st, i, env) <==> RowSolved(st', i, env) {
        RowUnderColumns(st.S[i], w, st'.S[i], w', p, q);
      }
      forall i | 0 <= i < n ensures Dot(st'.V[i], w') == Dot(st.V[i], w) {
        RowUnderColumns(st.V[i], w, st'.V[i], w', p, q);
      }
    }
    if Injective(st.V, n) { SwappedInjective(st.V, p, q, n); }
  }

  lemma {:induction false} SwappedInjective(V: Matrix, p: nat, q: nat, n: nat)
    requires Rect(V, n, n) && p < q < n && Injective(V, n)
    ensures Rect(ColumnsSwapped(V, p, q, 0), n, n) && Injective(ColumnsSwapped(V, p, q, 0), n)
  {
    var V' := ColumnsSwapped(V, p, q, 0);
    forall s: seq<int>, t: seq<int> | |s| == n && |t| == n && MatVec(V', s) == MatVec(V', t)
      ensures s == t
    {
      var s', t' := SwapAt(s, p, q), SwapAt(t, p, q);
      forall i | 0 <= i < n ensures Dot(V[i], s') == Dot(V[i], t') {
        RowUnderColumns(V'[i], s, V[i], s', p, q);
        RowUnderColumns(V'[i], t, V[i], t', p, q);
        assert MatVec(V', s)[i] == MatVec(V', t)[i];
      }
      assert MatVec(V, s') == MatVec(V, t');
      assert s == SwapAt(s', p, q) && t == SwapAt(t', p, q);
    }
  }

  lemma {:induction false} RowsCombinedPreserves(st: State, p: nat, i: nat, a: int, b: int, c: int, d: int, m: nat,
      n: nat)
    requires Shaped(st, m, n) && p < i < m && a * d + b * c == 1
    requires DiagonalTo(st.S, m, n, p)
    ensures Preserves(st, RowsCombined(st, p, i, a, b, c, d), m, n)
  {
    var st' := RowsCombined(st, p, i, a, b, c, d);
    assert Shaped(st', m, n);
    PairVars(st.y, p, i, Add, Sub, a, b, c, d);
    forall env: Env
      ensures Solved(st, m, n, env) <==> Solved(st', m, n, env)
    {
      assert forall k :: 0 <= k < m && k != p && k != i ==> (RowSolved(st', k, env) <==> RowSolved(st, k, env));
      RowPairSolved(st, p, i, a, b, c, d, m, n, env);
      if Solved(st', m, n, env) {
        assert RowSolved(st', p, env) && RowSolved(st', i, env);
      }
    }
  }

  lemma {:induction false} RowPairSolved(st: State, p: nat, i: nat, a: int, b: int, c: int, d: int, m: nat, n: nat,
      env: Env)
    requires Shaped(st, m, n) && p < i < m && a * d + b * c == 1
    requires DiagonalTo(st.S, m, n, p)
    ensures var st' := RowsCombined(st, p, i, a, b, c, d);
            |st'.S[p]| == n && |st'.S[i]| == n &&
            ((RowSolved(st', p, env) && RowSolved(st', i, env)) <==> (RowSolved(st, p, env) && RowSolved(st, i, env)))
  {
    var st' := RowsCombined(st, p, i, a, b, c, d);
    var w := EvalAll(st.x, env);
    var P, I := Dot(st.S[p], w), Dot(st.S[i], w);
    var yp, yi := Eval(st.y[p], env), Eval(st.y[i], env);
    RowComboDot(st.S[p], st.S[i], w, a, b, p);
    RowComboDot(st.S[i], st.S[p], w, -d, c, p);
    MulSigns(d, I);
    ScaledEval(Add, a, st.y[p], b, st.y[i], env);
    ScaledEval(Sub, c, st.y[p], d, st.y[i], env);
    PairDetermined(a, b, c, d, P, I, yp, yi);
  }

  lemma {:induction false} RowComboDot(r: seq<int>, s: seq<int>, w: seq<int>, x: int, y: int, from: nat)
    requires |r| == |s| == |w|
    requires forall j :: 0 <= j < |r| && j < from ==> r[j] == 0 && s[j] == 0
    ensures Dot(RowCombo(r, s, x, y, from), w) == x * Dot(r, w) + y * Dot(s, w)
  {
    DotLinear(r, s, RowCombo(r, s, x, y, from), w, x, y, |r|);
  }

  /** (a*p + b*q, c*p - d*q) determines (p, q) when a*d + b*c is 1. */
  lemma {:induction false} PairDetermined(a: int, b: int, c: int, d: int, p: int, q: int, s: int, t: int)
    requires a * d + b * c == 1
    ensures (a * p + b * q == a * s + b * t && c * p - d * q == c * s - d * t) <==> (p == s && q == t)
  {
    PairBack(a, b, c, d, p, q);
    PairBack(a, b, c, d, s, t);
  }

  lemma {:induction false} PairBack(a: int, b: int, c: int, d: int, p: int, q: int)
    ensures d * (a * p + b * q) + b * (c * p - d * q) == (a * d + b * c) * p
    ensures c * (a * p + b * q) - a * (c * p - d * q) == (a * d + b * c) * q
  {}

  lemma {:induction false} VariablesCombinedPreserves(st: State, p: nat, q: nat, a: int, b: int, c: int, d: int, m: nat,
      n: nat)
    requires Shaped(st, m, n) && p < q < n && a * d + b * c == 1
    requires DiagonalTo(st.S, m, n, p)
    ensures Preserves(st, VariablesCombined(st, p, q, a, b, c, d), m, n)
  {
    var st' := VariablesCombined(st, p, q, a, b, c, d);
    PairVars(st.x, p, q, Add, Sub, d, c, b, a);
    forall env: Env
      ensures Solved(st, m, n, env) <==> Solved(st', m, n, env)
      ensures MatVec(st'.V, EvalAll(st'.x, env)) == MatVec(st.V, EvalAll(st.x, env))
    {
      ScaledEval(Add, d, st.x[p], c, st.x[q], env);
      ScaledEval(Sub, b, st.x[p], a, st.x[q], env);
      var w, w' := EvalAll(st.x, env), EvalAll(st'.x, env);
      forall i | 0 <= i < m ensures RowSolved(st, i, env) <==> RowSolved(st', i, env) {
        if i >= p { CombinedRowDot(st.S[i], w, w', p, q, a, b, c, d); }
        else { RowUnderColumns(st.S[i], w, st'.S[i], w', p, q); }
      }
      forall i | 0 <= i < n ensures Dot(st'.V[i], w') == Dot(st.V[i], w) {
        CombinedRowDot(st.V[i], w, w', p, q, a, b, c, d);
      }
    }
    if Injective(st.V, n) { CombinedInjective(st.V, p, q, a, b, c, d, n); }
  }

  lemma {:induction false} CombinedRowDot(r: seq<int>, w: seq<int>, w': seq<int>, p: nat, q: nat, a: int, b: int,
      c: int, d: int)
    requires |r| == |w| == |w'| && p < q < |r| && a * d + b * c == 1
    requires w'[p] == d * w[p] + c * w[q] && w'[q] == b * w[p] - a * w[q]
    requires forall k :: 0 <= k < |r| && k != p && k != q ==> w[k] == w'[k]
    ensures Dot(ColumnPair(r, p, q, a, b, c, d), w') == Dot(r, w)
  {
    PairInverse(a, b, c, d, r[p], r[q], w[p], w[q]);
    RowUnderColumns(r, w, ColumnPair(r, p, q, a, b, c, d), w', p, q);
  }

  lemma {:induction false} CombinedInjective(V: Matrix, p: nat, q: nat, a: int, b: int, c: int, d: int, n: nat)
    requires Rect(V, n, n) && p < q < n && a * d + b * c == 1 && Injective(V, n)
    ensures var V' := ColumnsCombined(V, p, q, a, b, c, d, 0); Rect(V', n, n) && Injective(V', n)
  {
    var V' := ColumnsCombined(V, p, q, a, b, c, d, 0);
    forall s: seq<int>, t: seq<int> | |s| == n && |t| == n && MatVec(V', s) == MatVec(V', t)
      ensures s == t
    {
      var s', t' := ColumnPair(s, p, q, a, c, b, d), ColumnPair(t, p, q, a, c, b, d);
      forall i | 0 <= i < n ensures Dot(V[i], s') == Dot(V[i], t') {
        CombinedDot(V[i], s, p, q, a, b, c, d);
        CombinedDot(V[i], t, p, q, a, b, c, d);
        assert MatVec(V', s)[i] == MatVec(V', t)[i];
      }
      assert MatVec(V, s') == MatVec(V, t');
      PairDetermined(a, c, b, d, s[p], s[q], t[p], t[q]);
      assert forall k :: 0 <= k < n && k != p && k != q ==> s[k] == s'[k] == t'[k] == t[k];
    }
  }

  lemma {:induction false} CombinedDot(r: seq<int>, s: seq<int>, p: nat, q: nat, a: int, b: int, c: int, d: int)
    requires |r| == |s| && p < q < |r|
    ensures Dot(ColumnPair(r, p, q, a, b, c, d), s) == Dot(r, ColumnPair(s, p, q, a, c, b, d))
  {
    PairMove(a, b, c, d, r[p], r[q], s[p], s[q]);
    RowUnderColumns(ColumnPair(r, p, q, a, b, c, d), s, r, ColumnPair(s, p, q, a, c, b, d), p, q);
  }

  lemma {:induction false} PairMove(a: int, b: int, c: int, d: int, vp: int, vq: int, sp: int, sq: int)
    ensures (a * vp + b * vq) * sp + (c * vp - d * vq) * sq == vp * (a * sp + c * sq) + vq * (b * sp - d * sq)
  {}

  // ----- the coefficients of a reduction step ----------------------------------------------

  /** g, a, b with g = a*pivot + b*other: Bezout's coefficients when the pivot does not divide
      the entry, and the pivot itself when it does. */
  function Reduction(pivot: int, other: int): (int, int, int)
    requires pivot != 0
  {
    if TruncMod(other, pivot) != 0 then Bezout(pivot, other) else (pivot, 1, 0)
  }

  /** The step is unimodular, clears the entry, and leaves a pivot that is no larger, and
      strictly smaller when the old one did not divide the entry. */
  lemma {:induction false} ReductionStep(pivot: int, other: int)
    requires pivot != 0
    ensures var (g, a, b) := Reduction(pivot, other);
            g != 0 && a * pivot + b * other == g &&
            a * TruncDiv(pivot, g) + b * TruncDiv(other, g) == 1 &&
            TruncDiv(other, g) * pivot - TruncDiv(pivot, g) * other == 0 &&
            Abs(g) <= Abs(pivot) &&
            (TruncMod(other, pivot) != 0 ==> Abs(g) < Abs(pivot)) &&
            (TruncMod(other, pivot) == 0 ==> TruncDiv(pivot, g) == 1)
  {
    var (g, a, b) := Reduction(pivot, other);
    RemainderZero(other, pivot);
    if TruncMod(other, pivot) != 0 {
      BezoutIdentity(pivot, other);
      GcdIsGreatest(Abs(pivot), Abs(other));
      DividesAbs(g, Abs(pivot)); DividesAbs(g, pivot);
      DividesAbs(g, Abs(other)); DividesAbs(g, other);
    } else {
      DividesIntro(pivot, 1);
    }
    assert g != 0 && Divides(g, pivot) && Divides(g, other);
    RemainderZero(pivot, g);
    RemainderZero(other, g);
    var d, c := TruncDiv(pivot, g), TruncDiv(other, g);
    UnimodularStep(g, a, b, c, d);
    DividesLe(g, pivot);
    if TruncMod(other, pivot) != 0 && Abs(g) == Abs(pivot) {
      DividesTrans(pivot, g, other);
    }
    if TruncMod(other, pivot) == 0 { TruncDivExact(1, pivot); }
  }

  lemma {:induction false} UnimodularStep(g: int, a: int, b: int, c: int, d: int)
    requires g != 0 && a * (d * g) + b * (c * g) == g
    ensures a * d + b * c == 1
    ensures c * (d * g) - d * (c * g) == 0
  {
    MulAssoc(a, d, g); MulAssoc(b, c, g);
    Distribute(a * d, b * c, g);
    if g > 0 { UnitFactor(a * d + b * c, g); }
    else { MulSigns(a * d + b * c, g); UnitFactor(a * d + b * c, -g); }
    MulAssoc(c, d, g); MulAssoc(d, c, g);
  }

  // ----- the algorithm ---------------------------------------------------------------------

  /** The loop over rows that combines columns p and q, starting at row `from`. */
  method CombineColumns(M: Matrix, p: nat, q: nat, a: int, b: int, c: int, d: int, from: nat) returns (T: Matrix)
    requires p != q && from <= |M| && forall i :: 0 <= i < |M| ==> p < |M[i]| && q < |M[i]|
    ensures T == ColumnsCombined(M, p, q, a, b, c, d, from)
  {
    T := M;
    for i := from to |M|
      invariant |T| == |M|
      invariant forall k :: 0 <= k < |M| ==>
        T[k] == if from <= k < i then ColumnPair(M[k], p, q, a, b, c, d) else M[k]
    {
      var newP := a * T[i][p] + b * T[i][q];
      var newQ := c * T[i][p] - d * T[i][q];
      T := T[i := T[i][p := newP][q := newQ]];
    }
  }

  class Diagonalizer {
    var S: Matrix
    var V: Matrix
    var x: seq<Expr>
    var y: seq<Expr>

    ghost function Now(): State
      reads this
    {
      State(S, V, x, y)
    }

    constructor (st: State)
      ensures Now() == st
    {
      S, V, x, y := st.S, st.V, st.x, st.y;
    }

    /** The row at or below index whose entry in column index is nonzero and smallest. */
    method FindPivotRow(index: nat, ghost m: nat, ghost n: nat) returns (best: nat)
      requires Rect(S, m, n) && index < m && index < n
      ensures index <= best < m
      ensures forall i :: index <= i < m && S[i][index] != 0 ==>
                S[best][index] != 0 && Abs(S[best][index]) <= Abs(S[i][index])
    {
      best := index;
      for i := index to |S|
        invariant index <= best < m
        invariant forall k :: index <= k < i && S[k][index] != 0 ==>
                    S[best][index] != 0 && Abs(S[best][index]) <= Abs(S[k][index])
      {
        var sOld, sNew := S[best][index], S[i][index];
        if sNew != 0 && (sOld == 0 || Abs(sNew) < Abs(sOld)) {
          best := i;
        }
      }
    }

    method SwapRows(p: nat, q: nat)
      requires p < |S| && q < |S| && |y| == |S|
      modifies this
      ensures Now() == RowsSwapped(old(Now()), p, q)
    {
      S := S[p := S[q]][q := S[p]];
      y := y[p := y[q]][q := y[p]];
    }

    /** Exchanges columns p and j of S below row p, of V, and the entries of x. */
    method SwapVariables(p: nat, j: nat, ghost m: nat, ghost n: nat)
      requires Shaped(Now(), m, n) && p < j < n && p < m
      modifies this
      ensures Now() == VariablesSwapped(old(Now()), p, j, p)
    {
      for i := p to |S|
        invariant V == old(V) && x == old(x) && y == old(y) && |S| == m
        invariant forall k :: 0 <= k < m ==> S[k] == if p <= k < i then SwapAt(old(S)[k], p, j) else old(S)[k]
      {
        S := S[i := S[i][p := S[i][j]][j := S[i][p]]];
      }
      x := x[p := x[j]][j := x[p]];
      for i := 0 to |V|
        invariant S == ColumnsSwapped(old(S), p, j, p) && x == SwapAt(old(x), p, j) && y == old(y) && |V| == n
        invariant forall k :: 0 <= k < n ==> V[k] == if k < i then SwapAt(old(V)[k], p, j) else old(V)[k]
      {
        V := V[i := V[i][p := V[i][j]][j := V[i][p]]];
      }
    }

    /** When column index is zero from the diagonal down, looks for a nonzero entry in row index. */
    method ChoosePivotColumn(index: nat, ghost m: nat, ghost n: nat)
      requires Shaped(Now(), m, n) && index < m && index < n
      requires DiagonalTo(S, m, n, index) && forall i :: index <= i < m ==> S[i][index] == 0
      modifies this
      ensures Preserves(old(Now()), Now(), m, n)
      ensures DiagonalTo(S, m, n, index)
      ensures S[index][index] == 0 ==> DiagonalTo(S, m, n, index + 1)
    {
      var j := index + 1;
      while j < |S[index]|
        invariant index < j <= n && Now() == old(Now())
        invariant forall k :: index < k < j ==> S[index][k] == 0
      {
        if S[index][j] != 0 {
          VariablesSwappedPreserves(Now(), index, j, m, n);
          SwapVariables(index, j, m, n);
          return;
        }
        j := j + 1;
      }
    }

    /** Brings a nonzero entry of row or column index to the diagonal if there is one. */
    method ChoosePivot(index: nat, ghost m: nat, ghost n: nat)
      requires Shaped(Now(), m, n) && index < m && index < n
      requires DiagonalTo(S, m, n, index)
      modifies this
      ensures Preserves(old(Now()), Now(), m, n)
      ensures DiagonalTo(S, m, n, index)
      ensures S[index][index] == 0 ==> DiagonalTo(S, m, n, index + 1)
      ensures old(S)[index][index] != 0 ==>
                S[index][index] != 0 && Abs(S[index][index]) <= Abs(old(S)[index][index])
    {
      var best := FindPivotRow(index, m, n);
      RowsSwappedPreserves(Now(), index, best, m, n);
      SwapRows(index, best);
      ghost var mid := Now();
      if S[index][index] == 0 {
        ChoosePivotColumn(index, m, n);
        PreservesTrans(old(Now()), mid, Now(), m, n);
      }
    }

    /** Combines rows index and i so that S[i][index] becomes zero. */
    method ReduceRow(index: nat, i: nat, ghost m: nat, ghost n: nat)
      requires Shaped(Now(), m, n) && index < i < m && index < n && S[index][index] != 0
      modifies this
      ensures var (g, a, b) := Reduction(old(S)[index][index], old(S)[i][index]);
              g != 0 && Now() == RowsCombined(old(Now()), index, i, a, b,
                TruncDiv(old(S)[i][index], g), TruncDiv(old(S)[index][index], g))
    {
      ReductionStep(S[index][index], S[i][index]);
      var g, a, b;
      if TruncMod(S[i][index], S[index][index]) != 0 {
        g, a, b := ExtendedEuclidean(S[index][index], S[i][index]);
      } else {
        g, a, b := S[index][index], 1, 0;
      }
      var mg, ng := TruncDiv(S[index][index], g), TruncDiv(S[i][index], g);
      ghost var P, I := S[index], S[i];
      for j := index to |S[i]|
        invariant V == old(V) && x == old(x) && y == old(y) && |S| == m
        invariant forall k :: 0 <= k < m && k != index && k != i ==> S[k] == old(S)[k]
        invariant |S[index]| == n && |S[i]| == n
        invariant forall k :: 0 <= k < n ==> S[index][k] == if index <= k < j then a * P[k] + b * I[k] else P[k]
        invariant forall k :: 0 <= k < n ==> S[i][k] == if index <= k < j then -mg * I[k] + ng * P[k] else I[k]
      {
        var newIndex := a * S[index][j] + b * S[i][j];
        var newI := ng * S[index][j] - mg * S[i][j];
        MulSigns(mg, I[j]);
        S := S[index := S[index][j := newIndex]];
        S := S[i := S[i][j := newI]];
      }
      var yp := Bin(Add, Scale(a, y[index]), Scale(b, y[i]));
      var yi := Bin(Sub, Scale(ng, y[index]), Scale(mg, y[i]));
      y := y[index := yp][i := yi];
      assert S[index] == RowCombo(P, I, a, b, index) && S[i] == RowCombo(I, P, -mg, ng, index);
      assert S == old(S)[index := S[index]][i := S[i]];
    }

    /** Combines columns index and j so that S[index][j] becomes zero. */
    method ReduceColumn(index: nat, j: nat, ghost m: nat, ghost n: nat)
      requires Shaped(Now(), m, n) && index < j < n && index < m && S[index][index] != 0
      modifies this
      ensures var (g, a, b) := Reduction(old(S)[index][index], old(S)[index][j]);
              g != 0 && Now() == VariablesCombined(old(Now()), index, j, a, b,
                TruncDiv(old(S)[index][j], g), TruncDiv(old(S)[index][index], g))
    {
      ReductionStep(S[index][index], S[index][j]);
      var g, a, b;
      if TruncMod(S[index][j], S[index][index]) != 0 {
        g, a, b := ExtendedEuclidean(S[index][index], S[index][j]);
      } else {
        g, a, b := S[index][index], 1, 0;
      }
      var mg, ng := TruncDiv(S[index][index], g), TruncDiv(S[index][j], g);
      S := CombineColumns(S, index, j, a, b, ng, mg, index);
      V := CombineColumns(V, index, j, a, b, ng, mg, 0);
      var xp := Bin(Add, Scale(mg, x[index]), Scale(ng, x[j]));
      var xq := Bin(Sub, Scale(b, x[index]), Scale(a, x[j]));
      x := x[index := xp][j := xq];
    }

    /** Zeroes column index below the diagonal; the pivot only shrinks. */
    method ClearColumn(index: nat, ghost m: nat, ghost n: nat)
      requires Shaped(Now(), m, n) && index < m && index < n
      requires DiagonalTo(S, m, n, index) && S[index][index] != 0
      modifies this
      ensures Preserves(old(Now()), Now(), m, n)
      ensures DiagonalTo(S, m, n, index)
      ensures S[index][index] != 0 && Abs(S[index][index]) <= Abs(old(S)[index][index])
      ensures forall k :: index < k < m ==> S[k][index] == 0
    {
      for i := index + 1 to |S|
        invariant Preserves(old(Now()), Now(), m, n)
        invariant DiagonalTo(S, m, n, index)
        invariant S[index][index] != 0 && Abs(S[index][index]) <= Abs(old(S)[index][index])
        invariant forall k :: index < k < i ==> S[k][index] == 0
      {
        if S[i][index] != 0 {
          ghost var st := Now();
          RowReduced(st, index, i, m, n);
          ReduceRow(index, i, m, n);
          PreservesTrans(old(Now()), st, Now(), m, n);
        }
      }
    }

    /** Zeroes row index right of the diagonal. Reports whether column index may have been
        disturbed; then the pivot got strictly smaller. */
    method ClearRow(index: nat, ghost m: nat, ghost n: nat) returns (changed: bool)
      requires Shaped(Now(), m, n) && index < m && index < n
      requires DiagonalTo(S, m, n, index) && S[index][index] != 0
      requires forall k :: index < k < m ==> S[k][index] == 0
      modifies this
      ensures Preserves(old(Now()), Now(), m, n)
      ensures DiagonalTo(S, m, n, index) && S[index][index] != 0
      ensures changed ==> Abs(S[index][index]) < Abs(old(S)[index][index])
      ensures !changed ==> DiagonalTo(S, m, n, index + 1)
    {
      changed := false;
      for j := index + 1 to |S[index]|
        invariant Preserves(old(Now()), Now(), m, n)
        invariant DiagonalTo(S, m, n, index) && S[index][index] != 0
        invariant Abs(S[index][index]) <= Abs(old(S)[index][index])
        invariant changed ==> Abs(S[index][index]) < Abs(old(S)[index][index])
        invariant !changed ==> forall k :: index < k < m ==> S[k][index] == 0
        invariant forall k :: index < k < j ==> S[index][k] == 0
      {
        if S[index][j] != 0 {
          ghost var st := Now();
          ColumnReduced(st, index, j, m, n);
          if TruncMod(S[index][j], S[index][index]) != 0 { changed := true; }
          ReduceColumn(index, j, m, n);
          PreservesTrans(old(Now()), st, Now(), m, n);
        }
      }
    }

    /** SmithNormalFormDiag. The index stays put after a disturbed round, and the loop still
        ends: each such round leaves a nonzero pivot of smaller magnitude. */
    method Diagonalize(ghost m: nat, ghost n: nat)
      requires Shaped(Now(), m, n)
      modifies this
      ensures Preserves(old(Now()), Now(), m, n)
      ensures forall i, j :: 0 <= i < m && 0 <= j < n && i != j ==> S[i][j] == 0
    {
      if |S| == 0 || |V| == 0 { return; }
      var bound := Min(|S|, |S[0]|);
      var index := 0;
      while index < bound
        invariant 0 <= index <= bound
        invariant Preserves(old(Now()), Now(), m, n)
        invariant DiagonalTo(S, m, n, index)
        decreases bound - index,
                  if index < bound && S[index][index] == 0 then 1 else 0,
                  if index < bound then Abs(S[index][index]) else 0
      {
        ghost var s0 := Now();
        ChoosePivot(index, m, n);
        ghost var s1 := Now();
        PreservesTrans(old(Now()), s0, s1, m, n);
        if S[index][index] == 0 {
          index := index + 1;
          continue;
        }
        ClearColumn(index, m, n);
        ghost var s2 := Now();
        PreservesTrans(old(Now()), s1, s2, m, n);
        var changed := ClearRow(index, m, n);
        PreservesTrans(old(Now()), s2, Now(), m, n);
        if changed {
          index := index - 1;
        }
        index := index + 1;
      }
    }
  }

  /** One row reduction: what ClearColumn's loop keeps. */
  lemma {:induction false} RowReduced(st: State, index: nat, i: nat, m: nat, n: nat)
    requires Shaped(st, m, n) && index < i < m && index < n && st.S[index][index] != 0
    requires DiagonalTo(st.S, m, n, index)
    ensures var (g, a, b) := Reduction(st.S[index][index], st.S[i][index]);
            g != 0 &&
            var st' := RowsCombined(st, index, i, a, b, TruncDiv(st.S[i][index], g), TruncDiv(st.S[index][index], g));
            Preserves(st, st', m, n) && DiagonalTo(st'.S, m, n, index) &&
            st'.S[index][index] == g && Abs(g) <= Abs(st.S[index][index]) && st'.S[i][index] == 0
  {
    var (g, a, b) := Reduction(st.S[index][index], st.S[i][index]);
    ReductionStep(st.S[index][index], st.S[i][index]);
    var c, d := TruncDiv(st.S[i][index], g), TruncDiv(st.S[index][index], g);
    RowsCombinedPreserves(st, index, i, a, b, c, d, m, n);
    var st' := RowsCombined(st, index, i, a, b, c, d);
    MulSigns(d, st.S[i][index]);
    CombinedRowsDiagonal(st, index, i, a, b, c, d, m, n);
  }

  lemma {:induction false} CombinedRowsDiagonal(st: State, p: nat, i: nat, a: int, b: int, c: int, d: int, m: nat,
      n: nat)
    requires Shaped(st, m, n) && p < i < m && p < n && DiagonalTo(st.S, m, n, p)
    ensures Rect(RowsCombined(st, p, i, a, b, c, d).S, m, n)
    ensures DiagonalTo(RowsCombined(st, p, i, a, b, c, d).S, m, n, p)
  {
    var T := RowsCombined(st, p, i, a, b, c, d).S;
    assert forall k :: 0 <= k < m && k != p && k != i ==> T[k] == st.S[k];
    assert forall j :: 0 <= j < p ==> T[p][j] == st.S[p][j] && T[i][j] == st.S[i][j];
  }

  /** One column reduction: what ClearRow's loop keeps. */
  lemma {:induction false} ColumnReduced(st: State, index: nat, j: nat, m: nat, n: nat)
    requires Shaped(st, m, n) && index < j < n && index < m && st.S[index][index] != 0
    requires DiagonalTo(st.S, m, n, index)
    ensures var (g, a, b) := Reduction(st.S[index][index], st.S[index][j]);
            g != 0 &&
            var st' := VariablesCombined(st, index, j, a, b, TruncDiv(st.S[index][j], g),
                TruncDiv(st.S[index][index], g));
            Preserves(st, st', m, n) && DiagonalTo(st'.S, m, n, index) &&
            st'.S[index][index] == g && st'.S[index][j] == 0 && Abs(g) <= Abs(st.S[index][index]) &&
            (forall k :: 0 <= k < n && k != index && k != j ==> st'.S[index][k] == st.S[index][k]) &&
            (if TruncMod(st.S[index][j], st.S[index][index]) != 0 then Abs(g) < Abs(st.S[index][index])
             else forall k :: 0 <= k < m ==> st'.S[k][index] == st.S[k][index])
  {
    var (g, a, b) := Reduction(st.S[index][index], st.S[index][j]);
    ReductionStep(st.S[index][index], st.S[index][j]);
    var c, d := TruncDiv(st.S[index][j], g), TruncDiv(st.S[index][index], g);
    VariablesCombinedPreserves(st, index, j, a, b, c, d, m, n);
    CombinedColumnsDiagonal(st, index, j, a, b, c, d, m, n);
  }

  lemma {:induction false} CombinedColumnsDiagonal(st: State, p: nat, q: nat, a: int, b: int, c: int, d: int, m: nat,
      n: nat)
    requires Shaped(st, m, n) && p < q < n && p < m && DiagonalTo(st.S, m, n, p)
    ensures var T := ColumnsCombined(st.S, p, q, a, b, c, d, p); Rect(T, m, n) && DiagonalTo(T, m, n, p)
  {}
}
