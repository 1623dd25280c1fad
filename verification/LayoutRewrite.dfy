/** Layout rewriting of a placeholder (IndexRewriter and the stride part of RewriteLayout in
    src/auto_scheduler/compute_dag.cc). Index expressions are modelled by their values. */
module LayoutRewrite {
  import opened IntOperator
  import opened Wrappers

  /** The new layout: for every new axis the original axis it is part of, and its extent. */
  datatype Layout = Layout(names: seq<string>, shape: seq<int>)

  ghost predicate Positive(l: Layout) {
    |l.names| == |l.shape| && forall i :: 0 <= i < |l.shape| ==> l.shape[i] > 0
  }

  /** The product of the extents of axis a from place i on. */
  function Weight(l: Layout, a: string, i: nat): (w: int)
    requires |l.names| == |l.shape| && i <= |l.shape|
    decreases |l.shape| - i
  {
    if i == |l.shape| then 1
    else if l.names[i] == a then Weight(l, a, i + 1) * l.shape[i]
    else Weight(l, a, i + 1)
  }

  lemma {:induction false} WeightPositive(l: Layout, a: string, i: nat)
    requires Positive(l) && i <= |l.shape|
    ensures Weight(l, a, i) > 0
    decreases |l.shape| - i
  {
    if i < |l.shape| {
      WeightPositive(l, a, i + 1);
      if l.names[i] == a { ProductPositive(Weight(l, a, i + 1), l.shape[i]); }
    }
  }

  /** The digit at place i of the original indices. */
  function DigitAt(l: Layout, args: map<string, int>, i: nat): int
    requires |l.names| == |l.shape| && i < |l.shape| && l.names[i] in args
  {
    var w := Weight(l, l.names[i], i + 1);
    if w == 0 || l.shape[i] == 0 then 0 else FloorMod(FloorDiv(args[l.names[i]], w), l.shape[i])
  }

  /** The original index of axis a: indices times strides, from place i on. */
  function StrideSum(l: Layout, indices: seq<int>, a: string, i: nat): int
    requires |l.names| == |l.shape| == |indices| && i <= |l.shape|
    decreases |l.shape| - i
  {
    if i == |l.shape| then 0
    else (if l.names[i] == a then indices[i] * Weight(l, a, i + 1) else 0) + StrideSum(l, indices, a, i + 1)
  }

  ghost predicate InBounds(l: Layout, indices: seq<int>) {
    |indices| == |l.shape| && forall i :: 0 <= i < |indices| ==> 0 <= indices[i] < l.shape[i]
  }

  ghost predicate Covered(l: Layout, args: map<string, int>) {
    |l.names| == |l.shape| && forall i :: 0 <= i < |l.names| ==> l.names[i] in args
  }

  /** Every original index is below the product of its new extents. */
  ghost predicate ArgsInBounds(l: Layout, args: map<string, int>)
    requires |l.names| == |l.shape|
  {
    forall a :: a in args ==> 0 <= args[a] < Weight(l, a, 0)
  }

  ghost predicate AreDigits(l: Layout, args: map<string, int>, indices: seq<int>)
    requires Covered(l, args)
  {
    |indices| == |l.shape| && forall i :: 0 <= i < |indices| ==> indices[i] == DigitAt(l, args, i)
  }

  // ----- there and back ----------------------------------------------------------------------

  lemma {:induction false} DigitInBounds(l: Layout, args: map<string, int>, i: nat)
    requires Positive(l) && Covered(l, args) && i < |l.shape|
    ensures 0 <= DigitAt(l, args, i) < l.shape[i]
  {
    WeightPositive(l, l.names[i], i + 1);
    FloorModBound(FloorDiv(args[l.names[i]], Weight(l, l.names[i], i + 1)), l.shape[i]);
  }

  /** The digits from place i on add up to the index modulo the weight there. */
  lemma {:induction false} DigitsAddUp(l: Layout, args: map<string, int>, indices: seq<int>, a: string, i: nat)
    requires Positive(l) && Covered(l, args) && AreDigits(l, args, indices) && a in args && i <= |l.shape|
    ensures Weight(l, a, i) > 0 && StrideSum(l, indices, a, i) == args[a] % Weight(l, a, i)
    decreases |l.shape| - i
  {
    WeightPositive(l, a, i);
    if i < |l.shape| {
      DigitsAddUp(l, args, indices, a, i + 1);
      if l.names[i] == a {
        var w := Weight(l, a, i + 1);
        EuclidNested(args[a], w, l.shape[i]);
        FloorIsEuclid(args[a], w);
        FloorIsEuclid(args[a] / w, l.shape[i]);
      }
    } else {
      DivModUnique(args[a], 1, args[a], 0);
    }
  }

  /** Rewriting, then summing by strides, gives every original index back. */
  lemma {:induction false} RewriteThenSum(l: Layout, args: map<string, int>, indices: seq<int>, a: string)
    requires Positive(l) && Covered(l, args) && ArgsInBounds(l, args) && AreDigits(l, args, indices) && a in args
    ensures StrideSum(l, indices, a, 0) == args[a]
  {
    DigitsAddUp(l, args, indices, a, 0);
    DivModUnique(args[a], Weight(l, a, 0), 0, args[a]);
  }

  // ----- back and there ----------------------------------------------------------------------

  lemma {:induction false} StrideSumBound(l: Layout, indices: seq<int>, a: string, i: nat)
    requires Positive(l) && InBounds(l, indices) && i <= |l.shape|
    ensures 0 <= StrideSum(l, indices, a, i) < Weight(l, a, i)
    decreases |l.shape| - i
  {
    if i < |l.shape| {
      StrideSumBound(l, indices, a, i + 1);
      if l.names[i] == a {
        var w := Weight(l, a, i + 1);
        WeightPositive(l, a, i + 1);
        MulLe(0, indices[i], w);
        MulLe(indices[i], l.shape[i] - 1, w);
        Distribute(l.shape[i], 1, w);
      }
    }
  }

  /** What lies before place i is a multiple of the weight there. */
  lemma {:induction false} HigherPart(l: Layout, indices: seq<int>, a: string, i: nat) returns (k: int)
    requires Positive(l) && InBounds(l, indices) && i <= |l.shape|
    ensures StrideSum(l, indices, a, 0) == k * Weight(l, a, i) + StrideSum(l, indices, a, i)
  {
    if i == 0 {
      k := 0;
    } else {
      var j := HigherPart(l, indices, a, i - 1);
      if l.names[i - 1] == a {
        var w := Weight(l, a, i);
        k := j * l.shape[i - 1] + indices[i - 1];
        MulAssoc(j, l.shape[i - 1], w);
        Distribute(j * l.shape[i - 1], indices[i - 1], w);
        assert j * (w * l.shape[i - 1]) == (j * l.shape[i - 1]) * w;
      } else {
        k := j;
      }
    }
  }

  /** Summing by strides, then rewriting, gives every new index back. */
  lemma {:induction false} SumThenRewrite(l: Layout, indices: seq<int>, args: map<string, int>, i: nat)
    requires Positive(l) && InBounds(l, indices) && Covered(l, args) && i < |l.shape|
    requires forall a :: a in args ==> args[a] == StrideSum(l, indices, a, 0)
    ensures DigitAt(l, args, i) == indices[i]
  {
    var a := l.names[i];
    var w := Weight(l, a, i + 1);
    WeightPositive(l, a, i + 1);
    StrideSumBound(l, indices, a, i + 1);
    var k := HigherPart(l, indices, a, i);
    var low := StrideSum(l, indices, a, i + 1);
    assert args[a] == k * (w * l.shape[i]) + (indices[i] * w + low);
    MulAssoc(k, l.shape[i], w);
    Distribute(k * l.shape[i], indices[i], w);
    DivModUnique(args[a], w, k * l.shape[i] + indices[i], low);
    DivModUnique(args[a] / w, l.shape[i], k, indices[i]);
    FloorIsEuclid(args[a], w);
    FloorIsEuclid(args[a] / w, l.shape[i]);
  }

  // ----- the loops ---------------------------------------------------------------------------

  function Factor(factors: map<string, int>, a: string): int { if a in factors then factors[a] else 1 }

  /** IndexRewriter's loop, from the last new axis back; None when an axis has no argument. */
  method RewriteIndices(l: Layout, args: map<string, int>) returns (r: Option<seq<int>>)
    requires Positive(l)
    ensures r.Some? <==> Covered(l, args)
    ensures r.Some? ==> AreDigits(l, args, r.value) && InBounds(l, r.value)
  {
    var n := |l.names|;
    var factors: map<string, int> := map[];
    var reversed: seq<int> := [];
    for i := n downto 0
      invariant |reversed| == n - i
      invariant forall j :: i <= j < n ==> l.names[j] in args
      invariant forall j :: i <= j < n ==> reversed[n - 1 - j] == DigitAt(l, args, j)
      invariant forall a :: Factor(factors, a) == Weight(l, a, i)
    {
      var a := l.names[i];
      if a !in args { return None; }
      var factor := Factor(factors, a);
      WeightPositive(l, a, i + 1);
      factors := factors[a := factor * l.shape[i]];
      reversed := reversed + [FloorMod(FloorDiv(args[a], factor), l.shape[i])];
    }
    var digits := seq(n, i requires 0 <= i < n => reversed[n - 1 - i]);
    forall i | 0 <= i < n
      ensures 0 <= digits[i] < l.shape[i] && digits[i] == DigitAt(l, args, i)
    {
      DigitInBounds(l, args, i);
    }
    return Some(digits);
  }

  /** The strides of the new axes, from the last one back. */
  method NewStrides(l: Layout, axes: seq<string>) returns (strides: seq<int>)
    requires Positive(l) && forall i :: 0 <= i < |l.names| ==> l.names[i] in axes
    ensures |strides| == |l.shape| && forall i :: 0 <= i < |strides| ==> strides[i] == Weight(l, l.names[i], i + 1)
  {
    var n := |l.shape|;
    var stride := map a | a in axes :: 1;
    strides := seq(n, _ => 0);
    for i := n downto 0
      invariant |strides| == n && stride.Keys == set a | a in axes
      invariant forall a :: a in axes ==> stride[a] == Weight(l, a, i)
      invariant forall j :: i <= j < n ==> strides[j] == Weight(l, l.names[j], j + 1)
    {
      var a := l.names[i];
      strides := strides[i := stride[a]];
      stride := stride[a := stride[a] * l.shape[i]];
    }
  }

  /** The transform stage: where the original placeholder is read for the new indices. */
  method AccessIndices(l: Layout, axes: seq<string>, strides: seq<int>, indices: seq<int>) returns (access: seq<int>)
    requires |l.names| == |l.shape| == |strides| == |indices|
    requires forall i :: 0 <= i < |strides| ==> strides[i] == Weight(l, l.names[i], i + 1)
    ensures |access| == |axes| && forall j :: 0 <= j < |axes| ==> access[j] == StrideSum(l, indices, axes[j], 0)
  {
    access := [];
    for j := 0 to |axes|
      invariant |access| == j && forall p :: 0 <= p < j ==> access[p] == StrideSum(l, indices, axes[p], 0)
    {
      var temp := 0;
      for i := 0 to |l.shape|
        invariant temp + StrideSum(l, indices, axes[j], i) == StrideSum(l, indices, axes[j], 0)
      {
        if axes[j] == l.names[i] { temp := temp + indices[i] * strides[i]; }
      }
      access := access + [temp];
    }
  }

  /** A read of the rewritten placeholder reads what the original read did. */
  method ReadThrough(l: Layout, axes: seq<string>, args: map<string, int>) returns (access: Option<seq<int>>)
    requires Positive(l) && (forall i :: 0 <= i < |l.names| ==> l.names[i] in axes)
    requires (forall j :: 0 <= j < |axes| ==> axes[j] in args) && ArgsInBounds(l, args)
    ensures access.Some? && |access.value| == |axes| && forall j :: 0 <= j < |axes| ==> access.value[j] == args[axes[j]]
  {
    var digits := RewriteIndices(l, args);
    assert Covered(l, args);
    var strides := NewStrides(l, axes);
    var found := AccessIndices(l, axes, strides, digits.value);
    forall j | 0 <= j < |axes| ensures found[j] == args[axes[j]] { RewriteThenSum(l, args, digits.value, axes[j]); }
    access := Some(found);
  }

  /** And every new index is read from exactly one place: reading there and rewriting returns it. */
  method WriteThrough(l: Layout, axes: seq<string>, indices: seq<int>) returns (digits: Option<seq<int>>)
    requires Positive(l) && InBounds(l, indices) && (forall i :: 0 <= i < |l.names| ==> l.names[i] in axes)
    ensures digits == Some(indices)
  {
    var strides := NewStrides(l, axes);
    var access := AccessIndices(l, axes, strides, indices);
    var args := AsArgs(axes, access);
    digits := RewriteIndices(l, args);
    forall a | a in args ensures args[a] == StrideSum(l, indices, a, 0) {}
    assert Covered(l, args);
    forall i | 0 <= i < |indices| ensures digits.value[i] == indices[i] { SumThenRewrite(l, indices, args, i); }
    assert digits.value == indices;
  }

  /** The arguments by axis name. */
  method AsArgs(axes: seq<string>, values: seq<int>) returns (args: map<string, int>)
    requires |axes| == |values|
    ensures forall a :: a in args <==> a in axes
    ensures forall a :: a in args ==> exists j :: 0 <= j < |axes| && axes[j] == a && values[j] == args[a]
  {
    args := map[];
    for j := 0 to |axes|
      invariant forall a :: a in args <==> a in axes[..j]
      invariant forall a :: a in args ==> exists p :: 0 <= p < j && axes[p] == a && values[p] == args[a]
    {
      args := args[axes[j] := values[j]];
    }
  }
}
