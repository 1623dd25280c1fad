/** Mixed-radix numbers: the arithmetic behind fused and split iterators. Weights run from the
    outermost digit to the innermost. */
module MixedRadix {
  import opened IntOperator

  /** w and e are the weights and extents of a mixed-radix system with values in [0, total):
      the innermost weight is 1 and each weight is the next weight times the next extent. */
  ghost predicate Radix(w: seq<int>, e: seq<int>, total: int) {
    && |w| == |e| && |w| > 0
    && (forall k :: 0 <= k < |e| ==> e[k] > 0)
    && w[|w| - 1] == 1
    && (forall k :: 0 <= k < |w| - 1 ==> StepAt(w, e, k))
    && total == w[0] * e[0]
  }

  ghost predicate StepAt(w: seq<int>, e: seq<int>, k: nat)
    requires |w| == |e| && k + 1 < |w|
  {
    w[k] == w[k + 1] * e[k + 1]
  }

  ghost predicate DigitsIn(d: seq<int>, e: seq<int>) {
    |d| == |e| && forall k :: 0 <= k < |d| ==> 0 <= d[k] < e[k]
  }

  /** The digit of weight w and extent e of x. */
  function Digit(x: int, w: int, e: int): int
    requires w > 0 && e > 0
  {
    (x / w) % e
  }

  /** The number with the given digits. */
  function Value(d: seq<int>, w: seq<int>): int
    requires |d| == |w|
  {
    if |d| == 0 then 0 else d[0] * w[0] + Value(d[1..], w[1..])
  }

  lemma {:induction false} WeightsPositive(w: seq<int>, e: seq<int>, total: int, k: nat)
    requires Radix(w, e, total) && k < |w|
    ensures w[k] > 0
    decreases |w| - k
  {
    if k < |w| - 1 {
      WeightsPositive(w, e, total, k + 1);
      assert StepAt(w, e, k);
      ProductPositive(w[k + 1], e[k + 1]);
    }
  }

  /** Dropping the outermost digit leaves a system with values below the dropped weight. */
  lemma {:induction false} RadixTail(w: seq<int>, e: seq<int>, total: int)
    requires Radix(w, e, total) && |w| > 1
    ensures Radix(w[1..], e[1..], w[0])
  {
    var w', e' := w[1..], e[1..];
    assert StepAt(w, e, 0);
    forall k | 0 <= k < |w'| - 1 ensures StepAt(w', e', k) { assert StepAt(w, e, k + 1); }
  }

  /** Every digit's weight times extent divides the total. */
  lemma {:induction false} RadixDivides(w: seq<int>, e: seq<int>, total: int, k: nat)
    requires Radix(w, e, total) && k < |w|
    ensures Divides(w[k] * e[k], total)
    decreases k
  {
    if k == 0 {
      DividesIntro(w[0] * e[0], 1);
    } else {
      RadixTail(w, e, total);
      RadixDivides(w[1..], e[1..], w[0], k - 1);
      DividesIntro(w[0], e[0]);
      DividesTrans(w[k] * e[k], w[0], total);
    }
  }

  /** Adding a multiple of w*e does not change the digit of weight w and extent e. */
  lemma {:induction false} DigitPeriodic(x: int, w: int, e: int, c: int)
    requires w > 0 && e > 0 && Divides(w * e, c)
    ensures Digit(x + c, w, e) == Digit(x, w, e)
  {
    var k := DividesElim(w * e, c);
    var q, r := x / w, x % w;
    var q', r' := q / e, q % e;
    assert x + c == (q + k * e) * w + r by { Distribute(q, k * e, w); MulAssoc(k, e, w); }
    DivModUnique(x + c, w, q + k * e, r);
    assert q + k * e == (q' + k) * e + r' by { Distribute(q', k, e); }
    DivModUnique(q + k * e, e, q' + k, r');
  }

  /** Reading off all digits and putting them together gives the number back. */
  lemma {:induction false} ValueOfDigits(x: int, d: seq<int>, w: seq<int>, e: seq<int>, total: int)
    requires Radix(w, e, total) && 0 <= x < total && |d| == |w|
    requires forall k :: 0 <= k < |w| ==> w[k] > 0 && d[k] == Digit(x, w[k], e[k])
    ensures Value(d, w) == x && DigitsIn(d, e)
    decreases |w|
  {
    var q, r := x / w[0], x % w[0];
    QuotientBelow(x, w[0], e[0]);
    DivModUnique(q, e[0], 0, q);
    assert x == q * w[0] + r;
    if |w| > 1 {
      RadixTail(w, e, total);
      forall k | 0 <= k < |w| - 1 ensures d[1..][k] == Digit(r, w[1..][k], e[1..][k]) {
        RadixDivides(w[1..], e[1..], w[0], k);
        DividesIntro(w[0], q);
        DividesTrans(w[k + 1] * e[k + 1], w[0], q * w[0]);
        DigitPeriodic(r, w[k + 1], e[k + 1], q * w[0]);
      }
      ValueOfDigits(r, d[1..], w[1..], e[1..], w[0]);
      assert forall k :: 1 <= k < |d| ==> d[k] == d[1..][k - 1] && e[k] == e[1..][k - 1];
    } else {
      assert d[1..] == [] && w[1..] == [];
    }
  }

  lemma {:induction false} QuotientBelow(x: int, w: int, e: int)
    requires w > 0 && 0 <= x < w * e
    ensures 0 <= x / w < e
  {
    var q := x / w;
    assert x == q * w + x % w;
    if q < 0 { MulLe(q, -1, w); }
    if q >= e { MulLe(e, q, w); }
  }

  /** Putting digits together gives a number below the total whose digits are those. */
  lemma {:induction false} DigitsOfValue(d: seq<int>, w: seq<int>, e: seq<int>, total: int)
    requires Radix(w, e, total) && DigitsIn(d, e)
    ensures 0 <= Value(d, w) < total
    ensures forall k :: 0 <= k < |w| ==> w[k] > 0 && Digit(Value(d, w), w[k], e[k]) == d[k]
    decreases |w|
  {
    WeightsPositive(w, e, total, 0);
    var rest := Value(d[1..], w[1..]);
    var x := Value(d, w);
    if |w| > 1 {
      RadixTail(w, e, total);
      assert DigitsIn(d[1..], e[1..]);
      DigitsOfValue(d[1..], w[1..], e[1..], w[0]);
    } else {
      assert d[1..] == [] && w[1..] == [];
    }
    assert 0 <= rest < w[0];
    MulLe(0, d[0], w[0]);
    MulLe(d[0] + 1, e[0], w[0]);
    Distribute(d[0], 1, w[0]);
    DivModUnique(x, w[0], d[0], rest);
    DivModUnique(d[0], e[0], 0, d[0]);
    forall k | 0 <= k < |w| ensures w[k] > 0 && Digit(x, w[k], e[k]) == d[k] {
      if k > 0 {
        assert w[1..][k - 1] == w[k] && e[1..][k - 1] == e[k] && d[1..][k - 1] == d[k];
        RadixDivides(w[1..], e[1..], w[0], k - 1);
        DividesIntro(w[0], d[0]);
        DividesTrans(w[k] * e[k], w[0], d[0] * w[0]);
        DigitPeriodic(rest, w[k], e[k], d[0] * w[0]);
      }
    }
  }
}
