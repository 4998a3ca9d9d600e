/**
 * Aggregation of the per-token confidences the OCR engine reports: tokens
 * with a confidence of zero or below carry no text and are dropped, and the
 * rest are averaged. The average is an exact quotient; its rounding to two
 * decimals is not modelled.
 */
module Confidence {

  /** The confidences that count: those strictly greater than zero,
      each as many times as it occurs. */
  function Positive(cs: seq<int>): (ps: seq<int>)
    ensures |ps| <= |cs|
    ensures forall i :: 0 <= i < |ps| ==> ps[i] > 0
    ensures forall c :: c in ps <==> c in cs && c > 0
    ensures forall c :: multiset(ps)[c] == (if c > 0 then multiset(cs)[c] else 0)
  {
    if cs == [] then []
    else
      assert cs == [cs[0]] + cs[1..];
      (if cs[0] > 0 then [cs[0]] else []) + Positive(cs[1..])
  }

  function Sum(s: seq<int>): int {
    if s == [] then 0 else s[0] + Sum(s[1..])
  }

  /** The mean of the positive confidences, or exactly 0 when there are none. */
  function Average(cs: seq<int>): real {
    var ps := Positive(cs);
    if ps == [] then 0.0 else (Sum(ps) as real) / (|ps| as real)
  }

  /** Every confidence is at most 100, as the engine reports them. */
  predicate InEngineRange(cs: seq<int>) {
    forall i :: 0 <= i < |cs| ==> cs[i] <= 100
  }

  lemma {:induction false} PositiveAppend(a: seq<int>, b: seq<int>)
    ensures Positive(a + b) == Positive(a) + Positive(b)
    decreases |a|
  {
    if a == [] {
      assert a + b == b;
    } else {
      assert (a + b)[1..] == a[1..] + b;
      PositiveAppend(a[1..], b);
    }
  }

  lemma {:induction false} SumBounds(s: seq<int>, lo: int, hi: int)
    requires forall i :: 0 <= i < |s| ==> lo <= s[i] <= hi
    ensures lo * |s| <= Sum(s) <= hi * |s|
    decreases |s|
  {
    if s != [] {
      SumBounds(s[1..], lo, hi);
    }
  }

  lemma {:induction false} SumPositive(s: seq<int>)
    requires s != []
    requires forall i :: 0 <= i < |s| ==> s[i] > 0
    ensures Sum(s) > 0
    decreases |s|
  {
    if |s| > 1 {
      SumPositive(s[1..]);
    }
  }

  /** The average is 0 exactly when no confidence is positive, and positive otherwise. */
  lemma ZeroIffNoPositive(cs: seq<int>)
    ensures Average(cs) == 0.0 <==> forall i :: 0 <= i < |cs| ==> cs[i] <= 0
    ensures Average(cs) >= 0.0
  {
    var ps := Positive(cs);
    if ps != [] {
      SumPositive(ps);
      var c := ps[0];
      assert c in cs;
    } else {
      forall i | 0 <= i < |cs| ensures cs[i] <= 0 {
        assert cs[i] in cs;
      }
    }
  }

  /** The average lies within any bounds that hold for every positive confidence,
      in particular between their minimum and their maximum. */
  lemma AverageWithin(cs: seq<int>, lo: int, hi: int)
    requires exists i :: 0 <= i < |cs| && cs[i] > 0
    requires forall i :: 0 <= i < |cs| && cs[i] > 0 ==> lo <= cs[i] <= hi
    ensures lo as real <= Average(cs) <= hi as real
  {
    var ps := Positive(cs);
    var j :| 0 <= j < |cs| && cs[j] > 0;
    assert cs[j] in ps;
    forall i | 0 <= i < |ps| ensures lo <= ps[i] <= hi {
      assert ps[i] in cs;
    }
    SumBounds(ps, lo, hi);
    QuotientWithin(Sum(ps), |ps|, lo, hi);
  }

  lemma QuotientWithin(total: int, n: int, lo: int, hi: int)
    requires n > 0
    requires lo * n <= total <= hi * n
    ensures lo as real <= (total as real) / (n as real) <= hi as real
  {
    var q := (total as real) / (n as real);
    assert q * (n as real) == total as real;
    assert (lo * n) as real == (lo as real) * (n as real);
    assert (hi * n) as real == (hi as real) * (n as real);
  }

  /** With the engine's values at most 100, the average is within 0 to 100, and
      strictly above 0 when some confidence is positive. */
  lemma AverageInPercentRange(cs: seq<int>)
    requires InEngineRange(cs)
    ensures 0.0 <= Average(cs) <= 100.0
    ensures (exists i :: 0 <= i < |cs| && cs[i] > 0) ==> Average(cs) > 0.0
  {
    ZeroIffNoPositive(cs);
    if exists i :: 0 <= i < |cs| && cs[i] > 0 {
      AverageWithin(cs, 1, 100);
    }
  }

  /** A confidence of zero or below, wherever it appears, does not change the average. */
  lemma NonPositiveIgnored(a: seq<int>, c: int, b: seq<int>)
    requires c <= 0
    ensures Average(a + [c] + b) == Average(a + b)
  {
    PositiveAppend(a + [c], b);
    PositiveAppend(a, [c]);
    PositiveAppend(a, b);
    assert Positive([c]) == [];
    assert Positive(a) + [] == Positive(a);
  }

  /** The example of two "no text" tokens among two real ones, and a list with none. */
  lemma Example()
    ensures Average([-1, 0, 80, 90]) == 85.0
    ensures Average([-1, 0, -1]) == 0.0
  {
    assert Positive([-1, 0, 80, 90]) == [80, 90];
  }

  /** A repeated confidence is counted as often as it occurs. */
  lemma ExampleRepeated()
    ensures Average([80, 80, 90]) == 250.0 / 3.0
  {
    assert Positive([90]) == [90];
    assert Positive([80, 90]) == [80, 90];
    assert Positive([80, 80, 90]) == [80, 80, 90];
  }
}
