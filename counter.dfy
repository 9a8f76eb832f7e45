/**
 * The mixed-radix counter behind the lazy generator: digit i ranges over
 * [0, i], so a counter of n digits has 1 * 2 * ... * n = n! states, and the
 * state d stands for the number Value(d) = sum of d[i] * i!.
 */
module Counter {

  /** n! */
  function Fact(n: nat): (r: nat)
    ensures r >= 1
  {
    if n == 0 then 1 else n * Fact(n - 1)
  }

  /** Digit i of the counter lies in [0, i]. */
  ghost predicate InRange(d: seq<nat>)
  {
    forall i :: 0 <= i < |d| ==> d[i] <= i
  }

  /** A counter of n digits, all zero. */
  function Zeros(n: nat): seq<nat>
  {
    seq(n, _ => 0)
  }

  /** The number a counter stands for: digit i has weight i!. */
  ghost function Value(d: seq<nat>): nat
  {
    if |d| == 0 then 0 else Value(d[..|d| - 1]) + d[|d| - 1] * Fact(|d| - 1)
  }

  lemma MulLeft(a: nat, b: nat, c: nat)
    requires a <= b
    ensures a * c <= b * c
  {
  }

  lemma MulSucc(a: int, m: int)
    ensures (a + 1) * m == a * m + m
  {
  }

  lemma MulPosZero(x: nat, f: nat)
    requires f >= 1 && x * f == 0
    ensures x == 0
  {
  }

  lemma Regroup(x: int, y: int, a: int, b: int)
    ensures x * y * (a * b) == (x * a) * (y * b)
  {
  }

  /** Value of d, split into its lowest k digits and digit k. */
  lemma ValueLast(d: seq<nat>, k: nat)
    requires k < |d|
    ensures Value(d[..k + 1]) == Value(d[..k]) + d[k] * Fact(k)
  {
    assert d[..k + 1][..k] == d[..k];
  }

  lemma FactStep(n: nat)
    requires n >= 1
    ensures Fact(n) == (n - 1) * Fact(n - 1) + Fact(n - 1)
  {
    var f := Fact(n - 1);
    assert Fact(n) == n * f;
    assert n * f == (n - 1) * f + f;
  }

  /** Every in-range counter of n digits stands for a number below n!. */
  lemma {:induction false} ValueBelowFact(d: seq<nat>)
    requires InRange(d)
    ensures Value(d) < Fact(|d|)
  {
    if |d| > 0 {
      var n := |d|;
      var p := d[..n - 1];
      assert InRange(p) by {
        forall i | 0 <= i < |p| ensures p[i] <= i { assert p[i] == d[i]; }
      }
      ValueBelowFact(p);
      var f := Fact(n - 1);
      var top := d[n - 1] * f;
      assert Value(d) == Value(p) + top;
      MulLeft(d[n - 1], n - 1, f);
      assert top <= (n - 1) * f;
      FactStep(n);
    }
  }

  /** The counter whose every digit is at its maximum stands for n! - 1. */
  lemma {:induction false} ValueOfMax(d: seq<nat>)
    requires forall i :: 0 <= i < |d| ==> d[i] == i
    ensures Value(d) == Fact(|d|) - 1
  {
    if |d| > 0 {
      var n := |d|;
      var p := d[..n - 1];
      assert forall i :: 0 <= i < |p| ==> p[i] == i by {
        forall i | 0 <= i < |p| ensures p[i] == i { assert p[i] == d[i]; }
      }
      ValueOfMax(p);
      FactStep(n);
      assert Value(d) == Value(p) + (n - 1) * Fact(n - 1);
    }
  }

  /** The all-zero counter stands for 0. */
  lemma {:induction false} ValueOfZeros(n: nat)
    ensures Value(Zeros(n)) == 0
  {
    if n > 0 {
      assert Zeros(n)[..n - 1] == Zeros(n - 1);
      ValueOfZeros(n - 1);
    }
  }

  /**
   * Two counters that agree on every digit above i differ in value exactly
   * as their lowest i + 1 digits do.
   */
  lemma {:induction false} ValueAgreeAbove(d: seq<nat>, e: seq<nat>, i: nat)
    requires |d| == |e| && i < |d|
    requires forall j :: i < j < |d| ==> d[j] == e[j]
    ensures Value(d) - Value(d[..i + 1]) == Value(e) - Value(e[..i + 1])
  {
    var n := |d|;
    if n == i + 1 {
      assert d[..i + 1] == d && e[..i + 1] == e;
    } else {
      var dp, ep := d[..n - 1], e[..n - 1];
      assert dp[..i + 1] == d[..i + 1] && ep[..i + 1] == e[..i + 1];
      ValueAgreeAbove(dp, ep, i);
    }
  }

  /**
   * One step of the odometer that stops at digit i: the digits below i were
   * at their maximum and wrap to 0, digit i grows by one and stays in range,
   * the digits above i are untouched. The counter's value grows by exactly 1.
   */
  lemma {:induction false} CarryStopsAt(d: seq<nat>, e: seq<nat>, i: nat)
    requires |d| == |e| && i < |d|
    requires forall j :: 0 <= j < i ==> d[j] == j && e[j] == 0
    requires e[i] == d[i] + 1
    requires forall j :: i < j < |d| ==> e[j] == d[j]
    ensures Value(e) == Value(d) + 1
  {
    ValueAgreeAbove(d, e, i);
    var f := Fact(i);
    ValueLast(d, i);
    ValueLast(e, i);
    assert Value(d[..i]) == f - 1 by {
      ValueOfMax(d[..i]);
    }
    assert Value(e[..i]) == 0 by {
      assert e[..i] == Zeros(i);
      ValueOfZeros(i);
    }
    MulSucc(d[i], f);
  }

  /** Only the all-zero counter stands for 0. */
  lemma {:induction false} ValueZeroIsZeros(d: seq<nat>)
    requires Value(d) == 0
    ensures d == Zeros(|d|)
  {
    if |d| > 0 {
      var n := |d|;
      var p := d[..n - 1];
      assert Value(p) == 0 && d[n - 1] * Fact(n - 1) == 0;
      MulPosZero(d[n - 1], Fact(n - 1));
      ValueZeroIsZeros(p);
      assert d == p + [d[n - 1]];
    }
  }
}
