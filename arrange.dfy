/**
 * How the lazy generator turns a counter into a permutation: starting from a
 * copy of the source, step i (for i = 0, 1, ...) exchanges position i with
 * position i + d[n - 1 - i]. Since digit n - 1 - i is at most n - 1 - i, step
 * i picks one of the elements still at positions i .. n - 1 for position i,
 * and no later step touches position i again.
 */
module Arrange {
  import opened Counter

  /** s with positions i and j exchanged. */
  function Swap<T>(s: seq<T>, i: nat, j: nat): seq<T>
    requires i < |s| && j < |s|
  {
    seq(|s|, x requires 0 <= x < |s| => if x == i then s[j] else if x == j then s[i] else s[x])
  }

  /** s after the first k steps of the chain driven by the counter d. */
  function Pick<T>(s: seq<T>, d: seq<nat>, k: nat): (r: seq<T>)
    requires |d| == |s| && InRange(d) && k <= |s|
    ensures |r| == |s|
    decreases k
  {
    if k == 0 then s
    else Swap(Pick(s, d, k - 1), k - 1, k - 1 + d[|s| - k])
  }

  /** The permutation of s that the counter d denotes: the chain of |s| - 1 steps. */
  function Arranged<T>(s: seq<T>, d: seq<nat>): seq<T>
    requires |d| == |s| && InRange(d)
  {
    if |s| == 0 then s else Pick(s, d, |s| - 1)
  }

  /** The element that step m of the chain puts at position m. */
  function Placed<T>(s: seq<T>, d: seq<nat>, m: nat): T
    requires |d| == |s| && InRange(d) && m < |s|
  {
    Pick(s, d, m + 1)[m]
  }

  /** Each of rs has the length of s and the same elements with the same multiplicities. */
  ghost predicate AllRearrange<T>(rs: seq<seq<T>>, s: seq<T>)
  {
    forall k :: 0 <= k < |rs| ==> |rs[k]| == |s| && multiset(rs[k]) == multiset(s)
  }

  /** No element occurs at two positions. */
  ghost predicate Distinct<T>(s: seq<T>)
  {
    forall a, b :: 0 <= a < b < |s| ==> s[a] != s[b]
  }

  /** Exchanging two positions keeps the multiset of elements. */
  lemma SwapRearranges<T>(s: seq<T>, i: nat, j: nat)
    requires i < |s| && j < |s|
    ensures multiset(Swap(s, i, j)) == multiset(s)
  {
    var t := s[i := s[j]];
    assert Swap(s, i, j) == t[j := s[i]];
    assert multiset(t) == multiset(s) - multiset{s[i]} + multiset{s[j]};
    assert multiset(t[j := s[i]]) == multiset(t) - multiset{t[j]} + multiset{s[i]};
  }

  /** One step of the chain keeps the multiset of elements. */
  lemma StepRearranges<T>(s: seq<T>, d: seq<nat>, k: nat)
    requires |d| == |s| && InRange(d) && 0 < k <= |s|
    ensures multiset(Pick(s, d, k)) == multiset(Pick(s, d, k - 1))
  {
    SwapRearranges(Pick(s, d, k - 1), k - 1, k - 1 + d[|s| - k]);
  }

  /** Every prefix of the chain rearranges s: same length, same elements with the same multiplicities. */
  lemma {:induction false} PickRearranges<T>(s: seq<T>, d: seq<nat>, k: nat)
    requires |d| == |s| && InRange(d) && k <= |s|
    ensures |Pick(s, d, k)| == |s| && multiset(Pick(s, d, k)) == multiset(s)
  {
    if k > 0 {
      PickRearranges(s, d, k - 1);
      StepRearranges(s, d, k);
    }
  }

  /** So does the finished chain. */
  lemma ArrangedRearranges<T>(s: seq<T>, d: seq<nat>)
    requires |d| == |s| && InRange(d)
    ensures |Arranged(s, d)| == |s| && multiset(Arranged(s, d)) == multiset(s)
  {
    if |s| > 0 {
      PickRearranges(s, d, |s| - 1);
    }
  }

  /** Once step j has run, no later step changes position j. */
  lemma {:induction false} PickKeepsPlaced<T>(s: seq<T>, d: seq<nat>, j: nat, k: nat, m: nat)
    requires |d| == |s| && InRange(d) && j < k <= m <= |s|
    ensures Pick(s, d, m)[j] == Pick(s, d, k)[j]
    decreases m
  {
    if m > k {
      PickKeepsPlaced(s, d, j, k, m - 1);
    }
  }

  /** With the all-zero counter every step exchanges a position with itself. */
  lemma {:induction false} PickOfZeros<T>(s: seq<T>, k: nat)
    requires k <= |s|
    ensures InRange(Zeros(|s|)) && Pick(s, Zeros(|s|), k) == s
  {
    if k > 0 {
      PickOfZeros(s, k - 1);
    }
  }

  /** The all-zero counter denotes the identity permutation. */
  lemma ArrangedOfZeros<T>(s: seq<T>)
    ensures InRange(Zeros(|s|)) && Arranged(s, Zeros(|s|)) == s
  {
    if |s| > 0 {
      PickOfZeros(s, |s| - 1);
    }
  }

  /** Exchanging two positions keeps the elements distinct. */
  lemma SwapKeepsDistinct<T>(s: seq<T>, i: nat, j: nat)
    requires i < |s| && j < |s| && Distinct(s)
    ensures Distinct(Swap(s, i, j))
  {
    var t := Swap(s, i, j);
    forall a, b | 0 <= a < b < |t| ensures t[a] != t[b] {
      var a' := if a == i then j else if a == j then i else a;
      var b' := if b == i then j else if b == j then i else b;
      assert t[a] == s[a'] && t[b] == s[b'];
    }
  }

  lemma {:induction false} PickKeepsDistinct<T>(s: seq<T>, d: seq<nat>, k: nat)
    requires |d| == |s| && InRange(d) && k <= |s| && Distinct(s)
    ensures Distinct(Pick(s, d, k))
  {
    if k > 0 {
      PickKeepsDistinct(s, d, k - 1);
      SwapKeepsDistinct(Pick(s, d, k - 1), k - 1, k - 1 + d[|s| - k]);
    }
  }

  lemma DistinctAt<T>(t: seq<T>, p: nat, q: nat)
    requires Distinct(t) && p < |t| && q < |t| && t[p] == t[q]
    ensures p == q
  {
  }

  /** Step i of the chain puts at position i the element found at position i + d[n - 1 - i]. */
  lemma StepPlaces<T>(s: seq<T>, d: seq<nat>, i: nat)
    requires |d| == |s| && InRange(d) && i < |s|
    ensures Pick(s, d, i + 1)[i] == Pick(s, d, i)[i + d[|s| - 1 - i]]
  {
  }

  /**
   * Two chains that agree after step i and place the same element at
   * position i in step i + 1 chose the same position in that step.
   */
  lemma SameStepChoice<T>(s: seq<T>, d: seq<nat>, e: seq<nat>, i: nat)
    requires |d| == |s| && |e| == |s| && InRange(d) && InRange(e) && Distinct(s)
    requires i < |s|
    requires Pick(s, d, i) == Pick(s, e, i)
    requires Placed(s, d, i) == Placed(s, e, i)
    ensures d[|s| - 1 - i] == e[|s| - 1 - i]
    ensures Pick(s, d, i + 1) == Pick(s, e, i + 1)
  {
    var t := Pick(s, d, i);
    var p, q := i + d[|s| - 1 - i], i + e[|s| - 1 - i];
    StepPlaces(s, d, i);
    StepPlaces(s, e, i);
    PickKeepsDistinct(s, d, i);
    DistinctAt(t, p, q);
  }

  /**
   * If two chains agree after step i and every later step places the same
   * element, they made the same choice at every step from i on, that is,
   * they agree on every digit from 1 to n - 1 - i.
   */
  lemma {:induction false} SameChoicesFrom<T>(s: seq<T>, d: seq<nat>, e: seq<nat>, i: nat)
    requires |d| == |s| && |e| == |s| && InRange(d) && InRange(e) && Distinct(s)
    requires i < |s|
    requires Pick(s, d, i) == Pick(s, e, i)
    requires forall m :: i <= m < |s| - 1 ==> Placed(s, d, m) == Placed(s, e, m)
    ensures forall j :: 0 < j < |s| - i ==> d[j] == e[j]
    decreases |s| - i
  {
    var n := |s|;
    if i < n - 1 {
      SameStepChoice(s, d, e, i);
      SameChoicesFrom(s, d, e, i + 1);
      forall j | 0 < j < n - i ensures d[j] == e[j] {
        if j < n - 1 - i {
          assert 0 < j < |s| - (i + 1);
        }
      }
    }
  }

  /**
   * For a source of distinct elements, distinct in-range counters denote
   * distinct permutations, and equal ones the same: the chain is injective.
   */
  lemma ArrangedInjective<T>(s: seq<T>, d: seq<nat>, e: seq<nat>)
    requires |d| == |s| && |e| == |s| && InRange(d) && InRange(e) && Distinct(s)
    ensures Arranged(s, d) == Arranged(s, e) <==> d == e
  {
    var n := |s|;
    if n > 0 && Arranged(s, d) == Arranged(s, e) {
      forall m | 0 <= m < n - 1 ensures Placed(s, d, m) == Placed(s, e, m) {
        PickKeepsPlaced(s, d, m, m + 1, n - 1);
        PickKeepsPlaced(s, e, m, m + 1, n - 1);
      }
      SameChoicesFrom(s, d, e, 0);
      assert d[0] == 0 == e[0];
    }
  }
}
