/**
 * The lazy permutation generator. It owns the source, a mixed-radix counter
 * `indices` (digit i in [0, i]), a reusable output buffer `latest`, and the
 * flags `started` and `done`. Each call of Next hands out the next
 * permutation, or None once the counter has wrapped around.
 */
module Generator {
  import opened Wrappers
  import opened Counter
  import opened Arrange

  /**
   * The k-th of `produced` is the permutation of `source` that the k-th of
   * `counters` denotes, and that counter stands for k.
   */
  ghost predicate History<T>(source: seq<T>, counters: seq<seq<nat>>, produced: seq<seq<T>>)
  {
    |counters| == |produced| &&
    forall k :: 0 <= k < |counters| ==>
      |counters[k]| == |source| && InRange(counters[k]) && Value(counters[k]) == k &&
      produced[k] == Arranged(source, counters[k])
  }

  /** The history grows by the permutation of the counter that stands for its length. */
  lemma HistoryAppend<T>(source: seq<T>, counters: seq<seq<nat>>, produced: seq<seq<T>>, c: seq<nat>)
    requires History(source, counters, produced)
    requires |c| == |source| && InRange(c) && Value(c) == |counters|
    ensures History(source, counters + [c], produced + [Arranged(source, c)])
  {
  }

  class PermutationGenerator<T> {
    /** The original sequence; never changed after construction. */
    const source: seq<T>
    /** The counter; its digits are updated in place. */
    const indices: array<nat>
    /** The output buffer, overwritten in place by every step. */
    const latest: array<T>
    var started: bool
    var done: bool

    /** Every buffer handed out so far, in order. */
    ghost var Produced: seq<seq<T>>
    /** The counter from which each of them was built. */
    ghost var Counters: seq<seq<nat>>

    /** The two buffers have the length of the source and are different objects. */
    ghost predicate Shape()
      reads this
    {
      indices.Length == |source| && latest.Length == |source| &&
      indices as object != latest as object
    }

    /**
     * The object invariant. The k-th buffer handed out is the permutation
     * that the counter with value k denotes; before the first call nothing
     * has been handed out and the buffer holds the source; afterwards the
     * buffer holds the last permutation handed out and the counter the digits
     * it was built from; once the counter has wrapped around, n! buffers have
     * been handed out.
     */
    ghost predicate Valid()
      reads this, indices, latest
    {
      Shape() &&
      InRange(indices[..]) &&
      History(source, Counters, Produced) &&
      (!started ==>
        !done && Produced == [] && indices[..] == Zeros(|source|) && latest[..] == source) &&
      (started && !done ==>
        |Produced| >= 1 && Counters[|Counters| - 1] == indices[..] &&
        latest[..] == Produced[|Produced| - 1]) &&
      (done ==>
        started && |Produced| == Fact(|source|) &&
        indices[..] == Zeros(|source|) && latest[..] == source)
    }

    /** A generator over `source`: the buffer holds a copy of it, the counter is all zeros. */
    constructor (source: seq<T>)
      ensures Valid() && fresh(indices) && fresh(latest)
      ensures this.source == source && latest[..] == source
      ensures indices[..] == Zeros(|source|) && !started && !done
      ensures Produced == [] && Counters == []
    {
      var len := |source|;
      this.source := source;
      latest := new T[len](i requires 0 <= i < len => source[i]);
      indices := new nat[len](_ => 0);
      started := false;
      done := false;
      Produced := [];
      Counters := [];
      new;
      assert indices[..] == Zeros(len);
    }

    /**
     * Advances the counter like an odometer, lowest digit first: a digit at
     * its maximum wraps to 0 and carries into the next one. Returns whether
     * every digit carried, which happens exactly when the counter stood for
     * n! - 1. Otherwise the counter's value grows by exactly one.
     */
    method IncreaseIndices() returns (carried: bool)
      requires Shape() && InRange(indices[..])
      modifies indices
      ensures InRange(indices[..])
      ensures carried <==> Value(old(indices[..])) + 1 == Fact(|source|)
      ensures carried ==> indices[..] == Zeros(|source|)
      ensures !carried ==> Value(indices[..]) == Value(old(indices[..])) + 1
    {
      ghost var before := indices[..];
      var len := |source|;
      carried := true;
      for i := 0 to len
        invariant forall j :: 0 <= j < i ==> indices[j] == 0 && before[j] == j
        invariant forall j :: i <= j < len ==> indices[j] == before[j]
      {
        var index := indices[i] + 1;
        if index >= i + 1 {
          indices[i] := 0;
        } else {
          indices[i] := index;
          carried := false;
          CarryStopsAt(before, indices[..], i);
          ValueBelowFact(indices[..]);
          break;
        }
      }
      if carried {
        ValueOfMax(before);
        assert indices[..] == Zeros(len);
      }
    }

    /** Overwrites the buffer with a copy of the source. */
    method PrepareResult()
      requires Shape()
      modifies latest
      ensures latest[..] == source
    {
      var len := |source|;
      for i := 0 to len
        invariant latest[..i] == source[..i]
      {
        latest[i] := source[i];
      }
    }

    /**
     * Runs the n - 1 steps of the chain on the buffer: step i exchanges
     * position i with position i + indices[n - 1 - i], which stays below n
     * because that digit is at most n - 1 - i. Needs n >= 1: for n = 0 the
     * step count n - 1 does not exist.
     */
    method PickItems()
      requires Shape() && InRange(indices[..]) && |source| >= 1
      modifies latest
      ensures latest[..] == Pick(old(latest[..]), indices[..], |source| - 1)
    {
      ghost var before, digits := latest[..], indices[..];
      var len := |source|;
      for i := 0 to len - 1
        invariant latest[..] == Pick(before, digits, i)
      {
        var delta := indices[len - 1 - i];
        ghost var current := latest[..];
        var held := latest[i];
        latest[i] := latest[i + delta];
        latest[i + delta] := held;
        assert latest[..] == Swap(current, i, i + delta);
      }
    }

    /**
     * One step of the generator. After exhaustion it returns None and
     * changes nothing. The first call hands out the buffer untouched (the
     * source itself). Every later call advances the counter, rebuilds the
     * buffer from the source and the counter, and hands it out, unless the
     * counter wrapped around: then the generator is exhausted and the result
     * is None. On a generator over the empty sequence only the first call is
     * defined: the second would compute the step count 0 - 1.
     */
    method Next() returns (r: Option<seq<T>>)
      requires Valid()
      requires started && !done ==> |source| >= 1
      modifies this, indices, latest
      ensures Valid()
      ensures old(done) ==> done
      ensures old(done) ==>
        r == None && started == old(started) && Produced == old(Produced) &&
        indices[..] == old(indices[..]) && latest[..] == old(latest[..])
      ensures !old(started) ==>
        started && !done && r == Some(source) && Produced == [source] &&
        indices[..] == old(indices[..]) && latest[..] == source
      ensures old(started) && !old(done) ==>
        started &&
        (done <==> Value(old(indices[..])) + 1 == Fact(|source|)) &&
        (r == None <==> done) &&
        (done ==> Produced == old(Produced)) &&
        (!done ==> Value(indices[..]) == Value(old(indices[..])) + 1 &&
                   r == Some(Arranged(source, indices[..])) &&
                   Produced == old(Produced) + [r.value])
      ensures r.Some? ==> r.value == latest[..] && multiset(r.value) == multiset(source)
    {
      if done {
        return None;
      }
      if !started {
        started := true;
        ArrangedOfZeros(source);
        ValueOfZeros(|source|);
        HistoryAppend(source, Counters, Produced, indices[..]);
        Produced := [latest[..]];
        Counters := [indices[..]];
        return Some(latest[..]);
      }
      var carried := IncreaseIndices();
      PrepareResult();
      PickItems();
      if carried {
        ArrangedOfZeros(source);
        done := true;
        return None;
      }
      ArrangedRearranges(source, indices[..]);
      HistoryAppend(source, Counters, Produced, indices[..]);
      Produced := Produced + [latest[..]];
      Counters := Counters + [indices[..]];
      r := Some(latest[..]);
    }

    /** At most n! buffers are ever handed out. */
    lemma ProducedAtMostFact()
      requires Valid()
      ensures |Produced| <= Fact(|source|)
    {
      if started && !done {
        ValueBelowFact(indices[..]);
      }
    }

    /** Every buffer handed out is a rearrangement of the source. */
    lemma ProducedAreRearrangements()
      requires Valid()
      ensures AllRearrange(Produced, source)
    {
      forall k | 0 <= k < |Produced|
        ensures |Produced[k]| == |source| && multiset(Produced[k]) == multiset(source)
      {
        ArrangedRearranges(source, Counters[k]);
      }
    }

    /** The first buffer handed out is the source itself. */
    lemma FirstIsSource()
      requires Valid() && started
      ensures |Produced| >= 1 && Produced[0] == source
    {
      if done {
        assert |Produced| >= 1;
      }
      ValueZeroIsZeros(Counters[0]);
      ArrangedOfZeros(source);
    }

    /** Over a source of distinct elements, no buffer is handed out twice. */
    lemma ProducedAreDistinct()
      requires Valid() && Distinct(source)
      ensures forall j, k :: 0 <= j < k < |Produced| ==> Produced[j] != Produced[k]
    {
      forall j, k | 0 <= j < k < |Produced| ensures Produced[j] != Produced[k] {
        assert Value(Counters[j]) != Value(Counters[k]);
        ArrangedInjective(source, Counters[j], Counters[k]);
      }
    }
  }

  /**
   * The driver loop: steps a fresh generator over `source` until it is
   * exhausted and counts the buffers it hands out (the printing is left
   * out; the buffers are collected instead). For a non-empty source that is
   * exactly n! buffers, the first one the source itself, each a rearrangement
   * of it, and pairwise different when the source's elements are.
   */
  method Enumerate<T>(source: seq<T>) returns (count: nat, perms: seq<seq<T>>)
    requires |source| >= 1
    ensures count == |perms| == Fact(|source|)
    ensures perms[0] == source
    ensures AllRearrange(perms, source)
    ensures Distinct(source) ==> forall j, k :: 0 <= j < k < |perms| ==> perms[j] != perms[k]
  {
    count := 0;
    perms := [];
    var generator := new PermutationGenerator(source);
    while true
      invariant generator.Valid() && fresh(generator.indices) && fresh(generator.latest)
      invariant generator.source == source && !generator.done
      invariant count == |perms| && perms == generator.Produced
      decreases Fact(|source|) - |perms|, if generator.started then 0 else 1
    {
      generator.ProducedAtMostFact();
      var r := generator.Next();
      match r {
        case None => break;
        case Some(anagram) =>
          count := count + 1;
          perms := perms + [anagram];
      }
    }
    generator.FirstIsSource();
    generator.ProducedAreRearrangements();
    if Distinct(source) {
      generator.ProducedAreDistinct();
    }
  }
}
