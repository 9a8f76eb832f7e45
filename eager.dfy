/**
 * The eager enumeration: recursively builds every arrangement as a fresh
 * sequence. As written it does not produce n! arrangements: for each chosen
 * letter it inserts that letter into every arrangement of the remaining
 * letters at positions 0 .. n - 2 only, so it returns n * (n - 1) times as
 * many results as for n - 1 letters, duplicates included.
 */
module Eager {
  import opened Counter
  import opened Arrange

  /**
   * `original` without the element at `index`, order kept. An index past the
   * end removes nothing. The source reserves capacity for len - 1 elements,
   * which fails on an empty input.
   */
  method CloneMinus<T>(original: seq<T>, index: nat) returns (dest: seq<T>)
    requires |original| >= 1
    ensures index < |original| ==> dest == original[..index] + original[index + 1..]
    ensures index >= |original| ==> dest == original
  {
    dest := [];
    for i := 0 to |original|
      invariant dest == if index < i then original[..index] + original[index + 1..i] else original[..i]
    {
      if i == index {
        continue;
      }
      dest := dest + [original[i]];
    }
  }

  /** How many sequences Anagrams returns for n letters. */
  function AnagramCount(n: nat): nat
  {
    if n <= 1 then 1 else n * (n - 1) * AnagramCount(n - 1)
  }

  lemma CountStep(n: nat)
    requires n >= 2
    ensures AnagramCount(n) == n * (AnagramCount(n - 1) * (n - 1))
  {
    var c := AnagramCount(n - 1);
    assert AnagramCount(n) == n * (n - 1) * c;
    Regroup(n, n - 1, 1, c);
  }

  /** Putting a letter back into an arrangement of the other letters gives an arrangement of all of them. */
  lemma InsertRearranges<T>(anagram: seq<T>, j: nat, letter: T, letters: seq<T>)
    requires j <= |anagram| && multiset(anagram) + multiset{letter} == multiset(letters)
    ensures |anagram[..j] + [letter] + anagram[j..]| == |anagram| + 1
    ensures multiset(anagram[..j] + [letter] + anagram[j..]) == multiset(letters)
  {
    assert anagram == anagram[..j] + anagram[j..];
  }

  /** For n >= 1 letters that is n! * (n - 1)!, not n!. */
  lemma {:induction false} AnagramCountIsFactTimesFact(n: nat)
    requires n >= 1
    ensures AnagramCount(n) == Fact(n) * Fact(n - 1)
  {
    if n > 1 {
      AnagramCountIsFactTimesFact(n - 1);
      var a, b := Fact(n - 1), Fact(n - 2);
      assert AnagramCount(n) == n * (n - 1) * (a * b);
      assert Fact(n) == n * a && Fact(n - 1) == (n - 1) * b;
      Regroup(n, n - 1, a, b);
    }
  }

  /** The copies of `anagram` with `letter` inserted at positions 0 .. count - 1, in that order. */
  function Insertions<T>(anagram: seq<T>, letter: T, count: nat): (r: seq<seq<T>>)
    requires count <= |anagram| + 1
    ensures |r| == count
    ensures forall j :: 0 <= j < count ==> r[j] == anagram[..j] + [letter] + anagram[j..]
  {
    if count == 0 then [] else Insertions(anagram, letter, count - 1) + [anagram[..count - 1] + [letter] + anagram[count - 1..]]
  }

  /**
   * For the first k arrangements in order, the copies with `letter` inserted
   * at each position below the arrangement's own length.
   */
  function InsertionsAll<T>(anagrams: seq<seq<T>>, letter: T, k: nat): seq<seq<T>>
    requires k <= |anagrams|
  {
    if k == 0 then [] else InsertionsAll(anagrams, letter, k - 1) + Insertions(anagrams[k - 1], letter, |anagrams[k - 1]|)
  }

  /** `letters` without the letter at position i. */
  function Without<T>(letters: seq<T>, i: nat): (r: seq<T>)
    requires i < |letters|
    ensures |r| == |letters| - 1
    ensures multiset(r) + multiset{letters[i]} == multiset(letters)
  {
    assert letters == letters[..i] + [letters[i]] + letters[i + 1..];
    letters[..i] + letters[i + 1..]
  }

  /**
   * What the eager enumeration returns: the input itself for one letter or
   * none, otherwise, for each letter in order, the arrangements of the other
   * letters with that letter inserted.
   */
  function AnagramsOf<T>(letters: seq<T>): seq<seq<T>>
    decreases |letters|, 1, 0
  {
    if |letters| <= 1 then [letters] else ByLetter(letters, |letters|)
  }

  /** The part of AnagramsOf(letters) contributed by the first k letters. */
  function ByLetter<T>(letters: seq<T>, k: nat): seq<seq<T>>
    requires 2 <= |letters| && k <= |letters|
    decreases |letters|, 0, k
  {
    if k == 0 then [] else ByLetter(letters, k - 1) + LetterBlock(letters, k - 1)
  }

  /** Letter i inserted into every arrangement of the other letters. */
  function LetterBlock<T>(letters: seq<T>, i: nat): seq<seq<T>>
    requires 2 <= |letters| && i < |letters|
    decreases |letters|, 0, 0
  {
    var anagrams := AnagramsOf(Without(letters, i));
    InsertionsAll(anagrams, letters[i], |anagrams|)
  }

  /** Every insertion of the missing letter into an arrangement of the other letters is an arrangement of all of them. */
  lemma InsertionsRearrange<T>(anagram: seq<T>, letter: T, count: nat, letters: seq<T>)
    requires count <= |anagram| + 1 && multiset(anagram) + multiset{letter} == multiset(letters)
    ensures AllRearrange(Insertions(anagram, letter, count), letters)
  {
    forall j | 0 <= j < count {
      InsertRearranges(anagram, j, letter, letters);
    }
  }

  lemma AllRearrangeConcat<T>(xs: seq<seq<T>>, ys: seq<seq<T>>, s: seq<T>)
    requires AllRearrange(xs, s) && AllRearrange(ys, s)
    ensures AllRearrange(xs + ys, s)
  {
    forall k | 0 <= k < |xs + ys|
      ensures |(xs + ys)[k]| == |s| && multiset((xs + ys)[k]) == multiset(s)
    {
      if k < |xs| {
        assert (xs + ys)[k] == xs[k];
      } else {
        assert (xs + ys)[k] == ys[k - |xs|];
      }
    }
  }

  /**
   * Inserting the missing letter into k arrangements of m letters gives k * m
   * arrangements of all m + 1 letters.
   */
  lemma {:induction false} InsertionsAllShape<T>(anagrams: seq<seq<T>>, letter: T, k: nat, letters: seq<T>, m: nat)
    requires k <= |anagrams|
    requires forall i :: 0 <= i < |anagrams| ==>
      |anagrams[i]| == m && multiset(anagrams[i]) + multiset{letter} == multiset(letters)
    ensures |InsertionsAll(anagrams, letter, k)| == k * m
    ensures AllRearrange(InsertionsAll(anagrams, letter, k), letters)
  {
    if k > 0 {
      var front, last := InsertionsAll(anagrams, letter, k - 1), Insertions(anagrams[k - 1], letter, m);
      assert InsertionsAll(anagrams, letter, k) == front + last;
      InsertionsAllShape(anagrams, letter, k - 1, letters, m);
      InsertionsRearrange(anagrams[k - 1], letter, m, letters);
      AllRearrangeConcat(front, last, letters);
      MulSucc(k - 1, m);
    }
  }

  /**
   * AnagramsOf returns AnagramCount(n) sequences, each an arrangement of the
   * input letters (duplicates are not excluded).
   */
  lemma {:induction false} AnagramsOfShape<T>(letters: seq<T>)
    ensures |AnagramsOf(letters)| == AnagramCount(|letters|)
    ensures AllRearrange(AnagramsOf(letters), letters)
    decreases |letters|, 1, 0
  {
    if |letters| >= 2 {
      ByLetterShape(letters, |letters|);
      CountStep(|letters|);
    }
  }

  /** The block letter i contributes: AnagramCount(n - 1) * (n - 1) arrangements of all n letters. */
  lemma BlockShape<T>(letters: seq<T>, i: nat)
    requires 2 <= |letters| && i < |letters|
    ensures |LetterBlock(letters, i)| == AnagramCount(|letters| - 1) * (|letters| - 1)
    ensures AllRearrange(LetterBlock(letters, i), letters)
    decreases |letters|, 0, 0
  {
    var rest := Without(letters, i);
    AnagramsOfShape(rest);
    var anagrams := AnagramsOf(rest);
    InsertionsAllShape(anagrams, letters[i], |anagrams|, letters, |letters| - 1);
  }

  lemma {:induction false} ByLetterShape<T>(letters: seq<T>, k: nat)
    requires 2 <= |letters| && k <= |letters|
    ensures |ByLetter(letters, k)| == k * (AnagramCount(|letters| - 1) * (|letters| - 1))
    ensures AllRearrange(ByLetter(letters, k), letters)
    decreases |letters|, 0, k
  {
    if k > 0 {
      var each := AnagramCount(|letters| - 1) * (|letters| - 1);
      ByLetterShape(letters, k - 1);
      BlockShape(letters, k - 1);
      assert ByLetter(letters, k) == ByLetter(letters, k - 1) + LetterBlock(letters, k - 1);
      AllRearrangeConcat(ByLetter(letters, k - 1), LetterBlock(letters, k - 1), letters);
      MulSucc(k - 1, each);
    }
  }

  /**
   * Appends to `result`, for each arrangement in `anagrams` in order, the
   * copies of it with `letter` inserted at positions 0 .. m - 1, where m is
   * the arrangement's length: m copies per arrangement.
   */
  method InsertLetter<T>(result: seq<seq<T>>, letter: T, anagrams: seq<seq<T>>, letters: seq<T>, m: nat)
    returns (extended: seq<seq<T>>)
    requires forall k :: 0 <= k < |anagrams| ==>
      |anagrams[k]| == m && multiset(anagrams[k]) + multiset{letter} == multiset(letters)
    requires AllRearrange(result, letters)
    ensures extended == result + InsertionsAll(anagrams, letter, |anagrams|)
    ensures |extended| == |result| + |anagrams| * m
    ensures extended[..|result|] == result
    ensures AllRearrange(extended, letters)
  {
    extended := result;
    for a := 0 to |anagrams|
      invariant extended == result + InsertionsAll(anagrams, letter, a)
    {
      var anagram := anagrams[a];
      for j := 0 to |anagram|
        invariant extended == result + InsertionsAll(anagrams, letter, a) + Insertions(anagram, letter, j)
      {
        var copy := anagram[..j] + [letter] + anagram[j..];
        assert Insertions(anagram, letter, j + 1) == Insertions(anagram, letter, j) + [copy];
        extended := extended + [copy];
      }
      assert InsertionsAll(anagrams, letter, a + 1) == InsertionsAll(anagrams, letter, a) + Insertions(anagram, letter, |anagram|);
    }
    InsertionsAllShape(anagrams, letter, |anagrams|, letters, m);
    AllRearrangeConcat(result, InsertionsAll(anagrams, letter, |anagrams|), letters);
  }

  /**
   * Every sequence obtained by taking out letter i, arranging the rest and
   * inserting letter i back at a position below n - 1. One letter or none
   * gives just the input.
   */
  method Anagrams<T>(letters: seq<T>) returns (result: seq<seq<T>>)
    ensures result == AnagramsOf(letters)
    ensures |result| == AnagramCount(|letters|)
    ensures |letters| <= 1 ==> result == [letters]
    ensures AllRearrange(result, letters)
    decreases |letters|
  {
    if |letters| <= 1 {
      return [letters];
    }
    var n := |letters|;
    result := [];
    for i := 0 to n
      invariant result == ByLetter(letters, i)
    {
      var letter := letters[i];
      var subset := CloneMinus(letters, i);
      assert subset == Without(letters, i);
      var anagrams := Anagrams(subset);
      ByLetterShape(letters, i);
      result := InsertLetter(result, letter, anagrams, letters, n - 1);
    }
    AnagramsOfShape(letters);
  }
}
