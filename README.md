# Lazy permutation generator, modelled in Dafny

This project models the permutation enumerator of `src/main.rs`: the lazy
`PermutationGenerator`, which hands out the permutations of a source sequence
one at a time from a reusable buffer, and the earlier eager recursive
enumeration (`cloneMinus` / `anagrams`), which the program no longer calls.

The generator keeps a mixed-radix counter `indices` whose digit `i` ranges
over `[0, i]`, so its `n` digits have `n!` states. A state `d` stands for the
number `Value(d) = sum of d[i] * i!`. Each step advances the counter like an
odometer, lowest digit first. It then copies the source into the buffer
`latest` and runs a chain of `n - 1` exchanges: step `i` exchanges position
`i` with position `i + indices[n - 1 - i]`.

Files:

- `wrappers.dfy`: the `Option` result of a step.
- `counter.dfy` (module `Counter`): `Fact`, the digit bound `InRange`,
  `Value`, and the lemmas about the odometer step.
- `arrange.dfy` (module `Arrange`): the exchange chain `Pick` and the
  permutation `Arranged` a counter denotes, and the predicates `Distinct`
  and `AllRearrange` shared by both enumerations. It proves that the chain
  rearranges the source, that the all-zero counter gives the identity, and
  that for distinct elements different counters give different permutations.
- `generator.dfy` (module `Generator`): the class `PermutationGenerator`
  with the fields of the source struct (`source`, `indices` and `latest` as
  arrays, `started`, `done`). Ghost fields `Produced` and `Counters` record
  every buffer handed out and the counter it was built from. `Next` is split
  into three loop methods named after the comments in `next`. `Enumerate` is
  the driver loop of `main`, without the printing.
- `eager.dfy` (module `Eager`): `CloneMinus` and `Anagrams` as written. The
  two inner loops of `anagrams` (over the arrangements of the remaining
  letters, and over the insertion positions) are the method `InsertLetter`,
  which appends to the same result sequence. The functions `Insertions`,
  `InsertionsAll` and `AnagramsOf` state, without loops, which sequences the
  enumeration produces and in which order; the methods are proved to return
  exactly those, and the counts and rearrangement facts are lemmas about the
  functions.

The object invariant `Valid()` says the following:

- both buffers have the source's length;
- every digit is in range;
- the `k`-th buffer handed out is `Arranged(source, c)` for a counter `c`
  with `Value(c) == k`;
- before the first call the buffer is the source and the counter is zero;
- after exhaustion exactly `n!` buffers have been handed out.

The code has no guard for the empty source. The first call hands out the
empty buffer (`src/main.rs:114-116`). The second call computes `len - 1` with
`len == 0` (`src/main.rs:140`), which panics. The model follows the code:
`Next` requires `started && !done ==> |source| >= 1`, and `Enumerate`
requires a non-empty source.

The code also rebuilds `latest` before it checks whether the counter wrapped
(`src/main.rs:134-149`). The exhausted generator therefore holds the source
in its buffer and zeros in its counter, and `Valid()` says so.

## Model

| member | source | states |
|---|---|---|
| `Generator.PermutationGenerator.constructor` | src/main.rs:87-105 | the buffer is a copy of the source, the counter is `n` zeros, `started` and `done` are false, nothing has been handed out, and the invariant holds |
| `Generator.PermutationGenerator.IncreaseIndices` | src/main.rs:121-132 | odometer step: every digit stays in `[0, i]`; all digits carry exactly when the counter stood for `n! - 1`, and then they are all zero; otherwise the counter's value grows by exactly one |
| `Generator.PermutationGenerator.PrepareResult` | src/main.rs:134-137 | afterwards the buffer equals the source |
| `Generator.PermutationGenerator.PickItems` | src/main.rs:139-143 | the `n - 1` exchanges stay in bounds and leave the buffer equal to the chain `Pick` driven by the counter; requires `n >= 1`, since `len - 1` underflows otherwise |
| `Generator.PermutationGenerator.Next` | src/main.rs:108-154 | after exhaustion: `None` and nothing changes. First call: `Some(source)` and the counter is untouched. Later calls: `done` is set exactly when the counter wraps, and the result is `None` exactly then; otherwise the value grows by one and the result is `Arranged(source, counter)`, appended to the history. Every result is a rearrangement of the source and `done` is never cleared |
| `Generator.PermutationGenerator.ProducedAtMostFact` | src/main.rs:72-80 | under the counter bound, at most `n!` buffers are ever handed out |
| `Generator.PermutationGenerator.ProducedAreRearrangements` | src/main.rs:134-143 | every buffer handed out has the source's length and the same elements with the same multiplicities |
| `Generator.PermutationGenerator.FirstIsSource` | src/main.rs:114-116 | the first buffer handed out is the source itself |
| `Generator.PermutationGenerator.ProducedAreDistinct` | src/main.rs:121-143 | over a source of distinct elements, no two buffers handed out are equal |
| `Generator.Enumerate` | src/main.rs:16-27 | stepping a fresh generator over a non-empty source until `None` counts exactly `n!` buffers; the first is the source, each is a rearrangement of it, and they are pairwise different when the source's elements are |
| `Counter.ValueBelowFact` | src/main.rs:72-80 | a counter whose digit `i` lies in `[0, i]` stands for a number below `n!` |
| `Counter.ValueOfMax` | src/main.rs:123-127 | the counter that carries at every digit (digit `i` equal to `i`) stands for `n! - 1` |
| `Counter.CarryStopsAt` | src/main.rs:123-131 | an odometer step that stops at digit `i` (lower digits at their maximum reset to 0, digit `i` grows by one, higher digits untouched) adds exactly 1 to the counter's value |
| `Counter.ValueZeroIsZeros` | src/main.rs:95-96 | the only counter standing for 0 is the all-zero one the constructor creates |
| `Arrange.PickRearranges` | src/main.rs:140-143 | every prefix of the exchange chain keeps the length and the multiset of elements |
| `Arrange.ArrangedRearranges` | src/main.rs:135-143 | the permutation a counter denotes is a rearrangement of the source |
| `Arrange.PickKeepsPlaced` | src/main.rs:140-143 | once step `j` has run, no later step changes position `j` |
| `Arrange.ArrangedOfZeros` | src/main.rs:135-143 | the all-zero counter denotes the source itself |
| `Arrange.ArrangedInjective` | src/main.rs:140-143 | for a source of distinct elements, two in-range counters denote the same permutation if and only if they are equal |
| `Eager.CloneMinus` | src/main.rs:33-42 | the result is the input without position `index`, order kept; an index past the end removes nothing; requires a non-empty input (`original.len() - 1`) |
| `Eager.InsertRearranges` | src/main.rs:54-57 | inserting the chosen letter into an arrangement of the other letters gives an arrangement of all of them |
| `Eager.Insertions` | src/main.rs:54-57 | the `count` copies of an arrangement with the letter inserted, the `j`-th one holding the letter at position `j` and the arrangement's elements in order around it |
| `Eager.InsertionsAllShape` | src/main.rs:53-59 | inserting the missing letter at each position below `m` into `k` arrangements of the other `m` letters gives `k * m` arrangements of all the letters |
| `Eager.InsertLetter` | src/main.rs:53-59 | appends to the result, for each arrangement in order, exactly its copies with the letter inserted at positions `0 .. m - 1` in that order (`InsertionsAll`); so `m` more sequences per arrangement, the earlier results kept, each appended one an arrangement of all the letters |
| `Eager.AnagramsOfShape` | src/main.rs:44-62 | the specification `AnagramsOf` of the eager enumeration yields `AnagramCount(n)` sequences, each a rearrangement of the letters |
| `Eager.Anagrams` | src/main.rs:44-62 | returns exactly `AnagramsOf(letters)`: `[letters]` for at most one letter, otherwise, for each letter `i` in order, letter `i` inserted at positions `0 .. n - 2` into each arrangement the recursion returns for the other letters; hence `AnagramCount(n)` sequences, each a rearrangement of `letters` |
| `Eager.AnagramCountIsFactTimesFact` | src/main.rs:44-62 | for `n >= 1` letters the eager enumeration returns `n! * (n - 1)!` sequences, so more than `n!` (with repeats) once `n >= 3` |

## Left out

- `main`'s argument reading and printing (`src/main.rs:4-14`, `21`, `27`) are I/O. `Enumerate` keeps only the counting loop and collects the buffers instead of printing them.
- The returned `&Vec<T>` borrows the generator's buffer until the next call. The model returns a snapshot `seq<T>` of the buffer, so the aliasing of the borrowed view is not modelled.
- `Vec::with_capacity` and the promise of no allocation after construction are performance properties and are not modelled.
- The empty `#[test] it_works` asserts nothing.
- `T: Clone` is modelled as a plain copy of a value.
- `usize` arithmetic is modelled with `nat`. Both `len - 1` subtractions that can underflow on an empty input (src/main.rs:34, 140) are excluded by preconditions, because the code panics there. The digit increment cannot overflow, since a digit never exceeds its position.
- `Generator.PermutationGenerator.ProducedAreDistinct`: the model proves that the `n!` buffers are pairwise different rearrangements of a distinct source. It does not separately prove that every rearrangement occurs; that would need a count of the permutations of `n` elements.
- `Generator.Enumerate`: the empty source is excluded. There the code hands out one empty buffer and then panics instead of returning `None`.
- `Generator.Enumerate`: `count` is an unannotated integer literal (`src/main.rs:16`), so Rust gives it the type `i32`, and `count += 1` (`src/main.rs:20`) overflows once it passes 2^31 - 1, which happens for 13 or more letters (13! > 2^31 - 1): a debug build panics, a release build wraps. The model counts with `nat` and does not capture that overflow.
