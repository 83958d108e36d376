# stl_algorithms in Dafny

A model of the header `lib/STLalgo.h`: the nine range algorithms of
`namespace stl_algo`, the arithmetic range generator `xrange` with its cursor
`iterator_xrange`, and the lockstep adaptor `zip` with its cursor
`iterator_zip`.

- `stl_algo.dfy` (module `StlAlgo`). A C++ range `[iter_left, iter_right)` is
  a `seq<int>` with two integer positions `lo` and `hi`; a predicate is a
  total Dafny function `int -> bool` or `(int, int) -> bool`. Each algorithm
  is a method whose `while` loop moves its positions as the C++ moves its
  iterators (`find_backward` and `is_palindrome` step the end back first;
  `find_backward` walks down to `lo - 1` when the value is absent). Each is
  proved against a quantified specification (`AllSatisfy`, `ExactlyOne`,
  `SortedBy`, `PartitionedBy`, `MirroredBy`, ...), and lemmas relate the
  specifications to a count of satisfying elements, to pairwise order, to the
  "no true after a false" form of a partition and to sequence reversal.
  `all_of`, `any_of`, `none_of` and `one_of` also return a ghost position
  `stop`: where the scan returned, which states their short-circuiting.
- `xrange.dfy` (module `RangeGenerator`). `XRange` keeps `first`, `last` and
  `step` as constants; `XRangeIterator` holds a mutable `value` that
  `operator++` advances by `step`, and its `operator!=` is the raw `value <
  rhs.value`. `XRange.Values` is one traversal from `begin()` to `end()`, as
  `std::vector<int>(x.begin(), x.end())` performs it; the lemmas characterise
  what it produces.
- `zip.dfy` (module `ZipAdaptor`). `Zip<A, B>` refers to two sequences;
  `ZipIterator` holds one position into each, advanced together, and its
  `operator!=` holds only while both positions differ from the sentinel's.
  `Zip.Pairs` is one traversal, as a range-based `for` performs it.
- `examples.dfy` (module `Examples`). The cases of `tests/tests.cpp`, written
  as client methods that assert the expected results from the contracts
  alone. The tests' helpers are modelled with C++'s truncating `%`.

With integer positions, stepping the end of an empty range back to `lo - 1`
is harmless, so `FindBackward` (which returns `hi`) and `IsPalindrome`
(which returns true) need no non-empty precondition; in C++ decrementing
`begin()` is undefined, so callers should still pass non-empty ranges there.
`IsSorted` keeps `lo < hi`: on an empty range its loop would compare past
the range and never stop.

## Model

| member | source | states |
|---|---|---|
| StlAlgo.AllOf | lib/STLalgo.h:8-18 | true iff every element of the range satisfies the predicate (true on an empty range); the scan returns at the first failing element |
| StlAlgo.AnyOf | lib/STLalgo.h:20-30 | true iff some element satisfies the predicate (false on an empty range); the scan returns at the first satisfying element |
| StlAlgo.NoneOf | lib/STLalgo.h:32-42 | true iff no element satisfies the predicate, i.e. the negation of any-of (true on an empty range); returns at the first satisfying element |
| StlAlgo.OneOf | lib/STLalgo.h:44-64 | true iff exactly one position satisfies the predicate, equivalently the count of satisfying elements is 1; returns false at the second match, and false on zero matches |
| StlAlgo.IsSorted | lib/STLalgo.h:66-77 | for a non-empty range, true iff every adjacent pair satisfies the relation; a one-element range is sorted |
| StlAlgo.IsPartitioned | lib/STLalgo.h:79-96 | true iff some split point has all satisfying elements before it and none from it on, equivalently no satisfying element follows a failing one; true on an empty range |
| StlAlgo.FindNot | lib/STLalgo.h:98-108 | the first position whose element differs from the value, every earlier one being equal; the end when there is none |
| StlAlgo.FindBackward | lib/STLalgo.h:110-122 | the last position whose element equals the value, every later one differing; the original end exactly when the value is absent |
| StlAlgo.IsPalindrome | lib/STLalgo.h:124-136 | true iff every element of the first half is related to its mirror image; the middle of an odd range is never compared |
| StlAlgo.CountZeroIffNone | lib/STLalgo.h:20-42 | no element satisfies the predicate exactly when the count is zero, and some does exactly when it is positive |
| StlAlgo.CountFullIffAll | lib/STLalgo.h:8-18 | every element satisfies the predicate exactly when the count equals the range's length |
| StlAlgo.CountOneIffExactlyOne | lib/STLalgo.h:44-64 | a count of one is the same as exactly one satisfying position, both directions |
| StlAlgo.SortedByIffPairwise | lib/STLalgo.h:66-77 | for a transitive relation, the adjacent-pair check holds exactly when every ordered pair of the range is related |
| StlAlgo.PartitionedIffNoTrueAfterFalse | lib/STLalgo.h:79-96 | the split-point form of a partition and the no-true-after-a-false form are equivalent |
| StlAlgo.MirroredByEqualityIffReversed | lib/STLalgo.h:124-136 | under element equality, the palindrome check holds exactly when the range equals its reversal |
| Examples.Complements | lib/STLalgo.h:8-42 | all-of of a predicate agrees with none-of of its negation, and none-of is the negation of any-of |
| RangeGenerator.XRange.constructor | lib/STLalgo.h:158 | the three-argument form stores first, last and step |
| RangeGenerator.XRange.FromTo | lib/STLalgo.h:156 | the two-argument form sets step to 1 |
| RangeGenerator.XRange.UpTo | lib/STLalgo.h:160 | the one-argument form sets first to 0 and step to 1 |
| RangeGenerator.XRangeIterator.constructor | lib/STLalgo.h:173-176 | a cursor holds the given value and step |
| RangeGenerator.XRangeIterator.Next | lib/STLalgo.h:178-182 | advancing adds the step to the value and changes nothing else |
| RangeGenerator.XRange.Begin | lib/STLalgo.h:201-203 | a fresh cursor at first with the generator's step; the generator is not modified |
| RangeGenerator.XRange.End | lib/STLalgo.h:205-207 | a fresh sentinel cursor at last; the generator is not modified |
| RangeGenerator.XRange.Values | lib/STLalgo.h:178-207 | a traversal from begin to end, stopping when the cursor is no longer below the sentinel, yields exactly the produced sequence first, first+step, ... below last |
| RangeGenerator.XRange.TraverseTwice | lib/STLalgo.h:201-207 | two traversals of the same generator yield the same sequence |
| RangeGenerator.ProducedAt | lib/STLalgo.h:178-186 | the k-th produced value is first + k*step and is below last |
| RangeGenerator.ProducedEnd | lib/STLalgo.h:184-186 | the value after the last produced one is not below last; nothing is produced exactly when first is not below last |
| RangeGenerator.ProducedUnique | lib/STLalgo.h:178-186 | any sequence of the values first + k*step below last whose successor is not below last is the produced sequence |
| RangeGenerator.NonPositiveStepNeverEnds | lib/STLalgo.h:184-186 | with a step of zero or less and first below last, the cursor stays below last after any number of steps |
| ZipAdaptor.Zip.constructor | lib/STLalgo.h:228-229 | the adaptor refers to the two given containers |
| ZipAdaptor.ZipIterator.constructor | lib/STLalgo.h:245-246 | a cursor holds one position into each container |
| ZipAdaptor.ZipIterator.Next | lib/STLalgo.h:248-253 | both positions advance by one together |
| ZipAdaptor.Zip.Begin | lib/STLalgo.h:272-274 | a fresh cursor at both containers' first positions |
| ZipAdaptor.Zip.End | lib/STLalgo.h:276-278 | a fresh sentinel at both containers' ends |
| ZipAdaptor.Zip.Pairs | lib/STLalgo.h:248-277 | a traversal, continuing only while both positions differ from their ends, yields exactly min(len a, len b) pairs, the i-th being (a[i], b[i]) |

## Left out

- C++ template machinery (the typedefs, iterator categories, `operator->`, list versus vector iterators): elements are `int` in the algorithms and positions are integers.
- Element types other than `int` for the nine algorithms and for `xrange`; floating-point `xrange` is not modelled.
- Bounded integer width: `value_ += step_` in `xrange` and the positions are unbounded integers, so overflow near the type's limits is not modelled.
- RangeGenerator.XRange.Values: requires `step > 0`; with a non-positive step and `first < last` the source's traversal never ends (NonPositiveStepNeverEnds).
- StlAlgo.IsSorted: requires a non-empty range, which the source demands because it steps the end back first.
- Short-circuiting of `is_sorted`, `is_partitioned`, `find_*` and `is_palindrome` is not exposed beyond their results: predicates are pure functions, so the number of calls is not observable in the model.
- The undefined behaviour of stepping a C++ iterator before `begin()` (empty ranges in `find_backward` and `is_palindrome`, an absent value in `find_backward`): positions are integers, where this is harmless.
- `zip`'s non-owning references: the containers are immutable sequences, so lifetime, aliasing and mutation during a traversal are not modelled.
- The `iterator_xrange` and `iterator_zip` comparisons and dereferences (`NotEqual`, `Get`) are plain functions without contracts of their own; their behaviour is stated through the traversals `Values` and `Pairs`.
- The test harness (gtest) itself; its cases appear only as the client methods of `Examples`.
