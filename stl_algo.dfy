/** The nine range algorithms of `namespace stl_algo`.

    A C++ iterator range `[iter_left, iter_right)` over a caller-owned container
    is modelled as a sequence `a` with two integer positions `lo` and `hi`; the
    element type is fixed to `int`. A unary predicate is a total function
    `int -> bool`, a binary one `(int, int) -> bool`. Every algorithm is a
    `while` loop that moves the positions exactly as the C++ moves its
    iterators, and is proved against the quantified specification below. */
module StlAlgo {

  /** `[lo, hi)` is a half-open range of positions into `a`. */
  predicate ValidRange(a: seq<int>, lo: int, hi: int) {
    0 <= lo <= hi <= |a|
  }

  // ---------------------------------------------------------------------
  // Specification
  // ---------------------------------------------------------------------

  ghost predicate AllSatisfy(a: seq<int>, lo: int, hi: int, p: int -> bool)
    requires ValidRange(a, lo, hi)
  {
    forall i :: lo <= i < hi ==> p(a[i])
  }

  ghost predicate SomeSatisfies(a: seq<int>, lo: int, hi: int, p: int -> bool)
    requires ValidRange(a, lo, hi)
  {
    exists i :: lo <= i < hi && p(a[i])
  }

  ghost predicate NoneSatisfies(a: seq<int>, lo: int, hi: int, p: int -> bool)
    requires ValidRange(a, lo, hi)
  {
    forall i :: lo <= i < hi ==> !p(a[i])
  }

  /** Exactly one position of the range holds an element satisfying `p`. */
  ghost predicate ExactlyOne(a: seq<int>, lo: int, hi: int, p: int -> bool)
    requires ValidRange(a, lo, hi)
  {
    exists i :: lo <= i < hi && p(a[i]) && forall j :: lo <= j < hi && j != i ==> !p(a[j])
  }

  /** The number of elements of the range that satisfy `p`. */
  ghost function Count(a: seq<int>, lo: int, hi: int, p: int -> bool): (n: nat)
    requires ValidRange(a, lo, hi)
    ensures n <= hi - lo
    decreases hi - lo
  {
    if lo == hi then 0 else Count(a, lo, hi - 1, p) + (if p(a[hi - 1]) then 1 else 0)
  }

  /** Every adjacent pair of the range is in relation `le`. */
  ghost predicate SortedBy(a: seq<int>, lo: int, hi: int, le: (int, int) -> bool)
    requires ValidRange(a, lo, hi)
  {
    forall i :: lo <= i && i + 1 < hi ==> le(a[i], a[i + 1])
  }

  /** Every pair of the range, adjacent or not, is in relation `le`. */
  ghost predicate PairwiseBy(a: seq<int>, lo: int, hi: int, le: (int, int) -> bool)
    requires ValidRange(a, lo, hi)
  {
    forall i, j :: lo <= i < j < hi ==> le(a[i], a[j])
  }

  ghost predicate Transitive(le: (int, int) -> bool) {
    forall x, y, z :: le(x, y) && le(y, z) ==> le(x, z)
  }

  /** Some split point `k` has every element before it satisfying `p` and
      every element from it on failing `p`. */
  ghost predicate PartitionedBy(a: seq<int>, lo: int, hi: int, p: int -> bool)
    requires ValidRange(a, lo, hi)
  {
    exists k :: lo <= k <= hi && AllSatisfy(a, lo, k, p) && NoneSatisfies(a, k, hi, p)
  }

  /** No element satisfying `p` comes after an element that fails it. */
  ghost predicate NoTrueAfterFalse(a: seq<int>, lo: int, hi: int, p: int -> bool)
    requires ValidRange(a, lo, hi)
  {
    forall i, j :: lo <= i < j < hi && !p(a[i]) ==> !p(a[j])
  }

  /** Every element in the first half of the range is in relation `eq` with
      its mirror image `a[lo + hi - 1 - i]`; the middle element of an odd
      range has no partner. */
  ghost predicate MirroredBy(a: seq<int>, lo: int, hi: int, eq: (int, int) -> bool)
    requires ValidRange(a, lo, hi)
  {
    forall i :: lo <= i && i < lo + hi - 1 - i ==> eq(a[i], a[lo + hi - 1 - i])
  }

  /** The elements of `s` in the opposite order. */
  ghost function Reversed(s: seq<int>): (r: seq<int>)
    ensures |r| == |s|
  {
    if s == [] then [] else Reversed(s[1..]) + [s[0]]
  }

  // ---------------------------------------------------------------------
  // Lemmas about the specification
  // ---------------------------------------------------------------------

  /** Counting is additive over adjacent ranges. */
  lemma {:induction false} CountSplit(a: seq<int>, lo: int, mid: int, hi: int, p: int -> bool)
    requires 0 <= lo <= mid <= hi <= |a|
    ensures Count(a, lo, hi, p) == Count(a, lo, mid, p) + Count(a, mid, hi, p)
    decreases hi - mid
  {
    if mid < hi {
      CountSplit(a, lo, mid, hi - 1, p);
    }
  }

  /** No element satisfies `p` exactly when the count is zero. */
  lemma {:induction false} CountZeroIffNone(a: seq<int>, lo: int, hi: int, p: int -> bool)
    requires ValidRange(a, lo, hi)
    ensures Count(a, lo, hi, p) == 0 <==> NoneSatisfies(a, lo, hi, p)
    ensures Count(a, lo, hi, p) > 0 <==> SomeSatisfies(a, lo, hi, p)
    decreases hi - lo
  {
    if lo < hi {
      CountZeroIffNone(a, lo, hi - 1, p);
    }
  }

  /** Every element satisfies `p` exactly when all of them are counted. */
  lemma {:induction false} CountFullIffAll(a: seq<int>, lo: int, hi: int, p: int -> bool)
    requires ValidRange(a, lo, hi)
    ensures Count(a, lo, hi, p) == hi - lo <==> AllSatisfy(a, lo, hi, p)
    decreases hi - lo
  {
    if lo < hi {
      CountFullIffAll(a, lo, hi - 1, p);
    }
  }

  /** When the last element satisfies `p`, it is the only one exactly when
      no earlier element does. */
  lemma ExactlyOneLastTrue(a: seq<int>, lo: int, hi: int, p: int -> bool)
    requires ValidRange(a, lo, hi) && lo < hi && p(a[hi - 1])
    ensures ExactlyOne(a, lo, hi, p) <==> NoneSatisfies(a, lo, hi - 1, p)
  {
  }

  /** When the last element fails `p`, dropping it changes nothing. */
  lemma ExactlyOneLastFalse(a: seq<int>, lo: int, hi: int, p: int -> bool)
    requires ValidRange(a, lo, hi) && lo < hi && !p(a[hi - 1])
    ensures ExactlyOne(a, lo, hi, p) <==> ExactlyOne(a, lo, hi - 1, p)
  {
  }

  /** A count of one means exactly one satisfying position, and conversely. */
  lemma {:induction false} CountOneIffExactlyOne(a: seq<int>, lo: int, hi: int, p: int -> bool)
    requires ValidRange(a, lo, hi)
    ensures Count(a, lo, hi, p) == 1 <==> ExactlyOne(a, lo, hi, p)
    decreases hi - lo
  {
    if lo == hi {
      assert !ExactlyOne(a, lo, hi, p);
    } else {
      if p(a[hi - 1]) {
        assert Count(a, lo, hi, p) == Count(a, lo, hi - 1, p) + 1;
        CountZeroIffNone(a, lo, hi - 1, p);
        assert Count(a, lo, hi - 1, p) == 0 <==> NoneSatisfies(a, lo, hi - 1, p);
        ExactlyOneLastTrue(a, lo, hi, p);
      } else {
        assert Count(a, lo, hi, p) == Count(a, lo, hi - 1, p);
        CountOneIffExactlyOne(a, lo, hi - 1, p);
        ExactlyOneLastFalse(a, lo, hi, p);
        assert Count(a, lo, hi, p) == 1 <==> ExactlyOne(a, lo, hi - 1, p);
      }
    }
  }

  /** For a transitive relation, checking adjacent pairs is enough: the range
      is then ordered pairwise, and conversely. */
  lemma {:induction false} SortedByIffPairwise(a: seq<int>, lo: int, hi: int, le: (int, int) -> bool)
    requires ValidRange(a, lo, hi)
    requires Transitive(le)
    ensures SortedBy(a, lo, hi, le) <==> PairwiseBy(a, lo, hi, le)
    decreases hi - lo
  {
    if lo < hi && SortedBy(a, lo, hi, le) {
      assert SortedBy(a, lo + 1, hi, le);
      SortedByIffPairwise(a, lo + 1, hi, le);
      forall i, j | lo <= i < j < hi
        ensures le(a[i], a[j])
      {
        if i > lo {
          assert PairwiseBy(a, lo + 1, hi, le);
        } else if j == lo + 1 {
          assert le(a[lo], a[lo + 1]);
        } else {
          var x, y, z := a[lo], a[lo + 1], a[j];
          assert le(x, y) && le(y, z);
        }
      }
    }
  }

  /** The split-point form of a partition and the "no true after a false"
      form are the same property. */
  lemma {:induction false} PartitionedIffNoTrueAfterFalse(a: seq<int>, lo: int, hi: int, p: int -> bool)
    requires ValidRange(a, lo, hi)
    ensures PartitionedBy(a, lo, hi, p) <==> NoTrueAfterFalse(a, lo, hi, p)
    decreases hi - lo
  {
    if PartitionedBy(a, lo, hi, p) {
      var k :| lo <= k <= hi && AllSatisfy(a, lo, k, p) && NoneSatisfies(a, k, hi, p);
      forall i, j | lo <= i < j < hi && !p(a[i])
        ensures !p(a[j])
      {
        assert k <= i;
      }
    }
    if NoTrueAfterFalse(a, lo, hi, p) && lo < hi {
      if !p(a[lo]) {
        assert AllSatisfy(a, lo, lo, p) && NoneSatisfies(a, lo, hi, p);
      } else {
        PartitionedIffNoTrueAfterFalse(a, lo + 1, hi, p);
        var k :| lo + 1 <= k <= hi && AllSatisfy(a, lo + 1, k, p) && NoneSatisfies(a, k, hi, p);
        assert AllSatisfy(a, lo, k, p);
      }
    } else if lo == hi {
      assert AllSatisfy(a, lo, lo, p) && NoneSatisfies(a, lo, hi, p);
    }
  }

  /** Position `k` of `Reversed(s)` holds `s[|s| - 1 - k]`. */
  lemma {:induction false} ReversedAt(s: seq<int>, k: int)
    requires 0 <= k < |s|
    ensures Reversed(s)[k] == s[|s| - 1 - k]
  {
    if k < |s| - 1 {
      ReversedAt(s[1..], k);
    }
  }

  /** Under element equality, a mirrored range is exactly a range that reads
      the same reversed. */
  lemma MirroredByEqualityIffReversed(a: seq<int>, lo: int, hi: int, eq: (int, int) -> bool)
    requires ValidRange(a, lo, hi)
    requires forall x, y :: eq(x, y) <==> x == y
    ensures MirroredBy(a, lo, hi, eq) <==> a[lo..hi] == Reversed(a[lo..hi])
  {
    var s := a[lo..hi];
    forall k | 0 <= k < |s|
      ensures Reversed(s)[k] == a[hi - 1 - k]
    {
      ReversedAt(s, k);
    }
    if MirroredBy(a, lo, hi, eq) {
      forall k | 0 <= k < |s|
        ensures s[k] == Reversed(s)[k]
      {
        var i := lo + k;
        if i < lo + hi - 1 - i {
          assert eq(a[i], a[lo + hi - 1 - i]);
        } else if i > lo + hi - 1 - i {
          var m := lo + hi - 1 - i;
          assert eq(a[m], a[lo + hi - 1 - m]);
        }
      }
    }
    if s == Reversed(s) {
      forall i | lo <= i && i < lo + hi - 1 - i
        ensures eq(a[i], a[lo + hi - 1 - i])
      {
        assert s[i - lo] == Reversed(s)[i - lo];
      }
    }
  }

  // ---------------------------------------------------------------------
  // The algorithms
  // ---------------------------------------------------------------------

  /** `all_of`: true iff every element satisfies `pred`. The ghost `stop` is
      where the scan returned: the first failing position, or `hi`. */
  method AllOf(a: seq<int>, lo: int, hi: int, pred: int -> bool) returns (b: bool, ghost stop: int)
    requires ValidRange(a, lo, hi)
    ensures b <==> AllSatisfy(a, lo, hi, pred)
    ensures lo <= stop <= hi && AllSatisfy(a, lo, stop, pred)
    ensures b == (stop == hi)
    ensures stop < hi ==> !pred(a[stop])
  {
    var left := lo;
    while left != hi
      invariant lo <= left <= hi
      invariant AllSatisfy(a, lo, left, pred)
    {
      if !pred(a[left]) {
        return false, left;
      }
      left := left + 1;
    }
    return true, hi;
  }

  /** `any_of`: true iff some element satisfies `pred`. The ghost `stop` is
      the first satisfying position, or `hi`. */
  method AnyOf(a: seq<int>, lo: int, hi: int, pred: int -> bool) returns (b: bool, ghost stop: int)
    requires ValidRange(a, lo, hi)
    ensures b <==> SomeSatisfies(a, lo, hi, pred)
    ensures lo <= stop <= hi && NoneSatisfies(a, lo, stop, pred)
    ensures b == (stop < hi)
    ensures stop < hi ==> pred(a[stop])
  {
    var left := lo;
    while left != hi
      invariant lo <= left <= hi
      invariant NoneSatisfies(a, lo, left, pred)
    {
      if pred(a[left]) {
        return true, left;
      }
      left := left + 1;
    }
    return false, hi;
  }

  /** `none_of`: true iff no element satisfies `pred`. The ghost `stop` is
      the first satisfying position, or `hi`. */
  method NoneOf(a: seq<int>, lo: int, hi: int, pred: int -> bool) returns (b: bool, ghost stop: int)
    requires ValidRange(a, lo, hi)
    ensures b <==> NoneSatisfies(a, lo, hi, pred)
    ensures b <==> !SomeSatisfies(a, lo, hi, pred)
    ensures lo <= stop <= hi && NoneSatisfies(a, lo, stop, pred)
    ensures b == (stop == hi)
    ensures stop < hi ==> pred(a[stop])
  {
    var left := lo;
    while left != hi
      invariant lo <= left <= hi
      invariant NoneSatisfies(a, lo, left, pred)
    {
      if pred(a[left]) {
        return false, left;
      }
      left := left + 1;
    }
    return true, hi;
  }

  /** `one_of`: true iff exactly one element satisfies `pred`. The scan
      returns false at the second match; the ghost `stop` is that second
      match, or `hi` when the whole range was scanned. */
  method OneOf(a: seq<int>, lo: int, hi: int, pred: int -> bool) returns (b: bool, ghost stop: int)
    requires ValidRange(a, lo, hi)
    ensures b <==> ExactlyOne(a, lo, hi, pred)
    ensures b <==> Count(a, lo, hi, pred) == 1
    ensures lo <= stop <= hi && Count(a, lo, stop, pred) <= 1
    ensures stop < hi ==> !b && pred(a[stop]) && Count(a, lo, stop, pred) == 1
  {
    var oneFits := false;
    var left := lo;
    while left != hi
      invariant lo <= left <= hi
      invariant Count(a, lo, left, pred) <= 1
      invariant oneFits <==> Count(a, lo, left, pred) == 1
    {
      if pred(a[left]) {
        if oneFits {
          CountSplit(a, lo, left + 1, hi, pred);
          CountOneIffExactlyOne(a, lo, hi, pred);
          return false, left;
        } else {
          oneFits := true;
        }
      }
      left := left + 1;
    }
    CountOneIffExactlyOne(a, lo, hi, pred);
    if oneFits {
      return true, hi;
    } else {
      return false, hi;
    }
  }

  /** `is_sorted`: true iff every adjacent pair satisfies `pred`. The range
      must be non-empty: the end is stepped back before the scan. */
  method IsSorted(a: seq<int>, lo: int, hi: int, pred: (int, int) -> bool) returns (b: bool)
    requires ValidRange(a, lo, hi) && lo < hi
    ensures b <==> SortedBy(a, lo, hi, pred)
  {
    var left, right := lo, hi - 1;
    while left != right
      invariant lo <= left <= right
      invariant SortedBy(a, lo, left + 1, pred)
    {
      if !pred(a[left], a[left + 1]) {
        return false;
      }
      left := left + 1;
    }
    return true;
  }

  /** `is_partitioned`: skips the prefix satisfying `pred`, then fails at the
      first later element that satisfies it. */
  method IsPartitioned(a: seq<int>, lo: int, hi: int, pred: int -> bool) returns (b: bool)
    requires ValidRange(a, lo, hi)
    ensures b <==> PartitionedBy(a, lo, hi, pred)
    ensures b <==> NoTrueAfterFalse(a, lo, hi, pred)
  {
    var left := lo;
    while left != hi
      invariant lo <= left <= hi
      invariant AllSatisfy(a, lo, left, pred)
    {
      if !pred(a[left]) {
        break;
      }
      left := left + 1;
    }
    ghost var split := left;
    while left != hi
      invariant split <= left <= hi
      invariant NoneSatisfies(a, split, left, pred)
    {
      if pred(a[left]) {
        assert !pred(a[split]);
        PartitionedIffNoTrueAfterFalse(a, lo, hi, pred);
        return false;
      }
      left := left + 1;
    }
    assert AllSatisfy(a, lo, split, pred) && NoneSatisfies(a, split, hi, pred);
    PartitionedIffNoTrueAfterFalse(a, lo, hi, pred);
    return true;
  }

  /** `find_not`: the first position whose element differs from `value`, or
      `hi` when there is none. */
  method FindNot(a: seq<int>, lo: int, hi: int, value: int) returns (pos: int)
    requires ValidRange(a, lo, hi)
    ensures lo <= pos <= hi
    ensures forall i :: lo <= i < pos ==> a[i] == value
    ensures pos < hi ==> a[pos] != value
  {
    var left := lo;
    while left != hi
      invariant lo <= left <= hi
      invariant forall i :: lo <= i < left ==> a[i] == value
    {
      if a[left] != value {
        return left;
      }
      left := left + 1;
    }
    return hi;
  }

  /** `find_backward`: the last position whose element equals `value`, or
      the original end `hi` when there is none. The scan steps the position
      down to `lo - 1` when the value is absent. */
  method FindBackward(a: seq<int>, lo: int, hi: int, value: int) returns (pos: int)
    requires ValidRange(a, lo, hi)
    ensures pos == hi <==> forall i :: lo <= i < hi ==> a[i] != value
    ensures pos != hi ==> lo <= pos < hi && a[pos] == value
    ensures pos != hi ==> forall i :: pos < i < hi ==> a[i] != value
  {
    var end := hi;
    var right := hi - 1;
    while right >= lo
      invariant lo - 1 <= right < hi
      invariant forall i :: right < i < hi ==> a[i] != value
    {
      if a[right] == value {
        return right;
      }
      right := right - 1;
    }
    return end;
  }

  /** `is_palindrome`: compares mirrored elements, moving inwards from both
      ends while the left position is before the right one. */
  method IsPalindrome(a: seq<int>, lo: int, hi: int, pred: (int, int) -> bool) returns (b: bool)
    requires ValidRange(a, lo, hi)
    ensures b <==> MirroredBy(a, lo, hi, pred)
  {
    var left, right := lo, hi - 1;
    while left < right
      invariant lo <= left <= right + 1 && left + right == lo + hi - 1
      invariant forall i :: lo <= i < left ==> pred(a[i], a[lo + hi - 1 - i])
    {
      if !pred(a[left], a[right]) {
        return false;
      }
      left := left + 1;
      right := right - 1;
    }
    return true;
  }
}
