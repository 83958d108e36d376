/** The cases of the library's unit tests, as clients of the model: each
    asserts what the test expects and is proved from the contracts alone. */
module Examples {
  import opened StlAlgo
  import opened RangeGenerator
  import opened ZipAdaptor

  /** C++ `%` on `int`: the remainder takes the sign of the dividend. */
  function CRem(x: int, m: int): int
    requires m > 0
  {
    if x >= 0 then x % m else -((-x) % m)
  }

  /** The tests' `sorted`: strict less-than. */
  function Less(lhs: int, rhs: int): bool {
    lhs < rhs
  }

  /** The tests' `is_even`: `(num + 1) % 2` read as a truth value. */
  function IsEven(num: int): bool {
    CRem(num + 1, 2) != 0
  }

  /** The tests' `same_parity`. */
  function SameParity(lhs: int, rhs: int): bool {
    CRem(lhs, 2) == CRem(rhs, 2)
  }

  /** `all_of(p)` agrees with `none_of(not p)`, and `none_of(p)` is the
      negation of `any_of(p)`, on every range. */
  method Complements(a: seq<int>, lo: int, hi: int, p: int -> bool)
    returns (all: bool, noneOfNot: bool, any: bool, none: bool)
    requires ValidRange(a, lo, hi)
    ensures all == noneOfNot
    ensures none == !any
  {
    ghost var stop;
    all, stop := AllOf(a, lo, hi, p);
    noneOfNot, stop := NoneOf(a, lo, hi, x => !p(x));
    any, stop := AnyOf(a, lo, hi, p);
    none, stop := NoneOf(a, lo, hi, p);
  }

  method IsSortedTest() {
    var v := [1, 2, 3, 4, 5];
    var unsorted := [5, 2, 3, 4, 5];
    var b := IsSorted(v, 0, |v|, Less);
    assert b;
    b := IsSorted(unsorted, 0, |unsorted|, Less);
    assert !Less(unsorted[0], unsorted[1]);
    assert !b;
  }

  method AllOfTest() {
    var even := [2, 4, 6, 8, 10];
    var b, _ := AllOf(even, 0, |even|, IsEven);
    assert b;
  }

  method AnyOfTest() {
    var oneEven := [1, 2, 5, 7, 9];
    var b, _ := AnyOf(oneEven, 0, |oneEven|, IsEven);
    assert IsEven(oneEven[1]);
    assert b;
  }

  method OneOfTest() {
    var oneEven := [1, 2, 5, 7, 9];
    forall j | 0 <= j < |oneEven| && j != 1
      ensures !IsEven(oneEven[j])
    {
      assert oneEven[j] in {1, 5, 7, 9};
    }
    assert IsEven(oneEven[1]);
    var b, _ := OneOf(oneEven, 0, |oneEven|, IsEven);
    assert b;
  }

  method NoneOfTest() {
    var noEven := [1, 3, 5, 7, 9];
    var b, _ := NoneOf(noEven, 0, |noEven|, IsEven);
    assert b;
  }

  method IsPartitionedTest() {
    var partitioned := [2, 4, 6, 7, 9, 11];
    var b := IsPartitioned(partitioned, 0, |partitioned|, IsEven);
    assert AllSatisfy(partitioned, 0, 3, IsEven) && NoneSatisfies(partitioned, 3, 6, IsEven);
    assert b;
  }

  method FindNotTest() {
    var fnot := [1, 1, 1, 2, 1];
    var pos := FindNot(fnot, 0, |fnot|, 1);
    assert fnot[3] != 1;
    assert pos == 3;
    assert fnot[pos] == 2;
  }

  method FindBackwardTest() {
    var fback := [1, 1, 1, 2, 1, 2, 1];
    var pos := FindBackward(fback, 0, |fback|, 2);
    assert fback[5] == 2;
    assert pos == 5;
    assert fback[pos] == 2;
  }

  method IsPalindromeTest() {
    var palik := [1, 2, 3, 4, 5];
    var b := IsPalindrome(palik, 0, |palik|, SameParity);
    assert b;
  }

  method XRangeTest() {
    var x := new XRange(1, 10, 1);
    var xv := x.Values();
    ProducedEnd(1, 10, 1);
    assert |xv| == 9;
    forall k | 0 <= k < 9
      ensures xv[k] == k + 1
    {
      ProducedAt(1, 10, 1, k);
    }
    assert xv == [1, 2, 3, 4, 5, 6, 7, 8, 9];
  }

  method ZipTest() {
    var l := [1, 2, 3, 4, 5];
    var p := ['a', 'b', 'c', 'd'];
    var z := new Zip(l, p);
    var v := z.Pairs();
    assert v == [(1, 'a'), (2, 'b'), (3, 'c'), (4, 'd')];
  }
}
