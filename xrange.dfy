/** `xrange<T>` with `T = int`: a restartable arithmetic range generator.

    The generator keeps its three bounds and never changes them; each
    traversal asks it for a fresh cursor (`Begin`) and a sentinel (`End`),
    steps the cursor by `step` and stops as soon as the cursor's value is no
    longer below the sentinel's. */
module RangeGenerator {

  /** The values one traversal produces: `first`, `first + step`, ... while
      they are below `last`. A positive step is needed for the traversal to
      end. */
  ghost function Produced(first: int, last: int, step: int): seq<int>
    requires step > 0
    decreases last - first
  {
    if first < last then [first] + Produced(first + step, last, step) else []
  }

  /** The `k`-th produced value is `first + k * step`, and it is below `last`. */
  lemma {:induction false} ProducedAt(first: int, last: int, step: int, k: int)
    requires step > 0
    requires 0 <= k < |Produced(first, last, step)|
    ensures Produced(first, last, step)[k] == first + k * step < last
    decreases last - first
  {
    if k > 0 {
      ProducedAt(first + step, last, step, k - 1);
      assert (k - 1) * step + step == k * step;
    }
  }

  /** The value after the last produced one fails the end test, and nothing
      is produced exactly when `first` already fails it. */
  lemma {:induction false} ProducedEnd(first: int, last: int, step: int)
    requires step > 0
    ensures first + |Produced(first, last, step)| * step >= last
    ensures |Produced(first, last, step)| == 0 <==> first >= last
    decreases last - first
  {
    if first < last {
      var n := |Produced(first + step, last, step)|;
      ProducedEnd(first + step, last, step);
      assert first + step + n * step == first + (n + 1) * step;
    }
  }

  /** Conversely, a sequence of the form `first + k * step` whose members are
      all below `last` and whose successor is not is what a traversal
      produces: the traversal keeps exactly the values below `last`. */
  lemma {:induction false} ProducedUnique(first: int, last: int, step: int, vs: seq<int>)
    requires step > 0
    requires forall k :: 0 <= k < |vs| ==> vs[k] == first + k * step && vs[k] < last
    requires first + |vs| * step >= last
    ensures vs == Produced(first, last, step)
    decreases |vs|
  {
    if vs != [] {
      var rest := vs[1..];
      forall k | 0 <= k < |rest|
        ensures rest[k] == first + step + k * step && rest[k] < last
      {
        assert rest[k] == vs[k + 1];
        assert first + (k + 1) * step == first + step + k * step;
      }
      assert first + step + |rest| * step == first + |vs| * step;
      ProducedUnique(first + step, last, step, rest);
      assert vs[0] == first < last;
    }
  }

  /** With a step that is not positive the cursor never moves up, so the
      raw `<` end test of a non-empty range never stops the traversal. */
  lemma NonPositiveStepNeverEnds(first: int, last: int, step: int, n: nat)
    requires step <= 0 && first < last
    ensures first + n * step < last
  {
  }

  /** `xrange::iterator_xrange`: a cursor holding the current value and the step. */
  class XRangeIterator {
    var value: int
    const step: int

    constructor (value: int, step: int)
      ensures this.value == value && this.step == step
    {
      this.value := value;
      this.step := step;
    }

    /** `operator++`: advance by one step. */
    method Next()
      modifies this
      ensures value == old(value) + step
    {
      value := value + step;
    }

    /** `operator!=`: a raw less-than on the two cursors' values. */
    predicate NotEqual(rhs: XRangeIterator)
      reads this, rhs
    {
      value < rhs.value
    }

    /** `operator*`: the current value. */
    function Get(): int
      reads this
    {
      value
    }
  }

  /** `xrange`: the stored bounds of a range. */
  class XRange {
    const first: int
    const last: int
    const step: int

    /** `xrange(first, last, step)`. */
    constructor (first: int, last: int, step: int)
      ensures this.first == first && this.last == last && this.step == step
    {
      this.first := first;
      this.last := last;
      this.step := step;
    }

    /** `xrange(first, last)`: the step defaults to one. */
    constructor FromTo(first: int, last: int)
      ensures this.first == first && this.last == last && step == 1
    {
      this.first := first;
      this.last := last;
      step := 1;
    }

    /** `xrange(last)`: counting from zero by one. */
    constructor UpTo(last: int)
      ensures first == 0 && this.last == last && step == 1
    {
      first := 0;
      this.last := last;
      step := 1;
    }

    /** `begin()`: a fresh cursor at `first`; the generator is not changed. */
    method Begin() returns (it: XRangeIterator)
      ensures fresh(it) && it.value == first && it.step == step
    {
      it := new XRangeIterator(first, step);
    }

    /** `end()`: a fresh sentinel cursor at `last`. */
    method End() returns (it: XRangeIterator)
      ensures fresh(it) && it.value == last && it.step == step
    {
      it := new XRangeIterator(last, step);
    }

    /** One traversal from `begin()` to `end()`, collecting every value, as
        `std::vector<T>(x.begin(), x.end())` does. */
    method Values() returns (vs: seq<int>)
      requires step > 0
      ensures vs == Produced(first, last, step)
    {
      var it := Begin();
      var stop := End();
      vs := [];
      while it.NotEqual(stop)
        invariant stop.value == last
        invariant vs + Produced(it.value, last, step) == Produced(first, last, step)
        decreases last - it.value
      {
        vs := vs + [it.Get()];
        it.Next();
      }
    }

    /** Restartability: two traversals of the same generator agree. */
    method TraverseTwice() returns (once: seq<int>, again: seq<int>)
      requires step > 0
      ensures once == again == Produced(first, last, step)
    {
      once := Values();
      again := Values();
    }
  }
}
