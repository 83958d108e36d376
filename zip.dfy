/** `zip<container1, container2>`: walks two containers in lockstep.

    The two containers are modelled as immutable sequences that the adaptor
    and its cursors refer to; a cursor is a pair of positions, one into each
    container. */
module ZipAdaptor {

  function Min(m: int, n: int): (r: int)
    ensures r <= m && r <= n && (r == m || r == n)
  {
    if m <= n then m else n
  }

  /** `zip::iterator_zip`: one position into each container. */
  class ZipIterator<A, B> {
    const xs: seq<A>
    const ys: seq<B>
    var pos1: int
    var pos2: int

    constructor (xs: seq<A>, ys: seq<B>, pos1: int, pos2: int)
      ensures this.xs == xs && this.ys == ys && this.pos1 == pos1 && this.pos2 == pos2
    {
      this.xs := xs;
      this.ys := ys;
      this.pos1 := pos1;
      this.pos2 := pos2;
    }

    /** `operator++`: both positions advance together. */
    method Next()
      modifies this
      ensures pos1 == old(pos1) + 1 && pos2 == old(pos2) + 1
    {
      pos1 := pos1 + 1;
      pos2 := pos2 + 1;
    }

    /** `operator!=`: true only while BOTH positions differ from the other
        cursor's. */
    predicate NotEqual(rhs: ZipIterator<A, B>)
      reads this, rhs
    {
      pos1 != rhs.pos1 && pos2 != rhs.pos2
    }

    /** `operator*`: a copy of the two current elements. */
    function Get(): (A, B)
      reads this
      requires 0 <= pos1 < |xs| && 0 <= pos2 < |ys|
    {
      (xs[pos1], ys[pos2])
    }
  }

  /** `zip`: refers to the two containers. */
  class Zip<A, B> {
    const xs: seq<A>
    const ys: seq<B>

    constructor (xs: seq<A>, ys: seq<B>)
      ensures this.xs == xs && this.ys == ys
    {
      this.xs := xs;
      this.ys := ys;
    }

    /** `begin()`: both containers' first positions. */
    method Begin() returns (it: ZipIterator<A, B>)
      ensures fresh(it) && it.xs == xs && it.ys == ys && it.pos1 == 0 && it.pos2 == 0
    {
      it := new ZipIterator(xs, ys, 0, 0);
    }

    /** `end()`: both containers' end positions. */
    method End() returns (it: ZipIterator<A, B>)
      ensures fresh(it) && it.xs == xs && it.ys == ys && it.pos1 == |xs| && it.pos2 == |ys|
    {
      it := new ZipIterator(xs, ys, |xs|, |ys|);
    }

    /** One traversal from `begin()` to `end()`, as a range-based `for` does,
        collecting every pair: as many pairs as the shorter container has
        elements, the `i`-th pairing the two `i`-th elements. */
    method Pairs() returns (ps: seq<(A, B)>)
      ensures |ps| == Min(|xs|, |ys|)
      ensures forall i :: 0 <= i < |ps| ==> ps[i] == (xs[i], ys[i])
    {
      var it := Begin();
      var stop := End();
      ps := [];
      while it.NotEqual(stop)
        invariant stop.pos1 == |xs| && stop.pos2 == |ys|
        invariant it.pos1 == it.pos2 == |ps| <= Min(|xs|, |ys|)
        invariant forall i :: 0 <= i < |ps| ==> ps[i] == (xs[i], ys[i])
        decreases |xs| - it.pos1
      {
        ps := ps + [it.Get()];
        it.Next();
      }
    }
  }
}
