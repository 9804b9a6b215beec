/** `ReferenceOverlapAlgorithm` of src/python/overlap_ref.py: the same
    sorted edges as the optimised class, but `find` starts from the number
    of ranges every time, changes nothing, and stops at the first level
    where both scans find an edge, without asking that `lo <= hi`. */
module PyOverlapRef {
  import opened Bytes
  import opened Overlap
  import opened PyOverlap

  /** The levels of the reference `find` from `w` down: the first where both
      scans find an edge gives them; when even level 1 does not, the count
      is still 1, with what level 1 gave. */
  function RefSearch(es: seq<Edge>, w: nat): (r: (nat, Option<int>, Option<int>))
    requires w >= 1
    ensures 1 <= r.0 <= w
  {
    var lo := Lo(es, w, false);
    var hi := Hi(es, w, false);
    if lo.Some? && hi.Some? then (w, lo, hi)
    else if w == 1 then (1, lo, hi)
    else RefSearch(es, w - 1)
  }

  /** What `find` returns for `n` ranges: nothing when there is none. */
  function RefResult(es: seq<Edge>, n: nat): (nat, Option<int>, Option<int>) {
    if n == 0 then (0, None, None) else RefSearch(es, n)
  }

  /** The reference search stops at the highest level where both ends exist. */
  lemma {:induction false} RefSearchIsBest(es: seq<Edge>, w: nat)
    requires w >= 1
    ensures var c := Best(es, w, false, false);
      RefSearch(es, w) == if c > 0 then (c, Lo(es, c, false), Hi(es, c, false))
                          else (1, Lo(es, 1, false), Hi(es, 1, false))
  {
    if w > 1 && !Passes(es, w, false, false) {
      RefSearchIsBest(es, w - 1);
    }
  }

  /** For the edges of `n >= 1` ranges, none inverted, the reference `find`
      returns the number of overlaps, at least one, with both ends present
      and in order. */
  lemma {:induction false} RefIsPeak(es: seq<Edge>, n: nat)
    requires LexSorted(es) && EdgesOf(es, n) && StartsOpen(es) && n >= 1
    ensures var (count, lo, hi) := RefResult(es, n);
      && count == Peak(es) >= 1
      && lo == Lo(es, count, false) && hi == Hi(es, count, false)
      && lo.Some? && hi.Some? && lo.value <= hi.value
  {
    LexValueSorted(es);
    BestIsPeak(es, n, false);
    RefSearchIsBest(es, n);
    StartsOpenPeak(es);
    OrderedWhenFound(es, Peak(es));
  }

  /** The optimised `find` and the reference one agree on the same ranges,
      whatever level at or above the number of overlaps the optimised one
      starts from. */
  lemma {:induction false} RefAgrees(rs: seq<(int, int)>, w: nat)
    requires forall i :: 0 <= i < |rs| ==> Ordered(rs[i])
    requires Peak(AddAll([], rs)) <= w
    ensures FindResult(AddAll([], rs), w) == RefResult(AddAll([], rs), |rs|)
  {
    AddAllInvariant(rs);
    FindIsPeak(AddAll([], rs), |rs|, w);
    if rs != [] {
      RefIsPeak(AddAll([], rs), |rs|);
    }
  }

  /** The `for allow in range(self._responses)` loop of `find`, on the
      edges and the number of ranges: level `n - allow` is tried until both
      scans find an edge; past the last level the count is that of level 1. */
  method RefLevels(es: seq<Edge>, n: nat) returns (count: nat, lo: Option<int>, hi: Option<int>)
    requires n >= 1
    ensures (count, lo, hi) == RefSearch(es, n)
  {
    count, lo, hi := 0, None, None;
    for allow := 0 to n
      invariant allow < n ==> RefSearch(es, n) == RefSearch(es, n - allow)
      invariant allow == n ==> RefSearch(es, n) == (count, lo, hi)
    {
      count := n - allow;
      lo := ScanLo(es, count);
      hi := ScanHi(es, count);
      if lo.Some? && hi.Some? {
        break;
      }
    }
  }

  class ReferenceOverlapAlgorithm {
    /** `_edges`: the sorted edges of the ranges added. */
    var edges: seq<Edge>
    /** `_responses`: how many ranges were added. */
    var responses: nat
    /** The ranges added, in order. */
    ghost var ranges: seq<(int, int)>

    /** The edges are those of the ranges added, none of them inverted. */
    ghost predicate Valid()
      reads this
    {
      && (forall i :: 0 <= i < |ranges| ==> Ordered(ranges[i]))
      && edges == AddAll([], ranges)
      && responses == |ranges|
    }

    constructor ()
      ensures Valid() && edges == [] && responses == 0 && ranges == []
    {
      edges := [];
      responses := 0;
      ranges := [];
    }

    /** `ReferenceOverlapAlgorithm(ranges)`: the ranges added in order; an
        inverted range raises ValueError, here `null`. */
    static method FromRanges(rs: seq<(int, int)>) returns (a: ReferenceOverlapAlgorithm?)
      ensures a == null <==> exists i :: 0 <= i < |rs| && !Ordered(rs[i])
      ensures a != null ==> fresh(a) && a.Valid() && a.ranges == rs
    {
      a := new ReferenceOverlapAlgorithm();
      for i := 0 to |rs|
        invariant fresh(a) && a.Valid() && a.ranges == rs[..i]
      {
        var ok := a.Add(rs[i].0, rs[i].1);
        if !ok {
          return null;
        }
        PrefixStep(rs, i);
      }
      PrefixStep(rs, |rs|);
    }

    /** `add`: an inverted range raises; otherwise both edges are appended,
        the list is sorted and one more response is counted. */
    method Add(lo: int, hi: int) returns (ok: bool)
      requires Valid()
      modifies this
      ensures Valid()
      ensures ok <==> lo <= hi
      ensures ok ==> ranges == old(ranges) + [(lo, hi)] && edges == PyAdd(old(edges), lo, hi)
      ensures !ok ==> ranges == old(ranges) && edges == old(edges)
    {
      if lo > hi {
        return false;
      }
      AddAllSnoc([], ranges, (lo, hi));
      edges := PyAdd(edges, lo, hi);
      responses := responses + 1;
      ranges := ranges + [(lo, hi)];
      return true;
    }

    /** `find`: nothing without ranges; otherwise levels from the number of
        ranges down, the first where both scans find an edge. It returns the
        number of overlaps with both ends, in order, and changes nothing. */
    method Find() returns (count: nat, lo: Option<int>, hi: Option<int>)
      requires Valid()
      ensures (count, lo, hi) == RefResult(edges, responses)
      ensures responses == 0 ==> count == 0 && lo.None? && hi.None?
      ensures responses > 0 ==>
        && count == Peak(edges) >= 1
        && lo.Some? && hi.Some? && lo.value <= hi.value
    {
      if responses == 0 {
        return 0, None, None;
      }
      count, lo, hi := RefLevels(edges, responses);
      AddAllInvariant(ranges);
      RefIsPeak(edges, responses);
    }
  }
}
