/** The two classes of examples/micropython-esp32-ttgo/overlap.py. Each
    `handle` adds one range and searches at once. Neither refuses an
    inverted range. The plain class searches from the number of ranges
    down. The optimised one starts one level above where its previous
    search stopped. A search that finds an overlap stores its ends in the
    `lo` and `hi` attributes; one that finds none leaves them as they were.
    An attribute not yet set is `None`. */
module MpOverlap {
  import opened Bytes
  import opened Overlap
  import PyOverlap

  /** What the level search finds from any level at or above the number of
      overlaps: that number with the ends the scans find for it, or 0 with
      the ends level 1 gave. */
  function AtPeak(es: seq<Edge>): (nat, Option<int>, Option<int>) {
    var p := Peak(es);
    if p > 0 then (p, Lo(es, p, false), Hi(es, p, false))
    else (0, Lo(es, 1, false), Hi(es, 1, false))
  }

  /** Started at or above the number of overlaps, the level search of
      `handle` stops at that number. When it is not 0, the ends are both
      present and in order. */
  lemma {:induction false} SearchFindsPeak(es: seq<Edge>, w: nat)
    requires ValueSorted(es) && Balanced(es) && w >= 1 && Peak(es) <= w
    ensures PyOverlap.Search(es, w) == AtPeak(es)
    ensures var (count, lo, hi) := AtPeak(es);
      count > 0 ==> lo.Some? && hi.Some? && lo.value <= hi.value
  {
    BestIsPeak(es, w, true);
    PyOverlap.SearchIsBest(es, w);
  }

  /** The edges of any ranges, inverted ones included, are sorted by value,
      balanced, and at most as many ranges as were added are open at once. */
  lemma {:induction false} RangesEdges(rs: seq<(int, int)>)
    ensures var es := PyOverlap.AddAll([], rs);
      ValueSorted(es) && Balanced(es) && Peak(es) <= |rs|
  {
    PyOverlap.AddAllEdges([], 0, rs);
    LexValueSorted(PyOverlap.AddAll([], rs));
  }

  /** One more range after `rs`: the edges are one more sorted insertion of
      each end, and at most one more range is open at once. */
  lemma {:induction false} HandleStep(rs: seq<(int, int)>, lo: int, hi: int)
    ensures PyOverlap.AddAll([], rs + [(lo, hi)]) == PyAdd(PyOverlap.AddAll([], rs), lo, hi)
    ensures Peak(PyOverlap.AddAll([], rs + [(lo, hi)])) <= Peak(PyOverlap.AddAll([], rs)) + 1
  {
    PyOverlap.AddAllEdges([], 0, rs);
    PyAddKeeps(PyOverlap.AddAll([], rs), |rs|, lo, hi);
    PyOverlap.AddAllSnoc([], rs, (lo, hi));
  }

  /** What the module's own tests check after every range: the plain
      search, from the number of ranges, and the optimised one, from any
      level above the previous number of overlaps, both return the number
      of overlaps, with the same ends. */
  lemma {:induction false} HandlesAgree(rs: seq<(int, int)>, lo: int, hi: int, w: nat)
    requires Peak(PyOverlap.AddAll([], rs)) < w
    ensures PyOverlap.Search(PyOverlap.AddAll([], rs + [(lo, hi)]), |rs| + 1) == AtPeak(PyOverlap.AddAll([], rs + [(lo, hi)]))
    ensures PyOverlap.Search(PyOverlap.AddAll([], rs + [(lo, hi)]), w) == AtPeak(PyOverlap.AddAll([], rs + [(lo, hi)]))
  {
    var es := PyOverlap.AddAll([], rs + [(lo, hi)]);
    HandleStep(rs, lo, hi);
    RangesEdges(rs + [(lo, hi)]);
    SearchFindsPeak(es, |rs| + 1);
    SearchFindsPeak(es, w);
  }

  class OverlapAlgorithm {
    /** `_edges`: the sorted edges of the ranges handled. */
    var edges: seq<Edge>
    /** `_responses`: how many ranges were handled. */
    var responses: nat
    /** The attributes `lo` and `hi`: the ends of the last overlap found. */
    var lo: Option<int>
    var hi: Option<int>
    /** The ranges handled, in order. */
    ghost var ranges: seq<(int, int)>

    ghost predicate Valid()
      reads this`edges, this`responses, this`ranges
    {
      edges == PyOverlap.AddAll([], ranges) && responses == |ranges|
    }

    constructor ()
      ensures Valid() && ranges == [] && lo.None? && hi.None?
    {
      edges := [];
      responses := 0;
      lo, hi := None, None;
      ranges := [];
    }

    /** `handle`: the range is added as it is, and the levels from the
        number of ranges down are tried until both ends are found in order.
        The count returned is the number of overlaps; the ends are stored
        when it is not 0. */
    method Handle(lo: int, hi: int) returns (count: nat)
      requires Valid()
      modifies this
      ensures Valid()
      ensures ranges == old(ranges) + [(lo, hi)] && edges == PyAdd(old(edges), lo, hi)
      ensures count == PyOverlap.Search(edges, responses).0 == Peak(edges)
      ensures count > 0 ==> (count, this.lo, this.hi) == PyOverlap.Search(edges, responses) == AtPeak(edges)
      ensures count > 0 ==> this.lo.Some? && this.hi.Some? && this.lo.value <= this.hi.value
      ensures count == 0 ==> this.lo == old(this.lo) && this.hi == old(this.hi)
    {
      HandleStep(ranges, lo, hi);
      edges := PyAdd(edges, lo, hi);
      responses := responses + 1;
      ranges := ranges + [(lo, hi)];
      assert Valid();
      var w, l, h := PyOverlap.Levels(edges, responses);
      RangesEdges(ranges);
      SearchFindsPeak(edges, responses);
      if w == 0 {
        return 0;
      }
      this.lo, this.hi := l, h;
      return w;
    }
  }

  class OptimizedOverlapAlgorithm {
    /** `_edges`: the sorted edges of the ranges handled. */
    var edges: seq<Edge>
    /** `_wanted`: where the previous search stopped. */
    var wanted: nat
    /** The attributes `lo` and `hi`: the ends of the last overlap found. */
    var lo: Option<int>
    var hi: Option<int>
    /** The ranges handled, in order. */
    ghost var ranges: seq<(int, int)>

    /** The previous search stopped at the number of overlaps. */
    ghost predicate Valid()
      reads this`edges, this`wanted, this`ranges
    {
      edges == PyOverlap.AddAll([], ranges) && wanted == Peak(edges)
    }

    constructor ()
      ensures Valid() && ranges == [] && lo.None? && hi.None?
    {
      edges := [];
      wanted := 0;
      lo, hi := None, None;
      ranges := [];
    }

    /** `handle`: the range is added as it is, one more overlap is wanted,
        and the wanted level is lowered until both ends are found in order.
        Since one range opens at most one more overlap, this finds the
        number of overlaps; the ends are stored when it is not 0. */
    method Handle(lo: int, hi: int) returns (count: nat)
      requires Valid()
      modifies this
      ensures Valid()
      ensures ranges == old(ranges) + [(lo, hi)] && edges == PyAdd(old(edges), lo, hi)
      ensures count == wanted == Peak(edges)
      ensures count > 0 ==> (count, this.lo, this.hi) == AtPeak(edges)
      ensures count > 0 ==> this.lo.Some? && this.hi.Some? && this.lo.value <= this.hi.value
      ensures count == 0 ==> this.lo == old(this.lo) && this.hi == old(this.hi)
    {
      HandleStep(ranges, lo, hi);
      edges := PyAdd(edges, lo, hi);
      ranges := ranges + [(lo, hi)];
      assert edges == PyOverlap.AddAll([], ranges);
      wanted := wanted + 1;
      var w, l, h := PyOverlap.Levels(edges, wanted);
      RangesEdges(ranges);
      SearchFindsPeak(edges, wanted);
      wanted := w;
      if w == 0 {
        return 0;
      }
      this.lo, this.hi := l, h;
      return w;
    }
  }

  /** The first case of the module's tests: (1,6), (2,3) and (4,5) overlap
      at most twice, and the two overlaps of that size give the ends 2
      and 5. */
  lemma {:induction false} TestExample()
    ensures AtPeak(PyOverlap.AddAll([], [(1, 6), (2, 3), (4, 5)])) == (2, Some(2), Some(5))
  {
    TestList();
    var es := [Start(1), Start(2), End(3), Start(4), End(5), End(6)];
    assert Open(es, 0) == 0 && Open(es, 1) == 1 && Open(es, 2) == 2 && Open(es, 3) == 1;
    assert Open(es, 4) == 2 && Open(es, 5) == 1 && Open(es, 6) == 0;
    assert Peak(es) == 2;
    assert LoFrom(es, 0, 2, false) == Some(1);
    assert Closed(es, 5) == 1 && Closed(es, 4) == 2;
    assert HiFrom(es, 6, 2, false) == Some(4);
  }

  lemma {:induction false} TestList()
    ensures PyOverlap.AddAll([], [(1, 6), (2, 3), (4, 5)]) == [Start(1), Start(2), End(3), Start(4), End(5), End(6)]
  {
    var rs: seq<(int, int)> := [(1, 6), (2, 3), (4, 5)];
    TestFirst();
    TestThird();
    assert rs[1..] == [(2, 3), (4, 5)] && rs[1..][1..] == [(4, 5)] && |rs[1..][1..][1..]| == 0;
    assert PyOverlap.AddAll([], rs) == PyOverlap.AddAll(PyAdd(PyAdd([], 1, 6), 2, 3), [(4, 5)]);
  }

  lemma {:induction false} TestFirst()
    ensures PyAdd([], 1, 6) == [Start(1), End(6)]
    ensures PyAdd([Start(1), End(6)], 2, 3) == [Start(1), Start(2), End(3), End(6)]
  {
    assert LexPos([Start(1)], End(6)) == 1;
    assert LexPos([Start(1), End(6)], Start(2)) == 1;
    assert LexPos([Start(1), Start(2), End(6)], End(3)) == 2;
  }

  lemma {:induction false} TestThird()
    ensures PyAdd([Start(1), Start(2), End(3), End(6)], 4, 5) == [Start(1), Start(2), End(3), Start(4), End(5), End(6)]
  {
    assert LexPos([Start(1), Start(2), End(3), End(6)], Start(4)) == 3;
    assert LexPos([Start(1), Start(2), End(3), Start(4), End(6)], End(5)) == 4;
  }

  /** The last case of the module's tests: (1,4) and (2,3) overlap twice,
      (5,10), (6,9) and (7,8) three times, so the count is 3 with the ends
      7 and 8 of the innermost range. */
  lemma {:induction false} TestNested()
    ensures AtPeak(PyOverlap.AddAll([], [(1, 4), (2, 3), (5, 10), (6, 9), (7, 8)])) == (3, Some(7), Some(8))
  {
    var r2: seq<(int, int)> := [(1, 4), (2, 3)];
    var r3 := r2 + [(5, 10)];
    var r4 := r3 + [(6, 9)];
    var r5 := r4 + [(7, 8)];
    NestedList(r2, r3, r4, r5);
    NestedEnds();
    assert r5 == [(1, 4), (2, 3), (5, 10), (6, 9), (7, 8)];
  }

  lemma {:induction false} NestedList(r2: seq<(int, int)>, r3: seq<(int, int)>, r4: seq<(int, int)>, r5: seq<(int, int)>)
    requires r2 == [(1, 4), (2, 3)] && r3 == r2 + [(5, 10)] && r4 == r3 + [(6, 9)] && r5 == r4 + [(7, 8)]
    ensures PyOverlap.AddAll([], r5) == [Start(1), Start(2), End(3), End(4)] + [Start(5), Start(6), Start(7), End(8), End(9), End(10)]
  {
    var a := [Start(1), Start(2), End(3), End(4)];
    NestedHead();
    PyOverlap.AddAllSnoc([], [], (1, 4));
    PyOverlap.AddAllSnoc([], [(1, 4)], (2, 3));
    assert [] + [(1, 4)] == [(1, 4)] && [(1, 4)] + [(2, 3)] == r2;
    PyOverlap.AddAllSnoc([], r2, (5, 10));
    PyOverlap.AddAllSnoc([], r3, (6, 9));
    PyOverlap.AddAllSnoc([], r4, (7, 8));
    NestedTail(a);
  }

  lemma {:induction false} NestedHead()
    ensures PyAdd([], 1, 4) == [Start(1), End(4)]
    ensures PyAdd([Start(1), End(4)], 2, 3) == [Start(1), Start(2), End(3), End(4)]
  {
    assert LexPos([Start(1)], End(4)) == 1;
    assert LexPos([Start(1), End(4)], Start(2)) == 1;
    assert LexPos([Start(1), Start(2), End(4)], End(3)) == 2;
  }

  lemma {:induction false} NestedTail(a: seq<Edge>)
    requires a == [Start(1), Start(2), End(3), End(4)]
    ensures PyAdd(PyAdd(PyAdd(a, 5, 10), 6, 9), 7, 8) == a + [Start(5), Start(6), Start(7), End(8), End(9), End(10)]
  {
    NestedOuter(a);
    NestedMiddle(a);
    NestedInner(a);
  }

  lemma {:induction false} NestedOuter(a: seq<Edge>)
    requires a == [Start(1), Start(2), End(3), End(4)]
    ensures PyAdd(a, 5, 10) == a + [Start(5), End(10)]
  {
    PyAddRight(a, [], 5, 10);
    assert a + [] == a;
    assert LexPos([Start(5)], End(10)) == 1;
  }

  lemma {:induction false} NestedMiddle(a: seq<Edge>)
    requires a == [Start(1), Start(2), End(3), End(4)]
    ensures PyAdd(a + [Start(5), End(10)], 6, 9) == a + [Start(5), Start(6), End(9), End(10)]
  {
    PyAddRight(a, [Start(5), End(10)], 6, 9);
    assert LexPos([Start(5), End(10)], Start(6)) == 1;
    assert LexPos([Start(5), Start(6), End(10)], End(9)) == 2;
  }

  lemma {:induction false} NestedInner(a: seq<Edge>)
    requires a == [Start(1), Start(2), End(3), End(4)]
    ensures PyAdd(a + [Start(5), Start(6), End(9), End(10)], 7, 8) == a + [Start(5), Start(6), Start(7), End(8), End(9), End(10)]
  {
    PyAddRight(a, [Start(5), Start(6), End(9), End(10)], 7, 8);
    InnerEdges();
  }

  lemma {:induction false} InnerEdges()
    ensures PyAdd([Start(5), Start(6), End(9), End(10)], 7, 8) == [Start(5), Start(6), Start(7), End(8), End(9), End(10)]
  {
    assert LexPos([Start(5), Start(6), End(9), End(10)], Start(7)) == 2;
    assert LexPos([Start(5), Start(6), Start(7), End(9), End(10)], End(8)) == 3;
  }

  /** The two groups: at most two open in the first, three in the second,
      first reached after the start at 7 and last from the end at 8. */
  lemma {:induction false} NestedEnds()
    ensures var es := [Start(1), Start(2), End(3), End(4)] + [Start(5), Start(6), Start(7), End(8), End(9), End(10)];
      Peak(es) == 3 && Lo(es, 3, false) == Some(7) && Hi(es, 3, false) == Some(8)
  {
    var a := [Start(1), Start(2), End(3), End(4)];
    var b := [Start(5), Start(6), Start(7), End(8), End(9), End(10)];
    assert Open(a, 1) == 1 && Open(a, 2) == 2 && Open(a, 3) == 1 && Open(a, 4) == 0;
    assert PeakTo(a, 1) == 1 && PeakTo(a, 2) == 2 && PeakTo(a, 3) == 2 && PeakTo(a, 4) == 2;
    assert LoFrom(a, 0, 3, false) == None;
    assert Open(b, 1) == 1 && Open(b, 2) == 2 && Open(b, 3) == 3;
    assert Open(b, 4) == 2 && Open(b, 5) == 1 && Open(b, 6) == 0;
    assert PeakTo(b, 1) == 1 && PeakTo(b, 2) == 2 && PeakTo(b, 3) == 3;
    assert PeakTo(b, 4) == 3 && PeakTo(b, 5) == 3 && PeakTo(b, 6) == 3;
    assert LoFrom(b, 0, 3, false) == Some(2);
    BalancedEnd(b);
    assert Closed(b, 5) == 1 && Closed(b, 4) == 2 && Closed(b, 3) == 3;
    assert HiFrom(b, 6, 3, false) == Some(3);
    PeakConcat(a, b);
    LoConcat(a, b, 3);
    HiConcat(a, b, 3);
  }
}
