/** `OverlapAlgorithm` of src/python/overlap.py, the optimised search for
    the overlap of time ranges: `add` keeps the ranges as a sorted list of
    edges, and `find` lowers the wanted number of overlaps from where the
    previous search left it. It may, because one more range raises the
    number of overlaps by at most one. An inverted range raises ValueError,
    which `add` reports as `false`. */
module PyOverlap {
  import opened Bytes
  import opened Overlap

  /** The forward loop of `find` (and of the other Python versions): the
      value of the first edge after which the running count reaches
      `wanted`, `None` when it never does. */
  method ScanLo(es: seq<Edge>, wanted: int) returns (lo: Option<int>)
    ensures lo == Lo(es, wanted, false)
  {
    var chime := 0;
    for i := 0 to |es|
      invariant chime == Open(es, i)
      invariant LoFrom(es, i, wanted, false) == LoFrom(es, 0, wanted, false)
    {
      chime := chime - es[i].chime;
      if chime >= wanted {
        return Some(es[i].value);
      }
    }
    return None;
  }

  /** The backward loop over `reversed(self._edges)`: the value of the first
      edge, from the back, at which the running sum reaches `wanted`. */
  method ScanHi(es: seq<Edge>, wanted: int) returns (hi: Option<int>)
    ensures hi == Hi(es, wanted, false)
  {
    var chime := 0;
    var j: nat := |es|;
    while j > 0
      invariant j <= |es| && chime == Closed(es, j)
      invariant HiFrom(es, j, wanted, false) == HiFrom(es, |es|, wanted, false)
    {
      chime := chime + es[j - 1].chime;
      if chime >= wanted {
        return Some(es[j - 1].value);
      }
      j := j - 1;
    }
    return None;
  }

  /** The levels of `find` from `w` down: the first whose scans find both
      ends with `lo <= hi` gives them; when even level 1 does not, 0 with
      the ends level 1 gave. */
  function Search(es: seq<Edge>, w: nat): (r: (nat, Option<int>, Option<int>))
    requires w >= 1
    ensures r.0 <= w
  {
    var lo := Lo(es, w, false);
    var hi := Hi(es, w, false);
    if lo.Some? && hi.Some? && lo.value <= hi.value then (w, lo, hi)
    else if w == 1 then (0, lo, hi)
    else Search(es, w - 1)
  }

  /** What `find` returns when it starts at level `w`; nothing at level 0. */
  function FindResult(es: seq<Edge>, w: nat): (nat, Option<int>, Option<int>) {
    if w == 0 then (0, None, None) else Search(es, w)
  }

  /** The level search stops at the highest level that passes. */
  lemma {:induction false} SearchIsBest(es: seq<Edge>, w: nat)
    requires w >= 1
    ensures var c := Best(es, w, false, true);
      Search(es, w) == if c > 0 then (c, Lo(es, c, false), Hi(es, c, false))
                       else (0, Lo(es, 1, false), Hi(es, 1, false))
  {
    if w > 1 && !Passes(es, w, false, true) {
      SearchIsBest(es, w - 1);
    }
  }

  /** The ranges, in order, added to a list of edges. */
  function AddAll(es: seq<Edge>, rs: seq<(int, int)>): seq<Edge>
    decreases |rs|
  {
    if rs == [] then es
    else AddAll(PyAdd(es, rs[0].0, rs[0].1), rs[1..])
  }

  /** The edges of the ranges, in no order. */
  function Bag(rs: seq<(int, int)>): multiset<Edge>
    decreases |rs|
  {
    if rs == [] then multiset{}
    else multiset{Start(rs[0].0), End(rs[0].1)} + Bag(rs[1..])
  }

  /** A range whose high end is not below its low end, which `add` accepts. */
  predicate Ordered(r: (int, int)) {
    r.0 <= r.1
  }
  class OverlapAlgorithm {
    /** `_edges`: the sorted edges of the ranges added. */
    var edges: seq<Edge>
    /** `_wanted`: the level the next `find` starts at. */
    var wanted: nat
    /** The ranges added, in order. */
    ghost var ranges: seq<(int, int)>

    /** The edges are those of the ranges added, none of them inverted; the
        next search starts at or above the number of overlaps and at or
        below the number of ranges. */
    ghost predicate Valid()
      reads this
    {
      && (forall i :: 0 <= i < |ranges| ==> Ordered(ranges[i]))
      && edges == AddAll([], ranges)
      && Peak(edges) <= wanted <= |ranges|
    }

    constructor ()
      ensures Valid() && edges == [] && wanted == 0 && ranges == []
    {
      edges := [];
      wanted := 0;
      ranges := [];
    }

    /** `OverlapAlgorithm(ranges)`: the ranges added in order; an inverted
        range raises ValueError, here `null`. */
    static method FromRanges(rs: seq<(int, int)>) returns (a: OverlapAlgorithm?)
      ensures a == null <==> exists i :: 0 <= i < |rs| && !Ordered(rs[i])
      ensures a != null ==> fresh(a) && a.Valid() && a.ranges == rs && a.wanted == |rs|
    {
      a := new OverlapAlgorithm();
      for i := 0 to |rs|
        invariant fresh(a) && a.Valid() && a.ranges == rs[..i] && a.wanted == i
      {
        var ok := a.Add(rs[i].0, rs[i].1);
        if !ok {
          return null;
        }
        PrefixStep(rs, i);
      }
      PrefixStep(rs, |rs|);
    }

    /** `add`: an inverted range raises; otherwise both edges are appended,
        the list is sorted and one more overlap is wanted. */
    method Add(lo: int, hi: int) returns (ok: bool)
      requires Valid()
      modifies this
      ensures Valid()
      ensures ok <==> lo <= hi
      ensures ok ==> ranges == old(ranges) + [(lo, hi)] && edges == PyAdd(old(edges), lo, hi) && wanted == old(wanted) + 1
      ensures !ok ==> ranges == old(ranges) && edges == old(edges) && wanted == old(wanted)
    {
      if lo > hi {
        return false;
      }
      AddStep(ranges, lo, hi);
      edges := PyAdd(edges, lo, hi);
      wanted := wanted + 1;
      ranges := ranges + [(lo, hi)];
      return true;
    }

    /** `find`: from the wanted level down, the first level whose scans find
        both ends with `lo <= hi`; the level found is kept for the next call. */
    method Find() returns (count: nat, lo: Option<int>, hi: Option<int>)
      requires Valid()
      modifies this
      ensures Valid() && edges == old(edges) && ranges == old(ranges)
      ensures wanted == count && (count, lo, hi) == FindResult(edges, old(wanted))
    {
      if wanted == 0 {
        return 0, None, None;
      }
      count, lo, hi := Levels(edges, wanted);
      AddAllInvariant(ranges);
      FindIsPeak(edges, |ranges|, wanted);
      wanted := count;
    }
  }

  /** The prefixes of a list grow by one element at a time, up to the whole list. */
  lemma {:induction false} PrefixStep<T>(s: seq<T>, i: nat)
    requires i <= |s|
    ensures i < |s| ==> s[..i + 1] == s[..i] + [s[i]]
    ensures i == |s| ==> s[..i] == s
  {
  }

  /** The `while self._wanted` loop of `find`, on the edges and the level it
      starts at: it returns the level it stops at and the ends found there. */
  method Levels(es: seq<Edge>, w0: nat) returns (w: nat, lo: Option<int>, hi: Option<int>)
    requires w0 >= 1
    ensures (w, lo, hi) == Search(es, w0)
  {
    w := w0;
    lo, hi := None, None;
    while w > 0
      invariant w <= w0
      invariant w >= 1 ==> Search(es, w0) == Search(es, w)
      invariant w == 0 ==> Search(es, w0) == (0, lo, hi)
    {
      lo := ScanLo(es, w);
      hi := ScanHi(es, w);
      if lo.Some? && hi.Some? && lo.value <= hi.value {
        break;
      }
      w := w - 1;
    }
  }

  /** Adding ranges keeps the list sorted as `list.sort()` orders the tuples
      and holding the edges of every range added, with at most one more
      range open at once per range. */
  lemma {:induction false} AddAllEdges(es: seq<Edge>, n: nat, rs: seq<(int, int)>)
    requires LexSorted(es) && EdgesOf(es, n)
    ensures LexSorted(AddAll(es, rs)) && EdgesOf(AddAll(es, rs), n + |rs|)
    ensures multiset(AddAll(es, rs)) == multiset(es) + Bag(rs)
    decreases |rs|
  {
    if rs != [] {
      PyAddKeeps(es, n, rs[0].0, rs[0].1);
      AddAllEdges(PyAdd(es, rs[0].0, rs[0].1), n + 1, rs[1..]);
    }
  }

  /** Ranges none of which is inverted give a list that begins with a start edge. */
  lemma {:induction false} AddAllStartsOpen(es: seq<Edge>, n: nat, rs: seq<(int, int)>)
    requires LexSorted(es) && EdgesOf(es, n) && StartsOpen(es)
    requires forall i :: 0 <= i < |rs| ==> Ordered(rs[i])
    ensures StartsOpen(AddAll(es, rs))
    decreases |rs|
  {
    if rs != [] {
      PyAddKeeps(es, n, rs[0].0, rs[0].1);
      PyAddStartsOpen(es, rs[0].0, rs[0].1);
      AddAllStartsOpen(PyAdd(es, rs[0].0, rs[0].1), n + 1, rs[1..]);
    }
  }

  /** Adding one more range at the end is one more `add`. */
  lemma {:induction false} AddAllSnoc(es: seq<Edge>, rs: seq<(int, int)>, r: (int, int))
    ensures AddAll(es, rs + [r]) == PyAdd(AddAll(es, rs), r.0, r.1)
    decreases |rs|
  {
    if rs == [] {
      assert [r][1..] == [];
      assert AddAll(es, [r]) == AddAll(PyAdd(es, r.0, r.1), []);
    } else {
      assert (rs + [r])[1..] == rs[1..] + [r];
      AddAllSnoc(PyAdd(es, rs[0].0, rs[0].1), rs[1..], r);
    }
  }

  /** The edges of ranges none of which is inverted are sorted as
      `list.sort()` orders the tuples, are the edges of that many ranges and
      begin with a start edge. */
  lemma {:induction false} AddAllInvariant(rs: seq<(int, int)>)
    requires forall i :: 0 <= i < |rs| ==> Ordered(rs[i])
    ensures var es := AddAll([], rs); LexSorted(es) && EdgesOf(es, |rs|) && StartsOpen(es)
  {
    AddAllEdges([], 0, rs);
    AddAllStartsOpen([], 0, rs);
  }

  /** One more range not inverted is one more `add`, and raises the number
      of overlaps by at most one. */
  lemma {:induction false} AddStep(rs: seq<(int, int)>, lo: int, hi: int)
    requires forall i :: 0 <= i < |rs| ==> Ordered(rs[i])
    requires lo <= hi
    ensures AddAll([], rs + [(lo, hi)]) == PyAdd(AddAll([], rs), lo, hi)
    ensures Peak(PyAdd(AddAll([], rs), lo, hi)) <= Peak(AddAll([], rs)) + 1
  {
    AddAllInvariant(rs);
    PyAddKeeps(AddAll([], rs), |rs|, lo, hi);
    AddAllSnoc([], rs, (lo, hi));
  }

  /** Started at or above the number of overlaps, `find` returns that
      number, at least one as soon as a range was added, with both ends
      present and in order: the ends the scans find for that number. With
      no range it finds nothing. */
  lemma {:induction false} FindIsPeak(es: seq<Edge>, n: nat, w: nat)
    requires LexSorted(es) && EdgesOf(es, n) && StartsOpen(es) && Peak(es) <= w
    ensures n == 0 ==> FindResult(es, w) == (0, None, None)
    ensures n > 0 ==>
      var (count, lo, hi) := FindResult(es, w);
      && count == Peak(es) >= 1
      && lo == Lo(es, count, false) && hi == Hi(es, count, false)
      && lo.Some? && hi.Some? && lo.value <= hi.value
  {
    LexValueSorted(es);
    BestIsPeak(es, w, true);
    if w > 0 {
      SearchIsBest(es, w);
    }
    if n > 0 {
      StartsOpenPeak(es);
    } else {
      assert es == [];
    }
  }

  /** Searching again without adding a range gives the same answer: the
      level `find` leaves behind is where the next search succeeds at once. */
  lemma {:induction false} FindAgain(es: seq<Edge>, n: nat, w: nat)
    requires LexSorted(es) && EdgesOf(es, n) && StartsOpen(es) && Peak(es) <= w
    ensures FindResult(es, FindResult(es, w).0) == FindResult(es, w)
  {
    FindIsPeak(es, n, w);
    if n > 0 {
      FindIsPeak(es, n, Peak(es));
    }
  }

  lemma {:induction false} BagConcat(a: seq<(int, int)>, b: seq<(int, int)>)
    ensures Bag(a + b) == Bag(a) + Bag(b)
    decreases |a|
  {
    if a == [] {
      assert a + b == b;
    } else {
      assert (a + b)[1..] == a[1..] + b;
      BagConcat(a[1..], b);
    }
  }

  /** Taking range `j` out of a list takes its two edges out of the bag. */
  lemma {:induction false} BagRemove(b: seq<(int, int)>, j: nat)
    requires j < |b|
    ensures Bag(b) == multiset{Start(b[j].0), End(b[j].1)} + Bag(b[..j] + b[j + 1..])
  {
    var left, right := b[..j], b[j + 1..];
    var mid := [b[j]] + right;
    assert b == left + mid;
    assert mid[1..] == right;
    var e := multiset{Start(b[j].0), End(b[j].1)};
    assert Bag(mid) == e + Bag(right);
    BagConcat(left, mid);
    BagConcat(left, right);
    assert Bag(b) == Bag(left) + (e + Bag(right));
  }

  /** Taking element `j` out of a list takes it out of the multiset. */
  lemma {:induction false} MultisetRemove(b: seq<(int, int)>, j: nat)
    requires j < |b|
    ensures multiset(b[..j] + b[j + 1..]) == multiset(b) - multiset{b[j]}
  {
    assert b == b[..j] + [b[j]] + b[j + 1..];
  }

  /** Only the empty list has the empty multiset. */
  lemma {:induction false} EmptyMultiset(b: seq<(int, int)>)
    requires multiset(b) == multiset{}
    ensures b == []
  {
    assert |b| == |multiset(b)|;
  }

  /** An index at which an element of the multiset of a list sits. */
  lemma {:induction false} Pick(x: (int, int), b: seq<(int, int)>) returns (j: nat)
    requires x in multiset(b)
    ensures j < |b| && b[j] == x
  {
    assert x in b;
    j :| 0 <= j < |b| && b[j] == x;
  }

  /** Dropping the head of a list drops it from the multiset. */
  lemma {:induction false} MultisetTail(a: seq<(int, int)>)
    requires a != []
    ensures multiset(a[1..]) == multiset(a) - multiset{a[0]}
  {
    assert a == [a[0]] + a[1..];
  }

  /** The edges depend only on which ranges there are, not on their order. */
  lemma {:induction false} BagPermutation(a: seq<(int, int)>, b: seq<(int, int)>)
    requires multiset(a) == multiset(b)
    ensures Bag(a) == Bag(b)
    decreases |a|
  {
    if a == [] {
      EmptyMultiset(b);
    } else {
      var j := Pick(a[0], b);
      var rest := b[..j] + b[j + 1..];
      assert multiset(a[1..]) == multiset(rest) by {
        MultisetRemove(b, j);
        MultisetTail(a);
        assert multiset(rest) == multiset(b) - multiset{a[0]};
      }
      BagPermutation(a[1..], rest);
      assert Bag(a) == multiset{Start(a[0].0), End(a[0].1)} + Bag(a[1..]);
      BagRemove(b, j);
    }
  }

  /** `OverlapAlgorithm(ranges)` keeps the same edges for the ranges in any
      order, so `find` answers the same: what the tests check by adding the
      ranges reversed and shuffled. */
  lemma {:induction false} AddAllOrderFree(a: seq<(int, int)>, b: seq<(int, int)>)
    requires multiset(a) == multiset(b)
    ensures AddAll([], a) == AddAll([], b)
  {
    AddAllEdges([], 0, a);
    AddAllEdges([], 0, b);
    BagPermutation(a, b);
    SortedUnique(AddAll([], a), AddAll([], b));
  }

  /** No two of the ranges share a point. */
  predicate Disjoint(rs: seq<(int, int)>) {
    forall i, j :: 0 <= i < j < |rs| ==> rs[i].1 < rs[j].0 || rs[j].1 < rs[i].0
  }

  /** Both edges of every range are in the bag. */
  lemma {:induction false} BagHas(rs: seq<(int, int)>, j: nat)
    requires j < |rs|
    ensures Start(rs[j].0) in Bag(rs) && End(rs[j].1) in Bag(rs)
    decreases j
  {
    if j > 0 {
      BagHas(rs[1..], j - 1);
      assert rs[1..][j - 1] == rs[j];
    }
  }

  /** Every edge in the bag is an edge of one of the ranges. */
  lemma {:induction false} BagFrom(rs: seq<(int, int)>, x: Edge) returns (j: nat)
    requires x in Bag(rs)
    ensures j < |rs| && (x == Start(rs[j].0) || x == End(rs[j].1))
    decreases |rs|
  {
    if x == Start(rs[0].0) || x == End(rs[0].1) {
      j := 0;
    } else {
      var k := BagFrom(rs[1..], x);
      j := k + 1;
    }
  }

  /** No edge of the list has a value in [lo, hi]. */
  predicate Avoids(es: seq<Edge>, lo: int, hi: int) {
    forall i :: 0 <= i < |es| ==> es[i].value < lo || hi < es[i].value
  }

  /** The edges of ranges sharing no point with [lo, hi] avoid it. */
  lemma {:induction false} BagAvoids(es: seq<Edge>, p: seq<(int, int)>, lo: int, hi: int)
    requires multiset(es) == Bag(p)
    requires forall j :: 0 <= j < |p| ==> Ordered(p[j]) && (p[j].1 < lo || hi < p[j].0)
    ensures Avoids(es, lo, hi)
  {
    forall i | 0 <= i < |es|
      ensures es[i].value < lo || hi < es[i].value
    {
      assert es[i] in multiset(es);
      var j := BagFrom(p, es[i]);
    }
  }

  /** In a sorted list that avoids [lo, hi], the start edge of lo goes
      where the values below lo end and those above hi begin. */
  lemma {:induction false} SplitAt(es: seq<Edge>, lo: int, hi: int)
    requires LexSorted(es) && Alternating(es) && Avoids(es, lo, hi) && lo <= hi
    ensures forall i :: 0 <= i < LexPos(es, Start(lo)) ==> es[i].value < lo
    ensures forall i :: LexPos(es, Start(lo)) <= i < |es| ==> hi < es[i].value
  {
    var k1 := LexPos(es, Start(lo));
    forall i | k1 <= i < |es|
      ensures hi < es[i].value
    {
      assert LexLe(Start(lo), es[k1]);
      assert i == k1 || LexLe(es[k1], es[i]);
    }
  }

  /** A start edge below lo belongs to a range that ends below lo too. */
  lemma {:induction false} PartnerBelow(es: seq<Edge>, p: seq<(int, int)>, lo: int, hi: int, t: nat) returns (q: nat)
    requires t < |es| && es[t].chime == -1 && es[t].value < lo && multiset(es) == Bag(p)
    requires forall j :: 0 <= j < |p| ==> Ordered(p[j]) && (p[j].1 < lo || hi < p[j].0)
    requires lo <= hi
    ensures q < |es| && es[q].chime == 1 && es[t].value <= es[q].value < lo
  {
    assert es[t] in multiset(es);
    var j := BagFrom(p, es[t]);
    BagHas(p, j);
    assert End(p[j].1) in multiset(es);
    q :| 0 <= q < |es| && es[q] == End(p[j].1);
  }

  /** The values below lo, in an alternating list of disjoint ranges, are
      whole ranges: an even number of edges. */
  lemma {:induction false} SplitEven(es: seq<Edge>, p: seq<(int, int)>, lo: int, hi: int)
    requires LexSorted(es) && Alternating(es) && multiset(es) == Bag(p)
    requires forall j :: 0 <= j < |p| ==> Ordered(p[j]) && (p[j].1 < lo || hi < p[j].0)
    requires lo <= hi
    ensures LexPos(es, Start(lo)) % 2 == 0
  {
    var k1 := LexPos(es, Start(lo));
    BagAvoids(es, p, lo, hi);
    SplitAt(es, lo, hi);
    if k1 % 2 == 1 {
      var q := PartnerBelow(es, p, lo, hi, k1 - 1);
      assert false;
    }
  }

  /** The end edge of hi goes right after the start edge of lo. */
  lemma {:induction false} EndNext(es: seq<Edge>, lo: int, hi: int)
    requires LexSorted(es) && Alternating(es) && Avoids(es, lo, hi) && lo <= hi
    ensures LexPos(SortIn(es, Start(lo)), End(hi)) == LexPos(es, Start(lo)) + 1
  {
    var k1 := LexPos(es, Start(lo));
    var s := SortIn(es, Start(lo));
    SplitAt(es, lo, hi);
    assert !LexLe(End(hi), s[k1]);
    assert k1 < |es| ==> s[k1 + 1] == es[k1] && LexLe(End(hi), s[k1 + 1]);
  }

  /** A range that shares no point with the ranges of an alternating list
      lands as a start and an end side by side, at an even index: the list
      still alternates. */
  lemma {:induction false} AddDisjoint(es: seq<Edge>, p: seq<(int, int)>, lo: int, hi: int)
    requires LexSorted(es) && Alternating(es) && multiset(es) == Bag(p)
    requires forall j :: 0 <= j < |p| ==> Ordered(p[j]) && (p[j].1 < lo || hi < p[j].0)
    requires lo <= hi
    ensures Alternating(PyAdd(es, lo, hi))
  {
    SplitEven(es, p, lo, hi);
    BagAvoids(es, p, lo, hi);
    EndNext(es, lo, hi);
    AlternatingPair(es, LexPos(es, Start(lo)), lo, hi);
  }

  /** The ranges added so far share no point with the last one, nor with
      each other. */
  lemma {:induction false} DisjointLast(rs: seq<(int, int)>)
    requires rs != [] && (forall i :: 0 <= i < |rs| ==> Ordered(rs[i])) && Disjoint(rs)
    ensures var p, r := rs[..|rs| - 1], rs[|rs| - 1];
      && (forall j :: 0 <= j < |p| ==> Ordered(p[j])) && Disjoint(p)
      && (forall j :: 0 <= j < |p| ==> p[j].1 < r.0 || r.1 < p[j].0)
  {
  }

  /** The edges of the ranges, sorted. */
  lemma {:induction false} AddAllBag(rs: seq<(int, int)>)
    ensures LexSorted(AddAll([], rs)) && multiset(AddAll([], rs)) == Bag(rs)
  {
    AddAllEdges([], 0, rs);
  }

  /** Ranges no two of which share a point give a list of edges that
      alternates between starts and ends. */
  lemma {:induction false} DisjointAlternating(rs: seq<(int, int)>)
    requires (forall i :: 0 <= i < |rs| ==> Ordered(rs[i])) && Disjoint(rs)
    ensures Alternating(AddAll([], rs))
    decreases |rs|
  {
    if rs != [] {
      var p, r := rs[..|rs| - 1], rs[|rs| - 1];
      assert rs == p + [r];
      DisjointLast(rs);
      DisjointAlternating(p);
      AddAllSnoc([], p, r);
      AddAllBag(p);
      AddDisjoint(AddAll([], p), p, r.0, r.1);
    }
  }

  /** The first edge of a sorted list of the ranges' edges is the smallest
      low end and the last edge the largest high end. */
  lemma {:induction false} HullEdges(es: seq<Edge>, rs: seq<(int, int)>)
    requires LexSorted(es) && es != [] && multiset(es) == Bag(rs)
    requires es[0].chime == -1 && es[|es| - 1].chime == 1
    ensures forall i :: 0 <= i < |rs| ==> es[0].value <= rs[i].0 && rs[i].1 <= es[|es| - 1].value
    ensures exists i :: 0 <= i < |rs| && es[0].value == rs[i].0
    ensures exists i :: 0 <= i < |rs| && es[|es| - 1].value == rs[i].1
  {
    var last := |es| - 1;
    forall i | 0 <= i < |rs|
      ensures es[0].value <= rs[i].0 && rs[i].1 <= es[last].value
    {
      BagHas(rs, i);
      assert Start(rs[i].0) in multiset(es) && End(rs[i].1) in multiset(es);
      var q1 :| 0 <= q1 < |es| && es[q1] == Start(rs[i].0);
      var q2 :| 0 <= q2 < |es| && es[q2] == End(rs[i].1);
      assert q1 == 0 || LexLe(es[0], es[q1]);
      assert q2 == last || LexLe(es[q2], es[last]);
    }
    assert es[0] in multiset(es) && es[last] in multiset(es);
    var j1 := BagFrom(rs, es[0]);
    var j2 := BagFrom(rs, es[last]);
    assert es[0].value == rs[j1].0 && es[last].value == rs[j2].1;
  }

  /** On an alternating list of edges `find` settles on one overlap,
      between the first and the last edge. */
  lemma {:induction false} AlternatingFind(es: seq<Edge>, n: nat, w: nat)
    requires LexSorted(es) && EdgesOf(es, n) && Alternating(es) && n > 0 && w >= 1
    ensures FindResult(es, w) == (1, Some(es[0].value), Some(es[|es| - 1].value))
  {
    AlternatingPeak(es);
    AlternatingEnds(es, n);
    FindIsPeak(es, n, w);
    LevelOneEnds(es);
  }

  /** Ranges no two of which overlap: `find` reports one overlap and the
      hull of the ranges, from the smallest low end to the largest high
      end, whatever level it starts at. */
  lemma {:induction false} DisjointHull(rs: seq<(int, int)>, w: nat)
    requires rs != [] && (forall i :: 0 <= i < |rs| ==> Ordered(rs[i])) && Disjoint(rs) && w >= 1
    ensures var (count, lo, hi) := FindResult(AddAll([], rs), w);
      && count == 1 && lo.Some? && hi.Some?
      && (forall i :: 0 <= i < |rs| ==> lo.value <= rs[i].0 && rs[i].1 <= hi.value)
      && (exists i :: 0 <= i < |rs| && lo.value == rs[i].0)
      && (exists i :: 0 <= i < |rs| && hi.value == rs[i].1)
  {
    var es := AddAll([], rs);
    DisjointAlternating(rs);
    AddAllInvariant(rs);
    AddAllBag(rs);
    AlternatingEnds(es, |rs|);
    AlternatingFind(es, |rs|, w);
    HullEdges(es, rs);
  }

  /** The docstring examples of `OverlapAlgorithm`: (1,5) and (3,9)
      overlap twice, between 3 and 5; with (4,5) added, three times
      between 4 and 5; with (10,20) and (12,18) added, still three times
      between 4 and 5 (`find` starts at 5, the level the earlier call left
      plus one per `add`), which is also what the class built from those
      five ranges at once finds; with (13,17) added, two groups overlap
      three times and `find` returns the bounds of both, 4 and 17. */
  lemma {:induction false} DocstringExamples()
    ensures FindResult(AddAll([], [(1, 5), (3, 9)]), 2) == (2, Some(3), Some(5))
    ensures FindResult(AddAll([], [(1, 5), (3, 9), (4, 5)]), 3) == (3, Some(4), Some(5))
    ensures FindResult(AddAll([], [(1, 5), (3, 9), (4, 5), (10, 20), (12, 18)]), 5) == (3, Some(4), Some(5))
    ensures FindResult(AddAll([], [(1, 5), (3, 9), (4, 5), (10, 20), (12, 18), (13, 17)]), 4) == (3, Some(4), Some(17))
  {
    DocstringOpening();
    DocstringLater();
  }

  lemma {:induction false} DocstringOpening()
    ensures FindResult(AddAll([], [(1, 5), (3, 9)]), 2) == (2, Some(3), Some(5))
    ensures FindResult(AddAll([], [(1, 5), (3, 9), (4, 5)]), 3) == (3, Some(4), Some(5))
  {
    ExampleLists();
    var es := [Start(1), Start(3), End(5), End(9)];
    assert Open(es, 1) == 1 && Open(es, 2) == 2;
    assert LoFrom(es, 0, 2, false) == Some(1);
    assert Closed(es, 3) == 1 && Closed(es, 2) == 2;
    assert HiFrom(es, 4, 2, false) == Some(2);
    var fs := [Start(1), Start(3), Start(4), End(5), End(5), End(9)];
    assert Open(fs, 1) == 1 && Open(fs, 2) == 2 && Open(fs, 3) == 3;
    assert LoFrom(fs, 0, 3, false) == Some(2);
    assert Closed(fs, 5) == 1 && Closed(fs, 4) == 2 && Closed(fs, 3) == 3;
    assert HiFrom(fs, 6, 3, false) == Some(3);
  }

  lemma {:induction false} DocstringLater()
    ensures FindResult(AddAll([], [(1, 5), (3, 9), (4, 5), (10, 20), (12, 18)]), 5) == (3, Some(4), Some(5))
    ensures FindResult(AddAll([], [(1, 5), (3, 9), (4, 5), (10, 20), (12, 18), (13, 17)]), 4) == (3, Some(4), Some(17))
  {
    var r3: seq<(int, int)> := [(1, 5), (3, 9), (4, 5)];
    var r4 := r3 + [(10, 20)];
    var r5 := r4 + [(12, 18)];
    var r6 := r5 + [(13, 17)];
    DocstringFifth(r3, r4, r5, r6);
    DocstringSixth(r3, r4, r5, r6);
    assert r5 == [(1, 5), (3, 9), (4, 5), (10, 20), (12, 18)];
    assert r6 == [(1, 5), (3, 9), (4, 5), (10, 20), (12, 18), (13, 17)];
  }

  lemma {:induction false} ExampleLists()
    ensures AddAll([], [(1, 5), (3, 9)]) == [Start(1), Start(3), End(5), End(9)]
    ensures AddAll([], [(1, 5), (3, 9), (4, 5)]) == [Start(1), Start(3), Start(4), End(5), End(5), End(9)]
  {
    var rs: seq<(int, int)> := [(1, 5), (3, 9)];
    var qs: seq<(int, int)> := [(1, 5), (3, 9), (4, 5)];
    ExampleFirst();
    ExampleThird();
    assert rs[1..] == [(3, 9)] && |rs[1..][1..]| == 0;
    assert qs[1..] == [(3, 9), (4, 5)] && qs[1..][1..] == [(4, 5)] && |qs[1..][1..][1..]| == 0;
    assert AddAll([], rs) == AddAll(PyAdd([], 1, 5), [(3, 9)]);
    assert AddAll([], qs) == AddAll(PyAdd(PyAdd([], 1, 5), 3, 9), [(4, 5)]);
  }

  lemma {:induction false} ExampleFirst()
    ensures PyAdd([], 1, 5) == [Start(1), End(5)]
    ensures PyAdd([Start(1), End(5)], 3, 9) == [Start(1), Start(3), End(5), End(9)]
  {
    assert LexPos([Start(1)], End(5)) == 1;
    assert LexPos([Start(1), End(5)], Start(3)) == 1;
    assert LexPos([Start(1), Start(3), End(5)], End(9)) == 3;
  }

  lemma {:induction false} ExampleThird()
    ensures PyAdd([Start(1), Start(3), End(5), End(9)], 4, 5) == [Start(1), Start(3), Start(4), End(5), End(5), End(9)]
  {
    assert LexPos([Start(1), Start(3), End(5), End(9)], Start(4)) == 2;
    assert LexPos([Start(1), Start(3), Start(4), End(5), End(9)], End(5)) == 3;
  }

  /** The first three docstring ranges as `r3`, then with (10,20), (12,18)
      and (13,17) appended in turn. */
  predicate DocstringRanges(r3: seq<(int, int)>, r4: seq<(int, int)>, r5: seq<(int, int)>, r6: seq<(int, int)>) {
    && r3 == [(1, 5), (3, 9), (4, 5)]
    && r4 == r3 + [(10, 20)]
    && r5 == r4 + [(12, 18)]
    && r6 == r5 + [(13, 17)]
  }

  lemma {:induction false} ExampleFourth(m: seq<Edge>)
    requires m == [Start(1), Start(3), Start(4), End(5), End(5), End(9)]
    ensures PyAdd(m, 10, 20) == m + [Start(10), End(20)]
  {
    PyAddRight(m, [], 10, 20);
    assert m + [] == m;
    assert LexPos([Start(10)], End(20)) == 1;
  }

  lemma {:induction false} ExampleFifth(m: seq<Edge>)
    requires m == [Start(1), Start(3), Start(4), End(5), End(5), End(9)]
    ensures PyAdd(m + [Start(10), End(20)], 12, 18) == m + [Start(10), Start(12), End(18), End(20)]
  {
    PyAddRight(m, [Start(10), End(20)], 12, 18);
    assert LexPos([Start(10), End(20)], Start(12)) == 1;
    assert LexPos([Start(10), Start(12), End(20)], End(18)) == 2;
  }

  lemma {:induction false} ExampleSixth(m: seq<Edge>, t: seq<Edge>)
    requires m == [Start(1), Start(3), Start(4), End(5), End(5), End(9)]
    requires t == [Start(10), Start(12), End(18), End(20)]
    ensures PyAdd(m + t, 13, 17) == m + [Start(10), Start(12), Start(13), End(17), End(18), End(20)]
  {
    PyAddRight(m, t, 13, 17);
    assert LexPos([Start(10), Start(12), End(18), End(20)], Start(13)) == 2;
    assert LexPos([Start(10), Start(12), Start(13), End(18), End(20)], End(17)) == 3;
  }

  lemma {:induction false} DocstringLists(r3: seq<(int, int)>, r4: seq<(int, int)>, r5: seq<(int, int)>, r6: seq<(int, int)>)
    requires DocstringRanges(r3, r4, r5, r6)
    ensures AddAll([], r5) == [Start(1), Start(3), Start(4), End(5), End(5), End(9)] + [Start(10), Start(12), End(18), End(20)]
    ensures AddAll([], r6) == [Start(1), Start(3), Start(4), End(5), End(5), End(9)] + [Start(10), Start(12), Start(13), End(17), End(18), End(20)]
  {
    var m := [Start(1), Start(3), Start(4), End(5), End(5), End(9)];
    ExampleLists();
    AddAllSnoc([], r3, (10, 20));
    ExampleFourth(m);
    AddAllSnoc([], r4, (12, 18));
    ExampleFifth(m);
    AddAllSnoc([], r5, (13, 17));
    ExampleSixth(m, [Start(10), Start(12), End(18), End(20)]);
  }

  /** The edges of the first three docstring ranges: three open at most,
      first after the start at 4 and last from the end at 5. */
  lemma {:induction false} ThirdEnds()
    ensures var es := [Start(1), Start(3), Start(4), End(5), End(5), End(9)];
      Open(es, |es|) == 0 && Peak(es) == 3 && Lo(es, 3, false) == Some(4) && Hi(es, 3, false) == Some(5)
  {
    var es := [Start(1), Start(3), Start(4), End(5), End(5), End(9)];
    assert Open(es, 1) == 1 && Open(es, 2) == 2 && Open(es, 3) == 3;
    assert Open(es, 4) == 2 && Open(es, 5) == 1 && Open(es, 6) == 0;
    assert PeakTo(es, 1) == 1 && PeakTo(es, 2) == 2 && PeakTo(es, 3) == 3;
    assert PeakTo(es, 4) == 3 && PeakTo(es, 5) == 3 && PeakTo(es, 6) == 3;
    assert LoFrom(es, 0, 3, false) == Some(2);
    assert Closed(es, 5) == 1 && Closed(es, 4) == 2 && Closed(es, 3) == 3;
    assert HiFrom(es, 6, 3, false) == Some(3);
  }

  /** (10,20) and (12,18): two open at most, so nothing at level 3. */
  lemma {:induction false} FourthFifthEnds()
    ensures var es := [Start(10), Start(12), End(18), End(20)];
      Closed(es, 0) == 0 && Peak(es) == 2 && Hi(es, 3, false) == None
  {
    var es := [Start(10), Start(12), End(18), End(20)];
    assert Open(es, 1) == 1 && Open(es, 2) == 2 && Open(es, 3) == 1 && Open(es, 4) == 0;
    assert PeakTo(es, 1) == 1 && PeakTo(es, 2) == 2 && PeakTo(es, 3) == 2 && PeakTo(es, 4) == 2;
    assert Closed(es, 3) == 1 && Closed(es, 2) == 2 && Closed(es, 1) == 1 && Closed(es, 0) == 0;
    assert HiFrom(es, 1, 3, false) == None;
    assert HiFrom(es, 3, 3, false) == None;
    assert HiFrom(es, 4, 3, false) == None;
  }

  /** With (13,17) as well: three open at most, the last from the end at 17. */
  lemma {:induction false} SixthTailEnds()
    ensures var es := [Start(10), Start(12), Start(13), End(17), End(18), End(20)];
      Closed(es, 0) == 0 && Peak(es) == 3 && Hi(es, 3, false) == Some(17)
  {
    var es := [Start(10), Start(12), Start(13), End(17), End(18), End(20)];
    assert Open(es, 1) == 1 && Open(es, 2) == 2 && Open(es, 3) == 3;
    assert Open(es, 4) == 2 && Open(es, 5) == 1 && Open(es, 6) == 0;
    assert PeakTo(es, 1) == 1 && PeakTo(es, 2) == 2 && PeakTo(es, 3) == 3;
    assert PeakTo(es, 4) == 3 && PeakTo(es, 5) == 3 && PeakTo(es, 6) == 3;
    BalancedEnd(es);
    assert Closed(es, 5) == 1 && Closed(es, 4) == 2 && Closed(es, 3) == 3;
    assert HiFrom(es, 6, 3, false) == Some(3);
  }

  /** `find` after adding ranges one by one, with a window at least the
      deepest overlap: that overlap and its bounds. */
  lemma {:induction false} FindAfterAll(rs: seq<(int, int)>, w: nat)
    requires rs != [] && forall i :: 0 <= i < |rs| ==> Ordered(rs[i])
    requires Peak(AddAll([], rs)) <= w
    ensures var es := AddAll([], rs);
      FindResult(es, w) == (Peak(es), Lo(es, Peak(es), false), Hi(es, Peak(es), false))
  {
    AddAllInvariant(rs);
    FindIsPeak(AddAll([], rs), |rs|, w);
  }

  lemma {:induction false} DocstringFifthEnds()
    ensures var es := [Start(1), Start(3), Start(4), End(5), End(5), End(9)] + [Start(10), Start(12), End(18), End(20)];
      Peak(es) == 3 && Lo(es, 3, false) == Some(4) && Hi(es, 3, false) == Some(5)
  {
    var m := [Start(1), Start(3), Start(4), End(5), End(5), End(9)];
    var t := [Start(10), Start(12), End(18), End(20)];
    ThirdEnds();
    FourthFifthEnds();
    PeakConcat(m, t);
    LoConcat(m, t, 3);
    HiConcat(m, t, 3);
  }

  lemma {:induction false} DocstringFifth(r3: seq<(int, int)>, r4: seq<(int, int)>, r5: seq<(int, int)>, r6: seq<(int, int)>)
    requires DocstringRanges(r3, r4, r5, r6)
    ensures FindResult(AddAll([], r5), 5) == (3, Some(4), Some(5))
  {
    DocstringLists(r3, r4, r5, r6);
    DocstringFifthEnds();
    assert forall i :: 0 <= i < |r5| ==> Ordered(r5[i]);
    FindAfterAll(r5, 5);
  }

  lemma {:induction false} DocstringSixthEnds()
    ensures var es := [Start(1), Start(3), Start(4), End(5), End(5), End(9)] + [Start(10), Start(12), Start(13), End(17), End(18), End(20)];
      Peak(es) == 3 && Lo(es, 3, false) == Some(4) && Hi(es, 3, false) == Some(17)
  {
    var m := [Start(1), Start(3), Start(4), End(5), End(5), End(9)];
    var t := [Start(10), Start(12), Start(13), End(17), End(18), End(20)];
    ThirdEnds();
    SixthTailEnds();
    PeakConcat(m, t);
    LoConcat(m, t, 3);
    HiConcat(m, t, 3);
  }

  lemma {:induction false} DocstringSixth(r3: seq<(int, int)>, r4: seq<(int, int)>, r5: seq<(int, int)>, r6: seq<(int, int)>)
    requires DocstringRanges(r3, r4, r5, r6)
    ensures FindResult(AddAll([], r6), 4) == (3, Some(4), Some(17))
  {
    DocstringLists(r3, r4, r5, r6);
    DocstringSixthEnds();
    assert forall i :: 0 <= i < |r6| ==> Ordered(r6[i]);
    FindAfterAll(r6, 4);
  }

  /** The tests of two and three ranges without overlap: one overlap,
      reported as the hull of the ranges. */
  lemma {:induction false} NonOverlappingTests()
    ensures FindResult(AddAll([], [(1, 2), (3, 4)]), 2) == (1, Some(1), Some(4))
    ensures FindResult(AddAll([], [(1, 2), (3, 4), (5, 6)]), 3) == (1, Some(1), Some(6))
  {
    NonOverlappingTwo();
    NonOverlappingThree();
  }

  lemma {:induction false} NonOverlappingTwo()
    ensures FindResult(AddAll([], [(1, 2), (3, 4)]), 2) == (1, Some(1), Some(4))
  {
    var rs: seq<(int, int)> := [(1, 2), (3, 4)];
    assert rs[0] == (1, 2) && rs[1] == (3, 4);
    assert Disjoint(rs);
    DisjointHull(rs, 2);
    var r := FindResult(AddAll([], rs), 2);
    assert r.1.value <= 1 && r.2.value >= 4;
  }

  lemma {:induction false} NonOverlappingThree()
    ensures FindResult(AddAll([], [(1, 2), (3, 4), (5, 6)]), 3) == (1, Some(1), Some(6))
  {
    var rs: seq<(int, int)> := [(1, 2), (3, 4), (5, 6)];
    assert rs[0] == (1, 2) && rs[1] == (3, 4) && rs[2] == (5, 6);
    assert Disjoint(rs);
    DisjointHull(rs, 3);
    var r := FindResult(AddAll([], rs), 3);
    assert r.1.value <= 1 && r.2.value >= 6;
  }
}
