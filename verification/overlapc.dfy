/** The C overlap algorithm of src/c/overlap_algo.c: the edges live in a
    doubly linked list kept sorted by value, a new edge going before the
    edges of equal value; `overlap_find` lowers the unsigned `_wanted`
    until both scans find an edge, comparing the signed running sum with
    it as unsigned. */
module OverlapC {
  import opened Bytes
  import opened Overlap
  import PyOverlap

  /** `struct overlap_edge`: value and chime are set once, the links change. */
  class EdgeNode {
    const value: int
    const chime: int
    var prev: EdgeNode?
    var next: EdgeNode?

    constructor (value: int, chime: int)
      ensures this.value == value && this.chime == chime && prev == null && next == null
    {
      this.value := value;
      this.chime := chime;
      prev := null;
      next := null;
    }
  }

  /** The edges the nodes of a list hold, in list order. */
  ghost function ListEdges(ns: seq<EdgeNode>): (es: seq<Edge>)
    ensures |es| == |ns| && forall i :: 0 <= i < |ns| ==> es[i] == Edge(ns[i].value, ns[i].chime)
  {
    seq(|ns|, i requires 0 <= i < |ns| => Edge(ns[i].value, ns[i].chime))
  }

  /** `ns` is a doubly linked list from `head` to `tail`: the first node is
      `head` and the last `tail`, each node's `_prev` and `_next` are its
      neighbours (NULL at the ends), and no node appears twice. */
  ghost predicate Chain(head: EdgeNode?, tail: EdgeNode?, ns: seq<EdgeNode>)
    reads ns
  {
    && (ns == [] ==> head == null && tail == null)
    && (ns != [] ==> head == ns[0] && tail == ns[|ns| - 1] && head.prev == null && tail.next == null)
    && (forall i :: 0 <= i < |ns| - 1 ==> ns[i].next == ns[i + 1] && ns[i + 1].prev == ns[i])
    && Distinct(ns)
  }

  /** No node appears twice. */
  ghost predicate Distinct(ns: seq<EdgeNode>) {
    forall i, j :: 0 <= i < j < |ns| ==> ns[i] != ns[j]
  }

  /** A node not yet in the list keeps it free of repeats wherever it goes in. */
  lemma {:induction false} DistinctInsert(ns: seq<EdgeNode>, k: nat, n: EdgeNode)
    requires Distinct(ns) && n !in ns && k <= |ns|
    ensures Distinct(ns[..k] + [n] + ns[k..])
  {
    var r := ns[..k] + [n] + ns[k..];
    forall i, j | 0 <= i < j < |r|
      ensures r[i] != r[j]
    {
      if i < k && j > k {
        assert r[j] == ns[j - 1];
      } else if i > k {
        assert r[i] == ns[i - 1] && r[j] == ns[j - 1];
      }
    }
  }

  /** The edges of a list with a node put in at place `k`. */
  lemma {:induction false} ListInsert(ns: seq<EdgeNode>, k: nat, n: EdgeNode)
    requires k <= |ns|
    ensures ListEdges(ns[..k] + [n] + ns[k..]) == InsertAt(ListEdges(ns), k, Edge(n.value, n.chime))
  {
  }

  /** `struct overlap_algo`. */
  class OverlapAlgo {
    var head: EdgeNode?
    var tail: EdgeNode?
    /** `_wanted`: the level the next search starts at. */
    var wanted: nat
    /** The nodes from `_head` to `_tail`. */
    ghost var nodes: seq<EdgeNode>
    /** The ranges accepted, in order. */
    ghost var ranges: seq<(int, int)>
    /** The nodes allocated for the list. */
    ghost var Repr: set<EdgeNode>

    /** The list is the ghost sequence of its nodes, all of them its own. */
    ghost predicate Linked()
      reads this`head, this`tail, this`nodes, this`Repr, Repr
    {
      (forall i :: 0 <= i < |nodes| ==> nodes[i] in Repr) && Chain(head, tail, nodes)
    }

    /** The edges of the list, from `_head` to `_tail`. */
    ghost function Contents(): seq<Edge>
      reads this`nodes
    {
      ListEdges(nodes)
    }

    /** The list holds the edges of the ranges accepted, none of them
        inverted, in the order `overlap_insert` gives them; `_wanted` is
        at least the number of overlaps and at most the number of ranges. */
    ghost predicate Valid()
      reads this, Repr
    {
      && Linked()
      && (forall i :: 0 <= i < |ranges| ==> PyOverlap.Ordered(ranges[i]))
      && Contents() == CAddAll([], ranges)
      && Peak(Contents()) <= wanted <= |ranges|
    }

    /** `overlap_new`: an empty list, nothing wanted. */
    constructor ()
      ensures Valid() && nodes == [] && ranges == [] && wanted == 0 && Repr == {}
    {
      head, tail := null, null;
      wanted := 0;
      nodes := [];
      ranges := [];
      Repr := {};
    }

    /** The walk of `overlap_insert`: the first node whose value is at
        least `value`, and its place in the list; NULL past the tail. */
    method Locate(value: int) returns (ptr: EdgeNode?, ghost k: nat)
      requires Linked()
      ensures k == FirstAtLeast(Contents(), value)
      ensures ptr == if k < |nodes| then nodes[k] else null
    {
      ptr := head;
      k := 0;
      while ptr != null && ptr.value < value
        invariant k <= |nodes| && ptr == if k < |nodes| then nodes[k] else null
        invariant forall i :: 0 <= i < k ==> nodes[i].value < value
        decreases |nodes| - k
      {
        ptr := ptr.next;
        k := k + 1;
      }
    }

    /** Links a new node in before node `k`. */
    method LinkBefore(edge: EdgeNode, ptr: EdgeNode, ghost k: nat)
      requires Linked() && k < |nodes| && ptr == nodes[k] && edge !in Repr
      modifies this, Repr, edge
      ensures Linked() && nodes == old(nodes[..k] + [edge] + nodes[k..]) && Repr == old(Repr) + {edge}
      ensures wanted == old(wanted) && ranges == old(ranges)
    {
      ghost var ns := nodes;
      var before := ptr.prev;
      if k > 0 {
        assert nodes[k - 1].next == nodes[k] && before == nodes[k - 1];
      }
      edge.prev := before;
      edge.next := ptr;
      if before != null {
        before.next := edge;
      } else {
        head := edge;
      }
      ptr.prev := edge;
      nodes := ns[..k] + [edge] + ns[k..];
      Repr := Repr + {edge};
      DistinctInsert(ns, k, edge);
      forall i | 0 <= i < |nodes| - 1
        ensures nodes[i].next == nodes[i + 1] && nodes[i + 1].prev == nodes[i]
      {
        if i < k - 1 {
          assert nodes[i] == ns[i] && nodes[i + 1] == ns[i + 1];
          assert old(nodes[i].next) == old(nodes[i + 1]) && old(nodes[i + 1].prev) == old(nodes[i]);
        } else if k < i {
          assert nodes[i] == ns[i - 1] && nodes[i + 1] == ns[i];
          assert old(nodes[i - 1].next) == old(nodes[i]) && old(nodes[i].prev) == old(nodes[i - 1]);
        }
      }
    }

    /** Links a new node in after the tail. */
    method LinkLast(edge: EdgeNode)
      requires Linked() && nodes != [] && edge !in Repr
      modifies this, tail, edge
      ensures Linked() && nodes == old(nodes) + [edge] && Repr == old(Repr) + {edge}
      ensures wanted == old(wanted) && ranges == old(ranges)
    {
      ghost var ns := nodes;
      var last := tail;
      edge.prev := last;
      edge.next := null;
      last.next := edge;
      tail := edge;
      nodes := ns + [edge];
      Repr := Repr + {edge};
      DistinctInsert(ns, |ns|, edge);
      assert nodes == ns[..|ns|] + [edge] + ns[|ns|..];
      forall i | 0 <= i < |nodes| - 1
        ensures nodes[i].next == nodes[i + 1] && nodes[i + 1].prev == nodes[i]
      {
        if i + 1 < |ns| {
          assert nodes[i] == ns[i] && nodes[i + 1] == ns[i + 1];
          assert old(nodes[i].next) == old(nodes[i + 1]) && old(nodes[i + 1].prev) == old(nodes[i]);
        }
      }
    }

    /** `overlap_insert`: the new edge goes before the first edge whose
        value is at least its own, or at the tail when there is none. */
    method Insert(value: int, chime: int) returns (ghost k: nat, ghost node: EdgeNode)
      requires Linked()
      modifies this, Repr
      ensures Linked()
      ensures Contents() == CInsert(old(Contents()), Edge(value, chime))
      ensures fresh(node) && Repr == old(Repr) + {node}
      ensures wanted == old(wanted) && ranges == old(ranges)
    {
      var edge := new EdgeNode(value, chime);
      node := edge;
      ghost var ns := nodes;
      if head == null {
        head, tail := edge, edge;
        nodes := [edge];
        Repr := Repr + {edge};
        k := 0;
        ListInsert(ns, 0, edge);
        return;
      }
      var ptr;
      ptr, k := Locate(value);
      if ptr != null {
        LinkBefore(edge, ptr, k);
      } else {
        LinkLast(edge);
        assert nodes == ns[..k] + [edge] + ns[k..];
      }
      ListInsert(ns, k, edge);
    }

    /** `overlap_add`: an inverted range is refused and changes nothing;
        otherwise its start edge and then its end edge are inserted and one
        more overlap is wanted. A range of a single point is accepted. */
    method Add(lo: int, hi: int) returns (ok: bool)
      requires Valid()
      modifies this, Repr
      ensures Valid()
      ensures ok <==> lo <= hi
      ensures ok ==> && ranges == old(ranges) + [(lo, hi)] && wanted == old(wanted) + 1
                     && Contents() == CAdd(old(Contents()), lo, hi)
      ensures !ok ==> ranges == old(ranges) && wanted == old(wanted) && Contents() == old(Contents())
      ensures fresh(Repr - old(Repr))
    {
      if hi < lo {
        return false;
      }
      AddStep(ranges, lo, hi);
      InsertRange(lo, hi);
      Count(lo, hi);
      return true;
    }

    /** The bookkeeping of `overlap_add`: one more overlap wanted, one more
        range accepted. */
    method Count(lo: int, hi: int)
      requires Linked()
      modifies this`wanted, this`ranges
      ensures Linked() && Contents() == old(Contents())
      ensures wanted == old(wanted) + 1 && ranges == old(ranges) + [(lo, hi)]
    {
      wanted := wanted + 1;
      ranges := ranges + [(lo, hi)];
    }

    /** The two insertions of `overlap_add`: the start edge, then the end edge. */
    method InsertRange(lo: int, hi: int)
      requires Linked()
      modifies this, Repr
      ensures Linked() && Contents() == CAdd(old(Contents()), lo, hi)
      ensures wanted == old(wanted) && ranges == old(ranges) && fresh(Repr - old(Repr))
    {
      ghost var k, e := Insert(lo, -1);
      k, e := Insert(hi, 1);
    }

    /** The forward scan of `overlap_find`: `chime -= edge->_chime` from
        the head, stopping at the first edge after which the sum, converted
        to unsigned, reaches `w`. */
    method ScanLo(w: nat) returns (lo: Option<int>)
      requires Linked()
      ensures lo == Lo(Contents(), w, true)
      ensures Linked()
    {
      var chime := 0;
      var edge := head;
      ghost var i := 0;
      while edge != null
        invariant i <= |nodes| && edge == if i < |nodes| then nodes[i] else null
        invariant chime == Open(Contents(), i)
        invariant LoFrom(Contents(), i, w, true) == LoFrom(Contents(), 0, w, true)
        decreases |nodes| - i
      {
        chime := chime - edge.chime;
        if Wrap32(chime) >= w {
          return Some(edge.value);
        }
        edge := edge.next;
        i := i + 1;
      }
      return None;
    }

    /** The backward scan of `overlap_find`: `chime += edge->_chime` from
        the tail along `_prev`, stopping at the first edge from which the
        sum, converted to unsigned, reaches `w`. */
    method ScanHi(w: nat) returns (hi: Option<int>)
      requires Linked()
      ensures hi == Hi(Contents(), w, true)
      ensures Linked()
    {
      var chime := 0;
      var edge := tail;
      ghost var j: nat := |nodes|;
      while edge != null
        invariant j <= |nodes| && edge == if j > 0 then nodes[j - 1] else null
        invariant chime == Closed(Contents(), j)
        invariant HiFrom(Contents(), j, w, true) == HiFrom(Contents(), |nodes|, w, true)
        decreases j
      {
        chime := chime + edge.chime;
        if Wrap32(chime) >= w {
          return Some(edge.value);
        }
        edge := edge.prev;
        j := j - 1;
      }
      return None;
    }

    /** The `while (algo->_wanted)` loop of `overlap_find`, from level
        `w0`: the level it stops at and the ends found there. */
    method Levels(w0: nat) returns (count: nat, lo: Option<int>, hi: Option<int>)
      requires Linked()
      ensures (count, lo, hi) == CSearch(Contents(), w0)
    {
      ghost var es := Contents();
      count := w0;
      while count > 0
        invariant Linked() && Contents() == es
        invariant count <= w0 && CSearch(es, count) == CSearch(es, w0)
      {
        lo := ScanLo(count);
        hi := ScanHi(count);
        if lo.Some? && hi.Some? {
          return;
        }
        CSearchStep(es, count);
        count := count - 1;
      }
      return 0, None, None;
    }

    /** `overlap_find` keeps the level it stopped at as `_wanted`. */
    method SetWanted(w: nat)
      requires Linked()
      modifies this`wanted
      ensures Linked() && Contents() == old(Contents()) && wanted == w
    {
      wanted := w;
    }

    /** `overlap_find`: `_wanted` is lowered until both scans find an edge,
        and the level reached is kept and returned. Only then are the ends
        written over `*lo` and `*hi`, which come in as `lo0` and `hi0`. The
        count is never below the number of overlaps; when no range begins
        where a range ends it is that number, with the ends the Python
        `find` gives. */
    method Find(lo0: int, hi0: int) returns (count: nat, lo: int, hi: int)
      requires Valid() && |ranges| <= INT_MAX
      modifies this`wanted
      ensures Valid() && ranges == old(ranges) && nodes == old(nodes) && wanted == count
      ensures count == CSearch(Contents(), old(wanted)).0 >= Peak(Contents())
      ensures count > 0 ==> CSearch(Contents(), old(wanted)) == (count, Some(lo), Some(hi))
      ensures count == 0 ==> lo == lo0 && hi == hi0
      ensures NoTouch(ranges) ==> count == Peak(Contents())
      ensures NoTouch(ranges) && count > 0 ==>
        lo <= hi && PyOverlap.FindResult(PyOverlap.AddAll([], ranges), old(wanted)) == (count, Some(lo), Some(hi))
    {
      ghost var w0 := wanted;
      var l, h;
      count, l, h := Levels(wanted);
      FindStep(ranges, w0);
      SetWanted(count);
      if count > 0 {
        lo, hi := l.value, h.value;
      } else {
        lo, hi := lo0, hi0;
      }
    }
  }

  /** `INT_MAX`: the running sums of a list of at most this many ranges
      fit in C's `int`. */
  const INT_MAX: int := 0x7fff_ffff

  /** The list `overlap_add` builds from `es` for the ranges `rs`, in order. */
  function CAddAll(es: seq<Edge>, rs: seq<(int, int)>): seq<Edge>
    decreases |rs|
  {
    if rs == [] then es
    else CAddAll(CAdd(es, rs[0].0, rs[0].1), rs[1..])
  }

  lemma {:induction false} CAddAllSnoc(es: seq<Edge>, rs: seq<(int, int)>, r: (int, int))
    ensures CAddAll(es, rs + [r]) == CAdd(CAddAll(es, rs), r.0, r.1)
    decreases |rs|
  {
    if rs == [] {
      assert [r][1..] == [];
      assert CAddAll(es, [r]) == CAddAll(CAdd(es, r.0, r.1), []);
    } else {
      assert (rs + [r])[1..] == rs[1..] + [r];
      CAddAllSnoc(CAdd(es, rs[0].0, rs[0].1), rs[1..], r);
    }
  }

  /** The C list of ranges is sorted by value, balanced, holds the two
      edges of every range, and never has more ranges open than added. */
  lemma {:induction false} CAddAllEdges(es: seq<Edge>, n: nat, rs: seq<(int, int)>)
    requires EdgesOf(es, n)
    ensures EdgesOf(CAddAll(es, rs), n + |rs|)
    ensures multiset(CAddAll(es, rs)) == multiset(es) + PyOverlap.Bag(rs)
    decreases |rs|
  {
    if rs != [] {
      CAddKeeps(es, n, rs[0].0, rs[0].1);
      CAddAllEdges(CAdd(es, rs[0].0, rs[0].1), n + 1, rs[1..]);
    }
  }

  /** One more range after `rs` is one more `overlap_add`, and raises the
      number of overlaps by at most one. */
  lemma {:induction false} AddStep(rs: seq<(int, int)>, lo: int, hi: int)
    ensures CAddAll([], rs + [(lo, hi)]) == CAdd(CAddAll([], rs), lo, hi)
    ensures Peak(CAdd(CAddAll([], rs), lo, hi)) <= Peak(CAddAll([], rs)) + 1
  {
    CAddAllEdges([], 0, rs);
    CAddKeeps(CAddAll([], rs), |rs|, lo, hi);
    CAddAllSnoc([], rs, (lo, hi));
  }

  /** Ranges with the high end above the low end keep every running count
      of the C list non-negative. */
  lemma {:induction false} CAddAllNonNegative(es: seq<Edge>, n: nat, rs: seq<(int, int)>)
    requires EdgesOf(es, n) && NonNegative(es)
    requires forall i :: 0 <= i < |rs| ==> rs[i].0 < rs[i].1
    ensures NonNegative(CAddAll(es, rs))
    decreases |rs|
  {
    if rs != [] {
      CAddKeeps(es, n, rs[0].0, rs[0].1);
      CAddNonNegative(es, rs[0].0, rs[0].1);
      CAddAllNonNegative(CAdd(es, rs[0].0, rs[0].1), n + 1, rs[1..]);
    }
  }

  /** No range begins at a value where a range, itself included, ends. */
  predicate NoTouch(rs: seq<(int, int)>) {
    forall k, m :: 0 <= k < |rs| && 0 <= m < |rs| ==> rs[k].0 != rs[m].1
  }

  /** Every edge of the ranges is the start or the end of one of them. */
  lemma {:induction false} BagMember(rs: seq<(int, int)>, e: Edge)
    requires e in PyOverlap.Bag(rs)
    ensures exists k :: 0 <= k < |rs| && (e == Start(rs[k].0) || e == End(rs[k].1))
    decreases |rs|
  {
    if e !in multiset{Start(rs[0].0), End(rs[0].1)} {
      BagMember(rs[1..], e);
      var k :| 0 <= k < |rs| - 1 && (e == Start(rs[1..][k].0) || e == End(rs[1..][k].1));
      assert rs[1..][k] == rs[k + 1];
    }
  }

  /** When no range begins where one ends, edges of equal value are all
      starts or all ends, so the C order is the order Python sorts in. */
  lemma {:induction false} NoTouchLexSorted(es: seq<Edge>, rs: seq<(int, int)>)
    requires ValueSorted(es) && multiset(es) == PyOverlap.Bag(rs) && NoTouch(rs)
    ensures LexSorted(es)
  {
    forall i, j | 0 <= i < j < |es|
      ensures LexLe(es[i], es[j])
    {
      if es[i].value == es[j].value {
        assert es[i] in multiset(es) && es[j] in multiset(es);
        BagMember(rs, es[i]);
        BagMember(rs, es[j]);
        var k :| 0 <= k < |rs| && (es[i] == Start(rs[k].0) || es[i] == End(rs[k].1));
        var m :| 0 <= m < |rs| && (es[j] == Start(rs[m].0) || es[j] == End(rs[m].1));
        assert rs[k].0 != rs[m].1 && rs[m].0 != rs[k].1;
      }
    }
  }

  /** When no range begins where one ends, the C list and the Python list
      of the same ranges are the same list. */
  lemma {:induction false} CListIsPyList(rs: seq<(int, int)>)
    requires NoTouch(rs)
    ensures CAddAll([], rs) == PyOverlap.AddAll([], rs)
  {
    CAddAllEdges([], 0, rs);
    PyOverlap.AddAllEdges([], 0, rs);
    NoTouchLexSorted(CAddAll([], rs), rs);
    SortedUnique(CAddAll([], rs), PyOverlap.AddAll([], rs));
  }

  /** The levels `overlap_find` tries from `w` down: the first where both
      scans, comparing as unsigned, find an edge; 0 and no ends when none does. */
  function CSearch(es: seq<Edge>, w: nat): (r: (nat, Option<int>, Option<int>))
    ensures r.0 <= w
    ensures r.0 > 0 ==> r.1.Some? && r.2.Some?
    ensures r.0 == 0 ==> r.1.None? && r.2.None?
  {
    if w == 0 then (0, None, None)
    else
      var lo := Lo(es, w, true);
      var hi := Hi(es, w, true);
      if lo.Some? && hi.Some? then (w, lo, hi) else CSearch(es, w - 1)
  }

  /** A level where a scan finds no edge sends the C search one level down. */
  lemma {:induction false} CSearchStep(es: seq<Edge>, w: nat)
    requires w > 0 && !(Lo(es, w, true).Some? && Hi(es, w, true).Some?)
    ensures CSearch(es, w) == CSearch(es, w - 1)
  {
  }

  /** The C search stops at the highest level where both scans find an edge. */
  lemma {:induction false} CSearchIsBest(es: seq<Edge>, w: nat)
    ensures var c := Best(es, w, true, false);
      CSearch(es, w) == if c > 0 then (c, Lo(es, c, true), Hi(es, c, true)) else (0, None, None)
  {
    if w > 0 && !Passes(es, w, true, false) {
      CSearchIsBest(es, w - 1);
    }
  }

  /** The level search does not stop below a level that passes. */
  lemma {:induction false} BestAtLeast(es: seq<Edge>, w: nat, p: nat, unsigned: bool, ordered: bool)
    requires 0 < p <= w && Passes(es, p, unsigned, ordered)
    ensures Best(es, w, unsigned, ordered) >= p
  {
    if w > p && !Passes(es, w, unsigned, ordered) {
      BestAtLeast(es, w - 1, p, unsigned, ordered);
    }
  }

  /** Comparing as unsigned, both scans still find an edge at the number
      of overlaps: the point where the most ranges are open reaches it. */
  lemma {:induction false} PeakPassesUnsigned(es: seq<Edge>)
    requires Balanced(es) && 0 < Peak(es) < TWO32
    ensures Passes(es, Peak(es), true, false)
  {
    var p := Peak(es);
    var m :| 0 <= m <= |es| && Open(es, m) == p;
    BalancedEnd(es);
    assert 0 < m < |es|;
    assert Reaches(Open(es, m), p, true);
    ClosedOpen(es, m);
    assert Reaches(Closed(es, m), p, true);
  }

  /** So the C search, started at or above the number of overlaps, never
      stops below it. */
  lemma {:induction false} UnsignedAtLeastPeak(es: seq<Edge>, w: nat)
    requires Balanced(es) && Peak(es) < TWO32 && Peak(es) <= w
    ensures Best(es, w, true, false) >= Peak(es)
  {
    if Peak(es) > 0 {
      PeakPassesUnsigned(es);
      BestAtLeast(es, w, Peak(es), true, false);
    }
  }

  /** On a list with no negative running count, from any level at or above
      the number of overlaps, the C search stops at that number, with the
      ends the signed scans find for it. */
  lemma {:induction false} CSearchAtPeak(es: seq<Edge>, w: nat)
    requires ValueSorted(es) && Balanced(es) && NonNegative(es) && Peak(es) < TWO32 && Peak(es) <= w
    ensures CSearch(es, w) == if Peak(es) > 0 then (Peak(es), Lo(es, Peak(es), false), Hi(es, Peak(es), false))
                              else (0, None, None)
  {
    BestUnsigned(es, w, false);
    BestIsPeak(es, w, false);
    CSearchIsBest(es, w);
    LoUnsigned(es, 0, Peak(es));
    HiUnsigned(es, |es|, Peak(es));
  }

  /** Ranges none of which is inverted or touches another: the C list is
      the Python list, and no running count in it is negative. */
  lemma {:induction false} NoTouchList(rs: seq<(int, int)>)
    requires NoTouch(rs) && (forall i :: 0 <= i < |rs| ==> PyOverlap.Ordered(rs[i]))
    ensures CAddAll([], rs) == PyOverlap.AddAll([], rs) && NonNegative(CAddAll([], rs))
  {
    CListIsPyList(rs);
    forall i | 0 <= i < |rs|
      ensures rs[i].0 < rs[i].1
    {
      assert PyOverlap.Ordered(rs[i]) && rs[i].0 != rs[i].1;
    }
    CAddAllNonNegative([], 0, rs);
  }

  /** When no range begins where one ends and none is inverted, the C
      search, from any level at or above the number of overlaps, gives
      what the Python `find` gives for the same ranges. */
  lemma {:induction false} CFindAgrees(rs: seq<(int, int)>, w: nat)
    requires NoTouch(rs) && (forall i :: 0 <= i < |rs| ==> PyOverlap.Ordered(rs[i]))
    requires |rs| < TWO32 && Peak(CAddAll([], rs)) <= w
    ensures CSearch(CAddAll([], rs), w) == PyOverlap.FindResult(PyOverlap.AddAll([], rs), w)
  {
    var es := CAddAll([], rs);
    NoTouchList(rs);
    PyOverlap.AddAllInvariant(rs);
    LexValueSorted(es);
    CSearchAtPeak(es, w);
    PyOverlap.FindIsPeak(es, |rs|, w);
  }

  /** What `overlap_find` from level `w` gives for the list of the ranges
      `rs`, as `Find` states it. */
  lemma {:induction false} FindStep(rs: seq<(int, int)>, w: nat)
    requires forall i :: 0 <= i < |rs| ==> PyOverlap.Ordered(rs[i])
    requires Peak(CAddAll([], rs)) <= w && |rs| <= INT_MAX
    ensures CSearch(CAddAll([], rs), w).0 >= Peak(CAddAll([], rs))
    ensures NoTouch(rs) ==> CSearch(CAddAll([], rs), w).0 == Peak(CAddAll([], rs))
    ensures NoTouch(rs) ==> CSearch(CAddAll([], rs), w) == PyOverlap.FindResult(PyOverlap.AddAll([], rs), w)
    ensures NoTouch(rs) && CSearch(CAddAll([], rs), w).0 > 0 ==>
      CSearch(CAddAll([], rs), w).1.value <= CSearch(CAddAll([], rs), w).2.value
  {
    var es := CAddAll([], rs);
    CAddAllEdges([], 0, rs);
    CSearchIsBest(es, w);
    UnsignedAtLeastPeak(es, w);
    if NoTouch(rs) {
      CFindAgrees(rs, w);
      CListIsPyList(rs);
      PyOverlap.AddAllInvariant(rs);
      PyOverlap.FindIsPeak(es, |rs|, w);
    }
  }

  /** A range of a single point, then a range after it. `overlap_add`
      puts the point's end edge before its start edge, so the forward scan
      begins at -1, which as unsigned reaches every level: from level 2,
      which the driver reaches after two ranges, `overlap_find` reports two
      overlaps at the point, where the ranges do not overlap at all and
      the Python `find` reports one. */
  lemma {:induction false} PointRangeMiscounts()
    ensures Peak(CAddAll([], [(1, 1), (3, 4)])) == 1
    ensures CSearch(CAddAll([], [(1, 1), (3, 4)]), 2) == (2, Some(1), Some(1))
    ensures PyOverlap.FindResult(PyOverlap.AddAll([], [(1, 1), (3, 4)]), 2) == (1, Some(1), Some(4))
  {
    PointRangeLists();
    PointRangeSearches();
  }

  lemma {:induction false} PointRangeLists()
    ensures CAddAll([], [(1, 1), (3, 4)]) == [End(1), Start(1), Start(3), End(4)]
    ensures PyOverlap.AddAll([], [(1, 1), (3, 4)]) == [Start(1), End(1), Start(3), End(4)]
  {
    var rs: seq<(int, int)> := [(1, 1), (3, 4)];
    assert rs[1..] == [(3, 4)] && |rs[1..][1..]| == 0;
    PointRangeC();
    PointRangePy();
    assert CAddAll([], rs) == CAddAll(CAdd([], 1, 1), [(3, 4)]);
    assert PyOverlap.AddAll([], rs) == PyOverlap.AddAll(PyAdd([], 1, 1), [(3, 4)]);
  }

  lemma {:induction false} PointRangeC()
    ensures CAdd([], 1, 1) == [End(1), Start(1)]
    ensures CAdd([End(1), Start(1)], 3, 4) == [End(1), Start(1), Start(3), End(4)]
  {
    assert CInsert([], Start(1)) == [Start(1)];
    assert FirstAtLeast([Start(1)], 1) == 0;
    assert FirstAtLeast([End(1), Start(1)], 3) == 2;
    assert CInsert([End(1), Start(1)], Start(3)) == [End(1), Start(1), Start(3)];
    assert FirstAtLeast([End(1), Start(1), Start(3)], 4) == 3;
  }

  lemma {:induction false} PointRangePy()
    ensures PyAdd([], 1, 1) == [Start(1), End(1)]
    ensures PyAdd([Start(1), End(1)], 3, 4) == [Start(1), End(1), Start(3), End(4)]
  {
    assert LexPos([Start(1)], End(1)) == 1;
    assert LexPos([Start(1), End(1)], Start(3)) == 2;
    assert LexPos([Start(1), End(1), Start(3)], End(4)) == 3;
  }

  lemma {:induction false} PointRangeSearches()
    ensures var es := [End(1), Start(1), Start(3), End(4)];
      Peak(es) == 1 && CSearch(es, 2) == (2, Some(1), Some(1))
    ensures PyOverlap.FindResult([Start(1), End(1), Start(3), End(4)], 2) == (1, Some(1), Some(4))
  {
    var es := [End(1), Start(1), Start(3), End(4)];
    assert Open(es, 1) == -1 && Open(es, 2) == 0 && Open(es, 3) == 1 && Open(es, 4) == 0;
    assert LoFrom(es, 0, 2, true) == Some(0);
    assert Closed(es, 3) == 1 && Closed(es, 2) == 0 && Closed(es, 1) == -1;
    assert HiFrom(es, 4, 2, true) == Some(1);
    var ps := [Start(1), End(1), Start(3), End(4)];
    assert Open(ps, 1) == 1 && Open(ps, 2) == 0 && Open(ps, 3) == 1 && Open(ps, 4) == 0;
    assert Lo(ps, 2, false) == None;
    assert Closed(ps, 3) == 1;
    assert Lo(ps, 1, false) == Some(1) && Hi(ps, 1, false) == Some(4);
  }

  /** Two ranges that touch, added in either order. `overlap_insert` puts
      a new edge before the edges of equal value, so the C list depends on
      the order: the range ending at 2 added last puts its end edge before
      the start edge at 2, and `overlap_find` from level 2 then reports one
      overlap between 1 and 3 instead of two at 2. The Python `find`
      reports two at 2 in both orders. */
  lemma {:induction false} TouchingOrderMatters()
    ensures CSearch(CAddAll([], [(2, 3), (1, 2)]), 2) == (1, Some(1), Some(3))
    ensures CSearch(CAddAll([], [(1, 2), (2, 3)]), 2) == (2, Some(2), Some(2))
    ensures PyOverlap.FindResult(PyOverlap.AddAll([], [(2, 3), (1, 2)]), 2) == (2, Some(2), Some(2))
  {
    TouchingLists();
    TouchingSearches();
  }

  lemma {:induction false} TouchingLists()
    ensures CAddAll([], [(2, 3), (1, 2)]) == [Start(1), End(2), Start(2), End(3)]
    ensures CAddAll([], [(1, 2), (2, 3)]) == [Start(1), Start(2), End(2), End(3)]
    ensures PyOverlap.AddAll([], [(2, 3), (1, 2)]) == [Start(1), Start(2), End(2), End(3)]
  {
    var rs: seq<(int, int)> := [(2, 3), (1, 2)];
    var qs: seq<(int, int)> := [(1, 2), (2, 3)];
    assert rs[1..] == [(1, 2)] && |rs[1..][1..]| == 0;
    assert qs[1..] == [(2, 3)] && |qs[1..][1..]| == 0;
    TouchingLate();
    TouchingEarly();
    TouchingPy();
    assert CAddAll([], rs) == CAddAll(CAdd([], 2, 3), [(1, 2)]);
    assert CAddAll([], qs) == CAddAll(CAdd([], 1, 2), [(2, 3)]);
    assert PyOverlap.AddAll([], rs) == PyOverlap.AddAll(PyAdd([], 2, 3), [(1, 2)]);
  }

  lemma {:induction false} TouchingLate()
    ensures CAdd([], 2, 3) == [Start(2), End(3)]
    ensures CAdd([Start(2), End(3)], 1, 2) == [Start(1), End(2), Start(2), End(3)]
  {
    assert CInsert([], Start(2)) == [Start(2)];
    assert FirstAtLeast([Start(2)], 3) == 1;
    assert FirstAtLeast([Start(2), End(3)], 1) == 0;
    assert CInsert([Start(2), End(3)], Start(1)) == [Start(1), Start(2), End(3)];
    assert FirstAtLeast([Start(1), Start(2), End(3)], 2) == 1;
  }

  lemma {:induction false} TouchingEarly()
    ensures CAdd([], 1, 2) == [Start(1), End(2)]
    ensures CAdd([Start(1), End(2)], 2, 3) == [Start(1), Start(2), End(2), End(3)]
  {
    assert CInsert([], Start(1)) == [Start(1)];
    assert FirstAtLeast([Start(1)], 2) == 1;
    assert FirstAtLeast([Start(1), End(2)], 2) == 1;
    assert CInsert([Start(1), End(2)], Start(2)) == [Start(1), Start(2), End(2)];
    assert FirstAtLeast([Start(1), Start(2), End(2)], 3) == 3;
  }

  lemma {:induction false} TouchingPy()
    ensures PyAdd([], 2, 3) == [Start(2), End(3)]
    ensures PyAdd([Start(2), End(3)], 1, 2) == [Start(1), Start(2), End(2), End(3)]
  {
    assert LexPos([Start(2)], End(3)) == 1;
    assert LexPos([Start(2), End(3)], Start(1)) == 0;
    assert LexPos([Start(1), Start(2), End(3)], End(2)) == 2;
  }

  lemma {:induction false} TouchingSearches()
    ensures CSearch([Start(1), End(2), Start(2), End(3)], 2) == (1, Some(1), Some(3))
    ensures CSearch([Start(1), Start(2), End(2), End(3)], 2) == (2, Some(2), Some(2))
    ensures PyOverlap.FindResult([Start(1), Start(2), End(2), End(3)], 2) == (2, Some(2), Some(2))
  {
    var es := [Start(1), End(2), Start(2), End(3)];
    assert Open(es, 1) == 1 && Open(es, 2) == 0 && Open(es, 3) == 1 && Open(es, 4) == 0;
    assert LoFrom(es, 0, 2, true) == None;
    assert LoFrom(es, 0, 1, true) == Some(0);
    assert Closed(es, 3) == 1;
    assert HiFrom(es, 4, 1, true) == Some(3);
    var ps := [Start(1), Start(2), End(2), End(3)];
    assert Open(ps, 1) == 1 && Open(ps, 2) == 2;
    assert LoFrom(ps, 0, 2, true) == Some(1) && LoFrom(ps, 0, 2, false) == Some(1);
    assert Closed(ps, 3) == 1 && Closed(ps, 2) == 2;
    assert HiFrom(ps, 4, 2, true) == Some(2) && HiFrom(ps, 4, 2, false) == Some(2);
  }
}
