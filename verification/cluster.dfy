/** The prototype of examples/esp32/roughtime/clusteringAlgorithm.c: the
    edges live in a doubly linked list reached from `root` only, kept
    sorted by value with a new edge going before the edges of equal value.
    Each `find_overlap` call adds one range and, once `n` responses are in,
    tries the levels from the number of responses down to `n`. The scans
    compare the signed running sum with the signed `wanted`. A scan that
    finds nothing leaves the low or high end as the previous level left it,
    both starting at 0, and a level is accepted when both ends are non-zero
    and in order. Whatever the last level tried left in them is stored. */
module Cluster {
  import opened Bytes
  import opened Overlap
  import opened OverlapC

  /** The forward scan from edge `i`: an edge is only taken while another
      follows it, so the last edge is never examined. The index of the
      first edge after which the running count reaches `w`. */
  function ScanFrom(es: seq<Edge>, i: nat, w: int): (r: Option<nat>)
    requires i <= |es|
    decreases |es| - i
    ensures r.Some? ==> i <= r.value && r.value + 1 < |es| && Open(es, r.value + 1) >= w
  {
    if i + 1 >= |es| then None
    else if Open(es, i + 1) >= w then Some(i)
    else ScanFrom(es, i + 1, w)
  }

  /** The backward scan from edge `j` towards the root: an edge is only
      taken while another precedes it, so the root is never examined. The
      index of the first edge from which the running sum reaches `w`. */
  function ScanBack(es: seq<Edge>, j: nat, w: int): (r: Option<nat>)
    requires j < |es|
    ensures r.Some? ==> 0 < r.value <= j && Closed(es, r.value) >= w
  {
    if j == 0 then None
    else if Closed(es, j) >= w then Some(j)
    else ScanBack(es, j - 1, w)
  }

  /** The value the forward scan stops at for level `w`. */
  function FwdEnd(es: seq<Edge>, w: int): Option<int>
    requires |es| >= 1
  {
    match ScanFrom(es, 0, w)
    case None => None
    case Some(i) => Some(es[i].value)
  }

  /** The value the backward scan, from the last edge, stops at for level `w`. */
  function BackEnd(es: seq<Edge>, w: int): Option<int>
    requires |es| >= 1
  {
    match ScanBack(es, |es| - 1, w)
    case None => None
    case Some(j) => Some(es[j].value)
  }

  /** The range a response gives: its offset less and plus its uncertainty. */
  function Span(adjust: int, uncert: int): (int, int) {
    (adjust - uncert, adjust + uncert)
  }

  /** A local `lo` or `hi` after a scan: what the scan found, else what it held. */
  function Keep(found: Option<int>, held: int): int {
    match found
    case None => held
    case Some(v) => v
  }

  /** The `for` loop of `find_overlap` from level `w` down to `n`, with the
      ends the levels above left in `lo` and `hi`: the level it stops at
      and the ends stored. It stops at the first level whose ends are both
      non-zero and in order, or at `n`. */
  function Search(es: seq<Edge>, w: int, n: int, lo: int, hi: int): (r: (int, int, int))
    requires |es| >= 1 && w >= n
    decreases w - n
    ensures n <= r.0 <= w
  {
    var l := Keep(FwdEnd(es, w), lo);
    var h := Keep(BackEnd(es, w), hi);
    if (l != 0 && h != 0 && l <= h) || w == n then (w, l, h)
    else Search(es, w - 1, n, l, h)
  }

  /** In a balanced list the forward scan loses nothing by skipping the
      last edge: nothing is open after it, so it never reaches a level of
      at least 1. */
  lemma {:induction false} ScanFromIsLoFrom(es: seq<Edge>, i: nat, w: int)
    requires Balanced(es) && w >= 1 && i <= |es|
    ensures ScanFrom(es, i, w) == LoFrom(es, i, w, false)
    decreases |es| - i
  {
    BalancedEnd(es);
    if i + 1 < |es| && Open(es, i + 1) < w {
      ScanFromIsLoFrom(es, i + 1, w);
    } else if i + 1 == |es| {
      assert LoFrom(es, i + 1, w, false) == None;
    }
  }

  /** Nor does the backward scan by skipping the root: the running sum from
      the root is the sum of all chimes, 0. */
  lemma {:induction false} ScanBackIsHiFrom(es: seq<Edge>, j: nat, w: int)
    requires Balanced(es) && w >= 1 && j < |es|
    ensures ScanBack(es, j, w) == HiFrom(es, j + 1, w, false)
  {
    if j > 0 && Closed(es, j) < w {
      ScanBackIsHiFrom(es, j - 1, w);
    } else if j == 0 {
      assert HiFrom(es, 0, w, false) == None;
    }
  }

  /** So in a balanced list the two scans find the ends every other
      version finds. */
  lemma {:induction false} EndsAreLoHi(es: seq<Edge>, w: int)
    requires Balanced(es) && w >= 1 && |es| >= 1
    ensures FwdEnd(es, w) == Lo(es, w, false) && BackEnd(es, w) == Hi(es, w, false)
  {
    ScanFromIsLoFrom(es, 0, w);
    ScanBackIsHiFrom(es, |es| - 1, w);
  }

  /** On a sorted, balanced list, from level `w >= n >= 1`: when fewer than
      `n` ranges overlap anywhere, no level finds an end and 0 and 0 are
      stored at level `n`; otherwise the search stops at the number of
      overlaps (or `w`, when lower), with the ends the scans find there, in
      order, unless one of them is the value 0. */
  lemma {:induction false} SearchAtPeak(es: seq<Edge>, w: int, n: int)
    requires ValueSorted(es) && Balanced(es) && |es| >= 1 && 1 <= n <= w
    ensures Min(w, Peak(es)) < n ==> Search(es, w, n, 0, 0) == (n, 0, 0)
    ensures var c := Min(w, Peak(es));
      c >= n ==> Lo(es, c, false).Some? && Hi(es, c, false).Some? && Lo(es, c, false).value <= Hi(es, c, false).value
    ensures var c := Min(w, Peak(es));
      c >= n && Lo(es, c, false) != Some(0) && Hi(es, c, false) != Some(0) ==>
        Search(es, w, n, 0, 0) == (c, Lo(es, c, false).value, Hi(es, c, false).value)
    decreases w - n
  {
    EndsAreLoHi(es, w);
    FoundIffPeak(es, w);
    if w > Peak(es) {
      if w > n {
        SearchAtPeak(es, w - 1, n);
      }
    } else {
      LoBeforeHi(es, w);
    }
  }

  /** The neighbours of node `d` of a list: `next_edge` is NULL only at
      the last node and `prev_edge` only at the first. */
  lemma {:induction false} ChainLinks(head: EdgeNode?, tail: EdgeNode?, ns: seq<EdgeNode>, d: nat)
    requires Chain(head, tail, ns) && d < |ns|
    ensures ns[d].next == if d + 1 < |ns| then ns[d + 1] else null
    ensures ns[d].prev == if d > 0 then ns[d - 1] else null
  {
    if d > 0 {
      assert ns[d - 1].next == ns[d];
    }
  }

  /** `struct clusteringData`, with the edge list behind `root`. */
  class ClusteringData {
    var root: EdgeNode?
    var lo: int
    var hi: int
    var adjustment: real
    var uncertainty: real
    var n: int
    var bad: int
    var wanted: int
    var amountResponses: int
    /** The nodes from `root` along `next_edge`. */
    ghost var nodes: seq<EdgeNode>
    /** The ranges [adjust - uncert, adjust + uncert] of the responses, in order. */
    ghost var ranges: seq<(int, int)>
    /** The nodes allocated for the list. */
    ghost var Repr: set<EdgeNode>

    /** The last node, which has no `next_edge`. */
    ghost function Last(): EdgeNode?
      reads this`nodes
    {
      if nodes == [] then null else nodes[|nodes| - 1]
    }

    /** The list is the ghost sequence of its nodes, all of them its own. */
    ghost predicate Linked()
      reads this`root, this`nodes, this`Repr, Repr
    {
      (forall i :: 0 <= i < |nodes| ==> nodes[i] in Repr) && Chain(root, Last(), nodes)
    }

    /** The edges of the list, from `root` on. */
    ghost function Contents(): seq<Edge>
      reads this`nodes
    {
      ListEdges(nodes)
    }

    /** The list holds the edges of the responses' ranges, in the order
      the insertions give them, and every response is counted. */
    ghost predicate Valid()
      reads this`root, this`nodes, this`Repr, this`ranges, this`amountResponses, Repr
    {
      Linked() && Contents() == CAddAll([], ranges) && amountResponses == |ranges|
    }

    /** `createClusterData`: an empty list, `n` kept, everything else 0. */
    constructor (n: int)
      ensures Valid() && root == null && nodes == [] && ranges == []
      ensures this.n == n && amountResponses == 0 && wanted == 0 && bad == 0
      ensures lo == 0 && hi == 0 && adjustment == 0.0 && uncertainty == 0.0
    {
      root := null;
      this.n := n;
      amountResponses, wanted, bad := 0, 0, 0;
      lo, hi := 0, 0;
      adjustment, uncertainty := 0.0, 0.0;
      nodes, ranges, Repr := [], [], {};
    }

    /** The walk of `sortedInsert` from a root whose value is below
        `value`: the last node whose value is below it, and its place. */
    method Walk(value: int) returns (current: EdgeNode, ghost c: nat)
      requires Linked() && nodes != [] && nodes[0].value < value
      ensures c < |nodes| && current == nodes[c]
      ensures c + 1 == FirstAtLeast(Contents(), value)
    {
      current := root;
      c := 0;
      while current.next != null && current.next.value < value
        invariant c < |nodes| && current == nodes[c]
        invariant forall i :: 0 <= i <= c ==> nodes[i].value < value
        decreases |nodes| - c
      {
        ChainLinks(root, Last(), nodes, c);
        current := current.next;
        c := c + 1;
      }
      ChainLinks(root, Last(), nodes, c);
    }

    /** Links a new node in before the root. */
    method LinkFront(edge: EdgeNode)
      requires Linked() && nodes != [] && edge !in Repr && edge.prev == null
      modifies this`root, this`nodes, this`Repr, root, edge
      ensures Linked() && nodes == [edge] + old(nodes) && Repr == old(Repr) + {edge}
    {
      ghost var ns := nodes;
      var first := root;
      edge.next := first;
      first.prev := edge;
      root := edge;
      nodes := [edge] + ns;
      Repr := Repr + {edge};
      DistinctInsert(ns, 0, edge);
      assert nodes == ns[..0] + [edge] + ns[0..];
      forall i | 0 <= i < |nodes| - 1
        ensures nodes[i].next == nodes[i + 1] && nodes[i + 1].prev == nodes[i]
      {
        if i > 0 {
          assert nodes[i] == ns[i - 1] && nodes[i + 1] == ns[i];
          assert old(nodes[i - 1].next) == old(nodes[i]) && old(nodes[i].prev) == old(nodes[i - 1]);
        }
      }
    }

    /** Links a new node in after node `c`. */
    method LinkAfter(edge: EdgeNode, current: EdgeNode, ghost c: nat)
      requires Linked() && c < |nodes| && current == nodes[c] && edge !in Repr
      modifies this`nodes, this`Repr, Repr, edge
      ensures Linked() && nodes == old(nodes[..c + 1] + [edge] + nodes[c + 1..]) && Repr == old(Repr) + {edge}
    {
      ghost var ns := nodes;
      var after := current.next;
      if c + 1 < |nodes| {
        assert after == nodes[c + 1];
      }
      edge.next := after;
      if after != null {
        after.prev := edge;
      }
      current.next := edge;
      edge.prev := current;
      nodes := ns[..c + 1] + [edge] + ns[c + 1..];
      Repr := Repr + {edge};
      DistinctInsert(ns, c + 1, edge);
      forall i | 0 <= i < |nodes| - 1
        ensures nodes[i].next == nodes[i + 1] && nodes[i + 1].prev == nodes[i]
      {
        if i < c {
          assert nodes[i] == ns[i] && nodes[i + 1] == ns[i + 1];
          assert old(nodes[i].next) == old(nodes[i + 1]) && old(nodes[i + 1].prev) == old(nodes[i]);
        } else if c + 1 < i {
          assert nodes[i] == ns[i - 1] && nodes[i + 1] == ns[i];
          assert old(nodes[i - 1].next) == old(nodes[i]) && old(nodes[i].prev) == old(nodes[i - 1]);
        }
      }
    }

    /** `sortedInsert`: into an empty list as the root; before the root
        when its value is at least the new one; otherwise after the last
        node, from the root, whose value is below it. Either way the new
        edge goes before the first edge whose value is at least its own. */
    method SortedInsert(edge: EdgeNode) returns (ghost k: nat)
      requires Linked() && edge !in Repr && edge.prev == null && edge.next == null
      modifies this`root, this`nodes, this`Repr, Repr, edge
      ensures k == FirstAtLeast(old(Contents()), edge.value)
      ensures Linked() && nodes == old(nodes[..k] + [edge] + nodes[k..]) && Repr == old(Repr) + {edge}
    {
      ghost var ns := nodes;
      if root == null {
        root := edge;
        nodes := [edge];
        Repr := Repr + {edge};
        k := 0;
        assert nodes == ns[..0] + [edge] + ns[0..];
      } else if root.value >= edge.value {
        LinkFront(edge);
        k := 0;
        assert nodes == ns[..0] + [edge] + ns[0..];
      } else {
        var current;
        ghost var c;
        current, c := Walk(edge.value);
        LinkAfter(edge, current, c);
        k := c + 1;
      }
    }

    /** `insertEdge`: a new edge, put in with `sortedInsert`. The list stays
        sorted by value. */
    method InsertEdge(value: int, chime: int) returns (ghost node: EdgeNode)
      requires Linked()
      modifies this`root, this`nodes, this`Repr, Repr
      ensures Linked() && Contents() == CInsert(old(Contents()), Edge(value, chime))
      ensures ValueSorted(old(Contents())) ==> ValueSorted(Contents())
      ensures fresh(node) && Repr == old(Repr) + {node}
    {
      var edge := new EdgeNode(value, chime);
      node := edge;
      ghost var ns := nodes;
      ghost var k := SortedInsert(edge);
      ListInsert(ns, k, edge);
      if ValueSorted(old(Contents())) {
        CInsertSorted(old(Contents()), Edge(value, chime));
      }
    }

    /** `amount_responses++`, with the range the response gives. */
    method Count(lo: int, hi: int)
      modifies this`amountResponses, this`ranges
      ensures amountResponses == old(amountResponses) + 1 && ranges == old(ranges) + [(lo, hi)]
    {
      amountResponses := amountResponses + 1;
      ranges := ranges + [(lo, hi)];
    }

    /** The stores of `find_overlap` after its loop: the level the loop
        stopped at (the loop writes each level it tries into `wanted`, so
        the last one written is the one it stopped at), the ends, their
        midpoint and half their distance. */
    method Store(w: int, l: int, h: int)
      modifies this`wanted, this`lo, this`hi, this`adjustment, this`uncertainty
      ensures wanted == w && lo == l && hi == h
      ensures adjustment == (l + h) as real / 2.0 && uncertainty == (h - l) as real / 2.0
    {
      wanted := w;
      lo, hi := l, h;
      adjustment := (l + h) as real / 2.0;
      uncertainty := (h - l) as real / 2.0;
    }

    /** The forward scan: `chime -= chime` from the root while another
        edge follows, stopping at the first edge after which the sum
        reaches `w`. It also gives the edge it stopped on. */
    method ScanLo(w: int) returns (l: Option<int>, current: EdgeNode, ghost c: nat)
      requires Linked() && nodes != []
      ensures Linked() && l == FwdEnd(Contents(), w)
      ensures c < |nodes| && current == nodes[c]
    {
      var chime := 0;
      current := root;
      c := 0;
      while current.next != null
        invariant c < |nodes| && current == nodes[c]
        invariant chime == Open(Contents(), c)
        invariant ScanFrom(Contents(), c, w) == ScanFrom(Contents(), 0, w)
        decreases |nodes| - c
      {
        chime := chime - current.chime;
        if chime >= w {
          return Some(current.value), current, c;
        }
        current := current.next;
        c := c + 1;
      }
      return None, current, c;
    }

    /** The walk on to the last edge. */
    method ToLast(current: EdgeNode, ghost c: nat) returns (last: EdgeNode)
      requires Linked() && c < |nodes| && current == nodes[c]
      ensures Linked() && last == nodes[|nodes| - 1]
    {
      last := current;
      ghost var d := c;
      while last.next != null
        invariant d < |nodes| && last == nodes[d]
        decreases |nodes| - d
      {
        ChainLinks(root, Last(), nodes, d);
        last := last.next;
        d := d + 1;
      }
      ChainLinks(root, Last(), nodes, d);
    }

    /** The backward scan: `chime += chime` from the last edge while
        another precedes it, stopping at the first edge from which the
        sum reaches `w`. */
    method ScanHi(last: EdgeNode, w: int) returns (h: Option<int>)
      requires Linked() && nodes != [] && last == nodes[|nodes| - 1]
      ensures h == BackEnd(Contents(), w)
    {
      ghost var es := Contents();
      var chime := 0;
      var current := last;
      ghost var j: nat := |nodes| - 1;
      while current.prev != null
        invariant j < |nodes| && current == nodes[j]
        invariant chime == Closed(es, j + 1)
        invariant ScanBack(es, j, w) == ScanBack(es, |es| - 1, w)
        decreases j
      {
        ChainLinks(root, Last(), nodes, j);
        chime := chime + current.chime;
        if chime >= w {
          return Some(current.value);
        }
        current := current.prev;
        j := j - 1;
      }
      ChainLinks(root, Last(), nodes, j);
      return None;
    }

    /** One level: the forward scan, the walk on to the last edge from
        where it stopped, and the backward scan. */
    method ScanLevel(w: int, ghost es: seq<Edge>) returns (l: Option<int>, h: Option<int>)
      requires Linked() && |nodes| >= 1 && Contents() == es
      ensures Linked() && Contents() == es
      ensures l == FwdEnd(es, w) && h == BackEnd(es, w)
    {
      var current;
      ghost var c;
      l, current, c := ScanLo(w);
      current := ToLast(current, c);
      h := ScanHi(current, w);
    }

    /** The `for` loop of `find_overlap`, `allow` counting from 0 as the
        level `w = top - allow` goes down from the number of responses
        `top` to `least = n`. Both ends start at 0 and are kept from level
        to level where a scan finds nothing. It stops at the first level
        whose ends are both non-zero and in order, or after level `n`. */
    method Levels(top: int, least: int, ghost es: seq<Edge>) returns (w: int, low: int, high: int)
      requires Linked() && Contents() == es && |es| >= 1 && top >= least
      ensures (w, low, high) == Search(es, top, least, 0, 0)
    {
      w, low, high := top, 0, 0;
      while true
        invariant least <= w <= top
        invariant Linked() && Contents() == es
        invariant Search(es, w, least, low, high) == Search(es, top, least, 0, 0)
        decreases w - least
      {
        var l, h := ScanLevel(w, es);
        low, high := Keep(l, low), Keep(h, high);
        if (low != 0 && high != 0 && low <= high) || w == least {
          return;
        }
        w := w - 1;
      }
    }

    /** `find_overlap`: the response is counted and its two edges are
        inserted. With fewer than `n` responses nothing else happens.
        Otherwise the levels from the number of responses down to `n` are
        tried, and what the last level tried left in `lo` and `hi` is
        stored, with the midpoint and half the distance. */
    method FindOverlap(adjust: int, uncert: int)
      requires Valid()
      modifies this`amountResponses, this`ranges, this`root, this`nodes, this`Repr, Repr
      modifies this`wanted, this`lo, this`hi, this`adjustment, this`uncertainty
      ensures Valid() && ranges == old(ranges) + [Span(adjust, uncert)]
      ensures Contents() == CAdd(old(Contents()), Span(adjust, uncert).0, Span(adjust, uncert).1)
      ensures amountResponses < n ==>
        && wanted == old(wanted) && lo == old(lo) && hi == old(hi)
        && adjustment == old(adjustment) && uncertainty == old(uncertainty)
      ensures amountResponses >= n ==>
        && |Contents()| >= 1
        && (wanted, lo, hi) == Search(Contents(), amountResponses, n, 0, 0)
        && adjustment == (lo + hi) as real / 2.0 && uncertainty == (hi - lo) as real / 2.0
    {
      var r := Span(adjust, uncert);
      AddResponse(r.0, r.1);
      if amountResponses >= n {
        Refresh();
      }
    }

    /** The rest of `find_overlap` once at least `n` responses are in: the
        levels from the number of responses down to `n` are tried, and what
        the last level tried left in `lo` and `hi` is stored, with the
        midpoint and half the distance. */
    method Refresh()
      requires Valid() && |Contents()| >= 1 && amountResponses >= n
      modifies this`wanted, this`lo, this`hi, this`adjustment, this`uncertainty
      ensures Valid()
      ensures (wanted, lo, hi) == Search(Contents(), amountResponses, n, 0, 0)
      ensures adjustment == (lo + hi) as real / 2.0 && uncertainty == (hi - lo) as real / 2.0
    {
      var w, low, high := Levels(amountResponses, n, Contents());
      Store(w, low, high);
    }

    /** The first part of `find_overlap`: the response is counted and the
        edges of its range are inserted, the start first. */
    method AddResponse(lo: int, hi: int)
      requires Valid()
      modifies this`amountResponses, this`ranges, this`root, this`nodes, this`Repr, Repr
      ensures Valid() && ranges == old(ranges) + [(lo, hi)]
      ensures amountResponses == old(amountResponses) + 1
      ensures Contents() == CAdd(old(Contents()), lo, hi) && |Contents()| >= 2
    {
      Count(lo, hi);
      AddStep(old(ranges), lo, hi);
      InsertRange(lo, hi);
    }

    /** The two calls to `insertEdge`: the start edge, then the end edge. */
    method InsertRange(lo: int, hi: int)
      requires Linked()
      modifies this`root, this`nodes, this`Repr, Repr
      ensures Linked() && Contents() == CAdd(old(Contents()), lo, hi)
    {
      ghost var node := InsertEdge(lo, -1);
      node := InsertEdge(hi, 1);
    }
  }

  /** The fixed part of `find_overlap`: once `n >= 1` responses are in, its
      ranges none of whose ends is the value 0, it stops at the number of
      overlaps with the ends the scans find there, in order; when fewer
      than `n` ranges overlap anywhere it stores 0 and 0 at level `n`. */
  lemma {:induction false} FindOverlapResult(rs: seq<(int, int)>, n: int)
    requires 1 <= n <= |rs|
    ensures var es := CAddAll([], rs);
      && ValueSorted(es) && Balanced(es) && Peak(es) <= |rs| && |es| >= 1
      && (Peak(es) < n ==> Search(es, |rs|, n, 0, 0) == (n, 0, 0))
      && (Peak(es) >= n ==> Lo(es, Peak(es), false).Some? && Hi(es, Peak(es), false).Some?
                            && Lo(es, Peak(es), false).value <= Hi(es, Peak(es), false).value)
      && (Peak(es) >= n && Lo(es, Peak(es), false) != Some(0) && Hi(es, Peak(es), false) != Some(0) ==>
            Search(es, |rs|, n, 0, 0) == (Peak(es), Lo(es, Peak(es), false).value, Hi(es, Peak(es), false).value))
  {
    var es := CAddAll([], rs);
    CAddAllEdges([], 0, rs);
    SearchAtPeak(es, |rs|, n);
  }

  /** The search with "not found" kept apart from the value 0: a level is
      accepted when both scans find an end and they are in order. */
  function FixedSearch(es: seq<Edge>, w: int, n: int): (r: (int, Option<int>, Option<int>))
    requires |es| >= 1 && w >= n
    decreases w - n
    ensures n <= r.0 <= w
  {
    var l := FwdEnd(es, w);
    var h := BackEnd(es, w);
    if (l.Some? && h.Some? && l.value <= h.value) || w == n then (w, l, h)
    else FixedSearch(es, w - 1, n)
  }

  /** The fixed search, from `w >= n >= 1` on a sorted balanced list, stops
      at the number of overlaps (or `w`, when lower) with the ends every
      other version finds, whatever their values; below `n` it finds none. */
  lemma {:induction false} FixedSearchAtPeak(es: seq<Edge>, w: int, n: int)
    requires ValueSorted(es) && Balanced(es) && |es| >= 1 && 1 <= n <= w
    ensures var c := Min(w, Peak(es));
      FixedSearch(es, w, n) == if c < n then (n, None, None) else (c, Lo(es, c, false), Hi(es, c, false))
    ensures var c := Min(w, Peak(es));
      c >= n ==> Lo(es, c, false).Some? && Hi(es, c, false).Some? && Lo(es, c, false).value <= Hi(es, c, false).value
    decreases w - n
  {
    EndsAreLoHi(es, w);
    FoundIffPeak(es, w);
    if w > Peak(es) {
      if w > n {
        FixedSearchAtPeak(es, w - 1, n);
      }
    } else {
      LoBeforeHi(es, w);
    }
  }

  /** Two responses, (adjust 2, uncert 2) and (adjust 1, uncert 1): the
      ranges [0, 4] and [0, 2], which overlap on [0, 2]. With `n` = 1 the
      level-2 scans find 0 and 2, and 0 counts as "not found", so the search
      goes on to level 1 and stores [0, 4]. The fixed search stops at level
      2 with [0, 2]. */
  lemma {:induction false} ZeroEndWidens()
    ensures Search(CAddAll([], [(0, 4), (0, 2)]), 2, 1, 0, 0) == (1, 0, 4)
    ensures FixedSearch(CAddAll([], [(0, 4), (0, 2)]), 2, 1) == (2, Some(0), Some(2))
    ensures Peak(CAddAll([], [(0, 4), (0, 2)])) == 2
  {
    ZeroList();
    ZeroSearches();
  }

  lemma {:induction false} ZeroList()
    ensures CAddAll([], [(0, 4), (0, 2)]) == [Start(0), Start(0), End(2), End(4)]
  {
    var rs: seq<(int, int)> := [(0, 4), (0, 2)];
    assert rs[1..] == [(0, 2)] && |rs[1..][1..]| == 0;
    assert CInsert([], Start(0)) == [Start(0)];
    assert FirstAtLeast([Start(0)], 4) == 1;
    assert FirstAtLeast([Start(0), End(4)], 0) == 0;
    assert CInsert([Start(0), End(4)], Start(0)) == [Start(0), Start(0), End(4)];
    assert FirstAtLeast([Start(0), Start(0), End(4)], 2) == 2;
    assert CAddAll([], rs) == CAddAll(CAdd([], 0, 4), [(0, 2)]);
  }

  lemma {:induction false} ZeroSearches()
    ensures var es := [Start(0), Start(0), End(2), End(4)];
      && Search(es, 2, 1, 0, 0) == (1, 0, 4)
      && FixedSearch(es, 2, 1) == (2, Some(0), Some(2))
      && Peak(es) == 2
  {
    var es := [Start(0), Start(0), End(2), End(4)];
    assert Open(es, 1) == 1 && Open(es, 2) == 2 && Open(es, 3) == 1 && Open(es, 4) == 0;
    assert ScanFrom(es, 0, 2) == Some(1);
    assert Closed(es, 3) == 1 && Closed(es, 2) == 2;
    assert ScanBack(es, 3, 2) == Some(2);
    assert ScanFrom(es, 0, 1) == Some(0);
    assert ScanBack(es, 3, 1) == Some(3);
  }
}
