/** The selection step every client of the repository uses to combine the
    time ranges of several servers (RFC 5905, appendix A.5.5.1): a range
    [lo, hi] becomes a start edge (lo, -1) and an end edge (hi, +1) in a
    list sorted by value. For a wanted number of ranges, the low end of the
    overlap is the first edge, from the front, at which the running count
    of open ranges (the sum of the negated chimes) reaches it, and the high
    end is the first edge, from the back, at which the running sum of the
    chimes reaches it. The wanted number is lowered until both are found.
    This module holds the theory the implementations are proved against. */
module Overlap {
  import opened Bytes

  /** An edge: its value, and its chime, -1 where a range starts and +1 where it ends. */
  datatype Edge = Edge(value: int, chime: int)

  function Start(lo: int): Edge { Edge(lo, -1) }
  function End(hi: int): Edge { Edge(hi, 1) }

  /** The forward scan's running count after the first `i` edges (`chime -= e[1]`). */
  function Open(es: seq<Edge>, i: nat): int
    requires i <= |es|
  {
    if i == 0 then 0 else Open(es, i - 1) - es[i - 1].chime
  }

  /** The backward scan's running sum over the edges from `j` to the end (`chime += e[1]`). */
  function Closed(es: seq<Edge>, j: nat): int
    requires j <= |es|
    decreases |es| - j
  {
    if j == |es| then 0 else es[j].chime + Closed(es, j + 1)
  }

  /** Every range that starts also ends: the chimes sum to zero. */
  predicate Balanced(es: seq<Edge>) {
    Closed(es, 0) == 0
  }

  /** Values never decrease along the list. */
  predicate ValueSorted(es: seq<Edge>) {
    forall i, j :: 0 <= i < j < |es| ==> es[i].value <= es[j].value
  }

  /** `chime >= wanted`. With `unsigned`, the comparison C makes between a
      signed running sum and the unsigned `_wanted`: the sum is converted
      to unsigned first, so a negative sum reaches every level. */
  predicate Reaches(c: int, wanted: int, unsigned: bool) {
    if unsigned then Wrap32(c) >= wanted else c >= wanted
  }

  /** The forward scan from edge `i`: the index of the first edge after
      which the running count reaches `wanted`. */
  function LoFrom(es: seq<Edge>, i: nat, wanted: int, unsigned: bool): (r: Option<nat>)
    requires i <= |es|
    decreases |es| - i
    ensures r.Some? ==>
      && i <= r.value < |es| && Reaches(Open(es, r.value + 1), wanted, unsigned)
      && forall m {:trigger Reaches(Open(es, m), wanted, unsigned)} :: i < m <= r.value ==> !Reaches(Open(es, m), wanted, unsigned)
    ensures r.None? ==> forall m {:trigger Reaches(Open(es, m), wanted, unsigned)} :: i < m <= |es| ==> !Reaches(Open(es, m), wanted, unsigned)
  {
    if i == |es| then None
    else if Reaches(Open(es, i + 1), wanted, unsigned) then Some(i)
    else LoFrom(es, i + 1, wanted, unsigned)
  }

  /** The backward scan over the first `j` edges: the index of the first
      edge, from the back, from which the running sum reaches `wanted`. */
  function HiFrom(es: seq<Edge>, j: nat, wanted: int, unsigned: bool): (r: Option<nat>)
    requires j <= |es|
    ensures r.Some? ==>
      && r.value < j && Reaches(Closed(es, r.value), wanted, unsigned)
      && forall m {:trigger Reaches(Closed(es, m), wanted, unsigned)} :: r.value < m < j ==> !Reaches(Closed(es, m), wanted, unsigned)
    ensures r.None? ==> forall m {:trigger Reaches(Closed(es, m), wanted, unsigned)} :: 0 <= m < j ==> !Reaches(Closed(es, m), wanted, unsigned)
  {
    if j == 0 then None
    else if Reaches(Closed(es, j - 1), wanted, unsigned) then Some(j - 1)
    else HiFrom(es, j - 1, wanted, unsigned)
  }

  /** The low end a scan of the whole list finds for `wanted`. */
  function Lo(es: seq<Edge>, wanted: int, unsigned: bool): Option<int> {
    match LoFrom(es, 0, wanted, unsigned)
    case None => None
    case Some(i) => Some(es[i].value)
  }

  /** The high end a scan of the whole list finds for `wanted`. */
  function Hi(es: seq<Edge>, wanted: int, unsigned: bool): Option<int> {
    match HiFrom(es, |es|, wanted, unsigned)
    case None => None
    case Some(j) => Some(es[j].value)
  }

  /** Whether level `w` gives an overlap: both scans find an edge and, when
      `ordered` (the Python versions' `lo <= hi`), the low end is not above
      the high end. */
  predicate Passes(es: seq<Edge>, w: int, unsigned: bool, ordered: bool) {
    Lo(es, w, unsigned).Some? && Hi(es, w, unsigned).Some?
    && (ordered ==> Lo(es, w, unsigned).value <= Hi(es, w, unsigned).value)
  }

  /** The highest level from `w` down that passes; 0 when none does. */
  function Best(es: seq<Edge>, w: nat, unsigned: bool, ordered: bool): (r: nat)
    ensures r <= w && (r > 0 ==> Passes(es, r, unsigned, ordered))
  {
    if w == 0 then 0
    else if Passes(es, w, unsigned, ordered) then w
    else Best(es, w - 1, unsigned, ordered)
  }

  /** The largest running count over the first `i` edges. */
  function PeakTo(es: seq<Edge>, i: nat): (r: int)
    requires i <= |es|
    ensures forall m :: 0 <= m <= i ==> Open(es, m) <= r
    ensures exists m :: 0 <= m <= i && Open(es, m) == r
  {
    if i == 0 then 0
    else
      var p := PeakTo(es, i - 1);
      if Open(es, i) > p then Open(es, i) else p
  }

  /** The most ranges open at once, as the forward scan counts them. */
  function Peak(es: seq<Edge>): (r: nat)
    ensures forall m :: 0 <= m <= |es| ==> Open(es, m) <= r
    ensures exists m :: 0 <= m <= |es| && Open(es, m) == r
  {
    assert Open(es, 0) == 0;
    PeakTo(es, |es|)
  }

  function Min(a: int, b: int): int {
    if a <= b then a else b
  }

  /** From the back, the running sum is the count the forward scan has at
      that point, shifted by the sum of all chimes. */
  lemma {:induction false} ClosedOpen(es: seq<Edge>, m: nat)
    requires m <= |es|
    ensures Closed(es, m) == Closed(es, 0) + Open(es, m)
  {
    if m > 0 {
      ClosedOpen(es, m - 1);
    }
  }

  /** A balanced list ends with nothing open. */
  lemma {:induction false} BalancedEnd(es: seq<Edge>)
    ensures Balanced(es) <==> Open(es, |es|) == 0
  {
    ClosedOpen(es, |es|);
  }

  /** In a balanced list the backward scan finds an edge for a level
      exactly when the forward scan does: when some running count reaches it. */
  lemma {:induction false} FoundIffPeak(es: seq<Edge>, w: int)
    requires Balanced(es) && w >= 1
    ensures LoFrom(es, 0, w, false).Some? <==> w <= Peak(es)
    ensures HiFrom(es, |es|, w, false).Some? <==> w <= Peak(es)
  {
    BalancedEnd(es);
    var p := Peak(es);
    var m :| 0 <= m <= |es| && Open(es, m) == p;
    if w <= p {
      assert 0 < m < |es|;
      ClosedOpen(es, m);
      assert Reaches(Closed(es, m), w, false);
    }
    forall k | 0 <= k < |es|
      ensures Closed(es, k) == Open(es, k)
    {
      ClosedOpen(es, k);
    }
  }

  /** In a balanced list, the edge the forward scan stops at comes before
      the one the backward scan stops at. */
  lemma {:induction false} LoBeforeHi(es: seq<Edge>, w: int)
    requires Balanced(es) && w >= 1
    requires LoFrom(es, 0, w, false).Some? && HiFrom(es, |es|, w, false).Some?
    ensures LoFrom(es, 0, w, false).value < HiFrom(es, |es|, w, false).value
  {
    var a := LoFrom(es, 0, w, false).value;
    var b := HiFrom(es, |es|, w, false).value;
    BalancedEnd(es);
    assert a + 1 < |es|;
    ClosedOpen(es, a + 1);
    assert Reaches(Closed(es, a + 1), w, false);
  }

  /** So in a balanced list sorted by value, whenever both scans find an
      edge the low end is not above the high end: the `lo <= hi` test of
      the Python versions never fails. */
  lemma {:induction false} OrderedWhenFound(es: seq<Edge>, w: int)
    requires ValueSorted(es) && Balanced(es) && w >= 1
    ensures Passes(es, w, false, true) <==> Passes(es, w, false, false)
  {
    if LoFrom(es, 0, w, false).Some? && HiFrom(es, |es|, w, false).Some? {
      LoBeforeHi(es, w);
    }
  }

  /** A level passes exactly when it is at most the peak. */
  lemma {:induction false} PassesIffPeak(es: seq<Edge>, w: int, ordered: bool)
    requires ValueSorted(es) && Balanced(es) && w >= 1
    ensures Passes(es, w, false, ordered) <==> w <= Peak(es)
  {
    FoundIffPeak(es, w);
    OrderedWhenFound(es, w);
  }

  /** The level search ends at the peak, or at its starting level if that is lower. */
  lemma {:induction false} BestIsPeak(es: seq<Edge>, w: nat, ordered: bool)
    requires ValueSorted(es) && Balanced(es)
    ensures Best(es, w, false, ordered) == Min(w, Peak(es))
  {
    if w > 0 {
      PassesIffPeak(es, w, ordered);
      if !Passes(es, w, false, ordered) {
        BestIsPeak(es, w - 1, ordered);
      }
    }
  }

  /** The list with `x` put at index `k`. */
  function InsertAt(es: seq<Edge>, k: nat, x: Edge): (r: seq<Edge>)
    requires k <= |es|
    ensures |r| == |es| + 1 && r[k] == x
    ensures forall i :: 0 <= i < k ==> r[i] == es[i]
    ensures forall i :: k < i <= |es| ==> r[i] == es[i - 1]
  {
    seq(|es| + 1, i requires 0 <= i <= |es| => if i < k then es[i] else if i == k then x else es[i - 1])
  }

  /** Inserting an edge shifts the running counts after it by its negated chime. */
  lemma {:induction false} OpenInsert(es: seq<Edge>, k: nat, x: Edge, m: nat)
    requires k <= |es| && m <= |es| + 1
    ensures Open(InsertAt(es, k, x), m) == if m <= k then Open(es, m) else Open(es, m - 1) - x.chime
  {
    if m > 0 {
      OpenInsert(es, k, x, m - 1);
    }
  }

  /** A start edge raises the peak by at most one, an end edge does not raise it. */
  lemma {:induction false} PeakInsert(es: seq<Edge>, k: nat, x: Edge)
    requires k <= |es| && (x.chime == -1 || x.chime == 1)
    ensures Peak(InsertAt(es, k, x)) <= Peak(es) + (if x.chime == -1 then 1 else 0)
  {
    var r := InsertAt(es, k, x);
    var m :| 0 <= m <= |r| && Open(r, m) == Peak(r);
    OpenInsert(es, k, x, m);
    if m > k {
      assert Open(es, m - 1) <= Peak(es);
    } else {
      assert Open(es, m) <= Peak(es);
    }
  }

  /** The ranges' edges kept in a list sorted by value: balanced, and never
      more than the `n` ranges open at once. */
  predicate EdgesOf(es: seq<Edge>, n: nat) {
    ValueSorted(es) && Balanced(es) && Peak(es) <= n && |es| == 2 * n
  }

  /** Adding a range anywhere in the list keeps it balanced, and raises the
      peak by at most one: the fact the optimised versions rely on. */
  lemma {:induction false} AddRange(es: seq<Edge>, n: nat, k1: nat, lo: int, k2: nat, hi: int)
    requires EdgesOf(es, n) && k1 <= |es| && k2 <= |es| + 1
    requires ValueSorted(InsertAt(InsertAt(es, k1, Start(lo)), k2, End(hi)))
    ensures var r := InsertAt(InsertAt(es, k1, Start(lo)), k2, End(hi));
      EdgesOf(r, n + 1) && Peak(r) <= Peak(es) + 1
  {
    var s := InsertAt(es, k1, Start(lo));
    var r := InsertAt(s, k2, End(hi));
    PeakInsert(es, k1, Start(lo));
    PeakInsert(s, k2, End(hi));
    OpenInsert(es, k1, Start(lo), |es| + 1);
    OpenInsert(s, k2, End(hi), |s| + 1);
    BalancedEnd(es);
    BalancedEnd(s);
    BalancedEnd(r);
  }

  /** Where C's `overlap_insert` and `sortedInsert` put a new edge: before
      the first edge whose value is at least its own, else at the end. */
  function FirstAtLeast(es: seq<Edge>, v: int): (k: nat)
    ensures k <= |es| && (k < |es| ==> es[k].value >= v)
    ensures forall i :: 0 <= i < k ==> es[i].value < v
  {
    if es == [] then 0
    else if es[0].value >= v then 0
    else 1 + FirstAtLeast(es[1..], v)
  }

  /** The C insertion: a new edge goes before the edges of equal value. */
  function CInsert(es: seq<Edge>, x: Edge): seq<Edge> {
    InsertAt(es, FirstAtLeast(es, x.value), x)
  }

  lemma {:induction false} CInsertSorted(es: seq<Edge>, x: Edge)
    requires ValueSorted(es)
    ensures ValueSorted(CInsert(es, x)) && multiset(CInsert(es, x)) == multiset(es) + multiset{x}
  {
    InsertAtMultiset(es, FirstAtLeast(es, x.value), x);
  }

  /** The order `list.sort()` gives the Python tuples (value, chime): by
      value, and a start before an end of the same value. */
  predicate LexLe(a: Edge, b: Edge) {
    a.value < b.value || (a.value == b.value && a.chime <= b.chime)
  }

  predicate LexSorted(es: seq<Edge>) {
    forall i, j :: 0 <= i < j < |es| ==> LexLe(es[i], es[j])
  }

  /** Where `x` goes in a sorted list: before the first edge not below it. */
  function LexPos(es: seq<Edge>, x: Edge): (k: nat)
    ensures k <= |es| && (k < |es| ==> LexLe(x, es[k]))
    ensures forall i :: 0 <= i < k ==> !LexLe(x, es[i])
  {
    if es == [] then 0
    else if LexLe(x, es[0]) then 0
    else 1 + LexPos(es[1..], x)
  }

  /** `append(x)` followed by `sort()`. */
  function SortIn(es: seq<Edge>, x: Edge): seq<Edge> {
    InsertAt(es, LexPos(es, x), x)
  }

  lemma {:induction false} SortInSorted(es: seq<Edge>, x: Edge)
    requires LexSorted(es)
    ensures LexSorted(SortIn(es, x)) && multiset(SortIn(es, x)) == multiset(es) + multiset{x}
  {
    var k := LexPos(es, x);
    var r := SortIn(es, x);
    forall i, j | 0 <= i < j < |r|
      ensures LexLe(r[i], r[j])
    {
      if i == k {
        assert LexLe(x, es[k]) && LexLe(es[k], es[j - 1]);
      } else if j == k {
        assert !LexLe(x, es[i]);
      } else if i > k {
        assert LexLe(es[i - 1], es[j - 1]);
      } else if j > k {
        assert LexLe(es[i], es[j - 1]);
      }
    }
    InsertAtMultiset(es, k, x);
  }

  /** Inserting an edge adds it to the edges, whatever the position. */
  lemma {:induction false} InsertAtMultiset(es: seq<Edge>, k: nat, x: Edge)
    requires k <= |es|
    ensures multiset(InsertAt(es, k, x)) == multiset(es) + multiset{x}
  {
    assert InsertAt(es, k, x) == es[..k] + [x] + es[k..];
    assert es == es[..k] + es[k..];
  }

  /** A list sorted this way is sorted by value. */
  lemma {:induction false} LexValueSorted(es: seq<Edge>)
    requires LexSorted(es)
    ensures ValueSorted(es)
  {
  }

  /** A sorted list is determined by its elements: `SortIn` is what
      appending and sorting gives, whatever sorting algorithm is used. */
  lemma {:induction false} SortedUnique(a: seq<Edge>, b: seq<Edge>)
    requires LexSorted(a) && LexSorted(b) && multiset(a) == multiset(b)
    ensures a == b
    decreases |a|
  {
    if a == [] {
      assert |b| == |multiset(b)|;
    } else {
      SortedHead(a, b);
      assert multiset(a[1..]) == multiset(a) - multiset{a[0]} by {
        assert a == [a[0]] + a[1..];
      }
      assert multiset(b[1..]) == multiset(b) - multiset{b[0]} by {
        assert b == [b[0]] + b[1..];
      }
      SortedUnique(a[1..], b[1..]);
      assert a == [a[0]] + a[1..] && b == [b[0]] + b[1..];
    }
  }

  /** Two sorted lists of the same edges begin with the same edge: the least one. */
  lemma {:induction false} SortedHead(a: seq<Edge>, b: seq<Edge>)
    requires LexSorted(a) && LexSorted(b) && multiset(a) == multiset(b) && a != []
    ensures b != [] && a[0] == b[0]
  {
    assert a[0] in multiset(b);
    var j :| 0 <= j < |b| && b[j] == a[0];
    assert b[0] in multiset(a);
    var i :| 0 <= i < |a| && a[i] == b[0];
    assert LexLe(b[0], b[j]) || j == 0;
    assert LexLe(a[0], a[i]) || i == 0;
  }

  /** `add` of the Python versions: both edges appended and the list sorted. */
  function PyAdd(es: seq<Edge>, lo: int, hi: int): seq<Edge> {
    SortIn(SortIn(es, Start(lo)), End(hi))
  }

  /** `overlap_add`'s two insertions. */
  function CAdd(es: seq<Edge>, lo: int, hi: int): seq<Edge> {
    CInsert(CInsert(es, Start(lo)), End(hi))
  }

  /** A Python-sorted list of ranges whose ends are not below their
      starts begins with a start edge. */
  predicate StartsOpen(es: seq<Edge>) {
    es != [] ==> es[0].chime == -1
  }

  /** Adding a range to a sorted list of ranges: the list stays sorted, it
      still begins with a start edge when the range is not inverted, and it
      holds the edges of one more range. */
  lemma {:induction false} PyAddKeeps(es: seq<Edge>, n: nat, lo: int, hi: int)
    requires LexSorted(es) && EdgesOf(es, n)
    ensures LexSorted(PyAdd(es, lo, hi)) && EdgesOf(PyAdd(es, lo, hi), n + 1)
    ensures Peak(PyAdd(es, lo, hi)) <= Peak(es) + 1
    ensures multiset(PyAdd(es, lo, hi)) == multiset(es) + multiset{Start(lo), End(hi)}
  {
    var s := SortIn(es, Start(lo));
    SortInSorted(es, Start(lo));
    SortInSorted(s, End(hi));
    LexValueSorted(PyAdd(es, lo, hi));
    AddRange(es, n, LexPos(es, Start(lo)), lo, LexPos(s, End(hi)), hi);
  }

  /** A range whose end is not below its start, added to a sorted list that
      begins with a start edge, leaves a list that begins with a start edge. */
  lemma {:induction false} PyAddStartsOpen(es: seq<Edge>, lo: int, hi: int)
    requires LexSorted(es) && StartsOpen(es) && lo <= hi
    ensures StartsOpen(PyAdd(es, lo, hi))
  {
    var s := SortIn(es, Start(lo));
    assert s[0] == Start(lo) || s[0] == es[0];
    assert LexPos(s, End(hi)) > 0;
  }

  /** Adding a range with `overlap_add`: sorted by value, and the edges of one more range. */
  lemma {:induction false} CAddKeeps(es: seq<Edge>, n: nat, lo: int, hi: int)
    requires EdgesOf(es, n)
    ensures EdgesOf(CAdd(es, lo, hi), n + 1) && Peak(CAdd(es, lo, hi)) <= Peak(es) + 1
    ensures multiset(CAdd(es, lo, hi)) == multiset(es) + multiset{Start(lo), End(hi)}
  {
    var s := CInsert(es, Start(lo));
    CInsertSorted(es, Start(lo));
    CInsertSorted(s, End(hi));
    AddRange(es, n, FirstAtLeast(es, lo), lo, FirstAtLeast(s, hi), hi);
  }

  /** A list that begins with a start edge has at least one range open. */
  lemma {:induction false} StartsOpenPeak(es: seq<Edge>)
    requires StartsOpen(es) && es != []
    ensures Peak(es) >= 1
  {
    assert Open(es, 1) == 1;
  }

  /** Starts and ends take turns along the list, beginning with a start. */
  predicate Alternating(es: seq<Edge>) {
    forall i :: 0 <= i < |es| ==> es[i].chime == (if i % 2 == 0 then -1 else 1)
  }

  /** Along an alternating list the running count is 1 after a start and
      0 after an end. */
  lemma {:induction false} OpenAlternating(es: seq<Edge>, m: nat)
    requires Alternating(es) && m <= |es|
    ensures Open(es, m) == m % 2
  {
    if m > 0 {
      OpenAlternating(es, m - 1);
    }
  }

  /** An alternating list of whole ranges begins with a start edge and
      ends with an end edge. */
  lemma {:induction false} AlternatingEnds(es: seq<Edge>, n: nat)
    requires Alternating(es) && |es| == 2 * n && n > 0
    ensures es[0].chime == -1 && es[|es| - 1].chime == 1
  {
    assert (2 * n - 1) % 2 == 1;
  }

  /** A start and an end inserted side by side at an even index keep the
      list alternating. */
  lemma {:induction false} AlternatingPair(es: seq<Edge>, k: nat, lo: int, hi: int)
    requires Alternating(es) && k <= |es| && k % 2 == 0
    ensures Alternating(InsertAt(InsertAt(es, k, Start(lo)), k + 1, End(hi)))
  {
    var s := InsertAt(es, k, Start(lo));
    var r := InsertAt(s, k + 1, End(hi));
    forall i | 0 <= i < |r|
      ensures r[i].chime == (if i % 2 == 0 then -1 else 1)
    {
      if i < k {
        assert r[i] == es[i];
      } else if i == k + 1 {
        assert i % 2 == 1;
      } else if i > k + 1 {
        assert r[i] == s[i - 1] == es[i - 2];
        assert i % 2 == (i - 2) % 2;
      }
    }
  }

  /** An alternating list never has two ranges open at once. */
  lemma {:induction false} AlternatingPeak(es: seq<Edge>)
    requires Alternating(es)
    ensures Peak(es) == if es == [] then 0 else 1
  {
    var m :| 0 <= m <= |es| && Open(es, m) == Peak(es);
    OpenAlternating(es, m);
    if es != [] {
      OpenAlternating(es, 1);
    }
  }

  /** At level 1 the forward scan stops at a leading start edge and the
      backward scan at a trailing end edge: the ends are the first and the
      last value of the list. */
  lemma {:induction false} LevelOneEnds(es: seq<Edge>)
    requires es != [] && es[0].chime == -1 && es[|es| - 1].chime == 1
    ensures Lo(es, 1, false) == Some(es[0].value)
    ensures Hi(es, 1, false) == Some(es[|es| - 1].value)
  {
    assert Open(es, 1) == 1;
    assert LoFrom(es, 0, 1, false) == Some(0);
    assert Closed(es, |es| - 1) == 1;
    assert HiFrom(es, |es|, 1, false) == Some(|es| - 1);
  }

  /** The forward count over two lists one after the other: the second
      list's counts start from where the first one ends. */
  lemma {:induction false} OpenConcat(a: seq<Edge>, b: seq<Edge>, m: nat)
    requires m <= |a| + |b|
    ensures Open(a + b, m) == if m <= |a| then Open(a, m) else Open(a, |a|) + Open(b, m - |a|)
  {
    if m > 0 {
      OpenConcat(a, b, m - 1);
    }
  }

  /** The backward sum over two lists one after the other. */
  lemma {:induction false} ClosedConcat(a: seq<Edge>, b: seq<Edge>, m: nat)
    requires m <= |a| + |b|
    ensures Closed(a + b, m) == if m >= |a| then Closed(b, m - |a|) else Closed(a, m) + Closed(b, 0)
    decreases |a| + |b| - m
  {
    if m < |a| + |b| {
      ClosedConcat(a, b, m + 1);
    }
  }

  lemma {:induction false} LoFromLate(a: seq<Edge>, b: seq<Edge>, j: nat, w: int)
    requires j <= |b| && Open(a, |a|) == 0
    ensures LoFrom(a + b, |a| + j, w, false) ==
      match LoFrom(b, j, w, false) case None => None case Some(k) => Some(|a| + k)
    decreases |b| - j
  {
    if j < |b| {
      OpenConcat(a, b, |a| + j + 1);
      LoFromLate(a, b, j + 1, w);
    }
  }

  lemma {:induction false} LoFromEarly(a: seq<Edge>, b: seq<Edge>, i: nat, w: int)
    requires i <= |a| && Open(a, |a|) == 0
    ensures LoFrom(a + b, i, w, false) ==
      if LoFrom(a, i, w, false).Some? then LoFrom(a, i, w, false)
      else match LoFrom(b, 0, w, false) case None => None case Some(k) => Some(|a| + k)
    decreases |a| - i
  {
    if i == |a| {
      LoFromLate(a, b, 0, w);
    } else {
      OpenConcat(a, b, i + 1);
      LoFromEarly(a, b, i + 1, w);
    }
  }

  /** After a balanced list, the forward scan of the two lists finds what
      the first finds, else what the second finds. */
  lemma {:induction false} LoConcat(a: seq<Edge>, b: seq<Edge>, w: int)
    requires Open(a, |a|) == 0
    ensures Lo(a + b, w, false) == if Lo(a, w, false).Some? then Lo(a, w, false) else Lo(b, w, false)
  {
    LoFromEarly(a, b, 0, w);
  }

  lemma {:induction false} HiFromEarly(a: seq<Edge>, b: seq<Edge>, i: nat, w: int)
    requires i <= |a| && Closed(b, 0) == 0
    ensures HiFrom(a + b, i, w, false) == HiFrom(a, i, w, false)
  {
    if i > 0 {
      ClosedConcat(a, b, i - 1);
      HiFromEarly(a, b, i - 1, w);
    }
  }

  lemma {:induction false} HiFromLate(a: seq<Edge>, b: seq<Edge>, j: nat, w: int)
    requires j <= |b| && Closed(b, 0) == 0
    ensures HiFrom(a + b, |a| + j, w, false) ==
      match HiFrom(b, j, w, false) case Some(k) => Some(|a| + k) case None => HiFrom(a, |a|, w, false)
  {
    if j == 0 {
      HiFromEarly(a, b, |a|, w);
    } else {
      ClosedConcat(a, b, |a| + j - 1);
      HiFromLate(a, b, j - 1, w);
    }
  }

  /** Before a balanced list, the backward scan of the two lists finds
      what the second finds, else what the first finds. */
  lemma {:induction false} HiConcat(a: seq<Edge>, b: seq<Edge>, w: int)
    requires Closed(b, 0) == 0
    ensures Hi(a + b, w, false) == if Hi(b, w, false).Some? then Hi(b, w, false) else Hi(a, w, false)
  {
    HiFromLate(a, b, |b|, w);
  }

  /** After a balanced list, the most ranges open at once is the larger
      of the two lists' peaks. */
  lemma {:induction false} PeakConcat(a: seq<Edge>, b: seq<Edge>)
    requires Open(a, |a|) == 0
    ensures Peak(a + b) == if Peak(a) >= Peak(b) then Peak(a) else Peak(b)
  {
    var m :| 0 <= m <= |a + b| && Open(a + b, m) == Peak(a + b);
    OpenConcat(a, b, m);
    if m > |a| {
      assert Open(b, m - |a|) <= Peak(b);
    }
    var ma :| 0 <= ma <= |a| && Open(a, ma) == Peak(a);
    OpenConcat(a, b, ma);
    var mb :| 0 <= mb <= |b| && Open(b, mb) == Peak(b);
    OpenConcat(a, b, |a| + mb);
  }

  /** Where an edge above every edge of `a` goes in `a + b`. */
  lemma {:induction false} LexPosConcat(a: seq<Edge>, b: seq<Edge>, x: Edge)
    requires forall i :: 0 <= i < |a| ==> a[i].value < x.value
    ensures LexPos(a + b, x) == |a| + LexPos(b, x)
    decreases |a|
  {
    if a == [] {
      assert a + b == b;
    } else {
      assert (a + b)[1..] == a[1..] + b;
      LexPosConcat(a[1..], b, x);
    }
  }

  lemma {:induction false} InsertAtConcat(a: seq<Edge>, b: seq<Edge>, k: nat, x: Edge)
    requires k <= |b|
    ensures InsertAt(a + b, |a| + k, x) == a + InsertAt(b, k, x)
  {
    var l, r := InsertAt(a + b, |a| + k, x), a + InsertAt(b, k, x);
    forall i | 0 <= i < |l|
      ensures l[i] == r[i]
    {
      if i >= |a| {
        assert r[i] == InsertAt(b, k, x)[i - |a|];
      }
    }
  }

  /** A range above every edge of `a` is added within the rest of the list. */
  lemma {:induction false} PyAddRight(a: seq<Edge>, b: seq<Edge>, lo: int, hi: int)
    requires lo <= hi && forall i :: 0 <= i < |a| ==> a[i].value < lo
    ensures PyAdd(a + b, lo, hi) == a + PyAdd(b, lo, hi)
  {
    LexPosConcat(a, b, Start(lo));
    InsertAtConcat(a, b, LexPos(b, Start(lo)), Start(lo));
    var s := SortIn(b, Start(lo));
    LexPosConcat(a, s, End(hi));
    InsertAtConcat(a, s, LexPos(s, End(hi)), End(hi));
  }

  /** No prefix of the list holds more end edges than start edges. */
  predicate NonNegative(es: seq<Edge>) {
    forall m :: 0 <= m <= |es| ==> Open(es, m) >= 0
  }

  /** A range whose start edge goes before its end edge keeps every
      running count non-negative. */
  lemma {:induction false} AddNonNegative(es: seq<Edge>, k1: nat, lo: int, k2: nat, hi: int)
    requires NonNegative(es) && k1 <= |es| && k1 < k2 <= |es| + 1
    ensures NonNegative(InsertAt(InsertAt(es, k1, Start(lo)), k2, End(hi)))
  {
    var s := InsertAt(es, k1, Start(lo));
    var r := InsertAt(s, k2, End(hi));
    forall m | 0 <= m <= |r|
      ensures Open(r, m) >= 0
    {
      OpenInsert(s, k2, End(hi), m);
      if m <= k2 {
        OpenInsert(es, k1, Start(lo), m);
        if m > k1 {
          assert Open(es, m - 1) >= 0;
        }
      } else {
        OpenInsert(es, k1, Start(lo), m - 1);
        assert Open(es, m - 2) >= 0;
      }
    }
  }

  /** `overlap_add` puts the end edge after the start edge when the range
      is not empty. */
  lemma {:induction false} CAddOrdered(es: seq<Edge>, lo: int, hi: int)
    requires ValueSorted(es) && lo < hi
    ensures FirstAtLeast(es, lo) < FirstAtLeast(CInsert(es, Start(lo)), hi)
  {
    var k1 := FirstAtLeast(es, lo);
    var s := CInsert(es, Start(lo));
    CInsertSorted(es, Start(lo));
    assert s[k1].value == lo;
  }

  /** The Python `add` puts the end edge after the start edge whenever the
      end is not below the start. */
  lemma {:induction false} PyAddOrdered(es: seq<Edge>, lo: int, hi: int)
    requires LexSorted(es) && lo <= hi
    ensures LexPos(es, Start(lo)) < LexPos(SortIn(es, Start(lo)), End(hi))
  {
    var k1 := LexPos(es, Start(lo));
    var s := SortIn(es, Start(lo));
    SortInSorted(es, Start(lo));
    assert s[k1] == Start(lo);
  }

  /** Python lists keep every running count non-negative. */
  lemma {:induction false} PyAddNonNegative(es: seq<Edge>, lo: int, hi: int)
    requires LexSorted(es) && NonNegative(es) && lo <= hi
    ensures NonNegative(PyAdd(es, lo, hi))
  {
    PyAddOrdered(es, lo, hi);
    AddNonNegative(es, LexPos(es, Start(lo)), lo, LexPos(SortIn(es, Start(lo)), End(hi)), hi);
  }

  /** So do C lists, as long as no range is a single point. */
  lemma {:induction false} CAddNonNegative(es: seq<Edge>, lo: int, hi: int)
    requires ValueSorted(es) && NonNegative(es) && lo < hi
    ensures NonNegative(CAdd(es, lo, hi))
  {
    CAddOrdered(es, lo, hi);
    AddNonNegative(es, FirstAtLeast(es, lo), lo, FirstAtLeast(CInsert(es, Start(lo)), hi), hi);
  }

  /** While no running count is negative or beyond 32 bits, comparing
      them as unsigned changes nothing. */
  lemma {:induction false} LoUnsigned(es: seq<Edge>, i: nat, w: int)
    requires i <= |es| && NonNegative(es) && Peak(es) < TWO32
    ensures LoFrom(es, i, w, true) == LoFrom(es, i, w, false)
    decreases |es| - i
  {
    if i < |es| {
      var c := Open(es, i + 1);
      assert 0 <= c <= Peak(es);
      assert Reaches(c, w, true) == Reaches(c, w, false) by {
        assert Wrap32(c) == c;
      }
      LoUnsigned(es, i + 1, w);
    }
  }

  lemma {:induction false} HiUnsigned(es: seq<Edge>, j: nat, w: int)
    requires j <= |es| && Balanced(es) && NonNegative(es) && Peak(es) < TWO32
    ensures HiFrom(es, j, w, true) == HiFrom(es, j, w, false)
  {
    if j > 0 {
      ClosedOpen(es, j - 1);
      var c := Closed(es, j - 1);
      assert 0 <= Open(es, j - 1) <= Peak(es);
      assert Reaches(c, w, true) == Reaches(c, w, false) by {
        assert Wrap32(c) == c;
      }
      HiUnsigned(es, j - 1, w);
    }
  }

  /** The level search with unsigned comparisons is the signed one. */
  lemma {:induction false} BestUnsigned(es: seq<Edge>, w: nat, ordered: bool)
    requires Balanced(es) && NonNegative(es) && Peak(es) < TWO32
    ensures Best(es, w, true, ordered) == Best(es, w, false, ordered)
  {
    if w > 0 {
      assert Passes(es, w, true, ordered) == Passes(es, w, false, ordered) by {
        LoUnsigned(es, 0, w);
        HiUnsigned(es, |es|, w);
        assert Lo(es, w, true) == Lo(es, w, false);
        assert Hi(es, w, true) == Hi(es, w, false);
      }
      BestUnsigned(es, w - 1, ordered);
    }
  }

  /** The list the Python versions keep does not depend on the order the
      ranges are added in. */
  lemma {:induction false} AddCommutes(es: seq<Edge>, lo1: int, hi1: int, lo2: int, hi2: int)
    requires LexSorted(es)
    ensures PyAdd(PyAdd(es, lo1, hi1), lo2, hi2) == PyAdd(PyAdd(es, lo2, hi2), lo1, hi1)
  {
    PyAddSorted(es, lo1, hi1);
    PyAddSorted(PyAdd(es, lo1, hi1), lo2, hi2);
    PyAddSorted(es, lo2, hi2);
    PyAddSorted(PyAdd(es, lo2, hi2), lo1, hi1);
    SortedUnique(PyAdd(PyAdd(es, lo1, hi1), lo2, hi2), PyAdd(PyAdd(es, lo2, hi2), lo1, hi1));
  }

  /** `add` keeps the list sorted and adds the range's two edges to it. */
  lemma {:induction false} PyAddSorted(es: seq<Edge>, lo: int, hi: int)
    requires LexSorted(es)
    ensures LexSorted(PyAdd(es, lo, hi))
    ensures multiset(PyAdd(es, lo, hi)) == multiset(es) + multiset{Start(lo), End(hi)}
  {
    SortInSorted(es, Start(lo));
    SortInSorted(SortIn(es, Start(lo)), End(hi));
  }
}
