/** The driver `vak_main` of src/c/vak_main.c. The servers are queried in
    turn; every answer goes to the C overlap algorithm, and a search
    follows at once. The loop stops at the first search whose overlaps
    are a majority of the answers so far, at least `WANTED_OVERLAPS`,
    and whose range is no wider than `WANTED_UNCERTAINTY`. The answers
    of the servers are the input: `None` for a server that gave none,
    otherwise the range it gave. */
module Vak {
  import opened Bytes
  import opened Overlap
  import opened OverlapC
  import PyOverlap

  /** How many responses must overlap for success. */
  const WANTED_OVERLAPS: int := 10

  /** How wide the overlap may be for success. */
  const WANTED_UNCERTAINTY: int := 2

  /** What the loop of `vak_main` holds between answers: the ranges the
      algorithm accepted (its list holds their edges) and its `_wanted`,
      then `nr_responses`, `nr_overlaps` and the locals `lo` and `hi`. */
  datatype Poll = Poll(ranges: seq<(int, int)>, wanted: nat,
                       responses: nat, overlaps: nat, lo: int, hi: int)

  /** Before the first answer: a new algorithm, nothing counted. */
  const Begin: Poll := Poll([], 0, 0, 0, 0, 0)

  /** One answer `(lo, hi)`: one more response, `overlap_add` (which
      refuses an inverted range), then `overlap_find` from the level
      `_wanted` it left; the search writes its ends over `lo` and `hi`
      only when it finds an overlap. */
  function Answer(p: Poll, lo: int, hi: int): Poll {
    if lo <= hi then Searched(p.ranges + [(lo, hi)], p.wanted + 1, p.responses + 1, lo, hi)
    else Searched(p.ranges, p.wanted, p.responses + 1, lo, hi)
  }

  /** The state after `overlap_find` from level `w` on the list of the
      ranges `rs`, with `lo` and `hi` holding what the server gave. */
  function Searched(rs: seq<(int, int)>, w: nat, responses: nat, lo: int, hi: int): Poll {
    var r := CSearch(CAddAll([], rs), w);
    Poll(rs, r.0, responses, r.0, if r.0 > 0 then r.1.value else lo, if r.0 > 0 then r.2.value else hi)
  }

  /** The test that ends the loop with success. */
  predicate Enough(p: Poll) {
    p.overlaps > p.responses / 2 && p.overlaps >= WANTED_OVERLAPS && p.hi - p.lo <= WANTED_UNCERTAINTY
  }

  /** The loop from the answer at `i` on: the state it succeeds in, if
      an answer passes the test. */
  function Run(p: Poll, answers: seq<Option<(int, int)>>, i: nat): Option<Poll>
    requires i <= |answers|
    decreases |answers| - i, 1
  {
    if i == |answers| then None else Next(p, answers, i)
  }

  /** One pass of the loop, on the answer at `i`, then the rest. */
  function Next(p: Poll, answers: seq<Option<(int, int)>>, i: nat): Option<Poll>
    requires i < |answers|
    decreases |answers| - i, 0
  {
    match answers[i]
    case None => Run(p, answers, i + 1)
    case Some(r) =>
      var q := Answer(p, r.0, r.1);
      if Enough(q) then Some(q) else Run(q, answers, i + 1)
  }

  /** What holds between answers before the search: the accepted ranges
      are never inverted, and `_wanted` lies between the number of
      overlaps and the number of accepted ranges, which is at most the
      number of responses. */
  ghost predicate Basic(p: Poll) {
    && (forall i :: 0 <= i < |p.ranges| ==> PyOverlap.Ordered(p.ranges[i]))
    && Peak(CAddAll([], p.ranges)) <= p.wanted <= |p.ranges| <= p.responses
  }

  /** What holds after a search as well. The last search stopped at
      `_wanted`. When no range begins where one ends, the count is the
      number of overlaps. In that case, when it is not 0, `lo` and `hi`
      are the lowest and highest values where that many ranges are open,
      in order. */
  ghost predicate Sound(p: Poll) {
    var es := CAddAll([], p.ranges);
    && Basic(p)
    && p.overlaps == p.wanted
    && (NoTouch(p.ranges) ==> p.overlaps == Peak(es))
    && (NoTouch(p.ranges) && p.overlaps > 0 ==>
          && Lo(es, p.overlaps, false) == Some(p.lo) && Hi(es, p.overlaps, false) == Some(p.hi)
          && p.lo <= p.hi)
  }

  /** Nothing is wrong before the first answer. */
  lemma {:induction false} BeginBasic()
    ensures Basic(Begin)
  {
    assert CAddAll([], []) == [];
    assert Open([], 0) == 0;
  }

  /** A search from any level between the number of overlaps and the
      number of ranges leaves a state where all that holds between
      answers holds. */
  lemma {:induction false} SearchedSound(rs: seq<(int, int)>, w: nat, responses: nat, lo: int, hi: int, q: Poll)
    requires forall i :: 0 <= i < |rs| ==> PyOverlap.Ordered(rs[i])
    requires Peak(CAddAll([], rs)) <= w <= |rs| <= responses && |rs| <= INT_MAX
    requires q == Searched(rs, w, responses, lo, hi)
    ensures Sound(q)
  {
    var es := CAddAll([], rs);
    FindStep(rs, w);
    if NoTouch(rs) && CSearch(es, w).0 > 0 {
      NoTouchList(rs);
      PyOverlap.AddAllInvariant(rs);
      PyOverlap.FindIsPeak(es, |rs|, w);
    }
  }

  lemma {:induction false} OrderedSnoc(rs: seq<(int, int)>, lo: int, hi: int)
    requires forall i :: 0 <= i < |rs| ==> PyOverlap.Ordered(rs[i])
    requires lo <= hi
    ensures forall i :: 0 <= i < |rs + [(lo, hi)]| ==> PyOverlap.Ordered((rs + [(lo, hi)])[i])
  {
    var rs' := rs + [(lo, hi)];
    forall i | 0 <= i < |rs'|
      ensures PyOverlap.Ordered(rs'[i])
    {
      if i < |rs| {
        assert rs'[i] == rs[i];
      }
    }
  }

  /** An accepted range, with one more response and a search from one
      level higher, keeps what holds between answers. */
  lemma {:induction false} AcceptKeeps(rs: seq<(int, int)>, w: nat, responses: nat, lo: int, hi: int, q: Poll)
    requires forall i :: 0 <= i < |rs| ==> PyOverlap.Ordered(rs[i])
    requires Peak(CAddAll([], rs)) <= w <= |rs| <= responses < INT_MAX && lo <= hi
    requires q == Searched(rs + [(lo, hi)], w + 1, responses + 1, lo, hi)
    ensures Sound(q)
  {
    AddStep(rs, lo, hi);
    OrderedSnoc(rs, lo, hi);
    SearchedSound(rs + [(lo, hi)], w + 1, responses + 1, lo, hi, q);
  }

  /** Every answer keeps what holds between answers, as long as the number
      of responses fits in C's `int`. */
  lemma {:induction false} AnswerKeeps(p: Poll, lo: int, hi: int, q: Poll)
    requires Basic(p) && p.responses < INT_MAX && q == Answer(p, lo, hi)
    ensures Sound(q) && q.responses == p.responses + 1
  {
    if lo <= hi {
      AcceptKeeps(p.ranges, p.wanted, p.responses, lo, hi, q);
    } else {
      SearchedSound(p.ranges, p.wanted, p.responses + 1, lo, hi, q);
    }
  }

  /** When the loop succeeds from the answer at `i` on, it succeeds in a
      state where all that holds between answers holds and the test
      passes, after at most as many responses as there were answers. */
  lemma {:induction false} RunSound(p: Poll, answers: seq<Option<(int, int)>>, i: nat)
    requires i <= |answers| && Basic(p) && p.responses + |answers| - i <= INT_MAX
    ensures Run(p, answers, i).Some? ==>
      && Sound(Run(p, answers, i).value) && Enough(Run(p, answers, i).value)
      && Run(p, answers, i).value.responses <= p.responses + |answers| - i
    decreases |answers| - i, 1
  {
    if i < |answers| {
      NextSound(p, answers, i);
    }
  }

  /** The same, from the pass on the answer at `i`. */
  lemma {:induction false} NextSound(p: Poll, answers: seq<Option<(int, int)>>, i: nat)
    requires i < |answers| && Basic(p) && p.responses + |answers| - i <= INT_MAX
    ensures Next(p, answers, i).Some? ==>
      && Sound(Next(p, answers, i).value) && Enough(Next(p, answers, i).value)
      && Next(p, answers, i).value.responses <= p.responses + |answers| - i
    decreases |answers| - i, 0
  {
    match answers[i]
    case None =>
      RunSound(p, answers, i + 1);
    case Some(r) =>
      AnswerKeeps(p, r.0, r.1, Answer(p, r.0, r.1));
      RunSound(Answer(p, r.0, r.1), answers, i + 1);
  }

  /** What a success of `vak_main` promises. At least `WANTED_OVERLAPS`
      ranges overlap, a majority of the responses, in a range no wider
      than `WANTED_UNCERTAINTY`. The count is never below the number of
      overlaps of the accepted ranges. When no range begins where one
      ends, it is exactly that number, and `lo` and `hi` are the lowest
      and highest values where that many ranges are open, in order. */
  lemma {:induction false} Success(answers: seq<Option<(int, int)>>)
    requires |answers| <= INT_MAX && Run(Begin, answers, 0).Some?
    ensures var q := Run(Begin, answers, 0).value; var es := CAddAll([], q.ranges);
      && q.overlaps >= WANTED_OVERLAPS && 2 * q.overlaps > q.responses
      && q.hi - q.lo <= WANTED_UNCERTAINTY
      && Peak(es) <= q.overlaps <= |q.ranges| <= q.responses <= |answers|
      && (NoTouch(q.ranges) ==>
            && q.overlaps == Peak(es) && q.lo <= q.hi
            && Lo(es, q.overlaps, false) == Some(q.lo) && Hi(es, q.overlaps, false) == Some(q.hi))
  {
    BeginBasic();
    RunSound(Begin, answers, 0);
  }

  /** A server that gave no answer is skipped. */
  lemma {:induction false} Skip(p: Poll, answers: seq<Option<(int, int)>>, i: nat)
    requires i < |answers| && answers[i].None?
    ensures Run(p, answers, i) == Run(p, answers, i + 1)
  {
    assert Run(p, answers, i) == Next(p, answers, i);
  }

  /** An answer either ends the loop in the state it leads to or goes on
      from there. */
  lemma {:induction false} Take(p: Poll, answers: seq<Option<(int, int)>>, i: nat, q: Poll)
    requires i < |answers| && answers[i].Some? && q == Answer(p, answers[i].value.0, answers[i].value.1)
    ensures Run(p, answers, i) == if Enough(q) then Some(q) else Run(q, answers, i + 1)
  {
    assert Run(p, answers, i) == Next(p, answers, i);
  }

  lemma {:induction false} AnswerIs(p: Poll, lo: int, hi: int, rs: seq<(int, int)>, w: nat)
    requires lo <= hi ==> rs == p.ranges + [(lo, hi)] && w == p.wanted + 1
    requires lo > hi ==> rs == p.ranges && w == p.wanted
    ensures Answer(p, lo, hi) == Searched(rs, w, p.responses + 1, lo, hi)
  {
  }

  /** `overlap_add` of the answer `(lo, hi)`, then `overlap_find`, which
      writes its ends over `lo` and `hi` when it finds an overlap. */
  method Handle(algo: OverlapAlgo, ghost p: Poll, lo: int, hi: int) returns (overlaps: int, lo': int, hi': int, ghost q: Poll)
    requires Tracks(algo, p) && p.responses < INT_MAX
    modifies algo, algo.Repr
    ensures Tracks(algo, q) && fresh(algo.Repr - old(algo.Repr))
    ensures q == Answer(p, lo, hi) && q.responses == p.responses + 1
    ensures overlaps == q.overlaps && lo' == q.lo && hi' == q.hi
  {
    var ok := algo.Add(lo, hi);
    AnswerIs(p, lo, hi, algo.ranges, algo.wanted);
    overlaps, lo', hi' := algo.Find(lo, hi);
    q := Answer(p, lo, hi);
  }

  /** The algorithm holds what the state says it does. */
  ghost predicate Tracks(algo: OverlapAlgo, p: Poll)
    reads algo, algo.Repr
  {
    algo.Valid() && algo.ranges == p.ranges && algo.wanted == p.wanted && |p.ranges| <= p.responses
  }

  /** One pass of the loop of `vak_main`: a server that gave no answer
      is skipped; otherwise one more response is counted, the answer is
      handled, and the test decides whether the loop ends. */
  method Step(algo: OverlapAlgo, ghost p: Poll, answers: seq<Option<(int, int)>>, i: nat, responses: int)
    returns (responses': int, done: bool, lo: int, hi: int, ghost q: Poll)
    requires i < |answers| <= INT_MAX && Tracks(algo, p) && responses == p.responses <= i
    modifies algo, algo.Repr
    ensures Tracks(algo, q) && fresh(algo.Repr - old(algo.Repr))
    ensures responses' == q.responses <= i + 1
    ensures done ==> Run(p, answers, i) == Some(q) && lo == q.lo && hi == q.hi
    ensures !done ==> Run(p, answers, i) == Run(q, answers, i + 1)
  {
    q := p;
    responses' := responses;
    done, lo, hi := false, 0, 0;
    if answers[i].None? {
      Skip(p, answers, i);
      return;
    }
    responses' := responses + 1;
    var overlaps;
    overlaps, lo, hi, q := Handle(algo, p, answers[i].value.0, answers[i].value.1);
    Take(p, answers, i, q);
    done := overlaps > responses' / 2 && overlaps >= WANTED_OVERLAPS && hi - lo <= WANTED_UNCERTAINTY;
  }

  /** `vak_main`: the answers are taken in turn, each added and searched
      at once, until one passes the test. It gives the ends of that
      search, or nothing when no answer passes. */
  method VakMain(answers: seq<Option<(int, int)>>) returns (r: Option<(int, int)>)
    requires |answers| <= INT_MAX
    ensures r.Some? <==> Run(Begin, answers, 0).Some?
    ensures r.Some? ==> r.value == (Run(Begin, answers, 0).value.lo, Run(Begin, answers, 0).value.hi)
  {
    var algo := new OverlapAlgo();
    var responses := 0;
    ghost var p := Begin;
    for i := 0 to |answers|
      invariant fresh(algo) && fresh(algo.Repr) && Tracks(algo, p)
      invariant responses == p.responses <= i
      invariant Run(Begin, answers, 0) == Run(p, answers, i)
    {
      var done, lo, hi;
      responses, done, lo, hi, p := Step(algo, p, answers, i, responses);
      if done {
        return Some((lo, hi));
      }
    }
    return None;
  }
}
