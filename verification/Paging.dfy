/**
 The cursor walk over a keyset-paged listing, forward or backward, with a cap on the
 rows fetched, against a server that may use smaller pages than asked for and a
 client-side filter that may empty them.
 */
module Paging {
  import opened Bytes

  type Cursor = bytes

  const NO_CURSOR: Cursor := []

  function Min(a: nat, b: nat): nat {
    if a < b then a else b
  }

  // ----- Filtering a page in place -----

  function Filter<T>(keep: T -> bool, s: seq<T>): seq<T> {
    if s == [] then [] else (if keep(s[0]) then [s[0]] else []) + Filter(keep, s[1..])
  }

  lemma FilterStep<T>(keep: T -> bool, s: seq<T>)
    ensures Filter(keep, s) == if s == [] then [] else (if keep(s[0]) then [s[0]] else []) + Filter(keep, s[1..])
  {
  }

  lemma {:induction false} FilterConcat<T>(keep: T -> bool, a: seq<T>, b: seq<T>)
    ensures Filter(keep, a + b) == Filter(keep, a) + Filter(keep, b)
  {
    hide *;
    AppendStep(a, b);
    FilterStep(keep, a);
    if a == [] {
      Associate([], [], Filter(keep, b));
    } else {
      FilterStep(keep, a + b);
      FilterConcat(keep, a[1..], b);
      Associate(if keep(a[0]) then [a[0]] else [], Filter(keep, a[1..]), Filter(keep, b));
    }
  }

  lemma {:induction false} FilterBound<T>(keep: T -> bool, s: seq<T>)
    ensures |Filter(keep, s)| <= |s|
    ensures (forall x :: x in s ==> keep(x)) ==> Filter(keep, s) == s
    ensures forall x :: x in Filter(keep, s) <==> x in s && keep(x)
  {
    if s != [] {
      FilterBound(keep, s[1..]);
      assert s == [s[0]] + s[1..];
    }
  }

  lemma FilterJoin<T>(keep: T -> bool, s: seq<T>, lo: nat, mid: nat, hi: nat)
    requires lo <= mid <= hi <= |s|
    ensures Filter(keep, s[lo..hi]) == Filter(keep, s[lo..mid]) + Filter(keep, s[mid..hi])
  {
    FilterConcat(keep, s[lo..mid], s[mid..hi]);
    assert s[lo..mid] + s[mid..hi] == s[lo..hi];
  }

  /** Drops rows without a second buffer: the kept ones are written over the front of
      the page they are read from. */
  method FilterInPlace<T>(keep: T -> bool, page: array<T>) returns (n: nat)
    modifies page
    ensures n <= page.Length && page[..n] == Filter(keep, old(page[..]))
  {
    ghost var was := page[..];
    n := 0;
    assert was[..0] == [];
    for i := 0 to page.Length
      invariant n <= i && page[..n] == Filter(keep, was[..i])
      invariant page[i..] == was[i..]
    {
      var row := page[i];
      assert page[i..][0] == was[i..][0];
      assert was[..i + 1] == was[..i] + [was[i]];
      FilterConcat(keep, was[..i], [was[i]]);
      assert [was[i]][1..] == [] && Filter(keep, [was[i]][1..]) == [];
      assert page[i + 1..] == page[i..][1..] == was[i + 1..];
      if keep(row) {
        page[n] := row;
        n := n + 1;
      }
    }
    assert was[..page.Length] == was;
  }

  // ----- The server -----

  /** One fetched page: `limit` is the page size the server reported, 0 if it did not. */
  datatype Page<T> = Page(rows: seq<T>, next: Cursor, prev: Cursor, total: nat, limit: nat)

  datatype Request = Request(after: Cursor, before: Cursor, limit: int)

  type Fetch<!T, !E> = Request --> Result<Page<T>, E>

  /** The collection as the server holds it during the walk: `mark(i)` is the cursor of
      the i-th row, `keep` the filter applied to each page after it is fetched. */
  datatype Listing<!T> = Listing(all: seq<T>, mark: nat -> Cursor, keep: T -> bool, total: nat)

  ghost predicate Marked<T>(s: Listing<T>) {
    && (forall i :: 0 <= i < |s.all| ==> s.mark(i) != NO_CURSOR)
    && forall i, j :: 0 <= i < j < |s.all| ==> s.mark(i) != s.mark(j)
  }

  ghost predicate IsMark<T>(s: Listing<T>, c: Cursor, i: nat) {
    i < |s.all| && s.mark(i) == c
  }

  /** Where a page that continues after `c` starts. */
  ghost predicate Starts<T>(s: Listing<T>, c: Cursor, at: nat) {
    if c == NO_CURSOR then at == 0 else at > 0 && IsMark(s, c, at - 1)
  }

  /** The cursor that continues after the row before `at`, none at the end. */
  function NextMark<T>(s: Listing<T>, at: nat): Cursor {
    if at == 0 || at >= |s.all| then NO_CURSOR else s.mark(at - 1)
  }

  /** The cursor that continues before the row at `at`, none at the start. */
  function PrevMark<T>(s: Listing<T>, at: nat): Cursor {
    if at == 0 || at >= |s.all| then NO_CURSOR else s.mark(at)
  }

  /** The page holds rows `lo` to `hi` and says how to go on from either side. */
  ghost predicate Holds<T>(s: Listing<T>, page: Page<T>, lo: nat, hi: nat) {
    && lo <= hi <= |s.all|
    && page.rows == Filter(s.keep, s.all[lo..hi])
    && page.total == s.total
    && (lo < hi || hi == |s.all| ==> page.next == NextMark(s, hi))
    && (lo < hi || lo == 0 ==> page.prev == PrevMark(s, lo))
  }

  /** A page of at most `size` rows answers a request. */
  ghost predicate Answers<T>(s: Listing<T>, q: Request, page: Page<T>, size: nat, lo: nat, hi: nat) {
    && 1 <= size <= q.limit && (page.limit == 0 || page.limit == size)
    && Holds(s, page, lo, hi)
    && if q.before != NO_CURSOR then IsMark(s, q.before, hi) && hi - lo == Min(size, hi)
       else Starts(s, q.after, lo) && hi - lo == Min(size, |s.all| - lo)
  }

  /** The server answers requests for at least one row, or fails; a cursor it does not
      know, or two at once, it refuses. */
  ghost predicate Serves<T, E>(fetch: Fetch<T, E>, s: Listing<T>) {
    && Marked(s)
    && (forall q: Request :: q.limit >= 1 ==> fetch.requires(q))
    && forall q: Request :: q.limit >= 1 && fetch(q).Ok? ==>
         && (q.after == NO_CURSOR || q.before == NO_CURSOR)
         && exists size: nat, lo: nat, hi: nat :: Answers(s, q, fetch(q).value, size, lo, hi)
  }

  // ----- The walk -----

  /** `max` 0 means one page. */
  datatype Options = Options(limit: int, after: Cursor, before: Cursor, max: int)

  /** What the flags are checked for before the walk. */
  predicate Checked(o: Options) {
    o.limit >= 1 && o.max >= 0 && (o.after == NO_CURSOR || o.before == NO_CURSOR)
  }

  datatype Walked<T> = Walked(rows: seq<T>, next: Cursor, prev: Cursor, total: nat, clampedTo: nat)

  /** Rows `lo` to `hi` were walked: the one end is where the options said, the other is
      the cap, the end of the listing, or the end of the only page. */
  ghost predicate Covers<T>(s: Listing<T>, o: Options, w: Walked<T>, lo: nat, hi: nat) {
    && lo <= hi <= |s.all|
    && w.rows == Filter(s.keep, s.all[lo..hi])
    && w.total == s.total
    && (o.max > 0 ==> |w.rows| <= o.max)
    && (if o.before != NO_CURSOR then
          && IsMark(s, o.before, hi)
          && w.prev == PrevMark(s, lo)
          && (lo < hi ==> w.next == NextMark(s, hi))
          && (o.max > 0 ==> |w.rows| == o.max || lo == 0)
          && (o.max == 0 ==> hi - lo <= o.limit && (lo < hi || lo == 0))
        else
          && Starts(s, o.after, lo)
          && w.next == NextMark(s, hi)
          && (lo < hi ==> w.prev == PrevMark(s, lo))
          && (o.max > 0 ==> |w.rows| == o.max || hi == |s.all|)
          && (o.max == 0 ==> hi - lo <= o.limit && (lo < hi || hi == |s.all|)))
  }

  /** A request made during the walk and the page it got. */
  datatype Step<T> = Step(q: Request, page: Page<T>)

  /** The page size of the last page that was smaller than asked for, 0 if none was. */
  function LastClamp<T>(trace: seq<Step<T>>): nat {
    if trace == [] then 0
    else
      var t := trace[|trace| - 1];
      if 0 < t.page.limit < t.q.limit then t.page.limit else LastClamp(trace[..|trace| - 1])
  }

  /** The server used a smaller page than was asked for. */
  predicate Clamped<T>(t: Step<T>) {
    0 < t.page.limit < t.q.limit
  }

  /** The reported clamp is that of the last page the server made smaller; there is none
      exactly if it made none smaller. */
  lemma {:induction false} LastClampExactly<T>(trace: seq<Step<T>>)
    ensures LastClamp(trace) == 0 <==> forall k :: 0 <= k < |trace| ==> !Clamped(trace[k])
    ensures forall k ::
              0 <= k < |trace| && Clamped(trace[k]) && (forall j :: k < j < |trace| ==> !Clamped(trace[j])) ==>
                LastClamp(trace) == trace[k].page.limit
  {
    if trace != [] {
      var before, t := trace[..|trace| - 1], trace[|trace| - 1];
      LastClampExactly(before);
      assert forall k :: 0 <= k < |before| ==> before[k] == trace[k];
      if Clamped(t) { assert Clamped(trace[|trace| - 1]); }
    }
  }

  /** Every request asked for at least one row and no more than a page. */
  ghost predicate Modest<T>(trace: seq<Step<T>>, limit: int) {
    forall k :: 0 <= k < |trace| ==> 1 <= trace[k].q.limit <= limit
  }

  /** The rows of all pages in the listing's order: a page fetched backward comes first. */
  function Gathered<T>(backward: bool, trace: seq<Step<T>>): seq<T> {
    if trace == [] then []
    else
      var before, t := trace[..|trace| - 1], trace[|trace| - 1];
      if backward then t.page.rows + Gathered(backward, before) else Gathered(backward, before) + t.page.rows
  }

  /** The cursors of the request that follows a page. */
  function NextCursor<T>(o: Options, trace: seq<Step<T>>): (Cursor, Cursor)
    requires trace != []
  {
    if o.before != NO_CURSOR then (o.after, trace[|trace| - 1].page.prev)
    else (trace[|trace| - 1].page.next, o.before)
  }

  /** The request that follows `trace`: on from the last page's cursor, or from where the
      options say, for a page or exactly the rows still wanted. */
  function NextRequest<T>(o: Options, trace: seq<Step<T>>): Request {
    var wanted := o.max - |Gathered(o.before != NO_CURSOR, trace)|;
    var limit := if o.max > 0 && wanted < o.limit then wanted else o.limit;
    var (after, before) := if trace == [] then (o.after, o.before) else NextCursor(o, trace);
    Request(after, before, limit)
  }

  /** The requests really made, in order, and the server's answers to them. */
  ghost predicate Conducted<T, E>(fetch: Fetch<T, E>, o: Options, trace: seq<Step<T>>) {
    forall k :: 0 <= k < |trace| ==>
      && trace[k].q == NextRequest(o, trace[..k])
      && fetch.requires(trace[k].q) && fetch(trace[k].q) == Ok(trace[k].page)
  }

  lemma UniqueMark<T>(s: Listing<T>, c: Cursor, i: nat, j: nat)
    requires Marked(s) && IsMark(s, c, i) && IsMark(s, c, j)
    ensures i == j
  {
  }

  /** The slice a page holds, and that there is something on it if the walk goes on. */
  lemma PageSlice<T, E>(fetch: Fetch<T, E>, s: Listing<T>, q: Request) returns (lo: nat, hi: nat)
    requires Serves(fetch, s) && q.limit >= 1 && fetch(q).Ok?
    ensures Holds(s, fetch(q).value, lo, hi) && hi - lo <= q.limit
    ensures |fetch(q).value.rows| <= q.limit
    ensures if q.before != NO_CURSOR then IsMark(s, q.before, hi) && (lo < hi || lo == 0)
            else Starts(s, q.after, lo) && (lo < hi || hi == |s.all|)
    ensures fetch(q).value.next == NextMark(s, hi) || q.before != NO_CURSOR
    ensures fetch(q).value.prev == PrevMark(s, lo) || q.before == NO_CURSOR
  {
    var page := fetch(q).value;
    var size: nat, l: nat, h: nat :| Answers(s, q, page, size, l, h);
    lo, hi := l, h;
    FilterBound(s.keep, s.all[lo..hi]);
  }

  /** Rows `lo` to `hi` have been walked and the cursors are those of their ends. */
  ghost predicate Reached<T>(s: Listing<T>, o: Options, rows: seq<T>, next: Cursor, prev: Cursor, lo: nat, hi: nat) {
    && lo <= hi <= |s.all|
    && rows == Filter(s.keep, s.all[lo..hi])
    && if o.before != NO_CURSOR then
         && IsMark(s, o.before, hi) && prev == PrevMark(s, lo)
         && (lo < hi || lo == 0) && (lo < hi ==> next == NextMark(s, hi))
       else
         && Starts(s, o.after, lo) && next == NextMark(s, hi)
         && (lo < hi || hi == |s.all|) && (lo < hi ==> prev == PrevMark(s, lo))
  }

  lemma FirstReached<T>(s: Listing<T>, o: Options, page: Page<T>, l: nat, h: nat)
    requires Holds(s, page, l, h)
    requires if o.before != NO_CURSOR then IsMark(s, o.before, h) && page.prev == PrevMark(s, l) && (l < h || l == 0)
             else Starts(s, o.after, l) && page.next == NextMark(s, h) && (l < h || h == |s.all|)
    ensures Reached(s, o, page.rows, page.next, page.prev, l, h)
  {
  }

  /** The next page backward meets what has been walked, with no gap and no overlap. */
  lemma ReachedBackward<T>(s: Listing<T>, o: Options, rows: seq<T>, next: Cursor, before: Cursor, lo: nat, hi: nat,
                           page: Page<T>, l: nat, h: nat)
    requires Marked(s) && o.before != NO_CURSOR && Reached(s, o, rows, next, before, lo, hi) && before != NO_CURSOR
    requires Holds(s, page, l, h) && IsMark(s, before, h) && page.prev == PrevMark(s, l) && (l < h || l == 0)
    ensures Reached(s, o, page.rows + rows, next, page.prev, l, hi) && h == lo
  {
    UniqueMark(s, before, lo, h);
    FilterJoin(s.keep, s.all, l, lo, hi);
  }

  lemma ReachedForward<T>(s: Listing<T>, o: Options, rows: seq<T>, after: Cursor, prev: Cursor, lo: nat, hi: nat,
                          page: Page<T>, l: nat, h: nat)
    requires Marked(s) && o.before == NO_CURSOR && Reached(s, o, rows, after, prev, lo, hi) && after != NO_CURSOR
    requires Holds(s, page, l, h) && Starts(s, after, l) && page.next == NextMark(s, h) && (l < h || h == |s.all|)
    ensures Reached(s, o, rows + page.rows, page.next, prev, lo, h) && l == hi
  {
    UniqueMark(s, after, hi - 1, l - 1);
    FilterJoin(s.keep, s.all, lo, hi, h);
  }

  lemma ReachedCovers<T>(s: Listing<T>, o: Options, w: Walked<T>, lo: nat, hi: nat)
    requires Reached(s, o, w.rows, w.next, w.prev, lo, hi) && Marked(s) && w.total == s.total
    requires o.max > 0 ==> |w.rows| <= o.max
    requires o.max > 0 ==> |w.rows| == o.max || (if o.before != NO_CURSOR then w.prev else w.next) == NO_CURSOR
    requires o.max == 0 ==> hi - lo <= o.limit
    ensures Covers(s, o, w, lo, hi)
  {
    FilterBound(s.keep, s.all[lo..hi]);
  }

  /** What is left to walk. */
  ghost function Left<T>(s: Listing<T>, o: Options, lo: nat, hi: nat): nat
    requires hi <= |s.all|
  {
    if o.before != NO_CURSOR then lo else |s.all| - hi
  }

  lemma StillLeft<T>(s: Listing<T>, o: Options, rows: seq<T>, next: Cursor, prev: Cursor, lo: nat, hi: nat)
    requires Reached(s, o, rows, next, prev, lo, hi)
    requires (if o.before != NO_CURSOR then prev else next) != NO_CURSOR
    ensures lo < hi && Left(s, o, lo, hi) > 0
  {
  }

  lemma ServesMarked<T, E>(fetch: Fetch<T, E>, s: Listing<T>)
    requires Serves(fetch, s)
    ensures Marked(s)
  {
    hide Marked;
  }

  /** The walk from one end of the collection, or from where a cursor says. */
  method WalkPages<T, E>(o: Options, fetch: Fetch<T, E>, ghost s: Listing<T>)
    returns (res: Result<Walked<T>, E>, ghost lo: nat, ghost hi: nat, ghost trace: seq<Step<T>>)
    requires Checked(o) && Serves(fetch, s)
    ensures Conducted(fetch, o, trace) && Modest(trace, o.limit)
    ensures res.Err? ==>
              && NextRequest(o, trace).limit >= 1 && fetch(NextRequest(o, trace)) == Err(res.error)
    ensures res.Ok? ==>
              && trace != [] && res.value.rows == Gathered(o.before != NO_CURSOR, trace)
              && res.value.clampedTo == LastClamp(trace)
              && Covers(s, o, res.value, lo, hi)
  {
    hide Holds, Reached, Covers, IsMark, Starts, NextMark, PrevMark, Filter, LastClamp, Modest, Gathered, NextRequest,
         Conducted, Serves, Marked, Appended;
    ServesMarked(fetch, s);
    var backward := o.before != NO_CURSOR;
    var after, before := o.after, o.before;
    var rows: seq<T> := [];
    var next, prev: Cursor := NO_CURSOR, NO_CURSOR;
    var clampedTo: nat := 0;
    var first := true;
    trace := NoSteps(fetch, o);
    lo, hi := 0, if backward then 0 else |s.all|;
    while true
      invariant first ==> rows == [] && after == o.after && before == o.before
      invariant first || |rows| < o.max
      invariant Modest(trace, o.limit) && clampedTo == LastClamp(trace)
      invariant Conducted(fetch, o, trace) && rows == Gathered(backward, trace)
      invariant if first then trace == []
                else trace != [] && before == NextCursor(o, trace).1 && after == NextCursor(o, trace).0
      invariant hi <= |s.all| && (!first ==> lo < hi && Reached(s, o, rows, next, prev, lo, hi))
      invariant if backward then after == NO_CURSOR && before != NO_CURSOR else before == NO_CURSOR
      invariant !first ==> if backward then before == prev else after == next != NO_CURSOR
      decreases first, Left(s, o, lo, hi)
    {
      var limit := o.limit;
      if o.max > 0 && o.max - |rows| < limit {
        limit := o.max - |rows|;
      }
      var q := Request(after, before, limit);
      Asks(fetch, s, q);
      RequestIs(o, trace, after, before, limit);
      var fetched := fetch(q);
      if fetched.Err? {
        return Err(fetched.error), lo, hi, trace;
      }
      var got := fetched.value;
      ghost var l, h := PageSlice(fetch, s, q);
      ghost var lo', hi', rows' := lo, hi, rows;
      PageTotal(s, got, l, h);
      trace := Appended(fetch, o, trace, Step(q, got));
      if got.limit > 0 && got.limit < limit {
        clampedTo := got.limit;
      }
      if first {
        FirstReached(s, o, got, l, h);
      } else if backward {
        ReachedBackward(s, o, rows, next, before, lo, hi, got, l, h);
      } else {
        ReachedForward(s, o, rows, after, prev, lo, hi, got, l, h);
      }
      if backward {
        rows := got.rows + rows;
        if first {
          next := got.next;
        }
        prev := got.prev;
        lo, hi := l, if first then h else hi;
        assert first ==> got.rows + [] == got.rows;
      } else {
        rows := rows + got.rows;
        if first {
          prev := got.prev;
        }
        next := got.next;
        lo, hi := if first then l else lo, h;
        assert first ==> [] + got.rows == got.rows;
      }
      var onward := if backward then got.prev else got.next;
      assert Reached(s, o, rows, next, prev, lo, hi);
      if o.max <= 0 || |rows| >= o.max || onward == NO_CURSOR {
        if o.max > 0 && |rows| > o.max {
          // The last request asked for exactly the rows still wanted.
          assert false;
        }
        ReachedCovers(s, o, Walked(rows, next, prev, got.total, clampedTo), lo, hi);
        return Ok(Walked(rows, next, prev, got.total, clampedTo)), lo, hi, trace;
      }
      StillLeft(s, o, rows, next, prev, lo, hi);
      if backward {
        before := onward;
      } else {
        after := onward;
      }
      first := false;
    }
  }

  ghost function NoSteps<T, E>(fetch: Fetch<T, E>, o: Options): (r: seq<Step<T>>)
    ensures r == [] && Modest(r, o.limit) && LastClamp(r) == 0
    ensures Conducted(fetch, o, r) && Gathered(o.before != NO_CURSOR, r) == []
  {
    []
  }

  lemma RequestIs<T>(o: Options, trace: seq<Step<T>>, after: Cursor, before: Cursor, limit: int)
    requires if trace == [] then after == o.after && before == o.before else (after, before) == NextCursor(o, trace)
    requires var wanted := o.max - |Gathered(o.before != NO_CURSOR, trace)|;
             limit == if o.max > 0 && wanted < o.limit then wanted else o.limit
    ensures Request(after, before, limit) == NextRequest(o, trace)
  {
    hide Gathered;
  }

  lemma Asks<T, E>(fetch: Fetch<T, E>, s: Listing<T>, q: Request)
    requires Serves(fetch, s) && q.limit >= 1
    ensures fetch.requires(q)
  {
  }

  lemma PageTotal<T>(s: Listing<T>, page: Page<T>, l: nat, h: nat)
    requires Holds(s, page, l, h)
    ensures page.total == s.total && l <= h <= |s.all|
  {
  }

  lemma AddsStep<T>(trace: seq<Step<T>>, t: Step<T>)
    ensures var r := trace + [t]; r != [] && r[|r| - 1] == t && r[..|r| - 1] == trace
    ensures forall k :: 0 <= k <= |trace| ==> (trace + [t])[..k] == trace[..k]
    ensures forall k :: 0 <= k < |trace| ==> (trace + [t])[k] == trace[k]
  {
  }

  lemma ConductedMore<T, E>(fetch: Fetch<T, E>, o: Options, trace: seq<Step<T>>, t: Step<T>)
    requires Conducted(fetch, o, trace)
    requires t.q == NextRequest(o, trace) && fetch.requires(t.q) && fetch(t.q) == Ok(t.page)
    ensures Conducted(fetch, o, trace + [t])
  {
    hide NextRequest;
    AddsStep(trace, t);
    assert trace[..|trace|] == trace;
  }

  lemma TraceMore<T>(backward: bool, trace: seq<Step<T>>, t: Step<T>)
    ensures LastClamp(trace + [t]) == if 0 < t.page.limit < t.q.limit then t.page.limit else LastClamp(trace)
    ensures Gathered(backward, trace + [t]) ==
            if backward then t.page.rows + Gathered(backward, trace) else Gathered(backward, trace) + t.page.rows
  {
    AddsStep(trace, t);
  }

  lemma ModestMore<T>(trace: seq<Step<T>>, t: Step<T>, limit: int)
    requires Modest(trace, limit) && 1 <= t.q.limit <= limit
    ensures Modest(trace + [t], limit)
  {
    AddsStep(trace, t);
  }

  /** One more request and its page. */
  ghost function Appended<T, E>(fetch: Fetch<T, E>, o: Options, trace: seq<Step<T>>, t: Step<T>): (r: seq<Step<T>>)
    requires Conducted(fetch, o, trace) && Modest(trace, o.limit) && 1 <= t.q.limit <= o.limit
    requires t.q == NextRequest(o, trace) && fetch.requires(t.q) && fetch(t.q) == Ok(t.page)
    ensures r != [] && r[|r| - 1] == t && Conducted(fetch, o, r) && Modest(r, o.limit)
    ensures LastClamp(r) == if 0 < t.page.limit < t.q.limit then t.page.limit else LastClamp(trace)
    ensures var backward := o.before != NO_CURSOR;
            Gathered(backward, r) ==
            if backward then t.page.rows + Gathered(backward, trace) else Gathered(backward, trace) + t.page.rows
  {
    hide *;
    ConductedMore(fetch, o, trace, t);
    TraceMore(o.before != NO_CURSOR, trace, t);
    ModestMore(trace, t, o.limit);
    trace + [t]
  }

  // ----- What a walk returns -----

  /** Unfiltered, a capped walk forward returns exactly the next rows up to the cap. */
  lemma ForwardExactly<T>(s: Listing<T>, o: Options, w: Walked<T>, lo: nat, hi: nat)
    requires Covers(s, o, w, lo, hi) && o.before == NO_CURSOR && o.max > 0
    requires forall x :: x in s.all ==> s.keep(x)
    ensures hi == lo + Min(o.max, |s.all| - lo) && w.rows == s.all[lo..hi]
  {
    KeptWhole(s, lo, hi);
  }

  /** Unfiltered, a capped walk backward returns exactly the last rows before its start,
      in the listing's order. */
  lemma BackwardExactly<T>(s: Listing<T>, o: Options, w: Walked<T>, lo: nat, hi: nat)
    requires Covers(s, o, w, lo, hi) && o.before != NO_CURSOR && o.max > 0
    requires forall x :: x in s.all ==> s.keep(x)
    ensures lo == hi - Min(o.max, hi) && w.rows == s.all[lo..hi]
  {
    KeptWhole(s, lo, hi);
  }

  lemma KeptWhole<T>(s: Listing<T>, lo: nat, hi: nat)
    requires lo <= hi <= |s.all| && forall x :: x in s.all ==> s.keep(x)
    ensures Filter(s.keep, s.all[lo..hi]) == s.all[lo..hi]
  {
    var part := s.all[lo..hi];
    assert forall i :: 0 <= i < |part| ==> part[i] == s.all[lo + i];
    FilterBound(s.keep, part);
  }

  /** A walk that continues after another picks up where it ended: together they return
      the kept rows of one run, none twice and none missed. */
  lemma ForwardResumes<T>(s: Listing<T>, o: Options, w: Walked<T>, lo: nat, hi: nat,
                          o': Options, w': Walked<T>, lo': nat, hi': nat)
    requires Marked(s) && Covers(s, o, w, lo, hi) && Covers(s, o', w', lo', hi')
    requires o.before == NO_CURSOR == o'.before && o'.after == w.next != NO_CURSOR
    ensures lo' == hi && w.rows + w'.rows == Filter(s.keep, s.all[lo..hi'])
  {
    UniqueMark(s, w.next, hi - 1, lo' - 1);
    FilterJoin(s.keep, s.all, lo, hi, hi');
  }

  lemma BackwardResumes<T>(s: Listing<T>, o: Options, w: Walked<T>, lo: nat, hi: nat,
                           o': Options, w': Walked<T>, lo': nat, hi': nat)
    requires Marked(s) && Covers(s, o, w, lo, hi) && Covers(s, o', w', lo', hi')
    requires o.before != NO_CURSOR && o'.before == w.prev != NO_CURSOR
    ensures hi' == lo && w'.rows + w.rows == Filter(s.keep, s.all[lo'..hi])
  {
    UniqueMark(s, w.prev, lo, hi');
    FilterJoin(s.keep, s.all, lo', lo, hi);
  }

  /** Turning round: a walk back from where a forward walk began ends right before it. */
  lemma TurnsRound<T>(s: Listing<T>, o: Options, w: Walked<T>, lo: nat, hi: nat,
                      o': Options, w': Walked<T>, lo': nat, hi': nat)
    requires Marked(s) && Covers(s, o, w, lo, hi) && Covers(s, o', w', lo', hi')
    requires o.before == NO_CURSOR && lo < hi && o'.before == w.prev != NO_CURSOR
    ensures hi' == lo && w'.rows + w.rows == Filter(s.keep, s.all[lo'..hi])
  {
    UniqueMark(s, w.prev, lo, hi');
    FilterJoin(s.keep, s.all, lo', lo, hi);
  }

  /** A walk from the start of the listing that comes back without a next cursor has
      returned every kept row of it. */
  lemma NothingLost<T>(s: Listing<T>, o: Options, w: Walked<T>, lo: nat, hi: nat)
    requires Marked(s) && Checked(o) && Covers(s, o, w, lo, hi)
    requires o.before == NO_CURSOR == o.after && w.next == NO_CURSOR
    ensures w.rows == Filter(s.keep, s.all)
  {
    assert s.all[0..0] == [];
    assert s.all[0..|s.all|] == s.all;
  }
}
