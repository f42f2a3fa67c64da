/** Reading the public recording list along its cursors (`Client.public`). */
module RecordingPages {
  import opened Wrappers

  const MAX_PAGES := 100
  const MAX_ITEMS := 10000

  datatype Row = Row(recordingId: string, title: string)

  /** One answer; `next` is empty where there is no further page and None where it is no string. */
  datatype Page = Page(status: int, items: Option<seq<Row>>, next: Option<string>)

  datatype Trouble = Unavailable | TooManyItems | CursorRepeated | TooManyPages

  predicate Readable(page: Page) {
    page.status == 200 && page.items.Some?
  }

  /** The cursor of the page number `n`, counted from zero, as long as each page names the next. */
  function Cursor(serve: string -> Page, n: nat): Option<string> {
    if n == 0 then Some("")
    else
      match Cursor(serve, n - 1)
      case None => None
      case Some(c) =>
        var page := serve(c);
        if Readable(page) && page.next.Some? && page.next.value != "" then page.next else None
  }

  /** The rows of the first `n` pages. */
  function RowsOf(serve: string -> Page, n: nat): seq<Row> {
    if n == 0 then []
    else
      RowsOf(serve, n - 1)
      + match Cursor(serve, n - 1)
        case None => []
        case Some(c) => if serve(c).items.Some? then serve(c).items.value else []
  }

  /** The collection has exactly `n` pages. */
  predicate EndsAfter(serve: string -> Page, n: nat) {
    n > 0 && Cursor(serve, n - 1).Some?
    && var page := serve(Cursor(serve, n - 1).value); Readable(page) && page.next == Some("")
  }

  lemma {:induction false} EarlierCursors(serve: string -> Page, i: nat, j: nat)
    requires i <= j && Cursor(serve, j).Some?
    ensures Cursor(serve, i).Some?
    decreases j
  {
    if i < j { EarlierCursors(serve, i, j - 1); }
  }

  lemma {:induction false} SameOnwards(serve: string -> Page, i: nat, j: nat, k: nat)
    requires Cursor(serve, i) == Cursor(serve, j)
    ensures Cursor(serve, i + k) == Cursor(serve, j + k)
  {
    if k > 0 { SameOnwards(serve, i, j, k - 1); }
  }

  /** Going past the last page there is nothing. */
  lemma {:induction false} NothingAfter(serve: string -> Page, n: nat, m: nat)
    requires EndsAfter(serve, n) && n <= m
    ensures Cursor(serve, m).None?
    decreases m
  {
    if m > n { NothingAfter(serve, n, m - 1); }
  }

  /** A walk that has come round to an earlier cursor never ends. */
  lemma {:induction false} RepeatNeverEnds(serve: string -> Page, i: nat, j: nat, n: nat)
    requires i < j && Cursor(serve, j).Some? && Cursor(serve, i) == Cursor(serve, j)
    ensures !EndsAfter(serve, n)
  {
    if EndsAfter(serve, n) {
      if n <= j {
        NothingAfter(serve, n, j);
      } else {
        SameOnwards(serve, i, j, n - 1 - j);
        EarlierCursors(serve, i + (n - 1 - j) + 1, n - 1);
      }
    }
  }

  lemma {:induction false} RowsGrow(serve: string -> Page, i: nat, n: nat)
    requires i <= n
    ensures |RowsOf(serve, i)| <= |RowsOf(serve, n)|
    decreases n
  {
    if i < n { RowsGrow(serve, i, n - 1); }
  }

  /** The answer there is to be had: an end within 100 pages and 10000 rows. */
  predicate Attainable(serve: string -> Page, n: nat) {
    EndsAfter(serve, n) && n <= MAX_PAGES && |RowsOf(serve, n)| <= MAX_ITEMS
  }

  /** The cursors followed so far. */
  function Followed(serve: string -> Page, n: nat): set<string> {
    if n == 0 then {}
    else Followed(serve, n - 1) + match Cursor(serve, n) case None => {} case Some(c) => {c}
  }

  lemma {:induction false} FollowedAt(serve: string -> Page, n: nat, c: string) returns (i: nat)
    requires c in Followed(serve, n)
    ensures i <= n && Cursor(serve, i) == Some(c)
  {
    if Cursor(serve, n) == Some(c) { i := n; } else { i := FollowedAt(serve, n - 1, c); }
  }

  /** Why the page number `n`, all of whose cursors were new, ends the attempt. */
  predicate Hopeless(serve: string -> Page, n: nat) {
    Cursor(serve, n).Some?
    && var page := serve(Cursor(serve, n).value);
       || !Readable(page) || page.next.None? || |RowsOf(serve, n + 1)| > MAX_ITEMS
       || (page.next.value != "" && page.next.value in Followed(serve, n))
  }

  /** What `public` must answer. */
  ghost predicate Answers(serve: string -> Page, r: Result<seq<Row>, Trouble>) {
    && (forall n: nat :: Attainable(serve, n) ==> r == Ok(RowsOf(serve, n)))
    && (r.Ok? ==> exists n: nat :: Attainable(serve, n))
  }

  lemma HopelessHasNone(serve: string -> Page, n: nat, m: nat)
    requires Hopeless(serve, n)
    ensures !Attainable(serve, m)
  {
    var page := serve(Cursor(serve, n).value);
    if Attainable(serve, m) {
      if m <= n {
        NothingAfter(serve, m, n);
      } else {
        RowsGrow(serve, n + 1, m);
        if m > n + 1 { EarlierCursors(serve, n + 1, m - 1); }
        var i := FollowedAt(serve, n, page.next.value);
        RepeatNeverEnds(serve, i, n + 1, m);
      }
    }
  }

  lemma {:induction false} RightToStop(serve: string -> Page, n: nat, e: Trouble)
    requires Hopeless(serve, n) || (n >= MAX_PAGES && Cursor(serve, n).Some?)
    ensures Answers(serve, Stop(e))
  {
    forall m: nat ensures !Attainable(serve, m) {
      if Hopeless(serve, n) { HopelessHasNone(serve, n, m); } else if m <= n { NoEndYet(serve, n, m); }
    }
  }

  lemma {:induction false} RightToReturn(serve: string -> Page, n: nat)
    requires Attainable(serve, n)
    ensures Answers(serve, Ok(RowsOf(serve, n)))
  {
    forall m: nat | Attainable(serve, m) ensures m == n { OneEnd(serve, n, m); }
  }

  // ------------------------------------------------------------- in terms of the answers

  /** The whole list: from the empty cursor on, each page is readable and names the next, and the last one none. */
  ghost predicate Trail(serve: string -> Page, cursors: seq<string>) {
    && cursors != [] && cursors[0] == "" && (forall i :: 0 < i < |cursors| ==> cursors[i] != "")
    && (forall i :: 0 <= i < |cursors| ==> serve(cursors[i]).status == 200 && serve(cursors[i]).items.Some?)
    && (forall i :: 0 < i < |cursors| ==> serve(cursors[i - 1]).next == Some(cursors[i]))
    && serve(cursors[|cursors| - 1]).next == Some("")
  }

  /** The rows of these pages, one after the other. */
  function AllRows(serve: string -> Page, cursors: seq<string>): seq<Row> {
    if cursors == [] then []
    else
      var page := serve(cursors[|cursors| - 1]);
      AllRows(serve, cursors[..|cursors| - 1]) + if page.items.Some? then page.items.value else []
  }

  lemma {:induction false} TrailCursor(serve: string -> Page, cursors: seq<string>, i: nat)
    requires Trail(serve, cursors) && i < |cursors|
    ensures Cursor(serve, i) == Some(cursors[i])
  {
    if i > 0 { TrailCursor(serve, cursors, i - 1); }
  }

  lemma {:induction false} TrailRows(serve: string -> Page, cursors: seq<string>, n: nat)
    requires n <= |cursors| && forall i :: 0 <= i < n ==> Cursor(serve, i) == Some(cursors[i])
    ensures RowsOf(serve, n) == AllRows(serve, cursors[..n])
  {
    if n > 0 {
      assert cursors[..n][..n - 1] == cursors[..n - 1];
      TrailRows(serve, cursors, n - 1);
    }
  }

  /** A list that ends has a trail, and a trail is where a list ends. */
  lemma {:induction false} TrailEnds(serve: string -> Page, cursors: seq<string>)
    requires Trail(serve, cursors)
    ensures EndsAfter(serve, |cursors|) && RowsOf(serve, |cursors|) == AllRows(serve, cursors)
  {
    hide Cursor, RowsOf, AllRows;
    forall i | 0 <= i < |cursors| ensures Cursor(serve, i) == Some(cursors[i]) { TrailCursor(serve, cursors, i); }
    TrailRows(serve, cursors, |cursors|);
    assert cursors[..|cursors|] == cursors;
    var last := |cursors| - 1;
    assert Cursor(serve, last) == Some(cursors[last]) && serve(cursors[last]).next == Some("");
  }

  lemma {:induction false} EndHasTrail(serve: string -> Page, n: nat) returns (cursors: seq<string>)
    requires EndsAfter(serve, n)
    ensures |cursors| == n && Trail(serve, cursors)
  {
    hide Cursor;
    forall i | 0 <= i < n ensures Cursor(serve, i).Some? { EarlierCursors(serve, i, n - 1); }
    cursors := seq(n, i requires 0 <= i < n => Cursor(serve, i).value);
    FirstCursor(serve);
    assert cursors[0] == "" && serve(cursors[n - 1]).next == Some("");
    forall i | 0 < i < |cursors| ensures cursors[i] != "" && serve(cursors[i - 1]).next == Some(cursors[i]) {
      NextCursor(serve, i - 1);
    }
    forall i | 0 <= i < |cursors| ensures serve(cursors[i]).status == 200 && serve(cursors[i]).items.Some? {
      if i + 1 < n { NextCursor(serve, i); }
    }
  }

  lemma FirstCursor(serve: string -> Page)
    ensures Cursor(serve, 0) == Some("")
  {}

  lemma NextCursor(serve: string -> Page, i: nat)
    requires Cursor(serve, i + 1).Some?
    ensures Cursor(serve, i).Some? && Cursor(serve, i + 1).value != ""
    ensures var page := serve(Cursor(serve, i).value);
            page.status == 200 && page.items.Some? && page.next == Cursor(serve, i + 1)
  {}

  /** `public`. It succeeds exactly when the cursors lead to an end within 100 pages and 10000 rows, and
      then returns the rows of all pages in order. */
  method Public(serve: string -> Page) returns (r: Result<seq<Row>, Trouble>)
    ensures forall cursors :: Trail(serve, cursors) && |cursors| <= 100 && |AllRows(serve, cursors)| <= 10000 ==>
              r == Ok(AllRows(serve, cursors))
    ensures r.Ok? ==>
              exists cursors :: Trail(serve, cursors) && |cursors| <= 100 && |AllRows(serve, cursors)| <= 10000
                                && r.value == AllRows(serve, cursors)
  {
    hide Answers;
    r := Follow(serve);
    AnswersMean(serve, r);
  }

  lemma AnswersMean(serve: string -> Page, r: Result<seq<Row>, Trouble>)
    requires Answers(serve, r)
    ensures forall cursors :: Trail(serve, cursors) && |cursors| <= 100 && |AllRows(serve, cursors)| <= 10000 ==>
              r == Ok(AllRows(serve, cursors))
    ensures r.Ok? ==>
              exists cursors :: Trail(serve, cursors) && |cursors| <= 100 && |AllRows(serve, cursors)| <= 10000
                                && r.value == AllRows(serve, cursors)
  {
    hide Trail, EndsAfter, Cursor, RowsOf, AllRows;
    forall cursors | Trail(serve, cursors) && |cursors| <= 100 && |AllRows(serve, cursors)| <= 10000
      ensures r == Ok(AllRows(serve, cursors))
    {
      TrailEnds(serve, cursors);
      assert Attainable(serve, |cursors|);
    }
    if r.Ok? {
      var n: nat :| Attainable(serve, n);
      var cursors := EndHasTrail(serve, n);
      TrailEnds(serve, cursors);
    }
  }

  /** The loop of `public`. */
  method Follow(serve: string -> Page) returns (r: Result<seq<Row>, Trouble>)
    ensures Answers(serve, r)
  {
    var seen: set<string> := {};
    var items: seq<Row> := [];
    var cursor := "";
    var n := 0;
    while n < MAX_PAGES
      invariant n <= MAX_PAGES && Cursor(serve, n) == Some(cursor)
      invariant items == RowsOf(serve, n) && seen == Followed(serve, n)
    {
      var page := serve(cursor);
      if !Readable(page) {
        RightToStop(serve, n, Unavailable);
        return Stop(Unavailable);
      }
      items := items + page.items.value;
      assert items == RowsOf(serve, n + 1);
      if |items| > MAX_ITEMS {
        RightToStop(serve, n, TooManyItems);
        return Stop(TooManyItems);
      }
      if page.next == Some("") {
        RightToReturn(serve, n + 1);
        return Ok(items);
      }
      if !page.next.Some? || page.next.value in seen {
        RightToStop(serve, n, CursorRepeated);
        return Stop(CursorRepeated);
      }
      cursor := page.next.value;
      seen := seen + {cursor};
      n := n + 1;
    }
    RightToStop(serve, n, TooManyPages);
    r := Stop(TooManyPages);
  }

  lemma OneEnd(serve: string -> Page, n: nat, m: nat)
    requires EndsAfter(serve, n) && EndsAfter(serve, m)
    ensures n == m
  {
    if n < m { NothingAfter(serve, n, m - 1); }
    if m < n { NothingAfter(serve, m, n - 1); }
  }

  lemma {:induction false} NoEndYet(serve: string -> Page, n: nat, m: nat)
    requires Cursor(serve, n).Some? && m <= n
    ensures !EndsAfter(serve, m)
  {
    if EndsAfter(serve, m) { NothingAfter(serve, m, n); }
  }
}
