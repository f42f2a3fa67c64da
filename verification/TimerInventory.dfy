/** The bounded reader of the public timer list. */
module TimerInventory {
  import opened Wrappers

  /** One row of the list; the ID is None where it is missing or no string. */
  datatype TimerRow = TimerRow(timerId: Option<string>, channelId: string, title: string, day: string, startTime: string)

  /** What a GET of one page gives: no answer, or a status and the rows if they are a list. */
  datatype Reply = NoAnswer | Reply(code: int, rows: Option<seq<TimerRow>>)

  datatype Trouble = ReadFailed | Unavailable | Unbounded | InvalidOrRepeated | ExceedsLimit

  const PAGE := 30
  const PAGES := 16

  predicate ValidId(row: TimerRow) {
    row.timerId.Some? && row.timerId.value != ""
  }

  function Ids(rows: seq<TimerRow>): set<string> {
    set i | 0 <= i < |rows| && rows[i].timerId.Some? :: rows[i].timerId.value
  }

  /** Every ID is there, and none occurs twice. */
  ghost predicate DistinctIds(rows: seq<TimerRow>) {
    && (forall i :: 0 <= i < |rows| ==> ValidId(rows[i]))
    && (forall i, j :: 0 <= i < j < |rows| ==> rows[i].timerId != rows[j].timerId)
  }

  /** The rows an unchanging inventory shows at an offset. */
  function Window(inventory: seq<TimerRow>, offset: nat): seq<TimerRow> {
    if offset >= |inventory| then []
    else if offset + 30 >= |inventory| then inventory[offset..]
    else inventory[offset..offset + 30]
  }

  /** The server holds this inventory for as long as it is read. */
  ghost predicate Serves(serve: nat -> Reply, inventory: seq<TimerRow>) {
    DistinctIds(inventory) && forall n: nat :: serve(n * 30) == Reply(200, Some(Window(inventory, n * 30)))
  }

  /** The rows of the first `n` pages, put together. */
  function Pages(serve: nat -> Reply, n: nat): seq<TimerRow> {
    if n == 0 then []
    else
      var page := serve((n - 1) * 30);
      Pages(serve, n - 1) + if page.Reply? && page.rows.Some? then page.rows.value else []
  }

  /** The first `n` rows, or all of them. */
  function UpTo(inventory: seq<TimerRow>, n: nat): seq<TimerRow> {
    if n <= |inventory| then inventory[..n] else inventory
  }

  lemma NextWindow(inventory: seq<TimerRow>, offset: nat)
    ensures UpTo(inventory, offset) + Window(inventory, offset) == UpTo(inventory, offset + PAGE)
  {
    if offset >= |inventory| {
    } else if offset + PAGE >= |inventory| {
      assert inventory[..offset] + inventory[offset..] == inventory;
    } else {
      assert inventory[..offset] + inventory[offset..offset + PAGE] == inventory[..offset + PAGE];
    }
  }

  lemma DistinctUpTo(inventory: seq<TimerRow>, n: nat)
    requires DistinctIds(inventory)
    ensures DistinctIds(UpTo(inventory, n))
  {
    if n <= |inventory| {
      assert inventory[..n] + inventory[n..] == inventory;
      DistinctPrefix(inventory[..n], inventory[n..]);
    }
  }

  lemma {:induction false} StablePages(serve: nat -> Reply, inventory: seq<TimerRow>, n: nat)
    requires Serves(serve, inventory)
    ensures Pages(serve, n) == UpTo(inventory, n * PAGE)
    ensures DistinctIds(Pages(serve, n))
  {
    hide DistinctIds, Window, UpTo;
    DistinctUpTo(inventory, n * PAGE);
    if n == 0 {
      NothingUpTo(inventory);
    } else {
      StablePages(serve, inventory, n - 1);
      NextWindow(inventory, (n - 1) * PAGE);
      assert serve((n - 1) * PAGE) == Reply(200, Some(Window(inventory, (n - 1) * PAGE)));
    }
  }

  lemma NothingUpTo(inventory: seq<TimerRow>)
    ensures UpTo(inventory, 0) == []
  {}

  lemma DistinctMore(rows: seq<TimerRow>, row: TimerRow)
    requires DistinctIds(rows)
    ensures DistinctIds(rows + [row]) <==> ValidId(row) && row.timerId.value !in Ids(rows)
    ensures ValidId(row) ==> Ids(rows + [row]) == Ids(rows) + {row.timerId.value}
  {
    var all := rows + [row];
    assert all[|rows|] == row;
    forall id ensures id in Ids(all) <==> id in Ids(rows) || (row.timerId.Some? && id == row.timerId.value) {
      if id in Ids(rows) {
        var i :| 0 <= i < |rows| && rows[i].timerId.Some? && rows[i].timerId.value == id;
        assert all[i].timerId.Some? && all[i].timerId.value == id;
      }
    }
    if ValidId(row) && row.timerId.value in Ids(rows) {
      var i :| 0 <= i < |rows| && rows[i].timerId.Some? && rows[i].timerId.value == row.timerId.value;
      assert all[i].timerId == all[|rows|].timerId;
    }
  }

  lemma DistinctPrefix(rows: seq<TimerRow>, more: seq<TimerRow>)
    requires DistinctIds(rows + more)
    ensures DistinctIds(rows)
  {
    forall i | 0 <= i < |rows| ensures ValidId(rows[i]) { assert (rows + more)[i] == rows[i]; }
    forall i, j | 0 <= i < j < |rows| ensures rows[i].timerId != rows[j].timerId {
      assert (rows + more)[i] == rows[i] && (rows + more)[j] == rows[j];
    }
  }

  /** The inner loop of `timers`: the IDs with those of one more page, unless one is missing or known. */
  method AddPage(items: seq<TimerRow>, known: set<string>, page: seq<TimerRow>) returns (r: Option<set<string>>)
    requires DistinctIds(items) && known == Ids(items)
    ensures r.Some? <==> DistinctIds(items + page)
    ensures r.Some? ==> r.value == Ids(items + page)
  {
    var seen := known;
    assert items + page[..0] == items;
    for i := 0 to |page|
      invariant DistinctIds(items + page[..i]) && seen == Ids(items + page[..i])
    {
      var row := page[i];
      assert items + page[..i + 1] == (items + page[..i]) + [row];
      DistinctMore(items + page[..i], row);
      if !ValidId(row) || row.timerId.value in seen {
        if DistinctIds(items + page) {
          assert items + page == (items + page[..i + 1]) + page[i + 1..];
          DistinctPrefix(items + page[..i + 1], page[i + 1..]);
        }
        return None;
      }
      seen := seen + {row.timerId.value};
    }
    assert page[..|page|] == page;
    r := Some(seen);
  }

  lemma DistinctMeans(rows: seq<TimerRow>)
    ensures DistinctIds(rows) <==>
            && (forall i :: 0 <= i < |rows| ==> rows[i].timerId.Some? && rows[i].timerId.value != "")
            && forall i, j :: 0 <= i < j < |rows| ==> rows[i].timerId != rows[j].timerId
  {}

  lemma NothingRead(serve: nat -> Reply)
    ensures Pages(serve, 0) == [] && Ids([]) == {} && DistinctIds([])
  {}

  lemma OnePageMore(serve: nat -> Reply, n: nat)
    requires serve(n * PAGE).Reply? && serve(n * PAGE).rows.Some?
    ensures Pages(serve, n + 1) == Pages(serve, n) + serve(n * PAGE).rows.value
  {}

  /** `timers`. Whatever the server does, an answer has distinct IDs and at most 479 rows, and is what
      the pages up to the first short one held; a server that holds one inventory throughout gets it
      back whole if it has at most 479 rows, and is refused otherwise. */
  method Timers(serve: nat -> Reply) returns (r: Result<seq<TimerRow>, Trouble>)
    ensures r.Ok? ==> DistinctIds(r.value) && |r.value| <= 479
    ensures r.Ok? ==> forall i :: 0 <= i < |r.value| ==> r.value[i].timerId.Some? && r.value[i].timerId.value != ""
    ensures r.Ok? ==> forall i, j :: 0 <= i < j < |r.value| ==> r.value[i].timerId != r.value[j].timerId
    ensures r.Ok? ==> exists n :: 0 < n <= 16 && r.value == Pages(serve, n)
    ensures forall inventory :: Serves(serve, inventory) ==>
              r == if |inventory| <= 479 then Ok(inventory) else Stop(ExceedsLimit)
  {
    hide Pages, Serves, DistinctIds, Ids;
    var items: seq<TimerRow> := [];
    var known: set<string> := {};
    NothingRead(serve);
    for n := 0 to PAGES
      invariant items == Pages(serve, n) && known == Ids(items) && DistinctIds(items)
      invariant |items| == n * PAGE
      invariant forall inventory :: Serves(serve, inventory) ==> n * PAGE <= |inventory|
    {
      var answer := serve(n * PAGE);
      StablePageAt(serve, n);
      if answer.NoAnswer? { return Stop(ReadFailed); }
      if answer.code != 200 || answer.rows.None? { return Stop(Unavailable); }
      var page := answer.rows.value;
      if |page| > PAGE { return Stop(Unbounded); }
      var added := AddPage(items, known, page);
      if added.None? { return Stop(InvalidOrRepeated); }
      known := added.value;
      items := items + page;
      OnePageMore(serve, n);
      if |page| < PAGE {
        DistinctMeans(items);
        return Ok(items);
      }
    }
    r := Stop(ExceedsLimit);
  }

  /** What a stable server's next page looks like. */
  lemma {:induction false} StablePageAt(serve: nat -> Reply, n: nat)
    ensures forall inventory :: Serves(serve, inventory) && n * PAGE <= |inventory| ==>
              var answer := serve(n * PAGE);
              && answer.Reply? && answer.code == 200 && answer.rows.Some? && |answer.rows.value| <= PAGE
              && DistinctIds(Pages(serve, n) + answer.rows.value)
              && (|answer.rows.value| < PAGE ==>
                    Pages(serve, n) + answer.rows.value == inventory && |inventory| < (n + 1) * PAGE)
              && (|answer.rows.value| == PAGE ==> (n + 1) * PAGE <= |inventory|)
  {
    forall inventory | Serves(serve, inventory) && n * PAGE <= |inventory|
      ensures var answer := serve(n * PAGE);
              && answer == Reply(200, Some(Window(inventory, n * PAGE)))
              && DistinctIds(Pages(serve, n) + answer.rows.value)
              && (|answer.rows.value| < PAGE ==>
                    Pages(serve, n) + answer.rows.value == inventory && |inventory| < (n + 1) * PAGE)
              && (|answer.rows.value| == PAGE ==> (n + 1) * PAGE <= |inventory|)
    {
      StablePages(serve, inventory, n);
      StablePages(serve, inventory, n + 1);
      assert Pages(serve, n + 1) == Pages(serve, n) + serve(n * PAGE).rows.value;
    }
  }
}
