/** What the hardware driver hears: the server's operations, the answers it gave, and the script's tests
    on them. */
module FixtureAnswers {
  import opened Wrappers
  import Fingerprint
  import TimerInventory

  const CHANNEL := "C-1-1051-10301"
  const EXCLUDED := "C-1-1051-10301:0:1792447200:2100:2145"
  const UNCHANGED := "native-timer-modify:unchanged-after-uncertain-execution"

  datatype OpState = InProgress | OutcomeUnknown | Succeeded | FailedVerified | OtherFailure

  predicate Terminal(state: OpState) {
    state.Succeeded? || state.FailedVerified? || state.OtherFailure?
  }

  /** The database row behind both no-effect checks. */
  datatype Row = Row(
    state: OpState,
    reference: string,
    action: string,
    expected: Option<string>,
    observed: Option<string>,
    lastVerified: string,
    timerId: string,
    title: string,
    enabled: bool,
    recording: bool,
    pending: bool)

  /** What a detail read may say of a timer. */
  datatype Detail = Detail(
    timerId: string, title: string, enabled: bool, managed: bool, bound: bool,
    recording: bool, pending: bool, strongTag: bool)

  datatype Candidate = Candidate(beforeIds: seq<string>, title: string, day: string, startTime: string)

  /** An answer as it came in; a list answer is one complete read of the timer list, and a post answer the reply to a
      modifying request. */
  datatype Answer =
    | RowAnswer(operation: string, row: Row)
    | DetailAnswer(timer: string, status: int, detail: Detail)
    | ListAnswer(rows: seq<TimerInventory.TimerRow>)
    | PostAnswer(idempotencyKey: string, status: int, operation: string)

  /** The server's operations, and every answer it has given so far. */
  datatype Server = Server(ops: map<string, OpState>, heard: set<Answer>)

  /** The server may do anything to its operations but take back a terminal state, and an answer given
      stays given. */
  predicate Later(before: Server, after: Server) {
    && before.heard <= after.heard
    && forall op :: op in before.ops && Terminal(before.ops[op]) ==> op in after.ops && after.ops[op] == before.ops[op]
  }

  // ------------------------------------------------------------------ no effect

  /** `update_no_effect_verified`, given the row. */
  predicate UpdateHadNoEffect(row: Row, operation: string, timer: string, title: string) {
    && row.state.FailedVerified? && row.reference == UNCHANGED
    && Fingerprint.SameExceptEventId(row.expected, row.observed)
    && row.lastVerified != operation
    && row.timerId == timer && row.title == title
    && !row.recording && !row.pending
  }

  /** `failed_verified_no_effect`, given the row. */
  predicate ToggleHadNoEffect(row: Row, timer: string, title: string, enabled: bool) {
    && row.state.FailedVerified? && row.reference == UNCHANGED && row.action == "timer.toggle"
    && Fingerprint.SameExceptEventId(row.expected, row.observed)
    && row.timerId == timer && row.title == title && row.enabled == enabled
    && !row.recording && !row.pending
  }

  /** Both tests, value by value. */
  lemma HadNoEffectMeans(row: Row, operation: string, timer: string, title: string, enabled: bool)
    ensures var same :=
              && row.state == FailedVerified && row.reference == "native-timer-modify:unchanged-after-uncertain-execution"
              && Fingerprint.SameExceptEventId(row.expected, row.observed)
              && row.timerId == timer && row.title == title && row.recording == false && row.pending == false;
            && (UpdateHadNoEffect(row, operation, timer, title) <==> same && row.lastVerified != operation)
            && (ToggleHadNoEffect(row, timer, title, enabled) <==>
                  same && row.action == "timer.toggle" && row.enabled == enabled)
  {}

  // ---------------------------------------------------------------- the timers

  predicate AcceptableId(timer: string) {
    timer != "" && forall i :: 0 <= i < |timer| ==>
      || 'a' <= timer[i] <= 'z' || 'A' <= timer[i] <= 'Z' || '0' <= timer[i] <= '9'
      || timer[i] == ':' || timer[i] == '.' || timer[i] == '_' || timer[i] == '-'
  }

  lemma AcceptableMeans(timer: string)
    ensures AcceptableId(timer) <==>
            timer != "" && forall c :: c in timer ==>
              'a' <= c <= 'z' || 'A' <= c <= 'Z' || '0' <= c <= '9' || c in ":._-"
  {
    assert ":._-" == [':', '.', '_', '-'];
    if AcceptableId(timer) {
      forall c | c in timer ensures 'a' <= c <= 'z' || 'A' <= c <= 'Z' || '0' <= c <= '9' || c in ":._-" {
        var i :| 0 <= i < |timer| && timer[i] == c;
      }
    }
    assert forall i :: 0 <= i < |timer| ==> timer[i] in timer;
  }

  /** The one detail `valid_detail` takes: the timer as expected, managed, bound, idle and tagged. */
  function Expected(timer: string, title: string, enabled: bool): Detail {
    Detail(timer, title, enabled, true, true, false, false, true)
  }

  /** `str.zfill(4)`: zeros in front, behind a sign if there is one. */
  function Padded(s: string): string
    decreases 4 - |s|
  {
    if |s| >= 4 then s
    else if s != "" && (s[0] == '+' || s[0] == '-') then Padded([s[0]] + "0" + s[1..])
    else Padded("0" + s)
  }

  /** A time of fewer than four characters gets zeros in front, or behind its sign. */
  lemma {:induction false} PaddedMeans(s: string)
    ensures |s| >= 4 ==> Padded(s) == s
    ensures |s| < 4 && (s == "" || (s[0] != '+' && s[0] != '-')) ==> Padded(s) == "0000"[|s|..] + s
    ensures s != "" && |s| < 4 && (s[0] == '+' || s[0] == '-') ==> Padded(s) == [s[0]] + "0000"[|s|..] + s[1..]
  {
    if |s| < 4 {
      if s != "" && (s[0] == '+' || s[0] == '-') { PaddedBehindSign(s); } else { PaddedInFront(s); }
    }
  }

  lemma {:induction false} PaddedInFront(s: string)
    requires |s| <= 4 && (s == "" || (s[0] != '+' && s[0] != '-'))
    ensures Padded(s) == "0000"[|s|..] + s
    decreases 4 - |s|
  {
    if |s| == 4 {
      assert "0000"[4..] + s == s;
    } else {
      PaddedInFront("0" + s);
      assert "0000"[|s|..] == "0000"[|s| + 1..] + "0";
      assert "0000"[|s| + 1..] + ("0" + s) == "0000"[|s|..] + s;
    }
  }

  lemma {:induction false} PaddedBehindSign(s: string)
    requires 0 < |s| <= 4 && (s[0] == '+' || s[0] == '-')
    ensures Padded(s) == [s[0]] + "0000"[|s|..] + s[1..]
    decreases 4 - |s|
  {
    if |s| == 4 {
      assert [s[0]] + "0000"[4..] + s[1..] == s;
    } else {
      var t := [s[0]] + "0" + s[1..];
      PaddedBehindSign(t);
      assert t[1..] == "0" + s[1..] && t[0] == s[0];
      assert "0000"[|s|..] == "0000"[|s| + 1..] + "0";
      assert [s[0]] + "0000"[|s| + 1..] + ("0" + s[1..]) == [s[0]] + "0000"[|s|..] + s[1..];
    }
  }

  /** The filter of `find_fixture`. */
  predicate Matches(row: TimerInventory.TimerRow, c: Candidate) {
    && row.timerId.Some? && row.timerId.value !in c.beforeIds && row.timerId.value != EXCLUDED
    && row.channelId == CHANNEL && row.title == c.title && row.day == c.day
    && Padded(row.startTime) == c.startTime
  }

  function MatchingIds(rows: seq<TimerInventory.TimerRow>, c: Candidate): seq<string> {
    if rows == [] then []
    else
      (if Matches(rows[0], c) then [rows[0].timerId.value] else []) + MatchingIds(rows[1..], c)
  }

  /** A row of the fixture, field by field: a new ID, not the excluded one, on the fixed channel, with the event's title,
      day and time. */
  ghost predicate IsRowOf(row: TimerInventory.TimerRow, timer: string, c: Candidate) {
    && row.timerId == Some(timer) && timer !in c.beforeIds && timer != "C-1-1051-10301:0:1792447200:2100:2145"
    && row.channelId == "C-1-1051-10301" && row.title == c.title && row.day == c.day && Padded(row.startTime) == c.startTime
  }

  lemma {:induction false} MatchesAreRows(rows: seq<TimerInventory.TimerRow>, c: Candidate)
    ensures forall timer :: timer in MatchingIds(rows, c) <==> exists i :: 0 <= i < |rows| && IsRowOf(rows[i], timer, c)
  {
    if rows != [] {
      MatchesAreRows(rows[1..], c);
      forall timer
        ensures timer in MatchingIds(rows, c) <==> exists i :: 0 <= i < |rows| && IsRowOf(rows[i], timer, c)
      {
        if timer in MatchingIds(rows[1..], c) {
          var i :| 0 <= i < |rows[1..]| && IsRowOf(rows[1..][i], timer, c);
          assert IsRowOf(rows[i + 1], timer, c);
        }
        if i :| 0 <= i < |rows| && IsRowOf(rows[i], timer, c) {
          if i > 0 { assert IsRowOf(rows[1..][i - 1], timer, c); }
        }
      }
    }
  }

  /** The only match: one row of the fixture, and no row of another. */
  lemma {:induction false} OnlyMatch(rows: seq<TimerInventory.TimerRow>, c: Candidate, timer: string)
    requires TimerInventory.DistinctIds(rows)
    ensures MatchingIds(rows, c) == [timer] <==>
            && (exists i :: 0 <= i < |rows| && IsRowOf(rows[i], timer, c))
            && (forall i, other :: 0 <= i < |rows| && IsRowOf(rows[i], other, c) ==> other == timer)
  {
    MatchesAreRows(rows, c);
    MatchesDiffer(rows, c);
    var ids := MatchingIds(rows, c);
    hide MatchingIds, IsRowOf;
    if ids == [timer] {
      assert timer in ids;
      forall i, other | 0 <= i < |rows| && IsRowOf(rows[i], other, c) ensures other == timer { assert other in ids; }
    }
    if (exists i :: 0 <= i < |rows| && IsRowOf(rows[i], timer, c))
       && (forall i, other :: 0 <= i < |rows| && IsRowOf(rows[i], other, c) ==> other == timer)
    {
      assert timer in ids;
      forall k | 0 <= k < |ids| ensures ids[k] == timer { assert ids[k] in ids; }
      assert |ids| > 1 ==> ids[0] != ids[1];
    }
  }

  lemma {:induction false} HeadMatches(rows: seq<TimerInventory.TimerRow>, c: Candidate)
    requires rows != []
    ensures MatchingIds(rows, c)
            == if Matches(rows[0], c) then [rows[0].timerId.value] + MatchingIds(rows[1..], c) else MatchingIds(rows[1..], c)
  {
    assert [] + MatchingIds(rows[1..], c) == MatchingIds(rows[1..], c);
  }

  lemma {:induction false} MatchesDiffer(rows: seq<TimerInventory.TimerRow>, c: Candidate)
    requires TimerInventory.DistinctIds(rows)
    ensures forall i, k :: 0 <= i < k < |MatchingIds(rows, c)| ==> MatchingIds(rows, c)[i] != MatchingIds(rows, c)[k]
  {
    if rows != [] {
      var rest := rows[1..];
      assert TimerInventory.DistinctIds(rest) by {
        forall i | 0 <= i < |rest| ensures TimerInventory.ValidId(rest[i]) { assert rest[i] == rows[i + 1]; }
        forall i, k | 0 <= i < k < |rest| ensures rest[i].timerId != rest[k].timerId {
          assert rest[i] == rows[i + 1] && rest[k] == rows[k + 1];
        }
      }
      MatchesDiffer(rest, c);
      MatchesAreRows(rest, c);
      hide MatchingIds, Padded;
      HeadMatches(rows, c);
      if Matches(rows[0], c) {
        forall k | 0 <= k < |MatchingIds(rest, c)| ensures MatchingIds(rest, c)[k] != rows[0].timerId.value {
          var id := MatchingIds(rest, c)[k];
          assert id in MatchingIds(rest, c);
          var i :| 0 <= i < |rest| && IsRowOf(rest[i], id, c);
          assert rows[0].timerId != rows[i + 1].timerId;
        }
      }
    }
  }

  lemma {:induction false} MatchesAreNew(rows: seq<TimerInventory.TimerRow>, c: Candidate)
    ensures forall i :: 0 <= i < |MatchingIds(rows, c)| ==>
              MatchingIds(rows, c)[i] != EXCLUDED && MatchingIds(rows, c)[i] !in c.beforeIds
  {
    if rows != [] { MatchesAreNew(rows[1..], c); }
  }

  function RowIds(rows: seq<TimerInventory.TimerRow>): seq<string> {
    if rows == [] then []
    else (if rows[0].timerId.Some? then [rows[0].timerId.value] else []) + RowIds(rows[1..])
  }

  /** The IDs of a complete inventory: all of them, in their order. */
  lemma {:induction false} RowIdsAre(rows: seq<TimerInventory.TimerRow>)
    requires forall i :: 0 <= i < |rows| ==> rows[i].timerId.Some?
    ensures |RowIds(rows)| == |rows| && forall i :: 0 <= i < |rows| ==> RowIds(rows)[i] == rows[i].timerId.value
  {
    if rows != [] { RowIdsAre(rows[1..]); }
  }

  /** The IDs are those of one complete inventory, none left out. */
  ghost predicate IsBaseline(server: Server, c: Candidate) {
    exists rows :: ListAnswer(rows) in server.heard && TimerInventory.DistinctIds(rows) && c.beforeIds == RowIds(rows)
  }

  /** The timer is the only match in some complete inventory. */
  ghost predicate IsFixture(server: Server, c: Candidate, timer: string) {
    exists rows :: ListAnswer(rows) in server.heard && TimerInventory.DistinctIds(rows) && MatchingIds(rows, c) == [timer]
  }
}
