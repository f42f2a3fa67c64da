/** The driver's runs, call by call. Every method may be killed wherever it leaves a trace, and every answer
    of the server is arbitrary, except that a terminal operation state stays what it is. */
module FixtureDriver {
  import opened Wrappers
  import opened FixtureAnswers
  import opened FixtureJournal
  import TimerInventory

  const FRESH := Journal(None, None, "", false, map[])

  /** The requests added are of this run's mode, and their grounds are what this run had established. */
  ghost predicate Issued(before: seq<Post>, after: seq<Post>, mode: Mode, events: seq<Event>) {
    && before <= after
    && forall i :: |before| <= i < |after| ==> after[i].mode == mode && after[i].grounds <= events
  }

  lemma IssuedTwice(a: seq<Post>, b: seq<Post>, c: seq<Post>, mode: Mode, earlier: seq<Event>, events: seq<Event>)
    requires Issued(a, b, mode, earlier) && Issued(b, c, mode, events) && earlier <= events
    ensures Issued(a, c, mode, events)
  {
    forall i | |a| <= i < |c| ensures c[i].mode == mode && c[i].grounds <= events {
      if i < |b| { assert c[i] == b[i]; }
    }
  }

  /** At most one request was added, for this stage and on these grounds. */
  ghost predicate SentBy(before: seq<Post>, after: seq<Post>, stage: Stage, mode: Mode, grounds: seq<Event>) {
    after == before ||
    (|after| == |before| + 1 && before <= after && after[|before|].stage == stage
     && after[|before|].mode == mode && after[|before|].grounds == grounds)
  }

  /** The journals differ in one stage at most, and for UPDATE in the no-effect mark. */
  ghost predicate OnlyStage(before: Journal, after: Journal, stage: Stage) {
    && after == before.(noEffect := after.noEffect, stages := after.stages)
    && (stage != Update ==> after.noEffect == before.noEffect)
    && (forall s :: s != stage ==> (s in after.stages <==> s in before.stages))
    && (forall s :: s != stage && s in after.stages ==> after.stages[s] == before.stages[s])
  }

  lemma OnlyStageTwice(a: Journal, b: Journal, c: Journal, stage: Stage)
    ensures OnlyStage(a, b, stage) && OnlyStage(b, c, stage) ==> OnlyStage(a, c, stage)
  {}

  /** One more event, which settles the stage. */
  ghost predicate OneEnd(before: seq<Event>, after: seq<Event>, stage: Stage) {
    |after| == |before| + 1 && before <= after && Ends(after[|before|], stage)
  }

  // -------------------------------------------------------------- what may begin when

  /** What a stage needs of the journal and of the server before it may begin: what it stands behind once it is in
      the journal, and for TOGGLE_ON the request to switch off that belongs to the mode. */
  ghost predicate StageFacts(r2: bool, mode: Mode, j: Journal, server: Server, stage: Stage) {
    if stage == ToggleOn then Reads(j, server, if mode.ContinueR2? then ToggleOffRecovery else ToggleOff, Succeeded)
    else Due(r2, j, server, stage)
  }

  lemma FactsAreDue(r2: bool, mode: Mode, j: Journal, server: Server, stage: Stage)
    requires StagesOk(r2, j, server) && StageFacts(r2, mode, j, server, stage)
    requires stage == ToggleOn && ToggleOffRecovery in j.stages ==> mode.ContinueR2?
    ensures Due(r2, j, server, stage)
  {}

  /** What the journal's stages stand behind, in terms of the stages below them. */
  lemma StagesChain(r2: bool, j: Journal, server: Server)
    requires StagesOk(r2, j, server)
    ensures Update in j.stages ==> Create in j.stages
    ensures ToggleOff in j.stages ==> Update in j.stages
    ensures ToggleOffRecovery in j.stages ==> Reads(j, server, ToggleOff, FailedVerified)
    ensures ToggleOn in j.stages ==> ToggleOffRecovery in j.stages || Reads(j, server, ToggleOff, Succeeded)
    ensures Delete in j.stages ==> ToggleOn in j.stages
  {
    forall s ensures s in j.stages ==> Due(r2, j, server, s) {}
    UnchangedFailed(r2, j, server, Update);
    UnchangedFailed(r2, j, server, ToggleOff);
  }

  lemma NothingBeyond(r2: bool, j: Journal, server: Server, stage: Stage, mode: Mode)
    requires StagesOk(r2, j, server) && stage !in j.stages && FitsMode(stage, mode)
    requires StageFacts(r2, mode, j, server, stage)
    ensures forall t :: t in j.stages ==> Rank(t) < Rank(stage)
    ensures stage == ToggleOn && ToggleOffRecovery in j.stages ==> mode.ContinueR2?
  {
    hide StagesOk, ShownUnchanged;
    StagesChain(r2, j, server);
    UnchangedFailed(r2, j, server, ToggleOff);
  }

  /** Where the script submits a stage that has no record yet, the stage is next in line, all that has to be
      over before it is over, and the timer has just been read as it should be. */
  lemma MayBeginNow(r2: bool, j: Journal, sent: seq<Post>, server: Server,
                    stage: Stage, mode: Mode, grounds: seq<Event>)
    requires Good(r2, EXCLUDED, Some(j), sent, server) && stage !in j.stages && j.candidate.Some?
    requires StageFacts(r2, mode, j, server, stage) && FitsMode(stage, mode)
    requires AllSettled(Earlier(stage, mode), mode, grounds) && AllHold(r2, j, server, grounds)
    requires stage != Create ==>
               && j.timerId.Some? && grounds != []
               && grounds[|grounds| - 1] == Checked(Expected(j.timerId.value, TitleDue(r2, j.initialTitle, stage, grounds), stage != ToggleOn))
    ensures MayBegin(r2, j, server, stage, mode, grounds)
    ensures forall s :: s in Earlier(stage, mode) ==> Over(r2, j, server, s, mode)
  {
    hide SentOk, TimerOk;
    NothingBeyond(r2, j, server, stage, mode);
    FactsAreDue(r2, mode, j, server, stage);
    forall s | s in Earlier(stage, mode) ensures Over(r2, j, server, s, mode) {
      SettledIsOver(r2, j, server, s, mode, grounds);
    }
  }

  lemma SettledIsOver(r2: bool, j: Journal, server: Server, s: Stage, mode: Mode, grounds: seq<Event>)
    requires Settled(s, mode, grounds) && AllHold(r2, j, server, grounds)
    ensures Over(r2, j, server, s, mode)
  {
    var k :| 0 <= k < |grounds| && Settles(grounds[k], s, mode);
    assert Holds(r2, j, server, grounds[k]);
    if grounds[k].NoEffect? { assert Unchanged(r2, j, server, s, grounds[k].row); }
  }

  lemma FactsKept(r2: bool, mode: Mode, j: Journal, before: Server, after: Server, stage: Stage)
    requires StageFacts(r2, mode, j, before, stage) && Later(before, after)
    ensures StageFacts(r2, mode, j, after, stage)
  {
    forall s: Stage
      ensures Reads(j, before, s, Succeeded) ==> Reads(j, after, s, Succeeded)
      ensures ShownUnchanged(r2, j, before, s) ==> ShownUnchanged(r2, j, after, s)
    {
      StillUnchanged(r2, j, j, before, after, s);
    }
  }

  lemma SettledMore(stages: set<Stage>, mode: Mode, before: seq<Event>, after: seq<Event>)
    requires before <= after && AllSettled(stages, mode, before)
    ensures AllSettled(stages, mode, after)
  {
    forall s | s in stages ensures Settled(s, mode, after) {
      assert Settled(s, mode, before);
      var k :| 0 <= k < |before| && Settles(before[k], s, mode);
      assert Settles(after[k], s, mode);
    }
  }

  lemma SettledOne(stages: set<Stage>, mode: Mode, before: seq<Event>, after: seq<Event>, stage: Stage)
    requires before <= after && |before| < |after| && AllSettled(stages, mode, before)
    requires Settles(after[|before|], stage, mode)
    ensures AllSettled(stages + {stage}, mode, after)
  {
    SettledMore(stages, mode, before, after);
    assert Settled(stage, mode, after);
  }

  lemma RecoveryBehindToggle(mode: Mode)
    ensures Earlier(ToggleOffRecovery, mode) == {Create, Update} + {ToggleOff} == {Create, Update, ToggleOff}
  {}

  lemma RecoveryComesLast(mode: Mode, grounds: seq<Event>)
    requires mode.ContinueR2?
    ensures AllSettled(Earlier(ToggleOffRecovery, mode) + {ToggleOffRecovery}, mode, grounds) ==>
              AllSettled(Earlier(ToggleOn, mode), mode, grounds)
  {}

  lemma OnBehindOff(mode: Mode)
    ensures !mode.ContinueR2? ==> Earlier(ToggleOn, mode) == Earlier(ToggleOff, mode) + {ToggleOff}
  {}

  lemma DeleteComesLast(mode: Mode)
    ensures Earlier(Delete, mode) == Earlier(ToggleOn, mode) + {ToggleOn} && Update in Earlier(Delete, mode)
  {}

  /** Once UPDATE is over, the mark in the journal says which way it ended in this run. */
  lemma MarkAgrees(r2: bool, j: Journal, server: Server, mode: Mode, events: seq<Event>)
    requires StagesOk(r2, j, server) && AllHold(r2, j, server, events) && Settled(Update, mode, events)
    ensures j.noEffect <==> UpdateMissed(events)
  {
    var k :| 0 <= k < |events| && Settles(events[k], Update, mode);
    assert Holds(r2, j, server, events[k]);
    if j.noEffect { var row :| Unchanged(r2, j, server, Update, row); }
    if UpdateMissed(events) {
      var i :| 0 <= i < |events| && events[i].NoEffect? && events[i].stage == Update;
      assert Holds(r2, j, server, events[i]);
    }
  }

  lemma CheckedMissesNothing(events: seq<Event>, detail: Detail)
    ensures UpdateMissed(events + [Checked(detail)]) == UpdateMissed(events)
  {
    var all := events + [Checked(detail)];
    if UpdateMissed(events) {
      var i :| 0 <= i < |events| && events[i].NoEffect? && events[i].stage == Update;
      assert all[i] == events[i];
    }
    if UpdateMissed(all) {
      var i :| 0 <= i < |all| && all[i].NoEffect? && all[i].stage == Update;
      assert i < |events| && events[i] == all[i];
    }
  }

  /** The operation's success, read off the event. */
  lemma EndedWell(r2: bool, j: Journal, server: Server, before: seq<Event>, after: seq<Event>, stage: Stage)
    requires OneEnd(before, after, stage) && AllHold(r2, j, server, after)
    ensures stage != Update ==> Reads(j, server, stage, Succeeded)
    ensures stage == Update ==> Reads(j, server, Update, Succeeded) || ShownUnchanged(r2, j, server, Update)
  {
    var e := after[|before|];
    assert Holds(r2, j, server, e);
    if e.NoEffect? { assert Unchanged(r2, j, server, stage, e.row); }
  }

  lemma OneMoreHolds(r2: bool, j: Journal, server: Server, events: seq<Event>, e: Event)
    requires AllHold(r2, j, server, events) && Holds(r2, j, server, e)
    ensures AllHold(r2, j, server, events + [e])
  {}

  lemma NothingIssued(sent: seq<Post>, mode: Mode, events: seq<Event>)
    ensures Issued(sent, sent, mode, events)
  {}

  lemma LaterTwice(a: Server, b: Server, c: Server)
    requires Later(a, b) && Later(b, c)
    ensures Later(a, c)
  {}

  lemma StillThere(server: Server)
    ensures Later(server, server)
  {}

  lemma RowSaysFailed(row: Row, operation: string, timer: string, title: string)
    requires UpdateHadNoEffect(row, operation, timer, title)
    ensures row.state.FailedVerified?
  {}

  lemma ToggleRowSaysFailed(row: Row, timer: string, title: string, enabled: bool)
    requires ToggleHadNoEffect(row, timer, title, enabled)
    ensures row.state.FailedVerified?
  {}

  lemma NothingClaimed(r2: bool, j: Journal, server: Server)
    ensures AllHold(r2, j, server, []) && AllSettled({}, Plain, [])
  {}

  /** The title of the timer from UPDATE on. */
  function ToggleTitle(r2: bool, j: Journal): string {
    if j.noEffect then j.initialTitle else UpdatedTitle(r2, j.initialTitle)
  }

  lemma ToggleTitleIsDue(r2: bool, j: Journal, sent: seq<Post>, server: Server, stages: set<Stage>, mode: Mode,
                         events: seq<Event>, stage: Stage)
    requires Good(r2, EXCLUDED, Some(j), sent, server) && AllHold(r2, j, server, events)
    requires Update in stages && AllSettled(stages, mode, events) && stage != Update
    ensures ToggleTitle(r2, j) == TitleDue(r2, j.initialTitle, stage, events)
    ensures j.noEffect <==> UpdateMissed(events)
  {
    MarkAgrees(r2, j, server, mode, events);
  }

  // ------------------------------------------------------------------ single changes

  lemma FreshIsGood(r2: bool, sent: seq<Post>, server: Server)
    requires Good(r2, EXCLUDED, None, sent, server)
    ensures Good(r2, EXCLUDED, Some(FRESH), sent, server)
  {
    assert SentSet(sent) == {};
    NothingListed(STAGES);
  }

  lemma ChosenIsGood(r2: bool, j: Journal, sent: seq<Post>, server: Server, c: Candidate)
    requires Good(r2, EXCLUDED, Some(j), sent, server) && j.candidate.None? && IsBaseline(server, c)
    ensures Good(r2, EXCLUDED, Some(j.(candidate := Some(c))), sent, server)
    ensures Extends(j, j.(candidate := Some(c)))
  {
    assert |sent| > 0 ==> PostOk(r2, j, server, sent[0]);
    StillStaged(r2, j, j.(candidate := Some(c)), server, server);
  }

  /** Adopting the found timer. */
  lemma FoundIsGood(r2: bool, j: Journal, sent: seq<Post>, server: Server, timer: string, title: string)
    requires Good(r2, EXCLUDED, Some(j), sent, server) && j.candidate.Some? && j.timerId.None?
    requires Reads(j, server, Create, Succeeded) && IsFixture(server, j.candidate.value, timer)
    ensures Good(r2, EXCLUDED, Some(j.(timerId := Some(timer), initialTitle := title)), sent, server)
    ensures Extends(j, j.(timerId := Some(timer), initialTitle := title))
  {
    var n := j.(timerId := Some(timer), initialTitle := title);
    var rows :| ListAnswer(rows) in server.heard && TimerInventory.DistinctIds(rows) && MatchingIds(rows, j.candidate.value) == [timer];
    MatchesAreNew(rows, j.candidate.value);
    assert MatchingIds(rows, j.candidate.value)[0] == timer;
    StillStaged(r2, j, n, server, server);
    StillSent(r2, j, n, server, server, sent);
  }

  // --------------------------------------------------------------- helpful surroundings

  /** With all five stages accepted, the five requests went out, in their order. */
  lemma {:induction false} AllWereSent(r2: bool, j: Journal, sent: seq<Post>, server: Server)
    requires Good(r2, EXCLUDED, Some(j), sent, server)
    ensures Smooth(j, server) && j.stages.Keys == {Create, Update, ToggleOff, ToggleOn, Delete} ==>
              SentStages(sent) == [Create, Update, ToggleOff, ToggleOn, Delete]
  {
    hide StagesOk, TimerOk, PostOk, ListingTo, HasFailed;
    if Smooth(j, server) && j.stages.Keys == {Create, Update, ToggleOff, ToggleOn, Delete} {
      assert forall stage :: stage in SentSet(sent) <==> stage in j.stages.Keys;
      AllListed(SentSet(sent));
    }
  }

  lemma AllListed(s: set<Stage>)
    requires forall stage :: stage in s <==> stage != ToggleOffRecovery
    ensures Listing(s) == [Create, Update, ToggleOff, ToggleOn, Delete]
  {
    hide ListingTo;
    ListingNext(s, 0);
    ListingNext(s, 1);
    ListingNext(s, 2);
    ListingNext(s, 3);
    ListingNext(s, 4);
    ListingNext(s, 5);
  }

  predicate HasFailed(server: Server, operation: string) {
    operation in server.ops && (server.ops[operation].FailedVerified? || server.ops[operation].OtherFailure?)
  }

  /** Nothing has gone wrong so far: every request was accepted, and no operation has failed. */
  ghost predicate Smooth(j: Journal, server: Server) {
    !j.noEffect && forall s :: s in j.stages ==> j.stages[s].Accepted? && !HasFailed(server, j.stages[s].operation)
  }

  /** The timer as the accepted requests have made it. */
  function DetailShown(r2: bool, j: Journal, timer: string): Detail {
    Detail(timer, if IsAccepted(j, Update) then UpdatedTitle(r2, j.initialTitle) else j.initialTitle,
           !IsAccepted(j, ToggleOff) || IsAccepted(j, ToggleOn), true, true, false, false, true)
  }

  /** The timer is to be read just as the accepted requests have made it. */
  predicate AsShown(r2: bool, j: Journal, title: string, enabled: bool) {
    && title == (if IsAccepted(j, Update) then UpdatedTitle(r2, j.initialTitle) else j.initialTitle)
    && enabled == (!IsAccepted(j, ToggleOff) || IsAccepted(j, ToggleOn))
  }

  /** Which is what the script expects as long as all goes well. */
  lemma SmoothIsShown(r2: bool, j: Journal, server: Server, stages: set<Stage>)
    requires j.stages.Keys == stages && Update in stages
    ensures Smooth(j, server) ==>
              !j.noEffect && AsShown(r2, j, ToggleTitle(r2, j), ToggleOff !in stages || ToggleOn in stages)
  {}

  lemma SmoothStill(j: Journal, n: Journal, before: Server, after: Server)
    requires n.stages == j.stages && n.noEffect == j.noEffect
    ensures after.ops == before.ops ==> (Smooth(j, before) <==> Smooth(n, after))
    ensures j.stages == map[] && !j.noEffect ==> Smooth(j, before)
  {}

  lemma SameTitle(r2: bool, before: Journal, after: Journal, stage: Stage)
    ensures OnlyStage(before, after, stage) && stage != Update ==> ToggleTitle(r2, after) == ToggleTitle(r2, before)
  {}

  lemma OneStageMore(before: Journal, after: Journal, stage: Stage)
    ensures OnlyStage(before, after, stage) && stage in after.stages ==>
              after.stages.Keys == before.stages.Keys + {stage}
              && after.timerId == before.timerId && after.candidate == before.candidate
  {}

  /** A list with one timer: any before the event is chosen, and the one CREATE has made afterwards. */
  function RowsShown(j: Journal, timer: string): seq<TimerInventory.TimerRow> {
    match j.candidate
    case None => [TimerInventory.TimerRow(Some(timer), "", "", "", "")]
    case Some(c) => [TimerInventory.TimerRow(Some(timer), CHANNEL, c.title, c.day, c.startTime)]
  }

  /** A name that is not taken yet. */
  method NewName(taken: set<string>) returns (name: string)
    ensures name !in taken && AcceptableId(name) && |name| > 100
  {
    name := seq(101, i => 'a');
    var left := taken;
    while left != {}
      invariant AcceptableId(name) && |name| > 100
      invariant left <= taken && forall other :: other in taken && other !in left ==> |other| < |name|
    {
      var other :| other in left;
      name := name + seq(|other|, i => 'a');
      left := left - {other};
    }
  }

  lemma ShownOnce(j: Journal, timer: string)
    requires timer != "" && |timer| > 100
    ensures TimerInventory.DistinctIds(RowsShown(j, timer)) && |RowsShown(j, timer)| == 1
    ensures RowIds(RowsShown(j, timer)) == [timer]
    ensures j.candidate.Some? && timer !in j.candidate.value.beforeIds && |j.candidate.value.startTime| >= 4 ==>
              MatchingIds(RowsShown(j, timer), j.candidate.value) == [timer]
  {
    var rows := RowsShown(j, timer);
    assert rows[1..] == [];
    ShortId(EXCLUDED);
  }

  /** A server that holds these rows throughout. */
  function Serving(rows: seq<TimerInventory.TimerRow>): (serve: nat -> TimerInventory.Reply)
    ensures TimerInventory.DistinctIds(rows) ==> TimerInventory.Serves(serve, rows)
  {
    (n: nat) => TimerInventory.Reply(200, Some(TimerInventory.Window(rows, n)))
  }

  lemma ShortId(s: string)
    requires s == EXCLUDED
    ensures |s| < 100
  {}

  class Driver {
    /** Which of the two journals this is. */
    const r2: bool
    /** The journal file. */
    var stored: Option<Journal>
    /** Every modifying request of every run. */
    var sent: seq<Post>
    /** The server's operations, and all it has answered. */
    var server: Server
    /** The current run: its mode, its copy of the journal, what it has established. */
    var mode: Mode
    var journal: Journal
    var events: seq<Event>
    /** Whether in this run the surroundings help: nobody kills the process, every call is answered, and every request
        is accepted and succeeds. */
    var kind: bool

    constructor (r2: bool)
      ensures this.r2 == r2 && Safe() && sent == [] && stored == None
    {
      this.r2, stored, sent, server := r2, None, [], Server(map[], {});
      mode, journal, events, kind := Plain, FRESH, [], false;
    }

    /** What holds at every instant of every run, killed or not. */
    ghost predicate Safe()
      reads this
    {
      Good(r2, EXCLUDED, stored, sent, server)
    }

    /** The run and the file agree, and all the run has established is true. */
    ghost predicate Synced()
      reads this
    {
      Safe() && stored == Some(journal) && AllHold(r2, journal, server, events)
    }

    // ---------------------------------------------------------------- the server

    /** Time passes, or answers come in. */
    method Elapse(next: Server)
      requires Synced()
      modifies this`server
      ensures Synced() && Later(old(server), server)
      ensures server == if Later(old(server), next) then next else old(server)
    {
      hide Good, AllHold;
      if Later(server, next) {
        StillGood(r2, EXCLUDED, stored, sent, server, next);
        StillHolds(r2, journal, journal, server, next, events);
        server := next;
      }
    }

    /** GET of an operation: its state, if it can be read. */
    method ReadOperation(operation: string) returns (state: Option<OpState>)
      requires Synced()
      modifies this`server
      ensures Synced() && Later(old(server), server)
      ensures kind && !HasFailed(old(server), operation) ==>
                state == Some(Succeeded) && server.ops == old(server).ops[operation := Succeeded]
      ensures state.Some? ==> operation in server.ops && server.ops[operation] == state.value
    {
      hide Good, AllHold;
      var next: Server := *;
      if kind { next := server.(ops := server.ops[operation := Succeeded]); }
      Elapse(next);
      var readable: bool := *;
      state := if (kind || readable) && operation in server.ops then Some(server.ops[operation]) else None;
    }

    /** The database row of an operation, if it can be read; it reports the operation's state. */
    method ReadRow(operation: string) returns (row: Option<Row>)
      requires Synced()
      modifies this`server
      ensures Synced() && Later(old(server), server) && server.ops == old(server).ops
      ensures row.Some? ==>
                && RowAnswer(operation, row.value) in server.heard
                && operation in server.ops && server.ops[operation] == row.value.state
    {
      hide Good, AllHold;
      row := *;
      if row.Some? && !(operation in server.ops && server.ops[operation] == row.value.state) { row := None; }
      if row.Some? { Elapse(server.(heard := server.heard + {RowAnswer(operation, row.value)})); }
    }

    /** GET of the timer: the status, and what came with it. */
    method ReadDetail(timer: string) returns (status: int, detail: Detail)
      requires Synced()
      modifies this`server
      ensures Synced() && Later(old(server), server)
      ensures DetailAnswer(timer, status, detail) in server.heard
      ensures kind ==> status == 200 && detail == DetailShown(r2, journal, timer) && server.ops == old(server).ops
    {
      hide Good, AllHold;
      var next: Server := *;
      if kind { next := server; }
      Elapse(next);
      status, detail := *, *;
      if kind { status, detail := 200, DetailShown(r2, journal, timer); }
      Elapse(server.(heard := server.heard + {DetailAnswer(timer, status, detail)}));
    }

    /** `timers`, against a server that answers as it likes. None if the run stops. */
    method ReadTimers() returns (rows: Option<seq<TimerInventory.TimerRow>>)
      requires Synced()
      modifies this`server
      ensures Synced() && Later(old(server), server)
      ensures rows.Some? ==> ListAnswer(rows.value) in server.heard && TimerInventory.DistinctIds(rows.value)
      ensures kind ==>
                && server.ops == old(server).ops && rows.Some?
                && exists timer :: rows.value == RowsShown(journal, timer) && AcceptableId(timer) && |timer| > 100
                                   && (journal.candidate.Some? ==> timer !in journal.candidate.value.beforeIds)
    {
      hide Good, AllHold, AcceptableId, RowsShown;
      var next: Server := *;
      if kind { next := server; }
      Elapse(next);
      var serve: nat -> TimerInventory.Reply := *;
      var timer := NewName(if journal.candidate.Some? then set id | id in journal.candidate.value.beforeIds else {});
      if kind {
        var shown := RowsShown(journal, timer);
        ShownOnce(journal, timer);
        serve := Serving(shown);
      }
      var read := TimerInventory.Timers(serve);
      if !read.Ok? { return None; }
      Elapse(server.(heard := server.heard + {ListAnswer(read.value)}));
      rows := Some(read.value);
    }

    // ---------------------------------------------------------------- the journal

    /** `save`: write, sync, rename. False if the run was killed before or after the rename. */
    method Save() returns (alive: bool)
      requires Safe() && Good(r2, EXCLUDED, Some(journal), sent, server)
      modifies this`stored
      ensures Safe()
      ensures stored == old(stored) || stored == Some(journal)
      ensures alive ==> stored == Some(journal)
      ensures kind ==> alive
    {
      hide Good;
      var killed: bool := *;
      if !kind && killed { return false; }
      stored := Some(journal);
      alive := *;
      alive := kind || alive;
    }

    // ---------------------------------------------------------------- one stage

    /** The UPDATE is shown to have changed nothing: the mark made durable. */
    method MarkUpdate(operation: string, row: Row) returns (alive: bool)
      requires Synced() && Unchanged(r2, journal, server, Update, row) && journal.stages[Update].operation == operation
      modifies this`journal, this`stored, this`events
      ensures Safe() && journal == old(journal).(noEffect := true)
      ensures events == old(events) + (if alive then [NoEffect(Update, operation, row)] else [])
      ensures alive ==> Synced()
    {
      hide Good, AllHold, UpdateHadNoEffect;
      ghost var before := journal;
      MarkedIsGood(r2, EXCLUDED, journal, sent, server);
      StillHolds(r2, journal, journal.(noEffect := true), server, server, events);
      journal := journal.(noEffect := true);
      alive := Save();
      if !alive { return; }
      assert Unchanged(r2, journal, server, Update, row);
      OneMoreHolds(r2, journal, server, events, NoEffect(Update, operation, row));
      events := events + [NoEffect(Update, operation, row)];
    }

    /** `operation`: waits for the stage's operation to end well. False if the run stopped. What it adds to the
        run's events is true, as `Synced` says: the operation succeeded, or it is UPDATE's, failed, and a
        row passed all the tests of the no-effect check. */
    method Operation(stage: Stage) returns (alive: bool)
      requires Synced() && stage in journal.stages
      modifies this`server, this`journal, this`stored, this`events
      ensures Safe() && Later(old(server), server) && old(events) <= events
      ensures alive ==> Synced() && IsAccepted(journal, stage) && OneEnd(old(events), events, stage)
      ensures journal == old(journal).(noEffect := journal.noEffect)
      ensures stage != Update ==> journal == old(journal)
      ensures kind && old(Smooth(journal, server)) ==> alive && journal == old(journal) && Smooth(journal, server)
    {
      hide Good, AllHold, UpdateHadNoEffect;
      var record := journal.stages[stage];
      if record.Unknown? { return false; }
      var operation := record.operation;
      for attempt := 0 to 45
        invariant Synced() && Later(old(server), server)
        invariant journal == old(journal) && events == old(events)
        invariant kind && old(Smooth(journal, server)) ==> attempt == 0 && server == old(server)
      {
        var state := ReadOperation(operation);
        if state.None? { return false; }
        if state.value.Succeeded? {
          OneMoreHolds(r2, journal, server, events, Confirmed(stage, operation));
          events := events + [Confirmed(stage, operation)];
          return true;
        }
        if state.value.FailedVerified? && stage == Update {
          var row := ReadRow(operation);
          if row.Some? && journal.timerId.Some?
             && UpdateHadNoEffect(row.value, operation, journal.timerId.value, journal.initialTitle)
          {
            RowSaysFailed(row.value, operation, journal.timerId.value, journal.initialTitle);
            alive := MarkUpdate(operation, row.value);
            return;
          }
        }
        if Terminal(state.value) { return false; }
      }
      alive := false;
    }

    /** The first half of `submit`: a fresh key, and the intention made durable. */
    method Intend(stage: Stage) returns (alive: bool, key: string)
      requires Synced() && MayBegin(r2, journal, server, stage, mode, events)
      modifies this`journal, this`stored
      ensures Safe()
      ensures journal == Noted(old(journal), stage, Unknown(key)) && journal.candidate.Some?
      ensures OnlyStage(old(journal), journal, stage)
      ensures alive ==> Synced()
      ensures kind ==> alive
      ensures Good(r2, EXCLUDED, Some(journal), sent + [PostFor(journal, stage, key, mode, events)], server)
    {
      hide Good, MayBegin, AllHold;
      key := *;
      SendingIsGood(r2, EXCLUDED, journal, sent, server, stage, mode, events, key);
      NotedExtends(journal, stage, Unknown(key));
      StillHolds(r2, journal, Noted(journal, stage, Unknown(key)), server, server, events);
      journal := Noted(journal, stage, Unknown(key));
      alive := Save();
    }

    /** The request, once the intention is durable: sent, unless the run was killed before it was. */
    method Request(stage: Stage, key: string) returns (alive: bool, reply: Option<string>)
      requires Synced() && journal.candidate.Some?
      requires Good(r2, EXCLUDED, Some(journal), sent + [PostFor(journal, stage, key, mode, events)], server)
      modifies this`server, this`sent
      ensures Synced() && Later(old(server), server)
      ensures SentBy(old(sent), sent, stage, mode, events)
      ensures alive ==> stage in SentSet(sent) && reply.Some? && PostAnswer(key, 202, reply.value) in server.heard
      ensures kind ==> alive && server.ops == old(server).ops && reply.value !in server.ops
    {
      hide Good, AllHold, AcceptableId;
      var killed: bool := *;
      if !kind && killed { return false, None; }
      var post := PostFor(journal, stage, key, mode, events);
      SentMore(sent, post);
      sent := sent + [post];
      var next: Server := *;
      if kind { next := server; }
      Elapse(next);
      var code: int := *;
      reply := *;
      if kind {
        var operation := NewName(server.ops.Keys);
        code, reply := 202, Some(operation);
      }
      if code != 202 || !reply.Some? { return false, reply; }
      Elapse(server.(heard := server.heard + {PostAnswer(key, code, reply.value)}));
      alive := *;
      alive := kind || alive;
    }

    /** The second half of `submit`: the acceptance made durable. */
    method Conclude(stage: Stage, key: string, operation: string) returns (alive: bool)
      requires Synced() && stage in journal.stages && journal.stages[stage] == Unknown(key) && stage in SentSet(sent)
      requires PostAnswer(key, 202, operation) in server.heard
      modifies this`journal, this`stored
      ensures Safe()
      ensures journal == Noted(old(journal), stage, Accepted(operation, key))
      ensures alive ==> Synced() && OnlyStage(old(journal), journal, stage)
      ensures kind ==> alive
    {
      hide Good, AllHold;
      AcceptedIsGood(r2, EXCLUDED, journal, sent, server, stage, operation, key);
      StillHolds(r2, journal, Noted(journal, stage, Accepted(operation, key)), server, server, events);
      journal := Noted(journal, stage, Accepted(operation, key));
      alive := Save();
    }

    /** The branch of `submit` for a stage without a record. */
    method SubmitNew(stage: Stage) returns (alive: bool)
      requires Synced() && MayBegin(r2, journal, server, stage, mode, events)
      modifies this`server, this`journal, this`stored, this`sent
      ensures Safe() && Later(old(server), server)
      ensures SentBy(old(sent), sent, stage, mode, events)
      ensures alive ==> Synced() && IsAccepted(journal, stage) && OnlyStage(old(journal), journal, stage)
      ensures kind && old(Smooth(journal, server)) ==> alive && Smooth(journal, server)
    {
      hide Good, MayBegin, AllHold, Later;
      var key: string;
      var reply: Option<string>;
      ghost var before := journal;
      alive, key := Intend(stage);
      if !alive {
        StillThere(server);
        return;
      }
      ghost var noted := journal;
      alive, reply := Request(stage, key);
      if !alive { return; }
      alive := Conclude(stage, key, reply.value);
      OnlyStageTwice(before, noted, journal, stage);
    }

    /** `submit`: the intention is durable before the request goes out, and a stage with a record is never
        sent again. False if the run stopped or was killed. */
    method Submit(stage: Stage) returns (alive: bool)
      requires Synced()
      requires stage in journal.stages || MayBegin(r2, journal, server, stage, mode, events)
      modifies this`server, this`journal, this`stored, this`events, this`sent
      ensures Safe() && Later(old(server), server) && old(events) <= events
      ensures SentBy(old(sent), sent, stage, mode, old(events))
      ensures stage in old(journal).stages ==> sent == old(sent)
      ensures alive ==> Synced() && IsAccepted(journal, stage) && OnlyStage(old(journal), journal, stage)
      ensures alive ==> OneEnd(old(events), events, stage)
      ensures kind && old(Smooth(journal, server)) ==> alive && Smooth(journal, server)
    {
      hide Good, MayBegin, AllHold, Later;
      ghost var (before, first) := (journal, server);
      if stage !in journal.stages {
        alive := SubmitNew(stage);
        if !alive { return; }
      } else {
        StillThere(server);
      }
      ghost var (submitted, second) := (journal, server);
      alive := Operation(stage);
      LaterTwice(first, second, server);
      OnlyStageTwice(before, submitted, journal, stage);
    }

    /** `valid_detail`: polls until the timer reads as expected, and stops otherwise. */
    method ValidDetail(timer: string, title: string, enabled: bool) returns (alive: bool)
      requires Synced() && journal.timerId == Some(timer)
      modifies this`server, this`events
      ensures Synced() && Later(old(server), server)
      ensures events == old(events) + (if alive then [Checked(Expected(timer, title, enabled))] else [])
      ensures alive ==>
                && timer != "C-1-1051-10301:0:1792447200:2100:2145"
                && exists detail: Detail ::
                     && DetailAnswer(timer, 200, detail) in server.heard
                     && detail.timerId == timer && detail.title == title && detail.enabled == enabled
                     && detail.managed == true && detail.bound == true
                     && detail.recording == false && detail.pending == false && detail.strongTag == true
      ensures alive ==> DetailAnswer(timer, 200, Expected(timer, title, enabled)) in server.heard
      ensures kind && timer != EXCLUDED && AsShown(r2, journal, title, enabled) ==> alive && server.ops == old(server).ops
    {
      hide Good, AllHold;
      if timer == EXCLUDED { return false; }
      for attempt := 0 to 31
        invariant Synced() && Later(old(server), server) && events == old(events)
        invariant kind && AsShown(r2, journal, title, enabled) ==> attempt == 0 && server == old(server)
      {
        var status, item := ReadDetail(timer);
        if status == 200 && item == Expected(timer, title, enabled) {
          OneMoreHolds(r2, journal, server, events, Checked(item));
          events := events + [Checked(item)];
          return true;
        }
        if status != 200 && status != 503 { return false; }
      }
      alive := false;
    }

    // ---------------------------------------------------------------- the beginning

    /** `choose_candidate`: the complete inventory, and an event to record. None if the run stops. */
    method ChooseCandidate() returns (r: Option<Candidate>)
      requires Synced()
      modifies this`server
      ensures Synced() && Later(old(server), server)
      ensures r.Some? ==> IsBaseline(server, r.value) && r.value.beforeIds != []
      ensures kind ==> r.Some? && |r.value.startTime| == 4 && server.ops == old(server).ops
    {
      hide Good, AllHold, TimerInventory.DistinctIds, AcceptableId;
      var before := ReadTimers();
      if kind {
        ghost var timer :| before.value == RowsShown(journal, timer) && AcceptableId(timer) && |timer| > 100;
        ShownOnce(journal, timer);
      }
      if before.None? || RowIds(before.value) == [] { return None; }
      var event: Option<Candidate> := *;
      if kind { event := Some(Candidate([], "Film", "2026-10-20", "2015")); }
      if !event.Some? { return None; }
      r := Some(event.value.(beforeIds := RowIds(before.value)));
    }

    /** `find_fixture`: the one timer that matches the event and was not there before, made durable. */
    method FindFixture() returns (alive: bool)
      requires Synced() && journal.candidate.Some? && journal.timerId.None? && Reads(journal, server, Create, Succeeded)
      modifies this`server, this`journal, this`stored
      ensures Safe() && Later(old(server), server)
      ensures alive ==> Synced() && journal.timerId.Some?
                        && IsFixture(server, journal.candidate.value, journal.timerId.value)
      ensures alive ==> journal == old(journal).(timerId := journal.timerId, initialTitle := journal.candidate.value.title)
      ensures kind && |old(journal).candidate.value.startTime| == 4 ==>
                && alive && server.ops == old(server).ops && AcceptableId(journal.timerId.value)
                && journal.timerId.value != EXCLUDED && journal.timerId.value !in journal.candidate.value.beforeIds
    {
      hide Good, AllHold, MatchingIds, TimerInventory.DistinctIds, AcceptableId, RowsShown;
      var c := journal.candidate.value;
      for attempt := 0 to 45
        invariant Synced() && Later(old(server), server) && journal == old(journal)
        invariant Reads(journal, server, Create, Succeeded)
        invariant kind && |c.startTime| == 4 ==> attempt == 0 && server == old(server)
      {
        var rows := ReadTimers();
        if kind && |c.startTime| == 4 {
          ghost var timer :| rows.value == RowsShown(journal, timer) && AcceptableId(timer) && |timer| > 100
                             && timer !in c.beforeIds;
          ShownOnce(journal, timer);
          ShortId(EXCLUDED);
        }
        if rows.None? { return false; }
        var matches := MatchingIds(rows.value, c);
        if |matches| == 1 {
          assert matches == [matches[0]];
          FoundIsGood(r2, journal, sent, server, matches[0], c.title);
          var found := journal.(timerId := Some(matches[0]), initialTitle := c.title);
          StillHolds(r2, journal, found, server, server, events);
          journal := found;
          alive := Save();
          return;
        }
        if |matches| > 1 { return false; }
      }
      alive := false;
    }

    /** CREATE, which needs no timer yet. */
    method AdvanceCreate() returns (alive: bool)
      requires Synced() && journal.candidate.Some?
      modifies this`server, this`journal, this`stored, this`events, this`sent
      ensures Safe() && old(events) <= events && Issued(old(sent), sent, mode, events)
      ensures alive ==> Synced() && OnlyStage(old(journal), journal, Create) && Reads(journal, server, Create, Succeeded)
      ensures alive ==> AllSettled({Create}, mode, events)
      ensures kind && old(Smooth(journal, server)) ==> alive && Smooth(journal, server)
    {
      hide Good, MayBegin, AllHold, Later, Smooth;
      ghost var known := events;
      if Create !in journal.stages {
        MayBeginNow(r2, journal, sent, server, Create, mode, events);
        alive := Submit(Create);
      } else {
        alive := Operation(Create);
      }
      if alive {
        EndedWell(r2, journal, server, known, events, Create);
        SettledOne({}, mode, known, events, Create);
      }
    }

    /** The journal as it is, or a new one. */
    method Resume() returns (alive: bool)
      requires Safe()
      modifies this`journal, this`stored, this`events
      ensures Safe() && events == []
      ensures alive ==> Synced()
      ensures kind && old(stored).None? && !mode.ContinueR2? ==> alive && journal == FRESH
    {
      hide Good, AllHold;
      events := [];
      if mode.ContinueR2? && stored.None? { return false; }
      if stored.Some? {
        journal := stored.value;
        NothingClaimed(r2, journal, server);
        var foreign: bool := *;
        return !foreign;
      }
      FreshIsGood(r2, sent, server);
      journal := FRESH;
      NothingClaimed(r2, journal, server);
      alive := Save();
    }

    /** The event chosen and made durable, unless one is there already. */
    method Choose() returns (alive: bool)
      requires Synced()
      modifies this`server, this`journal, this`stored
      ensures Safe()
      ensures alive ==> Synced() && journal.candidate.Some?
      ensures kind && old(journal) == FRESH ==>
                && alive && journal.stages == map[] && journal.timerId.None? && !journal.noEffect
                && |journal.candidate.value.startTime| == 4
    {
      hide Good, AllHold;
      if journal.candidate.Some? { return true; }
      var candidate := ChooseCandidate();
      if !candidate.Some? { return false; }
      ChosenIsGood(r2, journal, sent, server, candidate.value);
      StillHolds(r2, journal, journal.(candidate := candidate), server, server, events);
      journal := journal.(candidate := candidate);
      alive := Save();
    }

    /** The script up to the timer it may work on. */
    method Begin() returns (alive: bool)
      requires Safe()
      modifies this`server, this`journal, this`stored, this`events, this`sent
      ensures Safe() && Issued(old(sent), sent, mode, events)
      ensures alive ==> Synced() && journal.candidate.Some? && journal.timerId.Some?
      ensures alive ==> Reads(journal, server, Create, Succeeded) && AllSettled({Create}, mode, events)
      ensures alive ==>
                var timer := journal.timerId.value;
                && timer != "" && timer != EXCLUDED && timer !in journal.candidate.value.beforeIds
                && forall i :: 0 <= i < |timer| ==>
                     || 'a' <= timer[i] <= 'z' || 'A' <= timer[i] <= 'Z' || '0' <= timer[i] <= '9' || timer[i] in ":._-"
      ensures kind && old(stored).None? && !mode.ContinueR2? ==>
                alive && Smooth(journal, server) && journal.stages.Keys == {Create}
    {
      hide Good, AllHold, Issued, OnlyStage, Smooth;
      alive := Resume();
      if !alive { NothingIssued(sent, mode, events); return; }
      var refused: bool := *;
      if !kind && refused { NothingIssued(sent, mode, events); return false; }
      alive := Choose();
      if !alive { NothingIssued(sent, mode, events); return; }
      ghost var chosen := journal;
      SmoothStill(journal, journal, server, server);
      alive := AdvanceCreate();
      if !alive { return; }
      OneStageMore(chosen, journal, Create);
      if !journal.timerId.Some? {
        ghost var (before, first) := (journal, server);
        alive := FindFixture();
        if !alive { return; }
        SmoothStill(before, journal, first, server);
      }
      var timer := journal.timerId.value;
      alive := timer != EXCLUDED && timer !in journal.candidate.value.beforeIds && AcceptableId(timer);
    }

    // ---------------------------------------------------------------- the stages

    /** One stage of the script: read the timer and submit, or wait for what was submitted before. */
    method Advance(stage: Stage, title: string) returns (alive: bool)
      requires Synced() && stage != Create && journal.timerId.Some? && journal.candidate.Some?
      requires StageFacts(r2, mode, journal, server, stage) && FitsMode(stage, mode)
      requires AllSettled(Earlier(stage, mode), mode, events)
      requires title == TitleDue(r2, journal.initialTitle, stage, events)
      modifies this`server, this`journal, this`stored, this`events, this`sent
      ensures Safe() && Later(old(server), server) && old(events) <= events && Issued(old(sent), sent, mode, events)
      ensures alive ==> Synced() && IsAccepted(journal, stage) && OnlyStage(old(journal), journal, stage)
      ensures alive ==> AllSettled(Earlier(stage, mode) + {stage}, mode, events)
      ensures alive && stage != Update ==> Reads(journal, server, stage, Succeeded)
      ensures alive && stage == Update ==> Reads(journal, server, Update, Succeeded) || ShownUnchanged(r2, journal, server, Update)
      ensures kind && old(Smooth(journal, server) && stage !in journal.stages && journal.timerId != Some(EXCLUDED)
                          && AsShown(r2, journal, title, stage != ToggleOn)) ==>
                alive && Smooth(journal, server)
    {
      hide Good, AllHold, AllSettled, StageFacts, Later, TitleDue, ShownUnchanged, Smooth;
      if stage !in journal.stages {
        alive := ReadAndSubmit(stage, title);
      } else {
        ghost var known := events;
        alive := Operation(stage);
        if alive {
          EndedWell(r2, journal, server, known, events, stage);
          SettledOne(Earlier(stage, mode), mode, known, events, stage);
        }
      }
    }

    /** The reading and the request of `Advance`. */
    method ReadAndSubmit(stage: Stage, title: string) returns (alive: bool)
      requires Synced() && stage != Create && stage !in journal.stages && journal.timerId.Some? && journal.candidate.Some?
      requires StageFacts(r2, mode, journal, server, stage) && FitsMode(stage, mode)
      requires AllSettled(Earlier(stage, mode), mode, events)
      requires title == TitleDue(r2, journal.initialTitle, stage, events)
      modifies this`server, this`journal, this`stored, this`events, this`sent
      ensures Safe() && Later(old(server), server) && old(events) <= events && Issued(old(sent), sent, mode, events)
      ensures alive ==> Synced() && IsAccepted(journal, stage) && OnlyStage(old(journal), journal, stage)
      ensures alive ==> AllSettled(Earlier(stage, mode) + {stage}, mode, events)
      ensures alive && stage != Update ==> Reads(journal, server, stage, Succeeded)
      ensures alive && stage == Update ==> Reads(journal, server, Update, Succeeded) || ShownUnchanged(r2, journal, server, Update)
      ensures kind && old(Smooth(journal, server) && journal.timerId != Some(EXCLUDED)
                          && AsShown(r2, journal, title, stage != ToggleOn)) ==>
                alive && Smooth(journal, server)
    {
      hide Good, MayBegin, AllHold, AllSettled, StageFacts, Later, Earlier, ShownUnchanged;
      ghost var (known, held) := (events, server);
      alive := ValidDetail(journal.timerId.value, title, stage != ToggleOn);
      if !alive { return; }
      ghost var seen := server;
      ghost var detail := Expected(journal.timerId.value, title, stage != ToggleOn);
      CheckedMissesNothing(known, detail);
      SettledMore(Earlier(stage, mode), mode, known, events);
      FactsKept(r2, mode, journal, held, server, stage);
      MayBeginNow(r2, journal, sent, server, stage, mode, events);
      ghost var read := events;
      alive := Submit(stage);
      LaterTwice(held, seen, server);
      if alive {
        EndedWell(r2, journal, server, read, events, stage);
        SettledOne(Earlier(stage, mode), mode, read, events, stage);
      }
    }

    /** From the timer to a verified UPDATE, or one verified to have changed nothing. */
    method UpdateTitle(timer: string, title: string, updated: string) returns (alive: bool)
      requires Synced() && journal.timerId == Some(timer) && journal.candidate.Some? && journal.initialTitle == title
      requires updated == UpdatedTitle(r2, title)
      requires Reads(journal, server, Create, Succeeded) && AllSettled({Create}, mode, events)
      modifies this`server, this`journal, this`stored, this`events, this`sent
      ensures Safe() && old(events) <= events && Issued(old(sent), sent, mode, events)
      ensures alive ==> Synced() && OnlyStage(old(journal), journal, Update) && AllSettled({Create, Update}, mode, events)
      ensures alive ==> Reads(journal, server, Update, Succeeded) || ShownUnchanged(r2, journal, server, Update)
      ensures alive ==> (journal.noEffect <==> UpdateMissed(events))
      ensures alive && !journal.noEffect ==> DetailAnswer(timer, 200, Expected(timer, updated, true)) in server.heard
      ensures kind && old(Smooth(journal, server) && journal.stages.Keys == {Create}) && timer != EXCLUDED ==>
                alive && Smooth(journal, server) && journal.stages.Keys == {Create, Update}
    {
      hide Good, AllHold, AllSettled, Settled, UpdatedTitle, UpdateMissed, ShownUnchanged;
      alive := Advance(Update, title);
      if !alive { return; }
      assert Earlier(Update, mode) + {Update} == {Create, Update};
      ToggleTitleIsDue(r2, journal, sent, server, {Create, Update}, mode, events, ToggleOff);
      if !journal.noEffect {
        ghost var (known, held) := (events, server);
        alive := ValidDetail(timer, updated, true);
        if alive {
          CheckedMissesNothing(known, Expected(timer, updated, true));
          SettledMore({Create, Update}, mode, known, events);
          StillUnchanged(r2, journal, journal, held, server, Update);
        }
      }
    }

    /** Continuation mode: the recovery toggle, behind a first one seen to have changed nothing. The row that
        shows it is among the run's events. */
    method Recover(timer: string, updated: string, title: string) returns (alive: bool)
      requires Synced() && journal.timerId == Some(timer) && journal.candidate.Some? && mode.ContinueR2? && r2
      requires updated == UpdatedTitle(r2, journal.initialTitle)
      requires title == ToggleTitle(r2, journal)
      requires AllSettled({Create, Update}, mode, events)
      modifies this`server, this`journal, this`stored, this`events, this`sent
      ensures Safe() && old(events) <= events && Issued(old(sent), sent, mode, events)
      ensures sent != old(sent) ==> ShownUnchanged(r2, old(journal), server, ToggleOff)
      ensures alive ==> Synced() && OnlyStage(old(journal), journal, ToggleOffRecovery)
      ensures alive ==> Reads(journal, server, ToggleOffRecovery, Succeeded)
      ensures alive ==> AllSettled(Earlier(ToggleOn, mode), mode, events)
    {
      hide Good, AllHold, AllSettled, Earlier, UpdatedTitle, UpdateMissed, ToggleHadNoEffect;
      if !IsAccepted(journal, ToggleOff) { return false; }
      var operation := journal.stages[ToggleOff].operation;
      var row := ReadRow(operation);
      if !row.Some? || !ToggleHadNoEffect(row.value, timer, updated, true) { return false; }
      ToggleRowSaysFailed(row.value, timer, updated, true);
      assert Unchanged(r2, journal, server, ToggleOff, row.value);
      ghost var known := events;
      OneMoreHolds(r2, journal, server, events, NoEffect(ToggleOff, operation, row.value));
      events := events + [NoEffect(ToggleOff, operation, row.value)];
      SettledOne({Create, Update}, mode, known, events, ToggleOff);
      RecoveryBehindToggle(mode);
      ToggleTitleIsDue(r2, journal, sent, server, {Create, Update, ToggleOff}, mode, events, ToggleOffRecovery);
      ghost var (first, start) := (server, journal);
      alive := Advance(ToggleOffRecovery, title);
      StillUnchanged(r2, start, start, first, server, ToggleOff);
      RecoveryComesLast(mode, events);
    }

    /** The first toggle, or in continuation mode the recovery toggle behind a failed first one. */
    method SwitchOff(timer: string, updated: string, title: string) returns (alive: bool)
      requires Synced() && journal.timerId == Some(timer) && journal.candidate.Some? && (r2 <==> mode != Plain)
      requires updated == UpdatedTitle(r2, journal.initialTitle)
      requires title == ToggleTitle(r2, journal)
      requires Reads(journal, server, Update, Succeeded) || ShownUnchanged(r2, journal, server, Update)
      requires AllSettled({Create, Update}, mode, events)
      modifies this`server, this`journal, this`stored, this`events, this`sent
      ensures Safe() && old(events) <= events && Issued(old(sent), sent, mode, events)
      ensures alive ==> Synced() && journal == old(journal).(stages := journal.stages)
      ensures alive ==> StageFacts(r2, mode, journal, server, ToggleOn)
      ensures alive ==> AllSettled(Earlier(ToggleOn, mode), mode, events)
      ensures kind && old(Smooth(journal, server) && journal.stages.Keys == {Create, Update})
              && timer != EXCLUDED && !mode.ContinueR2? ==>
                alive && Smooth(journal, server) && journal.stages.Keys == {Create, Update, ToggleOff}
    {
      hide Good, AllHold, AllSettled, UpdatedTitle, UpdateMissed, TitleDue;
      if mode.ContinueR2? {
        alive := Recover(timer, updated, title);
      } else {
        ToggleTitleIsDue(r2, journal, sent, server, {Create, Update}, mode, events, ToggleOff);
        alive := Advance(ToggleOff, title);
        OnBehindOff(mode);
      }
    }

    /** Switching on again. */
    method SwitchOn(title: string) returns (alive: bool)
      requires Synced() && journal.timerId.Some? && journal.candidate.Some? && StageFacts(r2, mode, journal, server, ToggleOn)
      requires title == ToggleTitle(r2, journal) && AllSettled(Earlier(ToggleOn, mode), mode, events)
      modifies this`server, this`journal, this`stored, this`events, this`sent
      ensures Safe() && old(events) <= events && Issued(old(sent), sent, mode, events)
      ensures alive ==> Synced() && OnlyStage(old(journal), journal, ToggleOn) && Reads(journal, server, ToggleOn, Succeeded)
      ensures alive ==> AllSettled(Earlier(Delete, mode), mode, events)
      ensures kind && old(Smooth(journal, server) && journal.stages.Keys == {Create, Update, ToggleOff}
                          && journal.timerId != Some(EXCLUDED)) ==>
                alive && Smooth(journal, server)
    {
      hide Good, AllHold, AllSettled, UpdatedTitle, UpdateMissed, TitleDue, Smooth, AsShown, OnlyStage, ToggleTitle,
           Issued;
      ToggleTitleIsDue(r2, journal, sent, server, Earlier(ToggleOn, mode), mode, events, ToggleOn);
      DeleteComesLast(mode);
      if journal.stages.Keys == {Create, Update, ToggleOff} {
        SmoothIsShown(r2, journal, server, {Create, Update, ToggleOff});
      }
      alive := Advance(ToggleOn, title);
    }

    /** Switching on again, and DELETE. */
    method Finish(title: string) returns (alive: bool)
      requires Synced() && journal.timerId.Some? && journal.candidate.Some? && StageFacts(r2, mode, journal, server, ToggleOn)
      requires title == ToggleTitle(r2, journal) && AllSettled(Earlier(ToggleOn, mode), mode, events)
      modifies this`server, this`journal, this`stored, this`events, this`sent
      ensures Safe() && old(events) <= events && Issued(old(sent), sent, mode, events)
      ensures alive ==> Synced() && Reads(journal, server, Delete, Succeeded)
      ensures kind && old(Smooth(journal, server) && journal.stages.Keys == {Create, Update, ToggleOff}
                          && journal.timerId != Some(EXCLUDED)) ==>
                alive && Smooth(journal, server) && journal.stages.Keys == {Create, Update, ToggleOff, ToggleOn, Delete}
    {
      hide Good, AllHold, AllSettled, UpdatedTitle, UpdateMissed, TitleDue, Smooth, AsShown, OnlyStage, ToggleTitle,
           Issued;
      ghost var (start, begun, stages) := (sent, journal, {Create, Update, ToggleOff});
      alive := SwitchOn(title);
      if !alive { return; }
      OneStageMore(begun, journal, ToggleOn);
      SameTitle(r2, begun, journal, ToggleOn);
      ghost var (middle, second, switched) := (sent, events, journal);
      DeleteComesLast(mode);
      ToggleTitleIsDue(r2, journal, sent, server, Earlier(Delete, mode), mode, events, Delete);
      if journal.stages.Keys == stages + {ToggleOn} { SmoothIsShown(r2, journal, server, stages + {ToggleOn}); }
      alive := Advance(Delete, title);
      OneStageMore(switched, journal, Delete);
      IssuedTwice(start, middle, sent, mode, second, events);
      assert stages + {ToggleOn} + {Delete} == {Create, Update, ToggleOff, ToggleOn, Delete};
    }

    /** One run of the script, to its end or to wherever it stops or is killed. The requests it adds rest on what
        this run established, from nothing at its start. */
    method Run(mode: Mode, kind: bool) returns (alive: bool)
      requires Safe() && (r2 <==> mode != Plain)
      modifies this
      ensures Safe() && Issued(old(sent), sent, mode, events)
      ensures alive ==> Reads(journal, server, Delete, Succeeded)
      ensures kind && old(stored).None? && !mode.ContinueR2? ==>
                alive && SentStages(sent) == [Create, Update, ToggleOff, ToggleOn, Delete]
    {
      hide Good, AllHold, AllSettled, Settled, UpdateMissed, StageFacts, Issued, Reads, ShownUnchanged, Smooth;
      this.mode := mode;
      this.kind := kind;
      ghost var start := sent;
      alive := Begin();
      if !alive { return; }
      var timer := journal.timerId.value;
      var title := journal.initialTitle;
      var updated := UpdatedTitle(r2, title);
      ghost var (s1, e1) := (sent, events);
      alive := UpdateTitle(timer, title, updated);
      IssuedTwice(start, s1, sent, mode, e1, events);
      if !alive { return; }
      var toggleTitle := if journal.noEffect then title else updated;
      ghost var (s2, e2) := (sent, events);
      alive := SwitchOff(timer, updated, toggleTitle);
      IssuedTwice(start, s2, sent, mode, e2, events);
      if !alive { return; }
      ghost var (s3, e3) := (sent, events);
      alive := Finish(toggleTitle);
      IssuedTwice(start, s3, sent, mode, e3, events);
      if alive { AllWereSent(r2, journal, sent, server); }
    }

    /** Any number of runs, one after the other. */
    method Campaign(modes: seq<Mode>, kind: seq<bool>)
      requires Safe() && |kind| == |modes| && forall i :: 0 <= i < |modes| ==> (r2 <==> modes[i] != Plain)
      modifies this
      ensures Safe() && old(sent) <= sent
    {
      hide Good;
      for i := 0 to |modes|
        invariant Safe() && old(sent) <= sent
      {
        var alive := Run(modes[i], kind[i]);
      }
    }
  }
}
