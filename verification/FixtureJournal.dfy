/** The journalled hardware driver: what its journal, the requests it sent and the server's answers
    have to do with each other, at every instant at which a run may end or be killed. */
module FixtureJournal {
  import opened Wrappers
  import opened FixtureAnswers
  import Fingerprint
  import TimerInventory

  datatype Stage = Create | Update | ToggleOff | ToggleOffRecovery | ToggleOn | Delete

  /** A stage's entry in the journal: written before the request, and again after its acceptance. */
  datatype Record = Unknown(idempotencyKey: string) | Accepted(operation: string, idempotencyKey: string)

  datatype Journal = Journal(
    candidate: Option<Candidate>,
    timerId: Option<string>,
    initialTitle: string,
    noEffect: bool,
    stages: map<Stage, Record>)

  /** No argument, `--new-timer`, `--continue-r2`; the last two share one journal. */
  datatype Mode = Plain | NewTimer | ContinueR2

  /** What a run has established, in the order it did, with the answer it rests on. */
  datatype Event =
    | Confirmed(stage: Stage, operation: string)
    | NoEffect(stage: Stage, operation: string, row: Row)
    | Checked(detail: Detail)

  /** A modifying request as it went out: what it addressed, the inventory recorded before CREATE, and
      all that the run had established until then. */
  datatype Post = Post(
    stage: Stage,
    target: Option<string>,
    baseline: seq<string>,
    idempotencyKey: string,
    mode: Mode,
    grounds: seq<Event>)

  // -------------------------------------------------------------------- the order

  function Rank(s: Stage): nat {
    match s
    case Create => 0 case Update => 1 case ToggleOff => 2
    case ToggleOffRecovery => 3 case ToggleOn => 4 case Delete => 5
  }

  function If(present: bool, s: Stage): seq<Stage> {
    if present then [s] else []
  }

  const STAGES := 6

  function Ranked(n: nat): (s: Stage)
    requires n < STAGES
    ensures Rank(s) == n
  {
    if n == 0 then Create else if n == 1 then Update else if n == 2 then ToggleOff
    else if n == 3 then ToggleOffRecovery else if n == 4 then ToggleOn else Delete
  }

  /** The stages of a set that rank below `n`, each once, in order. */
  function ListingTo(s: set<Stage>, n: nat): seq<Stage>
    requires n <= STAGES
  {
    if n == 0 then [] else ListingTo(s, n - 1) + If(Ranked(n - 1) in s, Ranked(n - 1))
  }

  function Listing(s: set<Stage>): seq<Stage> {
    ListingTo(s, STAGES)
  }

  function Chain(recovered: bool): seq<Stage> {
    [Create, Update, ToggleOff] + If(recovered, ToggleOffRecovery) + [ToggleOn, Delete]
  }

  lemma {:induction false} ListingAppends(s: set<Stage>, all: set<Stage>, stage: Stage, n: nat)
    requires n <= STAGES && all == s + {stage}
    requires forall t :: t in s ==> Rank(t) < Rank(stage)
    ensures ListingTo(all, n) == ListingTo(s, n) + If(Rank(stage) < n, stage)
  {
    if n > 0 {
      ListingAppends(s, all, stage, n - 1);
      assert Ranked(n - 1) == stage || (Ranked(n - 1) in all <==> Ranked(n - 1) in s);
    }
  }

  function SentStages(sent: seq<Post>): seq<Stage> {
    if sent == [] then [] else SentStages(sent[..|sent| - 1]) + [sent[|sent| - 1].stage]
  }

  function SentSet(sent: seq<Post>): set<Stage> {
    set i | 0 <= i < |sent| :: sent[i].stage
  }

  // ------------------------------------------------------------- what the server has shown

  predicate IsAccepted(j: Journal, s: Stage) {
    s in j.stages && j.stages[s].Accepted?
  }

  predicate Reads(j: Journal, server: Server, s: Stage, state: OpState) {
    IsAccepted(j, s) && j.stages[s].operation in server.ops && server.ops[j.stages[s].operation] == state
  }

  /** The title an UPDATE gives. */
  function UpdatedTitle(r2: bool, title: string): string {
    title + if r2 then "-APIv1-HW-R2" else "-APIv1-HW"
  }

  /** The stage's operation failed, and this row, read from the server, shows that it changed nothing. */
  predicate Unchanged(r2: bool, j: Journal, server: Server, s: Stage, row: Row) {
    && Reads(j, server, s, FailedVerified) && j.timerId.Some?
    && RowAnswer(j.stages[s].operation, row) in server.heard
    && match s
       case Update => UpdateHadNoEffect(row, j.stages[s].operation, j.timerId.value, j.initialTitle)
       case ToggleOff => r2 && ToggleHadNoEffect(row, j.timerId.value, UpdatedTitle(r2, j.initialTitle), true)
       case _ => false
  }

  ghost predicate ShownUnchanged(r2: bool, j: Journal, server: Server, s: Stage) {
    exists row :: Unchanged(r2, j, server, s, row)
  }

  /** An event tells the truth: the operation is the stage's own and did end that way, the row or the detail
      is an answer the server gave, and it passed the script's tests. */
  ghost predicate Holds(r2: bool, j: Journal, server: Server, e: Event) {
    match e
    case Confirmed(s, operation) => Reads(j, server, s, Succeeded) && j.stages[s].operation == operation
    case NoEffect(s, operation, row) =>
      Unchanged(r2, j, server, s, row) && j.stages[s].operation == operation && (s == Update ==> j.noEffect)
    case Checked(detail) =>
      && j.timerId == Some(detail.timerId) && DetailAnswer(detail.timerId, 200, detail) in server.heard
      && detail == Expected(detail.timerId, detail.title, detail.enabled)
  }

  ghost predicate AllHold(r2: bool, j: Journal, server: Server, events: seq<Event>) {
    forall i :: 0 <= i < |events| ==> Holds(r2, j, server, events[i])
  }

  // ------------------------------------------------------------- what a request stands on

  function Earlier(stage: Stage, mode: Mode): set<Stage> {
    match stage
    case Create => {}
    case Update => {Create}
    case ToggleOff => {Create, Update}
    case ToggleOffRecovery => {Create, Update, ToggleOff}
    case ToggleOn => {Create, Update, ToggleOff} + if mode.ContinueR2? then {ToggleOffRecovery} else {}
    case Delete => {Create, Update, ToggleOff, ToggleOn} + if mode.ContinueR2? then {ToggleOffRecovery} else {}
  }

  /** How `operation` can return for a stage. */
  predicate Ends(e: Event, stage: Stage) {
    (e.Confirmed? && e.stage == stage) || (e.NoEffect? && e.stage == stage == Update)
  }

  /** The event settles the stage: read as succeeded, or shown to have had no effect where that may do. */
  predicate Settles(e: Event, stage: Stage, mode: Mode) {
    Ends(e, stage) || (e.NoEffect? && e.stage == stage == ToggleOff && mode.ContinueR2?)
  }

  predicate Settled(stage: Stage, mode: Mode, grounds: seq<Event>) {
    exists i :: 0 <= i < |grounds| && Settles(grounds[i], stage, mode)
  }

  predicate AllSettled(stages: set<Stage>, mode: Mode, grounds: seq<Event>) {
    forall e :: e in stages ==> Settled(e, mode, grounds)
  }

  predicate UpdateMissed(grounds: seq<Event>) {
    exists i :: 0 <= i < |grounds| && grounds[i].NoEffect? && grounds[i].stage == Update
  }

  /** The title the timer must have just before the request: the new one once an UPDATE took effect. */
  function TitleDue(r2: bool, title: string, stage: Stage, grounds: seq<Event>): string {
    if stage == Update || UpdateMissed(grounds) then title else UpdatedTitle(r2, title)
  }

  predicate FitsMode(stage: Stage, mode: Mode) {
    (stage == ToggleOffRecovery ==> mode.ContinueR2?) && (stage == ToggleOff ==> !mode.ContinueR2?)
  }

  /** The last thing read before a request on a timer: the timer as it has to be then. */
  predicate JustChecked(r2: bool, title: string, p: Post) {
    && p.target.Some? && p.grounds != []
    && p.grounds[|p.grounds| - 1]
       == Checked(Expected(p.target.value, TitleDue(r2, title, p.stage, p.grounds), p.stage != ToggleOn))
  }

  /** A request goes out only after every earlier stage was settled in the same run, and except for
      CREATE right after a read that showed its timer managed, idle and in the expected state. */
  predicate Grounded(r2: bool, title: string, p: Post) {
    && FitsMode(p.stage, p.mode)
    && AllSettled(Earlier(p.stage, p.mode), p.mode, p.grounds)
    && (p.stage == Create <==> p.target.None?)
    && (p.stage != Create ==> JustChecked(r2, title, p))
  }

  // ---------------------------------------------------------------- the invariant

  /** What a stage stands behind once it is in the journal. */
  ghost predicate Due(r2: bool, j: Journal, server: Server, s: Stage) {
    match s
    case Create => j.candidate.Some?
    case Update => Reads(j, server, Create, Succeeded) && j.timerId.Some?
    case ToggleOff => Reads(j, server, Update, Succeeded) || ShownUnchanged(r2, j, server, Update)
    case ToggleOffRecovery => r2 && ShownUnchanged(r2, j, server, ToggleOff)
    case ToggleOn =>
      if ToggleOffRecovery in j.stages then Reads(j, server, ToggleOffRecovery, Succeeded)
      else Reads(j, server, ToggleOff, Succeeded)
    case Delete => Reads(j, server, ToggleOn, Succeeded)
  }

  ghost predicate StagesOk(r2: bool, j: Journal, server: Server) {
    && (forall s :: s in j.stages ==> Due(r2, j, server, s))
    && (j.noEffect ==> ShownUnchanged(r2, j, server, Update))
  }

  /** The one timer the run may touch was the only match of an inventory read after CREATE had succeeded, is
      not the excluded one, and was not there before. */
  ghost predicate TimerOk(excluded: string, j: Journal, server: Server) {
    && (j.candidate.Some? ==> IsBaseline(server, j.candidate.value))
    && (j.timerId.Some? ==>
          && j.candidate.Some? && j.timerId.value != excluded && j.timerId.value !in j.candidate.value.beforeIds
          && Reads(j, server, Create, Succeeded) && IsFixture(server, j.candidate.value, j.timerId.value))
  }

  ghost predicate Addressed(j: Journal, p: Post) {
    && j.candidate.Some? && p.baseline == j.candidate.value.beforeIds
    && p.stage in j.stages && j.stages[p.stage].idempotencyKey == p.idempotencyKey
    && (p.stage != Create ==> j.timerId.Some? && p.target == j.timerId)
  }

  /** The server has answered the stage's request with 202 and this operation. */
  ghost predicate Acknowledged(j: Journal, server: Server, s: Stage) {
    IsAccepted(j, s) && PostAnswer(j.stages[s].idempotencyKey, 202, j.stages[s].operation) in server.heard
  }

  ghost predicate PostOk(r2: bool, j: Journal, server: Server, p: Post) {
    Addressed(j, p) && Grounded(r2, j.initialTitle, p) && AllHold(r2, j, server, p.grounds)
  }

  /** The requests are the journal's stages in order: none without its record, none missing whose
      acceptance is recorded. */
  ghost predicate SentOk(r2: bool, j: Journal, server: Server, sent: seq<Post>) {
    && SentStages(sent) == Listing(SentSet(sent))
    && (forall s :: s in SentSet(sent) ==> s in j.stages)
    && (forall s :: IsAccepted(j, s) ==> s in SentSet(sent) && Acknowledged(j, server, s))
    && (forall i :: 0 <= i < |sent| ==> PostOk(r2, j, server, sent[i]))
  }

  ghost predicate Good(r2: bool, excluded: string, stored: Option<Journal>, sent: seq<Post>, server: Server) {
    match stored
    case None => sent == []
    case Some(j) => StagesOk(r2, j, server) && TimerOk(excluded, j, server) && SentOk(r2, j, server, sent)
  }

  // ---------------------------------------------------------------- what stays true

  /** The journal only grows: what it says of the event, the timer and an accepted stage stands. */
  ghost predicate Extends(j: Journal, n: Journal) {
    && (j.candidate.Some? ==> n.candidate == j.candidate)
    && (j.timerId.Some? ==> n.timerId == j.timerId && n.initialTitle == j.initialTitle)
    && (j.noEffect ==> n.noEffect)
    && (forall s :: s in j.stages ==> s in n.stages && n.stages[s].idempotencyKey == j.stages[s].idempotencyKey)
    && (forall s :: IsAccepted(j, s) ==> n.stages[s] == j.stages[s])
  }

  lemma StillUnchanged(r2: bool, j: Journal, n: Journal, before: Server, after: Server, s: Stage)
    requires Extends(j, n) && Later(before, after)
    ensures Reads(j, before, s, Succeeded) ==> Reads(n, after, s, Succeeded)
    ensures ShownUnchanged(r2, j, before, s) ==> ShownUnchanged(r2, n, after, s)
  {
    if ShownUnchanged(r2, j, before, s) {
      var row :| Unchanged(r2, j, before, s, row);
      assert Unchanged(r2, n, after, s, row);
    }
  }

  lemma UnchangedFailed(r2: bool, j: Journal, server: Server, s: Stage)
    ensures ShownUnchanged(r2, j, server, s) ==> Reads(j, server, s, FailedVerified)
  {}

  lemma StillHolds(r2: bool, j: Journal, n: Journal, before: Server, after: Server, events: seq<Event>)
    requires Extends(j, n) && Later(before, after) && AllHold(r2, j, before, events)
    ensures AllHold(r2, n, after, events)
  {
    forall i | 0 <= i < |events| ensures Holds(r2, n, after, events[i]) {
      assert Holds(r2, j, before, events[i]);
    }
  }

  lemma StillPosted(r2: bool, j: Journal, n: Journal, before: Server, after: Server, p: Post)
    requires Extends(j, n) && Later(before, after) && PostOk(r2, j, before, p)
    requires n.initialTitle == j.initialTitle || j.timerId.None?
    ensures PostOk(r2, n, after, p)
  {
    StillHolds(r2, j, n, before, after, p.grounds);
  }

  lemma StillFound(excluded: string, j: Journal, n: Journal, before: Server, after: Server)
    requires Extends(j, n) && Later(before, after) && TimerOk(excluded, j, before)
    requires n.candidate == j.candidate && n.timerId == j.timerId
    ensures TimerOk(excluded, n, after)
  {
    if j.candidate.Some? { StillListed(before, after, j.candidate.value, if j.timerId.Some? then j.timerId.value else ""); }
  }

  lemma StillListed(before: Server, after: Server, c: Candidate, timer: string)
    requires Later(before, after)
    ensures IsBaseline(before, c) ==> IsBaseline(after, c)
    ensures IsFixture(before, c, timer) ==> IsFixture(after, c, timer)
  {}

  /** What the journal's stages stand behind survives any growth that adds no stage. */
  lemma StillStaged(r2: bool, j: Journal, n: Journal, before: Server, after: Server)
    requires Extends(j, n) && Later(before, after) && StagesOk(r2, j, before)
    requires n.stages.Keys == j.stages.Keys && (n.noEffect ==> j.noEffect || ShownUnchanged(r2, n, after, Update))
    ensures StagesOk(r2, n, after)
  {
    forall s: Stage
      ensures Reads(j, before, s, Succeeded) ==> Reads(n, after, s, Succeeded)
      ensures ShownUnchanged(r2, j, before, s) ==> ShownUnchanged(r2, n, after, s)
    {
      StillUnchanged(r2, j, n, before, after, s);
    }
  }

  lemma StillSent(r2: bool, j: Journal, n: Journal, before: Server, after: Server, sent: seq<Post>)
    requires Extends(j, n) && Later(before, after) && SentOk(r2, j, before, sent)
    requires n.initialTitle == j.initialTitle || j.timerId.None?
    requires forall s :: IsAccepted(n, s) ==> IsAccepted(j, s) || (s in SentSet(sent) && Acknowledged(n, after, s))
    ensures SentOk(r2, n, after, sent)
  {
    forall i | 0 <= i < |sent| ensures PostOk(r2, n, after, sent[i]) {
      StillPosted(r2, j, n, before, after, sent[i]);
    }
  }

  /** Time passes on the server, and answers come in. */
  lemma StillGood(r2: bool, excluded: string, stored: Option<Journal>, sent: seq<Post>, before: Server, after: Server)
    requires Good(r2, excluded, stored, sent, before) && Later(before, after)
    ensures Good(r2, excluded, stored, sent, after)
  {
    if stored.Some? {
      StillStaged(r2, stored.value, stored.value, before, after);
      StillFound(excluded, stored.value, stored.value, before, after);
      StillSent(r2, stored.value, stored.value, before, after, sent);
    }
  }

  // ---------------------------------------------------------------- what it amounts to

  /** A row the server gave shows, field by field, that a failed UPDATE has changed nothing. */
  ghost predicate UpdateUntouched(server: Server, operation: string, timer: string, title: string) {
    exists row: Row ::
      && RowAnswer(operation, row) in server.heard
      && row.state == FailedVerified && row.reference == "native-timer-modify:unchanged-after-uncertain-execution"
      && Fingerprint.SameExceptEventId(row.expected, row.observed) && row.lastVerified != operation
      && row.timerId == timer && row.title == title && row.recording == false && row.pending == false
  }

  /** And that a failed toggle of the enabled timer has not. */
  ghost predicate ToggleUntouched(server: Server, operation: string, timer: string, title: string) {
    exists row: Row ::
      && RowAnswer(operation, row) in server.heard
      && row.state == FailedVerified && row.reference == "native-timer-modify:unchanged-after-uncertain-execution"
      && row.action == "timer.toggle" && Fingerprint.SameExceptEventId(row.expected, row.observed)
      && row.timerId == timer && row.title == title && row.enabled == true && row.recording == false && row.pending == false
  }

  lemma UnchangedIsUntouched(r2: bool, j: Journal, server: Server, s: Stage)
    requires ShownUnchanged(r2, j, server, s)
    ensures j.timerId.Some? && Reads(j, server, s, FailedVerified)
    ensures s == Update ==> UpdateUntouched(server, j.stages[s].operation, j.timerId.value, j.initialTitle)
    ensures s == ToggleOff ==>
              r2 && ToggleUntouched(server, j.stages[s].operation, j.timerId.value, j.initialTitle + "-APIv1-HW-R2")
  {
    var row :| Unchanged(r2, j, server, s, row);
    assert RowAnswer(j.stages[s].operation, row) in server.heard;
  }

  /** UPDATE is over: read as succeeded, or failed and shown to have changed nothing. */
  ghost predicate UpdateOver(j: Journal, server: Server) {
    || Reads(j, server, Update, Succeeded)
    || (Reads(j, server, Update, FailedVerified) && j.timerId.Some?
        && UpdateUntouched(server, j.stages[Update].operation, j.timerId.value, j.initialTitle))
  }

  /** The first toggle failed and was shown to have changed nothing. */
  ghost predicate ToggleMissed(j: Journal, server: Server) {
    && Reads(j, server, ToggleOff, FailedVerified) && j.timerId.Some?
    && ToggleUntouched(server, j.stages[ToggleOff].operation, j.timerId.value, j.initialTitle + "-APIv1-HW-R2")
  }

  /** The chain written out, once without a recovery and once with it. */
  lemma ListingIsChain(r2: bool, s: set<Stage>)
    requires (Update in s ==> Create in s) && (ToggleOff in s ==> Update in s)
    requires (ToggleOffRecovery in s ==> ToggleOff in s) && (ToggleOn in s ==> ToggleOff in s)
    requires (Delete in s ==> ToggleOn in s) && (ToggleOffRecovery in s ==> r2)
    ensures Listing(s) <= [Create, Update, ToggleOff, ToggleOn, Delete]
            || (r2 && Listing(s) <= [Create, Update, ToggleOff, ToggleOffRecovery, ToggleOn, Delete])
  {
    hide Listing;
    ChainOfSet(s);
    assert Chain(false) == [Create, Update, ToggleOff, ToggleOn, Delete];
    assert Chain(true) == [Create, Update, ToggleOff, ToggleOffRecovery, ToggleOn, Delete];
  }

  lemma {:induction false} StagesRise(sent: seq<Post>)
    requires SentStages(sent) == Listing(SentSet(sent))
    ensures forall i, k :: 0 <= i < k < |sent| ==> Rank(sent[i].stage) < Rank(sent[k].stage)
  {
    hide ListingTo, Rank;
    ListingRises(SentSet(sent), STAGES);
    forall i, k | 0 <= i < k < |sent| ensures Rank(sent[i].stage) < Rank(sent[k].stage) {
      StageAt(sent, i);
      StageAt(sent, k);
    }
  }

  /** The law of the driver, in three parts. However many runs there were and however they ended, the
      requests sent are a prefix of the chain, so each stage was sent at most once, under the
      idempotency key its journal record holds. */
  lemma {:induction false} RequestsFormAChain(r2: bool, excluded: string, j: Journal, sent: seq<Post>, server: Server)
    requires Good(r2, excluded, Some(j), sent, server)
    ensures SentStages(sent) <= [Create, Update, ToggleOff, ToggleOn, Delete]
            || (r2 && SentStages(sent) <= [Create, Update, ToggleOff, ToggleOffRecovery, ToggleOn, Delete])
    ensures forall i, k :: 0 <= i < k < |sent| ==> Rank(sent[i].stage) < Rank(sent[k].stage)
    ensures forall i :: 0 <= i < |sent| ==>
              sent[i].stage in j.stages && sent[i].idempotencyKey == j.stages[sent[i].stage].idempotencyKey
    ensures forall s :: IsAccepted(j, s) ==>
              PostAnswer(j.stages[s].idempotencyKey, 202, j.stages[s].operation) in server.heard
  {
    hide AllHold, Grounded, Settled, TimerOk, Listing, SentStages, SentSet;
    ListingIsChain(r2, SentSet(sent));
    StagesRise(sent);
    forall i | 0 <= i < |sent| ensures Addressed(j, sent[i]) { assert PostOk(r2, j, server, sent[i]); }
  }

  /** The stage is over: read as succeeded, or failed and shown by a row to have changed nothing, where in
      that mode this may do. */
  ghost predicate Over(r2: bool, j: Journal, server: Server, s: Stage, mode: Mode) {
    || Reads(j, server, s, Succeeded)
    || (s == Update && ShownUnchanged(r2, j, server, Update))
    || (s == ToggleOff && mode.ContinueR2? && ShownUnchanged(r2, j, server, ToggleOff))
  }

  /** Each request went out only when every earlier stage was over, as read in the same run. The recovery
      toggle is sent in continuation mode only, the first toggle in the others. */
  lemma RequestsFollowSuccess(r2: bool, excluded: string, j: Journal, sent: seq<Post>, server: Server, i: nat)
    requires Good(r2, excluded, Some(j), sent, server) && i < |sent|
    ensures forall s :: s in Earlier(sent[i].stage, sent[i].mode) ==> Over(r2, j, server, s, sent[i].mode)
    ensures AllSettled(Earlier(sent[i].stage, sent[i].mode), sent[i].mode, sent[i].grounds)
    ensures AllHold(r2, j, server, sent[i].grounds)
    ensures sent[i].stage != Create ==> Reads(j, server, Create, Succeeded)
    ensures sent[i].stage != Create && sent[i].stage != Update ==> UpdateOver(j, server)
    ensures sent[i].stage == ToggleOn || sent[i].stage == Delete ==>
              if sent[i].mode.ContinueR2? then Reads(j, server, ToggleOffRecovery, Succeeded) else Reads(j, server, ToggleOff, Succeeded)
    ensures sent[i].stage == ToggleOffRecovery ==> Reads(j, server, ToggleOff, Succeeded) || ToggleMissed(j, server)
    ensures sent[i].stage == Delete ==> Reads(j, server, ToggleOn, Succeeded)
    ensures sent[i].stage == ToggleOffRecovery ==> sent[i].mode.ContinueR2?
    ensures sent[i].stage == ToggleOff ==> !sent[i].mode.ContinueR2?
  {
    var p := sent[i];
    assert PostOk(r2, j, server, p);
    forall s | s in Earlier(p.stage, p.mode) ensures Over(r2, j, server, s, p.mode) {
      assert Settled(s, p.mode, p.grounds);
      var k :| 0 <= k < |p.grounds| && Settles(p.grounds[k], s, p.mode);
      assert Holds(r2, j, server, p.grounds[k]);
      if p.grounds[k].NoEffect? { assert Unchanged(r2, j, server, s, p.grounds[k].row); }
    }
    forall s | s in {Create, Update, ToggleOff, ToggleOffRecovery, ToggleOn} && s in Earlier(p.stage, p.mode)
      ensures Over(r2, j, server, s, p.mode)
      ensures ShownUnchanged(r2, j, server, s) ==> (s == Update ==> UpdateOver(j, server)) && (s == ToggleOff ==> ToggleMissed(j, server))
    {
      if ShownUnchanged(r2, j, server, s) { UnchangedIsUntouched(r2, j, server, s); }
    }
  }

  /** Every request after CREATE went to one timer: the only match of an inventory read once CREATE had
      succeeded, not the excluded one, not among those recorded before CREATE; and right after the
      server had described that timer as managed, bound, idle and in the state the stage needs. */
  lemma RequestsStayOnFixture(r2: bool, excluded: string, j: Journal, sent: seq<Post>, server: Server, i: nat)
    requires Good(r2, excluded, Some(j), sent, server) && i < |sent|
    ensures j.candidate.Some? && sent[i].baseline == j.candidate.value.beforeIds && IsBaseline(server, j.candidate.value)
    ensures sent[i].stage == Create ==> sent[i].target.None?
    ensures exists rows: seq<TimerInventory.TimerRow> ::
              && ListAnswer(rows) in server.heard && TimerInventory.DistinctIds(rows) && |sent[i].baseline| == |rows|
              && forall k :: 0 <= k < |rows| ==> rows[k].timerId == Some(sent[i].baseline[k])
    ensures sent[i].stage != Create ==>
              && sent[i].target.Some? && sent[i].target == j.timerId
              && sent[i].target.value != excluded && sent[i].target.value !in sent[i].baseline
              && Reads(j, server, Create, Succeeded) && OneRowOf(server, j.candidate.value, sent[i].target.value)
              && ReadAsDue(r2, j, server, sent[i].stage, sent[i].target.value)
  {
    hide AllHold, AllSettled, ReadAsDue, OneRowOf;
    var p := sent[i];
    assert PostOk(r2, j, server, p);
    BaselineIsComplete(server, j.candidate.value);
    if p.stage != Create {
      FixtureIsOneRow(server, j.candidate.value, p.target.value);
      CheckedAsDue(r2, j, server, p);
    }
  }

  lemma CheckedAsDue(r2: bool, j: Journal, server: Server, p: Post)
    requires PostOk(r2, j, server, p) && p.stage != Create
    ensures p.target.Some? && ReadAsDue(r2, j, server, p.stage, p.target.value)
  {
    hide AllSettled, UpdateOver;
    assert Holds(r2, j, server, p.grounds[|p.grounds| - 1]);
    if UpdateMissed(p.grounds) { MissedIsOver(r2, j, server, p.grounds); }
    assert DetailAnswer(p.target.value, 200, p.grounds[|p.grounds| - 1].detail) in server.heard;
  }

  lemma MissedIsOver(r2: bool, j: Journal, server: Server, events: seq<Event>)
    requires AllHold(r2, j, server, events) && UpdateMissed(events)
    ensures UpdateOver(j, server) && !Reads(j, server, Update, Succeeded)
  {
    var k :| 0 <= k < |events| && events[k].NoEffect? && events[k].stage == Update;
    assert Holds(r2, j, server, events[k]);
    assert Unchanged(r2, j, server, Update, events[k].row);
    UnchangedIsUntouched(r2, j, server, Update);
  }

  /** In some complete inventory one row, and one only, is that of the fixture: new, not excluded, on the fixed channel,
      with the event's title, day and time. */
  ghost predicate OneRowOf(server: Server, c: Candidate, timer: string) {
    exists rows: seq<TimerInventory.TimerRow> ::
      && ListAnswer(rows) in server.heard && TimerInventory.DistinctIds(rows)
      && (exists i :: 0 <= i < |rows| && IsRowOf(rows[i], timer, c))
      && (forall i, other :: 0 <= i < |rows| && IsRowOf(rows[i], other, c) ==> other == timer)
  }

  /** The server has described the timer, with status 200, as managed, bound, neither recording nor pending, strongly
      tagged, switched on unless it is to be switched on now, and under the title it must have by then. */
  ghost predicate ReadAsDue(r2: bool, j: Journal, server: Server, stage: Stage, timer: string) {
    exists detail: Detail ::
      && DetailAnswer(timer, 200, detail) in server.heard
      && detail.timerId == timer && detail.enabled == (stage != ToggleOn)
      && detail.managed == true && detail.bound == true && detail.recording == false && detail.pending == false
      && detail.strongTag == true
      && (if stage == Update then detail.title == j.initialTitle
          else || detail.title == j.initialTitle + (if r2 then "-APIv1-HW-R2" else "-APIv1-HW")
               || (detail.title == j.initialTitle && UpdateOver(j, server) && !Reads(j, server, Update, Succeeded)))
  }

  lemma BaselineIsComplete(server: Server, c: Candidate)
    requires IsBaseline(server, c)
    ensures exists rows: seq<TimerInventory.TimerRow> ::
              && ListAnswer(rows) in server.heard && TimerInventory.DistinctIds(rows) && |c.beforeIds| == |rows|
              && forall k :: 0 <= k < |rows| ==> rows[k].timerId == Some(c.beforeIds[k])
  {
    var rows :| ListAnswer(rows) in server.heard && TimerInventory.DistinctIds(rows) && c.beforeIds == RowIds(rows);
    assert forall i :: 0 <= i < |rows| ==> TimerInventory.ValidId(rows[i]);
    RowIdsAre(rows);
  }

  lemma FixtureIsOneRow(server: Server, c: Candidate, timer: string)
    requires IsFixture(server, c, timer)
    ensures OneRowOf(server, c, timer)
  {
    var rows :| ListAnswer(rows) in server.heard && TimerInventory.DistinctIds(rows) && MatchingIds(rows, c) == [timer];
    OnlyMatch(rows, c, timer);
  }

  lemma {:induction false} NothingListed(n: nat)
    requires n <= STAGES
    ensures ListingTo({}, n) == []
  {
    if n > 0 { NothingListed(n - 1); }
  }

  lemma {:induction false} StageAt(sent: seq<Post>, i: nat)
    requires i < |sent|
    ensures |SentStages(sent)| == |sent| && SentStages(sent)[i] == sent[i].stage
  {
    var front := sent[..|sent| - 1];
    if i < |sent| - 1 {
      StageAt(front, i);
    } else if front != [] {
      StageAt(front, 0);
    }
  }

  lemma {:induction false} ListingRises(s: set<Stage>, n: nat)
    requires n <= STAGES
    ensures forall i :: 0 <= i < |ListingTo(s, n)| ==> Rank(ListingTo(s, n)[i]) < n
    ensures forall i, k :: 0 <= i < k < |ListingTo(s, n)| ==> Rank(ListingTo(s, n)[i]) < Rank(ListingTo(s, n)[k])
  {
    if n > 0 {
      ListingRises(s, n - 1);
      assert ListingTo(s, n) == ListingTo(s, n - 1) + If(Ranked(n - 1) in s, Ranked(n - 1));
    }
  }

  /** A set closed downwards along the chain lists a prefix of it. */
  lemma ChainOfSet(s: set<Stage>)
    requires (Update in s ==> Create in s) && (ToggleOff in s ==> Update in s)
    requires (ToggleOffRecovery in s ==> ToggleOff in s) && (ToggleOn in s ==> ToggleOff in s)
    requires Delete in s ==> ToggleOn in s
    ensures Listing(s) <= Chain(ToggleOffRecovery in s)
  {
    hide ListingTo;
    ListingNext(s, 0);
    ListingNext(s, 1);
    ListingNext(s, 2);
    ListingNext(s, 3);
    ListingNext(s, 4);
    ListingNext(s, 5);
  }

  lemma ListingNext(s: set<Stage>, n: nat)
    requires n < STAGES
    ensures ListingTo(s, n + 1) == ListingTo(s, n) + If(Ranked(n) in s, Ranked(n))
    ensures ListingTo(s, 0) == []
  {}

  // ------------------------------------------------------------------ single changes

  lemma {:induction false} SentMore(sent: seq<Post>, p: Post)
    ensures SentStages(sent + [p]) == SentStages(sent) + [p.stage]
    ensures SentSet(sent + [p]) == SentSet(sent) + {p.stage}
  {
    var all := sent + [p];
    assert all[..|all| - 1] == sent && all[|all| - 1] == p;
    forall s ensures s in SentSet(all) <==> s in SentSet(sent) || s == p.stage {
      if s in SentSet(sent) {
        var i :| 0 <= i < |sent| && sent[i].stage == s;
        assert all[i].stage == s;
      }
    }
  }

  /** A stage may be begun: it fits behind what the journal holds, and the run has its grounds. */
  ghost predicate MayBegin(r2: bool, j: Journal, server: Server, stage: Stage, mode: Mode, grounds: seq<Event>) {
    && stage !in j.stages
    && (forall t :: t in j.stages ==> Rank(t) < Rank(stage))
    && j.candidate.Some? && (stage != Create ==> j.timerId.Some?)
    && Due(r2, j, server, stage)
    && Grounded(r2, j.initialTitle, Post(stage, Target(j, stage), j.candidate.value.beforeIds, "", mode, grounds))
    && AllHold(r2, j, server, grounds)
  }

  function Target(j: Journal, stage: Stage): Option<string> {
    if stage == Create then None else j.timerId
  }

  function Noted(j: Journal, stage: Stage, record: Record): Journal {
    j.(stages := j.stages[stage := record])
  }

  lemma NotedExtends(j: Journal, stage: Stage, record: Record)
    requires stage !in j.stages || j.stages[stage] == Unknown(record.idempotencyKey)
    ensures Extends(j, Noted(j, stage, record))
  {}

  lemma NotedStages(r2: bool, j: Journal, server: Server, stage: Stage, key: string)
    requires StagesOk(r2, j, server) && stage !in j.stages && Due(r2, j, server, stage)
    requires forall t :: t in j.stages ==> Rank(t) < Rank(stage)
    ensures StagesOk(r2, Noted(j, stage, Unknown(key)), server)
  {
    var n := Noted(j, stage, Unknown(key));
    forall s: Stage
      ensures Reads(j, server, s, Succeeded) ==> Reads(n, server, s, Succeeded)
      ensures ShownUnchanged(r2, j, server, s) ==> ShownUnchanged(r2, n, server, s)
    {
      StillUnchanged(r2, j, n, server, server, s);
    }
    forall s | s in n.stages ensures Due(r2, n, server, s) { assert Due(r2, j, server, s); }
  }

  /** Writing the intention down: still good, and nothing was sent. */
  lemma NotedIsGood(r2: bool, excluded: string, j: Journal, sent: seq<Post>, server: Server,
                    stage: Stage, mode: Mode, grounds: seq<Event>, key: string)
    requires Good(r2, excluded, Some(j), sent, server) && MayBegin(r2, j, server, stage, mode, grounds)
    ensures Good(r2, excluded, Some(Noted(j, stage, Unknown(key))), sent, server)
  {
    hide StagesOk, TimerOk, Grounded, PostOk, Extends;
    var n := Noted(j, stage, Unknown(key));
    NotedExtends(j, stage, Unknown(key));
    NotedStages(r2, j, server, stage, key);
    StillFound(excluded, j, n, server, server);
    StillSent(r2, j, n, server, server, sent);
  }

  function PostFor(j: Journal, stage: Stage, key: string, mode: Mode, grounds: seq<Event>): Post
    requires j.candidate.Some?
  {
    Post(stage, Target(j, stage), j.candidate.value.beforeIds, key, mode, grounds)
  }

  /** The request itself, once its intention is in the journal. */
  lemma NewPostOk(r2: bool, j: Journal, server: Server, stage: Stage, mode: Mode, grounds: seq<Event>, key: string)
    requires MayBegin(r2, j, server, stage, mode, grounds)
    ensures var n := Noted(j, stage, Unknown(key)); PostOk(r2, n, server, PostFor(n, stage, key, mode, grounds))
  {
    hide Due, Extends;
    NotedExtends(j, stage, Unknown(key));
    StillHolds(r2, j, Noted(j, stage, Unknown(key)), server, server, grounds);
  }

  /** Sending once the intention is durable. */
  lemma SendingIsGood(r2: bool, excluded: string, j: Journal, sent: seq<Post>, server: Server,
                      stage: Stage, mode: Mode, grounds: seq<Event>, key: string)
    requires Good(r2, excluded, Some(j), sent, server) && MayBegin(r2, j, server, stage, mode, grounds)
    ensures var n := Noted(j, stage, Unknown(key));
            && Good(r2, excluded, Some(n), sent, server)
            && Good(r2, excluded, Some(n), sent + [PostFor(n, stage, key, mode, grounds)], server)
    ensures stage !in j.stages && j.candidate.Some?
    ensures forall t :: t in j.stages ==> Rank(t) < Rank(stage)
  {
    hide ListingTo, SentStages, StagesOk, TimerOk, PostOk, Due, Grounded, AllHold;
    NotedIsGood(r2, excluded, j, sent, server, stage, mode, grounds, key);
    NewPostOk(r2, j, server, stage, mode, grounds, key);
    var n := Noted(j, stage, Unknown(key));
    var p := PostFor(n, stage, key, mode, grounds);
    SentMore(sent, p);
    ListingAppends(SentSet(sent), SentSet(sent + [p]), stage, STAGES);
    forall i | 0 <= i < |sent + [p]| ensures PostOk(r2, n, server, (sent + [p])[i]) {
      if i < |sent| { assert (sent + [p])[i] == sent[i]; }
    }
  }

  /** Writing the acceptance down. */
  lemma AcceptedIsGood(r2: bool, excluded: string, j: Journal, sent: seq<Post>, server: Server,
                       stage: Stage, operation: string, key: string)
    requires Good(r2, excluded, Some(j), sent, server)
    requires stage in j.stages && j.stages[stage] == Unknown(key) && stage in SentSet(sent)
    requires PostAnswer(key, 202, operation) in server.heard
    ensures Good(r2, excluded, Some(Noted(j, stage, Accepted(operation, key))), sent, server)
    ensures Extends(j, Noted(j, stage, Accepted(operation, key)))
  {
    hide StagesOk, TimerOk, Extends;
    var n := Noted(j, stage, Accepted(operation, key));
    NotedExtends(j, stage, Accepted(operation, key));
    assert n.stages.Keys == j.stages.Keys;
    StillStaged(r2, j, n, server, server);
    StillFound(excluded, j, n, server, server);
    StillSent(r2, j, n, server, server, sent);
  }

  /** Marking the UPDATE as one without effect. */
  lemma MarkedIsGood(r2: bool, excluded: string, j: Journal, sent: seq<Post>, server: Server)
    requires Good(r2, excluded, Some(j), sent, server) && ShownUnchanged(r2, j, server, Update)
    ensures Good(r2, excluded, Some(j.(noEffect := true)), sent, server)
    ensures Extends(j, j.(noEffect := true))
  {
    var n := j.(noEffect := true);
    assert Extends(j, n);
    hide StagesOk, TimerOk, Extends;
    StillUnchanged(r2, j, n, server, server, Update);
    StillStaged(r2, j, n, server, server);
    StillFound(excluded, j, n, server, server);
    StillSent(r2, j, n, server, server, sent);
  }
}
