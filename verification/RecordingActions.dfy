/** The guarded RENAME, MOVE, DELETE sequence on one approved recording. Every answer of the servers and of
    the operator is arbitrary; a run may end after any of them. */
module RecordingActions {
  import opened Strings
  import opened Wrappers

  const RENAMED := "VDR-SUITE-TEST-R3-RENAMED"

  datatype Action = Rename | Move | Delete

  const ACTIONS := [Rename, Move, Delete]

  /** A row of the native inventory; an absent value is None. */
  datatype NativeRow = NativeRow(
    fileName: string, startTime: Option<int>, duration: Option<int>, sizeMb: Option<int>)

  /** The answers to a validation, a dry run and a write. */
  datatype Validation = Validation(status: int, valid: bool, recordingId: string, tag: string)

  datatype DryAnswer = DryAnswer(status: int, dryRun: bool, executed: bool, valid: bool)

  datatype WriteAnswer = WriteAnswer(
    status: int, success: bool, executed: bool, readbackVerified: bool, recordingId: string, action: Action)

  /** What was read, sent, answered and approved, in order. A write is logged as soon as it may have been
      sent. */
  datatype Event =
    | Surveyed(action: Action, ids: seq<string>, rows: seq<NativeRow>)
    | Validated(action: Action, validation: Validation)
    | DryRun(action: Action, dry: DryAnswer)
    | Approved(action: Action, entered: string)
    | Write(action: Action, id: string, tag: string)
    | Answered(action: Action, answer: WriteAnswer)
    | ReadBack(action: Action, ids: seq<string>, rows: seq<NativeRow>)
    | Confirmed(action: Action, row: NativeRow)

  // -------------------------------------------------------------------- readback

  function Leaf(path: string): string {
    if path == "" then "" else if '/' in path then Leaf(path[1..]) else path
  }

  /** Everything by which the driver recognises its recording wherever it was moved. */
  predicate SameRecording(a: NativeRow, b: NativeRow) {
    Leaf(a.fileName) == Leaf(b.fileName) && a.startTime == b.startTime && a.duration == b.duration && a.sizeMb == b.sizeMb
  }

  function Candidates(before: NativeRow, rows: seq<NativeRow>): seq<NativeRow> {
    if rows == [] then []
    else
      (if SameRecording(before, rows[0]) && rows[0].fileName != before.fileName then [rows[0]] else [])
      + Candidates(before, rows[1..])
  }

  predicate StillThere(path: string, rows: seq<NativeRow>) {
    exists i :: 0 <= i < |rows| && rows[i].fileName == path
  }

  /** `require_readback`. */
  function Relocated(before: NativeRow, rows: seq<NativeRow>): Option<NativeRow> {
    if StillThere(before.fileName, rows) || |Candidates(before, rows)| != 1 then None
    else Some(Candidates(before, rows)[0])
  }

  /** How many rows carry these recognisable marks under another path. */
  function Count(before: NativeRow, rows: seq<NativeRow>): nat {
    if rows == [] then 0
    else (if SameRecording(before, rows[0]) && rows[0].fileName != before.fileName then 1 else 0) + Count(before, rows[1..])
  }

  lemma {:induction false} CandidatesAre(before: NativeRow, rows: seq<NativeRow>)
    ensures |Candidates(before, rows)| == Count(before, rows)
    ensures forall r :: r in Candidates(before, rows) <==>
              r in rows && SameRecording(before, r) && r.fileName != before.fileName
  {
    if rows != [] {
      CandidatesAre(before, rows[1..]);
      assert forall r :: r in rows <==> r == rows[0] || r in rows[1..];
    }
  }

  /** The readback succeeds exactly when the old path is gone and one row carries the recording's marks
      elsewhere, and then gives that row. */
  lemma {:induction false} RelocatedExactly(before: NativeRow, rows: seq<NativeRow>, found: NativeRow)
    ensures Relocated(before, rows) == Some(found) <==>
            && !StillThere(before.fileName, rows) && Count(before, rows) == 1
            && found in rows && SameRecording(before, found) && found.fileName != before.fileName
  {
    CandidatesAre(before, rows);
    var all := Candidates(before, rows);
    if |all| == 1 {
      assert all[0] in all;
      assert found in all <==> found == all[0];
    }
  }

  // ------------------------------------------------------------------- the tests

  function Occurrences(ids: seq<string>, id: string): nat {
    if ids == [] then 0 else (if ids[0] == id then 1 else 0) + Occurrences(ids[1..], id)
  }

  function AtPath(rows: seq<NativeRow>, path: string): nat {
    if rows == [] then 0 else (if rows[0].fileName == path then 1 else 0) + AtPath(rows[1..], path)
  }

  predicate IsHex(c: char) {
    '0' <= c <= '9' || 'a' <= c <= 'f'
  }

  /** The quoted tag of a safe mutation. */
  predicate IsTag(tag: string) {
    && |tag| >= 7 && tag[..5] == "\"vsr-" && tag[|tag| - 1] == '"'
    && forall i :: 5 <= i < |tag| - 1 ==> IsHex(tag[i])
  }

  /** The public ID and the native source are each there exactly once. */
  predicate StillUnique(id: string, current: NativeRow, ids: seq<string>, rows: seq<NativeRow>) {
    Occurrences(ids, id) == 1 && AtPath(rows, current.fileName) == 1
  }

  predicate Authorizes(v: Validation, id: string) {
    v.status == 200 && v.valid && v.recordingId == id && IsTag(v.tag)
  }

  predicate Harmless(d: DryAnswer) {
    d.status == 200 && d.dryRun && !d.executed && d.valid
  }

  function Name(action: Action): string {
    match action case Rename => "RENAME" case Move => "MOVE" case Delete => "DELETE"
  }

  predicate Consents(entered: string, action: Action, id: string) {
    entered == Name(action) + " " + id
  }

  predicate Succeeded(a: WriteAnswer, id: string, action: Action) {
    a.status == 200 && a.success && a.executed && a.readbackVerified && a.recordingId == id && a.action == action
  }

  /** What the run holds fixed. */
  datatype Target = Target(id: string, folder: string, fixture: NativeRow)

  /** The readback of an action, on the inventories read after its write, and the row it leads to. */
  predicate Proves(t: Target, action: Action, before: NativeRow, ids: seq<string>, rows: seq<NativeRow>,
                   row: NativeRow) {
    match action
    case Delete => !StillThere(before.fileName, rows) && Occurrences(ids, t.id) == 0 && row == before
    case Rename =>
      Relocated(before, rows) == Some(row) && Contains(row.fileName, RENAMED) && Occurrences(ids, t.id) == 1
    case Move =>
      Relocated(before, rows) == Some(row) && Contains(row.fileName, "/" + t.folder + "/") && Occurrences(ids, t.id) == 1
  }

  // ------------------------------------------------------- the tests, in terms of the data

  /** The ID is there at one place and no other. */
  ghost predicate Once(ids: seq<string>, id: string) {
    exists i: nat :: OnlyAt(ids, id, i)
  }

  ghost predicate OneRowAt(rows: seq<NativeRow>, path: string) {
    exists i :: 0 <= i < |rows| && rows[i].fileName == path && forall j :: 0 <= j < |rows| && rows[j].fileName == path ==> j == i
  }

  ghost predicate OnlyAt(ids: seq<string>, id: string, i: nat) {
    i < |ids| && ids[i] == id && forall j :: 0 <= j < |ids| && ids[j] == id ==> j == i
  }

  lemma OnlyAtNext(ids: seq<string>, id: string, i: nat)
    requires ids != [] && ids[0] != id
    ensures OnlyAt(ids[1..], id, i) <==> OnlyAt(ids, id, i + 1)
  {
    var rest := ids[1..];
    assert forall j :: 0 <= j < |rest| ==> rest[j] == ids[j + 1];
    assert forall j :: 0 < j < |ids| ==> ids[j] == rest[j - 1];
  }

  lemma OnlyAtFirst(ids: seq<string>, id: string)
    requires ids != [] && ids[0] == id
    ensures OnlyAt(ids, id, 0) <==> id !in ids[1..]
    ensures forall i: nat :: OnlyAt(ids, id, i) ==> i == 0
  {
    var rest := ids[1..];
    assert forall j :: 0 <= j < |rest| ==> rest[j] == ids[j + 1];
    assert forall j :: 0 < j < |ids| ==> ids[j] == rest[j - 1] && rest[j - 1] in rest;
  }

  lemma OnceNext(ids: seq<string>, id: string)
    requires ids != []
    ensures Once(ids, id) <==> if ids[0] == id then id !in ids[1..] else Once(ids[1..], id)
  {
    hide OnlyAt;
    if ids[0] == id {
      OnlyAtFirst(ids, id);
    } else {
      if i: nat :| OnlyAt(ids[1..], id, i) { OnlyAtNext(ids, id, i); }
      if i: nat :| OnlyAt(ids, id, i) {
        OnlyAtStart(ids, id, i);
        OnlyAtNext(ids, id, i - 1);
      }
    }
  }

  lemma OnlyAtStart(ids: seq<string>, id: string, i: nat)
    requires OnlyAt(ids, id, i) && ids[0] != id
    ensures i > 0
  {}

  lemma {:induction false} OccurrencesMean(ids: seq<string>, id: string)
    ensures Occurrences(ids, id) == 0 <==> id !in ids
    ensures Occurrences(ids, id) == 1 <==> Once(ids, id)
  {
    hide Once;
    if ids == [] {
      NotOnce(id);
    } else {
      OccurrencesMean(ids[1..], id);
      OnceNext(ids, id);
      assert id in ids <==> ids[0] == id || id in ids[1..];
    }
  }

  lemma NotOnce(id: string)
    ensures !Once([], id)
  {}

  function FileNames(rows: seq<NativeRow>): seq<string> {
    if rows == [] then [] else [rows[0].fileName] + FileNames(rows[1..])
  }

  lemma {:induction false} FileNamesAre(rows: seq<NativeRow>, path: string)
    ensures |FileNames(rows)| == |rows| && forall i :: 0 <= i < |rows| ==> FileNames(rows)[i] == rows[i].fileName
    ensures AtPath(rows, path) == Occurrences(FileNames(rows), path)
  {
    if rows != [] { FileNamesAre(rows[1..], path); }
  }

  lemma {:induction false} AtPathMeans(rows: seq<NativeRow>, path: string)
    ensures AtPath(rows, path) == 1 <==> OneRowAt(rows, path)
  {
    FileNamesAre(rows, path);
    OccurrencesMean(FileNames(rows), path);
    var names := FileNames(rows);
    if Once(names, path) {
      var i: nat :| OnlyAt(names, path, i);
      assert rows[i].fileName == path;
    }
    if OneRowAt(rows, path) {
      var i :| 0 <= i < |rows| && rows[i].fileName == path && forall j :: 0 <= j < |rows| && rows[j].fileName == path ==> j == i;
      assert OnlyAt(names, path, i);
    }
  }

  /** The last component of a path: what stands behind its last slash. */
  lemma {:induction false} LeafMeans(dir: string, name: string)
    requires '/' !in name
    ensures Leaf(name) == name && Leaf(dir + "/" + name) == name
    decreases |dir|
  {
    var path := dir + "/" + name;
    assert path[|dir|] == '/' && '/' in path;
    if dir == "" {
      assert path[1..] == name;
      NoSlash(name);
    } else {
      assert path[1..] == dir[1..] + "/" + name;
      LeafMeans(dir[1..], name);
    }
  }

  lemma {:induction false} NoSlash(name: string)
    requires '/' !in name
    ensures Leaf(name) == name
  {}

  /** The same leaf, start, duration and size. */
  ghost predicate SameMarks(a: NativeRow, b: NativeRow) {
    Leaf(a.fileName) == Leaf(b.fileName) && a.startTime == b.startTime && a.duration == b.duration && a.sizeMb == b.sizeMb
  }

  /** The old path is gone, and at one place, and no other, there is a row with the recording's marks. */
  ghost predicate OneElsewhere(before: NativeRow, rows: seq<NativeRow>, found: NativeRow) {
    && (forall i :: 0 <= i < |rows| ==> rows[i].fileName != before.fileName)
    && exists i: nat :: OnlyMarked(before, rows, i) && rows[i] == found
  }

  /** A mark for each row: whether it carries the recording's marks under another path. */
  function Marked(before: NativeRow, rows: seq<NativeRow>): seq<string> {
    if rows == [] then []
    else
      [if SameRecording(before, rows[0]) && rows[0].fileName != before.fileName then "x" else ""] + Marked(before, rows[1..])
  }

  lemma {:induction false} MarkedAre(before: NativeRow, rows: seq<NativeRow>)
    ensures |Marked(before, rows)| == |rows| && Count(before, rows) == Occurrences(Marked(before, rows), "x")
    ensures forall i :: 0 <= i < |rows| ==>
              (Marked(before, rows)[i] == "x" <==> SameMarks(before, rows[i]) && rows[i].fileName != before.fileName)
  {
    hide Leaf;
    if rows != [] { MarkedAre(before, rows[1..]); }
  }

  ghost predicate OnlyMarked(before: NativeRow, rows: seq<NativeRow>, i: nat) {
    i < |rows| && SameMarks(before, rows[i]) && forall j :: 0 <= j < |rows| && SameMarks(before, rows[j]) ==> j == i
  }

  lemma {:induction false} MarkedOnlyAt(before: NativeRow, rows: seq<NativeRow>, i: nat)
    requires forall k :: 0 <= k < |rows| ==> rows[k].fileName != before.fileName
    ensures OnlyAt(Marked(before, rows), "x", i) <==> OnlyMarked(before, rows, i)
  {
    hide SameMarks, Marked;
    MarkedAre(before, rows);
  }

  lemma {:induction false} CountMeans(before: NativeRow, rows: seq<NativeRow>)
    requires forall i :: 0 <= i < |rows| ==> rows[i].fileName != before.fileName
    ensures Count(before, rows) == 1 <==> exists i: nat :: OnlyMarked(before, rows, i)
  {
    hide OnlyMarked, OnlyAt, Count, Marked, Occurrences;
    MarkedAre(before, rows);
    OccurrencesMean(Marked(before, rows), "x");
    forall i: nat ensures OnlyAt(Marked(before, rows), "x", i) <==> OnlyMarked(before, rows, i) { MarkedOnlyAt(before, rows, i); }
  }

  /** `require_readback`, in terms of the rows. */
  lemma {:induction false} RelocatedMeans(before: NativeRow, rows: seq<NativeRow>, found: NativeRow)
    ensures Relocated(before, rows) == Some(found) <==> OneElsewhere(before, rows, found)
  {
    hide Relocated, Leaf, Count;
    RelocatedExactly(before, rows, found);
    if forall i :: 0 <= i < |rows| ==> rows[i].fileName != before.fileName {
      CountMeans(before, rows);
      if Relocated(before, rows) == Some(found) {
        var i: nat :| OnlyMarked(before, rows, i);
        var k :| 0 <= k < |rows| && rows[k] == found;
        assert SameMarks(before, rows[k]);
      }
    }
  }

  /** The quoted tag of a safe mutation: `vsr-` and lower-case hexadecimal digits, at least one. */
  ghost predicate QuotedTag(tag: string) {
    exists hex :: hex != "" && tag == "\"vsr-" + hex + "\""
                  && forall i :: 0 <= i < |hex| ==> '0' <= hex[i] <= '9' || 'a' <= hex[i] <= 'f'
  }

  lemma TagMeans(tag: string)
    ensures IsTag(tag) <==> QuotedTag(tag)
  {
    assert |"\"vsr-"| == 5 && |"\""| == 1 && "\""[0] == '"';
    if IsTag(tag) {
      var hex := tag[5..|tag| - 1];
      assert tag == tag[..5] + hex + [tag[|tag| - 1]];
      assert tag == "\"vsr-" + hex + "\"";
      assert forall i :: 0 <= i < |hex| ==> IsHex(hex[i]);
    }
    if QuotedTag(tag) {
      var hex :| hex != "" && tag == "\"vsr-" + hex + "\""
                 && forall i :: 0 <= i < |hex| ==> '0' <= hex[i] <= '9' || 'a' <= hex[i] <= 'f';
      assert tag[..5] == "\"vsr-" && tag[|tag| - 1] == '"';
      assert forall i :: 5 <= i < |tag| - 1 ==> tag[i] == hex[i - 5];
    }
  }

  ghost predicate ValidFor(v: Validation, id: string) {
    v.status == 200 && v.valid == true && v.recordingId == id && QuotedTag(v.tag)
  }

  ghost predicate OnlyDry(d: DryAnswer) {
    d.status == 200 && d.dryRun == true && d.executed == false && d.valid == true
  }

  /** The operator typed the action and the ID. */
  ghost predicate Typed(entered: string, action: Action, id: string) {
    match action
    case Rename => entered == "RENAME " + id
    case Move => entered == "MOVE " + id
    case Delete => entered == "DELETE " + id
  }

  ghost predicate ExecutedFor(a: WriteAnswer, id: string, action: Action) {
    && a.status == 200 && a.success == true && a.executed == true && a.readbackVerified == true
    && a.recordingId == id && a.action == action
  }

  /** What the inventories read after the write show: for RENAME and MOVE one relocated row under the new name or folder
      and the ID still there once; for DELETE neither the path nor the ID any more. */
  ghost predicate Shows(t: Target, action: Action, before: NativeRow, ids: seq<string>, rows: seq<NativeRow>,
                        row: NativeRow) {
    match action
    case Rename =>
      && OneElsewhere(before, rows, row) && Once(ids, t.id)
      && exists a, b :: row.fileName == a + "VDR-SUITE-TEST-R3-RENAMED" + b
    case Move =>
      && OneElsewhere(before, rows, row) && Once(ids, t.id)
      && exists a, b :: row.fileName == a + "/" + t.folder + "/" + b
    case Delete =>
      && (forall i :: 0 <= i < |rows| ==> rows[i].fileName != before.fileName) && t.id !in ids && row == before
  }

  lemma ProvesMeans(t: Target, action: Action, before: NativeRow, ids: seq<string>, rows: seq<NativeRow>,
                    row: NativeRow)
    ensures Proves(t, action, before, ids, rows, row) <==> Shows(t, action, before, ids, rows, row)
  {
    hide Relocated, OneElsewhere, Once, Occurrences, Contains;
    RelocatedMeans(before, rows, row);
    OccurrencesMean(ids, t.id);
    ContainsMeans(row.fileName, RENAMED);
    ContainsMeans(row.fileName, "/" + t.folder + "/");
    FolderMeans(row.fileName, t.folder);
  }

  lemma FolderMeans(path: string, folder: string)
    ensures (exists a, b :: path == a + ("/" + folder + "/") + b) <==> exists a, b :: path == a + "/" + folder + "/" + b
  {
    if a, b :| path == a + ("/" + folder + "/") + b { assert path == a + "/" + folder + "/" + b; }
    if a, b :| path == a + "/" + folder + "/" + b { assert path == a + ("/" + folder + "/") + b; }
  }

  lemma TestsMean(t: Target, action: Action, current: NativeRow, ids: seq<string>, rows: seq<NativeRow>,
                  v: Validation, d: DryAnswer, entered: string, a: WriteAnswer)
    ensures StillUnique(t.id, current, ids, rows) <==> Once(ids, t.id) && OneRowAt(rows, current.fileName)
    ensures Authorizes(v, t.id) <==> ValidFor(v, t.id)
    ensures Harmless(d) <==> OnlyDry(d)
    ensures Consents(entered, action, t.id) <==> Typed(entered, action, t.id)
    ensures Succeeded(a, t.id, action) <==> ExecutedFor(a, t.id, action)
  {
    hide Once, OneRowAt, QuotedTag, IsTag, Occurrences, AtPath;
    OccurrencesMean(ids, t.id);
    AtPathMeans(rows, current.fileName);
    TagMeans(v.tag);
    assert "RENAME" + " " == "RENAME " && "MOVE" + " " == "MOVE " && "DELETE" + " " == "DELETE ";
  }

  // ------------------------------------------------------------------- the order

  function Index(action: Action): nat {
    match action case Rename => 0 case Move => 1 case Delete => 2
  }

  /** The row in hand after the first `n` events: the one the last readback led to. */
  function Current(t: Target, log: seq<Event>, n: nat): NativeRow
    requires n <= |log|
  {
    if n == 0 then t.fixture
    else if log[n - 1].Confirmed? then log[n - 1].row
    else Current(t, log, n - 1)
  }

  /** What must have come just before an event, and how it must have turned out. */
  predicate Follows(t: Target, log: seq<Event>, k: nat)
    requires k < |log|
  {
    if k == 0 then log[0].Surveyed? && log[0].action == Rename
    else
      var last := log[k - 1];
      match log[k]
      case Surveyed(action, _, _) => last.Confirmed? && Index(action) == Index(last.action) + 1
      case Validated(action, _) =>
        last.Surveyed? && last.action == action && StillUnique(t.id, Current(t, log, k), last.ids, last.rows)
      case DryRun(action, _) => last.Validated? && last.action == action && Authorizes(last.validation, t.id)
      case Approved(action, _) => last.DryRun? && last.action == action && Harmless(last.dry)
      case Write(action, id, tag) =>
        && last.Approved? && last.action == action && Consents(last.entered, action, t.id) && id == t.id
        && k >= 3 && log[k - 3].Validated? && tag == log[k - 3].validation.tag
      case Answered(action, _) => last.Write? && last.action == action
      case ReadBack(action, _, _) => last.Answered? && last.action == action && Succeeded(last.answer, t.id, action)
      case Confirmed(action, row) =>
        last.ReadBack? && last.action == action && Proves(t, action, Current(t, log, k), last.ids, last.rows, row)
  }

  /** A log no run can leave but by keeping to the order. */
  predicate InOrder(t: Target, log: seq<Event>) {
    forall k :: 0 <= k < |log| ==> Follows(t, log, k)
  }

  lemma {:induction false} SameStart(t: Target, log: seq<Event>, more: seq<Event>, n: nat)
    requires n <= |log| && log <= more
    ensures Current(t, more, n) == Current(t, log, n)
  {
    if n > 0 { SameStart(t, log, more, n - 1); }
  }

  /** One event appended. */
  lemma {:induction false} OneMore(t: Target, log: seq<Event>, all: seq<Event>)
    requires InOrder(t, log) && log <= all && |all| == |log| + 1 && Follows(t, all, |log|)
    ensures InOrder(t, all)
    ensures Current(t, all, |all|) == if all[|log|].Confirmed? then all[|log|].row else Current(t, log, |log|)
  {
    hide StillUnique, Authorizes, Harmless, Consents, Succeeded, Proves;
    SameStart(t, log, all, |log|);
    forall k | 0 <= k < |log| ensures Follows(t, all, k) {
      assert Follows(t, log, k);
      SameStart(t, log, all, k);
    }
  }

  function Step(e: Event): nat {
    match e
    case Surveyed(_, _, _) => 0
    case Validated(_, _) => 1
    case DryRun(_, _) => 2
    case Approved(_, _) => 3
    case Write(_, _, _) => 4
    case Answered(_, _) => 5
    case ReadBack(_, _, _) => 6
    case Confirmed(_, _) => 7
  }

  /** The order leaves each event one place. */
  lemma {:induction false} PlaceOf(t: Target, log: seq<Event>, k: nat)
    requires InOrder(t, log) && k < |log|
    ensures k == 8 * Index(log[k].action) + Step(log[k])
  {
    hide Current, StillUnique, Authorizes, Harmless, Consents, Succeeded, Proves;
    assert Follows(t, log, k);
    if k > 0 { PlaceOf(t, log, k - 1); }
  }

  /** Whatever happened, the row in hand has the fixture's leaf, start, duration and size. */
  lemma {:induction false} StillTheFixture(t: Target, log: seq<Event>, n: nat)
    requires InOrder(t, log) && n <= |log|
    ensures SameMarks(t.fixture, Current(t, log, n))
  {
    hide StillUnique, Authorizes, Harmless, Consents, Succeeded;
    if n > 0 {
      StillTheFixture(t, log, n - 1);
      assert Follows(t, log, n - 1);
      if log[n - 1].Confirmed? && log[n - 1].action != Delete {
        RelocatedExactly(Current(t, log, n - 1), log[n - 2].rows, log[n - 1].row);
      }
    }
  }

  /** The action was carried out and read back: its write was answered as executed, and the inventories read
      after that prove it. */
  ghost predicate Shown(t: Target, log: seq<Event>, action: Action) {
    var k := Turn(action);
    && |log| >= k + 8
    && log[k + 4].Write? && log[k + 4].action == action && log[k + 4].id == t.id
    && log[k + 5].Answered? && ExecutedFor(log[k + 5].answer, t.id, action)
    && log[k + 6].ReadBack? && log[k + 7].Confirmed? && log[k + 7].action == action
    && Shows(t, action, Current(t, log, k), log[k + 6].ids, log[k + 6].rows, log[k + 7].row)
  }

  /** Where an action's turn begins: RENAME first, then MOVE, then DELETE, eight events each. */
  function Turn(action: Action): nat {
    match action case Rename => 0 case Move => 8 case Delete => 16
  }

  lemma TurnIs(action: Action)
    ensures Turn(action) == 8 * Index(action)
  {}

  /** The row in hand does not change within a turn. */
  lemma {:induction false} SameRow(t: Target, log: seq<Event>, k: nat, n: nat)
    requires InOrder(t, log) && n < 8 && k + n <= |log| && exists a: Action :: k == 8 * Index(a)
    ensures Current(t, log, k + n) == Current(t, log, k)
  {
    hide InOrder;
    if n > 0 {
      SameRow(t, log, k, n - 1);
      PlaceOf(t, log, k + n - 1);
    }
  }

  lemma ActionAt(a: Action, b: Action, n: nat, m: nat)
    requires 8 * Index(a) + n == 8 * Index(b) + m && n < 8 && m < 8
    ensures a == b && n == m
  {}

  /** The event at a place of an action's turn. */
  lemma EventAt(t: Target, log: seq<Event>, action: Action, n: nat)
    requires InOrder(t, log) && n < 8 && 8 * Index(action) + n < |log|
    ensures var e := log[8 * Index(action) + n]; e.action == action && Step(e) == n
    ensures Follows(t, log, 8 * Index(action) + n)
  {
    hide Follows;
    PlaceOf(t, log, 8 * Index(action) + n);
    ActionAt(action, log[8 * Index(action) + n].action, n, Step(log[8 * Index(action) + n]));
  }

  lemma ConfirmedIsShown(t: Target, log: seq<Event>, action: Action)
    requires InOrder(t, log) && |log| >= 8 * Index(action) + 8
    ensures Shown(t, log, action)
  {
    hide StillUnique, Authorizes, Harmless, Consents, Succeeded, Proves, Current, InOrder, Index, Turn, Shows,
         ExecutedFor;
    var k := 8 * Index(action);
    TurnIs(action);
    EventAt(t, log, action, 4);
    EventAt(t, log, action, 5);
    EventAt(t, log, action, 6);
    EventAt(t, log, action, 7);
    SameRow(t, log, k, 7);
    ProvesMeans(t, action, Current(t, log, k), log[k + 6].ids, log[k + 6].rows, log[k + 7].row);
    ExecutedMeans(log[k + 5].answer, t.id, action);
  }

  lemma ExecutedMeans(a: WriteAnswer, id: string, action: Action)
    ensures Succeeded(a, id, action) <==> ExecutedFor(a, id, action)
  {}

  /** What the order means for each write. It is preceded at once by its own survey, which showed ID and path once
      each, its own validation for that ID, whose tag it carries, its own dry run, which carried out nothing, and the
      operator's typed approval; every earlier action was written, answered as executed and proved by inventories
      read after that; and no action is written twice. */
  lemma WritesAreGuarded(t: Target, log: seq<Event>, i: nat)
    requires InOrder(t, log) && i < |log| && log[i].Write?
    ensures i == (match log[i].action case Rename => 4 case Move => 12 case Delete => 20) && log[i].id == t.id
    ensures log[i - 4].Surveyed? && Once(log[i - 4].ids, t.id) && OneRowAt(log[i - 4].rows, Current(t, log, i).fileName)
    ensures log[i - 3].Validated? && ValidFor(log[i - 3].validation, t.id) && log[i].tag == log[i - 3].validation.tag
    ensures log[i - 2].DryRun? && OnlyDry(log[i - 2].dry)
    ensures log[i - 1].Approved? && Typed(log[i - 1].entered, log[i].action, t.id)
    ensures forall k :: i - 4 <= k <= i ==> log[k].action == log[i].action
    ensures log[i].action != Rename ==> Shown(t, log, Rename)
    ensures log[i].action == Delete ==> Shown(t, log, Move)
    ensures forall j :: 0 <= j < |log| && log[j].Write? && log[j].action == log[i].action ==> j == i
  {
    hide StillUnique, Authorizes, Harmless, Consents, Current, Shown, InOrder, Index, Turn;
    hide Once, OneRowAt, ValidFor, OnlyDry, Typed, ExecutedFor;
    var action := log[i].action;
    var k := 8 * Index(action);
    PlaceOf(t, log, i);
    forall j | 0 <= j < |log| && log[j].Write? && log[j].action == action ensures j == i { PlaceOf(t, log, j); }
    EventAt(t, log, action, 0);
    EventAt(t, log, action, 1);
    EventAt(t, log, action, 2);
    EventAt(t, log, action, 3);
    EventAt(t, log, action, 4);
    SameRow(t, log, k, 1);
    SameRow(t, log, k, 4);
    TestsMean(t, action, Current(t, log, i), log[i - 4].ids, log[i - 4].rows, log[i - 3].validation, log[i - 2].dry,
              log[i - 1].entered, WriteAnswer(0, false, false, false, "", action));
    IndexIs(action);
    IndexIs(Rename);
    IndexIs(Move);
    if action != Rename { ConfirmedIsShown(t, log, Rename); }
    if action == Delete { ConfirmedIsShown(t, log, Move); }
  }

  lemma IndexIs(action: Action)
    ensures Index(action) == match action case Rename => 0 case Move => 1 case Delete => 2
  {}

  // --------------------------------------------------------------------- the run

  predicate SurveyPassed(t: Target, log: seq<Event>, action: Action) {
    && log != [] && log[|log| - 1].Surveyed? && log[|log| - 1].action == action
    && StillUnique(t.id, Current(t, log, |log|), log[|log| - 1].ids, log[|log| - 1].rows)
  }

  predicate PreflightPassed(t: Target, log: seq<Event>, action: Action, tag: string) {
    && |log| >= 2 && log[|log| - 2].Validated? && log[|log| - 2].action == action
    && Authorizes(log[|log| - 2].validation, t.id) && tag == log[|log| - 2].validation.tag
    && log[|log| - 1].DryRun? && log[|log| - 1].action == action && Harmless(log[|log| - 1].dry)
  }

  predicate ApprovalGiven(t: Target, log: seq<Event>, action: Action, tag: string) {
    && |log| >= 3 && PreflightPassed(t, log[..|log| - 1], action, tag)
    && log[|log| - 1].Approved? && log[|log| - 1].action == action
    && Consents(log[|log| - 1].entered, action, t.id)
  }

  predicate WriteSucceeded(t: Target, log: seq<Event>, action: Action) {
    && log != [] && log[|log| - 1].Answered? && log[|log| - 1].action == action
    && Succeeded(log[|log| - 1].answer, t.id, action)
  }

  /** What servers and operator answer in one turn, as far as they do: an inventory is the public IDs and the native
      rows. */
  datatype Answers = Answers(
    survey: Option<(seq<string>, seq<NativeRow>)>,
    validation: Option<Validation>,
    dry: Option<DryAnswer>,
    entered: Option<string>,
    write: Option<WriteAnswer>,
    readback: Option<(seq<string>, seq<NativeRow>)>)

  /** All the answers of a turn are there and are what they must be; `row` is the recording afterwards. */
  ghost predicate GoesThrough(t: Target, action: Action, before: NativeRow, a: Answers, row: NativeRow) {
    && SurveyAllows(t, before, a) && PreflightAllows(t, a)
    && a.entered.Some? && Typed(a.entered.value, action, t.id)
    && a.write.Some? && ExecutedFor(a.write.value, t.id, action)
    && a.readback.Some? && Shows(t, action, before, a.readback.value.0, a.readback.value.1, row)
  }

  ghost predicate SurveyAllows(t: Target, before: NativeRow, a: Answers) {
    a.survey.Some? && Once(a.survey.value.0, t.id) && OneRowAt(a.survey.value.1, before.fileName)
  }

  ghost predicate PreflightAllows(t: Target, a: Answers) {
    a.validation.Some? && ValidFor(a.validation.value, t.id) && a.dry.Some? && OnlyDry(a.dry.value)
  }

  /** The readback leaves no choice of row. */
  lemma ShowsOne(t: Target, action: Action, before: NativeRow, ids: seq<string>, rows: seq<NativeRow>,
                 row: NativeRow, other: NativeRow)
    requires Shows(t, action, before, ids, rows, row) && Shows(t, action, before, ids, rows, other)
    ensures row == other
  {
    hide Relocated, Contains, Occurrences;
    ProvesMeans(t, action, before, ids, rows, row);
    ProvesMeans(t, action, before, ids, rows, other);
  }

  class Session {
    const target: Target
    /** What the run is answered. */
    const answers: Action -> Answers
    var native: NativeRow
    var log: seq<Event>
    var passed: set<Action>

    constructor (target: Target, answers: Action -> Answers)
      ensures this.target == target && this.answers == answers && Safe() && log == [] && passed == {}
      ensures native == target.fixture
    {
      this.target, this.answers := target, answers;
      native, log, passed := target.fixture, [], {};
    }

    /** What holds at every instant of a run: the order was kept, and the row in hand is the one it led to. */
    ghost predicate Safe()
      reads this
    {
      InOrder(target, log) && native == Current(target, log, |log|)
    }

    /** The run stands within this action's turn, after so many events. */
    ghost predicate Within(action: Action, n: nat)
      reads this
    {
      Safe() && |log| == 8 * Index(action) + n
    }

    /** Everything that is read, sent, answered or approved goes into the log. */
    method Record(e: Event)
      requires Safe() && Follows(target, log + [e], |log|) && !e.Confirmed?
      modifies this`log
      ensures Safe() && log == old(log) + [e]
    {
      hide Follows;
      OneMore(target, log, log + [e]);
      log := log + [e];
    }

    /** The start of a turn: the recording is still what it was, and there once. */
    method Survey(action: Action) returns (ok: bool)
      requires Within(action, 0)
      modifies this`log
      ensures Safe() && old(log) <= log && |log| <= |old(log)| + 1
      ensures ok ==> Within(action, 1) && SurveyPassed(target, log, action)
      ensures ok <==> SurveyAllows(target, native, answers(action))
    {
      hide InOrder, Current, Once, OneRowAt, Occurrences, AtPath;
      if answers(action).survey.None? { return false; }
      var (ids, rows) := answers(action).survey.value;
      if log != [] { PlaceOf(target, log, |log| - 1); }
      Record(Surveyed(action, ids, rows));
      OccurrencesMean(ids, target.id);
      AtPathMeans(rows, native.fileName);
      ok := Occurrences(ids, target.id) == 1 && AtPath(rows, native.fileName) == 1;
    }

    /** `preflight`: validate and dry run. None where either fails. */
    method Preflight(action: Action) returns (tag: Option<string>)
      requires Within(action, 1) && SurveyPassed(target, log, action)
      modifies this`log
      ensures Safe() && old(log) <= log && |log| <= |old(log)| + 2
      ensures tag.Some? ==> Within(action, 3) && PreflightPassed(target, log, action, tag.value)
      ensures tag.Some? <==> PreflightAllows(target, answers(action))
    {
      hide InOrder, StillUnique, IsTag, QuotedTag;
      if answers(action).validation.None? { return None; }
      var validation := answers(action).validation.value;
      SameStart(target, log, log + [Validated(action, validation)], |log|);
      Record(Validated(action, validation));
      TagMeans(validation.tag);
      if validation.status != 200 || !validation.valid || validation.recordingId != target.id { return None; }
      if !IsTag(validation.tag) { return None; }
      if answers(action).dry.None? { return None; }
      var dry := answers(action).dry.value;
      Record(DryRun(action, dry));
      if dry.status != 200 || !dry.dryRun || dry.executed || !dry.valid { return None; }
      tag := Some(validation.tag);
    }

    /** `prompt_for_action`: what the operator typed, white space at its ends aside. */
    method Prompt(action: Action, tag: string) returns (ok: bool)
      requires Within(action, 3) && PreflightPassed(target, log, action, tag)
      modifies this`log
      ensures Safe() && old(log) <= log && |log| <= |old(log)| + 1
      ensures ok ==> Within(action, 4) && ApprovalGiven(target, log, action, tag)
      ensures ok <==> answers(action).entered.Some? && Typed(answers(action).entered.value, action, target.id)
    {
      hide InOrder, Authorizes, Harmless, Current, Typed;
      if answers(action).entered.None? { return false; }
      var entered := answers(action).entered.value;
      ghost var before := log;
      Record(Approved(action, entered));
      assert log[..|log| - 1] == before;
      TypedMeans(entered, action, target.id);
      ok := entered == Name(action) + " " + target.id;
    }

    /** `write_once`: one request, never repeated. False if the outcome is not the confirmed one. */
    method WriteOnce(action: Action, tag: string) returns (done: bool)
      requires Within(action, 4) && ApprovalGiven(target, log, action, tag)
      modifies this`log
      ensures Safe() && old(log) + [Write(action, target.id, tag)] <= log && |log| <= |old(log)| + 2
      ensures done ==> Within(action, 6) && WriteSucceeded(target, log, action)
      ensures done <==> answers(action).write.Some? && ExecutedFor(answers(action).write.value, target.id, action)
    {
      hide InOrder, Authorizes, Harmless, Consents, Current;
      Record(Write(action, target.id, tag));
      if answers(action).write.None? { return false; }
      var answer := answers(action).write.value;
      Record(Answered(action, answer));
      done := && answer.status == 200 && answer.success && answer.executed && answer.readbackVerified
              && answer.recordingId == target.id && answer.action == action;
    }

    /** The readback: both inventories read after the write, and what they must show. */
    method ReadBackAfter(action: Action) returns (done: bool)
      requires Within(action, 6) && WriteSucceeded(target, log, action)
      modifies this`log, this`native
      ensures Safe() && old(log) <= log && |log| <= |old(log)| + 2
      ensures done ==> Within(action, 8) && log[|log| - 1] == Confirmed(action, native)
      ensures !done ==> native == old(native) && |log| < 8 * Index(action) + 8
      ensures done ==>
                && answers(action).readback.Some?
                && Shows(target, action, old(native), answers(action).readback.value.0, answers(action).readback.value.1, native)
      ensures !done && answers(action).readback.Some? ==>
                forall row :: !Shows(target, action, native, answers(action).readback.value.0, answers(action).readback.value.1, row)
    {
      hide InOrder, Succeeded, Relocated, StillThere, Contains, Occurrences, Shows;
      if answers(action).readback.None? { return false; }
      var (ids, after) := answers(action).readback.value;
      Record(ReadBack(action, ids, after));
      forall row ensures Proves(target, action, native, ids, after, row) <==> Shows(target, action, native, ids, after, row) {
        ProvesMeans(target, action, native, ids, after, row);
      }
      var next := native;
      if action.Delete? {
        if StillThere(native.fileName, after) { return false; }
        if Occurrences(ids, target.id) != 0 { return false; }
      } else {
        var found := Relocated(native, after);
        if !found.Some? { return false; }
        if action.Rename? && !Contains(found.value.fileName, RENAMED) { return false; }
        if action.Move? && !Contains(found.value.fileName, "/" + target.folder + "/") { return false; }
        if Occurrences(ids, target.id) != 1 { return false; }
        next := found.value;
      }
      SameStart(target, log, log + [Confirmed(action, next)], |log|);
      OneMore(target, log, log + [Confirmed(action, next)]);
      log, native := log + [Confirmed(action, next)], next;
      done := true;
    }

    /** One turn of the loop: survey, preflight, approval, write, readback. It gets through exactly if every answer is
        what it must be. */
    method Perform(action: Action) returns (done: bool)
      requires Within(action, 0)
      modifies this`log, this`native, this`passed
      ensures Safe() && old(log) <= log
      ensures passed == old(passed) + (if done then {action} else {})
      ensures if done then Within(action, 8) && Shown(target, log, action) else |log| < 8 * Index(action) + 8
      ensures !done ==> native == old(native)
      ensures done ==> GoesThrough(target, action, old(native), answers(action), native)
      ensures !done ==> forall row :: !GoesThrough(target, action, old(native), answers(action), row)
    {
      hide InOrder, Current, SurveyPassed, PreflightPassed, ApprovalGiven, WriteSucceeded, Shown;
      hide SurveyAllows, PreflightAllows, Typed, ExecutedFor, Shows;
      done := Survey(action);
      if !done { return; }
      var tag := Preflight(action);
      if !tag.Some? { return false; }
      done := Prompt(action, tag.value);
      if !done { return; }
      done := WriteOnce(action, tag.value);
      if !done { return; }
      done := ReadBackAfter(action);
      if !done { return; }
      ConfirmedIsShown(target, log, action);
      passed := passed + {action};
    }

    /** The whole sequence. However it ends, the log is in order, the row in hand is the fixture, the actions passed are
        those that inventories read after their write have proved, and they are as many as the answers allow. */
    method Execute()
      requires Safe() && log == [] && passed == {}
      modifies this
      ensures Safe() && SameMarks(target.fixture, native)
      ensures forall action :: action in passed <==> Shown(target, log, action)
      ensures forall action, row :: Confirmed(action, row) in log ==> action in passed
      ensures Rename in passed <==> exists r :: GoesThrough(target, Rename, target.fixture, answers(Rename), r)
      ensures Move in passed <==>
                exists r, m :: && GoesThrough(target, Rename, target.fixture, answers(Rename), r)
                               && GoesThrough(target, Move, r, answers(Move), m)
      ensures Delete in passed <==>
                exists r, m, d :: && GoesThrough(target, Rename, target.fixture, answers(Rename), r)
                                  && GoesThrough(target, Move, r, answers(Move), m)
                                  && GoesThrough(target, Delete, m, answers(Delete), d)
    {
      hide InOrder, Shown, Current, SameMarks, GoesThrough;
      var n := 0;
      ghost var rows := [native];
      NothingInHand(target, log);
      while n < 3
        invariant n <= 3 && Safe() && |log| == 8 * n
        invariant passed == set i | 0 <= i < n :: ACTIONS[i]
        invariant |rows| == n + 1 && rows[0] == target.fixture && rows[n] == native
        invariant forall i :: 0 <= i < n ==> GoesThrough(target, ACTIONS[i], rows[i], answers(ACTIONS[i]), rows[i + 1])
      {
        assert Index(ACTIONS[n]) == n;
        var done := Perform(ACTIONS[n]);
        if !done {
          PassedAreShown(target, log, n);
          StillTheFixture(target, log, |log|);
          Passed(target, answers, rows, n);
          PassedBefore(n);
          return;
        }
        rows := rows + [native];
        n := n + 1;
      }
      PassedAreShown(target, log, 3);
      StillTheFixture(target, log, |log|);
      Passed(target, answers, rows, 3);
      PassedBefore(3);
    }
  }

  lemma PassedBefore(n: nat)
    requires n <= 3
    ensures var passed := set i | 0 <= i < n :: ACTIONS[i];
            (Rename in passed <==> n > 0) && (Move in passed <==> n > 1) && (Delete in passed <==> n > 2)
  {
    assert ACTIONS[0] == Rename && ACTIONS[1] == Move && ACTIONS[2] == Delete;
  }

  lemma {:induction false} NothingInHand(t: Target, log: seq<Event>)
    ensures log == [] ==> Current(t, log, |log|) == t.fixture
  {}

  lemma TypedMeans(entered: string, action: Action, id: string)
    ensures Consents(entered, action, id) <==> Typed(entered, action, id)
  {
    assert "RENAME" + " " == "RENAME " && "MOVE" + " " == "MOVE " && "DELETE" + " " == "DELETE ";
  }

  lemma GoesOneWay(t: Target, action: Action, before: NativeRow, a: Answers, row: NativeRow, other: NativeRow)
    requires GoesThrough(t, action, before, a, row) && GoesThrough(t, action, before, a, other)
    ensures row == other
  {
    hide Shows;
    ShowsOne(t, action, before, a.readback.value.0, a.readback.value.1, row, other);
  }

  /** Which turns get through, from where the first one does not. */
  lemma Passed(t: Target, answers: Action -> Answers, rows: seq<NativeRow>, n: nat)
    requires n <= 3 && |rows| == n + 1 && rows[0] == t.fixture
    requires forall i :: 0 <= i < n ==> GoesThrough(t, ACTIONS[i], rows[i], answers(ACTIONS[i]), rows[i + 1])
    requires n < 3 ==> forall row :: !GoesThrough(t, ACTIONS[n], rows[n], answers(ACTIONS[n]), row)
    ensures n > 0 <==> exists r :: GoesThrough(t, Rename, t.fixture, answers(Rename), r)
    ensures n > 1 <==> exists r, m :: && GoesThrough(t, Rename, t.fixture, answers(Rename), r)
                                      && GoesThrough(t, Move, r, answers(Move), m)
    ensures n > 2 <==> exists r, m, d :: && GoesThrough(t, Rename, t.fixture, answers(Rename), r)
                                         && GoesThrough(t, Move, r, answers(Move), m)
                                         && GoesThrough(t, Delete, m, answers(Delete), d)
  {
    hide GoesThrough;
    assert ACTIONS[0] == Rename && ACTIONS[1] == Move && ACTIONS[2] == Delete;
    assert n > 0 ==> GoesThrough(t, Rename, rows[0], answers(Rename), rows[1]);
    assert n > 1 ==> GoesThrough(t, Move, rows[1], answers(Move), rows[2]);
    assert n > 2 ==> GoesThrough(t, Delete, rows[2], answers(Delete), rows[3]);
    assert n == 0 ==> forall row :: !GoesThrough(t, Rename, rows[0], answers(Rename), row);
    assert n == 1 ==> forall row :: !GoesThrough(t, Move, rows[1], answers(Move), row);
    assert n == 2 ==> forall row :: !GoesThrough(t, Delete, rows[2], answers(Delete), row);
    if n > 0 {
      forall r | GoesThrough(t, Rename, t.fixture, answers(Rename), r) ensures r == rows[1] {
        GoesOneWay(t, Rename, t.fixture, answers(Rename), r, rows[1]);
      }
    }
    if n > 1 {
      forall m | GoesThrough(t, Move, rows[1], answers(Move), m) ensures m == rows[2] {
        GoesOneWay(t, Move, rows[1], answers(Move), m, rows[2]);
      }
    }
  }

  lemma PassedAreShown(t: Target, log: seq<Event>, n: nat)
    requires InOrder(t, log) && n <= 3 && 8 * n <= |log| < 8 * n + 8
    ensures forall action :: action in (set i | 0 <= i < n :: ACTIONS[i]) <==> Shown(t, log, action)
    ensures forall action, row :: Confirmed(action, row) in log ==> action in set i | 0 <= i < n :: ACTIONS[i]
  {
    hide InOrder, Proves, Current;
    var passed := set i | 0 <= i < n :: ACTIONS[i];
    forall action: Action ensures action in passed <==> Index(action) < n {
      assert ACTIONS[Index(action)] == action;
    }
    forall action: Action ensures action in passed <==> Shown(t, log, action) {
      if Index(action) < n { ConfirmedIsShown(t, log, action); }
    }
    forall action, row | Confirmed(action, row) in log ensures action in passed {
      var k :| 0 <= k < |log| && log[k] == Confirmed(action, row);
      PlaceOf(t, log, k);
    }
  }
}
