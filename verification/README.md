# Models of the repository's tools

A Dafny model of the tools under `tools/` that hold real algorithms, with proofs of what they promise. One
module per component; `dafny verify dfyconfig.toml` checks all of them.

**The compile cache** (`build_cpp_cached.py`). `Depfile` reads Make dependency files the way the script and
the shell lexer do, and `DepfileText` says what that means for the text. `FreshPair` judges an object and
its depfile against a source tree. `FileStore` models names, inodes, hard links and time stamps, and
`CacheSteps` runs `build_object` and `seed_stable_object` on it call by call, with a kill possible after
each call that leaves a trace. `CommandLine` sorts the arguments of a link command. `ObjectCache` is the
wrapper as a class over the disk, from the command to the final link line. `CacheHistory` takes the cache
through arbitrary histories, and `CacheLeftover` through one that ends badly. `ParallelBuild` lets workers
interleave under per-entry locks, `ParallelProgress` shows that they get on, `ParallelReuse` that what is
fresh is not compiled again, and `ParallelCommand` runs the workers of one command, each of which first asks
which entry to build.

**The journalled hardware driver** (`accept_api_v1_native_timer_hw_fresh_fixture_20261020.py`).
`Fingerprint` decodes and compares timer fingerprints, `TimerInventory` reads the bounded timer list,
`FixtureAnswers` holds the server's operations, the answers it gave and the script's tests on them,
`FixtureJournal` states what journal, requests and answers have to do with each other, and `FixtureDriver`
is the script as a class whose methods may be killed wherever they leave a trace. What a run establishes is
a list of events, each with the answer it rests on. A run may have helpful surroundings, which kill nothing,
answer every call and carry out every request; what it then reaches is proved, too.

**The Make audit** (`audit_make_test_inventory.py`). `MakeVariables` expands dependency lists; `MakeReport`
closes the dependency graph and gives the verdict.

**Smaller cores.** `Svdrp` reads replies cut anywhere, and `SvdrpReplies` says which conversations are
answered (`check_epg_scraper_metadata_live.py`); `Redaction` hides secrets in log lines, `FlaggedSecrets`
says which of the secrets the scanner flags it hides, and `RedactedText` says both in terms of the
characters (`check_phase63_runtime_evidence_secrets.py`); `RecordingPages` and `RecordingActions` follow
cursors and run the guarded rename, move and delete, for any answers of servers and operator
(`accept_api_v1_recording_actions_hw.py`); `ArtworkProbe` counts what a browser capture saw
(`browser_artwork_probe.js`).

## What is assumed

Each of these is a named predicate in a `requires`, a parameter, or built into a type.

- The compiler is a function of flags, source path and file contents. A success prints a readable depfile
  (plain paths, no colon in the target) that lists the source, and the same outcome follows wherever the
  listed files are the same (`FreshPair.Faithful`). Compiler, working directory, environment and the system
  headers that `-MMD` omits stay the same.
- The version define matters only to sources whose own text names the header or the macro
  (`FreshPair.VersionOnlyWhereNamed`). `source_needs_version` cannot see further where no depfile exists yet.
- Every edit gets a later time stamp than everything before it, no edit happens during a compile, sources
  are not hard-linked, and the cache directory holds no sources.
- SHA-256 is injective, so an entry is named by its source and flags (`FreshPair.Key`).
- A process killed with temporary names lying about does not come back under the same process ID
  (`FileStore.Disk.Unused`).
  `CacheSteps.LeftoverCarries` has the exact condition for a leftover name to do no harm, and
  `CacheLeftover.LeftoverNameCanSpoilAnEntry` a history after which it does.
- A kill between the two renames is not excluded outright: `CacheHistory.Safe` is the exact condition under
  which it is harmless. It looks only at the disk before the action and at what a compile would read, and
  `CacheHistory.KilledRebuildCanMissAnEdit` shows what happens without it. Everything else is always safe.
- Seeding reads the older pair without the older entry's lock. In `ParallelBuild.WellPosed` nobody rebuilds
  an entry that another worker seeds from; `ParallelCommand.OneCommandIsWellPosed` proves this for one command.
- A command lists each source once (`ParallelCommand.ListedOnce`).
- A source argument is looked up as typed but stored under its normalised path. The link line theorem
  therefore speaks of arguments that spell some source's normalised path (`ObjectCache.Spelled`); an
  argument in another spelling stays on the link line as it is, as the code has it.
- `str(Path(argument))`, letter case folding, white space and UTF-8 decoding are parameters. Where bytes
  matter a `string` has one character per byte. `FlaggedSecrets` takes for granted that the letters of a key are
  word characters and that neither they nor the equals sign and the colon are white space
  (`FlaggedSecrets.Ordinary`).
- The journal's rename is atomic and durable, and one driver runs at a time. Terminal operation states do
  not change, and the database reports the state the API reports (`FixtureAnswers.Later`,
  `FixtureDriver.Driver.ReadRow`). Every other answer of servers and operators is arbitrary.

## Where code and comments differ

- `seed_stable_object` is described as reusing a verified object; it verifies before it takes the lock and
  reads the old pair afterwards without the old entry's lock. The model has the steps in the code's order.
- `parse_depfile` turns an undecodable file into an empty list, but lets a lexer error through as an
  exception. The model keeps both: the first makes an entry stale, the second ends the run.
- The redactor is there so that a flagged secret does not show. A secret in quotation marks does, and so does one
  whose key an earlier match has taken for its value; `FlaggedSecrets.HiddenExactly` has the exact condition.

## Model

| member | source | states |
|---|---|---|
| Depfile.ParsePrint | tools/build_cpp_cached.py:140-153 | Reading back a printed Make rule gives exactly its prerequisites in order, for any plain paths, any target without a colon, any placement of line continuations and tabs, and any later rules. |
| DepfileText.WordsComeBack | tools/build_cpp_cached.py:150-153 | The shell lexer gives each word back as it is meant, whatever of it is written plainly, behind a backslash, or in single or double quotation marks, with the empty word in marks kept. |
| DepfileText.OpenQuotation | tools/build_cpp_cached.py:152 | A quotation that does not end is refused, wherever it begins. |
| DepfileText.ContinuationsMean | tools/build_cpp_cached.py:145 | A backslash before a line end becomes a space, wherever it stands. |
| DepfileText.FirstLineMeans | tools/build_cpp_cached.py:146 | The first line ends at the first of the characters `splitlines` breaks at. |
| DepfileText.ColonMeans | tools/build_cpp_cached.py:147-149 | What is read is the text behind the first colon; without one nothing is read. |
| DepfileText.EscapedSpaceSplits | tools/build_cpp_cached.py:149-153 | An escaped space in a rule does not hold a path together: the two paths around it are listed. |
| DepfileText.BlankEnds | tools/build_cpp_cached.py:152 | Space, tab, carriage return and line feed end a word, and between words they are passed over. |
| DepfileText.EmptyWordsGo | tools/build_cpp_cached.py:153 | Empty words are left out, wherever they stand, and nothing else is. |
| FreshPair.AllCurrentMeans | tools/build_cpp_cached.py:163-169 | The dependency loop passes exactly when every listed file exists and none is newer than the object. |
| FreshPair.CheckExactly | tools/build_cpp_cached.py:156-169 | A pair counts as fresh if and only if both files exist, the depfile can be read, lists something, and lists only files that exist and are no newer than the object; the check raises exactly where the lexer does. |
| FreshPair.CompileMakes | tools/build_cpp_cached.py:216-219 | A compile stored with a time stamp no older than any source makes a pair that counts as fresh, is exact, and lists all the compile read. |
| FreshPair.EditKeeps | tools/build_cpp_cached.py:156-169 | A later edit or a deletion can make a pair stale, never wrong: if it still counts as fresh, it is still exact on the changed tree, and its depfile still lists what the compile reads. |
| FreshPair.SeedKeeps | tools/build_cpp_cached.py:251-275 | Handing a fresh pair to the entry whose flags differ only in the version define keeps it exact there, if the source's text does not name the version. |
| FreshPair.StableOfPrior | tools/build_cpp_cached.py:302-314 | Putting another version into the flags does not change what remains of them without the version define, which `StableDrops` and `PriorKeeps` describe flag by flag. |
| FreshPair.StableDrops | tools/build_cpp_cached.py:226-227 | Wherever a flag stands among the flags, it is left out if it begins with `-DVDR_SUITE_SERVER_VERSION=`, and else stays between what stays of the flags around it. |
| FreshPair.StableCounts | tools/build_cpp_cached.py:302 | So a flag stays exactly as often as it was there, or not at all. |
| FreshPair.PriorKeeps | tools/build_cpp_cached.py:309-314 | In the prior version's flags every flag is at its place; only those that begin with `-DVDR_SUITE_SERVER_VERSION=` are replaced, by the define of that version. |
| FreshPair.NamesVersionMeans | tools/build_cpp_cached.py:236-241 | A source names the version if and only if it cannot be decoded, or its text holds `ServerBuildIdentity.h` or `VDR_SUITE_SERVER_VERSION`. |
| FileStore.LinkLeaves | tools/build_cpp_cached.py:268-269 | A hard link gives the new name the old file, time stamp included, and changes no inode and no other name. |
| FileStore.CopyLeaves | tools/build_cpp_cached.py:270-271 | So does the copy made where linking fails, in an inode of its own. |
| FileStore.ReplaceLeaves | tools/build_cpp_cached.py:217-222 | A rename followed by the unlink moves the file to its target name and rewrites no inode, also where both names already share one and the rename does nothing. |
| FileStore.EditLeaves | tools/build_cpp_cached.py:163-168 | An edit changes one source, with a later time stamp, and nothing in the cache, whatever is linked to what there. |
| CacheSteps.StoredLeaves | tools/build_cpp_cached.py:200-222 | Wherever the process is killed, the two renames have put exactly both, only the object, or none of the new files under the entry's names, and touched nothing else. |
| CacheSteps.BuildStep | tools/build_cpp_cached.py:184-223 | A build killed anywhere changes nothing but its own entry and its own temporary names, and rewrites no inode. |
| CacheSteps.BuildDelivers | tools/build_cpp_cached.py:184-223 | A build that ran to its end leaves its entry in order; if the compiler succeeds, the object is what a direct compile gives now. |
| CacheSteps.KilledBetween | tools/build_cpp_cached.py:216-222 | A kill between the two renames leaves the entry in order if and only if the depfile already there lists all that the new compile read, or lists nothing or a file that is not there; on a first build there is none. The test is on the disk as it was before the build. |
| CacheSteps.SeedLeaves | tools/build_cpp_cached.py:251-275 | Wherever a seeding is killed, the target has received the old object and depfile with their time stamps, the object alone, or nothing, and the old entry is unchanged. |
| CacheSteps.SeedDelivers | tools/build_cpp_cached.py:251-275 | A complete seeding makes the target fresh and exact, with the same contents and time stamps as the old entry, which stays as it was. |
| CacheSteps.SeedKilledBetween | tools/build_cpp_cached.py:265-274 | The exact condition again, for a seeding killed after its first rename: here the old depfile also keeps the entry stale by listing a file newer than the object handed over. |
| CacheSteps.LeftoverCarries | tools/build_cpp_cached.py:265-274 | Where a killed process of the same number left a temporary name, a turn of the seeding loop changes no other file if and only if the file behind that name has no other name, or none whose file differs from the one copied. |
| CacheHistory.ActionKeeps | tools/build_cpp_cached.py:184-275 | Each edit, deletion, build or seeding, killed or not, keeps the whole cache in order if and only if it is not a kill between two renames where the depfile already there lists only existing files, none too new, and misses one that a compile now reads. |
| CacheHistory.HistoryKeeps | tools/build_cpp_cached.py:184-275 | So every history of such actions keeps it in order. |
| CacheHistory.CacheAgreesWithCompile | tools/build_cpp_cached.py:156-223 | The law of the cache: after any history from an empty disk, `build_object` either fails where a direct compile fails, or leaves exactly the object of a direct compile of that source with those flags on the files as they are. |
| CacheHistory.OthersUntouched | tools/build_cpp_cached.py:263-272 | No history changes the object or the depfile of an entry none of its actions targets: recompiling a seeded entry never reaches through the shared inodes to the older version's files. |
| CacheHistory.KilledRebuildCanMissAnEdit | tools/build_cpp_cached.py:216-219 | Why the condition is needed: a concrete source, header and kill after which a stale object counts as fresh. |
| CacheHistory.DemoIsReached | tools/build_cpp_cached.py:184-223 | That disk is what two edits, a build and an edit leave, starting from nothing. |
| CacheLeftover.LeftoverNameCanSpoilAnEntry | tools/build_cpp_cached.py:265-275 | A history on which that test fails: after a seeding killed behind its link, a seeding from a newer version under the same process number writes into the older version's object, which from then on counts as fresh even after an edit of a header it includes. |
| CommandLine.CompileArguments | tools/build_cpp_cached.py:75-97 | The loop keeps exactly the arguments that are neither the value of an option before them nor a source, output, object or link-only argument, in order. |
| CommandLine.FlagsArgumentwise | tools/build_cpp_cached.py:75-97 | Argument by argument, in terms of the text: one that ends in a source or object suffix, begins with `-o`, `-l`, `-L`, `-Wl,` or `-fuse-ld=`, or is one of the named link options is left out; `-o`, `-Xlinker`, `-u` and `-T` take the next argument along; every other argument stays, between what stays of the arguments around it. |
| CommandLine.IsSourceMeans | tools/build_cpp_cached.py:71-72 | A source is an argument whose last path component is a non-empty stem, a dot and one of `c`, `cc`, `cpp`, `cxx`, `C`. |
| CommandLine.LastComponentMeans | tools/build_cpp_cached.py:71-72 | The last component is what follows the last slash, slashes and single dots at the end aside. |
| CommandLine.FindOutput | tools/build_cpp_cached.py:62-68 | Finds the first argument that names an output, as `-o` with an argument behind it or with the name attached, if there is one. |
| CommandLine.FlagsIgnoreLinkParts | tools/build_cpp_cached.py:75-97 | Two commands that differ in sources, outputs and link-only arguments compile with the same flags, and so share their entries. |
| ObjectCache.BuildKeepsFresh | tools/build_cpp_cached.py:184-223 | A build touches no entry that is fresh, and keeps the cache in order. |
| ObjectCache.DiskNeedsExactly | tools/build_cpp_cached.py:230-248 | The full flags are taken if and only if the source is missing, cannot be decoded or names header or macro, or the prior depfile lists nothing or a file called `ServerBuildIdentity.h`. |
| ObjectCache.PriorKeyMeans | tools/build_cpp_cached.py:309-332 | The entry asked about is the one for the flags with the prior version put in, or the current one if there is no prior version. |
| ObjectCache.CompilesOnlyIfStale | tools/build_cpp_cached.py:322-352 | `compile_one` runs the compiler only where the entry is stale and, with the reduced flags, neither the prior version's entry nor the current one is fresh; it raises only where some depfile cannot be split. |
| ObjectCache.SeedStep | tools/build_cpp_cached.py:251-275 | So does a seeding allowed by `compile_one`. |
| ObjectCache.MaySeedFrom | tools/build_cpp_cached.py:302-349 | Both entries that `compile_one` tries as seeds, the prior version's and the current one's, agree with the target in everything but the version define. |
| ObjectCache.ReplaceSources | tools/build_cpp_cached.py:278-279 | Argument by argument: an argument with a replacement becomes that object, every other stays, at its place. |
| ObjectCache.Wrapper.BuildObject | tools/build_cpp_cached.py:184-223 | The steps of `build_object` up to a kill: the resulting disk, how it ends in each case, one trace record per hit or compile, and an exact, fresh object whenever it returns. |
| ObjectCache.Wrapper.SeedStableObject | tools/build_cpp_cached.py:251-275 | The steps of `seed_stable_object`: the resulting disk; success if and only if the older entry is fresh and the check of the target does not raise; and then a fresh target with the older entry's object and depfile, unless it was fresh before. |
| ObjectCache.Wrapper.Reuse | tools/build_cpp_cached.py:337-348 | The loop over the two older entries: afterwards the target holds what the first fresh one of target, prior and current entry held, and nothing else fresh has changed. |
| ObjectCache.Wrapper.CompileOne | tools/build_cpp_cached.py:322-352 | Chooses the full or the reduced flags as the source demands, which keep every flag but the version define; returns None exactly where a check raises or the compiler fails; records one hit or compile as the cache was; hands the first fresh one of own, prior and current entry over unchanged; and yields an entry whose object is what the full flags give, compiled, found or seeded. |
| ObjectCache.Wrapper.LinkLine | tools/build_cpp_cached.py:317-359 | The link line has the command's arguments in their order; each that spells a source is an object equal to a direct compile with the full flags, including those finished earlier in the run, and every other argument is unchanged. Where every depfile can be read there is a link line if and only if every source compiles. |
| ObjectCache.Wrapper.Command | tools/build_cpp_cached.py:282-359 | The whole command: passed on as it is, with the cache untouched, exactly if it has no source, no output or a `-c`; else linked as above, and never given up where every source compiles and every depfile can be read. |
| ParallelBuild.StepKeeps | tools/build_cpp_cached.py:184-275 | Whatever worker moves next, every entry no worker holds is in order, compiled at most once and fresh if it was compiled, and every held entry is where its holder left it. |
| ParallelBuild.EveryInterleaving | tools/build_cpp_cached.py:322-355 | Under every interleaving each entry is compiled at most once with success and never both with success and in vain; there are as many compiles in vain as workers ended by one; entries are in order whenever their lock is free, and a worker that is through has an exact object. |
| ParallelBuild.InterleavingsAgree | tools/build_cpp_cached.py:354-358 | Two interleavings of the same fixed jobs hand the linker the same object contents for every source. |
| ParallelProgress.SomeoneMoves | tools/build_cpp_cached.py:194-223 | Progress: wherever the workers have come, either all are at an end or the next step of one of them changes its place. |
| ParallelProgress.HolderMoves | tools/build_cpp_cached.py:194-223 | Whoever holds a lock can go on. |
| ParallelProgress.MovesAreBounded | tools/build_cpp_cached.py:184-275 | Under every schedule the number of steps that change something is bounded by a number fixed at the start, so no run goes on for ever. |
| ParallelProgress.StuckIsEnded | tools/build_cpp_cached.py:194-223 | A world in which no step changes anything is one where all workers are at an end, and then no lock is held. |
| ParallelProgress.AllCanEnd | tools/build_cpp_cached.py:184-275 | From everywhere some schedule brings all workers to an end, with no lock held. |
| ParallelProgress.AllCanFinish | tools/build_cpp_cached.py:184-223 | If no compile fails and no depfile raises, every run can be continued until all workers are through, each with an exact object. |
| ParallelReuse.FreshIsReused | tools/build_cpp_cached.py:251-275 | If the target or one of its seeds is fresh and nobody else builds the target, it is never compiled in any interleaving, and the worker that is through has that very object and depfile. |
| ParallelCommand.RunIsOfJobs | tools/build_cpp_cached.py:322-349 | Every run of one command's workers, each reading the depfile it asks about while the others work, is a run of jobs fixed by what the cache would have answered at the start. |
| ParallelCommand.AnswerExactly | tools/build_cpp_cached.py:326-332 | A worker is told that the version matters exactly if its source is missing, cannot be decoded or names header or macro, or the prior entry's depfile lists nothing or the header; it raises only where that depfile cannot be split. |
| ParallelCommand.EveryCommand | tools/build_cpp_cached.py:322-355 | So in every order each worker is told what the cache said before anything was done; each entry is compiled at most once with success and never both with success and in vain; entries are in order whenever their lock is free; and a worker that is through has an object that is exactly what compiling its source with the full flags gives. |
| ParallelCommand.CommandsAgree | tools/build_cpp_cached.py:354-358 | In any two orders a worker that gets through builds the same entry with the same object contents. |
| ParallelCommand.EveryCommandCanEnd | tools/build_cpp_cached.py:354-358 | However far a command's workers have come, in whatever order, some continuation brings each of them to an end, with no lock held. |
| ParallelCommand.EveryCommandCanFinish | tools/build_cpp_cached.py:354-358 | If every source compiles and every depfile can be split, that continuation brings every worker through, with an exact object. |
| ParallelCommand.FreshIsReused | tools/build_cpp_cached.py:337-352 | In every order: where the version does not matter to a source, and its own, the prior version's or the current entry is fresh, the first of these is handed over as it was, and no compiler runs for it. |
| ParallelCommand.OneCommandIsWellPosed | tools/build_cpp_cached.py:302-349 | The workers of one command never seed from an entry another of them rebuilds, whatever the flags and prior version, even with a source listed twice. |
| Fingerprint.DecodeFields | tools/accept_api_v1_native_timer_hw_fresh_fixture_20261020.py:250-261 | The loop over `pos` and `fields` computes what `Decoded` says of the bytes after the prefix. |
| Fingerprint.Decode | tools/accept_api_v1_native_timer_hw_fresh_fixture_20261020.py:244-261 | The whole decoder, with the prefix test and the length limit. |
| Fingerprint.DecodedExactly | tools/accept_api_v1_native_timer_hw_fresh_fixture_20261020.py:244-261 | It accepts exactly the strings that are `native-timer-observed-state/1|` and 15 length-prefixed fields and nothing else, within 4096 bytes, leading zeros allowed, and returns those fields. |
| Fingerprint.DecodeEncode | tools/accept_api_v1_native_timer_hw_fresh_fixture_20261020.py:244-261 | It inverts the encoding for all 15 fields that fit, whatever bytes they hold. |
| Fingerprint.SameMeans | tools/accept_api_v1_native_timer_hw_fresh_fixture_20261020.py:240-266 | The comparison holds exactly when both strings spell 15 fields that agree at every index but 1. |
| Fingerprint.AbsentIsDifferent | tools/accept_api_v1_native_timer_hw_fresh_fixture_20261020.py:245-266 | An absent fingerprint agrees with nothing, not even with an absent one. |
| TimerInventory.AddPage | tools/accept_api_v1_native_timer_hw_fresh_fixture_20261020.py:146-151 | A page is accepted exactly when all IDs, old and new, are present and distinct. |
| TimerInventory.Timers | tools/accept_api_v1_native_timer_hw_fresh_fixture_20261020.py:133-154 | Against any server an answer has distinct non-empty IDs, at most 479 rows, and is the at most 16 pages read; a server that holds one inventory of distinct IDs gets it back whole up to 479 rows and is refused beyond. |
| FixtureAnswers.OnlyMatch | tools/accept_api_v1_native_timer_hw_fresh_fixture_20261020.py:424-439 | The search has one answer exactly if some row of the inventory has the event's channel, title, day and padded start time under a new ID that is not the excluded one, and no other row has. |
| FixtureAnswers.PaddedMeans | tools/accept_api_v1_native_timer_hw_fresh_fixture_20261020.py:437 | `zfill(4)`: zeros in front up to four characters, behind a sign if there is one, and nothing else. |
| FixtureAnswers.RowIdsAre | tools/accept_api_v1_native_timer_hw_fresh_fixture_20261020.py:383-386 | The list of IDs recorded before CREATE is that of the inventory's rows, in order. |
| FixtureJournal.RequestsFormAChain | tools/accept_api_v1_native_timer_hw_fresh_fixture_20261020.py:453-559 | The law of the journal, first part: over all runs, the requests sent are a prefix of CREATE, UPDATE, TOGGLE_OFF (then TOGGLE_OFF_RECOVERY in the second journal only), TOGGLE_ON, DELETE, so each at most once, under the idempotency key its journal record holds; and a stage is recorded as accepted only with the operation that a 202 answer to its own key named. |
| FixtureJournal.RequestsFollowSuccess | tools/accept_api_v1_native_timer_hw_fresh_fixture_20261020.py:477-559 | Second part: for every request sent, the operation of each earlier stage did succeed, as read in that run, or is UPDATE's or in continuation mode the first toggle's, failed, and a row read from the server passed every no-effect test; the recovery toggle is sent in continuation mode only, the first toggle never there. |
| FixtureJournal.RequestsStayOnFixture | tools/accept_api_v1_native_timer_hw_fresh_fixture_20261020.py:424-450 | Third part: every request after CREATE addresses one timer, the only row of a complete inventory that matches the event, not the excluded one and not in the inventory recorded before CREATE, whose IDs it carries; and it goes out on a 200 answer that describes that timer, field by field, as managed, bound, not recording, not pending, strongly tagged, and titled and enabled as that stage needs. |
| FixtureJournal.NotedIsGood | tools/accept_api_v1_native_timer_hw_fresh_fixture_20261020.py:361-363 | Writing an intention down keeps the invariant, with nothing sent yet. |
| FixtureJournal.SendingIsGood | tools/accept_api_v1_native_timer_hw_fresh_fixture_20261020.py:361-365 | So does sending it once it is durable, whether or not an answer arrives. |
| FixtureJournal.AcceptedIsGood | tools/accept_api_v1_native_timer_hw_fresh_fixture_20261020.py:372-375 | So does recording its acceptance, or failing to. |
| FixtureJournal.MarkedIsGood | tools/accept_api_v1_native_timer_hw_fresh_fixture_20261020.py:342-344 | So does marking the UPDATE as without effect. |
| FixtureJournal.StillGood | tools/accept_api_v1_native_timer_hw_fresh_fixture_20261020.py:321-355 | So does anything the server does or answers, short of taking back a terminal state. |
| FixtureDriver.MayBeginNow | tools/accept_api_v1_native_timer_hw_fresh_fixture_20261020.py:477-559 | Where the script calls `submit` for a stage without a record, that stage is next in the chain, and every earlier operation has succeeded or was shown by its row to have had no effect. |
| FixtureDriver.FoundIsGood | tools/accept_api_v1_native_timer_hw_fresh_fixture_20261020.py:424-445 | Adopting the only match of an inventory read after CREATE succeeded keeps the invariant. |
| FixtureDriver.Driver.Save | tools/accept_api_v1_native_timer_hw_fresh_fixture_20261020.py:58-65 | Killed before or after the rename, the file holds the old journal or the new one. |
| FixtureDriver.Driver.Operation | tools/accept_api_v1_native_timer_hw_fresh_fixture_20261020.py:321-355 | Returns only with a true event: the stage's own operation is in state succeeded, or it is UPDATE's, failed, and a row the server gave passed all tests; an unknown record stops the run. |
| FixtureDriver.Driver.MarkUpdate | tools/accept_api_v1_native_timer_hw_fresh_fixture_20261020.py:341-347 | The no-effect mark is made durable only for an UPDATE whose row passed all tests. |
| FixtureDriver.Driver.Submit | tools/accept_api_v1_native_timer_hw_fresh_fixture_20261020.py:358-378 | A stage with a record is never sent; one without is sent at most once, after its intention became durable. |
| FixtureDriver.Driver.ValidDetail | tools/accept_api_v1_native_timer_hw_fresh_fixture_20261020.py:162-182 | Never passes for the excluded timer, and passes only if the server answered 200 with that timer titled and enabled as asked, managed, verified, neither recording nor pending, and strongly tagged, each field by itself; it does pass where the server shows the fixture that way. |
| FixtureDriver.Driver.ChooseCandidate | tools/accept_api_v1_native_timer_hw_fresh_fixture_20261020.py:381-421 | What is recorded before CREATE is the non-empty list of all IDs of one complete inventory. |
| FixtureDriver.Driver.FindFixture | tools/accept_api_v1_native_timer_hw_fresh_fixture_20261020.py:424-450 | The timer is the one row of a complete inventory that matches the event and is neither known from before nor excluded; with none or several the run goes on or stops. |
| FixtureDriver.Driver.Begin | tools/accept_api_v1_native_timer_hw_fresh_fixture_20261020.py:453-492 | A run that gets past the beginning has CREATE's operation in state succeeded, as read in this run, and a timer whose ID is not empty, not the excluded one, new, and made of letters, digits, colon, dot, underscore and hyphen. |
| FixtureDriver.Driver.UpdateTitle | tools/accept_api_v1_native_timer_hw_fresh_fixture_20261020.py:494-516 | UPDATE's operation has succeeded and the new title was read back, or its row shows that it changed nothing; the journal's mark says which. |
| FixtureDriver.Driver.Recover | tools/accept_api_v1_native_timer_hw_fresh_fixture_20261020.py:527-542 | In continuation mode a request goes out only if the first toggle's operation failed and a row the server gave passed the fingerprint, title, state and idle tests. |
| FixtureDriver.Driver.SwitchOff | tools/accept_api_v1_native_timer_hw_fresh_fixture_20261020.py:527-543 | Leaves the toggle's operation in state succeeded, in either mode, and all that TOGGLE_ON stands on. |
| FixtureDriver.Driver.SwitchOn | tools/accept_api_v1_native_timer_hw_fresh_fixture_20261020.py:545-552 | Leaves TOGGLE_ON's operation in state succeeded, and all that DELETE stands on. |
| FixtureDriver.Driver.Finish | tools/accept_api_v1_native_timer_hw_fresh_fixture_20261020.py:545-559 | Keeps the invariant to the end, wherever it stops; at the end DELETE's operation has succeeded. |
| FixtureDriver.Driver.Run | tools/accept_api_v1_native_timer_hw_fresh_fixture_20261020.py:453-559 | One run, ended or killed anywhere, keeps the invariant; the requests it adds are in its mode and rest on what this very run established. And it gets there: a run without a journal that nobody kills, on a server that answers and carries out every request, sends CREATE, UPDATE, TOGGLE_OFF, TOGGLE_ON and DELETE and ends with the last one succeeded. |
| FixtureDriver.Driver.Campaign | tools/accept_api_v1_native_timer_hw_fresh_fixture_20261020.py:453-559 | Any sequence of runs in any of the journal's modes keeps the invariant, whatever becomes of each run. |
| MakeVariables.ParseMakeVariables | tools/audit_make_test_inventory.py:141-158 | The loop over the assignment lines gives every variable the value the lines define. |
| MakeVariables.LastPlainDecides | tools/audit_make_test_inventory.py:151-157 | The last `=` or `:=` hides all before it; a later `?=` does nothing, and what later `+=` lines bring follows in order. |
| MakeVariables.ReferenceMeans | tools/audit_make_test_inventory.py:176-178 | A word refers to a variable exactly if it is `$(`, a name of letters, digits and underscores, and `)`; the variable is that name. |
| MakeVariables.TokensMean | tools/audit_make_test_inventory.py:171-188 | Of the others, `|` is skipped, a word that begins with `#` ends the list, one with a `$`, `%` or `=` in it is ignored, and exactly the rest are dependencies. |
| MakeVariables.DependencyTokens | tools/audit_make_test_inventory.py:161-189 | The worklist loop terminates, on the unexpanded variables and then the queue, with the result of the walk that the two laws below describe. |
| MakeVariables.OnceIsEnough | tools/audit_make_test_inventory.py:161-189 | Without cyclic references, expanding each variable once gives exactly the literal words of the full recursive expansion before its first `#` word. |
| MakeVariables.ReachableLiterals | tools/audit_make_test_inventory.py:161-189 | Without `#` words, cyclic or not, the result is exactly the words without `$`, `%` and `=`, other than `|`, in the text and in the variables it leads to, where a variable leads on to each `NAME` with `$(NAME)` among its words. |
| MakeReport.TransitiveDependencies | tools/audit_make_test_inventory.py:236-254 | On any graph, cyclic or not: exactly the names a chain of dependencies leads to. |
| MakeReport.LeastClosed | tools/audit_make_test_inventory.py:236-254 | That is the least set that holds the root and is closed under dependencies. |
| MakeReport.CheckCanonical | tools/audit_make_test_inventory.py:308-320 | Complains of exactly the canonical groups that are missing or defined elsewhere. |
| MakeReport.CheckRequired | tools/audit_make_test_inventory.py:333-336 | Complains of exactly the required targets not reached. |
| MakeReport.GroupedTargets | tools/audit_make_test_inventory.py:338-347 | Exactly the names reached from a public group that exists. |
| MakeReport.BuildReport | tools/audit_make_test_inventory.py:304-403 | The error list is exactly what there is to complain of, and empty exactly when the inventory passes. |
| MakeReport.Audit | tools/audit_make_test_inventory.py:20-72 | For the script's own groups, pairs and prefixes, written out: no error if and only if the seven canonical groups stand in `mk/test-groups.mk` alone, every recipe is in one file, the twelve required pairs are reached, every target called `test` or `test-...` that is neither public, canonical nor manual is reached from a public group, and the file lists agree. |
| MakeReport.PassesMeans | tools/audit_make_test_inventory.py:304-403 | The same of the general definition with the script's constants put in. |
| MakeReport.NothingToReport | tools/audit_make_test_inventory.py:304-403 | No complaint is justified if and only if every canonical group is in its file, every target has its recipe in one file, every required target is reached, every test target that is not exempt is reached from a public group, and the test sources found are those referenced. |
| Svdrp.FetchMeans | tools/check_epg_scraper_metadata_live.py:17-24 | Receiving loses and invents no byte; where the first line fits, whether it succeeds depends on the bytes alone. |
| Svdrp.Connection.ReadLine | tools/check_epg_scraper_metadata_live.py:17-28 | The line, its newline and what is still unread together are what was unread before; the outcome on a line that fits does not depend on the cuts. |
| Svdrp.CutsMatterExactly | tools/check_epg_scraper_metadata_live.py:17-28 | All ways of cutting a stream give the same first line or failure if and only if the line is not in the last 1024 bytes below the limit with more bytes behind. |
| Svdrp.SmallIsCalm | tools/check_epg_scraper_metadata_live.py:17-24 | A stream of at most 8192 bytes has no such line. |
| Svdrp.ParsesExactly | tools/check_epg_scraper_metadata_live.py:31-39 | A line is taken exactly if it is a three-digit code, a space or a hyphen, and a text that can be decoded; code, last mark and payload are those. |
| Svdrp.RefusedFor | tools/check_epg_scraper_metadata_live.py:31-36 | It is refused as too short or without a code exactly if it has fewer than four characters or one of the first three is no digit, and for its separator exactly if the fourth is neither space nor hyphen. |
| Svdrp.JoinMeans | tools/check_epg_scraper_metadata_live.py:69 | The payloads are joined by one line feed each, with none at the ends. |
| Svdrp.WireTooLong | tools/check_epg_scraper_metadata_live.py:54-69 | A reply of more than 64 lines is refused. |
| SvdrpReplies.AnsweredExactly | tools/check_epg_scraper_metadata_live.py:42-69 | An answer is got if and only if the stream begins with a greeting, one last line under 220, and up to 64 lines of which only the last is marked so and whose codes agree; it is their code and their joined payloads. |
| SvdrpReplies.AgreeMeans | tools/check_epg_scraper_metadata_live.py:58-61 | Codes agree exactly if, apart from lines under 000 at the beginning, all are the same. |
| SvdrpReplies.TakeLineMeans | tools/check_epg_scraper_metadata_live.py:26-28 | A line is the text up to the line feed without the carriage returns at its end. |
| Svdrp.WireReadBack | tools/check_epg_scraper_metadata_live.py:31-69 | A greeting and a reply of 1 to 64 lines come back as the reply's code and its texts joined by line feeds, whatever follows. |
| Svdrp.WireCollects | tools/check_epg_scraper_metadata_live.py:54-69 | The same of the reply loop alone, from any point within it. |
| Svdrp.NextLine | tools/check_epg_scraper_metadata_live.py:17-28 | One line off a calm stream, in terms of its bytes. |
| Svdrp.Request | tools/check_epg_scraper_metadata_live.py:42-69 | The code, the payload or the failure are a function of the bytes of the stream, for every way of cutting it. |
| Redaction.RedactedHasNoToken | tools/check_phase63_runtime_evidence_secrets.py:42-46 | Whatever the line, its redacted form holds no match of the enrollment-token pattern, after all three substitutions and the cut. |
| Redaction.MatchIsFound | tools/check_phase63_runtime_evidence_secrets.py:37-39 | The left-to-right scan finds every match of the pattern. |
| Redaction.NothingToHide | tools/check_phase63_runtime_evidence_secrets.py:45 | A line without a token passes the last substitution unchanged. |
| Redaction.AuthorizationLeavesNoTrace | tools/check_phase63_runtime_evidence_secrets.py:36-43 | Lines that agree up to and with their first authorization header are redacted alike, whatever follows it; `RedactedText.HeaderFound` says what such a header is. |
| RedactedText.AuthorizationOnText | tools/check_phase63_runtime_evidence_secrets.py:36-43 | On the text: 13 characters that fold to `authorization`, white space, a colon, white space and a value, with no such header before: the substitution prints all up to the value and `[REDACTED]` for it. |
| RedactedText.AuthorizationValueLeavesNoTrace | tools/check_phase63_runtime_evidence_secrets.py:36-46 | And the redacted line is the same whatever the value is. |
| RedactedText.HeaderValueIsHidden | tools/check_phase63_runtime_evidence_secrets.py:23-43 | The counterpart for every header the scanner's pattern finds: from its value on, at the latest, the line is replaced. |
| RedactedText.HeaderFound | tools/check_phase63_runtime_evidence_secrets.py:36 | A header is found at a position exactly if those 13 characters stand there, with white space and a colon behind them. |
| Redaction.SecretLeavesNoTrace | tools/check_phase63_runtime_evidence_secrets.py:33-44 | Take two lines that, up to and with their first authorization header, differ only in one value which the scan for assignments takes at a key it comes by, the first or a later one: they are redacted alike. |
| RedactedText.KeyExactly | tools/check_phase63_runtime_evidence_secrets.py:33-35 | A key is found exactly where one of the three words `pending_credential_secret`, `credential_secret`, `enrollment_token` stands, in any case. |
| RedactedText.AssignmentExactly | tools/check_phase63_runtime_evidence_secrets.py:33-35 | A value is taken exactly behind such a word, white space, an equals sign or colon, and white space: the longest stretch, not empty, without white space, comma, semicolon and quotation mark. |
| RedactedText.NoTokenStands | tools/check_phase63_runtime_evidence_secrets.py:42-46 | A redacted line has at most 500 characters, and in none of them `ent_` with 16 or more word characters or hyphens behind it stands by itself. |
| RedactedText.RedactedLine | tools/check_phase63_runtime_evidence_secrets.py:42-46 | The redacted line is the first 500 characters of the line with its authorization value, the values behind its keys and the rest of its tokens masked, and nothing else changed. |
| RedactedText.NothingToRedact | tools/check_phase63_runtime_evidence_secrets.py:42-46 | A line with none of these goes through as it is, up to 500 characters. |
| RedactedText.TokensAreMasked | tools/check_phase63_runtime_evidence_secrets.py:37-45 | The last substitution prints the line with what follows `ent_` in each such token replaced by the mark, and every other character as it is. |
| FlaggedSecrets.OutputIsMasked | tools/check_phase63_runtime_evidence_secrets.py:33-44 | The substitution prints the line with each stretch of characters taken as values replaced by the mark, and every other character as it is. |
| FlaggedSecrets.HiddenExactly | tools/check_phase63_runtime_evidence_secrets.py:15-44 | For every key the scanner flags: its value is hidden if and only if it begins with none of white space, comma, semicolon and quotation mark, and either the scan comes by the key, or key, sign and value stand together without white space. What is hidden ends at the next of those characters, and that one stays: of `credential_secret=abc;def` the part `;def` is printed. |
| RedactedText.FlaggedOnText | tools/check_phase63_runtime_evidence_secrets.py:15-44 | The same on the text: word, sign and value as written. |
| FlaggedSecrets.PassedOver | tools/check_phase63_runtime_evidence_secrets.py:33-44 | The scan fails to come by a flagged key exactly where the value of an earlier match has taken the key in. |
| FlaggedSecrets.QuotedSecretIsPrinted | tools/check_phase63_runtime_evidence_secrets.py:15-46 | One way to be printed: a secret in quotation marks is flagged and goes through unchanged. |
| FlaggedSecrets.SwallowedSecretIsPrinted | tools/check_phase63_runtime_evidence_secrets.py:15-46 | The other: of `enrollment_token=credential_secret = abc` the flagged second secret, a plain one, is printed, because the first match takes its key as a value. |
| RecordingPages.Public | tools/accept_api_v1_recording_actions_hw.py:225-245 | Succeeds exactly when following the cursors from the empty one, over answers with status 200 and a list each, leads to an empty cursor within 100 pages and 10000 rows, and then returns the rows of those pages in order. |
| RecordingPages.RepeatNeverEnds | tools/accept_api_v1_recording_actions_hw.py:241-242 | Stopping at a repeated cursor is right: such a walk has no end. |
| RecordingActions.RelocatedExactly | tools/accept_api_v1_recording_actions_hw.py:170-184 | The readback succeeds exactly when the old path is gone and one row carries the recording's leaf, start, duration and size elsewhere, and gives that row. |
| RecordingActions.RelocatedMeans | tools/accept_api_v1_recording_actions_hw.py:170-184 | Which is: no row at the old path, and one row, wherever it stands, with that leaf, start, duration and size. |
| RecordingActions.LeafMeans | tools/accept_api_v1_recording_actions_hw.py:173 | The leaf of a path is what follows its last slash. |
| RecordingActions.TagMeans | tools/accept_api_v1_recording_actions_hw.py:299-301 | A validated tag is `vsr-` and hexadecimal digits in quotation marks. |
| RecordingActions.TestsMean | tools/accept_api_v1_recording_actions_hw.py:187-324 | What each test of a turn lets through, in terms of the answers: ID and path once, status 200 and the flags as they should be, the line `RENAME`, `MOVE` or `DELETE` and the ID, the write executed and read back for this ID and action. |
| RecordingActions.ProvesMeans | tools/accept_api_v1_recording_actions_hw.py:434-455 | What a readback must show for each action: for RENAME a path with `VDR-SUITE-TEST-R3-RENAMED` in it, for MOVE one through the approved folder, for DELETE path and ID gone. |
| RecordingActions.WritesAreGuarded | tools/accept_api_v1_recording_actions_hw.py:413-456 | In every log a run can leave, a write directly follows its own survey, validation, dry run and approval, each with the answer it needed, under the same ID and the tag of that validation; every earlier action was answered as executed and proved by inventories read after its write; and no action is written twice. |
| RecordingActions.StillTheFixture | tools/accept_api_v1_recording_actions_hw.py:413-456 | Through every readback the tracked row keeps the fixture's leaf, start, duration and size. |
| RecordingActions.ConfirmedIsShown | tools/accept_api_v1_recording_actions_hw.py:434-456 | A turn that reached its end has a write answered as executed, and after it a readback that gives the relocated row, or shows the row and the public ID gone. |
| RecordingActions.Session.Survey | tools/accept_api_v1_recording_actions_hw.py:415-423 | A turn goes on if and only if the survey was answered and public ID and tracked path are each there exactly once. |
| RecordingActions.Session.Prompt | tools/accept_api_v1_recording_actions_hw.py:187-194 | And if and only if the operator typed the action and the ID. |
| RecordingActions.Session.ReadBackAfter | tools/accept_api_v1_recording_actions_hw.py:435-455 | Passes if and only if the inventories read after the write show it: for DELETE the path and the ID gone, else one relocated row at the name or folder asked for and the ID still there once; the tracked row becomes that row. |
| RecordingActions.Session.Preflight | tools/accept_api_v1_recording_actions_hw.py:286-308 | Passes if and only if the validation was answered valid for this ID with a well-formed tag and the dry run as not executed; a validation and a dry run are all it sends. |
| RecordingActions.Session.WriteOnce | tools/accept_api_v1_recording_actions_hw.py:310-324 | Exactly one write is sent, under the ID and the tag of its own validation, and it passes if and only if answered as executed and read back for this ID and action. |
| RecordingActions.Session.Perform | tools/accept_api_v1_recording_actions_hw.py:414-456 | One turn of the loop: an action counts as passed if and only if every answer of the turn is as it should be, up to the inventories read after its write, which prove it. |
| RecordingActions.Session.Execute | tools/accept_api_v1_recording_actions_hw.py:411-456 | However the sequence ends, its log is in order, the tracked row is the fixture, and the passed actions are those proved by readback: RENAME if and only if its answers go through, MOVE if and only if RENAME's and its own do, starting from the row RENAME left, and DELETE likewise. |
| ArtworkProbe.CountAll | tools/browser_artwork_probe.js:5-8 | The map counts exactly the elements that occur, each as often as it does. |
| ArtworkProbe.TallyAddsUp | tools/browser_artwork_probe.js:15-31 | Counts sum to the number of elements, and distinct elements and surplus make up all of them. |
| ArtworkProbe.Summarize | tools/browser_artwork_probe.js:4-34 | Images with a URL are unique URLs and duplicates together; the requests are exactly the entries started by an image element or named like an image; requests are distinct names and repeats together, the status counts are those of their statuses and sum to the requests, and the byte sums and zero transfers are those of the same requests. |
| ArtworkProbe.ResourcesAre | tools/browser_artwork_probe.js:5-11 | The filter by initiator and name keeps exactly those entries, in order. |
| ArtworkProbe.TotalsAdd | tools/browser_artwork_probe.js:12-14 | A byte sum is the sum over any two parts, and of one entry its number, or zero if it has none. |
| ArtworkProbe.UrlsAdd | tools/browser_artwork_probe.js:5-8 | The counted URLs are those of the images that have one, in order. |
| ArtworkProbe.Probe.Start | tools/browser_artwork_probe.js:46-68 | Refused while a capture runs; else a capture that has counted nothing. |
| ArtworkProbe.Probe.StopCapture | tools/browser_artwork_probe.js:69-97 | Reports each record since the start once, delivered or pending; refused without a capture. |
| ArtworkProbe.Capture | tools/browser_artwork_probe.js:46-97 | Under every interleaving of page changes and callbacks the report counts each mutation record exactly once. |

## Left out

- CacheAgreesWithCompile: histories hold kills between the two renames only where `CacheHistory.Safe` holds, because without it the claim is false.
- InterleavingsAgree: speaks of workers that get through; `ParallelProgress.AllCanFinish` says when all can. A schedule that never gives a worker its turn is not excluded. Its jobs are fixed beforehand; `ParallelCommand.CommandsAgree` has them decided on the way.
- CommandsAgree: a source listed twice in one command is outside, because its two workers may get different answers from `source_needs_version` and then build different entries.
- SecretLeavesNoTrace: speaks of values that the scan for assignments takes; which flagged values it takes is said by `FlaggedSecrets.HiddenExactly`.
- RequestsFormAChain: says what is not sent; that a run gets to its end is promised by `FixtureDriver.Driver.Run` for a first run under helpful surroundings only, because a later run that resumes after a completed toggle stops at the read that expects the timer enabled.
- Request: takes the greeting and the reply as one stream; sending the command between them has no effect on what is read.
- AuthorizationLeavesNoTrace: a line is one that `splitlines` gives, without a line break in it, as the scanner passes it.
- Newline translation and decoding when a file is read: `Depfile.Parse` takes the decoded text, and a file is found in the tree under the path it is listed by.
- Temporary names end in `.tmp` for a build and `.seed` for a seeding; the model uses one name for both, which the same process never needs at once.
- Creating the output's directory, and running the compiler on a command line that is passed on as it is or on the link line.
- The environment variables for job count and prior version: the version is a parameter, and the number of workers is any.
- The trace file's own locking: a trace is a sequence of records.
- Login, sessions, ETags as values, HTTP and SQLite calls, prompts and printed progress.
- The choice of an EPG event in `choose_candidate`: any event may be chosen; the inventory recorded with it is the complete one.
- The final read-only poll of the driver after DELETE.
- OthersUntouched: histories in which a killed process's ID comes back are outside; `LeftoverCarries` says what one turn then does, and `LeftoverNameCanSpoilAnEntry` what it can come to.
- Prompt: the operator's input is taken without white space at its ends.
- The opening approval, the check for a recording already under the new name, and the run that only previews.
- `choose_fixture`, `correlate` and the folder browse of the recording driver: which fixture and folder are approved is given.
- Regular expressions over makefile text, `logical_lines` and the search for test sources: the audit starts from matched lines, targets and file sets.
- The probe's resource and long-task observers, scroll positions, counts of complete and lazy images, and `inspectHeaders`.
- Scripts that search source text for fixed markers, one-shot patch scripts, packaging builders and bundlers: no algorithm to prove. The C++ daemon is not part of this model.
