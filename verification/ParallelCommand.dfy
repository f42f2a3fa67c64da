/** The workers of one link command. Each begins by asking `source_needs_version`, which reads the depfile of a
    cache entry while the others are at work, and only then knows which entry to build. */
module ParallelCommand {
  import opened Wrappers
  import opened FreshPair
  import opened ObjectCache
  import CommandLine
  import Build = ParallelBuild
  import Progress = ParallelProgress
  import Reuse = ParallelReuse

  datatype Command = Command(compiler: Compiler, tree: Tree, sources: seq<string>, flags: Flags, fromVersion: string)

  /** What a worker knows of its source: nothing yet, that the depfile lexer raised, or the answer. */
  datatype Choice = Undecided | Raised | Chosen(sensitive: bool)

  datatype State = State(world: Build.World, choices: seq<Choice>)

  /** The job `compile_one` has for a source once the answer is there. */
  function JobFor(command: Command, source: string, sensitive: bool): Build.Job {
    var current := Key(source, command.flags);
    if sensitive then Build.Job(current, [])
    else
      Build.Job(Key(source, StableFlags(command.flags)),
                [PriorKey(source, command.flags, command.fromVersion), current])
  }

  /** What `source_needs_version` answers when asked in this world. */
  function Answer(command: Command, w: Build.World, source: string): Choice {
    match SourceNeedsVersion(command.tree, source, w.At(PriorKey(source, command.flags, command.fromVersion)).dep)
    case None => Raised
    case Some(sensitive) => Chosen(sensitive)
  }

  /** A worker is told that the version matters exactly if its source or the prior entry's depfile says so. */
  lemma AnswerExactly(command: Command, w: Build.World, source: string)
    ensures var prior := w.At(PriorKey(source, command.flags, command.fromVersion)).dep;
            && (Answer(command, w, source) == Chosen(true) <==>
                  || source !in command.tree || command.tree[source].content.Binary?
                  || (exists a, b :: command.tree[source].content.text == a + "ServerBuildIdentity.h" + b)
                  || (exists a, b :: command.tree[source].content.text == a + "VDR_SUITE_SERVER_VERSION" + b)
                  || (prior.Some? && Listed(prior.value) == Some([]))
                  || (prior.Some? && Listed(prior.value).Some?
                      && exists p :: p in Listed(prior.value).value && CommandLine.LastComponent(p) == "ServerBuildIdentity.h"))
            && (Answer(command, w, source) == Raised ==> prior.Some? && Listed(prior.value).None?)
            && Answer(command, w, source) != Undecided
  {
    hide Listed, SourceNeedsVersion;
    NeedsVersionExactly(command.tree, source, w.At(PriorKey(source, command.flags, command.fromVersion)).dep);
  }

  /** The jobs as far as they are known. */
  function Jobs(command: Command, choices: seq<Choice>): Build.Setting
    requires |choices| == |command.sources|
  {
    Build.Setting(command.compiler, command.tree,
                  seq(|choices|, i requires 0 <= i < |choices| =>
                    JobFor(command, command.sources[i], choices[i] != Chosen(false))))
  }

  predicate Fits(command: Command, p: State) {
    |p.choices| == |p.world.pcs| == |command.sources|
  }

  /** The next action of worker `i`: the question first, then the steps of its job. */
  function Step(command: Command, p: State, i: nat): (r: State)
    requires Fits(command, p) && i < |p.choices|
    ensures Fits(command, r)
  {
    match p.choices[i]
    case Undecided => State(p.world, p.choices[i := Answer(command, p.world, command.sources[i])])
    case Raised => p
    case Chosen(_) => State(Build.Step(Jobs(command, p.choices), p.world, i), p.choices)
  }

  function Run(command: Command, p: State, schedule: seq<nat>): (r: State)
    requires Fits(command, p) && forall n :: 0 <= n < |schedule| ==> schedule[n] < |command.sources|
    ensures Fits(command, r)
    decreases schedule
  {
    if schedule == [] then p else Run(command, Step(command, p, schedule[0]), schedule[1..])
  }

  // ------------------------------------------------------- answers do not depend on the order

  ghost predicate ListedOnce(command: Command) {
    forall i, j :: 0 <= i < j < |command.sources| ==> command.sources[i] != command.sources[j]
  }

  /** What every worker would be told if all asked before any worked. */
  function Answers(command: Command, w: Build.World): seq<Choice> {
    seq(|command.sources|, i requires 0 <= i < |command.sources| => Answer(command, w, command.sources[i]))
  }

  /** Every answer given so far is that of the world `w` at the start, and the entries of a source whose
      worker has not asked yet are as they were. */
  ghost predicate AsAtFirst(command: Command, w: Build.World, p: State) {
    && Fits(command, p)
    && forall i :: 0 <= i < |p.choices| ==>
         if p.choices[i].Undecided? then forall k: Key :: k.source == command.sources[i] ==> p.world.At(k) == w.At(k)
         else p.choices[i] == Answer(command, w, command.sources[i])
  }

  /** Nobody works on a source before the answer is there. */
  predicate WaitForAnswer(p: State)
    requires |p.choices| == |p.world.pcs|
  {
    forall i :: 0 <= i < |p.choices| && !p.choices[i].Chosen? ==> p.world.pcs[i].Start?
  }

  /** A step of a job depends on no other job. */
  lemma StepIsLocal(g: Build.Setting, h: Build.Setting, w: Build.World, i: nat)
    requires i < |w.pcs| == |g.jobs| == |h.jobs| && g.jobs[i] == h.jobs[i]
    requires g.compiler == h.compiler && g.tree == h.tree
    ensures Build.Step(g, w, i) == Build.Step(h, w, i)
  {
    hide Check, Build.World.Put;
  }

  lemma StepAsAtFirst(command: Command, w: Build.World, p: State, i: nat)
    requires ListedOnce(command) && AsAtFirst(command, w, p) && WaitForAnswer(p) && i < |p.choices|
    ensures var q := Step(command, p, i);
            && AsAtFirst(command, w, q) && WaitForAnswer(q)
            && (q.world == p.world || q.world == Build.Step(Jobs(command, Answers(command, w)), p.world, i))
  {
    hide Build.Step, Build.World.At, SourceNeedsVersion;
    if p.choices[i].Chosen? {
      Build.StepFrame(Jobs(command, p.choices), p.world, i);
      StepIsLocal(Jobs(command, p.choices), Jobs(command, Answers(command, w)), p.world, i);
    }
  }

  /** Every run of the command is a run of jobs fixed beforehand, by the answers the world at the start gives. */
  lemma {:induction false} RunIsOfJobs(command: Command, w: Build.World, p: State, schedule: seq<nat>)
    returns (turns: seq<nat>)
    requires ListedOnce(command) && AsAtFirst(command, w, p) && WaitForAnswer(p)
    requires forall n :: 0 <= n < |schedule| ==> schedule[n] < |command.sources|
    ensures AsAtFirst(command, w, Run(command, p, schedule)) && WaitForAnswer(Run(command, p, schedule))
    ensures forall n :: 0 <= n < |turns| ==> turns[n] < |command.sources|
    ensures Run(command, p, schedule).world == Build.Run(Jobs(command, Answers(command, w)), p.world, turns)
    decreases schedule
  {
    if schedule == [] {
      turns := [];
    } else {
      var q := Step(command, p, schedule[0]);
      StepAsAtFirst(command, w, p, schedule[0]);
      turns := RunIsOfJobs(command, w, q, schedule[1..]);
      if q.world != p.world { turns := [schedule[0]] + turns; }
    }
  }

  // ------------------------------------------------------------------- the theorems

  /** The workers of one command never seed from what another of them rebuilds, whatever the flags and the
      prior version, even if a source is listed twice. */
  lemma OneCommandIsWellPosed(command: Command, w: Build.World)
    requires Faithful(command.compiler) && VersionOnlyWhereNamed(command.compiler)
    ensures Build.WellPosed(Jobs(command, Answers(command, w)))
  {
    StableOfStable(command.flags);
    StableOfPrior(command.flags, command.fromVersion);
  }

  /** All workers about to begin in a cache that is in order. */
  ghost predicate Begins(command: Command, p: State) {
    && Fits(command, p) && (forall i :: 0 <= i < |p.choices| ==> p.choices[i].Undecided?)
    && Build.Initial(Jobs(command, p.choices), p.world)
  }

  /** The entry worker `i` builds. */
  function Target(command: Command, p: State, i: nat): Key
    requires Fits(command, p) && i < |p.choices|
  {
    Jobs(command, p.choices).jobs[i].target
  }

  /** A worker whose answer is there has the job the world at the start gives it. */
  lemma JobAsAtFirst(command: Command, w: Build.World, p: State, i: nat)
    requires AsAtFirst(command, w, p) && i < |p.choices| && p.choices[i].Chosen?
    ensures Jobs(command, p.choices).jobs[i] == Jobs(command, Answers(command, w)).jobs[i]
  {}

  lemma RefusedAsAtFirst(command: Command, w: Build.World, p: State, k: Key)
    requires AsAtFirst(command, w, p) && WaitForAnswer(p)
    ensures Build.Refusals(Jobs(command, p.choices), p.world, k)
            == Build.Refusals(Jobs(command, Answers(command, w)), p.world, k)
  {
    forall i: nat | i < |p.choices| && p.world.pcs[i].Refused?
      ensures Jobs(command, p.choices).jobs[i] == Jobs(command, Answers(command, w)).jobs[i]
    {
      JobAsAtFirst(command, w, p, i);
    }
  }

  /** The object for the full flags and the one for the flags without the version are the same where the
      source does not need the version. */
  lemma ExactForCommand(command: Command, w: Build.World, source: string, obj: Option<File>)
    requires VersionOnlyWhereNamed(command.compiler) && Answer(command, w, source).Chosen?
    requires var target := JobFor(command, source, Answer(command, w, source).sensitive).target;
             Exact(command.compiler, target, obj, command.tree)
    ensures Exact(command.compiler, Key(source, command.flags), obj, command.tree)
  {
    StableOfStable(command.flags);
    if Answer(command, w, source) == Chosen(false) {
      assert Contents(command.tree)[source] == command.tree[source].content;
    }
  }

  /** Whatever the order of all steps, questions included: every answer is the one the cache gave before anything
      was done; no entry is compiled twice with success, nor both with success and in vain; a compile in
      vain ends its worker; an entry nobody is writing is in order; and a worker that is through has an object
      that is exactly what compiling its source with the flags of the command gives. */
  lemma {:induction false} EveryCommand(command: Command, p: State, schedule: seq<nat>)
    requires Faithful(command.compiler) && VersionOnlyWhereNamed(command.compiler)
    requires ListedOnce(command) && Begins(command, p)
    requires forall n :: 0 <= n < |schedule| ==> schedule[n] < |command.sources|
    ensures var q := Run(command, p, schedule);
            && (forall i :: 0 <= i < |q.choices| ==>
                  q.choices[i].Undecided? || q.choices[i] == Answer(command, p.world, command.sources[i]))
            && (forall k :: q.world.At(k).compiles <= 1 && (q.world.At(k).compiles == 1 ==> q.world.At(k).failures == 0))
            && (forall k :: q.world.At(k).failures == |Build.Refusals(Jobs(command, q.choices), q.world, k)|)
            && (forall k :: q.world.At(k).holder.None? ==>
                  PairOk(command.compiler, k, q.world.At(k).obj, q.world.At(k).dep, command.tree))
            && (forall i :: 0 <= i < |q.choices| && q.world.pcs[i].Finished? ==>
                  && q.choices[i].Chosen?
                  && Exact(command.compiler, Key(command.sources[i], command.flags),
                           q.world.At(Target(command, q, i)).obj, command.tree))
  {
    hide Exact, PairOk, Build.Step, Build.Verdicts;
    var g := Jobs(command, Answers(command, p.world));
    OneCommandIsWellPosed(command, p.world);
    var turns := RunIsOfJobs(command, p.world, p, schedule);
    Build.EveryInterleaving(g, p.world, turns);
    var q := Run(command, p, schedule);
    forall k ensures q.world.At(k).failures == |Build.Refusals(Jobs(command, q.choices), q.world, k)| {
      RefusedAsAtFirst(command, p.world, q, k);
    }
    forall i | 0 <= i < |q.choices| && q.world.pcs[i].Finished?
      ensures q.choices[i].Chosen?
      ensures Exact(command.compiler, Key(command.sources[i], command.flags),
                    q.world.At(Target(command, q, i)).obj, command.tree)
    {
      JobAsAtFirst(command, p.world, q, i);
      ExactForCommand(command, p.world, command.sources[i], q.world.At(Target(command, q, i)).obj);
    }
  }

  /** In any two orders, a worker that gets through in both has built the same entry, with the same contents. */
  lemma {:induction false} CommandsAgree(command: Command, p: State, schedule: seq<nat>, other: seq<nat>, i: nat)
    requires Faithful(command.compiler) && VersionOnlyWhereNamed(command.compiler)
    requires ListedOnce(command) && Begins(command, p) && i < |command.sources|
    requires forall n :: 0 <= n < |schedule| ==> schedule[n] < |command.sources|
    requires forall n :: 0 <= n < |other| ==> other[n] < |command.sources|
    ensures var (q, r) := (Run(command, p, schedule), Run(command, p, other));
            q.world.pcs[i].Finished? && r.world.pcs[i].Finished? ==>
              && Target(command, q, i) == Target(command, r, i)
              && q.world.At(Target(command, q, i)).obj.Some? && r.world.At(Target(command, r, i)).obj.Some?
              && q.world.At(Target(command, q, i)).obj.value.content == r.world.At(Target(command, r, i)).obj.value.content
  {
    hide Run, PairOk;
    EveryCommand(command, p, schedule);
    EveryCommand(command, p, other);
  }

  // ------------------------------------------------------------------ the command gets on

  predicate EndedAt(p: State, i: nat)
    requires i < |p.choices| == |p.world.pcs|
  {
    p.choices[i].Raised? || (p.choices[i].Chosen? && Progress.Ended(p.world.pcs[i]))
  }

  predicate AllEnded(p: State)
    requires |p.choices| == |p.world.pcs|
  {
    forall i :: 0 <= i < |p.choices| ==> EndedAt(p, i)
  }

  /** How many workers have not asked yet. */
  function Open(choices: seq<Choice>, n: nat): nat
    requires n <= |choices|
  {
    if n == 0 then 0 else Open(choices, n - 1) + if choices[n - 1].Undecided? then 1 else 0
  }

  lemma {:induction false} OpenAfter(choices: seq<Choice>, i: nat, answer: Choice, n: nat)
    requires i < |choices| && n <= |choices| && choices[i].Undecided? && !answer.Undecided?
    ensures Open(choices[i := answer], n) == Open(choices, n) - if i < n then 1 else 0
  {
    if n > 0 { OpenAfter(choices, i, answer, n - 1); }
  }

  /** A state a run of the command can come to, `w` being the world at the start. */
  ghost predicate OnTheWay(command: Command, w: Build.World, q: State) {
    && AsAtFirst(command, w, q) && WaitForAnswer(q)
    && Build.Inv(Jobs(command, Answers(command, w)), q.world)
  }

  function Left(command: Command, w: Build.World, q: State): nat
    requires Fits(command, q)
  {
    Progress.Work(Jobs(command, Answers(command, w)), q.world) + Open(q.choices, |q.choices|)
  }

  /** Some worker can take a step after which less is left. */
  lemma SomeoneMoves(command: Command, w: Build.World, q: State) returns (i: nat)
    requires ListedOnce(command) && OnTheWay(command, w, q) && !AllEnded(q)
    ensures i < |q.choices|
    ensures Left(command, w, Step(command, q, i)) < Left(command, w, q)
  {
    hide Build.Step, Build.Inv, Progress.Work, SourceNeedsVersion, Jobs, Build.KeyOk, Build.WorkerOk;
    var g := Jobs(command, Answers(command, w));
    i :| 0 <= i < |q.choices| && !EndedAt(q, i);
    if q.choices[i].Undecided? {
      OpenAfter(q.choices, i, Answer(command, q.world, command.sources[i]), |q.choices|);
    } else {
      JobsFit(command, Answers(command, w));
      var k := g.jobs[i].target;
      if (q.world.pcs[i].WantSeed? || q.world.pcs[i].WantBuild?) && q.world.At(k).holder.Some? {
        i := Progress.HolderMoves(g, q.world, k);
      } else {
        Progress.Moves(g, q.world, i);
      }
      ChosenSteps(command, w, q, i);
      Progress.TurnCosts(g, q.world, i);
    }
  }

  lemma JobsFit(command: Command, choices: seq<Choice>)
    requires |choices| == |command.sources|
    ensures |Jobs(command, choices).jobs| == |command.sources|
  {}

  lemma ChosenSteps(command: Command, w: Build.World, q: State, i: nat)
    requires AsAtFirst(command, w, q) && i < |q.choices| && q.choices[i].Chosen?
    ensures Step(command, q, i) == State(Build.Step(Jobs(command, Answers(command, w)), q.world, i), q.choices)
  {
    StepIsLocal(Jobs(command, q.choices), Jobs(command, Answers(command, w)), q.world, i);
  }

  lemma StaysOnTheWay(command: Command, w: Build.World, q: State, i: nat)
    requires Faithful(command.compiler) && VersionOnlyWhereNamed(command.compiler)
    requires ListedOnce(command) && OnTheWay(command, w, q) && i < |q.choices|
    ensures OnTheWay(command, w, Step(command, q, i))
  {
    hide Build.Step, Build.Inv, Build.WellPosed, Faithful, VersionOnlyWhereNamed, Jobs, AsAtFirst, SourceNeedsVersion;
    JobsFit(command, Answers(command, w));
    OneCommandIsWellPosed(command, w);
    StepAsAtFirst(command, w, q, i);
    Build.StepKeeps(Jobs(command, Answers(command, w)), q.world, i);
  }

  lemma {:induction false} RunOnTheWay(command: Command, w: Build.World, q: State, schedule: seq<nat>)
    requires Faithful(command.compiler) && VersionOnlyWhereNamed(command.compiler)
    requires ListedOnce(command) && OnTheWay(command, w, q)
    requires forall n :: 0 <= n < |schedule| ==> schedule[n] < |command.sources|
    ensures OnTheWay(command, w, Run(command, q, schedule))
    decreases schedule
  {
    hide Step, OnTheWay, ListedOnce, Faithful, VersionOnlyWhereNamed;
    if schedule != [] {
      FitsOnTheWay(command, w, q);
      StaysOnTheWay(command, w, q, schedule[0]);
      RunOnTheWay(command, w, Step(command, q, schedule[0]), schedule[1..]);
    }
  }

  lemma BeginsFits(command: Command, p: State)
    requires Begins(command, p)
    ensures Fits(command, p)
  {}

  lemma FitsOnTheWay(command: Command, w: Build.World, q: State)
    requires OnTheWay(command, w, q)
    ensures Fits(command, q)
  {}

  lemma {:induction false} CanEnd(command: Command, w: Build.World, q: State) returns (schedule: seq<nat>)
    requires Faithful(command.compiler) && VersionOnlyWhereNamed(command.compiler)
    requires ListedOnce(command) && OnTheWay(command, w, q)
    ensures forall n :: 0 <= n < |schedule| ==> schedule[n] < |command.sources|
    ensures OnTheWay(command, w, Run(command, q, schedule)) && AllEnded(Run(command, q, schedule))
    decreases Left(command, w, q)
  {
    hide Step, OnTheWay, ListedOnce, Faithful, VersionOnlyWhereNamed, Left, AllEnded;
    FitsOnTheWay(command, w, q);
    if AllEnded(q) {
      schedule := [];
    } else {
      var i := SomeoneMoves(command, w, q);
      StaysOnTheWay(command, w, q, i);
      schedule := CanEnd(command, w, Step(command, q, i));
      schedule := [i] + schedule;
    }
  }

  lemma HoldingIsNotEnded(q: State, h: nat)
    requires h < |q.choices| == |q.world.pcs| && WaitForAnswer(q) && Build.Holding(q.world.pcs[h])
    ensures !EndedAt(q, h)
  {}

  lemma EndedIsFree(command: Command, w: Build.World, q: State)
    requires OnTheWay(command, w, q) && AllEnded(q)
    ensures Progress.NoLockHeld(q.world)
  {
    hide Build.Step, Build.Inv, SourceNeedsVersion, Jobs;
    forall k ensures q.world.At(k).holder.None? {
      if q.world.At(k).holder.Some? {
        JobsFit(command, Answers(command, w));
        var h := Progress.HolderMoves(Jobs(command, Answers(command, w)), q.world, k);
        HoldingIsNotEnded(q, h);
      }
    }
  }

  lemma BeginsOnTheWay(command: Command, p: State)
    requires Begins(command, p)
    ensures OnTheWay(command, p.world, p)
  {
    var g := Jobs(command, Answers(command, p.world));
    assert Build.Initial(g, p.world) by { hide PairOk; }
    Build.InitialInv(g, p.world);
  }

  /** However far the workers have come and in whatever order, some continuation brings each of them to an end, and
      then no lock is held. */
  lemma {:induction false} EveryCommandCanEnd(command: Command, p: State, schedule: seq<nat>) returns (more: seq<nat>)
    requires Faithful(command.compiler) && VersionOnlyWhereNamed(command.compiler)
    requires ListedOnce(command) && Begins(command, p)
    requires forall n :: 0 <= n < |schedule| ==> schedule[n] < |command.sources|
    ensures forall n :: 0 <= n < |more| ==> more[n] < |command.sources|
    ensures var q := Run(command, Run(command, p, schedule), more);
            AllEnded(q) && Progress.NoLockHeld(q.world) && OnTheWay(command, p.world, q)
  {
    hide Run, OnTheWay, Begins, ListedOnce, Faithful, VersionOnlyWhereNamed, AllEnded;
    BeginsOnTheWay(command, p);
    FitsOnTheWay(command, p.world, p);
    RunOnTheWay(command, p.world, p, schedule);
    var u := Run(command, p, schedule);
    FitsOnTheWay(command, p.world, u);
    more := CanEnd(command, p.world, u);
    FitsOnTheWay(command, p.world, Run(command, u, more));
    EndedIsFree(command, p.world, Run(command, u, more));
  }

  // --------------------------------------------------------------- with nothing in the way

  /** Every depfile can be split into words, and every source compiles. */
  ghost predicate Unhindered(command: Command, w: Build.World) {
    && (forall k :: w.At(k).dep.Some? ==> Listed(w.At(k).dep.value).Some?)
    && (forall i :: 0 <= i < |command.sources| ==>
          command.compiler.run(command.flags, command.sources[i], Contents(command.tree)).Compiled?)
  }

  lemma UnhinderedIsClear(command: Command, p: State)
    requires VersionOnlyWhereNamed(command.compiler) && Begins(command, p) && Unhindered(command, p.world)
    ensures Progress.Clear(Jobs(command, Answers(command, p.world)), p.world)
    ensures forall i :: 0 <= i < |command.sources| ==> Answer(command, p.world, command.sources[i]).Chosen?
  {
    hide Listed, PairOk;
    StableOfStable(command.flags);
    forall i | 0 <= i < |command.sources|
      ensures var target := JobFor(command, command.sources[i], Answer(command, p.world, command.sources[i]) != Chosen(false)).target;
              command.compiler.run(target.flags, target.source, Contents(command.tree)).Compiled?
    {
      if Answer(command, p.world, command.sources[i]) == Chosen(false) {
        assert Contents(command.tree)[command.sources[i]] == command.tree[command.sources[i]].content;
      }
    }
  }

  lemma ClearNeverFails(g: Build.Setting, w: Build.World, i: nat)
    requires Progress.Clear(g, w) && i < |w.pcs|
    ensures !w.pcs[i].Refused? && !w.pcs[i].Broken?
  {}

  /** With nothing in the way a worker that has ended is through. */
  lemma {:induction false} EndedIsThrough(command: Command, p: State, schedule: seq<nat>)
    requires Faithful(command.compiler) && VersionOnlyWhereNamed(command.compiler)
    requires ListedOnce(command) && Begins(command, p) && Unhindered(command, p.world)
    requires forall n :: 0 <= n < |schedule| ==> schedule[n] < |command.sources|
    requires AllEnded(Run(command, p, schedule))
    ensures var q := Run(command, p, schedule);
            forall i :: 0 <= i < |q.choices| ==> q.choices[i].Chosen? && q.world.pcs[i].Finished?
  {
    hide Build.Step, Build.Inv, Begins, ListedOnce, Progress.Clear, Unhindered, Build.WellPosed, Faithful,
         VersionOnlyWhereNamed;
    BeginsOnTheWay(command, p);
    var turns := RunIsOfJobs(command, p.world, p, schedule);
    UnhinderedIsClear(command, p);
    OneCommandIsWellPosed(command, p.world);
    Progress.StaysClear(Jobs(command, Answers(command, p.world)), p.world, turns);
    var q := Run(command, p, schedule);
    JobsFit(command, Answers(command, p.world));
    forall i | 0 <= i < |q.choices| ensures q.choices[i].Chosen? && q.world.pcs[i].Finished? {
      assert EndedAt(q, i);
      ClearNeverFails(Jobs(command, Answers(command, p.world)), q.world, i);
    }
  }

  /** With nothing in the way that continuation brings every worker through: each source has its exact object. */
  lemma {:induction false} EveryCommandCanFinish(command: Command, p: State,
                                                 schedule: seq<nat>) returns (more: seq<nat>)
    requires Faithful(command.compiler) && VersionOnlyWhereNamed(command.compiler)
    requires ListedOnce(command) && Begins(command, p) && Unhindered(command, p.world)
    requires forall n :: 0 <= n < |schedule| ==> schedule[n] < |command.sources|
    ensures forall n :: 0 <= n < |more| ==> more[n] < |command.sources|
    ensures var q := Run(command, Run(command, p, schedule), more);
            Progress.NoLockHeld(q.world) && forall i :: 0 <= i < |q.choices| ==>
              && q.choices[i].Chosen? && q.world.pcs[i].Finished?
              && Exact(command.compiler, Key(command.sources[i], command.flags),
                       q.world.At(Target(command, q, i)).obj, command.tree)
  {
    hide Run, Exact, Build.Step, Build.Inv, Begins, ListedOnce, Unhindered, Faithful, VersionOnlyWhereNamed,
         AllEnded, OnTheWay;
    more := EveryCommandCanEnd(command, p, schedule);
    BeginsFits(command, p);
    RunTwice(command, p, schedule, more);
    EndedIsThrough(command, p, schedule + more);
    EveryCommand(command, p, schedule + more);
  }

  lemma {:induction false} RunTwice(command: Command, p: State, a: seq<nat>, b: seq<nat>)
    requires Fits(command, p)
    requires forall n :: 0 <= n < |a| ==> a[n] < |command.sources|
    requires forall n :: 0 <= n < |b| ==> b[n] < |command.sources|
    ensures Run(command, Run(command, p, a), b) == Run(command, p, a + b)
    decreases a
  {
    hide Step;
    if a == [] {
      assert a + b == b;
    } else {
      assert (a + b)[1..] == a[1..] + b;
      RunTwice(command, Step(command, p, a[0]), a[1..], b);
    }
  }

  /** What is fresh is taken over. Where the version does not matter to a source and its entry, the prior version's or
      the current one's is fresh at the start, no compile is run for it, and its worker ends with that object. */
  lemma {:induction false} FreshIsReused(command: Command, p: State, schedule: seq<nat>, i: nat)
    requires Faithful(command.compiler) && VersionOnlyWhereNamed(command.compiler)
    requires ListedOnce(command) && Begins(command, p) && i < |command.sources|
    requires Answer(command, p.world, command.sources[i]) == Chosen(false)
    requires forall n :: 0 <= n < |schedule| ==> schedule[n] < |command.sources|
    ensures var source := command.sources[i];
            var k := Key(source, StableFlags(command.flags));
            var (prior, current) := (PriorKey(source, command.flags, command.fromVersion), Key(source, command.flags));
            var (g, w, q) := (Jobs(command, p.choices), p.world, Run(command, p, schedule));
            var (own, older, newer) :=
              (Build.Verdicts(g, w.At(k)), Build.Verdicts(g, w.At(prior)), Build.Verdicts(g, w.At(current)));
            (own == Fresh || (own == Stale && older == Fresh) || (own == older == Stale && newer == Fresh)) ==>
              var from := if own == Fresh then k else if older == Fresh then prior else current;
              && q.world.At(k).compiles == 0 && q.world.At(k).failures == 0
              && (q.world.pcs[i].Finished? ==>
                    q.world.At(k).obj == w.At(from).obj && q.world.At(k).dep == w.At(from).dep)
  {
    hide Build.Step, Build.Inv, Check, PairOk;
    var g := Jobs(command, Answers(command, p.world));
    var turns := RunIsOfJobs(command, p.world, p, schedule);
    OneCommandIsWellPosed(command, p.world);
    var (own, older, newer) :=
      (Build.Verdicts(g, p.world.At(g.jobs[i].target)), Build.Verdicts(g, p.world.At(g.jobs[i].seeds[0])),
       Build.Verdicts(g, p.world.At(g.jobs[i].seeds[1])));
    if own == Fresh {
      Reuse.FreshIsReused(g, p.world, turns, i, g.jobs[i].target, 0);
    } else if own == Stale && older == Fresh {
      Reuse.FreshIsReused(g, p.world, turns, i, g.jobs[i].seeds[0], 0);
    } else if own == older == Stale && newer == Fresh {
      Reuse.FreshIsReused(g, p.world, turns, i, g.jobs[i].seeds[1], 1);
    }
  }
}
