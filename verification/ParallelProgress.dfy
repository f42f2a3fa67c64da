/** The workers get on: from every world that a run can come to, some worker can move, no run moves for ever, and once
    none can move every worker is through or has failed and every lock is free. */
module ParallelProgress {
  import opened Wrappers
  import opened FreshPair
  import opened ParallelBuild
  import Depfile

  predicate Ended(pc: Pc) {
    pc.Finished? || pc.Refused? || pc.Broken?
  }

  predicate AllEnded(w: World) {
    forall i :: 0 <= i < |w.pcs| ==> Ended(w.pcs[i])
  }

  ghost predicate NoLockHeld(w: World) {
    forall k :: w.At(k).holder.None?
  }

  // ------------------------------------------------------------------ some worker moves

  /** A worker that does not move waits for a lock, and the one who holds it moves. */
  lemma SomeoneMoves(g: Setting, w: World) returns (i: nat)
    requires Inv(g, w) && !AllEnded(w)
    ensures i < |g.jobs| && Step(g, w, i).pcs[i] != w.pcs[i]
  {
    i :| 0 <= i < |w.pcs| && !Ended(w.pcs[i]);
    assert WorkerOk(g, w, i);
    var s := w.At(g.jobs[i].target);
    if (w.pcs[i].WantSeed? || w.pcs[i].WantBuild?) && s.holder.Some? {
      i := HolderMoves(g, w, g.jobs[i].target);
    } else {
      Moves(g, w, i);
    }
  }

  lemma Moves(g: Setting, w: World, i: nat)
    requires Inv(g, w) && i < |g.jobs| && !Ended(w.pcs[i])
    requires w.pcs[i].WantSeed? || w.pcs[i].WantBuild? ==> w.At(g.jobs[i].target).holder.None?
    ensures Step(g, w, i).pcs[i] != w.pcs[i]
  {
    hide Check, KeyOk, NoneNewer;
    assert WorkerOk(g, w, i);
  }

  lemma HolderMoves(g: Setting, w: World, k: Key) returns (h: nat)
    requires Inv(g, w) && w.At(k).holder.Some?
    ensures h < |g.jobs| && w.At(k).holder == Some(h) && Holding(w.pcs[h])
    ensures Step(g, w, h).pcs[h] != w.pcs[h]
  {
    hide PairOk, Check, NoneNewer;
    assert KeyOk(g, w, k);
    h := w.At(k).holder.value;
    Moves(g, w, h);
  }

  /** With all workers at an end no lock is held. */
  lemma EndedIsFree(g: Setting, w: World)
    requires Inv(g, w) && AllEnded(w)
    ensures NoLockHeld(w)
  {
    hide Check, Step, NoneNewer;
    forall k ensures w.At(k).holder.None? {
      if w.At(k).holder.Some? {
        var h := HolderMoves(g, w, k);
      }
    }
  }

  // ------------------------------------------------------------------ no run is endless

  function Untried(n: nat, j: nat): nat {
    if j < n then n - j else 0
  }

  /** How many moves a worker with `n` seeds has left at most. */
  function Remaining(n: nat, pc: Pc): nat {
    match pc
    case Start => 6 * n + 9
    case TrySeed(j) => 6 * Untried(n, j) + 8
    case WantSeed(j) => 6 * Untried(n, j) + 7
    case SeedLocked(j) => 6 * Untried(n, j) + 6
    case SeedLinking(j) => 6 * Untried(n, j) + 5
    case SeedHalf(j) => 6 * Untried(n, j) + 4
    case SeedStored(j) => 6 * Untried(n, j) + 3
    case WantBuild => 6
    case BuildLocked => 5
    case Compiling => 4
    case Ready(_, _, _) => 3
    case HalfStored(_, _) => 2
    case Stored => 1
    case Finished => 0
    case Refused => 0
    case Broken => 0
  }

  lemma MoveCosts(g: Setting, w: World, i: nat)
    requires Inv(g, w) && i < |g.jobs|
    ensures var v := Step(g, w, i);
            && |v.pcs| == |w.pcs|
            && (v.pcs[i] == w.pcs[i] || Remaining(|g.jobs[i].seeds|, v.pcs[i]) < Remaining(|g.jobs[i].seeds|, w.pcs[i]))
  {
    hide Check, KeyOk, NoneNewer;
    assert WorkerOk(g, w, i);
  }

  /** The moves left to the first `n` workers together. */
  function WorkTo(g: Setting, w: World, n: nat): nat
    requires n <= |w.pcs| == |g.jobs|
  {
    if n == 0 then 0 else WorkTo(g, w, n - 1) + Remaining(|g.jobs[n - 1].seeds|, w.pcs[n - 1])
  }

  function Work(g: Setting, w: World): nat
    requires |w.pcs| == |g.jobs|
  {
    WorkTo(g, w, |g.jobs|)
  }

  lemma {:induction false} WorkAfter(g: Setting, w: World, v: World, i: nat, n: nat)
    requires i < |w.pcs| == |v.pcs| == |g.jobs| && n <= |g.jobs| && v.pcs == w.pcs[i := v.pcs[i]]
    ensures var seeds := |g.jobs[i].seeds|;
            WorkTo(g, v, n) == WorkTo(g, w, n) + if i < n then Remaining(seeds, v.pcs[i]) - Remaining(seeds, w.pcs[i]) else 0
  {
    hide Remaining;
    if n > 0 { WorkAfter(g, w, v, i, n - 1); }
  }

  /** A turn either moves its worker, and then less is left, or changes no worker's place. */
  lemma TurnCosts(g: Setting, w: World, i: nat)
    requires Inv(g, w) && i < |g.jobs|
    ensures var v := Step(g, w, i);
            && |v.pcs| == |g.jobs|
            && (if v.pcs[i] == w.pcs[i] then v.pcs == w.pcs && Work(g, v) == Work(g, w) else Work(g, v) < Work(g, w))
  {
    hide Step, Remaining, WorkTo;
    var v := Step(g, w, i);
    StepFrame(g, w, i);
    MoveCosts(g, w, i);
    WorkAfter(g, w, v, i, |g.jobs|);
  }

  /** The turns of a schedule in which somebody moved. */
  function MovesIn(g: Setting, w: World, schedule: seq<nat>): nat
    requires |w.pcs| == |g.jobs| && forall n :: 0 <= n < |schedule| ==> schedule[n] < |g.jobs|
    decreases schedule
  {
    if schedule == [] then 0
    else
      var v := Step(g, w, schedule[0]);
      (if v.pcs[schedule[0]] != w.pcs[schedule[0]] then 1 else 0) + MovesIn(g, v, schedule[1..])
  }

  /** However long a schedule is, only so many of its turns move anyone. */
  lemma {:induction false} MovesAreBounded(g: Setting, w: World, schedule: seq<nat>)
    requires WellPosed(g) && Inv(g, w) && forall n :: 0 <= n < |schedule| ==> schedule[n] < |g.jobs|
    ensures Inv(g, Run(g, w, schedule))
    ensures MovesIn(g, w, schedule) + Work(g, Run(g, w, schedule)) <= Work(g, w)
    decreases schedule
  {
    hide Step, Work, Inv, WellPosed;
    if schedule != [] {
      StepKeeps(g, w, schedule[0]);
      TurnCosts(g, w, schedule[0]);
      MovesAreBounded(g, Step(g, w, schedule[0]), schedule[1..]);
    }
  }

  /** From every world a run can come to, some schedule brings all workers to an end, with every lock given back. */
  lemma {:induction false} AllCanEnd(g: Setting, w: World) returns (schedule: seq<nat>)
    requires WellPosed(g) && Inv(g, w)
    ensures forall n :: 0 <= n < |schedule| ==> schedule[n] < |g.jobs|
    ensures var v := Run(g, w, schedule); Inv(g, v) && AllEnded(v) && NoLockHeld(v)
    decreases Work(g, w)
  {
    hide Step, Work, WellPosed;
    if AllEnded(w) {
      schedule := [];
      EndedIsFree(g, w);
    } else {
      var i := SomeoneMoves(g, w);
      TurnCosts(g, w, i);
      StepKeeps(g, w, i);
      schedule := AllCanEnd(g, Step(g, w, i));
      schedule := [i] + schedule;
    }
  }

  /** A world in which nobody can move is one where all have ended and no lock is held. */
  lemma StuckIsEnded(g: Setting, w: World)
    requires Inv(g, w)
    ensures (forall i :: 0 <= i < |g.jobs| ==> Step(g, w, i).pcs[i] == w.pcs[i]) <==> AllEnded(w)
    ensures AllEnded(w) ==> NoLockHeld(w)
  {
    hide Step;
    if AllEnded(w) {
      EndedIsFree(g, w);
      forall i | 0 <= i < |g.jobs| ensures Step(g, w, i).pcs[i] == w.pcs[i] { EndedStays(g, w, i); }
    } else {
      var i := SomeoneMoves(g, w);
    }
  }

  lemma EndedStays(g: Setting, w: World, i: nat)
    requires i < |w.pcs| == |g.jobs| && Ended(w.pcs[i])
    ensures Step(g, w, i) == w
  {
    hide Check;
  }

  // ------------------------------------------------------------------ with nothing in the way

  /** Every depfile can be split, every entry to be built compiles, and no worker has failed. */
  ghost predicate Clear(g: Setting, w: World) {
    && (forall k :: w.At(k).dep.Some? ==> Listed(w.At(k).dep.value).Some?)
    && (forall i :: 0 <= i < |g.jobs| ==>
          g.compiler.run(g.jobs[i].target.flags, g.jobs[i].target.source, Contents(g.tree)).Compiled?)
    && (forall i :: 0 <= i < |w.pcs| ==> !w.pcs[i].Refused? && !w.pcs[i].Broken?)
  }

  lemma PrintedIsListed(c: Compiler, flags: Flags, source: string, s: Sources, stamp: nat)
    requires Faithful(c) && c.run(flags, source, s).Compiled?
    ensures Listed(File(Text(Depfile.Print(c.run(flags, source, s).rule)), stamp)).Some?
  {
    hide Depfile.Print;
    Depfile.ParsePrint(c.run(flags, source, s).rule);
  }

  lemma ListedNeverRaises(g: Setting, s: Slot)
    requires s.dep.Some? ==> Listed(s.dep.value).Some?
    ensures Verdicts(g, s) != Raises
  {}

  lemma StillClear(g: Setting, w: World, i: nat)
    requires WellPosed(g) && Inv(g, w) && Clear(g, w) && i < |g.jobs|
    ensures Clear(g, Step(g, w, i))
  {
    hide Check, Listed, PairOk, NoneNewer, Depfile.Print, VersionOnlyWhereNamed, SeedFits;
    var k := g.jobs[i].target;
    assert WorkerOk(g, w, i) && KeyOk(g, w, k);
    ListedNeverRaises(g, w.At(k));
    forall j | 0 <= j < |g.jobs[i].seeds| ensures Verdicts(g, w.At(g.jobs[i].seeds[j])) != Raises {
      ListedNeverRaises(g, w.At(g.jobs[i].seeds[j]));
    }
    if w.pcs[i].HalfStored? { PrintedIsListed(g.compiler, k.flags, k.source, Contents(g.tree), w.pcs[i].stamp + 1); }
    var v := Step(g, w, i);
    StepFrame(g, w, i);
    assert !v.pcs[i].Refused? && !v.pcs[i].Broken?;
    assert v.At(k).dep.Some? ==> Listed(v.At(k).dep.value).Some?;
  }

  lemma {:induction false} StaysClear(g: Setting, w: World, schedule: seq<nat>)
    requires WellPosed(g) && Inv(g, w) && Clear(g, w)
    requires forall n :: 0 <= n < |schedule| ==> schedule[n] < |g.jobs|
    ensures Inv(g, Run(g, w, schedule)) && Clear(g, Run(g, w, schedule))
    decreases schedule
  {
    hide Step, Inv, WellPosed, Clear;
    if schedule != [] {
      StepKeeps(g, w, schedule[0]);
      StillClear(g, w, schedule[0]);
      StaysClear(g, Step(g, w, schedule[0]), schedule[1..]);
    }
  }

  /** Then some schedule brings every worker through, with the exact object, and every schedule can be continued so. */
  lemma {:induction false} AllCanFinish(g: Setting, w: World, schedule: seq<nat>) returns (more: seq<nat>)
    requires WellPosed(g) && Initial(g, w) && Clear(g, w)
    requires forall n :: 0 <= n < |schedule| ==> schedule[n] < |g.jobs|
    ensures forall n :: 0 <= n < |more| ==> more[n] < |g.jobs|
    ensures |Run(g, w, schedule).pcs| == |g.jobs|
    ensures var v := Run(g, Run(g, w, schedule), more);
            NoLockHeld(v) && |v.pcs| == |g.jobs| && forall i :: 0 <= i < |v.pcs| ==>
              v.pcs[i].Finished? && Exact(g.compiler, g.jobs[i].target, v.At(g.jobs[i].target).obj, g.tree)
  {
    hide Step, WellPosed, Exact;
    InitialInv(g, w);
    StaysClear(g, w, schedule);
    var u := Run(g, w, schedule);
    more := AllCanEnd(g, u);
    StaysClear(g, u, more);
    var v := Run(g, u, more);
    forall i | 0 <= i < |v.pcs|
      ensures v.pcs[i].Finished? && Exact(g.compiler, g.jobs[i].target, v.At(g.jobs[i].target).obj, g.tree)
    {
      FinishedIsExact(g, v, i);
    }
  }

  lemma FinishedIsExact(g: Setting, v: World, i: nat)
    requires Inv(g, v) && i < |v.pcs| && v.pcs[i].Finished?
    ensures Exact(g.compiler, g.jobs[i].target, v.At(g.jobs[i].target).obj, g.tree)
  {
    assert WorkerOk(g, v, i) && KeyOk(g, v, g.jobs[i].target);
  }
}
