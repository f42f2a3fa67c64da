/** What is fresh is not compiled again: a worker whose entry, or one it may seed from, is fresh at the start takes that
    object over, whatever the others do meanwhile. */
module ParallelReuse {
  import opened Wrappers
  import opened FreshPair
  import opened ParallelBuild

  /** Nobody else builds the entry. */
  ghost predicate Alone(g: Setting, i: nat)
    requires i < |g.jobs|
  {
    forall h :: 0 <= h < |g.jobs| && h != i ==> g.jobs[h].target != g.jobs[i].target
  }

  /** The entry the worker ends up with: its own where that is fresh, and with that stale the first of its seeds that
      is not. */
  ghost predicate Chosen(g: Setting, w: World, i: nat, from: Key, n: nat)
    requires i < |g.jobs|
  {
    var (k, seeds) := (g.jobs[i].target, g.jobs[i].seeds);
    && Verdicts(g, w.At(from)) == Fresh
    && (from != k ==>
          && Verdicts(g, w.At(k)) == Stale && n < |seeds| && seeds[n] == from
          && forall j :: 0 <= j < n ==> Verdicts(g, w.At(seeds[j])) == Stale)
  }

  predicate SameFiles(a: Slot, b: Slot) {
    a.obj == b.obj && a.dep == b.dep
  }

  /** Where the worker may stand then, and what is there of its entry. `w` is the world at the start. */
  ghost predicate Underway(g: Setting, w: World, v: World, i: nat, from: Key, n: nat)
    requires i < |v.pcs| == |g.jobs|
  {
    var (k, seeds, source) := (g.jobs[i].target, g.jobs[i].seeds, w.At(from));
    var s := v.At(k);
    && (forall j :: 0 <= j < |seeds| && seeds[j] != k ==> v.At(seeds[j]) == w.At(seeds[j]))
    && s.compiles == 0 && s.failures == 0
    && match v.pcs[i]
       case Start => SameFiles(s, w.At(k))
       case TrySeed(j) => from != k && j <= n && SameFiles(s, w.At(k))
       case WantSeed(j) => from != k && j == n && SameFiles(s, w.At(k))
       case SeedLocked(j) => from != k && j == n && SameFiles(s, w.At(k))
       case SeedLinking(j) => from != k && j == n && SameFiles(s, w.At(k))
       case SeedHalf(j) => from != k && j == n && s.obj == source.obj
       case SeedStored(j) => from != k && j == n && SameFiles(s, source)
       case WantBuild => SameFiles(s, source)
       case BuildLocked => SameFiles(s, source)
       case Finished => SameFiles(s, source)
       case _ => false
  }

  lemma OwnStep(g: Setting, w: World, v: World, i: nat, from: Key, n: nat)
    requires WellPosed(g) && i < |v.pcs| == |g.jobs| && Chosen(g, w, i, from, n) && Underway(g, w, v, i, from, n)
    ensures Underway(g, w, Step(g, v, i), i, from, n)
  {
    hide WellPosed;
    StepFrame(g, v, i);
    var (k, seeds) := (g.jobs[i].target, g.jobs[i].seeds);
    SameVerdict(g, v.At(k), w.At(k));
    SameVerdict(g, v.At(k), w.At(from));
    hide Check;
    if v.pcs[i].TrySeed? && v.pcs[i].j < n { assert Verdicts(g, v.At(seeds[v.pcs[i].j])) == Stale; }
  }

  lemma SameVerdict(g: Setting, a: Slot, b: Slot)
    ensures SameFiles(a, b) ==> Verdicts(g, a) == Verdicts(g, b)
  {}

  lemma OthersStep(g: Setting, w: World, v: World, h: nat, i: nat, from: Key, n: nat)
    requires WellPosed(g) && i < |v.pcs| == |g.jobs| && Alone(g, i) && h < |g.jobs| && h != i
    requires Underway(g, w, v, i, from, n)
    ensures Underway(g, w, Step(g, v, h), i, from, n)
  {
    hide Step, Check, Faithful, VersionOnlyWhereNamed, SeedFits;
    StepFrame(g, v, h);
    var seeds := g.jobs[i].seeds;
    forall j | 0 <= j < |seeds| && seeds[j] != g.jobs[i].target ensures seeds[j] != g.jobs[h].target {}
  }

  lemma {:induction false} StaysUnderway(g: Setting, w: World, v: World, schedule: seq<nat>, i: nat, from: Key, n: nat)
    requires WellPosed(g) && i < |v.pcs| == |g.jobs| && Alone(g, i) && Chosen(g, w, i, from, n)
    requires Underway(g, w, v, i, from, n) && forall m :: 0 <= m < |schedule| ==> schedule[m] < |g.jobs|
    ensures |Run(g, v, schedule).pcs| == |g.jobs| && Underway(g, w, Run(g, v, schedule), i, from, n)
    decreases schedule
  {
    hide Step, Underway, WellPosed, Alone, Chosen;
    if schedule != [] {
      if schedule[0] == i { OwnStep(g, w, v, i, from, n); } else { OthersStep(g, w, v, schedule[0], i, from, n); }
      StaysUnderway(g, w, Step(g, v, schedule[0]), schedule[1..], i, from, n);
    }
  }

  /** Under every interleaving: such an entry is not compiled, its worker does not fail, and once it is through the entry
      has the chosen object and depfile, time stamps included. */
  lemma {:induction false} FreshIsReused(g: Setting, w: World, schedule: seq<nat>, i: nat, from: Key, n: nat)
    requires WellPosed(g) && Initial(g, w) && i < |g.jobs| && Alone(g, i) && Chosen(g, w, i, from, n)
    requires forall m :: 0 <= m < |schedule| ==> schedule[m] < |g.jobs|
    ensures var (v, k) := (Run(g, w, schedule), g.jobs[i].target);
            && |v.pcs| == |g.jobs|
            && v.At(k).compiles == 0 && v.At(k).failures == 0 && !v.pcs[i].Refused? && !v.pcs[i].Broken?
            && (v.pcs[i].Finished? ==> v.At(k).obj == w.At(from).obj && v.At(k).dep == w.At(from).dep)
  {
    hide Step, WellPosed, Alone, Chosen, PairOk;
    StaysUnderway(g, w, w, schedule, i, from, n);
  }
}
