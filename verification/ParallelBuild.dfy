/** Workers sharing one cache while no source is edited: `compile_one` as a state machine in which any
    worker may take the next step, each entry's lock is exclusive, and freshness checks outside
    the lock see whatever is there. */
module ParallelBuild {
  import opened Wrappers
  import opened FreshPair
  import Depfile

  /** What one worker is to do: the entry it builds, and the entries it may seed it from (none where the
      source needs the version). */
  datatype Job = Job(target: Key, seeds: seq<Key>)

  datatype Setting = Setting(compiler: Compiler, tree: Tree, jobs: seq<Job>)

  /** Where a worker stands. `j` counts the entries tried as seeds. */
  datatype Pc =
    | Start
    | TrySeed(j: nat)
    | WantSeed(j: nat)
    | SeedLocked(j: nat)
    | SeedLinking(j: nat)
    | SeedHalf(j: nat)
    | SeedStored(j: nat)
    | WantBuild
    | BuildLocked
    | Compiling
    | Ready(code: Content, rule: Depfile.Rule, stamp: nat)
    | HalfStored(rule: Depfile.Rule, stamp: nat)
    | Stored
    | Finished
    | Refused
    | Broken

  /** One entry: its two files, the worker holding its lock, and how often it was compiled, with success and
      in vain. */
  datatype Slot = Slot(obj: Option<File>, dep: Option<File>, holder: Option<nat>, compiles: nat, failures: nat)

  datatype World = World(slots: map<Key, Slot>, pcs: seq<Pc>, clock: nat) {
    function At(k: Key): Slot {
      if k in slots then slots[k] else Slot(None, None, None, 0, 0)
    }

    function Put(i: nat, pc: Pc, k: Key, s: Slot): World
      requires i < |pcs|
    {
      World(slots[k := s], pcs[i := pc], clock)
    }
  }

  function Verdicts(g: Setting, s: Slot): Verdict {
    Check(s.obj, s.dep, g.tree)
  }

  // --------------------------------------------------------------------- one step

  /** The next atomic action of worker `i`; a worker waiting for a lock stays where it is. */
  function Step(g: Setting, w: World, i: nat): (r: World)
    requires i < |w.pcs| == |g.jobs|
    ensures |r.pcs| == |w.pcs|
  {
    var job := g.jobs[i];
    var k := job.target;
    var s := w.At(k);
    var free := s.(holder := None);
    match w.pcs[i]
    case Start =>
      if job.seeds == [] then w.Put(i, WantBuild, k, s)
      else (match Verdicts(g, s)
            case Raises => w.Put(i, Broken, k, s)
            case Fresh => w.Put(i, WantBuild, k, s)
            case Stale => w.Put(i, TrySeed(0), k, s))
    case TrySeed(j) =>
      if j >= |job.seeds| then w.Put(i, WantBuild, k, s)
      else (match Verdicts(g, w.At(job.seeds[j]))
            case Raises => w.Put(i, Broken, k, s)
            case Stale => w.Put(i, TrySeed(j + 1), k, s)
            case Fresh => w.Put(i, WantSeed(j), k, s))
    case WantSeed(j) =>
      if s.holder.Some? then w else w.Put(i, SeedLocked(j), k, s.(holder := Some(i)))
    case SeedLocked(j) =>
      (match Verdicts(g, s)
       case Raises => w.Put(i, Broken, k, free)
       case Fresh => w.Put(i, WantBuild, k, free)
       case Stale => w.Put(i, SeedLinking(j), k, s))
    case SeedLinking(j) =>
      if j >= |job.seeds| then w else w.Put(i, SeedHalf(j), k, s.(obj := w.At(job.seeds[j]).obj))
    case SeedHalf(j) =>
      if j >= |job.seeds| then w else w.Put(i, SeedStored(j), k, s.(dep := w.At(job.seeds[j]).dep))
    case SeedStored(j) =>
      (match Verdicts(g, s)
       case Raises => w.Put(i, Broken, k, free)
       case Fresh => w.Put(i, WantBuild, k, free)
       case Stale => w.Put(i, TrySeed(j + 1), k, free))
    case WantBuild =>
      if s.holder.Some? then w else w.Put(i, BuildLocked, k, s.(holder := Some(i)))
    case BuildLocked =>
      (match Verdicts(g, s)
       case Raises => w.Put(i, Broken, k, free)
       case Fresh => w.Put(i, Finished, k, free)
       case Stale => w.Put(i, Compiling, k, s))
    case Compiling =>
      (match g.compiler.run(k.flags, k.source, Contents(g.tree))
       case Failed => w.Put(i, Refused, k, free.(failures := s.failures + 1))
       case Compiled(code, rule) =>
         w.Put(i, Ready(code, rule, w.clock + 1), k, s.(compiles := s.compiles + 1)).(clock := w.clock + 2))
    case Ready(code, rule, stamp) =>
      w.Put(i, HalfStored(rule, stamp), k, s.(obj := Some(File(code, stamp))))
    case HalfStored(rule, stamp) =>
      w.Put(i, Stored, k, s.(dep := Some(File(Text(Depfile.Print(rule)), stamp + 1))))
    case Stored => w.Put(i, Finished, k, free)
    case Finished => w
    case Refused => w
    case Broken => w
  }

  /** Any interleaving: a schedule says whose turn it is. */
  function Run(g: Setting, w: World, schedule: seq<nat>): World
    requires |w.pcs| == |g.jobs|
    requires forall n :: 0 <= n < |schedule| ==> schedule[n] < |g.jobs|
    decreases schedule
  {
    if schedule == [] then w else Run(g, Step(g, w, schedule[0]), schedule[1..])
  }

  // ----------------------------------------------------------------- the invariant

  /** The jobs of one wrapper run, or of several running side by side: seeds come from the same source
      with another version, whose text does not name it, and no entry that one worker seeds from is
      built by another worker, unless both build that very entry. */
  ghost predicate WellPosed(g: Setting) {
    && Faithful(g.compiler) && VersionOnlyWhereNamed(g.compiler)
    && (forall i, j :: 0 <= i < |g.jobs| && 0 <= j < |g.jobs[i].seeds| ==>
          SeedFits(g, g.jobs[i].seeds[j], g.jobs[i].target))
    && (forall i, j, h :: 0 <= i < |g.jobs| && 0 <= j < |g.jobs[i].seeds| && 0 <= h < |g.jobs| ==>
          g.jobs[i].seeds[j] == g.jobs[h].target ==> g.jobs[h].target == g.jobs[i].target)
  }

  ghost predicate SeedFits(g: Setting, from: Key, to: Key) {
    && from.source == to.source && StableFlags(from.flags) == StableFlags(to.flags)
    && to.source in g.tree && !NamesVersion(g.tree[to.source].content)
  }

  ghost predicate SlotOk(g: Setting, k: Key, s: Slot) {
    PairOk(g.compiler, k, s.obj, s.dep, g.tree)
  }

  /** In order, compiled at most once, and fresh once it was. */
  ghost predicate AtRest(g: Setting, k: Key, s: Slot) {
    SlotOk(g, k, s) && s.compiles <= 1 && (s.compiles == 1 ==> Verdicts(g, s) == Fresh)
  }

  /** Found stale under the lock, so never compiled yet. */
  ghost predicate Doomed(g: Setting, k: Key, s: Slot) {
    SlotOk(g, k, s) && s.compiles == 0 && Verdicts(g, s) == Stale
  }

  /** What holds of a locked entry, by where its holder stands. */
  ghost predicate HeldOk(g: Setting, w: World, k: Key, s: Slot, h: nat)
    requires h < |w.pcs| == |g.jobs|
  {
    var seeds := g.jobs[h].seeds;
    var outcome := g.compiler.run(k.flags, k.source, Contents(g.tree));
    match w.pcs[h]
    case SeedLocked(j) => AtRest(g, k, s)
    case SeedLinking(j) => Doomed(g, k, s)
    case SeedHalf(j) => s.compiles == 0 && j < |seeds| && s.obj == w.At(seeds[j]).obj && (seeds[j] == k ==> Doomed(g, k, s))
    case SeedStored(j) => SlotOk(g, k, s) && s.compiles == 0
    case BuildLocked => AtRest(g, k, s)
    case Compiling => Doomed(g, k, s)
    case Ready(code, rule, stamp) =>
      && SlotOk(g, k, s) && Verdicts(g, s) == Stale && s.compiles == 1
      && outcome == Compiled(code, rule) && NoneNewer(g.tree, stamp)
    case HalfStored(rule, stamp) =>
      && s.compiles == 1 && NoneNewer(g.tree, stamp)
      && outcome.Compiled? && outcome.rule == rule && s.obj == Some(File(outcome.code, stamp))
    case Stored => SlotOk(g, k, s) && s.compiles == 1 && Verdicts(g, s) == Fresh
    case _ => false
  }

  ghost predicate NoneNewer(tree: Tree, now: nat) {
    forall p :: p in tree ==> tree[p].mtime <= now
  }

  /** The compiler does not change its mind: an entry is compiled with success only or in vain only. */
  predicate OneWay(g: Setting, k: Key, s: Slot) {
    if g.compiler.run(k.flags, k.source, Contents(g.tree)).Failed? then s.compiles == 0 else s.failures == 0
  }

  ghost predicate KeyOk(g: Setting, w: World, k: Key)
    requires |w.pcs| == |g.jobs|
  {
    var s := w.At(k);
    && OneWay(g, k, s)
    && match s.holder
       case None => AtRest(g, k, s)
       case Some(h) => h < |g.jobs| && g.jobs[h].target == k && HeldOk(g, w, k, s, h)
  }

  predicate Holding(pc: Pc) {
    pc.SeedLocked? || pc.SeedLinking? || pc.SeedHalf? || pc.SeedStored? || pc.BuildLocked?
    || pc.Compiling? || pc.Ready? || pc.HalfStored? || pc.Stored?
  }

  /** Fresh, and nobody is replacing it. */
  ghost predicate Settled(g: Setting, w: World, k: Key) {
    var s := w.At(k);
    && Verdicts(g, s) == Fresh
    && (s.holder.Some? && s.holder.value < |w.pcs| ==>
          !w.pcs[s.holder.value].SeedHalf? && !w.pcs[s.holder.value].HalfStored?)
  }

  ghost predicate WorkerOk(g: Setting, w: World, i: nat)
    requires i < |w.pcs| == |g.jobs|
  {
    var (pc, job) := (w.pcs[i], g.jobs[i]);
    && (Holding(pc) ==> w.At(job.target).holder == Some(i))
    && (pc.WantSeed? || pc.SeedLocked? || pc.SeedLinking? || pc.SeedHalf? ==>
          pc.j < |job.seeds| && (job.seeds[pc.j] != job.target ==> Verdicts(g, w.At(job.seeds[pc.j])) == Fresh))
    && (pc.SeedStored? ==> pc.j < |job.seeds|)
    && (pc.Finished? ==> Settled(g, w, job.target))
  }

  ghost predicate Inv(g: Setting, w: World) {
    && |w.pcs| == |g.jobs|
    && NoneNewer(g.tree, w.clock)
    && (forall k :: KeyOk(g, w, k))
    && (forall i :: 0 <= i < |w.pcs| ==> WorkerOk(g, w, i))
  }

  // -------------------------------------------------------------- steps keep the invariant

  /** A step of worker `i` changes its own place and its own entry, so only these need looking at,
      and an entry that was settled must stay so. */
  lemma Framed(g: Setting, w: World, i: nat, v: World)
    requires WellPosed(g) && Inv(g, w) && i < |g.jobs|
    requires var k := g.jobs[i].target;
             && |v.pcs| == |w.pcs| && v.pcs == w.pcs[i := v.pcs[i]] && w.clock <= v.clock
             && (forall j: Key :: j != k ==> v.At(j) == w.At(j))
             && (w.At(k).holder.Some? ==> w.At(k).holder == Some(i) || v.At(k) == w.At(k))
             && KeyOk(g, v, k) && WorkerOk(g, v, i)
             && (Settled(g, w, k) ==> Settled(g, v, k))
    ensures Inv(g, v)
  {
    hide PairOk, Check, OneWay;
    var k := g.jobs[i].target;
    forall j: Key ensures KeyOk(g, v, j) {
      if j != k {
        assert KeyOk(g, w, j);
        if w.At(j).holder.Some? {
          var h := w.At(j).holder.value;
          assert h != i;
          if v.pcs[h].SeedHalf? { assert g.jobs[h].seeds[v.pcs[h].j] == k ==> k == j; }
        }
      }
    }
    forall h | 0 <= h < |v.pcs| ensures WorkerOk(g, v, h) {
      if h != i {
        assert WorkerOk(g, w, h);
        var (pc, job) := (w.pcs[h], g.jobs[h]);
        if Holding(pc) && job.target == k { assert w.At(k).holder == Some(h); }
        if pc.WantSeed? || pc.SeedLocked? || pc.SeedLinking? || pc.SeedHalf? {
          assert job.seeds[pc.j] == k ==> k == job.target;
        }
        if pc.Finished? && job.target != k { SettledElsewhere(g, w, i, v, job.target); }
      }
    }
  }

  lemma SettledElsewhere(g: Setting, w: World, i: nat, v: World, k: Key)
    requires Inv(g, w) && i < |g.jobs| && k != g.jobs[i].target && Settled(g, w, k)
    requires |v.pcs| == |w.pcs| && v.pcs == w.pcs[i := v.pcs[i]] && v.At(k) == w.At(k)
    ensures Settled(g, v, k)
  {
    assert KeyOk(g, w, k);
  }

  /** A step that leaves the entry's files as they are, or worker `i` still holding it. */
  ghost predicate Local(g: Setting, w: World, i: nat, v: World)
    requires i < |g.jobs| == |w.pcs|
  {
    var k := g.jobs[i].target;
    && |v.pcs| == |w.pcs| && KeyOk(g, v, k) && WorkerOk(g, v, i)
    && (Settled(g, w, k) ==> Settled(g, v, k))
  }

  /** Worker `i` moved on without touching any entry or holding this one. */
  lemma KeyStays(g: Setting, w: World, i: nat, v: World, k: Key)
    requires |w.pcs| == |g.jobs| && i < |g.jobs| && KeyOk(g, w, k) && w.At(k).holder != Some(i)
    requires |v.pcs| == |w.pcs| && v.pcs == w.pcs[i := v.pcs[i]] && forall j: Key :: v.At(j) == w.At(j)
    ensures KeyOk(g, v, k) && (Settled(g, w, k) ==> Settled(g, v, k))
  {
    hide PairOk, AtRest, Doomed, Check;
    if w.At(k).holder.Some? { assert v.pcs[w.At(k).holder.value] == w.pcs[w.At(k).holder.value]; }
  }

  lemma LookingKeeps(g: Setting, w: World, i: nat)
    requires WellPosed(g) && Inv(g, w) && i < |g.jobs|
    requires w.pcs[i].Start? || w.pcs[i].TrySeed? || w.pcs[i].Finished? || w.pcs[i].Refused? || w.pcs[i].Broken?
    ensures Local(g, w, i, Step(g, w, i))
  {
    hide PairOk, AtRest, Doomed, SlotOk, Check, OneWay, Settled, WellPosed, NoneNewer;
    var (k, v) := (g.jobs[i].target, Step(g, w, i));
    assert KeyOk(g, w, k) && WorkerOk(g, w, i);
    assert forall j: Key :: v.At(j) == w.At(j);
    if w.At(k).holder.Some? { assert w.At(k).holder.value != i; }
    KeyStays(g, w, i, v, k);
  }

  lemma LockingKeeps(g: Setting, w: World, i: nat)
    requires WellPosed(g) && Inv(g, w) && i < |g.jobs|
    requires w.pcs[i].WantSeed? || w.pcs[i].WantBuild?
    ensures Local(g, w, i, Step(g, w, i))
  {
    hide PairOk, Check, WellPosed, NoneNewer;
    assert KeyOk(g, w, g.jobs[i].target) && WorkerOk(g, w, i);
  }

  lemma CheckingKeeps(g: Setting, w: World, i: nat)
    requires WellPosed(g) && Inv(g, w) && i < |g.jobs|
    requires w.pcs[i].SeedLocked? || w.pcs[i].BuildLocked?
    ensures Local(g, w, i, Step(g, w, i))
  {
    hide PairOk, Check, WellPosed, NoneNewer;
    assert KeyOk(g, w, g.jobs[i].target) && WorkerOk(g, w, i);
  }

  lemma LeavingKeeps(g: Setting, w: World, i: nat)
    requires WellPosed(g) && Inv(g, w) && i < |g.jobs|
    requires w.pcs[i].SeedStored? || w.pcs[i].Stored?
    ensures Local(g, w, i, Step(g, w, i))
  {
    hide PairOk, Check, WellPosed, NoneNewer;
    assert KeyOk(g, w, g.jobs[i].target) && WorkerOk(g, w, i);
  }

  lemma CompilingKeeps(g: Setting, w: World, i: nat)
    requires WellPosed(g) && Inv(g, w) && i < |g.jobs|
    requires w.pcs[i].Compiling? || w.pcs[i].Ready?
    ensures Local(g, w, i, Step(g, w, i))
  {
    hide PairOk, Check, WellPosed;
    assert KeyOk(g, w, g.jobs[i].target) && WorkerOk(g, w, i);
  }

  lemma StoringKeeps(g: Setting, w: World, i: nat)
    requires WellPosed(g) && Inv(g, w) && i < |g.jobs| && w.pcs[i].HalfStored?
    ensures Local(g, w, i, Step(g, w, i))
  {
    hide PairOk, Check, Exact, Faithful, VersionOnlyWhereNamed;
    var k := g.jobs[i].target;
    assert KeyOk(g, w, k) && WorkerOk(g, w, i);
    CompileMakes(g.compiler, k, g.tree, w.pcs[i].stamp, w.pcs[i].stamp + 1);
  }

  lemma LinkingKeeps(g: Setting, w: World, i: nat)
    requires WellPosed(g) && Inv(g, w) && i < |g.jobs| && w.pcs[i].SeedLinking?
    ensures Local(g, w, i, Step(g, w, i))
  {
    hide PairOk, Check, WellPosed, NoneNewer;
    assert KeyOk(g, w, g.jobs[i].target) && WorkerOk(g, w, i);
  }

  /** An entry a worker seeds from, unless it is the very one it builds, is held by nobody. */
  lemma SeedIsFree(g: Setting, w: World, i: nat, j: nat)
    requires WellPosed(g) && Inv(g, w) && i < |g.jobs| && j < |g.jobs[i].seeds|
    requires g.jobs[i].seeds[j] != g.jobs[i].target
    ensures SlotOk(g, g.jobs[i].seeds[j], w.At(g.jobs[i].seeds[j]))
    ensures VersionOnlyWhereNamed(g.compiler) && SeedFits(g, g.jobs[i].seeds[j], g.jobs[i].target)
  {
    hide PairOk, Check, Faithful, VersionOnlyWhereNamed, NoneNewer, SeedFits, HeldOk;
    assert KeyOk(g, w, g.jobs[i].seeds[j]);
  }

  lemma HalfSeededKeeps(g: Setting, w: World, i: nat)
    requires WellPosed(g) && Inv(g, w) && i < |g.jobs| && w.pcs[i].SeedHalf?
    ensures Local(g, w, i, Step(g, w, i))
  {
    hide PairOk, Check, WellPosed, NoneNewer;
    var (k, j) := (g.jobs[i].target, w.pcs[i].j);
    assert KeyOk(g, w, k) && WorkerOk(g, w, i);
    var from := g.jobs[i].seeds[j];
    var s := w.At(from);
    if from != k {
      SeedIsFree(g, w, i, j);
      SeedKeeps(g.compiler, from, k, s.obj, s.dep, g.tree);
    }
  }

  lemma StepKeeps(g: Setting, w: World, i: nat)
    requires WellPosed(g) && Inv(g, w) && i < |g.jobs|
    ensures Inv(g, Step(g, w, i))
  {
    match w.pcs[i] {
      case Start => LookingKeeps(g, w, i);
      case TrySeed(_) => LookingKeeps(g, w, i);
      case Finished => LookingKeeps(g, w, i);
      case Refused => LookingKeeps(g, w, i);
      case Broken => LookingKeeps(g, w, i);
      case WantSeed(_) => LockingKeeps(g, w, i);
      case WantBuild => LockingKeeps(g, w, i);
      case SeedLinking(_) => LinkingKeeps(g, w, i);
      case SeedHalf(_) => HalfSeededKeeps(g, w, i);
      case Compiling => CompilingKeeps(g, w, i);
      case Ready(_, _, _) => CompilingKeeps(g, w, i);
      case HalfStored(_, _) => StoringKeeps(g, w, i);
      case SeedStored(_) => LeavingKeeps(g, w, i);
      case Stored => LeavingKeeps(g, w, i);
      case _ => CheckingKeeps(g, w, i);
    }
    StepFrame(g, w, i);
    StepMoves(g, w, i);
    Framed(g, w, i, Step(g, w, i));
  }

  /** What a step leaves alone: the other workers and the other entries. */
  lemma StepFrame(g: Setting, w: World, i: nat)
    requires i < |w.pcs| == |g.jobs|
    ensures var (k, v) := (g.jobs[i].target, Step(g, w, i));
            && |v.pcs| == |w.pcs| && v.pcs == w.pcs[i := v.pcs[i]] && w.clock <= v.clock
            && (forall j: Key :: j != k ==> v.At(j) == w.At(j))
  {
    hide Check;
  }

  /** And an entry that another worker has locked. */
  lemma StepMoves(g: Setting, w: World, i: nat)
    requires Inv(g, w) && i < |g.jobs|
    ensures var (k, v) := (g.jobs[i].target, Step(g, w, i));
            w.At(k).holder.Some? ==> w.At(k).holder == Some(i) || v.At(k) == w.At(k)
  {
    hide Check, KeyOk;
    assert WorkerOk(g, w, i);
  }

  // ------------------------------------------------------------------- the theorems

  lemma {:induction false} RunKeeps(g: Setting, w: World, schedule: seq<nat>)
    requires WellPosed(g) && Inv(g, w)
    requires forall n :: 0 <= n < |schedule| ==> schedule[n] < |g.jobs|
    ensures Inv(g, Run(g, w, schedule))
    decreases schedule
  {
    if schedule != [] {
      StepKeeps(g, w, schedule[0]);
      RunKeeps(g, Step(g, w, schedule[0]), schedule[1..]);
    }
  }

  /** Every worker about to begin, no lock held, nothing compiled in this run yet, and the cache in
      order. */
  ghost predicate Initial(g: Setting, w: World) {
    && |w.pcs| == |g.jobs| && NoneNewer(g.tree, w.clock)
    && (forall i :: 0 <= i < |w.pcs| ==> w.pcs[i].Start?)
    && (forall k :: SlotOk(g, k, w.At(k)) && w.At(k).holder.None? && w.At(k).compiles == 0 && w.At(k).failures == 0)
  }

  lemma InitialInv(g: Setting, w: World)
    requires Initial(g, w)
    ensures Inv(g, w)
  {
    forall k ensures KeyOk(g, w, k) { assert SlotOk(g, k, w.At(k)); }
  }

  /** The workers whose compile of this entry failed. */
  function Refusals(g: Setting, w: World, k: Key): set<nat>
    requires |w.pcs| == |g.jobs|
  {
    set i: nat | i < |w.pcs| && w.pcs[i].Refused? && g.jobs[i].target == k
  }

  /** Worker `i` has its compile fail in this step. */
  predicate FailsNow(g: Setting, w: World, i: nat)
    requires i < |w.pcs| == |g.jobs|
  {
    w.pcs[i].Compiling? && Step(g, w, i).pcs[i].Refused?
  }

  lemma StepCharges(g: Setting, w: World, i: nat, k: Key)
    requires |w.pcs| == |g.jobs| && i < |g.jobs|
    ensures var v := Step(g, w, i);
            && |v.pcs| == |w.pcs| && v.pcs == w.pcs[i := v.pcs[i]]
            && (v.pcs[i].Refused? <==> w.pcs[i].Refused? || FailsNow(g, w, i))
            && v.At(k).failures == w.At(k).failures + (if FailsNow(g, w, i) && g.jobs[i].target == k then 1 else 0)
  {
    hide Check;
  }

  lemma StepCounts(g: Setting, w: World, i: nat, k: Key)
    requires |w.pcs| == |g.jobs| && i < |g.jobs| && w.At(k).failures == |Refusals(g, w, k)|
    ensures var v := Step(g, w, i); |v.pcs| == |g.jobs| && v.At(k).failures == |Refusals(g, v, k)|
  {
    StepCharges(g, w, i, k);
    var (v, before) := (Step(g, w, i), Refusals(g, w, k));
    hide Step;
    if FailsNow(g, w, i) && g.jobs[i].target == k {
      assert Refusals(g, v, k) == before + {i};
    } else {
      assert Refusals(g, v, k) == before;
    }
  }

  lemma {:induction false} FailuresAreCounted(g: Setting, w: World, schedule: seq<nat>, k: Key)
    requires |w.pcs| == |g.jobs| && w.At(k).failures == |Refusals(g, w, k)|
    requires forall n :: 0 <= n < |schedule| ==> schedule[n] < |g.jobs|
    ensures var v := Run(g, w, schedule); |v.pcs| == |g.jobs| && v.At(k).failures == |Refusals(g, v, k)|
    decreases schedule
  {
    hide Step;
    if schedule != [] {
      StepCounts(g, w, schedule[0], k);
      FailuresAreCounted(g, Step(g, w, schedule[0]), schedule[1..], k);
    }
  }

  /** Under every interleaving no entry is compiled twice with success, nor both with success and in vain;
      a compile in vain ends its worker, so there are as many as workers ended by one. An entry nobody is
      writing is in order, and a worker that is through has an object that is exactly what a direct
      compile gives. */
  lemma {:induction false} EveryInterleaving(g: Setting, w: World, schedule: seq<nat>)
    requires WellPosed(g) && Initial(g, w)
    requires forall n :: 0 <= n < |schedule| ==> schedule[n] < |g.jobs|
    ensures var v := Run(g, w, schedule);
            && |v.pcs| == |g.jobs|
            && (forall k :: v.At(k).compiles <= 1 && (v.At(k).compiles == 1 ==> v.At(k).failures == 0))
            && (forall k :: v.At(k).failures == |Refusals(g, v, k)|)
            && (forall k :: v.At(k).holder.None? ==> SlotOk(g, k, v.At(k)))
            && (forall i :: 0 <= i < |v.pcs| && v.pcs[i].Finished? ==>
                  Exact(g.compiler, g.jobs[i].target, v.At(g.jobs[i].target).obj, g.tree))
  {
    InitialInv(g, w);
    RunKeeps(g, w, schedule);
    var v := Run(g, w, schedule);
    forall k ensures v.At(k).failures == |Refusals(g, v, k)| {
      assert Refusals(g, w, k) == {};
      FailuresAreCounted(g, w, schedule, k);
    }
    forall k
      ensures v.At(k).compiles <= 1 && (v.At(k).compiles == 1 ==> v.At(k).failures == 0)
      ensures v.At(k).holder.None? ==> SlotOk(g, k, v.At(k))
    {
      assert KeyOk(g, v, k);
    }
    forall i | 0 <= i < |v.pcs| && v.pcs[i].Finished?
      ensures Exact(g.compiler, g.jobs[i].target, v.At(g.jobs[i].target).obj, g.tree)
    {
      assert WorkerOk(g, v, i) && KeyOk(g, v, g.jobs[i].target);
    }
  }

  /** Two interleavings in which a worker gets through hand the linker the same object contents. */
  lemma {:induction false} InterleavingsAgree(g: Setting, w: World, schedule: seq<nat>, other: seq<nat>, i: nat)
    requires WellPosed(g) && Initial(g, w) && i < |g.jobs|
    requires forall n :: 0 <= n < |schedule| ==> schedule[n] < |g.jobs|
    requires forall n :: 0 <= n < |other| ==> other[n] < |g.jobs|
    ensures var (k, v, u) := (g.jobs[i].target, Run(g, w, schedule), Run(g, w, other));
            && |v.pcs| == |u.pcs| == |g.jobs|
            && (v.pcs[i].Finished? && u.pcs[i].Finished? ==>
                v.At(k).obj.Some? && u.At(k).obj.Some? && v.At(k).obj.value.content == u.At(k).obj.value.content)
  {
    EveryInterleaving(g, w, schedule);
    EveryInterleaving(g, w, other);
  }
}
