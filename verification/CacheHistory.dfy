/** The cache over whole histories: edits, deletions, builds and seedings, completed or killed. */
module CacheHistory {
  import opened Wrappers
  import opened FreshPair
  import opened FileStore
  import opened CacheSteps
  import opened ObjectCache
  import Depfile

  datatype Action =
    | Edit(path: string, content: Content)
    | Delete(path: string)
    | Build(key: Key, owner: nat, cut: Cut)
    | Seed(from: Key, to: Key, owner: nat, copied: (bool, bool), cut: Cut)

  /** A process that a kill left temporary names behind does not come back under the same number, and
      `compile_one` seeds only as it does. */
  ghost predicate Fits(d: Disk, a: Action) {
    match a
    case Edit(_, _) => true
    case Delete(_) => true
    case Build(_, owner, _) => d.Unused(owner)
    case Seed(from, to, owner, _, _) => d.Unused(owner) && MaySeed(d, from, to)
  }

  function Apply(c: Compiler, d: Disk, a: Action): Disk {
    match a
    case Edit(path, content) => d.Edit(path, content)
    case Delete(path) => d.Delete(path)
    case Build(k, owner, cut) => BuildTo(c, d, k, owner, cut)
    case Seed(from, to, owner, copied, cut) => SeedTo(d, from, to, owner, copied, cut)
  }

  /** An edit puts the content there with a new time stamp, a deletion takes the source away, and neither does anything
      else; builds and seedings run the steps of the wrapper. */
  lemma ApplyLeaves(c: Compiler, d: Disk, path: string, content: Content)
    requires d.Valid()
    ensures var e := Apply(c, d, Edit(path, content));
            e.Tree() == d.Tree()[path := File(content, d.clock + 1)] && forall n :: e.Find(n) == d.Find(n)
    ensures var e := Apply(c, d, Delete(path)); e.Tree() == d.Tree() - {path} && forall n :: e.Find(n) == d.Find(n)
    ensures forall k, owner, cut :: Apply(c, d, Build(k, owner, cut)) == BuildTo(c, d, k, owner, cut)
    ensures forall from, k, owner, copied, cut ::
              Apply(c, d, Seed(from, k, owner, copied, cut)) == SeedTo(d, from, k, owner, copied, cut)
  {
    hide BuildTo, SeedTo, Disk.Freshness;
    forall p ensures p in d.Edit(path, content).Tree() <==> p in d.Tree()[path := File(content, d.clock + 1)]
      ensures p in d.Edit(path, content).Tree() ==>
                d.Edit(path, content).Tree()[p] == d.Tree()[path := File(content, d.clock + 1)][p]
    {
      EditTree(d, path, content, p);
    }
  }

  predicate Halfway(cut: Cut) {
    cut.ObjectPlaced? || cut.RulesReady?
  }

  /** The entry an action may write. */
  function Target(a: Action): Option<Key> {
    match a
    case Build(k, _, _) => Some(k)
    case Seed(_, to, _, _, _) => Some(to)
    case _ => None
  }

  /** What a kill between the two replacements must not find: a depfile that misses something the new
      object depends on and yet makes the mixed pair count as fresh, because all it lists is there and
      no newer than the object. Both can be told before the action, from the disk and from what a
      compile would read. */
  ghost predicate Safe(c: Compiler, d: Disk, a: Action) {
    match a
    case Build(k, _, cut) =>
      (Halfway(cut) && d.Freshness(k) == Stale && c.run(k.flags, k.source, Contents(d.Tree())).Compiled?
       && Passes(d.Find(Rules(k)), d.Tree(), d.clock)) ==> Covered(c, d, k)
    case Seed(from, to, _, _, cut) =>
      (Halfway(cut) && SeedsNow(d, from, to) && Passes(d.Find(Rules(to)), d.Tree(), Stamp(d, from))) ==>
        Covered(c, d, to)
    case _ => true
  }

  ghost predicate Sound(c: Compiler, d: Disk) {
    d.Valid() && CacheOk(c, d) && Readable(d)
  }

  // ----------------------------------------------------------------- one action

  lemma TreeChangeKeeps(c: Compiler, d: Disk, e: Disk)
    requires Faithful(c) && d.Valid() && CacheOk(c, d) && Readable(d)
    requires forall n :: e.Find(n) == d.Find(n)
    requires OnlyNewer(d.Tree(), e.Tree(), d.clock)
    ensures CacheOk(c, e) && Readable(e)
  {
    forall k ensures EntryOk(c, e, k) {
      assert EntryOk(c, d, k);
      EditKeeps(c, k, d.Find(Object(k)), d.Find(Rules(k)), d.Tree(), e.Tree());
    }
  }

  /** What one build does to its own entry, wherever it is cut. */
  lemma BuildEntry(c: Compiler, d: Disk, k: Key, owner: nat, cut: Cut)
    requires Faithful(c) && d.Valid() && d.Unused(owner) && EntryOk(c, d, k)
    ensures EntryOk(c, BuildTo(c, d, k, owner, cut), k) <==> Safe(c, d, Build(k, owner, cut))
  {
    hide OnlyEntry, Stored, Passes;
    var e := BuildTo(c, d, k, owner, cut);
    var outcome := c.run(k.flags, k.source, Contents(d.Tree()));
    if d.Freshness(k).Stale? && outcome.Compiled? {
      if Halfway(cut) {
        KilledBetween(c, d, k, owner);
        SameHalf(d, k, owner, outcome.code, outcome.rule, cut);
      } else {
        StoredLeaves(d, k, owner, outcome.code, outcome.rule, cut);
        BuildStep(c, d, k, owner, cut);
        OnlyEntryMeans(c, d, e, k, owner);
        if !cut.ObjectReady? {
          TreeNotNewer(d);
          CompileMakes(c, k, d.Tree(), d.clock + 1, d.clock + 2);
        }
      }
    }
  }

  lemma SameHalf(d: Disk, k: Key, owner: nat, code: Content, rule: Depfile.Rule, cut: Cut)
    requires Halfway(cut)
    ensures Stored(d, k, owner, code, rule, cut) == Stored(d, k, owner, code, rule, ObjectPlaced)
  {
    hide Prepared, Placed;
  }

  lemma SeedEntry(c: Compiler, d: Disk, from: Key, to: Key, owner: nat, copied: (bool, bool), cut: Cut)
    requires Faithful(c) && VersionOnlyWhereNamed(c) && d.Valid() && d.Unused(owner) && MaySeed(d, from, to)
    requires EntryOk(c, d, from) && EntryOk(c, d, to)
    ensures EntryOk(c, SeedTo(d, from, to, owner, copied, cut), to)
            <==> Safe(c, d, Seed(from, to, owner, copied, cut))
  {
    hide OnlyEntry, Carry, Bring, Check, Disk.Valid, Disk.Unused, Disk.Find;
    if SeedsNow(d, from, to) {
      var e := SeedTo(d, from, to, owner, copied, cut);
      SeedLeaves(d, from, to, owner, copied, cut);
      OnlyEntryMeans(c, d, e, to, owner);
      if Halfway(cut) {
        SeedKilledBetween(c, d, from, to, owner, copied, cut);
      } else if !cut.ObjectReady? {
        SeedDelivers(c, d, from, to, owner, copied);
      }
    }
  }

  lemma BuildKeeps(c: Compiler, d: Disk, k: Key, owner: nat, cut: Cut)
    requires Faithful(c) && Sound(c, d) && d.Unused(owner)
    ensures var e := BuildTo(c, d, k, owner, cut);
            && e.Valid() && Readable(e)
            && (CacheOk(c, e) <==> Safe(c, d, Build(k, owner, cut)))
  {
    var e := BuildTo(c, d, k, owner, cut);
    BuildStep(c, d, k, owner, cut);
    OnlyEntryMeans(c, d, e, k, owner);
    BuildKeepsReadable(c, d, k, owner, cut);
    assert EntryOk(c, d, k);
    BuildEntry(c, d, k, owner, cut);
    forall j | j != k ensures EntryOk(c, e, j) { assert EntryOk(c, d, j); }
    assert CacheOk(c, e) <==> EntryOk(c, e, k);
  }

  lemma SeedKeeps(c: Compiler, d: Disk, from: Key, to: Key, owner: nat, copied: (bool, bool), cut: Cut)
    requires Faithful(c) && VersionOnlyWhereNamed(c) && Sound(c, d) && d.Unused(owner) && MaySeed(d, from, to)
    ensures var e := SeedTo(d, from, to, owner, copied, cut);
            && e.Valid() && Readable(e)
            && (CacheOk(c, e) <==> Safe(c, d, Seed(from, to, owner, copied, cut)))
  {
    hide Carry, Bring, Check, PairOk, Kept;
    if SeedsNow(d, from, to) {
      var e := SeedTo(d, from, to, owner, copied, cut);
      SeedLeaves(d, from, to, owner, copied, cut);
      OnlyEntryMeans(c, d, e, to, owner);
      assert EntryOk(c, d, to) && EntryOk(c, d, from);
      SeedEntry(c, d, from, to, owner, copied, cut);
      forall j | j != to ensures EntryOk(c, e, j) { assert EntryOk(c, d, j); }
      assert CacheOk(c, e) <==> EntryOk(c, e, to);
    }
  }

  /** The exact step: an action keeps the whole cache in order if and only if it is safe. Everything but
      a kill between the two replacements is. */
  lemma ActionKeeps(c: Compiler, d: Disk, a: Action)
    requires Faithful(c) && VersionOnlyWhereNamed(c) && Sound(c, d) && Fits(d, a)
    ensures var e := Apply(c, d, a);
            && e.Valid() && Readable(e)
            && (CacheOk(c, e) <==> Safe(c, d, a))
  {
    match a
    case Edit(path, content) =>
      EditLeaves(d, path, content);
      TreeChangeKeeps(c, d, d.Edit(path, content));
    case Delete(path) =>
      DeleteLeaves(d, path);
      TreeChangeKeeps(c, d, d.Delete(path));
    case Build(k, owner, cut) => BuildKeeps(c, d, k, owner, cut);
    case Seed(from, to, owner, copied, cut) => SeedKeeps(c, d, from, to, owner, copied, cut);
  }

  // ------------------------------------------------------------------- histories

  ghost predicate Possible(c: Compiler, d: Disk, actions: seq<Action>)
    decreases actions
  {
    actions != [] ==>
      Fits(d, actions[0]) && Safe(c, d, actions[0]) && Possible(c, Apply(c, d, actions[0]), actions[1..])
  }

  function After(c: Compiler, d: Disk, actions: seq<Action>): Disk
    decreases actions
  {
    if actions == [] then d else After(c, Apply(c, d, actions[0]), actions[1..])
  }

  lemma {:induction false} HistoryKeeps(c: Compiler, d: Disk, actions: seq<Action>)
    requires Faithful(c) && VersionOnlyWhereNamed(c) && Sound(c, d) && Possible(c, d, actions)
    ensures Sound(c, After(c, d, actions))
    decreases actions
  {
    if actions != [] {
      ActionKeeps(c, d, actions[0]);
      HistoryKeeps(c, Apply(c, d, actions[0]), actions[1..]);
    }
  }

  const EMPTY := Disk(map[], map[], map[], 0, 0)

  /** The law of the cache. After any history that starts from nothing, a build either finds the
      compiler failing, as a direct compile would, or leaves exactly the object of a direct compile. */
  lemma {:induction false} CacheAgreesWithCompile(c: Compiler, actions: seq<Action>, k: Key, owner: nat)
    requires Faithful(c) && VersionOnlyWhereNamed(c)
    requires Possible(c, EMPTY, actions) && After(c, EMPTY, actions).Unused(owner)
    ensures var d := After(c, EMPTY, actions);
            var e := BuildTo(c, d, k, owner, Never);
            && e.Tree() == d.Tree()
            && (if c.run(k.flags, k.source, Contents(d.Tree())).Compiled?
                then Delivers(c, e, k) && e.Freshness(k) == Fresh
                else e == d && d.Freshness(k) == Stale)
  {
    HistoryKeeps(c, EMPTY, actions);
    var d := After(c, EMPTY, actions);
    assert EntryOk(c, d, k);
    assert d.Find(Rules(k)).Some? ==> Listed(d.Find(Rules(k)).value).Some?;
    BuildDelivers(c, d, k, owner);
    BuildStep(c, d, k, owner, Never);
    OnlyEntryMeans(c, d, BuildTo(c, d, k, owner, Never), k, owner);
  }

  /** Links share inodes, and still no history ever changes an entry that none of its actions
      targets: recompiling a seeded entry leaves the older version's object and depfile alone. */
  lemma {:induction false} OthersUntouched(c: Compiler, d: Disk, actions: seq<Action>, k: Key)
    requires d.Valid() && Possible(c, d, actions)
    requires forall a :: a in actions ==> Target(a) != Some(k)
    ensures var e := After(c, d, actions);
            e.Find(Object(k)) == d.Find(Object(k)) && e.Find(Rules(k)) == d.Find(Rules(k))
    decreases actions
  {
    if actions != [] {
      var (a, e) := (actions[0], Apply(c, d, actions[0]));
      assert a in actions;
      match a {
        case Edit(path, content) => EditLeaves(d, path, content);
        case Delete(path) => DeleteLeaves(d, path);
        case Build(j, owner, cut) =>
          BuildStep(c, d, j, owner, cut);
          OnlyEntryMeans(c, d, e, j, owner);
        case Seed(from, to, owner, copied, cut) =>
          if SeedsNow(d, from, to) {
            SeedLeaves(d, from, to, owner, copied, cut);
            OnlyEntryMeans(c, d, e, to, owner);
          }
      }
      OthersUntouched(c, e, actions[1..], k);
    }
  }

  // -------------------------------------------------- why the kill has to be excluded

  function DemoRule(paths: seq<string>): Depfile.Rule {
    Depfile.Rule("a.o", seq(|paths|, i requires 0 <= i < |paths| => Depfile.Prerequisite([Depfile.Space], paths[i])), [], "")
  }

  /** A compiler for one source that may include one header. */
  function DemoRun(flags: Flags, source: string, s: Sources): Outcome {
    if source != "a" || "a" !in s then Failed
    else if s["a"] != Text("include h") then Compiled(s["a"], DemoRule(["a"]))
    else if "h" !in s then Failed
    else Compiled(s["h"], DemoRule(["a", "h"]))
  }

  const DEMO := Compiler(DemoRun)

  lemma DemoReads(paths: seq<string>)
    requires paths == ["a"] || paths == ["a", "h"]
    ensures Reads(DemoRule(paths)) == paths && Depfile.WellPrinted(DemoRule(paths))
  {
    var items := DemoRule(paths).items;
    assert Depfile.PlainPath("a") && Depfile.PlainPath("h");
    assert items[0].path == "a" && Depfile.Paths(items) == ["a"] + Depfile.Paths(items[1..]);
    if |paths| == 2 {
      assert items[1..][0].path == "h";
      assert Depfile.Paths(items[1..]) == ["h"] + Depfile.Paths(items[1..][1..]);
    }
  }

  lemma DemoIsFaithful()
    ensures Faithful(DEMO) && VersionOnlyWhereNamed(DEMO)
  {
    DemoReads(["a"]);
    DemoReads(["a", "h"]);
    forall flags, source, s | DemoRun(flags, source, s).Compiled?
      ensures var rule := DemoRun(flags, source, s).rule;
              forall t :: Agree(s, t, Reads(rule)) ==> DemoRun(flags, source, t) == DemoRun(flags, source, s)
    {
      var rule := DemoRun(flags, source, s).rule;
      forall t | Agree(s, t, Reads(rule)) ensures DemoRun(flags, source, t) == DemoRun(flags, source, s) {
        assert "a" in Reads(rule);
        if s["a"] == Text("include h") { assert "h" in Reads(rule); }
      }
    }
  }

  const DEMO_KEY := Key("a", [])

  /** A cache whose one entry was built from a source that has since been edited to include a header;
      `text` is the entry's depfile. */
  function DemoDisk(text: string): Disk {
    Disk(
      map["a" := 0, "h" := 1],
      map[Object(DEMO_KEY) := 2, Rules(DEMO_KEY) := 3],
      map[0 := File(Text("include h"), 5), 1 := File(Text("1"), 2),
          2 := File(Text("plain"), 3), 3 := File(Text(text), 4)],
      5, 4)
  }

  function DemoTree(): Tree {
    map["a" := File(Text("include h"), 5), "h" := File(Text("1"), 2)]
  }

  lemma DemoDiskIsSound(text: string)
    requires Depfile.Parse(text) == Some(["a"])
    ensures var d := DemoDisk(text);
            && Sound(DEMO, d) && d.Unused(1)
            && d.Tree() == DemoTree()
            && d.Freshness(DEMO_KEY) == Stale
            && d.Find(Rules(DEMO_KEY)) == Some(File(Text(text), 4))
  {
    var d := DemoDisk(text);
    assert d.Tree() == DemoTree();
    AllCurrentMeans(["a"], DemoTree(), 3);
    assert "a" in ["a"];
    assert d.Freshness(DEMO_KEY) == Stale;
    forall k
      ensures EntryOk(DEMO, d, k)
      ensures d.Find(Rules(k)).Some? ==> Listed(d.Find(Rules(k)).value).Some?
    {
      if k != DEMO_KEY { assert d.Find(Rules(k)).None?; }
    }
  }

  /** The mixed pair, before and after the header changes. */
  lemma DemoMixedPair(dep: File, now: nat, later: nat)
    requires Listed(dep) == Some(["a"]) && 5 <= now < later
    ensures var obj := Some(File(Text("1"), now));
            var edited := DemoTree()["h" := File(Text("2"), later)];
            && Check(obj, Some(dep), DemoTree()) == Fresh
            && Check(obj, Some(dep), edited) == Fresh
            && !Exact(DEMO, DEMO_KEY, obj, edited)
  {
    var edited := DemoTree()["h" := File(Text("2"), later)];
    AllCurrentMeans(["a"], DemoTree(), now);
    AllCurrentMeans(["a"], edited, now);
    assert Contents(edited)["a"] == Text("include h");
  }

  lemma DemoKilled(d: Disk, rule: Depfile.Rule)
    requires d.Valid() && d.Unused(1) && d.clock == 5 && d.Freshness(DEMO_KEY) == Stale
    requires DEMO.run([], "a", Contents(d.Tree())) == Compiled(Text("1"), rule)
    ensures var e := BuildTo(DEMO, d, DEMO_KEY, 1, ObjectPlaced);
            && e.Valid() && e.Tree() == d.Tree() && 6 <= e.clock
            && e.Find(Object(DEMO_KEY)) == Some(File(Text("1"), 6))
            && e.Find(Rules(DEMO_KEY)) == d.Find(Rules(DEMO_KEY))
  {
    StoredLeaves(d, DEMO_KEY, 1, Text("1"), rule, ObjectPlaced);
    KeptFinds(d, BuildTo(DEMO, d, DEMO_KEY, 1, ObjectPlaced), Area(DEMO_KEY, 1));
  }

  lemma DemoEdited(e: Disk, dep: File)
    requires e.Valid() && e.Tree() == DemoTree() && 6 <= e.clock
    requires e.Find(Object(DEMO_KEY)) == Some(File(Text("1"), 6)) && e.Find(Rules(DEMO_KEY)) == Some(dep)
    requires Listed(dep) == Some(["a"])
    ensures e.Freshness(DEMO_KEY) == Fresh
    ensures var f := e.Edit("h", Text("2"));
            f.Freshness(DEMO_KEY) == Fresh && !Delivers(DEMO, f, DEMO_KEY)
  {
    hide Disk.Valid, Disk.Edit, Disk.Find;
    DemoMixedPair(dep, 6, e.clock + 1);
    EditLeaves(e, "h", Text("2"));
  }

  lemma DemoStory(d: Disk, dep: File, rule: Depfile.Rule)
    requires d.Valid() && d.Unused(1) && d.clock == 5 && d.Tree() == DemoTree()
    requires d.Freshness(DEMO_KEY) == Stale && d.Find(Rules(DEMO_KEY)) == Some(dep) && Listed(dep) == Some(["a"])
    requires DEMO.run([], "a", Contents(d.Tree())) == Compiled(Text("1"), rule) && "h" in Reads(rule)
    ensures !Safe(DEMO, d, Build(DEMO_KEY, 1, ObjectPlaced))
    ensures var e := BuildTo(DEMO, d, DEMO_KEY, 1, ObjectPlaced).Edit("h", Text("2"));
            e.Freshness(DEMO_KEY) == Fresh && !Delivers(DEMO, e, DEMO_KEY)
  {
    hide Check, Disk.Unused, BuildTo, Disk.Edit;
    DemoKilled(d, rule);
    DemoEdited(BuildTo(DEMO, d, DEMO_KEY, 1, ObjectPlaced), dep);
    assert "h" !in ["a"];
    assert !Covered(DEMO, d, DEMO_KEY);
  }

  /** The source and the header are written, the source is built, and then edited to include the header. */
  const DEMO_HISTORY := [
    Edit("a", Text("plain")), Edit("h", Text("1")), Build(DEMO_KEY, 0, Never), Edit("a", Text("include h"))]

  /** The disk when both files are there and nothing is built. */
  function DemoSources(): Disk {
    Disk(map["a" := 0, "h" := 1], map[], map[0 := File(Text("plain"), 1), 1 := File(Text("1"), 2)], 2, 2)
  }

  function DemoBuilt(text: string): Disk {
    Disk(
      map["a" := 0, "h" := 1],
      map[Object(DEMO_KEY) := 2, Rules(DEMO_KEY) := 3],
      map[0 := File(Text("plain"), 1), 1 := File(Text("1"), 2), 2 := File(Text("plain"), 3), 3 := File(Text(text), 4)],
      4, 4)
  }

  lemma DemoWrites()
    ensures EMPTY.Edit("a", Text("plain")).Edit("h", Text("1")) == DemoSources()
    ensures DemoSources().Valid() && DemoSources().Unused(0) && DemoSources().Freshness(DEMO_KEY) == Stale
  {}

  /** With both results under temporary names, and with the object in place. */
  function DemoHalfway(text: string, placed: bool): Disk {
    var code := if placed then Object(DEMO_KEY) else Temporary(Object(DEMO_KEY), 0);
    DemoBuilt(text).(names := map[code := 2, Temporary(Rules(DEMO_KEY), 0) := 3])
  }

  lemma DemoPrepares(text: string, rule: Depfile.Rule)
    requires text == Depfile.Print(rule)
    ensures Prepared(DemoSources(), DEMO_KEY, 0, Text("plain"), rule) == DemoHalfway(text, false)
  {
    hide Depfile.Print;
    var d := Prepared(DemoSources(), DEMO_KEY, 0, Text("plain"), rule);
    assert d.names == DemoHalfway(text, false).names;
    assert d.inodes == DemoHalfway(text, false).inodes;
  }

  lemma DemoPlacesObject(text: string)
    ensures Placed(DemoHalfway(text, false), Object(DEMO_KEY), 0) == DemoHalfway(text, true)
  {
    assert Placed(DemoHalfway(text, false), Object(DEMO_KEY), 0).names == DemoHalfway(text, true).names;
  }

  lemma DemoPlacesRules(text: string)
    ensures Placed(DemoHalfway(text, true), Rules(DEMO_KEY), 0) == DemoBuilt(text)
  {
    assert Placed(DemoHalfway(text, true), Rules(DEMO_KEY), 0).names == DemoBuilt(text).names;
  }

  lemma DemoStores(text: string, rule: Depfile.Rule)
    requires text == Depfile.Print(rule)
    ensures Stored(DemoSources(), DEMO_KEY, 0, Text("plain"), rule, Never) == DemoBuilt(text)
  {
    hide Depfile.Print, Prepared, Placed;
    DemoPrepares(text, rule);
    DemoPlacesObject(text);
    DemoPlacesRules(text);
  }

  lemma DemoRuns()
    ensures DEMO.run([], "a", Contents(DemoSources().Tree())) == Compiled(Text("plain"), DemoRule(["a"]))
  {
    hide DemoRule;
    assert Contents(DemoSources().Tree())["a"] == Text("plain");
  }

  lemma DemoBuilds(text: string)
    requires text == Depfile.Print(DemoRule(["a"]))
    ensures BuildTo(DEMO, DemoSources(), DEMO_KEY, 0, Never) == DemoBuilt(text)
  {
    hide Depfile.Print, DemoRule, Stored, DemoRun, DemoSources, DemoBuilt, Contents;
    DemoWrites();
    DemoRuns();
    DemoStores(text, DemoRule(["a"]));
  }

  lemma DemoEdits(text: string)
    ensures DemoBuilt(text).Edit("a", Text("include h")) == DemoDisk(text)
  {
    assert DemoBuilt(text).Edit("a", Text("include h")).inodes == DemoDisk(text).inodes;
  }

  /** The disk is what that history leaves, and nothing in it was out of order. */
  lemma DemoIsReached(text: string)
    requires text == Depfile.Print(DemoRule(["a"]))
    ensures Possible(DEMO, EMPTY, DEMO_HISTORY) && After(DEMO, EMPTY, DEMO_HISTORY) == DemoDisk(text)
  {
    hide BuildTo, DemoSources, DemoBuilt, DemoDisk, Depfile.Print, DemoRule, Disk.Edit;
    DemoWrites();
    DemoBuilds(text);
    DemoEdits(text);
    var d0 := EMPTY;
    DemoStep(d0, DEMO_HISTORY);
    var d1 := EMPTY.Edit("a", Text("plain"));
    DemoStep(d1, DEMO_HISTORY[1..]);
    DemoStep(DemoSources(), DEMO_HISTORY[1..][1..]);
    DemoStep(DemoBuilt(text), DEMO_HISTORY[1..][1..][1..]);
    DemoStep(DemoDisk(text), []);
  }

  /** One action of a history. */
  lemma {:induction false} DemoStep(d: Disk, actions: seq<Action>)
    ensures actions == [] ==> Possible(DEMO, d, actions) && After(DEMO, d, actions) == d
    ensures actions != [] ==>
              var e := Apply(DEMO, d, actions[0]);
              && (Fits(d, actions[0]) && Safe(DEMO, d, actions[0]) && Possible(DEMO, e, actions[1..]) ==>
                    Possible(DEMO, d, actions))
              && After(DEMO, d, actions) == After(DEMO, e, actions[1..])
  {}

  /** A source starts to include a header, the rebuild is killed between its two replacements, and the
      header changes: the next build takes the entry for fresh, and it is wrong. */
  lemma KilledRebuildCanMissAnEdit(text: string)
    requires text == Depfile.Print(DemoRule(["a"]))
    ensures Faithful(DEMO) && VersionOnlyWhereNamed(DEMO) && Sound(DEMO, DemoDisk(text))
    ensures Possible(DEMO, EMPTY, DEMO_HISTORY) && After(DEMO, EMPTY, DEMO_HISTORY) == DemoDisk(text)
    ensures DemoDisk(text).Unused(1) && !Safe(DEMO, DemoDisk(text), Build(DEMO_KEY, 1, ObjectPlaced))
    ensures var e := BuildTo(DEMO, DemoDisk(text), DEMO_KEY, 1, ObjectPlaced).Edit("h", Text("2"));
            e.Freshness(DEMO_KEY) == Fresh && !Delivers(DEMO, e, DEMO_KEY)
  {
    hide Possible, After;
    DemoIsFaithful();
    DemoIsReached(text);
    assert Depfile.Parse(text) == Some(["a"]) by {
      DemoReads(["a"]);
      Depfile.ParsePrint(DemoRule(["a"]));
    }
    DemoDiskIsSound(text);
    var rule := DemoRule(["a", "h"]);
    assert "h" in Reads(rule) by { DemoReads(["a", "h"]); }
    assert DEMO.run([], "a", Contents(DemoTree())) == Compiled(Text("1"), rule) by {
      assert Contents(DemoTree())["a"] == Text("include h");
    }
    DemoStory(DemoDisk(text), File(Text(text), 4), rule);
  }
}
