/** Why a process number must not come back while a name is left over: a history of completed steps and one
    killed seeding, after which the next seeding under the same number spoils another entry. */
module CacheLeftover {
  import opened Wrappers
  import opened FreshPair
  import opened FileStore
  import opened CacheSteps
  import opened ObjectCache
  import opened CacheHistory
  import Depfile

  const STABLE := Key("a", [])
  const LEFT := Temporary(Object(STABLE), 1)

  /** Two entries of the source whose flags differ in the version define only. */
  ghost predicate Versions(older: Key, newer: Key) {
    && older.source == "a" == newer.source && StableFlags(older.flags) == [] == StableFlags(newer.flags)
    && older != newer && older != STABLE && newer != STABLE
  }

  /** The source is built with the older version. Process 1 is killed while it hands that object over to the entry
      without the version. The source starts to include a header, and is built with the newer version. */
  function Story(older: Key, newer: Key): seq<Action> {
    [Edit("a", Text("plain")), Edit("h", Text("1")), Build(older, 2, Never),
     Seed(older, STABLE, 1, (false, false), ObjectReady), Edit("a", Text("include h")), Build(newer, 2, Never)]
  }

  predicate Holds(d: Disk, path: string, content: Content) {
    path in d.Tree() && d.Tree()[path].content == content
  }

  // ------------------------------------------------------------------- its stages

  ghost predicate Written(d: Disk) {
    d.Valid() && d.names == map[] && Holds(d, "a", Text("plain")) && Holds(d, "h", Text("1"))
  }

  /** The older entry with what the first build made of it. */
  ghost predicate OlderThere(d: Disk, older: Key) {
    && d.Valid() && Holds(d, "h", Text("1"))
    && d.Find(Object(older)).Some? && d.Find(Object(older)).value.content == Text("plain")
    && d.Find(Rules(older)).Some? && Listed(d.Find(Rules(older)).value) == Some(["a"])
    && d.Find(Object(older)).value.mtime < d.Find(Rules(older)).value.mtime
  }

  ghost predicate Built(d: Disk, older: Key) {
    && OlderThere(d, older) && Holds(d, "a", Text("plain")) && d.Freshness(older) == Fresh
    && d.names.Keys == {Object(older), Rules(older)}
  }

  ghost predicate Linked(d: Disk, older: Key, source: Content) {
    && OlderThere(d, older) && Holds(d, "a", source)
    && d.names.Keys == {Object(older), Rules(older), LEFT} && d.names[LEFT] == d.names[Object(older)]
  }

  ghost predicate Rebuilt(d: Disk, older: Key, newer: Key) {
    && OlderThere(d, older) && Holds(d, "a", Text("include h"))
    && LEFT in d.names && Object(older) in d.names && d.names[LEFT] == d.names[Object(older)]
    && d.Freshness(newer) == Fresh && d.Freshness(STABLE) == Stale
    && d.Find(Object(newer)).Some? && d.Find(Object(newer)).value.content == Text("1")
    && d.Tree()["a"].mtime <= d.Find(Object(newer)).value.mtime
  }

  lemma FirstWrites()
    ensures Written(EMPTY.Edit("a", Text("plain")).Edit("h", Text("1")))
  {
    hide Disk.Edit;
    EditLeaves(EMPTY, "a", Text("plain"));
    EditLeaves(EMPTY.Edit("a", Text("plain")), "h", Text("1"));
  }

  /** What the demonstration compiler makes of the source as it is. */
  lemma DemoCompiles(d: Disk, k: Key)
    requires d.Valid() && k.source == "a" && Holds(d, "h", Text("1"))
    ensures Holds(d, "a", Text("plain")) ==>
              DEMO.run(k.flags, k.source, Contents(d.Tree())) == Compiled(Text("plain"), DemoRule(["a"]))
    ensures Holds(d, "a", Text("include h")) ==>
              DEMO.run(k.flags, k.source, Contents(d.Tree())) == Compiled(Text("1"), DemoRule(["a", "h"]))
  {
    hide DemoRule;
  }

  lemma DemoIsListed()
    ensures Listed(File(Text(Depfile.Print(DemoRule(["a"]))), 0)) == Some(["a"])
  {
    hide Depfile.Print, DemoRule;
    DemoReads(["a"]);
    Depfile.ParsePrint(DemoRule(["a"]));
  }

  lemma ListedIsContent(dep: File, other: File)
    requires dep.content == other.content
    ensures Listed(dep) == Listed(other)
  {}

  /** A first build of an entry with the demonstration compiler. */
  lemma DemoBuild(d: Disk, k: Key, code: Content, rule: Depfile.Rule)
    requires d.Valid() && d.Unused(2) && d.Find(Object(k)).None?
    requires DEMO.run(k.flags, k.source, Contents(d.Tree())) == Compiled(code, rule)
    ensures var e := BuildTo(DEMO, d, k, 2, Never);
            && OnlyEntry(d, e, k, 2) && e.Tree() == d.Tree()
            && e.Freshness(k) == Fresh
            && e.names.Keys <= d.names.Keys + {Object(k), Rules(k)}
            && e.Find(Object(k)) == Some(File(code, d.clock + 1))
            && e.Find(Rules(k)) == Some(File(Text(Depfile.Print(rule)), d.clock + 2))
  {
    hide Stored, OnlyEntry, Depfile.Print, DemoRule, DemoRun, Faithful, VersionOnlyWhereNamed, Disk.Find;
    DemoIsFaithful();
    NotThereYet(d, k);
    BuildDelivers(DEMO, d, k, 2);
    StoredLeaves(d, k, 2, code, rule, Never);
    OnlyEntryMeans(DEMO, d, BuildTo(DEMO, d, k, 2, Never), k, 2);
  }

  lemma NotThereYet(d: Disk, k: Key)
    requires d.Find(Object(k)).None?
    ensures d.Freshness(k) == Stale && EntryOk(DEMO, d, k)
  {}

  lemma FirstBuild(d: Disk, older: Key)
    requires Written(d) && older.source == "a"
    ensures d.Unused(2) && Built(BuildTo(DEMO, d, older, 2, Never), older)
  {
    hide BuildTo, Depfile.Print, DemoRule, DemoRun, Check, Listed;
    var (e, rule) := (BuildTo(DEMO, d, older, 2, Never), DemoRule(["a"]));
    DemoCompiles(d, older);
    DemoBuild(d, older, Text("plain"), rule);
    DemoIsListed();
    ListedIsContent(e.Find(Rules(older)).value, File(Text(Depfile.Print(rule)), 0));
    assert d.names.Keys == {};
    assert e.names.Keys == {Object(older), Rules(older)};
  }

  /** The seeding killed after its link: a second name for the older object. */
  lemma KilledLink(d: Disk, older: Key)
    requires Built(d, older) && older.source == "a" && StableFlags(older.flags) == [] && older != STABLE
    ensures d.Unused(1) && MaySeed(d, older, STABLE)
    ensures Linked(SeedTo(d, older, STABLE, 1, (false, false), ObjectReady), older, Text("plain"))
  {
    hide Check, Listed;
    var e := SeedTo(d, older, STABLE, 1, (false, false), ObjectReady);
    assert d.Find(Object(STABLE)).None?;
    NotThereYet(d, STABLE);
    assert e == d.Link(Object(older), LEFT);
    LinkLeaves(d, Object(older), LEFT);
    KeptFinds(d, e, {LEFT});
    PlainNamesNothing();
  }

  lemma PlainNamesNothing()
    ensures !NamesVersion(Text("plain")) && !NamesVersion(Text("include h"))
  {}

  lemma SourceEdited(d: Disk, older: Key)
    requires Linked(d, older, Text("plain"))
    ensures Linked(d.Edit("a", Text("include h")), older, Text("include h"))
  {
    hide Check, Listed, Disk.Edit, Disk.Find;
    EditLeaves(d, "a", Text("include h"));
  }

  lemma SecondBuild(d: Disk, older: Key, newer: Key)
    requires Versions(older, newer) && Linked(d, older, Text("include h"))
    ensures d.Unused(2) && Rebuilt(BuildTo(DEMO, d, newer, 2, Never), older, newer)
  {
    hide BuildTo, Depfile.Print, DemoRule, DemoRun, Check, Listed, Kept, OlderThere, Holds;
    var (e, rule) := (BuildTo(DEMO, d, newer, 2, Never), DemoRule(["a", "h"]));
    NothingElse(d, older, newer);
    DemoCompiles(d, newer);
    DemoBuild(d, newer, Text("1"), rule);
    OlderStays(d, e, older, newer);
    NotThereYet(e, STABLE);
    SourceIsOld(d);
  }

  lemma NothingElse(d: Disk, older: Key, newer: Key)
    requires Versions(older, newer) && Linked(d, older, Text("include h"))
    ensures d.Unused(2) && d.Find(Object(newer)).None? && d.Valid() && Holds(d, "h", Text("1"))
  {
    hide Listed;
  }

  lemma SourceIsOld(d: Disk)
    requires d.Valid() && Holds(d, "a", Text("include h"))
    ensures d.Tree()["a"].mtime <= d.clock
  {}

  /** A build of the newer entry leaves the older one and the leftover name alone. */
  lemma OlderStays(d: Disk, e: Disk, older: Key, newer: Key)
    requires Versions(older, newer) && Linked(d, older, Text("include h")) && OnlyEntry(d, e, newer, 2)
    ensures OlderThere(e, older) && Holds(e, "a", Text("include h"))
    ensures LEFT in e.names && Object(older) in e.names && e.names[LEFT] == e.names[Object(older)]
    ensures e.Find(Object(STABLE)).None?
  {
    hide Listed, Disk.Valid;
    KeptFinds(d, e, Area(newer, 2));
  }

  // ---------------------------------------------------------- the same number once more

  lemma LeftoverTree(d: Disk, from: Name, to: Name, owner: nat)
    requires d.Valid() && d.Find(from).Some? && from != to && from != Temporary(to, owner)
    ensures var e := CarryAnyway(d, from, to, owner); e.Valid() && e.Tree() == d.Tree()
  {
    var temp := Temporary(to, owner);
    if temp !in d.names {
      CarryLeaves(d, from, to, owner, false);
      KeptFinds(d, CarryAnyway(d, from, to, owner), {to, temp});
    } else if d.names[temp] != d.names[from] {
      var e := d.Overwrite(from, temp);
      assert e.Valid() && e.Tree() == d.Tree();
      ReplaceLeaves(e, temp, to);
      KeptFinds(e, CarryAnyway(d, from, to, owner), {to, temp});
    }
  }

  /** The copy goes into the file of the older entry, whose depfile stays. */
  lemma CopyHitsOlder(d: Disk, older: Key, newer: Key)
    requires Versions(older, newer) && Rebuilt(d, older, newer)
    ensures var e := CarryAnyway(d, Object(newer), Object(STABLE), 1);
            && e.Valid() && e.Tree() == d.Tree()
            && e.Find(Object(older)) == d.Find(Object(newer)) && e.Find(Rules(older)) == d.Find(Rules(older))
  {
    hide Check, Listed, Carry;
    LeftoverTree(d, Object(newer), Object(STABLE), 1);
    LeftoverFinds(d, Object(newer), Object(STABLE), 1, Object(older));
    LeftoverFinds(d, Object(newer), Object(STABLE), 1, Rules(older));
  }

  /** A depfile that misses the header beside an object that includes it: fresh, also once the header changes. */
  lemma HeaderMissed(e: Disk, k: Key, obj: File, dep: File)
    requires e.Valid() && k.source == "a" && Holds(e, "a", Text("include h"))
    requires e.Find(Object(k)) == Some(obj) && e.Find(Rules(k)) == Some(dep)
    requires obj.content == Text("1") && e.Tree()["a"].mtime <= obj.mtime && Listed(dep) == Some(["a"])
    ensures var f := e.Edit("h", Text("2")); f.Freshness(k) == Fresh && !Delivers(DEMO, f, k)
  {
    hide Disk.Edit, Disk.Find, DemoRule;
    var f := e.Edit("h", Text("2"));
    EditLeaves(e, "h", Text("2"));
    AllCurrentMeans(["a"], f.Tree(), obj.mtime);
    assert Contents(f.Tree())["a"] == Text("include h");
  }

  lemma SecondSeeding(d: Disk, older: Key, newer: Key)
    requires Versions(older, newer) && Rebuilt(d, older, newer)
    ensures !d.Unused(1) && SeedsNow(d, newer, STABLE) && MaySeed(d, newer, STABLE)
    ensures var e := CarryAnyway(d, Object(newer), Object(STABLE), 1);
            && e.Find(Object(older)) != d.Find(Object(older))
            && var f := e.Edit("h", Text("2")); f.Freshness(older) == Fresh && !Delivers(DEMO, f, older)
  {
    hide Check, Listed, CarryAnyway, Disk.Edit, DemoRun, NamesVersion;
    PlainNamesNothing();
    CopyHitsOlder(d, older, newer);
    var e := CarryAnyway(d, Object(newer), Object(STABLE), 1);
    HeaderMissed(e, older, d.Find(Object(newer)).value, d.Find(Rules(older)).value);
  }

  /** One action in front of the others. */
  lemma {:induction false} Onward(d: Disk, a: Action, rest: seq<Action>, older: Key, newer: Key)
    requires Fits(d, a) && Safe(DEMO, d, a)
    requires Possible(DEMO, Apply(DEMO, d, a), rest)
    requires Rebuilt(After(DEMO, Apply(DEMO, d, a), rest), older, newer)
    ensures Possible(DEMO, d, [a] + rest) && Rebuilt(After(DEMO, d, [a] + rest), older, newer)
  {
    hide Rebuilt;
    DemoStep(d, [a] + rest);
  }

  lemma EmptyIsSound()
    ensures Sound(DEMO, EMPTY)
  {}

  lemma StoryReaches(older: Key, newer: Key)
    requires Versions(older, newer)
    ensures Possible(DEMO, EMPTY, Story(older, newer))
    ensures Rebuilt(After(DEMO, EMPTY, Story(older, newer)), older, newer)
  {
    hide BuildTo, SeedTo, Disk.Edit, Built, Linked, Rebuilt, Written, Possible, After, Disk.Unused, MaySeed;
    var s := Story(older, newer);
    var d1 := EMPTY.Edit("a", Text("plain"));
    var d2 := d1.Edit("h", Text("1"));
    var d3 := BuildTo(DEMO, d2, older, 2, Never);
    var d4 := SeedTo(d3, older, STABLE, 1, (false, false), ObjectReady);
    var d5 := d4.Edit("a", Text("include h"));
    var d6 := BuildTo(DEMO, d5, newer, 2, Never);
    FirstWrites();
    FirstBuild(d2, older);
    KilledLink(d3, older);
    SourceEdited(d4, older);
    SecondBuild(d5, older, newer);
    assert s[5..] == [s[5]] + [];
    assert forall n :: 0 <= n < 5 ==> s[n..] == [s[n]] + s[n + 1..];
    DemoStep(d6, []);
    Onward(d5, s[5], [], older, newer);
    Onward(d4, s[4], s[5..], older, newer);
    Onward(d3, s[3], s[4..], older, newer);
    Onward(d2, s[2], s[3..], older, newer);
    Onward(d1, s[1], s[2..], older, newer);
    Onward(EMPTY, s[0], s[1..], older, newer);
    assert s[0..] == s;
  }

  /** The older entry ends up with the newer object beside its own depfile, which does not list the header: it
      counts as fresh whatever is done to the header, and is wrong. Everything up to the second seeding is a
      history the cache withstands; only the process number that comes back is not. */
  lemma LeftoverNameCanSpoilAnEntry(older: Key, newer: Key)
    requires Versions(older, newer)
    ensures Possible(DEMO, EMPTY, Story(older, newer))
    ensures var d := After(DEMO, EMPTY, Story(older, newer));
            && Sound(DEMO, d) && !d.Unused(1) && SeedsNow(d, newer, STABLE) && MaySeed(d, newer, STABLE)
            && var e := CarryAnyway(d, Object(newer), Object(STABLE), 1);
               && e.Find(Object(older)) != d.Find(Object(older))
               && var f := e.Edit("h", Text("2")); f.Freshness(older) == Fresh && !Delivers(DEMO, f, older)
  {
    hide Possible, After, Rebuilt, SeedsNow, MaySeed, Disk.Find, Disk.Edit, CarryAnyway, Disk.Unused;
    StoryReaches(older, newer);
    DemoIsFaithful();
    EmptyIsSound();
    HistoryKeeps(DEMO, EMPTY, Story(older, newer));
    SecondSeeding(After(DEMO, EMPTY, Story(older, newer)), older, newer);
  }

  /** Such entries: one source, two versions. */
  lemma TwoVersions()
    ensures var define := "-DVDR_SUITE_SERVER_VERSION=";
            Versions(Key("a", [define + "1"]), Key("a", [define + "2"]))
  {
    var define := "-DVDR_SUITE_SERVER_VERSION=";
    assert (define + "1")[|define|] == '1' && (define + "2")[|define|] == '2';
    assert [define + "1"][0] != [define + "2"][0];
  }
}
