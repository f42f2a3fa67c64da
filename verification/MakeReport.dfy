/** The make-graph audit: closure over a possibly cyclic graph, and the verdict of the report. */
module MakeReport {

  datatype Target = Target(dependencies: set<string>, definitionFiles: seq<string>, recipeFiles: seq<string>)

  type Graph = map<string, Target>

  function Dependencies(targets: Graph, name: string): set<string> {
    if name in targets then targets[name].dependencies else {}
  }

  // --------------------------------------------------------------------- closure

  /** A chain of dependencies from its first name to its last. */
  ghost predicate IsPath(targets: Graph, path: seq<string>) {
    path != [] && forall i :: 0 < i < |path| ==> path[i] in Dependencies(targets, path[i - 1])
  }

  ghost predicate Reaches(targets: Graph, root: string, name: string) {
    exists path :: IsPath(targets, path) && path[0] == root && path[|path| - 1] == name
  }

  ghost predicate Closed(targets: Graph, names: set<string>) {
    forall name :: name in names ==> Dependencies(targets, name) <= names
  }

  lemma ReachesItself(targets: Graph, root: string)
    ensures Reaches(targets, root, root)
  {
    assert IsPath(targets, [root]) && [root][|[root]| - 1] == root;
  }

  lemma ReachesNext(targets: Graph, root: string, via: string, name: string)
    requires Reaches(targets, root, via) && name in Dependencies(targets, via)
    ensures Reaches(targets, root, name)
  {
    var path :| IsPath(targets, path) && path[0] == root && path[|path| - 1] == via;
    var longer := path + [name];
    forall i | 0 < i < |longer| ensures longer[i] in Dependencies(targets, longer[i - 1]) {
      if i < |path| { assert longer[i] == path[i] && longer[i - 1] == path[i - 1]; }
    }
    assert IsPath(targets, longer) && longer[0] == root && longer[|longer| - 1] == name;
  }

  lemma {:induction false} ClosedHoldsPaths(targets: Graph, names: set<string>, path: seq<string>)
    requires Closed(targets, names) && IsPath(targets, path) && path[0] in names
    ensures path[|path| - 1] in names
    decreases |path|
  {
    if |path| > 1 {
      var front := path[..|path| - 1];
      ClosedHoldsPaths(targets, names, front);
      assert path[|path| - 1] in Dependencies(targets, path[|path| - 2]);
    }
  }

  /** Being what the root reaches is the same as being the least closed set that holds the root. */
  lemma LeastClosed(targets: Graph, root: string, seen: set<string>)
    requires forall name :: name in seen <==> Reaches(targets, root, name)
    ensures root in seen && Closed(targets, seen)
    ensures forall other :: root in other && Closed(targets, other) ==> seen <= other
  {
    ReachesItself(targets, root);
    forall name, next | name in seen && next in Dependencies(targets, name) ensures next in seen {
      ReachesNext(targets, root, name, next);
    }
    forall other | root in other && Closed(targets, other) ensures seen <= other {
      forall name | name in seen ensures name in other {
        var path :| IsPath(targets, path) && path[0] == root && path[|path| - 1] == name;
        ClosedHoldsPaths(targets, other, path);
      }
    }
  }

  method InSomeOrder(names: set<string>) returns (order: seq<string>)
    ensures forall name :: name in order <==> name in names
  {
    var left := names;
    order := [];
    while left != {}
      invariant left <= names
      invariant forall name :: name in names <==> name in left || name in order
      invariant forall name :: name in order ==> name in names
    {
      var name :| name in left;
      order := order + [name];
      left := left - {name};
    }
  }

  ghost function Universe(targets: Graph, root: string): set<string> {
    {root} + set name, next | name in targets && next in targets[name].dependencies :: next
  }

  ghost predicate DependsOn(targets: Graph, name: string, next: string) {
    name in targets && next in targets[name].dependencies
  }

  /** Reached is what a chain of dependencies leads to, each link a target's own. */
  lemma ReachesMeans(targets: Graph, root: string, name: string)
    ensures Reaches(targets, root, name) <==>
            exists path: seq<string> ::
              && path != [] && path[0] == root && path[|path| - 1] == name
              && forall i, k :: 0 <= i < |path| && k == i + 1 < |path| ==> DependsOn(targets, path[i], path[k])
  {
    if Reaches(targets, root, name) {
      var path :| IsPath(targets, path) && path[0] == root && path[|path| - 1] == name;
      forall i, k | 0 <= i < |path| && k == i + 1 < |path| ensures DependsOn(targets, path[i], path[k]) {
        assert path[k] in Dependencies(targets, path[k - 1]);
      }
    }
    if path: seq<string> :|
      && path != [] && path[0] == root && path[|path| - 1] == name
      && forall i, k :: 0 <= i < |path| && k == i + 1 < |path| ==> DependsOn(targets, path[i], path[k])
    {
      forall k | 0 < k < |path| ensures path[k] in Dependencies(targets, path[k - 1]) {
        assert DependsOn(targets, path[k - 1], path[k]);
      }
      assert IsPath(targets, path);
    }
  }

  /** `transitive_dependencies`: what the root reaches, on any graph. */
  method TransitiveDependencies(targets: Graph, root: string) returns (seen: set<string>)
    ensures forall name :: name in seen <==> Reaches(targets, root, name)
  {
    seen := {};
    var queue := [root];
    ghost var all := Universe(targets, root);
    ReachesItself(targets, root);
    while queue != []
      invariant seen <= all && forall name :: name in queue ==> name in all
      invariant root in seen || root in queue
      invariant forall name :: name in seen || name in queue ==> Reaches(targets, root, name)
      invariant forall name, next :: name in seen && next in Dependencies(targets, name) ==> next in seen || next in queue
      decreases all - seen, |queue|
    {
      var current := queue[0];
      ghost var before := queue;
      queue := queue[1..];
      assert forall name :: name in before <==> name == current || name in queue;
      if current !in seen {
        ghost var left := all - seen;
        assert current in left;
        seen := seen + {current};
        var news := InSomeOrder(set next | next in Dependencies(targets, current) && next !in seen);
        forall next | next in news ensures Reaches(targets, root, next) && next in all {
          ReachesNext(targets, root, current, next);
        }
        queue := queue + news;
      }
    }
    forall name | Reaches(targets, root, name) ensures name in seen {
      var path :| IsPath(targets, path) && path[0] == root && path[|path| - 1] == name;
      ClosedHoldsPaths(targets, seen, path);
    }
  }

  // ---------------------------------------------------------------------- the report

  const GROUP_FILE := "mk/test-groups.mk"

  const CANONICAL_GROUPS := [
    "test-ci-fast", "test-ci-frontend", "test-ci-packaging", "test-vdr", "test-all", "test-manual-real",
    "test-make-inventory"]

  const PUBLIC_GROUPS := [
    "test", "test-all", "test-ci-fast", "test-ci-frontend", "test-ci-packaging", "test-fast", "test-vdr",
    "test-frontend-contracts", "test-frontend-i18n", "test-install-staging", "test-manual-real",
    "real-vdr-regression"]

  const REQUIRED_REACHABILITY := [
    ("test-ci-fast", "test-make-inventory"),
    ("test-ci-fast", "test-recording-mutation-safety-policy"),
    ("test-ci-fast", "test-restfulapi-recording-trash-contract"),
    ("test-ci-fast", "test-systemd-unit-contract"),
    ("test-ci-frontend", "test-frontend-contracts"),
    ("test-ci-packaging", "test-install-staging"),
    ("test-ci-packaging", "test-systemd-unit-contract"),
    ("test-all", "test"),
    ("test-all", "test-vdr"),
    ("test-all", "test-ci-frontend"),
    ("test-all", "test-ci-packaging"),
    ("test-all", "test-make-inventory")]

  const MANUAL_PREFIXES := ["real-", "test-real-", "restfulapi-real-", "searchtimer-real-", "vdr-timer-real-"]

  /** The rules a report checks by; `RULES` are the script's own. */
  datatype Rules = Rules(
    groupFile: string,
    canonical: seq<string>,
    public: seq<string>,
    required: seq<(string, string)>,
    manual: seq<string>)

  const RULES := Rules(GROUP_FILE, CANONICAL_GROUPS, PUBLIC_GROUPS, REQUIRED_REACHABILITY, MANUAL_PREFIXES)

  /** What the audit has read: the graph, the test sources on disk and in the makefiles, repeated
      `$(LDFLAGS)` lines, and test or mock sources in runtime aggregates without a stated reason. */
  datatype Inventory = Inventory(
    targets: Graph,
    discovered: set<string>,
    referenced: set<string>,
    duplicateFlags: seq<string>,
    unclassified: seq<string>)

  datatype Error =
    | MissingGroup(group: string)
    | MisplacedGroup(group: string)
    | ScatteredRecipes(target: string)
    | Unreached(group: string, target: string)
    | Ungrouped(targets: set<string>)
    | Orphans(sources: set<string>)
    | StaleReferences(sources: set<string>)
    | DuplicateFlags
    | Unclassified

  function AsSet(names: seq<string>): set<string> {
    set i | 0 <= i < |names| :: names[i]
  }

  predicate IsTestTarget(name: string) {
    name == "test" || "test-" <= name
  }

  predicate IsManual(rules: Rules, name: string) {
    exists i :: 0 <= i < |rules.manual| && rules.manual[i] <= name
  }

  predicate IsExempt(rules: Rules, name: string) {
    name in rules.public || name in rules.canonical || IsManual(rules, name)
  }

  ghost predicate ReachedFromGroup(rules: Rules, targets: Graph, name: string) {
    exists group :: group in rules.public && group in targets && Reaches(targets, group, name)
  }

  ghost predicate CanonicalOk(rules: Rules, targets: Graph, group: string) {
    group in targets && AsSet(targets[group].definitionFiles) == {rules.groupFile}
  }

  predicate RecipesOk(t: Target) {
    |AsSet(t.recipeFiles)| <= 1
  }

  /** What an empty error list stands for. */
  ghost predicate Passes(rules: Rules, inv: Inventory) {
    && (forall i :: 0 <= i < |rules.canonical| ==> CanonicalOk(rules, inv.targets, rules.canonical[i]))
    && (forall name :: name in inv.targets ==> RecipesOk(inv.targets[name]))
    && (forall i :: 0 <= i < |rules.required| ==> Reaches(inv.targets, rules.required[i].0, rules.required[i].1))
    && (forall name :: name in inv.targets && IsTestTarget(name) && !IsExempt(rules, name) ==>
          ReachedFromGroup(rules, inv.targets, name))
    && inv.discovered == inv.referenced
    && inv.duplicateFlags == [] && inv.unclassified == []
  }

  /** Everything a report may complain of, and nothing else. */
  ghost predicate Justified(rules: Rules, inv: Inventory, e: Error) {
    match e
    case MissingGroup(group) => group in rules.canonical && group !in inv.targets
    case MisplacedGroup(group) => group in rules.canonical && group in inv.targets && !CanonicalOk(rules, inv.targets, group)
    case ScatteredRecipes(target) => target in inv.targets && !RecipesOk(inv.targets[target])
    case Unreached(group, target) => (group, target) in rules.required && !Reaches(inv.targets, group, target)
    case Ungrouped(names) =>
      names != {} && forall name :: name in names <==>
        name in inv.targets && IsTestTarget(name) && !IsExempt(rules, name) && !ReachedFromGroup(rules, inv.targets, name)
    case Orphans(sources) => sources != {} && sources == inv.discovered - inv.referenced
    case StaleReferences(sources) => sources != {} && sources == inv.referenced - inv.discovered
    case DuplicateFlags => inv.duplicateFlags != []
    case Unclassified => inv.unclassified != []
  }

  method CheckCanonical(rules: Rules, inv: Inventory) returns (errors: seq<Error>)
    ensures forall e :: e in errors <==> (e.MissingGroup? || e.MisplacedGroup?) && Justified(rules, inv, e)
  {
    errors := [];
    for n := 0 to |rules.canonical|
      invariant forall e :: e in errors <==>
                  (e.MissingGroup? || e.MisplacedGroup?) && Justified(rules.(canonical := rules.canonical[..n]), inv, e)
    {
      var group := rules.canonical[n];
      assert rules.canonical[..n + 1] == rules.canonical[..n] + [group];
      if group !in inv.targets {
        errors := errors + [MissingGroup(group)];
        continue;
      }
      if AsSet(inv.targets[group].definitionFiles) != {rules.groupFile} { errors := errors + [MisplacedGroup(group)]; }
    }
    assert rules.canonical[..|rules.canonical|] == rules.canonical;
  }

  method CheckRecipes(rules: Rules, inv: Inventory) returns (errors: seq<Error>)
    ensures forall e :: e in errors <==> e.ScatteredRecipes? && Justified(rules, inv, e)
  {
    errors := [];
    var names := InSomeOrder(inv.targets.Keys);
    for n := 0 to |names|
      invariant forall e :: e in errors <==>
                  e.ScatteredRecipes? && e.target in names[..n] && !RecipesOk(inv.targets[e.target])
    {
      assert names[n] in inv.targets.Keys;
      assert names[..n + 1] == names[..n] + [names[n]];
      if !RecipesOk(inv.targets[names[n]]) { errors := errors + [ScatteredRecipes(names[n])]; }
    }
    assert names[..|names|] == names;
  }

  method CheckRequired(rules: Rules, inv: Inventory) returns (errors: seq<Error>)
    ensures forall e :: e in errors <==> e.Unreached? && Justified(rules, inv, e)
  {
    errors := [];
    for n := 0 to |rules.required|
      invariant forall e :: e in errors <==>
                  e.Unreached? && (e.group, e.target) in rules.required[..n] && !Reaches(inv.targets, e.group, e.target)
    {
      var (group, required) := rules.required[n];
      assert rules.required[..n + 1] == rules.required[..n] + [(group, required)];
      var closure := TransitiveDependencies(inv.targets, group);
      if required !in closure { errors := errors + [Unreached(group, required)]; }
    }
    assert rules.required[..|rules.required|] == rules.required;
  }

  /** The union of the closures of the public groups that exist. */
  method GroupedTargets(rules: Rules, targets: Graph) returns (grouped: set<string>)
    ensures forall name :: name in grouped <==> ReachedFromGroup(rules, targets, name)
  {
    grouped := {};
    for n := 0 to |rules.public|
      invariant forall name :: name in grouped <==>
                  exists i :: 0 <= i < n && rules.public[i] in targets && Reaches(targets, rules.public[i], name)
    {
      var group := rules.public[n];
      if group !in targets { continue; }
      var closure := TransitiveDependencies(targets, group);
      grouped := grouped + closure;
    }
  }

  /** The second half of the report. */
  method CheckSources(rules: Rules, inv: Inventory) returns (errors: seq<Error>)
    ensures forall e :: e in errors <==>
              (e.Orphans? || e.StaleReferences? || e.DuplicateFlags? || e.Unclassified?) && Justified(rules, inv, e)
  {
    var (orphans, stale) := (inv.discovered - inv.referenced, inv.referenced - inv.discovered);
    errors := [];
    if orphans != {} { errors := errors + [Orphans(orphans)]; }
    if stale != {} { errors := errors + [StaleReferences(stale)]; }
    if inv.duplicateFlags != [] { errors := errors + [DuplicateFlags]; }
    if inv.unclassified != [] { errors := errors + [Unclassified]; }
  }

  /** `build_report`: the list of errors is exactly what there is to complain of, so it is empty exactly
      when the inventory passes. */
  method BuildReport(rules: Rules, inv: Inventory) returns (errors: seq<Error>)
    ensures forall e :: e in errors <==> Justified(rules, inv, e)
    ensures errors == [] <==> Passes(rules, inv)
  {
    var canonical := CheckCanonical(rules, inv);
    var recipes := CheckRecipes(rules, inv);
    var required := CheckRequired(rules, inv);
    var grouped := GroupedTargets(rules, inv.targets);
    var ungrouped := set name | name in inv.targets && IsTestTarget(name) && name !in grouped && !IsExempt(rules, name);
    var alone: seq<Error> := if ungrouped != {} then [Ungrouped(ungrouped)] else [];
    assert forall e :: e in alone <==> e.Ungrouped? && Justified(rules, inv, e) by {
      forall e: Error | e.Ungrouped? && Justified(rules, inv, e) ensures e.targets == ungrouped {
        assert forall name :: name in e.targets <==> name in ungrouped;
      }
    }
    var sources := CheckSources(rules, inv);
    errors := canonical + recipes + required + alone + sources;
    NothingToReport(rules, inv);
    assert errors == [] <==> forall e :: e !in errors by {
      if errors != [] { assert errors[0] in errors; }
    }
  }

  /** Nothing to complain of is the same as every rule holding: each canonical group is where it belongs,
      each target has its recipe in one file, each required target is reached, each test target that
      is not exempt is reached from an existing public group, and the test sources found are exactly
      those the makefiles name. */
  lemma NothingToReport(rules: Rules, inv: Inventory)
    ensures (forall e :: !Justified(rules, inv, e)) <==> Passes(rules, inv)
  {
    if Passes(rules, inv) {
      forall e ensures !Justified(rules, inv, e) { PassedHasNone(rules, inv, e); }
    }
    if forall e :: !Justified(rules, inv, e) {
      forall i | 0 <= i < |rules.canonical| ensures CanonicalOk(rules, inv.targets, rules.canonical[i]) {
        assert !Justified(rules, inv, MissingGroup(rules.canonical[i]));
        assert !Justified(rules, inv, MisplacedGroup(rules.canonical[i]));
      }
      forall name | name in inv.targets ensures RecipesOk(inv.targets[name]) {
        assert !Justified(rules, inv, ScatteredRecipes(name));
      }
      forall i | 0 <= i < |rules.required| ensures Reaches(inv.targets, rules.required[i].0, rules.required[i].1) {
        assert !Justified(rules, inv, Unreached(rules.required[i].0, rules.required[i].1));
      }
      EveryoneGrouped(rules, inv);
      assert !Justified(rules, inv, Orphans(inv.discovered - inv.referenced));
      assert !Justified(rules, inv, StaleReferences(inv.referenced - inv.discovered));
      assert forall source :: source in inv.discovered <==> source in inv.referenced by {
        assert forall source :: source in inv.discovered && source !in inv.referenced ==> source in inv.discovered - inv.referenced;
        assert forall source :: source in inv.referenced && source !in inv.discovered ==> source in inv.referenced - inv.discovered;
      }
      assert !Justified(rules, inv, DuplicateFlags) && !Justified(rules, inv, Unclassified);
    }
  }

  lemma EveryoneGrouped(rules: Rules, inv: Inventory)
    requires forall names :: !Justified(rules, inv, Ungrouped(names))
    ensures forall name :: name in inv.targets && IsTestTarget(name) && !IsExempt(rules, name) ==>
              ReachedFromGroup(rules, inv.targets, name)
  {
    var left := set name | name in inv.targets && IsTestTarget(name) && !IsExempt(rules, name)
                           && !ReachedFromGroup(rules, inv.targets, name);
    assert !Justified(rules, inv, Ungrouped(left));
    forall name | name in inv.targets && IsTestTarget(name) && !IsExempt(rules, name)
      ensures ReachedFromGroup(rules, inv.targets, name)
    {
      assert name !in left;
    }
  }

  lemma PassedHasNone(rules: Rules, inv: Inventory, e: Error)
    requires Passes(rules, inv)
    ensures !Justified(rules, inv, e)
  {
    match e {
      case Ungrouped(names) =>
        if names != {} { var name :| name in names; }
      case Orphans(sources) => assert inv.discovered - inv.referenced == {};
      case StaleReferences(sources) => assert inv.referenced - inv.discovered == {};
      case _ =>
    }
  }

  // ------------------------------------------------------------- the script's own rules

  /** The groups that have to be defined in the group file, and nowhere else. */
  const EXPECTED_GROUPS := {
    "test-ci-fast", "test-ci-frontend", "test-ci-packaging", "test-vdr", "test-all", "test-manual-real",
    "test-make-inventory"}

  /** The names a test target counts as grouped by. */
  const GROUPING_NAMES := {
    "test", "test-all", "test-ci-fast", "test-ci-frontend", "test-ci-packaging", "test-fast", "test-vdr",
    "test-frontend-contracts", "test-frontend-i18n", "test-install-staging", "test-manual-real",
    "real-vdr-regression"}

  ghost predicate GroupsInPlace(inv: Inventory) {
    forall group :: group in EXPECTED_GROUPS ==>
      && group in inv.targets && inv.targets[group].definitionFiles != []
      && forall file :: file in inv.targets[group].definitionFiles ==> file == "mk/test-groups.mk"
  }

  ghost predicate OneRecipeFile(inv: Inventory) {
    forall name :: name in inv.targets ==>
      forall f, g :: f in inv.targets[name].recipeFiles && g in inv.targets[name].recipeFiles ==> f == g
  }

  /** What the groups must lead to. */
  ghost predicate RequiredReached(inv: Inventory) {
    && Reaches(inv.targets, "test-ci-fast", "test-make-inventory")
    && Reaches(inv.targets, "test-ci-fast", "test-recording-mutation-safety-policy")
    && Reaches(inv.targets, "test-ci-fast", "test-restfulapi-recording-trash-contract")
    && Reaches(inv.targets, "test-ci-fast", "test-systemd-unit-contract")
    && Reaches(inv.targets, "test-ci-frontend", "test-frontend-contracts")
    && Reaches(inv.targets, "test-ci-packaging", "test-install-staging")
    && Reaches(inv.targets, "test-ci-packaging", "test-systemd-unit-contract")
    && Reaches(inv.targets, "test-all", "test")
    && Reaches(inv.targets, "test-all", "test-vdr")
    && Reaches(inv.targets, "test-all", "test-ci-frontend")
    && Reaches(inv.targets, "test-all", "test-ci-packaging")
    && Reaches(inv.targets, "test-all", "test-make-inventory")
  }

  /** A test target that some group has to lead to. */
  ghost predicate NeedsGroup(name: string) {
    && (name == "test" || "test-" <= name) && name !in GROUPING_NAMES && name !in EXPECTED_GROUPS
    && !("real-" <= name) && !("test-real-" <= name) && !("restfulapi-real-" <= name)
    && !("searchtimer-real-" <= name) && !("vdr-timer-real-" <= name)
  }

  ghost predicate TestsGrouped(inv: Inventory) {
    forall name :: name in inv.targets && NeedsGroup(name) ==>
      exists group :: group in GROUPING_NAMES && group in inv.targets && Reaches(inv.targets, group, name)
  }

  lemma GroupNames(name: string)
    ensures name in CANONICAL_GROUPS <==> name in EXPECTED_GROUPS
    ensures name in PUBLIC_GROUPS <==> name in GROUPING_NAMES
  {}

  lemma InAsSet(names: seq<string>, name: string)
    ensures name in AsSet(names) <==> name in names
  {
    if name in names {
      var i :| 0 <= i < |names| && names[i] == name;
    }
  }

  lemma NoNames()
    ensures AsSet([]) == {}
  {}

  lemma OnlyFile(files: seq<string>, file: string)
    ensures AsSet(files) == {file} <==> files != [] && forall f :: f in files ==> f == file
  {
    hide AsSet;
    forall f ensures f in AsSet(files) <==> f in files { InAsSet(files, f); }
    if AsSet(files) == {file} { assert file in AsSet(files); }
    if files != [] && forall f :: f in files ==> f == file {
      assert files[0] in files;
      assert AsSet(files) == {file};
    }
  }

  lemma AtMostOneFile(files: seq<string>)
    ensures |AsSet(files)| <= 1 <==> forall f, g :: f in files && g in files ==> f == g
  {
    hide AsSet;
    forall f ensures f in AsSet(files) <==> f in files { InAsSet(files, f); }
    if |AsSet(files)| <= 1 {
      forall f, g | f in files && g in files ensures f == g { OneElement(AsSet(files), f, g); }
    }
    if forall f, g :: f in files && g in files ==> f == g {
      if files == [] {
        NoNames();
      } else {
        assert files[0] in files;
        OnlyFile(files, files[0]);
      }
    }
  }

  lemma OneElement(s: set<string>, f: string, g: string)
    requires |s| <= 1 && f in s && g in s
    ensures f == g
  {
    SubsetIsSmaller({f, g}, s);
    assert f != g ==> |{f, g}| == 2;
  }

  lemma {:induction false} SubsetIsSmaller(a: set<string>, b: set<string>)
    requires a <= b
    ensures |a| <= |b|
    decreases a
  {
    if a != {} {
      var x :| x in a;
      SubsetIsSmaller(a - {x}, b - {x});
    }
  }

  lemma ManualNames(name: string)
    ensures IsManual(RULES, name) <==>
            || "real-" <= name || "test-real-" <= name || "restfulapi-real-" <= name
            || "searchtimer-real-" <= name || "vdr-timer-real-" <= name
  {
    var manual := MANUAL_PREFIXES;
    assert |manual| == 5 && manual[0] == "real-" && manual[1] == "test-real-" && manual[2] == "restfulapi-real-";
    assert manual[3] == "searchtimer-real-" && manual[4] == "vdr-timer-real-";
  }

  lemma NeedsGroupMeans(name: string)
    ensures NeedsGroup(name) <==> IsTestTarget(name) && !IsExempt(RULES, name)
  {
    hide IsManual;
    GroupNames(name);
    ManualNames(name);
  }

  lemma RequiredMeans(inv: Inventory)
    ensures RequiredReached(inv) <==>
            forall i :: 0 <= i < |REQUIRED_REACHABILITY| ==>
              Reaches(inv.targets, REQUIRED_REACHABILITY[i].0, REQUIRED_REACHABILITY[i].1)
  {
    hide Reaches;
    var r := REQUIRED_REACHABILITY;
    assert |r| == 12;
    assert r[0] == ("test-ci-fast", "test-make-inventory") && r[1] == ("test-ci-fast", "test-recording-mutation-safety-policy");
    assert r[2] == ("test-ci-fast", "test-restfulapi-recording-trash-contract") && r[3] == ("test-ci-fast", "test-systemd-unit-contract");
    assert r[4] == ("test-ci-frontend", "test-frontend-contracts") && r[5] == ("test-ci-packaging", "test-install-staging");
    assert r[6] == ("test-ci-packaging", "test-systemd-unit-contract") && r[7] == ("test-all", "test");
    assert r[8] == ("test-all", "test-vdr") && r[9] == ("test-all", "test-ci-frontend");
    assert r[10] == ("test-all", "test-ci-packaging") && r[11] == ("test-all", "test-make-inventory");
  }

  lemma CanonicalMeans(inv: Inventory)
    ensures GroupsInPlace(inv) <==>
            forall i :: 0 <= i < |CANONICAL_GROUPS| ==> CanonicalOk(RULES, inv.targets, CANONICAL_GROUPS[i])
  {
    hide AsSet;
    forall group | group in inv.targets
      ensures CanonicalOk(RULES, inv.targets, group) <==>
              && inv.targets[group].definitionFiles != []
              && forall file :: file in inv.targets[group].definitionFiles ==> file == "mk/test-groups.mk"
    {
      OnlyFile(inv.targets[group].definitionFiles, GROUP_FILE);
    }
    var groups := CANONICAL_GROUPS;
    forall group ensures group in groups <==> group in EXPECTED_GROUPS { GroupNames(group); }
    InPlaceMeans(inv, groups);
  }

  lemma InPlaceMeans(inv: Inventory, groups: seq<string>)
    requires forall group :: group in groups <==> group in EXPECTED_GROUPS
    requires forall group :: group in inv.targets ==>
               (CanonicalOk(RULES, inv.targets, group) <==>
                && inv.targets[group].definitionFiles != []
                && forall file :: file in inv.targets[group].definitionFiles ==> file == "mk/test-groups.mk")
    ensures GroupsInPlace(inv) <==> forall i :: 0 <= i < |groups| ==> CanonicalOk(RULES, inv.targets, groups[i])
  {
    hide AsSet;
    if GroupsInPlace(inv) {
      forall i | 0 <= i < |groups| ensures CanonicalOk(RULES, inv.targets, groups[i]) { assert groups[i] in groups; }
    }
    if forall i :: 0 <= i < |groups| ==> CanonicalOk(RULES, inv.targets, groups[i]) {
      forall group | group in EXPECTED_GROUPS ensures group in inv.targets && CanonicalOk(RULES, inv.targets, group) {
        assert group in groups;
      }
    }
  }

  lemma GroupedMeans(inv: Inventory)
    ensures TestsGrouped(inv) <==>
            forall name :: name in inv.targets && IsTestTarget(name) && !IsExempt(RULES, name) ==>
              ReachedFromGroup(RULES, inv.targets, name)
  {
    hide NeedsGroup, IsTestTarget, IsExempt, Reaches;
    forall name
      ensures NeedsGroup(name) <==> IsTestTarget(name) && !IsExempt(RULES, name)
      ensures name in PUBLIC_GROUPS <==> name in GROUPING_NAMES
    {
      NeedsGroupMeans(name);
      GroupNames(name);
    }
    GroupedBy(inv, PUBLIC_GROUPS, GROUPING_NAMES);
  }

  lemma GroupedBy(inv: Inventory, public: seq<string>, names: set<string>)
    requires public == RULES.public && names == GROUPING_NAMES
    requires forall name :: name in public <==> name in names
    ensures forall name :: ReachedFromGroup(RULES, inv.targets, name) <==>
              exists group :: group in GROUPING_NAMES && group in inv.targets && Reaches(inv.targets, group, name)
  {
    hide Reaches;
    forall name
      ensures ReachedFromGroup(RULES, inv.targets, name) <==>
              exists group :: group in names && group in inv.targets && Reaches(inv.targets, group, name)
    {
      if group :| group in names && group in inv.targets && Reaches(inv.targets, group, name) {
        assert group in public;
      }
    }
  }

  lemma RecipesMean(inv: Inventory)
    ensures OneRecipeFile(inv) <==> forall name :: name in inv.targets ==> RecipesOk(inv.targets[name])
  {
    forall name | name in inv.targets
      ensures RecipesOk(inv.targets[name]) <==>
              forall f, g :: f in inv.targets[name].recipeFiles && g in inv.targets[name].recipeFiles ==> f == g
    {
      AtMostOneFile(inv.targets[name].recipeFiles);
    }
  }

  /** The verdict by the script's own rules. The error list is empty exactly if each of its canonical groups is defined in
      its group file alone, every target has its recipes in one file, all it requires to be reached is, every test
      target that is neither named by a group nor manual is reached from one of its public groups, the test
      sources found are those the makefiles name, and no flags are repeated or sources unclassified. */
  method Audit(inv: Inventory) returns (errors: seq<Error>)
    ensures forall e :: e in errors <==> Justified(RULES, inv, e)
    ensures errors == [] <==>
              && GroupsInPlace(inv) && OneRecipeFile(inv) && RequiredReached(inv) && TestsGrouped(inv)
              && inv.discovered == inv.referenced && inv.duplicateFlags == [] && inv.unclassified == []
  {
    hide Justified, Reaches, ReachedFromGroup, IsManual, RecipesOk, IsTestTarget, IsExempt, CanonicalOk, Passes;
    hide GroupsInPlace, OneRecipeFile, RequiredReached, TestsGrouped;
    errors := BuildReport(RULES, inv);
    PassesMeans(inv);
  }

  lemma PassesMeans(inv: Inventory)
    ensures Passes(RULES, inv) <==>
            && GroupsInPlace(inv) && OneRecipeFile(inv) && RequiredReached(inv) && TestsGrouped(inv)
            && inv.discovered == inv.referenced && inv.duplicateFlags == [] && inv.unclassified == []
  {
    hide Reaches, ReachedFromGroup, IsManual, RecipesOk, IsTestTarget, IsExempt, CanonicalOk;
    hide GroupsInPlace, OneRecipeFile, RequiredReached, TestsGrouped;
    CanonicalMeans(inv);
    RecipesMean(inv);
    RequiredMeans(inv);
    GroupedMeans(inv);
  }
}
