/** The wrapper itself: `build_object`, `seed_stable_object`, `compile_one` and the link line of `main`. */
module ObjectCache {
  import opened Wrappers
  import opened FreshPair
  import opened FileStore
  import opened CacheSteps
  import CommandLine

  /** How `build_object` ends; a lexer error is the exception `parse_depfile` lets through. */
  datatype Ending = Hit | Built | CompilerFailed | LexError | Killed

  datatype Seeding = Seeded | NotSeeded | SeedLexError

  /** How a command ends: passed on to the compiler, with a link line, or with an exception. */
  datatype CommandEnd = PassedOn | Linked(link: seq<LinkArgument>) | Ended

  datatype Event = HitEvent(key: Key) | CompileEvent(key: Key)

  /** One argument of the final link: as given, or the object file of a cache entry. */
  datatype LinkArgument = Plain(argument: string) | Cached(key: Key)

  /** The tree stands still and no fresh entry is touched. */
  ghost predicate KeepsFresh(d: Disk, e: Disk) {
    && e.Tree() == d.Tree()
    && forall j :: d.Freshness(j) == Fresh ==>
         e.Find(Object(j)) == d.Find(Object(j)) && e.Find(Rules(j)) == d.Find(Rules(j))
  }

  predicate ListsHeader(paths: seq<string>) {
    exists i :: 0 <= i < |paths| && CommandLine.LastComponent(paths[i]) == HEADER
  }

  /** `source_needs_version`, given the depfile of the prior entry if there is one; None where the depfile
      lexer raises. */
  function SourceNeedsVersion(tree: Tree, source: string, prior: Option<File>): Option<bool> {
    if source !in tree || NamesVersion(tree[source].content) then Some(true)
    else
      match prior
      case None => Some(false)
      case Some(dep) =>
        match Listed(dep)
        case None => None
        case Some(paths) => Some(paths == [] || ListsHeader(paths))
  }

  function NeedsVersion(d: Disk, source: string, prior: Key): Option<bool> {
    SourceNeedsVersion(d.Tree(), source, d.Find(Rules(prior)))
  }

  /** The question in terms of the text: the answer is yes where the source cannot be read or names the header or the
      macro, and otherwise where the prior entry's depfile lists nothing or a file of the header's name; no depfile
      means no. */
  lemma NeedsVersionExactly(tree: Tree, source: string, prior: Option<File>)
    ensures SourceNeedsVersion(tree, source, prior) == Some(true) <==>
            || source !in tree || tree[source].content.Binary?
            || (exists a, b :: tree[source].content.text == a + "ServerBuildIdentity.h" + b)
            || (exists a, b :: tree[source].content.text == a + "VDR_SUITE_SERVER_VERSION" + b)
            || (prior.Some? && Listed(prior.value) == Some([]))
            || (prior.Some? && Listed(prior.value).Some?
                && exists p :: p in Listed(prior.value).value && CommandLine.LastComponent(p) == "ServerBuildIdentity.h")
    ensures SourceNeedsVersion(tree, source, prior).None? ==> prior.Some? && Listed(prior.value).None?
  {
    if source in tree { NamesVersionMeans(tree[source].content); }
  }

  /** The same of the files on the disk. */
  lemma DiskNeedsExactly(d: Disk, source: string, prior: Key)
    ensures NeedsVersion(d, source, prior) == Some(true) <==>
            || source !in d.Tree() || d.Tree()[source].content.Binary?
            || (exists a, b :: d.Tree()[source].content.text == a + "ServerBuildIdentity.h" + b)
            || (exists a, b :: d.Tree()[source].content.text == a + "VDR_SUITE_SERVER_VERSION" + b)
            || (d.Find(Rules(prior)).Some? && Listed(d.Find(Rules(prior)).value) == Some([]))
            || (d.Find(Rules(prior)).Some? && Listed(d.Find(Rules(prior)).value).Some?
                && exists p :: p in Listed(d.Find(Rules(prior)).value).value
                               && CommandLine.LastComponent(p) == "ServerBuildIdentity.h")
    ensures NeedsVersion(d, source, prior).None? ==>
              d.Find(Rules(prior)).Some? && Listed(d.Find(Rules(prior)).value).None?
  {
    hide Listed, SourceNeedsVersion, Disk.Find, Disk.Tree;
    NeedsVersionExactly(d.Tree(), source, d.Find(Rules(prior)));
  }

  lemma BuildKeepsFresh(c: Compiler, d: Disk, k: Key, owner: nat)
    requires Faithful(c) && d.Valid() && d.Unused(owner)
    ensures KeepsFresh(d, BuildTo(c, d, k, owner, Never))
    ensures CacheOk(c, d) ==> CacheOk(c, BuildTo(c, d, k, owner, Never))
  {
    var e := BuildTo(c, d, k, owner, Never);
    BuildStep(c, d, k, owner, Never);
    OnlyEntryMeans(c, d, e, k, owner);
    if CacheOk(c, d) {
      assert EntryOk(c, d, k);
      BuildDelivers(c, d, k, owner);
      forall j ensures EntryOk(c, e, j) { assert EntryOk(c, d, j); }
    }
  }

  lemma SeedKeepsFresh(c: Compiler, d: Disk, from: Key, to: Key, owner: nat, copied: (bool, bool))
    requires d.Valid() && d.Unused(owner)
    ensures var e := SeedTo(d, from, to, owner, copied, Never);
            KeepsFresh(d, e) && e.Valid() && e.Unused(owner)
  {
    if SeedsNow(d, from, to) {
      var e := SeedTo(d, from, to, owner, copied, Never);
      SeedLeaves(d, from, to, owner, copied, Never);
      StillUnused(d, e, to, owner);
      OnlyEntryMeans(Compiler((f, p, s) => Failed), d, e, to, owner);
    }
  }

  lemma SeedUnfolds(d: Disk, from: Key, to: Key, owner: nat, copied: (bool, bool))
    requires d.Valid() && d.Unused(owner) && SeedsNow(d, from, to)
    ensures d.Find(Object(from)).Some?
    ensures var e := Carry(d, Object(from), Object(to), owner, copied.0);
            && e.Find(Rules(from)).Some?
            && SeedTo(d, from, to, owner, copied, Never) == Carry(e, Rules(from), Rules(to), owner, copied.1)
  {
    hide OnlyEntry, Carry;
    SeedHalfway(d, from, to, owner, copied.0);
  }

  lemma SeededFresh(d: Disk, from: Key, to: Key, owner: nat, copied: (bool, bool))
    requires d.Valid() && d.Unused(owner) && SeedsNow(d, from, to)
    ensures var e := SeedTo(d, from, to, owner, copied, Never);
            e.Find(Object(to)) == d.Find(Object(from)) && e.Find(Rules(to)) == d.Find(Rules(from)) && e.Freshness(to) == Fresh
  {
    var e := SeedTo(d, from, to, owner, copied, Never);
    SeedLeaves(d, from, to, owner, copied, Never);
    OnlyEntryMeans(Compiler((f, p, s) => Failed), d, e, to, owner);
  }

  /** The target is the same source without its version define, and the source does not name it. */
  ghost predicate MaySeed(d: Disk, from: Key, to: Key) {
    && from.source == to.source && StableFlags(from.flags) == StableFlags(to.flags)
    && to.source in d.Tree() && !NamesVersion(d.Tree()[to.source].content)
  }

  lemma SeedKeepsOk(c: Compiler, d: Disk, from: Key, to: Key, owner: nat, copied: (bool, bool))
    requires Faithful(c) && VersionOnlyWhereNamed(c) && d.Valid() && d.Unused(owner) && CacheOk(c, d)
    requires MaySeed(d, from, to)
    ensures CacheOk(c, SeedTo(d, from, to, owner, copied, Never))
  {
    if SeedsNow(d, from, to) {
      var e := SeedTo(d, from, to, owner, copied, Never);
      assert EntryOk(c, d, from);
      SeedDelivers(c, d, from, to, owner, copied);
      SeedLeaves(d, from, to, owner, copied, Never);
      OnlyEntryMeans(c, d, e, to, owner);
      forall j ensures EntryOk(c, e, j) { assert EntryOk(c, d, j); }
    }
  }

  lemma SeedKeepsReadable(d: Disk, from: Key, to: Key, owner: nat, copied: (bool, bool))
    requires d.Valid() && d.Unused(owner) && Readable(d)
    ensures Readable(SeedTo(d, from, to, owner, copied, Never))
  {
    if SeedsNow(d, from, to) {
      var e := SeedTo(d, from, to, owner, copied, Never);
      SeededFresh(d, from, to, owner, copied);
      SeedLeaves(d, from, to, owner, copied, Never);
      OnlyEntryMeans(Compiler((f, p, s) => Failed), d, e, to, owner);
    }
  }

  lemma SeedStep(c: Compiler, d: Disk, from: Key, to: Key, owner: nat, copied: (bool, bool))
    requires Faithful(c) && d.Valid() && d.Unused(owner) && MaySeed(d, from, to)
    ensures var e := SeedTo(d, from, to, owner, copied, Never);
            && KeepsFresh(d, e) && e.Valid() && e.Unused(owner)
            && (VersionOnlyWhereNamed(c) && CacheOk(c, d) ==> CacheOk(c, e))
            && (Readable(d) ==> Readable(e))
  {
    if Readable(d) { SeedKeepsReadable(d, from, to, owner, copied); }
    SeedKeepsFresh(c, d, from, to, owner, copied);
    if VersionOnlyWhereNamed(c) && CacheOk(c, d) { SeedKeepsOk(c, d, from, to, owner, copied); }
  }

  /** The entry of the last compiled version, or the current one where none is given. */
  function PriorKey(source: string, flags: Flags, fromVersion: string): Key {
    Key(source, if fromVersion == "" then flags else PriorFlags(flags, fromVersion))
  }

  /** Which entry that is: with a version given, the one whose version define names it, all other flags in place. */
  lemma PriorKeyMeans(source: string, flags: Flags, fromVersion: string)
    ensures var prior := PriorKey(source, flags, fromVersion);
            && prior.source == source && |prior.flags| == |flags|
            && forall i :: 0 <= i < |flags| ==>
                 prior.flags[i] == if fromVersion != "" && "-DVDR_SUITE_SERVER_VERSION=" <= flags[i]
                                   then "-DVDR_SUITE_SERVER_VERSION=\"" + fromVersion + "\"" else flags[i]
  {
    PriorKeeps(flags, fromVersion);
  }

  lemma {:induction false} MaySeedFrom(d: Disk, source: string, flags: Flags, fromVersion: string)
    requires source in d.Tree() && !NamesVersion(d.Tree()[source].content)
    ensures MaySeed(d, PriorKey(source, flags, fromVersion), Key(source, StableFlags(flags)))
    ensures MaySeed(d, Key(source, flags), Key(source, StableFlags(flags)))
  {
    StableOfStable(flags);
    StableOfPrior(flags, fromVersion);
  }

  // -------------------------------------------------------------------- the course

  /** How `compile_one` goes: it ends with the lexer's exception or the compiler's, finds the entry fresh, hands an
      older object over to it, or compiles. */
  datatype Course =
    Raising | Failing(entry: Key) | Hitting(entry: Key) | Reusing(from: Key, entry: Key) | Compiling(entry: Key)

  function BuildCourse(c: Compiler, d: Disk, k: Key): Course {
    match d.Freshness(k)
    case Raises => Raising
    case Fresh => Hitting(k)
    case Stale => if c.run(k.flags, k.source, Contents(d.Tree())).Failed? then Failing(k) else Compiling(k)
  }

  /** For a source that does not need the version: the entry whose object will do, its own where that is not stale
      or nothing better is fresh; None where a depfile cannot be split. */
  function Reusable(d: Disk, source: string, flags: Flags, fromVersion: string): Option<Key> {
    var (k, current, prior) := (Key(source, StableFlags(flags)), Key(source, flags), PriorKey(source, flags, fromVersion));
    if d.Freshness(k) == Fresh then Some(k)
    else if d.Freshness(k) == Raises || d.Freshness(prior) == Raises then None
    else if d.Freshness(prior) == Fresh then Some(prior)
    else if d.Freshness(current) == Raises then None
    else if d.Freshness(current) == Fresh then Some(current)
    else Some(k)
  }

  /** The entry has received the other one's files, or nothing was to be done. */
  ghost predicate HandedOver(d: Disk, e: Disk, from: Key, k: Key) {
    if from == k then e == d
    else e.Freshness(k) == Fresh && e.Find(Object(k)) == d.Find(Object(from)) && e.Find(Rules(k)) == d.Find(Rules(from))
  }

  function CourseOf(c: Compiler, d: Disk, source: string, flags: Flags, fromVersion: string): Course {
    match NeedsVersion(d, source, PriorKey(source, flags, fromVersion))
    case None => Raising
    case Some(true) => BuildCourse(c, d, Key(source, flags))
    case Some(false) =>
      var k := Key(source, StableFlags(flags));
      match Reusable(d, source, flags, fromVersion)
      case None => Raising
      case Some(from) => if from == k then BuildCourse(c, d, k) else Reusing(from, k)
  }

  /** Every flag but the version define is kept, as often as it was. */
  ghost predicate KeepsFlags(flags: Flags, kept: Flags) {
    forall f :: !("-DVDR_SUITE_SERVER_VERSION=" <= f) ==> multiset(kept)[f] == multiset(flags)[f]
  }

  lemma {:induction false} StableKeepsFlags(flags: Flags)
    ensures KeepsFlags(flags, flags) && KeepsFlags(flags, StableFlags(flags))
  {
    forall f | !("-DVDR_SUITE_SERVER_VERSION=" <= f) ensures multiset(StableFlags(flags))[f] == multiset(flags)[f] {
      StableCounts(flags, f);
    }
  }

  /** A compile is run only if nothing fit is fresh: not the entry itself, and where the version does not matter, neither
      the prior version's nor the current one's. An exception comes from a depfile that cannot be split. */
  lemma {:induction false} CompilesOnlyIfStale(c: Compiler, d: Disk, source: string, flags: Flags, fromVersion: string)
    ensures var course := CourseOf(c, d, source, flags, fromVersion);
            && (course.Compiling? || course.Failing? ==>
                  && course.entry.source == source && d.Freshness(course.entry) == Stale
                  && (course.entry.flags != flags ==>
                        d.Freshness(Key(source, flags)) == Stale == d.Freshness(PriorKey(source, flags, fromVersion)))
                  && (course.Failing? <==> c.run(course.entry.flags, source, Contents(d.Tree())).Failed?))
            && (course.Raising? ==> !Readable(d))
            && (course.Reusing? ==>
                  && d.Freshness(course.from) == Fresh && d.Freshness(course.entry) == Stale
                  && course.entry == Key(source, StableFlags(flags))
                  && (course.from != PriorKey(source, flags, fromVersion) ==>
                        course.from == Key(source, flags) && d.Freshness(PriorKey(source, flags, fromVersion)) == Stale))
            && (course.Hitting? ==> d.Freshness(course.entry) == Fresh && course.entry.source == source)
  {
    hide Check, Disk.Find, ListsHeader;
    RaisesIfUnreadable(d, Key(source, flags));
    RaisesIfUnreadable(d, Key(source, StableFlags(flags)));
    RaisesIfUnreadable(d, PriorKey(source, flags, fromVersion));
  }

  lemma RaisesIfUnreadable(d: Disk, k: Key)
    ensures d.Freshness(k) == Raises ==> !Readable(d)
    ensures d.Find(Rules(k)).Some? && Listed(d.Find(Rules(k)).value).None? ==> !Readable(d)
  {}

  // ------------------------------------------------------------------ the link line

  /** `s` is how some source among the arguments is spelled as a path. */
  ghost predicate Spelled(arguments: seq<string>, spell: string -> string, s: string) {
    exists i :: 0 <= i < |arguments| && CommandLine.IsSource(arguments[i]) && spell(arguments[i]) == s
  }

  lemma SpelledMore(arguments: seq<string>, i: nat, spell: string -> string)
    requires i < |arguments|
    ensures forall s :: Spelled(arguments[..i + 1], spell, s) <==>
                        Spelled(arguments[..i], spell, s)
                        || (CommandLine.IsSource(arguments[i]) && spell(arguments[i]) == s)
  {
    forall s
      ensures Spelled(arguments[..i + 1], spell, s) <==>
              Spelled(arguments[..i], spell, s) || (CommandLine.IsSource(arguments[i]) && spell(arguments[i]) == s)
    {
      if Spelled(arguments[..i], spell, s) {
        var j :| 0 <= j < i && CommandLine.IsSource(arguments[j]) && spell(arguments[j]) == s;
        assert arguments[..i + 1][j] == arguments[j];
      }
      if CommandLine.IsSource(arguments[i]) && spell(arguments[i]) == s {
        assert arguments[..i + 1][i] == arguments[i];
      }
      if Spelled(arguments[..i + 1], spell, s) {
        var j :| 0 <= j < i + 1 && CommandLine.IsSource(arguments[..i + 1][j]) && spell(arguments[..i + 1][j]) == s;
        if j < i { assert arguments[..i][j] == arguments[j]; }
      }
    }
  }

  /** Every replacement stands for its source compiled with the full flags, and is up to date. */
  ghost predicate Replaces(c: Compiler, d: Disk, flags: Flags, replacements: map<string, Key>) {
    forall s :: s in replacements ==>
      && d.Freshness(replacements[s]) == Fresh
      && Exact(c, Key(s, flags), d.Find(Object(replacements[s])), d.Tree())
  }

  lemma StillReplaces(c: Compiler, d: Disk, e: Disk, flags: Flags, replacements: map<string, Key>)
    requires KeepsFresh(d, e) && Replaces(c, d, flags, replacements)
    ensures Replaces(c, e, flags, replacements)
  {}

  /** `replace_sources`. */
  function ReplaceSources(arguments: seq<string>, replacements: map<string, Key>): (r: seq<LinkArgument>)
    ensures |r| == |arguments|
    ensures forall i :: 0 <= i < |arguments| ==>
              r[i] == if arguments[i] in replacements then Cached(replacements[arguments[i]]) else Plain(arguments[i])
  {
    if arguments == [] then []
    else
      [if arguments[0] in replacements then Cached(replacements[arguments[0]]) else Plain(arguments[0])]
      + ReplaceSources(arguments[1..], replacements)
  }

  /** The link line has the arguments of the command in their order. An argument that is the path
      spelling of one of the sources became an object with exactly the code that compiling it with
      the full flags gives now; every other argument is as it was. */
  ghost predicate LinksLike(c: Compiler, d: Disk, arguments: seq<string>, flags: Flags,
                            spell: string -> string, link: seq<LinkArgument>)
  {
    && |link| == |arguments|
    && forall i :: 0 <= i < |link| ==>
         if Spelled(arguments, spell, arguments[i]) then
           link[i].Cached? && Exact(c, Key(arguments[i], flags), d.Find(Object(link[i].key)), d.Tree())
         else
           link[i] == Plain(arguments[i])
  }

  /** Every source of the command compiles with these flags. */
  ghost predicate AllCompile(c: Compiler, d: Disk, arguments: seq<string>, flags: Flags, spell: string -> string) {
    forall s :: Spelled(arguments, spell, s) ==> c.run(flags, s, Contents(d.Tree())).Compiled?
  }

  lemma ReplacedCompile(c: Compiler, d: Disk, arguments: seq<string>, flags: Flags,
                        spell: string -> string, replacements: map<string, Key>)
    requires Replaces(c, d, flags, replacements)
    requires forall s :: s in replacements <==> Spelled(arguments, spell, s)
    ensures AllCompile(c, d, arguments, flags, spell)
  {}

  /** An entry that does not compile without the version define does not compile with it. */
  lemma FailsWithAllFlags(c: Compiler, d: Disk, source: string, flags: Flags, fromVersion: string)
    requires VersionOnlyWhereNamed(c) && CourseOf(c, d, source, flags, fromVersion).Failing?
    ensures c.run(flags, source, Contents(d.Tree())).Failed?
  {
    hide Check, Disk.Find;
    StableOfStable(flags);
    if NeedsVersion(d, source, PriorKey(source, flags, fromVersion)) == Some(false) {
      assert Contents(d.Tree())[source] == d.Tree()[source].content;
    }
  }

  lemma SourceFails(c: Compiler, before: Disk, d: Disk, arguments: seq<string>, i: nat, flags: Flags,
                    fromVersion: string, spell: string -> string)
    requires VersionOnlyWhereNamed(c) && KeepsFresh(before, d) && i < |arguments| && CommandLine.IsSource(arguments[i])
    requires Readable(before) ==> Readable(d)
    ensures var course := CourseOf(c, d, spell(arguments[i]), flags, fromVersion);
            (course.Raising? || course.Failing?) && Readable(before) ==> !AllCompile(c, before, arguments, flags, spell)
  {
    hide CourseOf, Readable;
    var source := spell(arguments[i]);
    CompilesOnlyIfStale(c, d, source, flags, fromVersion);
    if CourseOf(c, d, source, flags, fromVersion).Failing? {
      FailsWithAllFlags(c, d, source, flags, fromVersion);
      assert Spelled(arguments, spell, source);
    }
  }

  lemma KeepsFreshTwice(d: Disk, e: Disk, f: Disk)
    requires KeepsFresh(d, e) && KeepsFresh(e, f)
    ensures KeepsFresh(d, f)
  {}

  lemma NoneReplaced(c: Compiler, d: Disk, flags: Flags)
    ensures KeepsFresh(d, d) && Replaces(c, d, flags, map[])
  {}

  lemma ReplacesMore(c: Compiler, d: Disk, flags: Flags, replacements: map<string, Key>, source: string, entry: Key)
    requires Replaces(c, d, flags, replacements) && d.Freshness(entry) == Fresh
    requires Exact(c, Key(source, flags), d.Find(Object(entry)), d.Tree())
    ensures Replaces(c, d, flags, replacements[source := entry])
  {}

  /** Replacing the spelled sources gives the link line of a direct compile. */
  lemma {:induction false} ReplacedLinksLike(c: Compiler, d: Disk, arguments: seq<string>, flags: Flags,
                          spell: string -> string, replacements: map<string, Key>)
    requires Replaces(c, d, flags, replacements)
    requires forall s :: s in replacements <==> Spelled(arguments, spell, s)
    ensures LinksLike(c, d, arguments, flags, spell, ReplaceSources(arguments, replacements))
  {}

  lemma NothingDone(d: Disk)
    ensures KeepsFresh(d, d)
  {}

  lemma CacheOkMeans(c: Compiler, d: Disk, k: Key)
    ensures CacheOk(c, d) || d.Freshness(k) != Fresh ==> EntryOk(c, d, k)
  {}

  /** Where the source does not need the version, the object for the remaining flags is the one for all. */
  lemma ExactForFlags(c: Compiler, d: Disk, source: string, flags: Flags, selected: Key, sensitive: bool)
    requires selected == Key(source, if sensitive then flags else StableFlags(flags))
    requires !sensitive ==> source in d.Tree() && !NamesVersion(d.Tree()[source].content)
    ensures VersionOnlyWhereNamed(c) && Delivers(c, d, selected) ==>
              Exact(c, Key(source, flags), d.Find(Object(selected)), d.Tree())
  {
    StableOfStable(flags);
    if !sensitive { assert Contents(d.Tree())[source] == d.Tree()[source].content; }
  }

  /** A fresh entry in order already delivers. */
  lemma FreshDelivers(c: Compiler, d: Disk, k: Key)
    requires EntryOk(c, d, k) && d.Freshness(k) == Fresh
    ensures Delivers(c, d, k)
  {}

  class Wrapper {
    const compiler: Compiler
    const owner: nat
    var disk: Disk
    var trace: seq<Event>

    constructor (compiler: Compiler, owner: nat, disk: Disk)
      ensures this.compiler == compiler && this.owner == owner && this.disk == disk && trace == []
    {
      this.compiler, this.owner, this.disk, this.trace := compiler, owner, disk, [];
    }

    ghost predicate Ready()
      reads this
    {
      disk.Valid() && disk.Unused(owner)
    }

    /** `build_object`, killed at `cut`. */
    method BuildObject(k: Key, cut: Cut) returns (ending: Ending)
      requires Ready()
      modifies this`disk, this`trace
      ensures disk == BuildTo(compiler, old(disk), k, owner, cut)
      ensures cut.Never? ==> Ready() && ending != Killed
      ensures ending.Hit? <==> old(disk).Freshness(k) == Fresh
      ensures ending.LexError? <==> old(disk).Freshness(k) == Raises
      ensures ending.CompilerFailed? <==>
                old(disk).Freshness(k) == Stale && compiler.run(k.flags, k.source, Contents(old(disk).Tree())).Failed?
      ensures ending.Hit? || ending.LexError? || ending.CompilerFailed? ==> disk == old(disk)
      ensures trace == old(trace) + (if ending.Hit? then [HitEvent(k)] else if ending.Built? then [CompileEvent(k)] else [])
      ensures Faithful(compiler) && EntryOk(compiler, old(disk), k) && (ending.Hit? || ending.Built?) ==>
                Delivers(compiler, disk, k) && disk.Freshness(k) == Fresh
      ensures Faithful(compiler) && cut.Never? ==> KeepsFresh(old(disk), disk)
      ensures Faithful(compiler) && cut.Never? && CacheOk(compiler, old(disk)) ==> CacheOk(compiler, disk)
      ensures Faithful(compiler) && Readable(old(disk)) ==> Readable(disk)
    {
      hide Stored, Prepared, Placed, OnlyEntry, PairOk, CacheOk, Readable;
      if Faithful(compiler) && Readable(disk) { BuildKeepsReadable(compiler, disk, k, owner, cut); }
      ghost var before := disk;
      BuildStep(compiler, before, k, owner, cut);
      var verdict := disk.Freshness(k);
      if verdict.Fresh? {
        trace := trace + [HitEvent(k)];
        if EntryOk(compiler, before, k) { FreshDelivers(compiler, disk, k); }
        if Faithful(compiler) && cut.Never? { BuildKeepsFresh(compiler, before, k, owner); }
        return Hit;
      }
      if verdict.Raises? {
        if Faithful(compiler) && cut.Never? { BuildKeepsFresh(compiler, before, k, owner); }
        return LexError;
      }
      var outcome := compiler.run(k.flags, k.source, Contents(disk.Tree()));
      if outcome.Failed? {
        if Faithful(compiler) && cut.Never? { BuildKeepsFresh(compiler, before, k, owner); }
        return CompilerFailed;
      }
      StoredUnfolds(before, k, owner, outcome.code, outcome.rule, cut);
      disk := Prepared(disk, k, owner, outcome.code, outcome.rule);
      if cut.ObjectReady? { return Killed; }
      disk := Placed(disk, Object(k), owner);
      if cut.ObjectPlaced? || cut.RulesReady? { return Killed; }
      disk := Placed(disk, Rules(k), owner);
      if cut.RulesPlaced? { return Killed; }
      trace := trace + [CompileEvent(k)];
      if Faithful(compiler) {
        if EntryOk(compiler, before, k) { BuildDelivers(compiler, before, k, owner); }
        BuildKeepsFresh(compiler, before, k, owner);
      }
      return Built;
    }

    /** `seed_stable_object`, not killed. */
    method SeedStableObject(from: Key, to: Key, copied: (bool, bool)) returns (r: Seeding)
      requires Ready()
      modifies this`disk
      ensures disk == SeedTo(old(disk), from, to, owner, copied, Never)
      ensures r.Seeded? <==> old(disk).Freshness(from) == Fresh && old(disk).Freshness(to) != Raises
      ensures r.NotSeeded? <==> old(disk).Freshness(from) == Stale
      ensures r.Seeded? ==>
                && disk.Freshness(to) == Fresh
                && (old(disk).Freshness(to) == Stale ==>
                      disk.Find(Object(to)) == old(disk).Find(Object(from)) && disk.Find(Rules(to)) == old(disk).Find(Rules(from)))
    {
      ghost var before := disk;
      var verdict := disk.Freshness(from);
      if verdict.Raises? { return SeedLexError; }
      if verdict.Stale? { return NotSeeded; }
      verdict := disk.Freshness(to);
      if verdict.Raises? { return SeedLexError; }
      if verdict.Fresh? { return Seeded; }
      SeedUnfolds(disk, from, to, owner, copied);
      var halfway := Carry(disk, Object(from), Object(to), owner, copied.0);
      disk := halfway;
      disk := Carry(halfway, Rules(from), Rules(to), owner, copied.1);
      SeededFresh(before, from, to, owner, copied);
      verdict := disk.Freshness(to);
      r := if verdict.Raises? then SeedLexError else if verdict.Fresh? then Seeded else NotSeeded;
    }

    /** The seeding half of `compile_one`, for a source that does not need the version: with its entry stale, the prior
        version's object is handed over, or else the current one's. False where the lexer raises. */
    method Reuse(source: string, flags: Flags, fromVersion: string, copied: seq<(bool, bool)>) returns (alive: bool)
      requires Ready() && Faithful(compiler) && |copied| == 2
      requires NeedsVersion(disk, source, PriorKey(source, flags, fromVersion)) == Some(false)
      modifies this`disk
      ensures Ready() && KeepsFresh(old(disk), disk)
      ensures VersionOnlyWhereNamed(compiler) && CacheOk(compiler, old(disk)) ==> CacheOk(compiler, disk)
      ensures Readable(old(disk)) ==> Readable(disk)
      ensures alive <==> Reusable(old(disk), source, flags, fromVersion).Some?
      ensures alive ==>
                HandedOver(old(disk), disk, Reusable(old(disk), source, flags, fromVersion).value, Key(source, StableFlags(flags)))
      ensures !alive ==> disk == old(disk)
    {
      hide KeepsFresh, CacheOk, Readable, OnlyEntry, Check, Disk.Find, Disk.Valid, Disk.Unused, Faithful,
           VersionOnlyWhereNamed;
      var (current, prior, selected) := (Key(source, flags), PriorKey(source, flags, fromVersion), Key(source, StableFlags(flags)));
      var verdict := disk.Freshness(selected);
      NothingDone(disk);
      if !verdict.Stale? { return !verdict.Raises?; }
      MaySeedFrom(disk, source, flags, fromVersion);
      SeedStep(compiler, disk, prior, selected, owner, copied[0]);
      var seeded := SeedStableObject(prior, selected, copied[0]);
      if seeded.NotSeeded? {
        SeedStep(compiler, disk, current, selected, owner, copied[1]);
        seeded := SeedStableObject(current, selected, copied[1]);
      }
      alive := !seeded.SeedLexError?;
    }

    /** `compile_one`: picks the entry for a source, seeds it if it can, and builds it. None where an
        exception ends the run. `copied` says which hard links fail. */
    method CompileOne(source: string, flags: Flags, fromVersion: string, copied: seq<(bool, bool)>)
      returns (r: Option<Key>)
      requires Ready() && Faithful(compiler) && |copied| == 2
      modifies this`disk, this`trace
      ensures Ready() && KeepsFresh(old(disk), disk)
      ensures VersionOnlyWhereNamed(compiler) && CacheOk(compiler, old(disk)) ==> CacheOk(compiler, disk)
      ensures Readable(old(disk)) ==> Readable(disk)
      ensures match CourseOf(compiler, old(disk), source, flags, fromVersion)
              case Raising => r == None && disk == old(disk) && trace == old(trace)
              case Failing(_) => r == None && disk == old(disk) && trace == old(trace)
              case Hitting(k) => r == Some(k) && disk == old(disk) && trace == old(trace) + [HitEvent(k)]
              case Reusing(from, k) =>
                r == Some(k) && trace == old(trace) + [HitEvent(k)] && HandedOver(old(disk), disk, from, k)
              case Compiling(k) => r == Some(k) && trace == old(trace) + [CompileEvent(k)]
      ensures r.Some? ==> r.value.source == source && disk.Freshness(r.value) == Fresh && KeepsFlags(flags, r.value.flags)
      ensures r.Some? ==> r.value.flags == if NeedsVersion(old(disk), source, PriorKey(source, flags, fromVersion)) == Some(true)
                                           then flags else StableFlags(flags)
      ensures r.Some? && VersionOnlyWhereNamed(compiler) && CacheOk(compiler, old(disk)) ==>
                Exact(compiler, Key(source, flags), disk.Find(Object(r.value)), disk.Tree())
    {
      hide KeepsFresh, CacheOk, Readable, EntryOk, Exact, KeepsFlags, OnlyEntry, BuildTo, Check, Disk.Find,
           Disk.Valid, Disk.Unused, Faithful, VersionOnlyWhereNamed, Reusable;
      var sensitive := NeedsVersion(disk, source, PriorKey(source, flags, fromVersion));
      if sensitive.None? {
        NothingDone(disk);
        return None;
      }
      var selected := Key(source, if sensitive.value then flags else StableFlags(flags));
      if !sensitive.value {
        var alive := Reuse(source, flags, fromVersion, copied);
        if !alive { return None; }
      } else {
        NothingDone(disk);
      }
      ghost var start := disk;
      CacheOkMeans(compiler, disk, selected);
      var ending := BuildObject(selected, Never);
      KeepsFreshTwice(old(disk), start, disk);
      StableKeepsFlags(flags);
      ExactForFlags(compiler, disk, source, flags, selected, sensitive.value);
      if ending.Hit? || ending.Built? { r := Some(selected); } else { r := None; }
    }

    /** The compiling half of `main`: every source in turn, with the flags the command leaves to a compile, then the
        link line. None where the run ends with an exception: if every depfile can be split, exactly where
        some source does not compile. `spell` is `str(Path(argument))`. */
    method LinkLine(arguments: seq<string>, fromVersion: string, spell: string -> string, copied: seq<(bool, bool)>)
      returns (r: Option<seq<LinkArgument>>)
      requires Ready() && Faithful(compiler) && |copied| == 2
      requires VersionOnlyWhereNamed(compiler) && CacheOk(compiler, disk)
      modifies this`disk, this`trace
      ensures Ready() && KeepsFresh(old(disk), disk) && CacheOk(compiler, disk)
      ensures r.Some? ==> LinksLike(compiler, disk, arguments, CommandLine.CompileFlags(arguments), spell, r.value)
      ensures r.Some? ==> AllCompile(compiler, disk, arguments, CommandLine.CompileFlags(arguments), spell)
      ensures Readable(old(disk)) && AllCompile(compiler, old(disk), arguments, CommandLine.CompileFlags(arguments), spell) ==>
                r.Some? && Readable(disk)
    {
      hide LinksLike, Replaces, Exact, CacheOk, KeepsFresh, Disk.Valid, Disk.Unused, CommandLine.IsSource,
           CommandLine.Suffix;
      hide CourseOf, Readable, AllCompile, KeepsFlags, Check, CommandLine.CompileFlags, NeedsVersion;
      var flags := CommandLine.CompileArguments(arguments);
      ghost var before := disk;
      var replacements: map<string, Key> := map[];
      NoneReplaced(compiler, disk, flags);
      for i := 0 to |arguments|
        invariant Ready() && KeepsFresh(before, disk) && CacheOk(compiler, disk)
        invariant Readable(before) ==> Readable(disk)
        invariant Replaces(compiler, disk, flags, replacements)
        invariant forall s :: s in replacements <==> Spelled(arguments[..i], spell, s)
      {
        SpelledMore(arguments, i, spell);
        if CommandLine.IsSource(arguments[i]) {
          ghost var earlier := disk;
          var source := spell(arguments[i]);
          SourceFails(compiler, before, disk, arguments, i, flags, fromVersion, spell);
          var entry := CompileOne(source, flags, fromVersion, copied);
          KeepsFreshTwice(before, earlier, disk);
          if entry.None? { return None; }
          StillReplaces(compiler, earlier, disk, flags, replacements);
          ReplacesMore(compiler, disk, flags, replacements, source, entry.value);
          replacements := replacements[source := entry.value];
        }
      }
      assert arguments[..|arguments|] == arguments;
      ReplacedLinksLike(compiler, disk, arguments, flags, spell, replacements);
      ReplacedCompile(compiler, disk, arguments, flags, spell, replacements);
      r := Some(ReplaceSources(arguments, replacements));
    }

    /** `main`. A command without a source or an output, or with `-c`, goes to the compiler as it is. */
    method Command(arguments: seq<string>, fromVersion: string, spell: string -> string, copied: seq<(bool, bool)>)
      returns (r: CommandEnd)
      requires Ready() && Faithful(compiler) && |copied| == 2
      requires VersionOnlyWhereNamed(compiler) && CacheOk(compiler, disk)
      modifies this`disk, this`trace
      ensures Ready() && KeepsFresh(old(disk), disk) && CacheOk(compiler, disk)
      ensures r.PassedOn? <==>
                || (forall i :: 0 <= i < |arguments| ==> !CommandLine.EndsIn(arguments[i], {"c", "cc", "cpp", "cxx", "C"}))
                || (forall i, output :: 0 <= i < |arguments| ==> !CommandLine.NamesOutput(arguments, i, output))
                || "-c" in arguments
      ensures r.PassedOn? ==> disk == old(disk) && trace == old(trace)
      ensures r.Linked? ==> LinksLike(compiler, disk, arguments, CommandLine.CompileFlags(arguments), spell, r.link)
      ensures Readable(old(disk)) && AllCompile(compiler, old(disk), arguments, CommandLine.CompileFlags(arguments), spell) ==>
                !r.Ended?
    {
      hide LinksLike, CacheOk, KeepsFresh, Disk.Valid, Disk.Unused, CommandLine.IsSource, Readable, AllCompile;
      hide CommandLine.EndsIn, CommandLine.CompileFlags;
      var output := CommandLine.FindOutput(arguments);
      forall i | 0 <= i < |arguments|
        ensures CommandLine.IsSource(arguments[i]) <==> CommandLine.EndsIn(arguments[i], {"c", "cc", "cpp", "cxx", "C"})
      {
        CommandLine.IsSourceMeans(arguments[i]);
      }
      if (forall i :: 0 <= i < |arguments| ==> !CommandLine.IsSource(arguments[i])) || output.None? || "-c" in arguments {
        NothingDone(disk);
        return PassedOn;
      }
      var link := LinkLine(arguments, fromVersion, spell, copied);
      r := if link.Some? then Linked(link.value) else Ended;
    }
  }
}
