/** A cached object and its depfile, judged against the source tree (`cache_is_fresh`).

    Names, links and locks play no part here: a cache entry is a pair of files, and the
    compiler is any function whose answer depends only on the files its depfile lists. */
module FreshPair {
  import opened Strings
  import opened Wrappers
  import Depfile

  type Flags = seq<string>

  /** File contents: decodable text, or bytes that `read_text` rejects. */
  datatype Content = Text(text: string) | Binary(code: seq<int>)

  datatype File = File(content: Content, mtime: nat)

  type Tree = map<string, File>

  type Sources = map<string, Content>

  function Contents(tree: Tree): Sources {
    map p | p in tree :: tree[p].content
  }

  lemma ContentsAre(tree: Tree)
    ensures Contents(tree).Keys == tree.Keys && forall p :: p in tree ==> Contents(tree)[p] == tree[p].content
  {}

  // ------------------------------------------------------------- the compiler

  datatype Outcome = Failed | Compiled(code: Content, rule: Depfile.Rule)

  datatype Compiler = Compiler(run: (Flags, string, Sources) -> Outcome)

  function Reads(rule: Depfile.Rule): seq<string> {
    Depfile.Paths(rule.items)
  }

  ghost predicate Agree(s: Sources, t: Sources, paths: seq<string>) {
    forall p :: p in paths ==> p in s && p in t && s[p] == t[p]
  }

  /** A successful compile prints a readable depfile that lists the source and only existing files,
      and the same outcome follows wherever the listed files are the same. */
  ghost predicate Faithful(c: Compiler) {
    forall flags, source, s :: c.run(flags, source, s).Compiled? ==>
      var rule := c.run(flags, source, s).rule;
      && Depfile.WellPrinted(rule)
      && source in Reads(rule)
      && (forall p :: p in Reads(rule) ==> p in s)
      && (forall t :: Agree(s, t, Reads(rule)) ==> c.run(flags, source, t) == c.run(flags, source, s))
  }

  // ---------------------------------------------------------------- freshness

  /** Names an entry: `object_paths` turns source and flags into one directory, and nothing else does. */
  datatype Key = Key(source: string, flags: Flags)

  datatype Verdict = Stale | Fresh | Raises

  /** `parse_depfile`, including its answer for a file that is not text. */
  function Listed(dep: File): Option<seq<string>> {
    match dep.content
    case Binary(_) => Some([])
    case Text(text) => Depfile.Parse(text)
  }

  /** The dependency loop of `cache_is_fresh`. */
  predicate AllCurrent(paths: seq<string>, tree: Tree, limit: nat) {
    paths == [] || (paths[0] in tree && tree[paths[0]].mtime <= limit && AllCurrent(paths[1..], tree, limit))
  }

  function Check(obj: Option<File>, dep: Option<File>, tree: Tree): Verdict {
    if obj.None? || dep.None? then Stale
    else
      match Listed(dep.value)
      case None => Raises
      case Some(paths) =>
        if paths != [] && AllCurrent(paths, tree, obj.value.mtime) then Fresh else Stale
  }

  lemma {:induction false} AllCurrentMeans(paths: seq<string>, tree: Tree, limit: nat)
    ensures AllCurrent(paths, tree, limit) <==>
            forall p :: p in paths ==> p in tree && tree[p].mtime <= limit
  {
    if paths != [] {
      AllCurrentMeans(paths[1..], tree, limit);
      assert forall p :: p in paths <==> p == paths[0] || p in paths[1..];
    }
  }

  /** The depfile is there, lists something, and all it lists is there and no newer than `limit`. */
  predicate Passes(dep: Option<File>, tree: Tree, limit: nat) {
    && dep.Some? && Listed(dep.value).Some? && Listed(dep.value).value != []
    && AllCurrent(Listed(dep.value).value, tree, limit)
  }

  /** `cache_is_fresh` in full: both files are there, the depfile lists something, and all it lists exists and is no
      newer than the object. A depfile that is no text lists nothing; one the lexer cannot split raises. */
  lemma CheckExactly(obj: Option<File>, dep: Option<File>, tree: Tree)
    ensures Check(obj, dep, tree) == Fresh <==>
            && obj.Some? && dep.Some? && dep.value.content.Text?
            && var listed := Depfile.Parse(dep.value.content.text);
               && listed.Some? && listed.value != []
               && forall p :: p in listed.value ==> p in tree && tree[p].mtime <= obj.value.mtime
    ensures Check(obj, dep, tree) == Raises <==>
            obj.Some? && dep.Some? && dep.value.content.Text? && Depfile.Parse(dep.value.content.text).None?
  {
    if obj.Some? && dep.Some? && Listed(dep.value).Some? {
      AllCurrentMeans(Listed(dep.value).value, tree, obj.value.mtime);
    }
  }

  lemma PassesMeans(obj: Option<File>, dep: Option<File>, tree: Tree)
    ensures Check(obj, dep, tree) == Fresh <==> obj.Some? && Passes(dep, tree, obj.value.mtime)
  {}

  /** Past the newest file the limit does not matter: only whether the files are there. */
  lemma PassesLater(dep: Option<File>, tree: Tree, now: nat, later: nat)
    requires now <= later && forall p :: p in tree ==> tree[p].mtime <= now
    ensures Passes(dep, tree, now) <==> Passes(dep, tree, later)
    ensures Passes(dep, tree, now) <==>
              dep.Some? && Listed(dep.value).Some? && Listed(dep.value).value != []
              && forall p :: p in Listed(dep.value).value ==> p in tree
  {
    if dep.Some? && Listed(dep.value).Some? {
      AllCurrentMeans(Listed(dep.value).value, tree, now);
      AllCurrentMeans(Listed(dep.value).value, tree, later);
    }
  }

  // ------------------------------------------------------------- the invariant

  ghost predicate ListsAll(dep: File, paths: seq<string>) {
    Listed(dep).Some? && forall p :: p in paths ==> p in Listed(dep).value
  }

  /** The object is what compiling the entry's source with its flags on this very tree gives. */
  ghost predicate Exact(c: Compiler, k: Key, obj: Option<File>, tree: Tree) {
    var outcome := c.run(k.flags, k.source, Contents(tree));
    obj.Some? && outcome.Compiled? && outcome.code == obj.value.content
  }

  /** What the cache keeps true of every entry: a pair that counts as fresh is exact, and its
      depfile lists every file that compile reads, so that the next edit will be noticed. */
  ghost predicate PairOk(c: Compiler, k: Key, obj: Option<File>, dep: Option<File>, tree: Tree) {
    Check(obj, dep, tree) == Fresh ==>
      && Exact(c, k, obj, tree)
      && ListsAll(dep.value, Reads(c.run(k.flags, k.source, Contents(tree)).rule))
  }

  /** Storing a fresh compile under a time stamp no older than any source makes a pair that is
      in order and counts as fresh. */
  lemma CompileMakes(c: Compiler, k: Key, tree: Tree, now: nat, later: nat)
    requires Faithful(c)
    requires c.run(k.flags, k.source, Contents(tree)).Compiled?
    requires forall p :: p in tree ==> tree[p].mtime <= now
    ensures var outcome := c.run(k.flags, k.source, Contents(tree));
            var obj := Some(File(outcome.code, now));
            var dep := Some(File(Text(Depfile.Print(outcome.rule)), later));
            PairOk(c, k, obj, dep, tree) && Check(obj, dep, tree) == Fresh
  {
    var outcome := c.run(k.flags, k.source, Contents(tree));
    Depfile.ParsePrint(outcome.rule);
    AllCurrentMeans(Reads(outcome.rule), tree, now);
  }

  /** `tree'` holds no file that `tree` does not, other than files newer than `limit`. */
  ghost predicate OnlyNewer(tree: Tree, tree': Tree, limit: nat) {
    forall p :: p in tree' && tree'[p].mtime <= limit ==> p in tree && tree[p] == tree'[p]
  }

  /** An edit with a later time stamp, or a deletion, never spoils a pair: it can only make it stale. */
  lemma EditKeeps(c: Compiler, k: Key, obj: Option<File>, dep: Option<File>, tree: Tree, tree': Tree)
    requires Faithful(c)
    requires PairOk(c, k, obj, dep, tree)
    requires obj.Some? ==> OnlyNewer(tree, tree', obj.value.mtime)
    ensures PairOk(c, k, obj, dep, tree')
    ensures Check(obj, dep, tree') == Fresh ==> Check(obj, dep, tree) == Fresh
  {
    if Check(obj, dep, tree') == Fresh {
      AllCurrentMeans(Listed(dep.value).value, tree, obj.value.mtime);
      AllCurrentMeans(Listed(dep.value).value, tree', obj.value.mtime);
      var rule := c.run(k.flags, k.source, Contents(tree)).rule;
      assert Agree(Contents(tree), Contents(tree'), Reads(rule));
    }
  }

  /** A new object beside an older depfile, as a kill between the two replacements leaves them, is
      in order exactly when the old depfile makes it stale or already lists all the compile read. */
  lemma NewObjectOldRules(c: Compiler, k: Key, tree: Tree, now: nat, dep: Option<File>)
    requires c.run(k.flags, k.source, Contents(tree)).Compiled?
    ensures var outcome := c.run(k.flags, k.source, Contents(tree));
            var obj := Some(File(outcome.code, now));
            PairOk(c, k, obj, dep, tree) <==>
            (Check(obj, dep, tree) == Fresh ==> ListsAll(dep.value, Reads(outcome.rule)))
  {}

  // ------------------------------------------------------------ the version define

  predicate IsVersionDefine(flag: string) {
    "-DVDR_SUITE_SERVER_VERSION=" <= flag
  }

  function StableFlags(flags: Flags): Flags {
    if flags == [] then []
    else (if IsVersionDefine(flags[0]) then [] else [flags[0]]) + StableFlags(flags[1..])
  }

  /** `prior_flags`: the same flags with another version in them. */
  function PriorFlags(flags: Flags, version: string): Flags {
    if flags == [] then []
    else
      [if IsVersionDefine(flags[0]) then "-DVDR_SUITE_SERVER_VERSION=" + "\"" + version + "\"" else flags[0]]
      + PriorFlags(flags[1..], version)
  }

  lemma {:induction false} StableOfPrior(flags: Flags, version: string)
    ensures StableFlags(PriorFlags(flags, version)) == StableFlags(flags)
  {
    if flags != [] {
      StableOfPrior(flags[1..], version);
      var define := "-DVDR_SUITE_SERVER_VERSION=" + "\"" + version + "\"";
      assert IsVersionDefine(define);
      assert PriorFlags(flags, version)[1..] == PriorFlags(flags[1..], version);
    }
  }

  /** The flags without the version define: that one goes, every other flag stays, as often and in the order it
      was. */
  lemma {:induction false} StableSplits(a: Flags, b: Flags)
    ensures StableFlags(a + b) == StableFlags(a) + StableFlags(b)
  {
    if a == [] {
      assert a + b == b;
    } else {
      assert (a + b)[1..] == a[1..] + b;
      StableSplits(a[1..], b);
    }
  }

  lemma {:induction false} StableDrops(a: Flags, flag: string, b: Flags)
    ensures StableFlags(a + [flag] + b)
            == StableFlags(a) + (if "-DVDR_SUITE_SERVER_VERSION=" <= flag then [] else [flag]) + StableFlags(b)
  {
    StableSplits(a + [flag], b);
    StableSplits(a, [flag]);
    assert [flag][1..] == [];
  }

  lemma {:induction false} StableCounts(flags: Flags, flag: string)
    ensures multiset(StableFlags(flags))[flag] == if "-DVDR_SUITE_SERVER_VERSION=" <= flag then 0 else multiset(flags)[flag]
  {
    if flags != [] {
      assert flags == [flags[0]] + flags[1..];
      StableCounts(flags[1..], flag);
    }
  }

  /** The prior flags differ from the flags in the version defines only, place by place. */
  lemma {:induction false} PriorKeeps(flags: Flags, version: string)
    ensures |PriorFlags(flags, version)| == |flags|
    ensures forall i :: 0 <= i < |flags| ==>
              PriorFlags(flags, version)[i]
              == if "-DVDR_SUITE_SERVER_VERSION=" <= flags[i] then "-DVDR_SUITE_SERVER_VERSION=\"" + version + "\"" else flags[i]
  {
    if flags != [] { PriorKeeps(flags[1..], version); }
  }

  lemma {:induction false} StableOfStable(flags: Flags)
    ensures StableFlags(StableFlags(flags)) == StableFlags(flags)
  {
    if flags != [] {
      StableOfStable(flags[1..]);
      if IsVersionDefine(flags[0]) {
        assert StableFlags(flags) == StableFlags(flags[1..]);
      } else {
        assert StableFlags(flags)[1..] == StableFlags(flags[1..]);
      }
    }
  }

  const HEADER := "ServerBuildIdentity.h"
  const MACRO := "VDR_SUITE_SERVER_VERSION"

  /** Whether a source's own text asks for the version (an unreadable source counts as asking). */
  predicate NamesVersion(content: Content) {
    content.Binary? || Contains(content.text, HEADER) || Contains(content.text, MACRO)
  }

  /** In terms of the text: it asks for the version exactly where one of the two names stands in it. */
  lemma NamesVersionMeans(content: Content)
    ensures NamesVersion(content) <==>
            || content.Binary?
            || (exists a, b :: content.text == a + "ServerBuildIdentity.h" + b)
            || (exists a, b :: content.text == a + "VDR_SUITE_SERVER_VERSION" + b)
  {
    if content.Text? {
      ContainsMeans(content.text, HEADER);
      ContainsMeans(content.text, MACRO);
    }
  }

  /** The version define matters only to sources that name it. */
  ghost predicate VersionOnlyWhereNamed(c: Compiler) {
    forall flags, flags', source, s ::
      source in s && !NamesVersion(s[source]) && StableFlags(flags) == StableFlags(flags') ==>
      c.run(flags, source, s) == c.run(flags', source, s)
  }

  /** Handing a fresh object over to the entry without the version define. */
  lemma SeedKeeps(c: Compiler, from: Key, to: Key, obj: Option<File>, dep: Option<File>, tree: Tree)
    requires VersionOnlyWhereNamed(c)
    requires from.source == to.source && StableFlags(from.flags) == StableFlags(to.flags)
    requires to.source in tree && !NamesVersion(tree[to.source].content)
    requires PairOk(c, from, obj, dep, tree)
    requires Check(obj, dep, tree) == Fresh
    ensures PairOk(c, to, obj, dep, tree)
  {
    assert Contents(tree)[to.source] == tree[to.source].content;
    assert c.run(from.flags, to.source, Contents(tree)) == c.run(to.flags, to.source, Contents(tree));
  }
}
