/** Sorting the arguments of a link command: sources, the output, and what a compile may keep. */
module CommandLine {
  import opened Wrappers

  const SOURCE_SUFFIXES := {".c", ".cc", ".cpp", ".cxx", ".C"}
  const OBJECT_SUFFIXES := {".o", ".obj", ".a", ".so", ".dylib"}
  const LINK_ONLY_PREFIXES := ["-l", "-L", "-Wl,", "-fuse-ld="]
  const LINK_ONLY_OPTIONS :=
    {"-shared", "-static", "-static-libgcc", "-static-libstdc++", "-pie", "-rdynamic", "-s"}
  const LINK_ONLY_WITH_VALUE := {"-Xlinker", "-u", "-T"}

  /** The last of the components that are neither empty nor a single dot; `name` and `part` are what was
      found so far. */
  function NameAfter(path: string, name: string, part: string): string
    decreases |path|
  {
    var found := if part == "" || part == "." then name else part;
    if path == "" then found
    else if path[0] == '/' then NameAfter(path[1..], found, "")
    else NameAfter(path[1..], name, part + [path[0]])
  }

  /** `Path(path).name` */
  function LastComponent(path: string): string {
    NameAfter(path, "", "")
  }

  /** The position of the last dot, if there is one. */
  function LastDot(name: string): Option<nat> {
    if name == "" then None
    else if name[|name| - 1] == '.' then Some(|name| - 1)
    else LastDot(name[..|name| - 1])
  }

  /** `Path(argument).suffix`: a dot at the very start or the very end of the name makes none. */
  function Suffix(path: string): string {
    var name := LastComponent(path);
    match LastDot(name)
    case None => ""
    case Some(i) => if 0 < i < |name| - 1 then name[i..] else ""
  }

  predicate IsSource(argument: string) {
    Suffix(argument) in SOURCE_SUFFIXES
  }

  predicate StartsWithAny(argument: string, prefixes: seq<string>) {
    exists i :: 0 <= i < |prefixes| && prefixes[i] <= argument
  }

  /** An option whose value is the next argument and goes with it. */
  predicate TakesValue(argument: string) {
    !IsSource(argument) && (argument == "-o" || argument in LINK_ONLY_WITH_VALUE)
  }

  /** An argument that a `-c` command must not see. */
  predicate Dropped(argument: string) {
    || IsSource(argument)
    || "-o" <= argument
    || argument in LINK_ONLY_WITH_VALUE
    || argument in LINK_ONLY_OPTIONS
    || StartsWithAny(argument, LINK_ONLY_PREFIXES)
    || Suffix(argument) in OBJECT_SUFFIXES
  }

  /** Whether the argument at `i` is the value of an option before it. */
  predicate IsValue(takes: string -> bool, arguments: seq<string>, i: nat)
    requires i <= |arguments|
  {
    i > 0 && !IsValue(takes, arguments, i - 1) && takes(arguments[i - 1])
  }

  /** Of the first `n` arguments, those that are neither an option's value nor dropped. */
  function Kept(takes: string -> bool, dropped: string -> bool, arguments: seq<string>, n: nat): seq<string>
    requires n <= |arguments|
  {
    if n == 0 then []
    else
      Kept(takes, dropped, arguments, n - 1)
      + if IsValue(takes, arguments, n - 1) || dropped(arguments[n - 1]) then [] else [arguments[n - 1]]
  }

  /** The flags of a compile: what is neither an option's value nor meant for the link alone. */
  function CompileFlags(arguments: seq<string>): seq<string> {
    Kept(TakesValue, Dropped, arguments, |arguments|)
  }

  /** No option at the end still waits for its value. */
  predicate Complete(arguments: seq<string>) {
    !IsValue(TakesValue, arguments, |arguments|)
  }

  /** `compile_arguments`. */
  method CompileArguments(arguments: seq<string>) returns (result: seq<string>)
    ensures result == CompileFlags(arguments)
  {
    result := [];
    var skipNext := false;
    for i := 0 to |arguments|
      invariant skipNext == IsValue(TakesValue, arguments, i)
      invariant result == Kept(TakesValue, Dropped, arguments, i)
    {
      var arg := arguments[i];
      if skipNext {
        skipNext := false;
        continue;
      }
      if IsSource(arg) { continue; }
      if arg == "-o" {
        skipNext := true;
        continue;
      }
      if "-o" <= arg && |arg| > 2 {
        assert arg[1] == 'o' && "-u"[1] == 'u' && "-T"[1] == 'T' && "-Xlinker"[1] == 'X';
        continue;
      }
      if arg in LINK_ONLY_WITH_VALUE {
        skipNext := true;
        continue;
      }
      if arg in LINK_ONLY_OPTIONS || StartsWithAny(arg, LINK_ONLY_PREFIXES) { continue; }
      if Suffix(arg) in OBJECT_SUFFIXES { continue; }
      result := result + [arg];
    }
  }

  lemma {:induction false} SameStart(takes: string -> bool, dropped: string -> bool,
                                     a: seq<string>, b: seq<string>, i: nat)
    requires i <= |a| && i <= |b| && a[..i] == b[..i]
    ensures IsValue(takes, a, i) == IsValue(takes, b, i)
    ensures Kept(takes, dropped, a, i) == Kept(takes, dropped, b, i)
  {
    if i > 0 {
      assert a[i - 1] == a[..i][i - 1] == b[..i][i - 1] == b[i - 1];
      assert a[..i - 1] == a[..i][..i - 1] == b[..i - 1];
      SameStart(takes, dropped, a, b, i - 1);
    }
  }

  /** Past a prefix that leaves no option waiting, an argument list is sorted like a list of its own. */
  lemma {:induction false} KeptSplits(takes: string -> bool, dropped: string -> bool,
                                      a: seq<string>, b: seq<string>, n: nat)
    requires n <= |b| && !IsValue(takes, a, |a|)
    ensures IsValue(takes, a + b, |a| + n) == IsValue(takes, b, n)
    ensures Kept(takes, dropped, a + b, |a| + n) == Kept(takes, dropped, a, |a|) + Kept(takes, dropped, b, n)
  {
    if n == 0 {
      assert (a + b)[..|a|] == a == a[..|a|];
      SameStart(takes, dropped, a, a + b, |a|);
    } else {
      KeptSplits(takes, dropped, a, b, n - 1);
      assert (a + b)[|a| + n - 1] == b[n - 1];
    }
  }

  lemma {:induction false} MiddleVanishes(takes: string -> bool, dropped: string -> bool,
                       a: seq<string>, between: seq<string>, b: seq<string>)
    requires !IsValue(takes, a, |a|) && !IsValue(takes, between, |between|)
    requires Kept(takes, dropped, between, |between|) == []
    ensures Kept(takes, dropped, a + between + b, |a + between + b|) == Kept(takes, dropped, a + b, |a + b|)
  {
    hide IsValue, Kept;
    KeptSplits(takes, dropped, a, between, |between|);
    assert Kept(takes, dropped, a + between, |a + between|) == Kept(takes, dropped, a, |a|);
    KeptSplits(takes, dropped, a + between, b, |b|);
    KeptSplits(takes, dropped, a, b, |b|);
  }

  /** Two link commands share their objects: whatever stands between `a` and `b`, as long as it is
      sources, outputs and link-only arguments, the flags of a compile are the same without it. */
  lemma FlagsIgnoreLinkParts(a: seq<string>, between: seq<string>, b: seq<string>)
    requires Complete(a) && Complete(between) && CompileFlags(between) == []
    ensures CompileFlags(a + between + b) == CompileFlags(a + b)
  {
    MiddleVanishes(TakesValue, Dropped, a, between, b);
  }

  // ------------------------------------------------------------ in terms of the text

  lemma {:induction false} NoSlashLeft(path: string, name: string, part: string)
    requires '/' !in path
    ensures NameAfter(path, name, part) == if part + path == "" || part + path == "." then name else part + path
    decreases |path|
  {
    if path == "" {
      assert part + path == part;
    } else {
      NoSlashLeft(path[1..], name, part + [path[0]]);
      assert part + [path[0]] + path[1..] == part + path;
    }
  }

  lemma {:induction false} NameBehindSlash(dir: string, last: string, name: string, part: string)
    requires '/' !in last && last != "" && last != "."
    ensures NameAfter(dir + "/" + last, name, part) == last
    decreases |dir|
  {
    var path := dir + "/" + last;
    if dir == "" {
      assert path[1..] == last && "" + last == last;
      NoSlashLeft(last, if part == "" || part == "." then name else part, "");
    } else {
      assert path[1..] == dir[1..] + "/" + last;
      if dir[0] == '/' {
        NameBehindSlash(dir[1..], last, if part == "" || part == "." then name else part, "");
      } else {
        NameBehindSlash(dir[1..], last, name, part + [dir[0]]);
      }
    }
  }

  lemma {:induction false} NameWithoutEnd(path: string, end: string, name: string, part: string)
    requires end == "/" || end == "/."
    ensures NameAfter(path + end, name, part) == NameAfter(path, name, part)
    decreases |path|
  {
    var found := if part == "" || part == "." then name else part;
    if path == "" {
      assert path + end == end && end[1..] == (if end == "/" then "" else ".");
      NoSlashLeft(end[1..], found, "");
    } else {
      assert (path + end)[1..] == path[1..] + end;
      if path[0] == '/' { NameWithoutEnd(path[1..], end, found, ""); } else { NameWithoutEnd(path[1..], end, name, part + [path[0]]); }
    }
  }

  /** The last component is what stands behind the last slash; a slash or a dot of its own at the end is nothing. */
  lemma {:induction false} LastComponentMeans(path: string, last: string)
    ensures '/' !in last && last != "" && last != "." ==> LastComponent(last) == last && LastComponent(path + "/" + last) == last
    ensures LastComponent(path + "/") == LastComponent(path) == LastComponent(path + "/.")
    ensures LastComponent("") == "" == LastComponent(".")
  {
    if '/' !in last && last != "" && last != "." {
      NoSlashLeft(last, "", "");
      assert "" + last == last;
      NameBehindSlash(path, last, "", "");
    }
    NameWithoutEnd(path, "/", "", "");
    NameWithoutEnd(path, "/.", "", "");
    NoSlashLeft(".", "", "");
  }

  lemma {:induction false} DotFound(name: string)
    ensures LastDot(name).Some? ==> var i := LastDot(name).value; i < |name| && name == name[..i] + "." + name[i + 1..]
    decreases |name|
  {
    if name != "" && name[|name| - 1] != '.' {
      var front := name[..|name| - 1];
      DotFound(front);
      if LastDot(front).Some? {
        var i := LastDot(front).value;
        assert front[i] == '.' by { assert front[i] == (front[..i] + "." + front[i + 1..])[i]; }
      }
    }
  }

  lemma {:induction false} DotIsLast(stem: string, ending: string)
    requires '.' !in ending
    ensures LastDot(stem + "." + ending) == Some(|stem|)
    decreases |ending|
  {
    var name := stem + "." + ending;
    if ending == "" {
      assert name[|name| - 1] == '.';
    } else {
      var front := ending[..|ending| - 1];
      assert name[|name| - 1] == ending[|ending| - 1] && name[..|name| - 1] == stem + "." + front;
      DotIsLast(stem, front);
    }
  }

  /** The name of the file ends in one of these, behind something and a dot. */
  ghost predicate EndsIn(path: string, endings: set<string>) {
    exists stem, ending :: stem != "" && ending in endings && LastComponent(path) == stem + "." + ending
  }

  lemma SuffixMeans(path: string, ending: string)
    requires ending != "" && '.' !in ending
    ensures Suffix(path) == "." + ending <==> EndsIn(path, {ending})
  {
    hide LastComponent, LastDot;
    var name := LastComponent(path);
    DotFound(name);
    if Suffix(path) == "." + ending {
      var i := LastDot(name).value;
      assert name[i + 1..] == name[i..][1..] == ending;
      assert name == name[..i] + "." + ending;
    }
    if EndsIn(path, {ending}) {
      var stem, e :| stem != "" && e in {ending} && name == stem + "." + e;
      DotIsLast(stem, e);
      assert name[|stem|..] == "." + e;
    }
  }

  lemma EndsInOne(path: string, endings: set<string>)
    ensures EndsIn(path, endings) <==> exists ending :: ending in endings && EndsIn(path, {ending})
  {
    if EndsIn(path, endings) {
      var stem, ending :| stem != "" && ending in endings && LastComponent(path) == stem + "." + ending;
      assert ending in {ending};
      assert EndsIn(path, {ending});
    }
    if ending :| ending in endings && EndsIn(path, {ending}) {
      var stem, e :| stem != "" && e in {ending} && LastComponent(path) == stem + "." + e;
      assert e in endings;
    }
  }

  lemma SuffixIn(path: string, endings: set<string>, suffixes: set<string>)
    requires forall e :: e in endings ==> e != "" && '.' !in e && "." + e in suffixes
    requires forall s :: s in suffixes ==> exists e :: e in endings && s == "." + e
    ensures Suffix(path) in suffixes <==> EndsIn(path, endings)
  {
    hide Suffix, EndsIn;
    EndsInOne(path, endings);
    forall e | e in endings ensures Suffix(path) == "." + e <==> EndsIn(path, {e}) { SuffixMeans(path, e); }
  }

  /** A source is what ends in one of five ways. */
  lemma IsSourceMeans(path: string)
    ensures IsSource(path) <==> EndsIn(path, {"c", "cc", "cpp", "cxx", "C"})
  {
    hide Suffix, EndsIn;
    var (endings, suffixes) := ({"c", "cc", "cpp", "cxx", "C"}, {".c", ".cc", ".cpp", ".cxx", ".C"});
    assert "." + "c" == ".c" && "." + "cc" == ".cc" && "." + "cpp" == ".cpp" && "." + "cxx" == ".cxx" && "." + "C" == ".C";
    SuffixIn(path, endings, suffixes);
  }

  lemma IsObjectMeans(path: string)
    ensures Suffix(path) in OBJECT_SUFFIXES <==> EndsIn(path, {"o", "obj", "a", "so", "dylib"})
  {
    hide Suffix, EndsIn;
    var (endings, suffixes) := ({"o", "obj", "a", "so", "dylib"}, {".o", ".obj", ".a", ".so", ".dylib"});
    assert "." + "o" == ".o" && "." + "obj" == ".obj" && "." + "a" == ".a" && "." + "so" == ".so" && "." + "dylib" == ".dylib";
    SuffixIn(path, endings, suffixes);
  }

  /** What a compile leaves to the link: sources, outputs, objects and libraries, and the linker's options. */
  ghost predicate LeftToLink(argument: string) {
    || EndsIn(argument, {"c", "cc", "cpp", "cxx", "C"}) || EndsIn(argument, {"o", "obj", "a", "so", "dylib"})
    || "-o" <= argument || "-l" <= argument || "-L" <= argument || "-Wl," <= argument || "-fuse-ld=" <= argument
    || argument in {"-shared", "-static", "-static-libgcc", "-static-libstdc++", "-pie", "-rdynamic", "-s", "-Xlinker", "-u", "-T"}
  }

  /** And what takes the argument behind it along. */
  ghost predicate TakesNext(argument: string) {
    !EndsIn(argument, {"c", "cc", "cpp", "cxx", "C"}) && argument in {"-o", "-Xlinker", "-u", "-T"}
  }

  lemma PrefixesMean(argument: string)
    ensures StartsWithAny(argument, LINK_ONLY_PREFIXES) <==>
            "-l" <= argument || "-L" <= argument || "-Wl," <= argument || "-fuse-ld=" <= argument
  {
    var p := LINK_ONLY_PREFIXES;
    assert p[0] == "-l" && p[1] == "-L" && p[2] == "-Wl," && p[3] == "-fuse-ld=" && |p| == 4;
  }

  lemma DroppedMeans(argument: string)
    ensures Dropped(argument) <==> LeftToLink(argument)
    ensures TakesValue(argument) <==> TakesNext(argument)
  {
    hide EndsIn, Suffix, IsSource, StartsWithAny;
    IsSourceMeans(argument);
    IsObjectMeans(argument);
    PrefixesMean(argument);
  }

  /** Argument by argument: one that is left to the link goes, with the argument behind it where it takes one
      along, and every other stays, at its place. */
  lemma {:induction false} FlagsArgumentwise(a: seq<string>, x: string, b: seq<string>)
    requires Complete(a)
    ensures !TakesNext(x) ==>
              CompileFlags(a + [x] + b) == CompileFlags(a) + (if LeftToLink(x) then [] else [x]) + CompileFlags(b)
    ensures TakesNext(x) && b != [] ==> CompileFlags(a + [x] + b) == CompileFlags(a) + CompileFlags(b[1..])
    ensures TakesNext(x) && b == [] ==> CompileFlags(a + [x] + b) == CompileFlags(a)
  {
    hide LeftToLink, TakesNext, TakesValue, Dropped, CompileFlags;
    DroppedMeans(x);
    AloneKept(x);
    if !TakesNext(x) {
      OneArgument(a, [x], b);
    } else if b == [] {
      OneArgument(a, [], [x]);
      assert a + [] + [x] == a + [x] + b;
    } else {
      PairKept(x, b[0]);
      OneArgument(a, [x, b[0]], b[1..]);
      assert a + [x, b[0]] + b[1..] == a + [x] + b;
    }
  }

  lemma {:induction false} AloneKept(x: string)
    ensures IsValue(TakesValue, [x], 1) == TakesValue(x)
    ensures CompileFlags([x]) == if Dropped(x) then [] else [x]
    ensures CompileFlags([]) == [] && Complete([]) && (TakesValue(x) ==> Dropped(x))
  {
    hide IsSource, StartsWithAny, Suffix;
    assert Kept(TakesValue, Dropped, [x], 0) == [];
  }

  lemma {:induction false} PairKept(x: string, v: string)
    requires TakesValue(x)
    ensures Complete([x, v]) && CompileFlags([x, v]) == []
  {
    hide IsSource, StartsWithAny, Suffix;
    var args := [x, v];
    assert Dropped(x);
    assert IsValue(TakesValue, args, 1);
    assert Kept(TakesValue, Dropped, args, 0) == [];
    assert Kept(TakesValue, Dropped, args, 1) == [];
  }

  lemma OneArgument(a: seq<string>, between: seq<string>, b: seq<string>)
    requires Complete(a) && Complete(between)
    ensures CompileFlags(a + between + b) == CompileFlags(a) + CompileFlags(between) + CompileFlags(b)
  {
    hide IsValue, Kept;
    KeptSplits(TakesValue, Dropped, a, between, |between|);
    KeptSplits(TakesValue, Dropped, a + between, b, |b|);
  }

  // ------------------------------------------------------------------- the output

  /** Where the command names an output: behind `-o`, or in the same argument. */
  ghost predicate NamesOutput(arguments: seq<string>, i: nat, output: string)
    requires i < |arguments|
  {
    || (arguments[i] == "-o" && i + 1 < |arguments| && output == arguments[i + 1])
    || (output != "" && arguments[i] == "-o" + output)
  }

  /** `find_output`: the first output the command names. */
  method FindOutput(arguments: seq<string>) returns (r: Option<string>)
    ensures r.Some? <==> exists i, output :: 0 <= i < |arguments| && NamesOutput(arguments, i, output)
    ensures r.Some? ==> exists i :: 0 <= i < |arguments| && NamesOutput(arguments, i, r.value)
                                    && forall j, other :: 0 <= j < i ==> !NamesOutput(arguments, j, other)
  {
    for index := 0 to |arguments|
      invariant forall j, other :: 0 <= j < index ==> !NamesOutput(arguments, j, other)
    {
      var arg := arguments[index];
      if arg == "-o" && index + 1 < |arguments| {
        assert NamesOutput(arguments, index, arguments[index + 1]);
        return Some(arguments[index + 1]);
      }
      if "-o" <= arg && |arg| > 2 {
        assert arg == "-o" + arg[2..];
        assert NamesOutput(arguments, index, arg[2..]);
        return Some(arg[2..]);
      }
    }
    r := None;
  }
}
