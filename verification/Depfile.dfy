/** Make dependency files: how the compiler prints one and how `parse_depfile` reads it back. */
module Depfile {
  import opened Wrappers

  // ---------------------------------------------------------------- reading

  predicate IsLineBreak(c: char) {
    || c == '\n' || c == '\r' || c == '\U{000b}' || c == '\U{000c}'
    || c == '\U{001c}' || c == '\U{001d}' || c == '\U{001e}'
    || c == '\U{0085}' || c == '\U{2028}' || c == '\U{2029}'
  }

  /** Whitespace as the shell lexer knows it. */
  predicate IsBlank(c: char) {
    c == ' ' || c == '\t' || c == '\r' || c == '\n'
  }

  predicate IsQuote(c: char) {
    c == '\'' || c == '"'
  }

  /** `text.replace("\\\n", " ")` */
  function JoinContinuations(s: string): string {
    if s == [] then []
    else if |s| >= 2 && s[0] == '\\' && s[1] == '\n' then [' '] + JoinContinuations(s[2..])
    else [s[0]] + JoinContinuations(s[1..])
  }

  /** `text.splitlines()[0]`, or the empty string. */
  function FirstLine(s: string): string {
    if s == [] || IsLineBreak(s[0]) then [] else [s[0]] + FirstLine(s[1..])
  }

  /** What follows the first colon, if there is one. */
  function AfterColon(s: string): Option<string> {
    if s == [] then None
    else if s[0] == ':' then Some(s[1..])
    else AfterColon(s[1..])
  }

  /** `dependencies.replace("\\ ", " ")` */
  function UnescapeSpaces(s: string): string {
    if s == [] then []
    else if |s| >= 2 && s[0] == '\\' && s[1] == ' ' then [' '] + UnescapeSpaces(s[2..])
    else [s[0]] + UnescapeSpaces(s[1..])
  }

  /** Where the shell lexer is: between words, in a word, in a quotation, or just after a backslash. */
  datatype LexState = Between | InWord | Quoted(mark: char) | Escaped(back: LexState)

  function Emit(token: string, quoted: bool, rest: Option<seq<string>>): Option<seq<string>> {
    match rest
    case None => None
    case Some(ts) => Some(if token != "" || quoted then [token] + ts else ts)
  }

  /** `shlex.split` in POSIX mode; None where it raises ValueError. */
  function Lex(s: string, state: LexState, token: string, quoted: bool): Option<seq<string>> {
    if s == [] then
      if state.Quoted? || state.Escaped? then None else Emit(token, quoted, Some([]))
    else
      var c := s[0];
      match state
      case Between =>
        if IsBlank(c) then Lex(s[1..], Between, "", false)
        else if c == '\\' then Lex(s[1..], Escaped(InWord), "", false)
        else if IsQuote(c) then Lex(s[1..], Quoted(c), "", true)
        else Lex(s[1..], InWord, [c], false)
      case InWord =>
        if IsBlank(c) then Emit(token, quoted, Lex(s[1..], Between, "", false))
        else if IsQuote(c) then Lex(s[1..], Quoted(c), token, true)
        else if c == '\\' then Lex(s[1..], Escaped(InWord), token, quoted)
        else Lex(s[1..], InWord, token + [c], quoted)
      case Quoted(mark) =>
        if c == mark then Lex(s[1..], InWord, token, true)
        else if c == '\\' && mark == '"' then Lex(s[1..], Escaped(state), token, true)
        else Lex(s[1..], state, token + [c], true)
      case Escaped(back) =>
        var kept := if back.Quoted? && c != '\\' && c != back.mark then token + ['\\'] else token;
        Lex(s[1..], back, kept + [c], quoted)
  }

  function DropEmpty(tokens: seq<string>): seq<string> {
    if tokens == [] then []
    else (if tokens[0] == "" then [] else [tokens[0]]) + DropEmpty(tokens[1..])
  }

  /** `parse_depfile` on the decoded text; None where the lexer raises. */
  function Parse(text: string): Option<seq<string>> {
    match AfterColon(FirstLine(JoinContinuations(text)))
    case None => Some([])
    case Some(dependencies) =>
      match Lex(UnescapeSpaces(dependencies), Between, "", false)
      case None => None
      case Some(tokens) => Some(DropEmpty(tokens))
  }

  // --------------------------------------------------------------- printing

  /** One piece of the white space a Make rule may put between prerequisites. */
  datatype Gap = Space | Tab | Continued

  function GapText(g: Gap): string {
    match g
    case Space => " "
    case Tab => "\t"
    case Continued => "\\\n"
  }

  function GapsText(gaps: seq<Gap>): string {
    if gaps == [] then "" else GapText(gaps[0]) + GapsText(gaps[1..])
  }

  /** A prerequisite together with the white space printed before it. */
  datatype Prerequisite = Prerequisite(gaps: seq<Gap>, path: string)

  function PrerequisitesText(items: seq<Prerequisite>): string {
    if items == [] then ""
    else GapsText(items[0].gaps) + items[0].path + PrerequisitesText(items[1..])
  }

  /** A printed rule: target, prerequisites, trailing white space, and whatever text (phony rules, as
      `-MP` asks for) follows on later lines. */
  datatype Rule = Rule(target: string, items: seq<Prerequisite>, trailing: seq<Gap>, later: string)

  function Print(rule: Rule): string {
    rule.target + ":" + PrerequisitesText(rule.items) + GapsText(rule.trailing) + "\n" + rule.later
  }

  function Paths(items: seq<Prerequisite>): seq<string> {
    if items == [] then [] else [items[0].path] + Paths(items[1..])
  }

  /** Characters that neither the lexer nor the line splitter treats specially. */
  predicate IsPlain(c: char) {
    !IsLineBreak(c) && !IsBlank(c) && !IsQuote(c) && c != '\\'
  }

  ghost predicate PlainPath(p: string) {
    p != "" && forall i :: 0 <= i < |p| ==> IsPlain(p[i])
  }

  ghost predicate PlainTarget(t: string) {
    forall i :: 0 <= i < |t| ==> t[i] != ':' && t[i] != '\\' && !IsLineBreak(t[i])
  }

  /** Every path is plain, and some white space separates each from the one before. */
  ghost predicate WellPrinted(rule: Rule) {
    && PlainTarget(rule.target)
    && forall i :: 0 <= i < |rule.items| ==>
         PlainPath(rule.items[i].path) && (i > 0 ==> rule.items[i].gaps != [])
  }

  // ------------------------------------------------------ reading what was printed

  /** The same rule body with every continuation already turned into a space. */
  function Flat(gaps: seq<Gap>): string {
    if gaps == [] then "" else (if gaps[0].Tab? then "\t" else " ") + Flat(gaps[1..])
  }

  function FlatText(items: seq<Prerequisite>): string {
    if items == [] then "" else Flat(items[0].gaps) + items[0].path + FlatText(items[1..])
  }

  lemma {:induction false} JoinPlain(p: string, rest: string)
    requires forall i :: 0 <= i < |p| ==> p[i] != '\\'
    ensures JoinContinuations(p + rest) == p + JoinContinuations(rest)
  {
    if p == [] {
      assert p + rest == rest;
    } else {
      assert (p + rest)[1..] == p[1..] + rest;
      JoinPlain(p[1..], rest);
    }
  }

  lemma {:induction false} JoinGap(gap: Gap, rest: string)
    ensures JoinContinuations(GapText(gap) + rest) == (if gap.Tab? then "\t" else " ") + JoinContinuations(rest)
  {
    var s := GapText(gap) + rest;
    assert s[|GapText(gap)|..] == rest;
    match gap {
      case Space => assert s[0] == ' ';
      case Tab => assert s[0] == '\t';
      case Continued => assert s[0] == '\\' && s[1] == '\n';
    }
  }

  lemma {:induction false} JoinGaps(gaps: seq<Gap>, rest: string)
    ensures JoinContinuations(GapsText(gaps) + rest) == Flat(gaps) + JoinContinuations(rest)
  {
    hide JoinContinuations, GapText;
    if gaps == [] {
      assert GapsText(gaps) + rest == rest;
    } else {
      var tail := GapsText(gaps[1..]) + rest;
      assert GapsText(gaps) + rest == GapText(gaps[0]) + tail;
      JoinGap(gaps[0], tail);
      JoinGaps(gaps[1..], rest);
    }
  }

  lemma Regroup(a: string, b: string, c: string, d: string)
    ensures a + b + c + d == a + (b + (c + d))
  {}

  lemma {:induction false} JoinItems(items: seq<Prerequisite>, rest: string)
    requires forall i :: 0 <= i < |items| ==> PlainPath(items[i].path)
    ensures JoinContinuations(PrerequisitesText(items) + rest) == FlatText(items) + JoinContinuations(rest)
  {
    if items == [] {
      assert PrerequisitesText(items) + rest == rest;
    } else {
      var (gaps, path, more) := (GapsText(items[0].gaps), items[0].path, PrerequisitesText(items[1..]));
      Regroup(gaps, path, more, rest);
      JoinGaps(items[0].gaps, path + (more + rest));
      JoinPlain(path, more + rest);
      JoinItems(items[1..], rest);
      Regroup(Flat(items[0].gaps), path, FlatText(items[1..]), JoinContinuations(rest));
    }
  }

  lemma {:induction false} FirstLineOf(line: string, rest: string)
    requires forall i :: 0 <= i < |line| ==> !IsLineBreak(line[i])
    requires rest == [] || IsLineBreak(rest[0])
    ensures FirstLine(line + rest) == line
  {
    if line != [] {
      assert (line + rest)[1..] == line[1..] + rest;
      FirstLineOf(line[1..], rest);
    } else {
      assert line + rest == rest;
    }
  }

  lemma {:induction false} AfterTarget(target: string, rest: string)
    requires forall i :: 0 <= i < |target| ==> target[i] != ':'
    ensures AfterColon(target + ":" + rest) == Some(rest)
  {
    var s := target + ":" + rest;
    if target == [] {
      assert s[1..] == rest;
    } else {
      assert s[1..] == target[1..] + ":" + rest;
      AfterTarget(target[1..], rest);
    }
  }

  lemma {:induction false} NothingToUnescape(s: string)
    requires forall i :: 0 <= i < |s| ==> s[i] != '\\'
    ensures UnescapeSpaces(s) == s
  {
    if s != [] { NothingToUnescape(s[1..]); }
  }

  lemma {:induction false} FlatIsClean(gaps: seq<Gap>)
    ensures forall i :: 0 <= i < |Flat(gaps)| ==> Flat(gaps)[i] == ' ' || Flat(gaps)[i] == '\t'
  {
    if gaps != [] { FlatIsClean(gaps[1..]); }
  }

  lemma {:induction false} FlatTextIsClean(items: seq<Prerequisite>)
    requires forall i :: 0 <= i < |items| ==> PlainPath(items[i].path)
    ensures forall i :: 0 <= i < |FlatText(items)| ==>
              FlatText(items)[i] != '\\' && !IsLineBreak(FlatText(items)[i])
  {
    if items != [] {
      FlatIsClean(items[0].gaps);
      FlatTextIsClean(items[1..]);
    }
  }

  lemma {:induction false} LexGaps(gaps: seq<Gap>, rest: string)
    ensures Lex(Flat(gaps) + rest, Between, "", false) == Lex(rest, Between, "", false)
  {
    if gaps == [] {
      assert Flat(gaps) + rest == rest;
    } else {
      assert (Flat(gaps) + rest)[1..] == Flat(gaps[1..]) + rest;
      LexGaps(gaps[1..], rest);
    }
  }

  lemma {:induction false} LexWord(token: string, p: string, rest: string)
    requires forall i :: 0 <= i < |p| ==> IsPlain(p[i])
    ensures Lex(p + rest, InWord, token, false) == Lex(rest, InWord, token + p, false)
    decreases p
  {
    if p == [] {
      assert p + rest == rest && token + p == token;
    } else {
      assert (p + rest)[1..] == p[1..] + rest;
      assert token + [p[0]] + p[1..] == token + p;
      LexWord(token + [p[0]], p[1..], rest);
    }
  }

  lemma {:induction false} LexPath(p: string, rest: string)
    requires PlainPath(p)
    requires rest == [] || IsBlank(rest[0])
    ensures Lex(p + rest, Between, "", false) == Emit(p, false, Lex(rest, Between, "", false))
  {
    assert (p + rest)[1..] == p[1..] + rest;
    assert [p[0]] + p[1..] == p;
    LexWord([p[0]], p[1..], rest);
  }

  lemma {:induction false} LexItem(item: Prerequisite, more: string)
    requires PlainPath(item.path)
    requires more == [] || IsBlank(more[0])
    ensures var after := Lex(more, Between, "", false);
            Lex(Flat(item.gaps) + (item.path + more), Between, "", false)
            == if after.Some? then Some([item.path] + after.value) else None
  {
    hide Lex;
    LexGaps(item.gaps, item.path + more);
    LexPath(item.path, more);
  }

  lemma {:induction false} StartsBlank(items: seq<Prerequisite>, trailing: seq<Gap>)
    requires items != [] ==> items[0].gaps != []
    ensures var text := FlatText(items) + Flat(trailing); text == [] || IsBlank(text[0])
  {}

  lemma {:induction false} LexNothing(trailing: seq<Gap>)
    ensures Lex(FlatText([]) + Flat(trailing), Between, "", false) == Some([])
  {
    assert FlatText([]) + Flat(trailing) == Flat(trailing) + "";
    LexGaps(trailing, "");
  }

  lemma {:induction false} LexItems(items: seq<Prerequisite>, trailing: seq<Gap>)
    requires forall i :: 0 <= i < |items| ==>
               PlainPath(items[i].path) && (i > 0 ==> items[i].gaps != [])
    ensures Lex(FlatText(items) + Flat(trailing), Between, "", false) == Some(Paths(items))
  {
    hide Lex, IsBlank, Flat, PlainPath;
    if items == [] {
      LexNothing(trailing);
    } else {
      var rest := FlatText(items[1..]) + Flat(trailing);
      assert FlatText(items) + Flat(trailing) == Flat(items[0].gaps) + (items[0].path + rest);
      StartsBlank(items[1..], trailing);
      LexItem(items[0], rest);
      LexItems(items[1..], trailing);
    }
  }

  lemma {:induction false} DropNothing(items: seq<Prerequisite>)
    requires forall i :: 0 <= i < |items| ==> items[i].path != ""
    ensures DropEmpty(Paths(items)) == Paths(items)
  {
    if items != [] { DropNothing(items[1..]); }
  }

  /** The logical lines of a printed rule: its own, and those that follow. */
  lemma JoinedPrint(rule: Rule)
    requires WellPrinted(rule)
    ensures JoinContinuations(Print(rule)) ==
            rule.target + ":" + (FlatText(rule.items) + Flat(rule.trailing)) + JoinContinuations("\n" + rule.later)
  {
    hide JoinContinuations, FlatText, Flat, GapsText, PrerequisitesText;
    var (head, end) := (rule.target + ":", "\n" + rule.later);
    var (items, trailing) := (PrerequisitesText(rule.items), GapsText(rule.trailing));
    Regroup(head, items, trailing, end);
    assert Print(rule) == head + items + trailing + end;
    JoinPlain(head, items + (trailing + end));
    JoinItems(rule.items, trailing + end);
    JoinGaps(rule.trailing, end);
    Regroup(head, FlatText(rule.items), Flat(rule.trailing), JoinContinuations(end));
  }

  /** The round trip: reading a printed rule gives back its prerequisites, in order, wherever the
      line continuations fall and whatever rules follow. */
  lemma ParsePrint(rule: Rule)
    requires WellPrinted(rule)
    ensures Parse(Print(rule)) == Some(Paths(rule.items))
  {
    hide Lex, Print, FlatText, Flat, Paths;
    var body := FlatText(rule.items) + Flat(rule.trailing);
    var end := "\n" + rule.later;
    JoinedPrint(rule);
    assert JoinContinuations(end)[0] == '\n';
    FlatTextIsClean(rule.items);
    FlatIsClean(rule.trailing);
    FirstLineOf(rule.target + ":" + body, JoinContinuations(end));
    AfterTarget(rule.target, body);
    NothingToUnescape(body);
    LexItems(rule.items, rule.trailing);
    DropNothing(rule.items);
  }
}
