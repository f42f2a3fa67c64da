/** How a dependency file is cut up, in terms of its text: continuations, lines, the colon, and words with the quotation
    marks and backslashes of the shell. */
module DepfileText {
  import opened Wrappers
  import opened Depfile

  // ------------------------------------------------------------------------ the pieces

  /** A continuation becomes a space, wherever it stands; nothing else changes. */
  lemma {:induction false} ContinuationsMean(a: string, b: string)
    ensures JoinContinuations(a + "\\\n" + b) == JoinContinuations(a) + " " + JoinContinuations(b)
    decreases |a|
  {
    var s := a + "\\\n" + b;
    if a == "" {
      assert s[0] == '\\' && s[1] == '\n' && s[2..] == b;
    } else if |a| >= 2 && a[0] == '\\' && a[1] == '\n' {
      assert s[2..] == a[2..] + "\\\n" + b;
      ContinuationsMean(a[2..], b);
    } else {
      assert s[1..] == a[1..] + "\\\n" + b;
      if |a| == 1 { assert s[1] == '\\'; }
      ContinuationsMean(a[1..], b);
    }
  }

  lemma {:induction false} NothingContinued(s: string)
    requires forall i :: 0 <= i < |s| - 1 ==> !(s[i] == '\\' && s[i + 1] == '\n')
    ensures JoinContinuations(s) == s
    decreases |s|
  {
    if s != "" {
      assert |s| >= 2 ==> !(s[0] == '\\' && s[0 + 1] == '\n');
      NothingContinued(s[1..]);
    }
  }

  /** An escaped space becomes a space, wherever it stands; nothing else changes. */
  lemma {:induction false} EscapedSpacesMean(a: string, b: string)
    ensures UnescapeSpaces(a + "\\ " + b) == UnescapeSpaces(a) + " " + UnescapeSpaces(b)
    decreases |a|
  {
    var s := a + "\\ " + b;
    if a == "" {
      assert s[0] == '\\' && s[1] == ' ' && s[2..] == b;
    } else if |a| >= 2 && a[0] == '\\' && a[1] == ' ' {
      assert s[2..] == a[2..] + "\\ " + b;
      EscapedSpacesMean(a[2..], b);
    } else {
      assert s[1..] == a[1..] + "\\ " + b;
      if |a| == 1 { assert s[1] == '\\'; }
      EscapedSpacesMean(a[1..], b);
    }
  }

  lemma {:induction false} NothingEscaped(s: string)
    requires forall i :: 0 <= i < |s| - 1 ==> !(s[i] == '\\' && s[i + 1] == ' ')
    ensures UnescapeSpaces(s) == s
    decreases |s|
  {
    if s != "" {
      assert |s| >= 2 ==> !(s[0] == '\\' && s[0 + 1] == ' ');
      NothingEscaped(s[1..]);
    }
  }

  /** The characters `str.splitlines` breaks a line at. */
  ghost predicate BreaksLine(c: char) {
    || c == '\n' || c == '\r' || c == '\U{000b}' || c == '\U{000c}' || c == '\U{001c}' || c == '\U{001d}'
    || c == '\U{001e}' || c == '\U{0085}' || c == '\U{2028}' || c == '\U{2029}'
  }

  /** The first line is the text up to the first of these. */
  lemma {:induction false} FirstLineMeans(line: string, rest: string)
    requires (forall i :: 0 <= i < |line| ==> !BreaksLine(line[i])) && (rest == "" || BreaksLine(rest[0]))
    ensures FirstLine(line + rest) == line
  {
    FirstLineOf(line, rest);
  }

  lemma {:induction false} ColonMeans(a: string, b: string)
    requires ':' !in a
    ensures AfterColon(a + ":" + b) == Some(b) && AfterColon(a) == None
  {
    AfterTarget(a, b);
    NoColon(a);
  }

  lemma {:induction false} NoColon(s: string)
    requires ':' !in s
    ensures AfterColon(s) == None
  {
    if s != "" { NoColon(s[1..]); }
  }

  /** What a printed path may hold: anything but line breaks, blanks, quotation marks and backslashes. */
  lemma PlainMeans(c: char)
    ensures IsPlain(c) <==> !BreaksLine(c) && c != ' ' && c != '\t' && c != '\'' && c != '"' && c != '\\'
  {}

  /** An escaped space in the list of a rule does not hold a path together: the paths around it are two. */
  lemma {:induction false} EscapedSpaceSplits(target: string, a: string, b: string)
    requires PlainTarget(target) && PlainPath(a) && PlainPath(b)
    ensures Parse(target + ": " + a + "\\ " + b) == Some([a, b])
  {
    hide Lex, FlatText, Flat, Paths, JoinContinuations, FirstLine, AfterColon, UnescapeSpaces, IsLineBreak, IsPlain,
         DropEmpty;
    var (text, list) := (target + ": " + a + "\\ " + b, " " + a + "\\ " + b);
    PlainIsClean(a);
    PlainIsClean(b);
    JoinsNothing(target + ": " + a, b);
    assert text == target + ": " + a + "\\ " + b;
    NoBreak(target, a, b);
    FirstLineOf(text, "");
    assert text + "" == text == target + ":" + list;
    AfterTarget(target, list);
    EscapedSpacesMean(" " + a, b);
    assert list == (" " + a) + "\\ " + b;
    NothingToUnescape(" " + a);
    NothingToUnescape(b);
    TwoPaths(a, b);
  }

  lemma PlainIsClean(path: string)
    requires PlainPath(path)
    ensures forall i :: 0 <= i < |path| ==> path[i] != '\\' && !IsLineBreak(path[i])
  {}

  lemma {:induction false} JoinsLone(back: string)
    requires forall i :: 0 <= i < |back| ==> back[i] != '\\'
    ensures JoinContinuations("\\ " + back) == "\\ " + back
  {
    var s := "\\ " + back;
    assert s[0] == '\\' && s[1] == ' ' && s[1..] == " " + back + "";
    JoinPlain(" " + back, "");
  }

  lemma {:induction false} JoinsNothing(front: string, back: string)
    requires (forall i :: 0 <= i < |front| ==> front[i] != '\\') && forall i :: 0 <= i < |back| ==> back[i] != '\\'
    ensures JoinContinuations(front + "\\ " + back) == front + "\\ " + back
  {
    hide JoinContinuations;
    assert front + "\\ " + back == front + ("\\ " + back);
    JoinPlain(front, "\\ " + back);
    JoinsLone(back);
  }

  lemma NoBreak(target: string, a: string, b: string)
    requires PlainTarget(target)
    requires forall i :: 0 <= i < |a| ==> !IsLineBreak(a[i])
    requires forall i :: 0 <= i < |b| ==> !IsLineBreak(b[i])
    ensures var text := target + ": " + a + "\\ " + b; forall i :: 0 <= i < |text| ==> !IsLineBreak(text[i])
  {
    assert !IsLineBreak(':') && !IsLineBreak(' ') && !IsLineBreak('\\');
    hide IsLineBreak;
    assert ": " == [':', ' '] && "\\ " == ['\\', ' '];
  }

  lemma OneSpace()
    ensures Flat([Space]) == " " && Flat([]) == ""
  {
    assert [Space][1..] == [];
    assert Flat([Space]) == " " + Flat([]);
  }

  lemma OnePath(path: string)
    ensures FlatText([Prerequisite([Space], path)]) == " " + path && Paths([Prerequisite([Space], path)]) == [path]
  {
    var item := Prerequisite([Space], path);
    OneSpace();
    assert [item][1..] == [];
    assert FlatText([item]) == Flat(item.gaps) + path + FlatText([]);
  }

  lemma {:induction false} TwoPaths(a: string, b: string)
    requires PlainPath(a) && PlainPath(b)
    ensures Lex(" " + a + " " + b, Between, "", false) == Some([a, b]) && DropEmpty([a, b]) == [a, b]
  {
    hide Lex, IsPlain;
    var (first, second) := (Prerequisite([Space], a), Prerequisite([Space], b));
    LexItems([first, second], []);
    DropNothing([first, second]);
    assert [first, second][1..] == [second] && [second][1..] == [];
    OnePath(b);
    OneSpace();
    assert Paths([first, second]) == [a] + Paths([second]) == [a, b];
    assert FlatText([first, second]) == Flat([Space]) + a + FlatText([second]);
    assert FlatText([first, second]) + Flat([]) == " " + a + " " + b;
  }

  // ------------------------------------------------------------------------- the words

  /** A piece of a word as the shell writes it: a character as it is or behind a backslash, or a stretch between
      quotation marks. */
  datatype Piece = Bare(c: char) | Escape(c: char) | Single(text: string) | Double(text: string)

  predicate WellFormed(p: Piece) {
    match p
    case Bare(c) => c != ' ' && c != '\t' && c != '\r' && c != '\n' && c != '\'' && c != '"' && c != '\\'
    case Escape(_) => true
    case Single(text) => '\'' !in text
    case Double(_) => true
  }

  /** Between double quotation marks, only a quotation mark and a backslash are escaped. */
  function Guarded(text: string): string {
    if text == "" then ""
    else (if text[0] == '"' || text[0] == '\\' then ['\\', text[0]] else [text[0]]) + Guarded(text[1..])
  }

  function PieceText(p: Piece): string {
    match p
    case Bare(c) => [c]
    case Escape(c) => ['\\', c]
    case Single(text) => "'" + text + "'"
    case Double(text) => "\"" + Guarded(text) + "\""
  }

  function PieceValue(p: Piece): string {
    match p
    case Bare(c) => [c]
    case Escape(c) => [c]
    case Single(text) => text
    case Double(text) => text
  }

  function WordText(word: seq<Piece>): string {
    if word == [] then "" else PieceText(word[0]) + WordText(word[1..])
  }

  function WordValue(word: seq<Piece>): string {
    if word == [] then "" else PieceValue(word[0]) + WordValue(word[1..])
  }

  function Text(words: seq<seq<Piece>>): string {
    if words == [] then "" else WordText(words[0]) + " " + Text(words[1..])
  }

  function Values(words: seq<seq<Piece>>): seq<string> {
    if words == [] then [] else [WordValue(words[0])] + Values(words[1..])
  }

  predicate IsQuotation(p: Piece) {
    p.Single? || p.Double?
  }

  lemma {:induction false} LexSingle(text: string, rest: string, token: string)
    requires '\'' !in text
    ensures Lex(text + "'" + rest, Quoted('\''), token, true) == Lex(rest, InWord, token + text, true)
    decreases |text|
  {
    var s := text + "'" + rest;
    if text == "" {
      assert s[0] == '\'' && s[1..] == rest && token + text == token;
    } else {
      assert s[1..] == text[1..] + "'" + rest && text[0] in text;
      assert token + [text[0]] + text[1..] == token + text;
      LexSingle(text[1..], rest, token + [text[0]]);
    }
  }

  lemma {:induction false} LexDouble(text: string, rest: string, token: string)
    ensures Lex(Guarded(text) + "\"" + rest, Quoted('"'), token, true) == Lex(rest, InWord, token + text, true)
    decreases |text|
  {
    var s := Guarded(text) + "\"" + rest;
    if text == "" {
      assert s[0] == '"' && s[1..] == rest && token + text == token;
    } else {
      var tail := Guarded(text[1..]) + "\"" + rest;
      assert token + [text[0]] + text[1..] == token + text;
      LexDouble(text[1..], rest, token + [text[0]]);
      if text[0] == '"' || text[0] == '\\' {
        assert s[0] == '\\' && s[1..][0] == text[0] && s[1..][1..] == tail;
      } else {
        assert s[0] == text[0] && s[1..] == tail;
      }
    }
  }

  /** A backslash takes the next character as it is. */
  lemma {:induction false} LexEscape(s: string, token: string, quoted: bool)
    requires |s| >= 2 && s[0] == '\\'
    ensures Lex(s, InWord, token, quoted) == Lex(s[2..], InWord, token + [s[1]], quoted)
  {
    assert s[1..][0] == s[1] && s[1..][1..] == s[2..];
    assert Lex(s, InWord, token, quoted) == Lex(s[1..], Escaped(InWord), token, quoted);
  }

  lemma {:induction false} LexOpen(s: string, token: string, quoted: bool)
    requires s != "" && (s[0] == '\'' || s[0] == '"')
    ensures Lex(s, InWord, token, quoted) == Lex(s[1..], Quoted(s[0]), token, true)
  {}

  lemma {:induction false} LexBare(s: string, token: string, quoted: bool)
    requires s != "" && WellFormed(Bare(s[0]))
    ensures Lex(s, InWord, token, quoted) == Lex(s[1..], InWord, token + [s[0]], quoted)
  {}

  lemma {:induction false} LexPiece(p: Piece, rest: string, token: string, quoted: bool)
    requires WellFormed(p)
    ensures Lex(PieceText(p) + rest, InWord, token, quoted)
            == Lex(rest, InWord, token + PieceValue(p), quoted || IsQuotation(p))
  {
    hide Lex, Guarded;
    var s := PieceText(p) + rest;
    match p {
      case Bare(c) =>
        assert s[0] == c && s[1..] == rest;
        LexBare(s, token, quoted);
      case Escape(c) =>
        assert s[0] == '\\' && s[1] == c && s[2..] == rest;
        LexEscape(s, token, quoted);
      case Single(text) =>
        assert s[0] == '\'' && s[1..] == text + "'" + rest;
        LexOpen(s, token, quoted);
        LexSingle(text, rest, token);
      case Double(text) =>
        assert s[0] == '"' && s[1..] == Guarded(text) + "\"" + rest;
        LexOpen(s, token, quoted);
        LexDouble(text, rest, token);
    }
  }

  /** The first piece of a word is read from between words like any other within one. */
  lemma {:induction false} LexFirst(p: Piece, rest: string)
    requires WellFormed(p)
    ensures Lex(PieceText(p) + rest, Between, "", false) == Lex(PieceText(p) + rest, InWord, "", false)
  {
    var s := PieceText(p) + rest;
    assert "" + [s[0]] == [s[0]];
  }

  lemma {:induction false} LexPieces(word: seq<Piece>, rest: string, token: string, quoted: bool)
    requires forall p :: p in word ==> WellFormed(p)
    ensures Lex(WordText(word) + rest, InWord, token, quoted)
            == Lex(rest, InWord, token + WordValue(word), quoted || exists p :: p in word && IsQuotation(p))
  {
    hide Lex, WellFormed, PieceText, PieceValue, IsQuotation;
    if word == [] {
      assert WordText(word) + rest == rest && token + WordValue(word) == token;
    } else {
      var (p, more) := (word[0], WordText(word[1..]) + rest);
      assert WordText(word) + rest == PieceText(p) + more;
      LexPiece(p, more, token, quoted);
      LexPieces(word[1..], rest, token + PieceValue(p), quoted || IsQuotation(p));
      assert token + PieceValue(p) + WordValue(word[1..]) == token + WordValue(word);
      assert forall q :: q in word <==> q == p || q in word[1..];
    }
  }

  /** A word that is not nothing: it has a character, or a quotation, which may be empty. */
  predicate IsThere(word: seq<Piece>) {
    word != [] && (WordValue(word) != "" || exists p :: p in word && IsQuotation(p))
  }

  /** Space, tab and line ends end the word being read, and between words they are passed over. */
  lemma {:induction false} BlankEnds(blank: char, rest: string, token: string, quoted: bool)
    requires blank == ' ' || blank == '\t' || blank == '\r' || blank == '\n'
    ensures Lex([blank] + rest, InWord, token, quoted) == Emit(token, quoted, Lex(rest, Between, "", false))
    ensures Lex([blank] + rest, Between, "", false) == Lex(rest, Between, "", false)
  {
    assert ([blank] + rest)[0] == blank && ([blank] + rest)[1..] == rest;
  }

  lemma {:induction false} LexOneWord(word: seq<Piece>, rest: string)
    requires IsThere(word) && forall p :: p in word ==> WellFormed(p)
    ensures var after := Lex(rest, Between, "", false);
            Lex(WordText(word) + " " + rest, Between, "", false)
            == if after.Some? then Some([WordValue(word)] + after.value) else None
  {
    hide Lex, WellFormed, PieceText, PieceValue, IsQuotation, WordValue;
    var more := WordText(word[1..]) + (" " + rest);
    assert WordText(word) + " " + rest == PieceText(word[0]) + more == WordText(word) + (" " + rest);
    LexFirst(word[0], more);
    LexPieces(word, " " + rest, "", false);
    assert "" + WordValue(word) == WordValue(word);
    assert " " + rest == [' '] + rest;
    BlankEnds(' ', rest, WordValue(word), exists p :: p in word && IsQuotation(p));
  }

  /** Words come back as they are meant, however they are quoted or escaped. */
  lemma {:induction false} WordsComeBack(words: seq<seq<Piece>>)
    requires forall word :: word in words ==> IsThere(word) && forall p :: p in word ==> WellFormed(p)
    ensures Lex(Text(words), Between, "", false) == Some(Values(words))
  {
    hide Lex, WellFormed, IsThere;
    if words == [] {
      NothingThere();
    } else {
      assert words[0] in words;
      assert forall word :: word in words[1..] ==> word in words;
      LexOneWord(words[0], Text(words[1..]));
      WordsComeBack(words[1..]);
    }
  }

  lemma NothingThere()
    ensures Lex("", Between, "", false) == Some([])
  {}

  /** Empty words are left out, wherever they stand; nothing else is. */
  lemma {:induction false} EmptyWordsGo(a: seq<string>, word: string, b: seq<string>)
    ensures DropEmpty(a + [word] + b) == DropEmpty(a) + (if word == "" then [] else [word]) + DropEmpty(b)
  {
    if a == [] {
      assert [] + [word] + b == [word] + b && ([word] + b)[1..] == b;
    } else {
      assert (a + [word] + b)[1..] == a[1..] + [word] + b;
      EmptyWordsGo(a[1..], word, b);
    }
  }

  /** So no depfile lists the empty path. */
  lemma NoEmptyPath(text: string)
    ensures Parse(text).Some? ==> "" !in Parse(text).value
  {
    hide JoinContinuations, FirstLine, UnescapeSpaces, Lex;
    var dependencies := AfterColon(FirstLine(JoinContinuations(text)));
    if dependencies.Some? && Lex(UnescapeSpaces(dependencies.value), Between, "", false).Some? {
      NoneEmpty(Lex(UnescapeSpaces(dependencies.value), Between, "", false).value);
    }
  }

  lemma {:induction false} NoneEmpty(words: seq<string>)
    ensures "" !in DropEmpty(words)
  {
    if words != [] { NoneEmpty(words[1..]); }
  }

  /** A quotation that does not end, and a backslash with nothing behind it, are refused. */
  lemma {:induction false} OpenQuotation(text: string, token: string)
    requires '\'' !in text
    ensures Lex("'" + text, Between, "", false) == None && Lex(text, Quoted('\''), token, true) == None
    decreases |text|
  {
    var s := "'" + text;
    assert s[0] == '\'' && s[1..] == text;
    if text == "" {
      assert Lex(text, Quoted('\''), "", true) == None;
    } else {
      assert text[0] in text;
      OpenQuotation(text[1..], token + [text[0]]);
      OpenQuotation(text[1..], [] + [text[0]]);
    }
  }

  lemma LoneBackslash()
    ensures Lex("\\", Between, "", false) == None
  {
    assert "\\"[0] == '\\' && "\\"[1..] == "";
  }
}
