/** What the redactor does, in terms of the characters of the line: which stretches its three patterns match, and what
    it prints in their place. */
module RedactedText {
  import opened Wrappers
  import opened Redaction
  import opened FlaggedSecrets

  /** The word is spelled out at `pos`, letter case aside. */
  ghost predicate StandsAt(s: string, pos: nat, word: string, fold: char -> char) {
    pos + |word| <= |s| && forall i :: 0 <= i < |word| ==> fold(s[pos + i]) == word[i]
  }

  ghost predicate Blank(s: string, from: nat, end: nat, space: char -> bool) {
    from <= end <= |s| && forall i :: from <= i < end ==> space(s[i])
  }

  lemma {:induction false} SkipIs(s: string, pos: nat, end: nat, space: char -> bool)
    requires Blank(s, pos, end, space) && (end < |s| ==> !space(s[end]))
    ensures SkipSpace(s, pos, space) == end
    decreases end - pos
  {
    if pos < end { SkipIs(s, pos + 1, end, space); }
  }

  // ----------------------------------------------------------------------- the header

  /** The scanner's third pattern, without what it demands before it: `authorization`, white space, a colon. */
  ghost predicate HeaderStands(s: string, pos: nat, colon: nat, fold: char -> char, space: char -> bool) {
    && StandsAt(s, pos, "authorization", fold) && pos + 13 <= colon < |s|
    && Blank(s, pos + 13, colon, space) && s[colon] == ':'
  }

  lemma ThirteenLetters()
    ensures |"authorization"| == 13
  {}

  lemma {:induction false} HeaderFound(s: string, pos: nat, fold: char -> char, space: char -> bool)
    requires pos <= |s| && !space(':')
    ensures HeaderAt(s, pos, fold, space).Some? <==> exists colon: nat :: HeaderStands(s, pos, colon, fold, space)
    ensures forall colon: nat :: colon < |s| && HeaderStands(s, pos, colon, fold, space) ==>
              HeaderAt(s, pos, fold, space) == Some(SkipSpace(s, colon + 1, space))
  {
    hide SkipSpace, HeaderStands;
    ThirteenLetters();
    if HeaderAt(s, pos, fold, space).Some? {
      assert HeaderStands(s, pos, SkipSpace(s, pos + 13, space), fold, space) by { HeaderIsThere(s, pos, fold, space); }
    }
    forall colon: nat | colon < |s| && HeaderStands(s, pos, colon, fold, space)
      ensures HeaderAt(s, pos, fold, space) == Some(SkipSpace(s, colon + 1, space))
    {
      HeaderAtColon(s, pos, colon, fold, space);
    }
    if colon: nat :| HeaderStands(s, pos, colon, fold, space) { HeaderBounds(s, pos, colon, fold, space); }
  }

  lemma {:induction false} HeaderIsThere(s: string, pos: nat, fold: char -> char, space: char -> bool)
    requires pos <= |s| && HeaderAt(s, pos, fold, space).Some?
    ensures pos + 13 <= |s| && HeaderStands(s, pos, SkipSpace(s, pos + 13, space), fold, space)
  {
    ThirteenLetters();
  }

  lemma {:induction false} HeaderAtColon(s: string, pos: nat, colon: nat, fold: char -> char, space: char -> bool)
    requires pos <= |s| && !space(':') && HeaderStands(s, pos, colon, fold, space)
    ensures HeaderAt(s, pos, fold, space) == Some(SkipSpace(s, colon + 1, space))
  {
    ThirteenLetters();
    SkipIs(s, pos + 13, colon, space);
  }

  /** The first header there is, and all behind it replaced by the mark. */
  lemma {:induction false} FirstHeader(s: string, from: nat, pos: nat, fold: char -> char,
                                       space: char -> bool) returns (q: nat, e: nat)
    requires from <= pos <= |s| && HeaderAt(s, pos, fold, space).Some?
    ensures from <= q <= pos && HeaderAt(s, q, fold, space) == Some(e) && e <= |s|
    ensures HideAuthorization(s, from, fold, space) == s[..e] + "[REDACTED]"
    decreases pos - from
  {
    hide HeaderAt;
    if HeaderAt(s, from, fold, space).Some? {
      q, e := from, HeaderAt(s, from, fold, space).value;
    } else {
      q, e := FirstHeader(s, from + 1, pos, fold, space);
    }
  }

  /** Two headers: what stands behind the colon of the earlier one does not reach into the value of the later. */
  lemma {:induction false} HeadersInOrder(s: string, q: nat, c: nat, pos: nat, colon: nat, fold: char -> char,
                                          space: char -> bool, word: char -> bool)
    requires Ordinary(fold, space, word) && q <= pos
    requires HeaderStands(s, q, c, fold, space) && HeaderStands(s, pos, colon, fold, space)
    ensures c <= colon && SkipSpace(s, c + 1, space) <= SkipSpace(s, colon + 1, space)
  {
    ThirteenLetters();
    if c > colon { ColonIsNoLetter(s, q, colon, fold, space, word); }
  }

  lemma ColonIsNoLetter(s: string, q: nat, colon: nat, fold: char -> char, space: char -> bool, word: char -> bool)
    requires Ordinary(fold, space, word) && StandsAt(s, q, "authorization", fold) && colon < |s| && s[colon] == ':'
    ensures !(q <= colon < q + 13)
  {
    ThirteenLetters();
    AuthorizationLetters();
    if q <= colon < q + 13 { LetterStands(s, q, colon - q, fold); }
  }

  lemma LetterStands(s: string, q: nat, n: nat, fold: char -> char)
    requires StandsAt(s, q, "authorization", fold) && n < |"authorization"|
    ensures q + n < |s| && IsKeyLetter(fold(s[q + n]))
  {
    AuthorizationLetters();
    var word := "authorization";
    assert fold(s[q + n]) == word[n] && IsKeyLetter(word[n]);
  }

  lemma AuthorizationLetters()
    ensures forall i :: 0 <= i < |"authorization"| ==> IsKeyLetter("authorization"[i])
  {
    assert "authorization" == ['a', 'u', 't', 'h', 'o', 'r', 'i', 'z', 'a', 't', 'i', 'o', 'n'];
  }

  /** Every header the scanner flags is dealt with: wherever it stands, the line is cut off behind the first header,
      so that nothing of its value is left. */
  lemma {:induction false} HeaderValueIsHidden(s: string, pos: nat, colon: nat, fold: char -> char,
                                               space: char -> bool, word: char -> bool)
    requires Ordinary(fold, space, word) && HeaderStands(s, pos, colon, fold, space)
    ensures exists e: nat :: e <= SkipSpace(s, colon + 1, space) && HideAuthorization(s, 0, fold, space) == s[..e] + "[REDACTED]"
  {
    hide HeaderAt, HideAuthorization, SkipSpace, HeaderStands;
    HeaderBounds(s, pos, colon, fold, space);
    HeaderFound(s, pos, fold, space);
    var q, e := FirstHeader(s, 0, pos, fold, space);
    HeaderFound(s, q, fold, space);
    var c: nat :| HeaderStands(s, q, c, fold, space);
    HeadersInOrder(s, q, c, pos, colon, fold, space, word);
  }

  lemma HeaderBounds(s: string, pos: nat, colon: nat, fold: char -> char, space: char -> bool)
    requires HeaderStands(s, pos, colon, fold, space)
    ensures pos <= colon < |s|
  {}

  /** On the text: behind the first `authorization`, white space, colon and white space of a line, in any case of
      letters, the mark stands in place of the value. */
  lemma {:induction false} AuthorizationOnText(before: string, key: string, blanks: string, more: string, value: string,
                                               fold: char -> char, space: char -> bool)
    requires !space(':') && |key| == 13 && forall i :: 0 <= i < 13 ==> fold(key[i]) == "authorization"[i]
    requires (forall c :: c in blanks ==> space(c)) && (forall c :: c in more ==> space(c))
    requires value == "" || !space(value[0])
    requires var line := before + key + blanks + ":" + more + value;
             forall q: nat, c: nat :: q < |before| ==> !HeaderStands(line, q, c, fold, space)
    ensures HideAuthorization(before + key + blanks + ":" + more + value, 0, fold, space)
            == before + key + blanks + ":" + more + "[REDACTED]"
  {
    hide HeaderAt, HideAuthorization, SkipSpace, HeaderStands;
    var head := before + key + blanks + ":" + more;
    var line := head + value;
    var colon := |before + key + blanks|;
    HeaderOnText(before, key, blanks, more, value, fold, space);
    HeaderFound(line, |before|, fold, space);
    var q, e := FirstHeader(line, 0, |before|, fold, space);
    HeaderFound(line, q, fold, space);
    assert q == |before|;
    assert line[..|head|] == head;
  }

  lemma {:induction false} HeaderOnText(before: string, key: string, blanks: string, more: string, value: string,
                                        fold: char -> char, space: char -> bool)
    requires |key| == 13 && forall i :: 0 <= i < 13 ==> fold(key[i]) == "authorization"[i]
    requires (forall c :: c in blanks ==> space(c)) && (forall c :: c in more ==> space(c))
    requires value == "" || !space(value[0])
    ensures var (line, colon) := (before + key + blanks + ":" + more + value, |before + key + blanks|);
            && HeaderStands(line, |before|, colon, fold, space)
            && SkipSpace(line, colon + 1, space) == |before + key + blanks + ":" + more|
  {
    ThirteenLetters();
    var (line, colon) := (before + key + blanks + ":" + more + value, |before + key + blanks|);
    assert forall i :: 0 <= i < 13 ==> line[|before| + i] == key[i];
    assert forall i :: 0 <= i < |blanks| ==> line[|before| + 13 + i] == blanks[i];
    forall i | |before| + 13 <= i < colon ensures space(line[i]) { assert line[i] == blanks[i - |before| - 13]; }
    var end := colon + 1 + |more|;
    forall i | colon + 1 <= i < end ensures space(line[i]) { assert line[i] == more[i - colon - 1]; }
    if end < |line| { assert line[end] == value[0]; }
    SkipIs(line, colon + 1, end, space);
  }

  /** So two lines that agree up to there have the same redacted form, whatever the credential. */
  lemma {:induction false} AuthorizationValueLeavesNoTrace(before: string, key: string, blanks: string, more: string,
                                                           value: string, other: string,
                                                           fold: char -> char, space: char -> bool)
    requires !space(':') && |key| == 13 && forall i :: 0 <= i < 13 ==> fold(key[i]) == "authorization"[i]
    requires (forall c :: c in blanks ==> space(c)) && (forall c :: c in more ==> space(c))
    requires (value == "" || !space(value[0])) && (other == "" || !space(other[0]))
    requires forall q: nat, c: nat :: q < |before| ==>
               && !HeaderStands(before + key + blanks + ":" + more + value, q, c, fold, space)
               && !HeaderStands(before + key + blanks + ":" + more + other, q, c, fold, space)
    ensures Redact(before + key + blanks + ":" + more + value, fold, space)
            == Redact(before + key + blanks + ":" + more + other, fold, space)
  {
    hide HideAuthorization, HideAssignments, HideTokens, HeaderStands;
    AuthorizationOnText(before, key, blanks, more, value, fold, space);
    AuthorizationOnText(before, key, blanks, more, other, fold, space);
  }

  // --------------------------------------------------------------------- the assignments

  /** A key of `n` characters is spelled out. */
  ghost predicate KeyStands(s: string, pos: nat, n: nat, fold: char -> char) {
    || (n == 25 && StandsAt(s, pos, "pending_credential_secret", fold))
    || (n == 17 && StandsAt(s, pos, "credential_secret", fold))
    || (n == 16 && StandsAt(s, pos, "enrollment_token", fold))
  }

  lemma KeyLengths()
    ensures |"pending_credential_secret"| == 25 && |"credential_secret"| == 17 && |"enrollment_token"| == 16
    ensures "pending_credential_secret"[0] == 'p' && "credential_secret"[0] == 'c' && "enrollment_token"[0] == 'e'
  {}

  lemma KeyExactly(s: string, pos: nat, n: nat, fold: char -> char)
    ensures n > 0 && KeyLength(s, pos, fold) == n <==> KeyStands(s, pos, n, fold)
    ensures KeyStands(s, pos, n, fold) ==> pos + n <= |s|
  {
    KeyLengths();
    hide Says, StandsAt;
    SaysIsStands(s, pos, "pending_credential_secret", fold);
    SaysIsStands(s, pos, "credential_secret", fold);
    SaysIsStands(s, pos, "enrollment_token", fold);
    SaysAt(s, pos, "pending_credential_secret", 0, fold);
    SaysAt(s, pos, "credential_secret", 0, fold);
    SaysAt(s, pos, "enrollment_token", 0, fold);
  }

  lemma SaysIsStands(s: string, pos: nat, word: string, fold: char -> char)
    ensures Says(s, pos, word, fold) <==> StandsAt(s, pos, word, fold)
    ensures StandsAt(s, pos, word, fold) ==> pos + |word| <= |s|
  {}

  /** A key, white space, an equals sign or a colon, and white space up to where the value should begin. */
  ghost predicate AssignmentStands(s: string, pos: nat, n: nat, sign: nat, start: nat, fold: char -> char,
                                   space: char -> bool) {
    && KeyStands(s, pos, n, fold) && pos + n <= sign < start <= |s|
    && Blank(s, pos + n, sign, space) && (s[sign] == '=' || s[sign] == ':')
    && Blank(s, sign + 1, start, space) && (start < |s| ==> !space(s[start]))
  }

  /** Where the value of an assignment begins, in terms of the text. */
  lemma ValueStartExactly(s: string, pos: nat, start: nat, fold: char -> char, space: char -> bool)
    requires pos <= |s| && !space('=') && !space(':')
    ensures ValueStart(s, pos, fold, space) == Some(start) <==>
            exists n: nat, sign: nat :: AssignmentStands(s, pos, n, sign, start, fold, space)
  {
    hide KeyLength, KeyStands;
    if ValueStart(s, pos, fold, space) == Some(start) {
      var n := KeyLength(s, pos, fold);
      KeyExactly(s, pos, n, fold);
      assert AssignmentStands(s, pos, n, SkipSpace(s, pos + n, space), start, fold, space);
    }
    if n: nat, sign: nat :| AssignmentStands(s, pos, n, sign, start, fold, space) {
      KeyExactly(s, pos, n, fold);
      SkipIs(s, pos + n, sign, space);
      SkipIs(s, sign + 1, start, space);
    }
  }

  /** And which value is replaced: the characters from there on that are neither white space nor a comma, semicolon or
      quotation mark, if there are any. */
  lemma {:induction false} AssignmentExactly(s: string, pos: nat, start: nat, end: nat, fold: char -> char,
                                             space: char -> bool)
    requires pos <= |s| && !space('=') && !space(':')
    ensures AssignmentAt(s, pos, fold, space) == Some((start, end)) <==>
            && (exists n: nat, sign: nat :: AssignmentStands(s, pos, n, sign, start, fold, space))
            && start < end <= |s|
            && (forall i :: start <= i < end ==>
                  !space(s[i]) && s[i] != ',' && s[i] != ';' && s[i] != '"' && s[i] != '\'')
            && (end < |s| ==> space(s[end]) || s[end] == ',' || s[end] == ';' || s[end] == '"' || s[end] == '\'')
  {
    hide AssignmentStands, ValueStart, ValueEnd;
    ValueStartExactly(s, pos, start, fold, space);
    if start <= |s| {
      ValueRun(s, start, space);
      if start < end <= |s| && (forall i :: start <= i < end ==> IsValueChar(s[i], space))
         && (end < |s| ==> !IsValueChar(s[end], space))
      {
        ValueEndIs(s, start, end, space);
      }
    }
  }

  /** For every assignment that stands in a line with no word character before its key, whether the scan takes it or
      not: its value is hidden if and only if it begins with none of white space, comma, semicolon and quotation
      mark, and either the scan comes by the key, or nothing stands between key, sign and value. */
  lemma {:induction false} FlaggedOnText(s: string, pos: nat, n: nat, sign: nat, start: nat,
                                         fold: char -> char, space: char -> bool, word: char -> bool)
    requires Ordinary(fold, space, word) && AssignmentStands(s, pos, n, sign, start, fold, space)
    requires pos > 0 ==> !word(s[pos - 1])
    ensures pos < |s|
    ensures Hides(s, 0, start, fold, space) <==>
            && start < |s| && !space(s[start]) && s[start] != ',' && s[start] != ';' && s[start] != '"' && s[start] != '\''
            && (Visits(s, 0, pos, fold, space) || (sign == pos + n && start == sign + 1))
  {
    hide KeyLength, KeyStands, Visits, Hides, ValueStart;
    KeyExactly(s, pos, n, fold);
    ValueStartExactly(s, pos, start, fold, space);
    HiddenExactly(s, pos, fold, space, word);
  }

  // -------------------------------------------------------------------------- the tokens

  /** The scanner's last pattern: `ent_` and at least 16 letters, digits, underscores or hyphens, with none of these
      before or behind. */
  ghost predicate TokenStands(s: string, i: nat, e: nat) {
    && i + 20 <= e <= |s| && s[i] == 'e' && s[i + 1] == 'n' && s[i + 2] == 't' && s[i + 3] == '_'
    && (forall k :: i + 4 <= k < e ==> TokenChar(s[k]))
    && (i > 0 ==> !TokenChar(s[i - 1])) && (e < |s| ==> !TokenChar(s[e]))
  }

  ghost predicate TokenChar(c: char) {
    'A' <= c <= 'Z' || 'a' <= c <= 'z' || '0' <= c <= '9' || c == '_' || c == '-'
  }

  lemma MatchesMean(s: string, i: nat, e: nat)
    ensures Matches(false, s, i, e) <==> TokenStands(s, i, e)
  {
    if i + 4 <= |s| {
      assert s[i..i + 4] == [s[i], s[i + 1], s[i + 2], s[i + 3]];
      assert "ent_" == ['e', 'n', 't', '_'];
    }
  }

  /** Whatever the line, its redacted form has at most 500 characters, and no token stands in it. */
  lemma NoTokenStands(line: string, fold: char -> char, space: char -> bool)
    ensures |Redact(line, fold, space)| <= 500
    ensures forall i: nat, e: nat :: !TokenStands(Redact(line, fold, space), i, e)
  {
    hide HideAuthorization, HideAssignments, HideTokens, Matches, TokenStands;
    forall i: nat, e: nat ensures !TokenStands(Redact(line, fold, space), i, e) {
      RedactedHasNoToken(line, fold, space, i, e);
      MatchesMean(Redact(line, fold, space), i, e);
    }
  }

  /** The redacted line is the first 500 characters of the line with three kinds of stretches masked: the authorization
      value, the values behind keys, the rest of a token. */
  lemma {:induction false} RedactedLine(line: string, fold: char -> char, space: char -> bool)
    ensures var b := Masked(HideAuthorization(line, 0, fold, space), 0, fold, space);
            var c := TokensMasked(b, 0);
            Redact(line, fold, space) == if |c| > 500 then c[..500] else c
  {
    hide HideAuthorization, HideAssignments, HideTokens, Masked, TokensMasked;
    OutputIsMasked(HideAuthorization(line, 0, fold, space), fold, space);
    TokensAreMasked(HideAssignments(HideAuthorization(line, 0, fold, space), 0, fold, space));
  }

  /** A line with none of them goes through as it is. */
  lemma {:induction false} NothingToRedact(line: string, fold: char -> char, space: char -> bool)
    requires !space('=') && !space(':')
    requires forall pos: nat, colon: nat :: !HeaderStands(line, pos, colon, fold, space)
    requires forall pos: nat, n: nat, sign: nat, start: nat :: !AssignmentStands(line, pos, n, sign, start, fold, space)
    requires forall i: nat, e: nat :: !TokenStands(line, i, e)
    ensures Redact(line, fold, space) == if |line| > 500 then line[..500] else line
  {
    hide HideAuthorization, HideAssignments, HideTokens, HeaderStands, AssignmentStands, TokenStands, HeaderAt,
         AssignmentAt,
         Matches;
    forall i | 0 <= i < |line| ensures HeaderAt(line, i, fold, space).None? { HeaderFound(line, i, fold, space); }
    NoHeaderNoChange(line, 0, fold, space);
    forall pos: nat | pos < |line| ensures AssignmentAt(line, pos, fold, space).None? { NothingTaken(line, pos, fold, space); }
    HidesNothing(line, 0, fold, space);
    forall i: nat, e: nat ensures !Matches(false, line, i, e) { MatchesMean(line, i, e); }
    NothingToHide(line, 0);
    assert line[0..] == line;
  }

  lemma NothingTaken(s: string, pos: nat, fold: char -> char, space: char -> bool)
    requires pos <= |s| && !space('=') && !space(':')
    requires forall n: nat, sign: nat, start: nat :: !AssignmentStands(s, pos, n, sign, start, fold, space)
    ensures AssignmentAt(s, pos, fold, space).None?
  {
    hide AssignmentAt, AssignmentStands;
    if AssignmentAt(s, pos, fold, space).Some? {
      var (start, end) := AssignmentAt(s, pos, fold, space).value;
      AssignmentExactly(s, pos, start, end, fold, space);
    }
  }

  lemma {:induction false} HidesNothing(s: string, pos: nat, fold: char -> char, space: char -> bool)
    requires pos <= |s| && forall i: nat :: pos <= i < |s| ==> AssignmentAt(s, i, fold, space).None?
    ensures HideAssignments(s, pos, fold, space) == s[pos..]
    decreases |s| - pos
  {
    hide AssignmentAt, HideAssignments;
    HideAt(s, pos, fold, space);
    if pos < |s| {
      HidesNothing(s, pos + 1, fold, space);
      assert [s[pos]] + s[pos + 1..] == s[pos..];
    }
  }

  /** The character belongs to a token, behind its `ent_`. */
  ghost predicate InToken(s: string, k: nat) {
    exists i: nat, e: nat :: TokenStands(s, i, e) && i + 4 <= k < e
  }

  /** The line from `k` on with what stands behind the `ent_` of each token replaced by the mark. */
  ghost function TokensMasked(s: string, k: nat): string
    requires k <= |s|
    decreases |s| - k
  {
    if k == |s| then ""
    else if !InToken(s, k) then [s[k]] + TokensMasked(s, k + 1)
    else if k > 0 && InToken(s, k - 1) then TokensMasked(s, k + 1)
    else "[REDACTED]" + TokensMasked(s, k + 1)
  }

  /** Two tokens are the same or apart. */
  lemma TokensApart(s: string, i: nat, e: nat, j: nat, f: nat)
    requires TokenStands(s, i, e) && TokenStands(s, j, f) && i <= j
    ensures (i == j && e == f) || e <= j
  {
    hide TokenChar;
    TokenCharAt(s, i, e, if j > 0 then j - 1 else 0);
    TokenCharAt(s, j, f, e);
    TokenCharAt(s, i, e, f);
  }

  lemma TokenCharAt(s: string, i: nat, e: nat, k: nat)
    requires TokenStands(s, i, e)
    ensures i <= k < e ==> k < |s| && TokenChar(s[k])
    ensures k == i && i > 0 ==> !TokenChar(s[i - 1])
    ensures k == e && e < |s| ==> !TokenChar(s[e])
  {}

  lemma TokenHere(s: string, i: nat, e: nat, k: nat)
    requires TokenStands(s, i, e) && i <= k <= e
    ensures InToken(s, k) <==> i + 4 <= k < e
  {
    if InToken(s, k) {
      var j: nat, f: nat :| TokenStands(s, j, f) && j + 4 <= k < f;
      if i <= j { TokensApart(s, i, e, j, f); } else { TokensApart(s, j, f, i, e); }
    }
  }

  lemma {:induction false} TokenSwallowed(s: string, i: nat, e: nat, k: nat)
    requires TokenStands(s, i, e) && i + 4 < k <= e
    ensures TokensMasked(s, k) == TokensMasked(s, e)
    decreases e - k
  {
    hide InToken, TokenStands;
    if k < e {
      TokenHere(s, i, e, k);
      TokenHere(s, i, e, k - 1);
      TokenBounds(s, i, e);
      TokenSwallowed(s, i, e, k + 1);
    }
  }

  lemma TokenBounds(s: string, i: nat, e: nat)
    requires TokenStands(s, i, e)
    ensures i + 20 <= e <= |s| && s[i..i + 4] == "ent_"
  {
    assert s[i..i + 4] == ['e', 'n', 't', '_'] == "ent_";
  }

  lemma {:induction false} TokenPrinted(s: string, i: nat, e: nat)
    requires TokenStands(s, i, e)
    ensures TokensMasked(s, i) == "ent_" + "[REDACTED]" + TokensMasked(s, e)
  {
    hide InToken, TokenStands, TokensMasked;
    TokenBounds(s, i, e);
    TokenHere(s, i, e, i);
    TokenHere(s, i, e, i + 1);
    TokenHere(s, i, e, i + 2);
    TokenHere(s, i, e, i + 3);
    TokenHere(s, i, e, i + 4);
    TokenSwallowed(s, i, e, i + 5);
    MaskedNext(s, i + 4);
    MaskedNext(s, i + 3);
    MaskedNext(s, i + 2);
    MaskedNext(s, i + 1);
    MaskedNext(s, i);
    var rest := "[REDACTED]" + TokensMasked(s, e);
    assert s[i..i + 4] == [s[i]] + ([s[i + 1]] + ([s[i + 2]] + [s[i + 3]]));
    assert [s[i]] + ([s[i + 1]] + ([s[i + 2]] + ([s[i + 3]] + rest))) == s[i..i + 4] + rest;
  }

  lemma MaskedNext(s: string, k: nat)
    requires k < |s|
    ensures TokensMasked(s, k) ==
            if !InToken(s, k) then [s[k]] + TokensMasked(s, k + 1)
            else if k > 0 && InToken(s, k - 1) then TokensMasked(s, k + 1)
            else "[REDACTED]" + TokensMasked(s, k + 1)
  {}

  /** No token that begins before `pos` reaches beyond it. */
  ghost predicate Through(s: string, pos: nat) {
    forall i: nat, e: nat :: TokenStands(s, i, e) && i < pos ==> e <= pos
  }

  /** The last substitution replaces what stands behind the `ent_` of each token, and nothing else. */
  lemma {:induction false} TokensFrom(s: string, pos: nat)
    requires pos <= |s| && Through(s, pos)
    ensures HideTokens(s, pos) == TokensMasked(s, pos)
    decreases |s| - pos
  {
    hide TokenEnd, InToken, TokenStands, Matches;
    if pos < |s| {
      match TokenEnd(s, pos) {
        case Some(e) =>
          TokenMatched(s, pos);
          TokenBounds(s, pos, e);
          forall i: nat, f: nat | TokenStands(s, i, f) && i < e ensures f <= e {
            if i >= pos { TokensApart(s, pos, e, i, f); }
          }
          TokensFrom(s, e);
          TokenPrinted(s, pos, e);
        case None =>
          forall i: nat, f: nat | TokenStands(s, i, f) && i < pos + 1 ensures f <= pos + 1 {
            if i == pos { NoTokenHere(s, pos, f); }
          }
          OutsideTokens(s, pos);
          assert Through(s, pos + 1);
          TokensFrom(s, pos + 1);
      }
    }
  }

  lemma TokenMatched(s: string, pos: nat)
    requires pos <= |s| && TokenEnd(s, pos).Some?
    ensures TokenStands(s, pos, TokenEnd(s, pos).value)
  {
    hide TokenStands;
    MatchesMean(s, pos, TokenEnd(s, pos).value);
  }

  lemma NoTokenHere(s: string, pos: nat, f: nat)
    requires pos <= |s| && TokenEnd(s, pos).None?
    ensures !TokenStands(s, pos, f)
  {
    hide TokenStands;
    MatchesMean(s, pos, f);
    if Matches(false, s, pos, f) { MatchIsFound(s, pos, f); }
  }

  lemma OutsideTokens(s: string, pos: nat)
    requires Through(s, pos)
    ensures !InToken(s, pos)
  {}

  lemma {:induction false} TokensAreMasked(s: string)
    ensures HideTokens(s, 0) == TokensMasked(s, 0)
  {
    TokensFrom(s, 0);
  }
}
