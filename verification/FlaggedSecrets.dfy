/** Which flagged secrets the assignment substitution hides. The scanner flags a key behind no word character;
    the substitution takes keys from left to right, and what one match takes as its value it does not
    look at again. */
module FlaggedSecrets {
  import opened Redaction
  import opened Wrappers

  // ---------------------------------------------------------------- what is hidden

  /** The scan from `pos` on takes the character at `k` as part of a value. */
  predicate Hides(s: string, pos: nat, k: nat, fold: char -> char, space: char -> bool)
    requires pos <= |s|
    decreases |s| - pos
  {
    pos < |s| &&
    var found := AssignmentAt(s, pos, fold, space);
    if found.None? then Hides(s, pos + 1, k, fold, space)
    else found.value.0 <= k < found.value.1 || Hides(s, found.value.1, k, fold, space)
  }

  lemma {:induction false} NothingBehind(s: string, pos: nat, k: nat, fold: char -> char, space: char -> bool)
    requires k <= pos <= |s|
    ensures !Hides(s, pos, k, fold, space)
    decreases |s| - pos
  {
    hide AssignmentAt;
    if pos < |s| {
      match AssignmentAt(s, pos, fold, space) {
        case None => NothingBehind(s, pos + 1, k, fold, space);
        case Some((_, end)) => NothingBehind(s, end, k, fold, space);
      }
    }
  }

  lemma {:induction false} OnlyWithin(s: string, pos: nat, k: nat, fold: char -> char, space: char -> bool)
    requires pos <= |s| && Hides(s, pos, k, fold, space)
    ensures pos < k < |s|
    decreases |s| - pos
  {
    hide AssignmentAt;
    match AssignmentAt(s, pos, fold, space) {
      case None => OnlyWithin(s, pos + 1, k, fold, space);
      case Some((start, end)) => if !(start <= k < end) { OnlyWithin(s, end, k, fold, space); }
    }
  }

  /** The scan that comes by a place says there what the whole scan says of what follows. */
  lemma {:induction false} SameFromThere(s: string, pos: nat, there: nat, k: nat, fold: char -> char,
                                         space: char -> bool)
    requires pos <= there <= |s| && there <= k && Visits(s, pos, there, fold, space)
    ensures Hides(s, pos, k, fold, space) <==> Hides(s, there, k, fold, space)
    decreases there - pos
  {
    hide AssignmentAt;
    if pos < there {
      match AssignmentAt(s, pos, fold, space) {
        case None => SameFromThere(s, pos + 1, there, k, fold, space);
        case Some((_, end)) => SameFromThere(s, end, there, k, fold, space);
      }
    }
  }

  /** The line from `k` on with every stretch of hidden characters replaced by the mark. */
  function Masked(s: string, k: nat, fold: char -> char, space: char -> bool): string
    requires k <= |s|
    decreases |s| - k
  {
    if k == |s| then ""
    else if !Hides(s, 0, k, fold, space) then [s[k]] + Masked(s, k + 1, fold, space)
    else if k > 0 && Hides(s, 0, k - 1, fold, space) then Masked(s, k + 1, fold, space)
    else "[REDACTED]" + Masked(s, k + 1, fold, space)
  }

  lemma MaskPlain(s: string, k: nat, fold: char -> char, space: char -> bool)
    requires k < |s| && !Hides(s, 0, k, fold, space)
    ensures Masked(s, k, fold, space) == [s[k]] + Masked(s, k + 1, fold, space)
  {
    hide Hides;
  }

  lemma {:induction false} MaskCopies(s: string, k: nat, until: nat, fold: char -> char, space: char -> bool)
    requires k <= until <= |s| && forall i :: k <= i < until ==> !Hides(s, 0, i, fold, space)
    ensures Masked(s, k, fold, space) == s[k..until] + Masked(s, until, fold, space)
    decreases until - k
  {
    hide Hides, Masked;
    if k < until {
      MaskPlain(s, k, fold, space);
      MaskCopies(s, k + 1, until, fold, space);
      assert s[k..until] == [s[k]] + s[k + 1..until];
    }
  }

  lemma {:induction false} MaskSwallows(s: string, k: nat, until: nat, fold: char -> char, space: char -> bool)
    requires 0 < k <= until <= |s| && forall i :: k - 1 <= i < until ==> Hides(s, 0, i, fold, space)
    ensures Masked(s, k, fold, space) == Masked(s, until, fold, space)
    decreases until - k
  {
    hide Hides;
    if k < until { MaskSwallows(s, k + 1, until, fold, space); }
  }

  lemma {:induction false} VisitsMore(s: string, pos: nat, there: nat, next: nat, fold: char -> char,
                                      space: char -> bool)
    requires pos <= there <= next <= |s|
    requires Visits(s, pos, there, fold, space) && Visits(s, there, next, fold, space)
    ensures Visits(s, pos, next, fold, space)
    decreases there - pos
  {
    hide AssignmentAt;
    if pos < there {
      match AssignmentAt(s, pos, fold, space) {
        case None => VisitsMore(s, pos + 1, there, next, fold, space);
        case Some((_, end)) => VisitsMore(s, end, there, next, fold, space);
      }
    }
  }

  /** One match: what is before its value is copied, and its value hidden. */
  lemma {:induction false} MatchHides(s: string, pos: nat, start: nat, end: nat, k: nat, fold: char -> char,
                                      space: char -> bool)
    requires pos < |s| && Visits(s, 0, pos, fold, space) && AssignmentAt(s, pos, fold, space) == Some((start, end))
    requires pos <= k <= end
    ensures Hides(s, 0, k, fold, space) <==> start <= k < end
  {
    hide AssignmentAt;
    SameFromThere(s, 0, pos, k, fold, space);
    NothingBehind(s, end, k, fold, space);
  }

  lemma {:induction false} MatchHidesAll(s: string, pos: nat, start: nat, end: nat, fold: char -> char,
                                         space: char -> bool)
    requires pos < |s| && Visits(s, 0, pos, fold, space) && AssignmentAt(s, pos, fold, space) == Some((start, end))
    ensures forall k :: pos <= k < end ==> (Hides(s, 0, k, fold, space) <==> start <= k)
  {
    hide AssignmentAt, Hides, Visits;
    forall k | pos <= k < end ensures Hides(s, 0, k, fold, space) <==> start <= k {
      MatchHides(s, pos, start, end, k, fold, space);
    }
  }

  lemma {:induction false} MaskMatch(s: string, pos: nat, start: nat, end: nat, fold: char -> char, space: char -> bool)
    requires pos < |s| && Visits(s, 0, pos, fold, space) && AssignmentAt(s, pos, fold, space) == Some((start, end))
    ensures Masked(s, pos, fold, space) == s[pos..start] + "[REDACTED]" + Masked(s, end, fold, space)
  {
    hide AssignmentAt, Hides, Visits;
    MatchHidesAll(s, pos, start, end, fold, space);
    MaskCopies(s, pos, start, fold, space);
    MaskSwallows(s, start + 1, end, fold, space);
  }

  lemma {:induction false} MaskedAtEnd(s: string, fold: char -> char, space: char -> bool)
    ensures Masked(s, |s|, fold, space) == ""
  {}

  lemma {:induction false} MaskedFrom(s: string, pos: nat, fold: char -> char, space: char -> bool)
    requires pos <= |s| && Visits(s, 0, pos, fold, space)
    ensures Masked(s, pos, fold, space) == HideAssignments(s, pos, fold, space)
    decreases |s| - pos
  {
    hide AssignmentAt, Hides, Visits, HideAssignments, Masked;
    HideAt(s, pos, fold, space);
    if pos == |s| {
      MaskedAtEnd(s, fold, space);
    } else {
      VisitsNext(s, pos, fold, space);
      match AssignmentAt(s, pos, fold, space) {
        case None =>
          VisitsMore(s, 0, pos, pos + 1, fold, space);
          MaskedFrom(s, pos + 1, fold, space);
          PlainHere(s, pos, fold, space);
          MaskPlain(s, pos, fold, space);
        case Some((start, end)) =>
          VisitsMore(s, 0, pos, end, fold, space);
          MaskedFrom(s, end, fold, space);
          MaskMatch(s, pos, start, end, fold, space);
      }
    }
  }

  lemma {:induction false} VisitsNext(s: string, pos: nat, fold: char -> char, space: char -> bool)
    requires pos < |s|
    ensures var found := AssignmentAt(s, pos, fold, space);
            if found.None? then Visits(s, pos, pos + 1, fold, space) else Visits(s, pos, found.value.1, fold, space)
  {
    hide AssignmentAt;
  }

  lemma {:induction false} PlainHere(s: string, pos: nat, fold: char -> char, space: char -> bool)
    requires pos <= |s| && Visits(s, 0, pos, fold, space)
    ensures !Hides(s, 0, pos, fold, space)
  {
    SameFromThere(s, 0, pos, pos, fold, space);
    NothingBehind(s, pos, pos, fold, space);
  }

  /** What `Hides` means: the substitution prints the line with every stretch of hidden characters replaced by the
      mark, and every other character as it is. */
  lemma {:induction false} OutputIsMasked(s: string, fold: char -> char, space: char -> bool)
    ensures HideAssignments(s, 0, fold, space) == Masked(s, 0, fold, space)
  {
    MaskedFrom(s, 0, fold, space);
  }

  // ------------------------------------------------------- when a flagged value is hidden

  predicate IsKeyLetter(c: char) {
    'a' <= c <= 'z' || c == '_'
  }

  /** What holds of letters, blanks and word characters in any alphabet: the letters of a key are word characters
      and neither white space nor punctuation, and neither sign is white space. */
  ghost predicate Ordinary(fold: char -> char, space: char -> bool, word: char -> bool) {
    && (forall c :: IsKeyLetter(fold(c)) ==> word(c) && IsValueChar(c, space) && c != '=' && c != ':')
    && !space('=') && !space(':')
  }

  /** The scanner's patterns for keys: no word character before the key, a sign behind it. */
  predicate Flagged(s: string, pos: nat, fold: char -> char, space: char -> bool, word: char -> bool)
    requires pos <= |s|
  {
    ValueStart(s, pos, fold, space).Some? && (pos > 0 ==> !word(s[pos - 1]))
  }

  lemma PendingLetters(n: nat)
    ensures n < 25 ==> IsKeyLetter("pending_credential_secret"[n])
  {
    assert "pending_credential_secret" == ['p', 'e', 'n', 'd', 'i', 'n', 'g', '_', 'c', 'r', 'e', 'd', 'e', 'n', 't',
         'i', 'a', 'l', '_', 's', 'e', 'c', 'r', 'e', 't'];
  }

  lemma CredentialLetters(n: nat)
    ensures n < 17 ==> IsKeyLetter("credential_secret"[n])
  {
    assert "credential_secret" == ['c', 'r', 'e', 'd', 'e', 'n', 't', 'i', 'a', 'l', '_', 's', 'e', 'c', 'r', 'e', 't'];
  }

  lemma EnrollmentLetters(n: nat)
    ensures n < 16 ==> IsKeyLetter("enrollment_token"[n])
  {
    assert "enrollment_token" == ['e', 'n', 'r', 'o', 'l', 'l', 'm', 'e', 'n', 't', '_', 't', 'o', 'k', 'e', 'n'];
  }

  lemma SaysAt(s: string, pos: nat, word: string, n: nat, fold: char -> char)
    requires n < |word|
    ensures Says(s, pos, word, fold) ==> pos + |word| <= |s| && fold(s[pos + n]) == word[n]
  {}

  lemma KeyIsThere(s: string, pos: nat, fold: char -> char)
    requires KeyLength(s, pos, fold) > 0
    ensures pos + KeyLength(s, pos, fold) <= |s|
  {}

  /** A key is made of key letters. */
  lemma KeyLetterAt(s: string, pos: nat, n: nat, fold: char -> char)
    requires n < KeyLength(s, pos, fold)
    ensures pos + KeyLength(s, pos, fold) <= |s| && IsKeyLetter(fold(s[pos + n]))
  {
    KeyIsThere(s, pos, fold);
    hide Says, IsKeyLetter;
    PendingLetters(n);
    CredentialLetters(n);
    EnrollmentLetters(n);
    SaysAt(s, pos, "pending_credential_secret", n, fold);
    if n < 17 { SaysAt(s, pos, "credential_secret", n, fold); }
    if n < 16 { SaysAt(s, pos, "enrollment_token", n, fold); }
  }

  lemma NoLetterNoKey(s: string, pos: nat, fold: char -> char, space: char -> bool)
    requires pos < |s| && !IsKeyLetter(fold(s[pos]))
    ensures ValueStart(s, pos, fold, space).None? && AssignmentAt(s, pos, fold, space).None?
  {
    hide KeyLength, SkipSpace, IsKeyLetter;
    if KeyLength(s, pos, fold) > 0 { KeyLetterAt(s, pos, 0, fold); }
  }

  /** Key, blanks, sign, blanks, and then what should be the value. */
  lemma Parts(s: string, pos: nat, fold: char -> char, space: char -> bool) returns (behind: nat, sign: nat, start: nat)
    requires pos < |s| && ValueStart(s, pos, fold, space).Some?
    ensures behind == pos + KeyLength(s, pos, fold) && start == ValueStart(s, pos, fold, space).value
    ensures pos < behind <= sign < start <= |s| && (s[sign] == '=' || s[sign] == ':')
    ensures sign == SkipSpace(s, behind, space)
    ensures forall i :: behind <= i < sign ==> space(s[i])
    ensures forall i :: sign < i < start ==> space(s[i])
    ensures start < |s| ==> !space(s[start])
  {
    hide KeyLength;
    behind := pos + KeyLength(s, pos, fold);
    sign := SkipSpace(s, behind, space);
    start := SkipSpace(s, sign + 1, space);
  }

  lemma LetterAt(s: string, pos: nat, i: nat, fold: char -> char, space: char -> bool, word: char -> bool)
    requires Ordinary(fold, space, word)
    ensures pos <= i < pos + KeyLength(s, pos, fold) ==>
              && i < |s| && word(s[i]) && IsValueChar(s[i], space)
              && !space(s[i]) && s[i] != '=' && s[i] != ':'
  {
    hide KeyLength, IsKeyLetter;
    if pos <= i < pos + KeyLength(s, pos, fold) { KeyLetterAt(s, pos, i - pos, fold); }
  }

  /** A key within the letters of another ends with it, and so has the same value. */
  lemma SameEnd(s: string, pos: nat, q: nat, fold: char -> char, space: char -> bool, word: char -> bool)
    requires Ordinary(fold, space, word) && pos < |s| && pos <= q < pos + KeyLength(s, pos, fold) && q < |s|
    requires ValueStart(s, pos, fold, space).Some? && ValueStart(s, q, fold, space).Some?
    ensures ValueStart(s, q, fold, space) == ValueStart(s, pos, fold, space)
  {
    hide KeyLength, IsKeyLetter, Ordinary;
    var behind, sign, start := Parts(s, pos, fold, space);
    var behind', sign', start' := Parts(s, q, fold, space);
    LetterAt(s, pos, behind', fold, space, word);
    LetterAt(s, q, behind, fold, space, word);
  }

  lemma {:induction false} ValueRun(s: string, pos: nat, space: char -> bool)
    requires pos <= |s|
    ensures forall i :: pos <= i < ValueEnd(s, pos, space) ==> IsValueChar(s[i], space)
    ensures ValueEnd(s, pos, space) < |s| ==> !IsValueChar(s[ValueEnd(s, pos, space)], space)
    decreases |s| - pos
  {
    hide IsValueChar;
    if pos < |s| && IsValueChar(s[pos], space) { ValueRun(s, pos + 1, space); }
  }

  lemma {:induction false} RunAt(s: string, pos: nat, i: nat, space: char -> bool)
    requires pos <= |s|
    ensures pos <= i < ValueEnd(s, pos, space) ==> IsValueChar(s[i], space)
  {
    ValueRun(s, pos, space);
  }

  lemma {:induction false} SameRun(s: string, pos: nat, k: nat, space: char -> bool)
    requires pos <= |s| && pos <= k <= ValueEnd(s, pos, space)
    ensures ValueEnd(s, k, space) == ValueEnd(s, pos, space)
    decreases |s| - pos
  {
    hide IsValueChar;
    if pos < k { SameRun(s, pos + 1, k, space); }
  }

  /** Where no match begins before a place, the place is copied. */
  lemma {:induction false} PlainTo(s: string, pos: nat, k: nat, fold: char -> char, space: char -> bool)
    requires pos <= k <= |s| && forall i :: pos <= i < k ==> AssignmentAt(s, i, fold, space).None?
    ensures !Hides(s, pos, k, fold, space)
    decreases k - pos
  {
    hide AssignmentAt;
    if pos < k { PlainTo(s, pos + 1, k, fold, space); } else { NothingBehind(s, pos, k, fold, space); }
  }

  /** The scan comes by the key: it hides the value if there is something to hide. */
  lemma {:induction false} HidesOwn(s: string, pos: nat, fold: char -> char, space: char -> bool, word: char -> bool)
    requires Ordinary(fold, space, word) && pos < |s| && ValueStart(s, pos, fold, space).Some?
    ensures var start := ValueStart(s, pos, fold, space).value;
            Hides(s, pos, start, fold, space) <==> start < |s| && IsValueChar(s[start], space)
  {
    var behind, sign, start := Parts(s, pos, fold, space);
    if start == |s| || !IsValueChar(s[start], space) {
      forall q | pos <= q < start ensures AssignmentAt(s, q, fold, space).None? {
        NoMatchBefore(s, pos, q, fold, space, word);
      }
      PlainTo(s, pos, start, fold, space);
    }
  }

  lemma NoMatchBefore(s: string, pos: nat, q: nat, fold: char -> char, space: char -> bool, word: char -> bool)
    requires Ordinary(fold, space, word) && pos < |s| && ValueStart(s, pos, fold, space).Some?
    requires var start := ValueStart(s, pos, fold, space).value;
             pos <= q < start && (start == |s| || !IsValueChar(s[start], space))
    ensures AssignmentAt(s, q, fold, space).None?
  {
    hide KeyLength, IsKeyLetter, SkipSpace;
    var behind, sign, start := Parts(s, pos, fold, space);
    if q >= behind {
      NoLetterNoKey(s, q, fold, space);
    } else if ValueStart(s, q, fold, space).Some? {
      SameEnd(s, pos, q, fold, space, word);
    }
  }

  /** A match at `p` that has run past a flagged key: the key is within its value, and so is the key's own value
      if and only if no blank stands around the sign. */
  lemma {:induction false} HidesWithin(s: string, p: nat, pos: nat, fold: char -> char, space: char -> bool,
                                       word: char -> bool)
    requires Ordinary(fold, space, word) && p < pos < |s| && Flagged(s, pos, fold, space, word)
    requires AssignmentAt(s, p, fold, space).Some? && AssignmentAt(s, p, fold, space).value.1 > pos
    ensures var start := ValueStart(s, pos, fold, space).value;
            Hides(s, p, start, fold, space) <==>
            start < |s| && IsValueChar(s[start], space) && start == pos + KeyLength(s, pos, fold) + 1
  {
    hide KeyLength, IsKeyLetter, SkipSpace, ValueEnd, Ordinary;
    var (first, end) := AssignmentAt(s, p, fold, space).value;
    var behind, sign, start := Parts(s, pos, fold, space);
    KeyInValue(s, p, pos, fold, space, word);
    ValueRun(s, first, space);
    LetterAt(s, pos, end, fold, space, word);
    assert behind <= end;
    if start < |s| && IsValueChar(s[start], space) && start == behind + 1 {
      SignIsValue(s[sign], fold, space, word);
      assert end > sign;
      assert end > start;
    } else {
      SpaceIsNoValue(s, behind, space);
      SpaceIsNoValue(s, sign + 1, space);
      RunAt(s, first, behind, space);
      RunAt(s, first, sign + 1, space);
      RunAt(s, first, start, space);
      assert end <= start;
      forall q | end <= q < start ensures AssignmentAt(s, q, fold, space).None? {
        NotALetter(s[q], fold, space, word);
        NoLetterNoKey(s, q, fold, space);
      }
      PlainTo(s, end, start, fold, space);
    }
  }

  lemma SpaceIsNoValue(s: string, k: nat, space: char -> bool)
    ensures k < |s| && space(s[k]) ==> !IsValueChar(s[k], space)
  {}

  lemma SignIsValue(c: char, fold: char -> char, space: char -> bool, word: char -> bool)
    requires Ordinary(fold, space, word) && (c == '=' || c == ':')
    ensures IsValueChar(c, space)
  {}

  lemma NotALetter(c: char, fold: char -> char, space: char -> bool, word: char -> bool)
    requires Ordinary(fold, space, word)
    ensures space(c) || c == '=' || c == ':' ==> !IsKeyLetter(fold(c))
  {}

  /** No flagged key stands within the key, blanks or sign of another. */
  lemma KeyInValue(s: string, p: nat, pos: nat, fold: char -> char, space: char -> bool, word: char -> bool)
    requires Ordinary(fold, space, word) && p < pos < |s| && Flagged(s, pos, fold, space, word)
    requires AssignmentAt(s, p, fold, space).Some?
    ensures AssignmentAt(s, p, fold, space).value.0 <= pos
  {
    hide KeyLength, IsKeyLetter, SkipSpace, ValueEnd, Ordinary;
    var behind, sign, start := Parts(s, p, fold, space);
    var behind', sign', start' := Parts(s, pos, fold, space);
    LetterAt(s, p, pos - 1, fold, space, word);
    LetterAt(s, pos, pos, fold, space, word);
  }

  lemma {:induction false} HidesFrom(s: string, p: nat, pos: nat, fold: char -> char, space: char -> bool,
                                     word: char -> bool)
    requires Ordinary(fold, space, word) && p <= pos < |s| && Flagged(s, pos, fold, space, word)
    ensures var start := ValueStart(s, pos, fold, space).value;
            Hides(s, p, start, fold, space) <==>
            && start < |s| && IsValueChar(s[start], space)
            && (Visits(s, p, pos, fold, space) || start == pos + KeyLength(s, pos, fold) + 1)
    decreases pos - p
  {
    hide AssignmentAt, KeyLength, SkipSpace, Ordinary, IsValueChar;
    if p == pos {
      HidesOwn(s, pos, fold, space, word);
    } else {
      match AssignmentAt(s, p, fold, space) {
        case None => HidesFrom(s, p + 1, pos, fold, space, word);
        case Some((first, end)) =>
          if end <= pos { HidesFrom(s, end, pos, fold, space, word); } else { HidesWithin(s, p, pos, fold, space, word); }
      }
    }
  }

  /** From a hidden character on, all is hidden up to the end of its run, and what ends the run is not. */
  lemma {:induction false} HidesToEnd(s: string, p: nat, k: nat, i: nat, fold: char -> char, space: char -> bool)
    requires p <= |s| && k < |s| && Hides(s, p, k, fold, space) && k <= i <= ValueEnd(s, k, space)
    ensures Hides(s, p, i, fold, space) <==> i < ValueEnd(s, k, space)
    decreases |s| - p
  {
    hide ValueStart, ValueEnd, IsValueChar;
    match AssignmentAt(s, p, fold, space) {
      case None => HidesToEnd(s, p + 1, k, i, fold, space);
      case Some((start, end)) =>
        if start <= k < end {
          SameRun(s, start, k, space);
          NothingBehind(s, end, i, fold, space);
        } else {
          OnlyWithin(s, end, k, fold, space);
          HidesToEnd(s, end, k, i, fold, space);
        }
    }
  }

  /** For every key the scanner flags, exactly when its value is hidden and how much of it. The first character of
      the value is hidden if and only if it is none of white space, comma, semicolon and quotation mark, and
      either the scan comes by the key, or key, sign and value are written without white space between
      them, so that all three lie within the value of an earlier match. What is hidden then ends before the
      next white space, comma, semicolon or quotation mark, which is printed. */
  lemma {:induction false} HiddenExactly(s: string, pos: nat, fold: char -> char, space: char -> bool,
                                         word: char -> bool)
    requires Ordinary(fold, space, word) && pos < |s| && Flagged(s, pos, fold, space, word)
    ensures var start := ValueStart(s, pos, fold, space).value;
            && (Hides(s, 0, start, fold, space) <==>
                && start < |s| && IsValueChar(s[start], space)
                && (Visits(s, 0, pos, fold, space) || start == pos + KeyLength(s, pos, fold) + 1))
            && (Hides(s, 0, start, fold, space) ==>
                var end := ValueEnd(s, start, space);
                && (forall i :: start <= i < end ==> Hides(s, 0, i, fold, space))
                && !Hides(s, 0, end, fold, space)
                && (end < |s| ==> !IsValueChar(s[end], space)))
  {
    hide KeyLength, Visits, Hides, ValueEnd, IsValueChar, Ordinary;
    var start := ValueStart(s, pos, fold, space).value;
    HidesFrom(s, 0, pos, fold, space, word);
    if Hides(s, 0, start, fold, space) {
      OnlyWithin(s, 0, start, fold, space);
      ValueRun(s, start, space);
      var end := ValueEnd(s, start, space);
      forall i | start <= i <= end ensures Hides(s, 0, i, fold, space) <==> i < end {
        HidesToEnd(s, 0, start, i, fold, space);
      }
    }
  }

  /** The scan fails to come by a flagged key only where an earlier match has taken it into its value. */
  lemma {:induction false} PassedOver(s: string, p: nat, pos: nat, fold: char -> char, space: char -> bool,
                                      word: char -> bool)
    requires Ordinary(fold, space, word) && p <= pos < |s| && Flagged(s, pos, fold, space, word)
    ensures Hides(s, p, pos, fold, space) <==> !Visits(s, p, pos, fold, space)
    decreases pos - p
  {
    hide AssignmentAt, KeyLength, Ordinary, Flagged;
    if p == pos {
      NothingBehind(s, pos, pos, fold, space);
    } else {
      match AssignmentAt(s, p, fold, space) {
        case None => PassedOver(s, p + 1, pos, fold, space, word);
        case Some((first, end)) =>
          if end <= pos {
            PassedOver(s, end, pos, fold, space, word);
          } else {
            KeyInValue(s, p, pos, fold, space, word);
          }
      }
    }
  }

  // ------------------------------------------------------- two secrets that are printed

  function Same(c: char): char { c }

  predicate IsBlank(c: char) { c == ' ' }

  /** A quoted secret: flagged, and printed in full. */
  const QUOTED := "credential_secret=\"abc\""

  /** Its characters, one by one. */
  predicate IsQuoted(s: string) {
    && |s| == 23
    && s[0] == 'c' && s[1] == 'r' && s[2] == 'e' && s[3] == 'd' && s[4] == 'e' && s[5] == 'n'
    && s[6] == 't' && s[7] == 'i' && s[8] == 'a' && s[9] == 'l' && s[10] == '_' && s[11] == 's'
    && s[12] == 'e' && s[13] == 'c' && s[14] == 'r' && s[15] == 'e' && s[16] == 't' && s[17] == '='
    && s[18] == '"' && s[19] == 'a' && s[20] == 'b' && s[21] == 'c' && s[22] == '"'
  }

  lemma NoKeyInQuoted(s: string, k: nat)
    requires IsQuoted(s) && 0 < k < |s|
    ensures KeyLength(s, k, Same) == 0
  {
    hide Says;
    SaysAt(s, k, "pending_credential_secret", 0, Same);
    SaysAt(s, k, "credential_secret", 0, Same);
    SaysAt(s, k, "enrollment_token", 0, Same);
    SaysAt(s, k, "enrollment_token", 1, Same);
    SaysAt(s, k, "enrollment_token", 2, Same);
  }

  lemma NoHeaderInQuoted(s: string, k: nat)
    requires IsQuoted(s) && k < |s|
    ensures HeaderAt(s, k, Same, IsBlank).None?
  {
    hide Says;
    SaysAt(s, k, "authorization", 0, Same);
    SaysAt(s, k, "authorization", 1, Same);
  }

  lemma NoTokenInQuoted(s: string, k: nat)
    requires IsQuoted(s)
    ensures !HasEnt(s, k)
  {
    if k + 4 <= |s| { assert s[k..k + 4][3] == s[k + 3] && "ent_"[3] == '_' && s[k..k + 4][2] == s[k + 2]; }
  }

  lemma QuotedIsFlagged(s: string)
    requires IsQuoted(s)
    ensures ValueStart(s, 0, Same, IsBlank) == Some(18)
    ensures AssignmentAt(s, 0, Same, IsBlank).None?
  {
    hide SkipSpace;
    var word := "credential_secret";
    assert Says(s, 0, word, Same) by {
      assert word == ['c', 'r', 'e', 'd', 'e', 'n', 't', 'i', 'a', 'l', '_', 's', 'e', 'c', 'r', 'e', 't'];
    }
    assert !Says(s, 0, "pending_credential_secret", Same);
    SkipsNone(s, 17);
    SkipsNone(s, 18);
  }

  lemma {:induction false} SkipsNone(s: string, pos: nat)
    requires pos < |s| && !IsBlank(s[pos])
    ensures SkipSpace(s, pos, IsBlank) == pos
  {}

  lemma {:induction false} NothingHidden(s: string, pos: nat, fold: char -> char, space: char -> bool)
    requires pos <= |s| && forall i :: pos <= i < |s| ==> AssignmentAt(s, i, fold, space).None?
    ensures HideAssignments(s, pos, fold, space) == s[pos..]
    decreases |s| - pos
  {
    hide AssignmentAt;
    if pos < |s| {
      NothingHidden(s, pos + 1, fold, space);
      assert s[pos..] == [s[pos]] + s[pos + 1..];
    }
  }

  /** The characters no key may follow: letters, digits and the underscore. */
  predicate IsKeyWord(c: char) {
    'A' <= c <= 'Z' || 'a' <= c <= 'z' || '0' <= c <= '9' || c == '_'
  }

  lemma PlainIsOrdinary()
    ensures Ordinary(Same, IsBlank, IsKeyWord)
  {}

  /** A secret in quotation marks is flagged and goes through unchanged. */
  lemma QuotedSecretIsPrinted()
    ensures Ordinary(Same, IsBlank, IsKeyWord) && Flagged(QUOTED, 0, Same, IsBlank, IsKeyWord)
    ensures ValueStart(QUOTED, 0, Same, IsBlank) == Some(18)
    ensures Redact(QUOTED, Same, IsBlank) == QUOTED
  {
    hide IsBlank, Same, KeyLength, SkipSpace;
    PlainIsOrdinary();
    assert IsQuoted(QUOTED);
    QuotedGoesThrough(QUOTED);
  }

  lemma QuotedGoesThrough(s: string)
    requires IsQuoted(s)
    ensures ValueStart(s, 0, Same, IsBlank) == Some(18) && Redact(s, Same, IsBlank) == s
  {
    hide KeyLength, HeaderAt, HasEnt, HideAuthorization, HideAssignments, HideTokens, ValueEnd;
    QuotedIsFlagged(s);
    forall k | 0 <= k < |s| ensures HeaderAt(s, k, Same, IsBlank).None? { NoHeaderInQuoted(s, k); }
    forall k | 0 <= k < |s| ensures AssignmentAt(s, k, Same, IsBlank).None? {
      if k > 0 { NoKeyInQuoted(s, k); }
    }
    NoHeaderNoChange(s, 0, Same, IsBlank);
    NothingHidden(s, 0, Same, IsBlank);
    forall i: nat, e: nat ensures !Matches(false, s, i, e) { NoTokenInQuoted(s, i); }
    NothingToHide(s, 0);
    assert s[0..] == s;
  }

  /** A secret whose key another match takes as its value: flagged, of plain characters, and printed. */
  const SWALLOWED := "enrollment_token=credential_secret = abc"
  const LEFT := "enrollment_token=[REDACTED] = abc"

  predicate StartsAlike(s: string) {
    && |s| > 17
    && s[0] == 'e' && s[1] == 'n' && s[2] == 'r' && s[3] == 'o' && s[4] == 'l' && s[5] == 'l'
    && s[6] == 'm' && s[7] == 'e' && s[8] == 'n' && s[9] == 't' && s[10] == '_' && s[11] == 't'
    && s[12] == 'o' && s[13] == 'k' && s[14] == 'e' && s[15] == 'n' && s[16] == '='
  }

  predicate IsSwallowed(s: string) {
    && StartsAlike(s) && |s| == 40
    && s[17] == 'c' && s[18] == 'r' && s[19] == 'e' && s[20] == 'd' && s[21] == 'e' && s[22] == 'n'
    && s[23] == 't' && s[24] == 'i' && s[25] == 'a' && s[26] == 'l' && s[27] == '_' && s[28] == 's'
    && s[29] == 'e' && s[30] == 'c' && s[31] == 'r' && s[32] == 'e' && s[33] == 't' && s[34] == ' '
    && s[35] == '=' && s[36] == ' ' && s[37] == 'a' && s[38] == 'b' && s[39] == 'c'
  }

  predicate IsLeft(s: string) {
    && StartsAlike(s) && |s| == 33 && s[17] == '[' && s[27] == ' ' && s[28] == '='
    && forall k :: 17 <= k < 33 ==> s[k] != '_'
  }

  lemma NoHeaderInSwallowed(s: string, k: nat)
    requires IsSwallowed(s) && k < |s|
    ensures HeaderAt(s, k, Same, IsBlank).None?
  {
    hide Says;
    SaysAt(s, k, "authorization", 0, Same);
    SaysAt(s, k, "authorization", 1, Same);
  }

  lemma NoTokenLeft(s: string, k: nat, e: nat)
    requires IsLeft(s)
    ensures !Matches(false, s, k, e)
  {
    if HasEnt(s, k) {
      assert s[k..k + 4][0] == s[k] && s[k..k + 4][1] == s[k + 1];
      assert s[k..k + 4][3] == s[k + 3] && "ent_"[3] == '_' && "ent_"[1] == 'n';
      assert k == 7;
    }
  }

  lemma {:induction false} ValueEndIs(s: string, pos: nat, end: nat, space: char -> bool)
    requires pos <= end <= |s| && forall i :: pos <= i < end ==> IsValueChar(s[i], space)
    requires end < |s| ==> !IsValueChar(s[end], space)
    ensures ValueEnd(s, pos, space) == end
    decreases end - pos
  {
    hide IsValueChar;
    if pos < end { ValueEndIs(s, pos + 1, end, space); }
  }

  /** Both keys are there, the second with a plain value; the first match takes the second key as its value. */
  lemma SwallowedKeys(s: string)
    requires IsSwallowed(s)
    ensures KeyLength(s, 0, Same) == 16 && KeyLength(s, 17, Same) == 17
  {
    var (a, b) := ("enrollment_token", "credential_secret");
    assert Says(s, 0, a, Same) by {
      assert a == ['e', 'n', 'r', 'o', 'l', 'l', 'm', 'e', 'n', 't', '_', 't', 'o', 'k', 'e', 'n'];
    }
    assert Says(s, 17, b, Same) by {
      assert b == ['c', 'r', 'e', 'd', 'e', 'n', 't', 'i', 'a', 'l', '_', 's', 'e', 'c', 'r', 'e', 't'];
    }
    OtherKeys(s, 0, 'e', Same);
    OtherKeys(s, 17, 'c', Same);
  }

  lemma SwallowedMatch(s: string)
    requires IsSwallowed(s)
    ensures AssignmentAt(s, 0, Same, IsBlank) == Some((17, 34))
    ensures ValueStart(s, 17, Same, IsBlank) == Some(37) && |s| == 40
  {
    hide KeyLength, SkipSpace, ValueEnd;
    SwallowedKeys(s);
    SkipsNone(s, 16);
    SkipsNone(s, 17);
    SkipsOne(s, 34);
    SkipsOne(s, 36);
    ValueEndIs(s, 17, 34, IsBlank);
  }

  lemma {:induction false} SkipsOne(s: string, pos: nat)
    requires pos + 1 < |s| && IsBlank(s[pos]) && !IsBlank(s[pos + 1])
    ensures SkipSpace(s, pos, IsBlank) == pos + 1
  {
    SkipsNone(s, pos + 1);
  }

  lemma TooShortForAKey(s: string, k: nat, fold: char -> char, space: char -> bool)
    requires k <= |s| < k + 16
    ensures AssignmentAt(s, k, fold, space).None?
  {}

  lemma {:induction false} SwallowedGoesThrough(s: string)
    requires IsSwallowed(s)
    ensures HideAssignments(s, 0, Same, IsBlank) == s[..17] + MARK + s[34..]
    ensures HideAuthorization(s, 0, Same, IsBlank) == s
  {
    hide AssignmentAt, HeaderAt, HideAuthorization, HideAssignments, IsSwallowed;
    SwallowedMatch(s);
    HideAt(s, 0, Same, IsBlank);
    forall k | 34 <= k < |s| ensures AssignmentAt(s, k, Same, IsBlank).None? { TooShortForAKey(s, k, Same, IsBlank); }
    NothingHidden(s, 34, Same, IsBlank);
    forall k | 0 <= k < |s| ensures HeaderAt(s, k, Same, IsBlank).None? { NoHeaderInSwallowed(s, k); }
    NoHeaderNoChange(s, 0, Same, IsBlank);
  }

  /** Hence the whole line, which the token pattern leaves alone. */
  lemma SwallowedIsPrinted(s: string, left: string)
    requires IsSwallowed(s) && IsLeft(left) && left == s[..17] + MARK + s[34..]
    ensures Redact(s, Same, IsBlank) == left
  {
    hide IsSwallowed, IsLeft, HideAuthorization, HideAssignments, HideTokens, Matches;
    SwallowedGoesThrough(s);
    forall i: nat, e: nat ensures !Matches(false, left, i, e) { NoTokenLeft(left, i, e); }
    NothingToHide(left, 0);
    LeftIsShort(left);
    assert left[0..] == left;
  }

  lemma LeftIsShort(s: string)
    requires IsLeft(s)
    ensures |s| <= CUT
  {}

  lemma SwallowedText()
    ensures IsSwallowed(SWALLOWED)
  {}

  lemma LeftText()
    ensures IsLeft(LEFT)
  {}

  lemma LeftParts()
    ensures SWALLOWED[..17] + MARK + SWALLOWED[34..] == LEFT
  {}

  /** A secret whose key the match before it has taken as a value is flagged, begins with a plain character, and
      stays in the line. */
  lemma SwallowedSecretIsPrinted()
    ensures Flagged(SWALLOWED, 17, Same, IsBlank, IsKeyWord) && ValueStart(SWALLOWED, 17, Same, IsBlank) == Some(37)
    ensures IsValueChar(SWALLOWED[37], IsBlank)
    ensures Redact(SWALLOWED, Same, IsBlank) == LEFT
  {
    hide ValueStart, Redact, StartsAlike;
    SwallowedText();
    LeftText();
    LeftParts();
    SwallowedMatch(SWALLOWED);
    SwallowedIsPrinted(SWALLOWED, LEFT);
  }
}
