/** The redactor of evidence lines. `fold` is how the pattern engine ignores case and `space` what it takes
    for white space; nothing below depends on which they are. */
module Redaction {
  import opened Wrappers

  const MARK := "[REDACTED]"
  const CUT := 500

  // -------------------------------------------------------------- enrollment tokens

  predicate IsWord(c: char) {
    'A' <= c <= 'Z' || 'a' <= c <= 'z' || '0' <= c <= '9' || c == '_' || c == '-'
  }

  /** Where the run of word characters from `pos` ends. */
  function RunEnd(s: string, pos: nat): (e: nat)
    requires pos <= |s|
    ensures pos <= e <= |s| && (e < |s| ==> !IsWord(s[e])) && forall i :: pos <= i < e ==> IsWord(s[i])
    decreases |s| - pos
  {
    if pos == |s| || !IsWord(s[pos]) then pos else RunEnd(s, pos + 1)
  }

  /** Whether the character before `pos` is a word character; `before` answers for the start. */
  predicate WordBefore(before: bool, s: string, pos: nat)
    requires pos <= |s|
  {
    if pos == 0 then before else IsWord(s[pos - 1])
  }

  predicate HasEnt(s: string, pos: nat) {
    pos + 4 <= |s| && s[pos..pos + 4] == "ent_"
  }

  /** The token pattern matches from `i` to `e`: `ent_`, no word character before it, at least 16 after
      it, and no word character after those. */
  predicate Matches(before: bool, s: string, i: nat, e: nat) {
    && i + 20 <= e <= |s| && HasEnt(s, i) && !WordBefore(before, s, i)
    && (forall k :: i + 4 <= k < e ==> IsWord(s[k]))
    && (e < |s| ==> !IsWord(s[e]))
  }

  ghost predicate TokenFree(before: bool, s: string) {
    forall i: nat, e: nat :: !Matches(before, s, i, e)
  }

  /** The match the engine finds at `pos`, if any. */
  function TokenEnd(s: string, pos: nat): (r: Option<nat>)
    requires pos <= |s|
    ensures r.Some? ==> Matches(false, s, pos, r.value)
  {
    if HasEnt(s, pos) && !WordBefore(false, s, pos) && RunEnd(s, pos + 4) >= pos + 20 then Some(RunEnd(s, pos + 4))
    else None
  }

  lemma {:induction false} RunEndIs(s: string, pos: nat, e: nat)
    requires pos <= e <= |s| && (e < |s| ==> !IsWord(s[e])) && forall i :: pos <= i < e ==> IsWord(s[i])
    ensures RunEnd(s, pos) == e
    decreases e - pos
  {
    if pos < e { RunEndIs(s, pos + 1, e); }
  }

  /** The engine misses no match. */
  lemma MatchIsFound(s: string, pos: nat, e: nat)
    requires Matches(false, s, pos, e)
    ensures TokenEnd(s, pos) == Some(e)
  {
    RunEndIs(s, pos + 4, e);
  }

  /** `ENROLLMENT_TOKEN_VALUE.sub`, from `pos` on. */
  function HideTokens(s: string, pos: nat): string
    requires pos <= |s|
    decreases |s| - pos
  {
    if pos == |s| then ""
    else
      match TokenEnd(s, pos)
      case Some(e) => "ent_" + MARK + HideTokens(s, e)
      case None => [s[pos]] + HideTokens(s, pos + 1)
  }

  lemma NoneAfterWord(s: string, pos: nat)
    requires 0 < pos <= |s| && IsWord(s[pos - 1])
    ensures TokenEnd(s, pos).None?
  {}

  lemma TokenIsPast(s: string, pos: nat)
    requires pos <= |s| && TokenEnd(s, pos).Some?
    ensures var e := TokenEnd(s, pos).value; pos < e <= |s| && (e < |s| ==> !IsWord(s[e]))
  {}

  lemma CopiedAt(s: string, pos: nat)
    requires pos < |s| && TokenEnd(s, pos).None?
    ensures HideTokens(s, pos) == [s[pos]] + HideTokens(s, pos + 1)
  {}

  lemma {:induction false} AfterToken(s: string, e: nat)
    requires e < |s| && !IsWord(s[e])
    ensures HideTokens(s, e) != "" && HideTokens(s, e)[0] == s[e]
  {
    assert s[e] != "ent_"[0];
    assert !HasEnt(s, e) by { assert e + 4 <= |s| ==> s[e..e + 4][0] == s[e]; }
  }

  /** Inside a run of word characters no match can start, so the run is copied, and what ends it too. */
  lemma {:induction false} RunIsCopied(s: string, pos: nat)
    requires pos <= |s| && (pos < |s| ==> TokenEnd(s, pos).None?)
    ensures var e := RunEnd(s, pos);
            && HideTokens(s, pos) == s[pos..e] + HideTokens(s, e)
            && (e == |s| ==> HideTokens(s, e) == "")
            && (e < |s| ==> HideTokens(s, e) != "" && HideTokens(s, e)[0] == s[e])
    decreases |s| - pos
  {
    hide TokenEnd, HideTokens;
    var e := RunEnd(s, pos);
    if pos < e {
      NoneAfterWord(s, pos + 1);
      RunIsCopied(s, pos + 1);
      CopiedAt(s, pos);
      assert RunEnd(s, pos + 1) == e;
      assert s[pos..e] == [s[pos]] + s[pos + 1..e];
    } else {
      if pos < |s| { AfterToken(s, pos); } else { NothingCopied(s); }
      assert s[pos..pos] == "";
    }
  }

  lemma {:induction false} NothingCopied(s: string)
    ensures HideTokens(s, |s|) == ""
  {}

  /** A match at the start of a text that begins with the run at `pos` is one in the line. */
  lemma {:induction false} StartTransfers(s: string, pos: nat, out: string, e: nat)
    requires pos < |s|
    requires var end := RunEnd(s, pos);
             && s[pos..end] <= out
             && (if end == |s| then |out| == end - pos else |out| > end - pos && out[end - pos] == s[end])
    requires Matches(WordBefore(false, s, pos), out, 0, e)
    ensures Matches(false, s, pos, RunEnd(s, pos))
  {
    var end := RunEnd(s, pos);
    assert forall k :: 0 <= k < end - pos ==> out[k] == s[pos..end][k] == s[pos + k];
    assert out[0..4] == "ent_";
    assert forall k :: 0 <= k < 4 ==> IsWord(out[k]) by {
      assert out[0] == out[0..4][0] && out[1] == out[0..4][1] && out[2] == out[0..4][2] && out[3] == out[0..4][3];
    }
    assert forall k :: 0 <= k < e ==> IsWord(out[k]);
    assert end - pos == e;
    assert s[pos..pos + 4] == out[0..4];
  }

  lemma {:induction false} StartIsFree(s: string, pos: nat)
    requires pos < |s| && TokenEnd(s, pos).None?
    ensures forall e: nat :: !Matches(WordBefore(false, s, pos), HideTokens(s, pos), 0, e)
  {
    RunIsCopied(s, pos);
    forall e: nat | Matches(WordBefore(false, s, pos), HideTokens(s, pos), 0, e) ensures false {
      StartTransfers(s, pos, HideTokens(s, pos), e);
      MatchIsFound(s, pos, RunEnd(s, pos));
    }
  }

  lemma EmptyIsFree(before: bool)
    ensures TokenFree(before, "")
  {}

  lemma {:induction false} HiddenIsFree(s: string, pos: nat)
    requires pos <= |s|
    ensures TokenFree(WordBefore(false, s, pos), HideTokens(s, pos))
    decreases |s| - pos
  {
    hide Matches, TokenEnd, TokenFree;
    if pos == |s| {
      EmptyIsFree(WordBefore(false, s, pos));
      return;
    }
    match TokenEnd(s, pos) {
      case None =>
        StartIsFree(s, pos);
        HiddenIsFree(s, pos + 1);
        assert HideTokens(s, pos) == [s[pos]] + HideTokens(s, pos + 1);
        assert WordBefore(false, s, pos + 1) == IsWord(s[pos]);
        FreeAfterOne(WordBefore(false, s, pos), s[pos], HideTokens(s, pos + 1));
      case Some(e) =>
        TokenIsPast(s, pos);
        HiddenIsFree(s, e);
        if e < |s| { AfterToken(s, e); }
        FreeAfterMark(WordBefore(false, s, pos), WordBefore(false, s, e), HideTokens(s, e));
    }
  }

  lemma MatchShifts(before: bool, c: char, rest: string, i: nat, e: nat)
    requires Matches(before, [c] + rest, i, e) && i > 0
    ensures Matches(IsWord(c), rest, i - 1, e - 1)
  {
    var all := [c] + rest;
    assert forall k :: 0 <= k < |rest| ==> rest[k] == all[k + 1];
    assert HasEnt(rest, i - 1) by { assert rest[i - 1..i + 3] == all[i..i + 4]; }
    assert !WordBefore(IsWord(c), rest, i - 1) by { if i > 1 { assert rest[i - 2] == all[i - 1]; } }
    forall k | i + 3 <= k < e - 1 ensures IsWord(rest[k]) { assert rest[k] == all[k + 1]; }
    if e < |all| { assert rest[e - 1] == all[e]; }
  }

  lemma FreeAfterOne(before: bool, c: char, rest: string)
    requires TokenFree(IsWord(c), rest) && forall e: nat :: !Matches(before, [c] + rest, 0, e)
    ensures TokenFree(before, [c] + rest)
  {
    forall i: nat, e: nat | Matches(before, [c] + rest, i, e) ensures false {
      MatchShifts(before, c, rest, i, e);
    }
  }

  lemma MatchIsPastMark(before: bool, inner: bool, rest: string, i: nat, e: nat)
    requires Matches(before, "ent_" + MARK + rest, i, e)
    requires rest == "" || !IsWord(rest[0])
    ensures i > 14 && Matches(inner, rest, i - 14, e - 14)
  {
    var (mark, all) := ("ent_" + MARK, "ent_" + MARK + rest);
    assert |mark| == 14 && all[4] == '[' && forall k :: 0 < k < 14 ==> mark[k] != 'e';
    assert all[i] == all[i..i + 4][0] == 'e';
    assert forall k :: 0 <= k < 14 ==> all[k] == mark[k];
    assert forall k :: 0 <= k < |rest| ==> all[k + 14] == rest[k];
    assert i != 0 && i >= 14;
    assert i != 14;
    assert rest[i - 14..i - 10] == all[i..i + 4];
  }

  lemma FreeAfterMark(before: bool, inner: bool, rest: string)
    requires TokenFree(inner, rest) && (rest == "" || !IsWord(rest[0]))
    ensures TokenFree(before, "ent_" + MARK + rest)
  {
    forall i: nat, e: nat | Matches(before, "ent_" + MARK + rest, i, e) ensures false {
      MatchIsPastMark(before, inner, rest, i, e);
    }
  }

  lemma {:induction false} MatchGrows(before: bool, s: string, n: nat, i: nat, e: nat)
    requires n <= |s| && Matches(before, s[..n], i, e)
    ensures Matches(before, s, i, RunEnd(s, i + 4))
  {
    assert s[..n][i..i + 4] == s[i..i + 4];
    assert forall k :: i + 4 <= k < e ==> s[k] == s[..n][k];
    assert RunEnd(s, i + 4) >= e;
  }

  /** Cutting a line short makes no token of what was none. */
  lemma CutIsFree(before: bool, s: string, n: nat)
    requires n <= |s| && TokenFree(before, s)
    ensures TokenFree(before, s[..n])
  {
    forall i: nat, e: nat | Matches(before, s[..n], i, e) ensures false {
      MatchGrows(before, s, n, i, e);
    }
  }

  /** Where there is no token, nothing changes; so hiding twice is hiding once. */
  lemma {:induction false} NothingToHide(s: string, pos: nat)
    requires pos <= |s| && TokenFree(false, s)
    ensures HideTokens(s, pos) == s[pos..]
    decreases |s| - pos
  {
    if pos < |s| {
      NothingToHide(s, pos + 1);
      assert [s[pos]] + s[pos + 1..] == s[pos..];
    }
  }

  // ------------------------------------------------------- the two other substitutions

  /** `word` stands at `pos`, letter case aside. */
  predicate Says(s: string, pos: nat, word: string, fold: char -> char) {
    pos + |word| <= |s| && forall i :: 0 <= i < |word| ==> fold(s[pos + i]) == word[i]
  }

  function SkipSpace(s: string, pos: nat, space: char -> bool): (e: nat)
    requires pos <= |s|
    ensures pos <= e <= |s| && (e < |s| ==> !space(s[e])) && forall i :: pos <= i < e ==> space(s[i])
    decreases |s| - pos
  {
    if pos == |s| || !space(s[pos]) then pos else SkipSpace(s, pos + 1, space)
  }

  /** Where `authorization\s*:\s*` that starts at `pos` ends. */
  function HeaderAt(s: string, pos: nat, fold: char -> char, space: char -> bool): (r: Option<nat>)
    requires pos <= |s|
    ensures r.Some? ==> pos < r.value <= |s|
  {
    if !Says(s, pos, "authorization", fold) then None
    else
      var colon := SkipSpace(s, pos + 13, space);
      if colon < |s| && s[colon] == ':' then Some(SkipSpace(s, colon + 1, space)) else None
  }

  /** `AUTHORIZATION_VALUE.sub`: everything behind the first header goes. */
  function HideAuthorization(s: string, pos: nat, fold: char -> char, space: char -> bool): string
    requires pos <= |s|
    decreases |s| - pos
  {
    match HeaderAt(s, pos, fold, space)
    case Some(e) => s[..e] + MARK
    case None => if pos == |s| then s else HideAuthorization(s, pos + 1, fold, space)
  }

  predicate IsValueChar(c: char, space: char -> bool) {
    !space(c) && c != ',' && c != ';' && c != '"' && c != '\''
  }

  function ValueEnd(s: string, pos: nat, space: char -> bool): (e: nat)
    requires pos <= |s|
    ensures pos <= e <= |s|
    decreases |s| - pos
  {
    if pos == |s| || !IsValueChar(s[pos], space) then pos else ValueEnd(s, pos + 1, space)
  }

  /** The length of the key at `pos`, the optional prefix tried first. */
  function KeyLength(s: string, pos: nat, fold: char -> char): nat {
    if Says(s, pos, "pending_credential_secret", fold) then 25
    else if Says(s, pos, "credential_secret", fold) then 17
    else if Says(s, pos, "enrollment_token", fold) then 16
    else 0
  }

  /** A key with its equals sign or colon, whatever stands before it: where the value should begin. */
  function ValueStart(s: string, pos: nat, fold: char -> char, space: char -> bool): (r: Option<nat>)
    requires pos <= |s|
    ensures r.Some? ==> pos < r.value <= |s|
  {
    var key := KeyLength(s, pos, fold);
    if key == 0 || pos + key > |s| then None
    else
      var sign := SkipSpace(s, pos + key, space);
      if sign < |s| && (s[sign] == '=' || s[sign] == ':') then Some(SkipSpace(s, sign + 1, space)) else None
  }

  /** A key and a value: where the value begins and ends. */
  function AssignmentAt(s: string, pos: nat, fold: char -> char, space: char -> bool): (r: Option<(nat, nat)>)
    requires pos <= |s|
    ensures r.Some? ==> pos < r.value.0 < r.value.1 <= |s|
  {
    match ValueStart(s, pos, fold, space)
    case None => None
    case Some(start) => if ValueEnd(s, start, space) > start then Some((start, ValueEnd(s, start, space))) else None
  }

  /** `ASSIGNMENT_VALUE.sub`, from `pos` on. */
  function HideAssignments(s: string, pos: nat, fold: char -> char, space: char -> bool): string
    requires pos <= |s|
    decreases |s| - pos
  {
    if pos == |s| then ""
    else
      match AssignmentAt(s, pos, fold, space)
      case Some((start, end)) => s[pos..start] + MARK + HideAssignments(s, end, fold, space)
      case None => [s[pos]] + HideAssignments(s, pos + 1, fold, space)
  }

  /** `redact`. */
  function Redact(line: string, fold: char -> char, space: char -> bool): string {
    var a := HideAuthorization(line, 0, fold, space);
    var b := HideAssignments(a, 0, fold, space);
    var c := HideTokens(b, 0);
    if |c| > CUT then c[..CUT] else c
  }

  /** Whatever the line, its redacted form holds no match of the token pattern. */
  lemma RedactedHasNoToken(line: string, fold: char -> char, space: char -> bool, i: nat, e: nat)
    ensures !Matches(false, Redact(line, fold, space), i, e)
  {
    var b := HideAssignments(HideAuthorization(line, 0, fold, space), 0, fold, space);
    var c := HideTokens(b, 0);
    HiddenIsFree(b, 0);
    if |c| > CUT { CutIsFree(false, c, CUT); }
  }

  predicate NoHeader(s: string, from: nat, to: nat, fold: char -> char, space: char -> bool)
    requires to <= |s|
  {
    forall i :: from <= i < to ==> HeaderAt(s, i, fold, space).None?
  }

  /** Text before which no header starts keeps the first header where it is. */
  lemma {:induction false} FirstHeaderStays(head: string, value: string, other: string, start: nat, pos: nat,
                                            fold: char -> char, space: char -> bool)
    requires pos <= start < |head| && HeaderAt(head, start, fold, space) == Some(|head|)
    requires NoHeader(head + value, pos, start, fold, space) && NoHeader(head + other, pos, start, fold, space)
    requires (value == "" || !space(value[0])) && (other == "" || !space(other[0]))
    ensures HideAuthorization(head + value, pos, fold, space) == head + MARK
    ensures HideAuthorization(head + other, pos, fold, space) == head + MARK
    decreases start - pos
  {
    hide HeaderAt;
    if pos < start {
      FirstHeaderStays(head, value, other, start, pos + 1, fold, space);
    } else {
      HeaderStays(head, value, start, fold, space);
      HeaderStays(head, other, start, fold, space);
      assert (head + value)[..|head|] == head && (head + other)[..|head|] == head;
    }
  }

  lemma {:induction false} SpaceStays(s: string, more: string, pos: nat, space: char -> bool)
    requires pos <= |s| && (SkipSpace(s, pos, space) == |s| ==> more == "" || !space(more[0]))
    ensures SkipSpace(s + more, pos, space) == SkipSpace(s, pos, space)
    decreases |s| - pos
  {
    if pos < |s| && space(s[pos]) { SpaceStays(s, more, pos + 1, space); }
  }

  lemma HeaderStays(head: string, value: string, start: nat, fold: char -> char, space: char -> bool)
    requires start < |head| && HeaderAt(head, start, fold, space) == Some(|head|)
    requires value == "" || !space(value[0])
    ensures HeaderAt(head + value, start, fold, space) == Some(|head|)
  {
    var colon := SkipSpace(head, start + 13, space);
    SpaceStays(head, value, start + 13, space);
    SpaceStays(head, value, colon + 1, space);
  }

  /** An authorization value leaves no trace: two lines that share everything up to and with their first
      header have the same redacted form, whatever follows. */
  lemma AuthorizationLeavesNoTrace(head: string, value: string, other: string, start: nat,
                                   fold: char -> char, space: char -> bool)
    requires start < |head| && HeaderAt(head, start, fold, space) == Some(|head|)
    requires NoHeader(head + value, 0, start, fold, space) && NoHeader(head + other, 0, start, fold, space)
    requires (value == "" || !space(value[0])) && (other == "" || !space(other[0]))
    ensures Redact(head + value, fold, space) == Redact(head + other, fold, space)
  {
    FirstHeaderStays(head, value, other, start, 0, fold, space);
  }

  // ----------------------------------------------------------- a secret leaves no trace

  lemma {:induction false} SkipShifts(a: string, t: string, k: nat, space: char -> bool)
    requires k <= |t|
    ensures SkipSpace(a + t, |a| + k, space) == |a| + SkipSpace(t, k, space)
    decreases |t| - k
  {
    if k < |t| && space(t[k]) { SkipShifts(a, t, k + 1, space); }
  }

  lemma {:induction false} ValueShifts(a: string, t: string, k: nat, space: char -> bool)
    requires k <= |t|
    ensures ValueEnd(a + t, |a| + k, space) == |a| + ValueEnd(t, k, space)
    decreases |t| - k
  {
    if k < |t| && IsValueChar(t[k], space) { ValueShifts(a, t, k + 1, space); }
  }

  lemma SaysShifts(a: string, t: string, k: nat, word: string, fold: char -> char)
    ensures Says(a + t, |a| + k, word, fold) <==> Says(t, k, word, fold)
  {
    var s := a + t;
    assert forall j :: 0 <= j < |t| ==> t[j] == s[|a| + j];
    assert Says(t, k, word, fold) ==> forall i :: 0 <= i < |word| ==> fold(t[k + i]) == word[i];
  }

  lemma KeyShifts(a: string, t: string, k: nat, fold: char -> char)
    ensures KeyLength(a + t, |a| + k, fold) == KeyLength(t, k, fold)
  {
    hide Says;
    SaysShifts(a, t, k, "pending_credential_secret", fold);
    SaysShifts(a, t, k, "credential_secret", fold);
    SaysShifts(a, t, k, "enrollment_token", fold);
  }

  /** The assignment pattern looks only ahead. */
  lemma AssignmentShifts(a: string, t: string, k: nat, fold: char -> char, space: char -> bool)
    requires k <= |t|
    ensures var (here, there) := (AssignmentAt(t, k, fold, space), AssignmentAt(a + t, |a| + k, fold, space));
            there == if here.Some? then Some((|a| + here.value.0, |a| + here.value.1)) else None
  {
    hide KeyLength, SkipSpace, ValueEnd;
    KeyShifts(a, t, k, fold);
    var key := KeyLength(t, k, fold);
    if key > 0 && k + key <= |t| {
      SkipShifts(a, t, k + key, space);
      var sign := SkipSpace(t, k + key, space);
      if sign < |t| {
        SkipShifts(a, t, sign + 1, space);
        ValueShifts(a, t, SkipSpace(t, sign + 1, space), space);
      }
    }
  }

  lemma HideAt(s: string, pos: nat, fold: char -> char, space: char -> bool)
    requires pos <= |s|
    ensures HideAssignments(s, pos, fold, space) ==
            if pos == |s| then ""
            else match AssignmentAt(s, pos, fold, space)
                 case Some((start, end)) => s[pos..start] + MARK + HideAssignments(s, end, fold, space)
                 case None => [s[pos]] + HideAssignments(s, pos + 1, fold, space)
  {}

  lemma {:induction false} HideShifts(a: string, t: string, k: nat, fold: char -> char, space: char -> bool)
    requires k <= |t|
    ensures HideAssignments(a + t, |a| + k, fold, space) == HideAssignments(t, k, fold, space)
    decreases |t| - k
  {
    hide AssignmentAt, HideAssignments;
    HideAt(t, k, fold, space);
    HideAt(a + t, |a| + k, fold, space);
    if k < |t| {
      AssignmentShifts(a, t, k, fold, space);
      match AssignmentAt(t, k, fold, space) {
        case Some((start, end)) =>
          HideShifts(a, t, end, fold, space);
          assert (a + t)[|a| + k..|a| + start] == t[k..start];
        case None => HideShifts(a, t, k + 1, fold, space);
      }
    }
  }

  /** A line without a header passes the first substitution unchanged. */
  lemma {:induction false} NoHeaderNoChange(s: string, pos: nat, fold: char -> char, space: char -> bool)
    requires pos <= |s| && NoHeader(s, pos, |s|, fold, space)
    ensures HideAuthorization(s, pos, fold, space) == s
    decreases |s| - pos
  {
    if pos < |s| { NoHeaderNoChange(s, pos + 1, fold, space); }
  }

  /** The scan for assignments comes by `start`. */
  predicate Visits(s: string, pos: nat, start: nat, fold: char -> char, space: char -> bool)
    requires pos <= start <= |s|
    decreases start - pos
  {
    pos == start ||
    match AssignmentAt(s, pos, fold, space)
    case None => Visits(s, pos + 1, start, fold, space)
    case Some((_, end)) => end <= start && Visits(s, end, start, fold, space)
  }

  /** What it has written by then. */
  function Written(s: string, pos: nat, start: nat, fold: char -> char, space: char -> bool): string
    requires pos <= start <= |s| && Visits(s, pos, start, fold, space)
    decreases start - pos
  {
    if pos == start then ""
    else
      match AssignmentAt(s, pos, fold, space)
      case None => [s[pos]] + Written(s, pos + 1, start, fold, space)
      case Some((value, end)) => s[pos..value] + MARK + Written(s, end, start, fold, space)
  }

  lemma {:induction false} HideFromThere(s: string, pos: nat, start: nat, fold: char -> char, space: char -> bool)
    requires pos <= start <= |s| && Visits(s, pos, start, fold, space)
    ensures HideAssignments(s, pos, fold, space)
            == Written(s, pos, start, fold, space) + HideAssignments(s, start, fold, space)
    decreases start - pos
  {
    hide AssignmentAt, HideAssignments;
    if pos < start {
      HideAt(s, pos, fold, space);
      match AssignmentAt(s, pos, fold, space) {
        case None => HideFromThere(s, pos + 1, start, fold, space);
        case Some((_, end)) => HideFromThere(s, end, start, fold, space);
      }
    }
  }

  lemma {:induction false} SkipIsLocal(head: string, a: string, b: string, pos: nat, space: char -> bool)
    requires pos <= |head| && SkipSpace(head + a, pos, space) < |head|
    ensures SkipSpace(head + b, pos, space) == SkipSpace(head + a, pos, space)
    decreases |head| - pos
  {
    if pos < |head| && space(head[pos]) { SkipIsLocal(head, a, b, pos + 1, space); }
  }

  lemma {:induction false} ValueIsLocal(head: string, a: string, b: string, pos: nat, space: char -> bool)
    requires pos <= |head| && ValueEnd(head + a, pos, space) < |head|
    ensures ValueEnd(head + b, pos, space) == ValueEnd(head + a, pos, space)
    decreases |head| - pos
  {
    if pos < |head| && IsValueChar(head[pos], space) { ValueIsLocal(head, a, b, pos + 1, space); }
  }

  lemma SaysIsLocal(head: string, a: string, b: string, pos: nat, word: string, fold: char -> char)
    requires pos + |word| <= |head|
    ensures Says(head + a, pos, word, fold) <==> Says(head + b, pos, word, fold)
  {
    assert forall i :: 0 <= i < |head| ==> (head + a)[i] == (head + b)[i];
    if Says(head + a, pos, word, fold) {
      assert forall i :: 0 <= i < |word| ==> fold((head + a)[pos + i]) == word[i];
    }
    if Says(head + b, pos, word, fold) {
      assert forall i :: 0 <= i < |word| ==> fold((head + b)[pos + i]) == word[i];
    }
  }

  /** Which key stands there shows in its first letter. */
  lemma KeyIsLocal(head: string, a: string, b: string, pos: nat, fold: char -> char)
    requires KeyLength(head + a, pos, fold) > 0 && pos + KeyLength(head + a, pos, fold) <= |head|
    ensures KeyLength(head + b, pos, fold) == KeyLength(head + a, pos, fold)
  {
    var key := KeyLength(head + a, pos, fold);
    var word := if key == 25 then "pending_credential_secret" else if key == 17 then "credential_secret" else "enrollment_token";
    SaysIsLocal(head, a, b, pos, word, fold);
    assert fold((head + b)[pos + 0]) == word[0];
    OtherKeys(head + b, pos, word[0], fold);
  }

  lemma OtherKeys(s: string, pos: nat, first: char, fold: char -> char)
    requires pos < |s| && fold(s[pos]) == first
    ensures first != 'p' ==> !Says(s, pos, "pending_credential_secret", fold)
    ensures first != 'c' ==> !Says(s, pos, "credential_secret", fold)
    ensures first != 'e' ==> !Says(s, pos, "enrollment_token", fold)
  {
    assert Says(s, pos, "pending_credential_secret", fold) ==> fold(s[pos + 0]) == "pending_credential_secret"[0];
    assert Says(s, pos, "credential_secret", fold) ==> fold(s[pos + 0]) == "credential_secret"[0];
    assert Says(s, pos, "enrollment_token", fold) ==> fold(s[pos + 0]) == "enrollment_token"[0];
  }

  /** An assignment that ends within the head is one whatever follows. */
  lemma AssignmentIsLocal(head: string, a: string, b: string, pos: nat, fold: char -> char, space: char -> bool)
    requires pos <= |head| && AssignmentAt(head + a, pos, fold, space).Some?
    requires AssignmentAt(head + a, pos, fold, space).value.1 < |head|
    ensures AssignmentAt(head + b, pos, fold, space) == AssignmentAt(head + a, pos, fold, space)
  {
    hide KeyLength, SkipSpace, ValueEnd;
    var (s, key) := (head + a, KeyLength(head + a, pos, fold));
    var sign := SkipSpace(s, pos + key, space);
    var start := SkipSpace(s, sign + 1, space);
    KeyIsLocal(head, a, b, pos, fold);
    SkipIsLocal(head, a, b, pos + key, space);
    SkipIsLocal(head, a, b, sign + 1, space);
    ValueIsLocal(head, a, b, start, space);
    assert (head + b)[sign] == head[sign] == s[sign];
  }

  /** Two lines that agree up to a place both scans come by have been written alike up to there. */
  lemma {:induction false} WrittenAlike(head: string, a: string, b: string, pos: nat, start: nat,
                                        fold: char -> char, space: char -> bool)
    requires pos <= start < |head|
    requires Visits(head + a, pos, start, fold, space) && Visits(head + b, pos, start, fold, space)
    ensures Written(head + a, pos, start, fold, space) == Written(head + b, pos, start, fold, space)
    decreases start - pos
  {
    hide AssignmentAt;
    if pos < start {
      var (x, y) := (AssignmentAt(head + a, pos, fold, space), AssignmentAt(head + b, pos, fold, space));
      if x.Some? { AssignmentIsLocal(head, a, b, pos, fold, space); }
      if y.Some? { AssignmentIsLocal(head, b, a, pos, fold, space); }
      assert x == y;
      match x {
        case None => WrittenAlike(head, a, b, pos + 1, start, fold, space);
        case Some((value, end)) =>
          WrittenAlike(head, a, b, end, start, fold, space);
          assert (head + a)[pos..value] == head[pos..value] == (head + b)[pos..value];
      }
    }
  }

  /** What a line with an assignment at `start` turns into. */
  lemma {:induction false} SecretHidden(head: string, value: string, tail: string, start: nat, fold: char -> char,
                                        space: char -> bool)
    requires start < |head| && Visits(head + (value + tail), 0, start, fold, space)
    requires AssignmentAt(head + (value + tail), start, fold, space) == Some((|head|, |head + value|))
    ensures HideAssignments(head + (value + tail), 0, fold, space)
            == Written(head + (value + tail), 0, start, fold, space)
               + (head[start..] + MARK + HideAssignments(tail, 0, fold, space))
  {
    hide *;
    var s := head + (value + tail);
    HideFromThere(s, 0, start, fold, space);
    HideAt(s, start, fold, space);
    HideShifts(head + value, tail, 0, fold, space);
    assert (head + value) + tail == s;
    assert s[start..|head|] == head[start..];
  }

  /** A hidden value leaves no trace. Take two lines that, once everything behind their first authorization
      header is gone, differ only in a value the scan for assignments takes, be it the first or a later
      one: they have the same redacted form. */
  lemma {:induction false} SecretLeavesNoTrace(a: string, b: string, head: string, value: string, other: string,
                                               tail: string,
                                               start: nat, fold: char -> char, space: char -> bool)
    requires start < |head|
    requires HideAuthorization(a, 0, fold, space) == head + (value + tail)
    requires HideAuthorization(b, 0, fold, space) == head + (other + tail)
    requires Visits(head + (value + tail), 0, start, fold, space) && Visits(head + (other + tail), 0, start, fold, space)
    requires AssignmentAt(head + (value + tail), start, fold, space) == Some((|head|, |head + value|))
    requires AssignmentAt(head + (other + tail), start, fold, space) == Some((|head|, |head + other|))
    ensures Redact(a, fold, space) == Redact(b, fold, space)
  {
    hide AssignmentAt, HideAuthorization, HideAssignments, HideTokens, Visits, Written;
    SecretHidden(head, value, tail, start, fold, space);
    SecretHidden(head, other, tail, start, fold, space);
    WrittenAlike(head, value + tail, other + tail, 0, start, fold, space);
  }
}
