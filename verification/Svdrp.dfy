/** Reading SVDRP replies off a socket that may cut the bytes anywhere. A `string` stands for bytes
    here, one character per byte. */
module Svdrp {
  import opened Strings
  import opened Wrappers

  const MAX_BYTES := 8192
  const RECV := 1024
  const MAX_LINES := 64
  const LF := '\n'

  datatype Failure =
    | ConnectionClosed | TooLong | BadLine | BadSeparator | BadText | BadGreeting | Inconsistent | TooManyLines

  // ------------------------------------------------------------------ one line

  function Flatten(chunks: seq<string>): string {
    if chunks == [] then "" else chunks[0] + Flatten(chunks[1..])
  }

  /** What `recv(1024)` may return until the peer closes. */
  ghost predicate Chunked(chunks: seq<string>) {
    forall i :: 0 <= i < |chunks| ==> 0 < |chunks[i]| <= 1024
  }

  /** The length of the first line without its newline, or of everything if there is none. */
  function LineLength(s: string): (n: nat)
    ensures n <= |s| && (n < |s| ==> s[n] == LF) && forall i :: 0 <= i < n ==> s[i] != LF
  {
    if s == "" || s[0] == LF then 0 else 1 + LineLength(s[1..])
  }

  datatype Fetched = Got(buffer: string, rest: seq<string>) | Failed(failure: Failure)

  /** The receive loop of `read_line`. */
  function Fetch(buffer: string, chunks: seq<string>): Fetched
    decreases |chunks|
  {
    if LF in buffer then Got(buffer, chunks)
    else if chunks == [] || chunks[0] == "" then Failed(ConnectionClosed)
    else if |buffer + chunks[0]| > MAX_BYTES then Failed(TooLong)
    else Fetch(buffer + chunks[0], chunks[1..])
  }

  /** `rstrip(b"\\r")`. */
  function StripCR(s: string): (r: string)
    ensures r <= s && (forall i :: |r| <= i < |s| ==> s[i] == '\r') && (r != "" ==> r[|r| - 1] != '\r')
  {
    if s != "" && s[|s| - 1] == '\r' then StripCR(s[..|s| - 1]) else s
  }

  /** However the bytes are cut, the first line of these arrives whole: they fit the limit altogether, or
      the line leaves room for one more receive before it. */
  predicate Fits(s: string) {
    |s| <= 8192 || LineLength(s) <= 8192 - 1024
  }

  lemma {:induction false} LineLengthOf(s: string, n: nat)
    requires n <= |s| && (n < |s| ==> s[n] == LF) && forall i :: 0 <= i < n ==> s[i] != LF
    ensures LineLength(s) == n
  {}

  /** Nothing is lost or invented while receiving, and where the line fits, the cuts do not matter. */
  lemma {:induction false} FetchMeans(buffer: string, chunks: seq<string>)
    ensures var (f, all) := (Fetch(buffer, chunks), buffer + Flatten(chunks));
            && (f.Got? ==> f.buffer + Flatten(f.rest) == all && LF in f.buffer && LF in all)
            && (f.Got? && Chunked(chunks) ==> Chunked(f.rest))
            && (Chunked(chunks) && (LF in buffer || |buffer| <= MAX_BYTES) && Fits(all) ==>
                  (if LF in all then f.Got? else f == Failed(ConnectionClosed)))
            && (Chunked(chunks) && |buffer| <= MAX_BYTES && |all| > MAX_BYTES && LineLength(all) >= MAX_BYTES ==>
                  f == Failed(TooLong))
    decreases |chunks|
  {
    var all := buffer + Flatten(chunks);
    if LF in buffer {
      var i :| 0 <= i < |buffer| && buffer[i] == LF;
      assert all[i] == LF;
    } else if chunks == [] {
      assert all == buffer;
    } else if chunks[0] != "" {
      var next := buffer + chunks[0];
      assert next + Flatten(chunks[1..]) == all;
      assert forall i :: 0 <= i < |buffer| ==> all[i] == buffer[i];
      FetchMeans(next, chunks[1..]);
      BufferWithoutLine(buffer, all);
    }
  }

  lemma {:induction false} BufferWithoutLine(buffer: string, all: string)
    requires buffer <= all && LF !in buffer
    ensures |buffer| <= LineLength(all)
  {
    forall i | 0 <= i < |buffer| ensures all[i] != LF {
      assert all[i] == buffer[i] && buffer[i] in buffer;
    }
  }

  /** The first line of a buffer that holds one is the first line of the whole stream. */
  lemma LineSplits(buffer: string, more: string)
    requires LF in buffer
    ensures var n := LineLength(buffer);
            && n < |buffer| && LineLength(buffer + more) == n
            && (buffer + more)[..n] == buffer[..n]
            && buffer + more == buffer[..n] + [LF] + (buffer[n + 1..] + more)
  {
    var n := LineLength(buffer);
    assert n < |buffer| by { var i :| 0 <= i < |buffer| && buffer[i] == LF; }
    LineLengthOf(buffer + more, n);
  }

  class Connection {
    /** What the socket will deliver, receive by receive; after the last it reports the end. */
    var incoming: seq<string>
    var buffer: string

    constructor (incoming: seq<string>)
      ensures this.incoming == incoming && buffer == ""
    {
      this.incoming, buffer := incoming, "";
    }

    /** Every byte not yet handed out, buffered or still to come. */
    ghost function Unread(): string
      reads this
    {
      buffer + Flatten(incoming)
    }

    method Recv() returns (chunk: string)
      modifies this`incoming
      ensures chunk == if old(incoming) == [] then "" else old(incoming)[0]
      ensures incoming == if old(incoming) == [] then [] else old(incoming)[1..]
    {
      if incoming == [] { return ""; }
      chunk := incoming[0];
      incoming := incoming[1..];
    }

    /** `read_line`. The line, its newline and what is still unread together are what was unread before;
        and where the line fits, the outcome depends on those bytes alone, not on their cuts. */
    method ReadLine() returns (r: Result<string, Failure>)
      modifies this
      ensures r.Ok? ==> var n := LineLength(old(Unread()));
                        && n < |old(Unread())|
                        && r.value == StripCR(old(Unread())[..n])
                        && old(Unread()) == old(Unread())[..n] + [LF] + Unread()
      ensures old(Chunked(incoming)) ==> r.Ok? ==> Chunked(incoming)
      ensures old(Chunked(incoming) && (LF in buffer || |buffer| <= MAX_BYTES) && Fits(Unread())) ==>
                if LF in old(Unread()) then r.Ok? else r == Stop(ConnectionClosed)
      ensures r.Ok? && old(|buffer| <= MAX_BYTES) ==> |buffer| <= MAX_BYTES
    {
      hide Fits, StripCR, LineLength;
      ghost var goal := Fetch(buffer, incoming);
      ghost var all := Unread();
      FetchMeans(buffer, incoming);
      while LF !in buffer
        invariant Fetch(buffer, incoming) == goal
        invariant old(|buffer| <= MAX_BYTES) ==> |buffer| <= MAX_BYTES
        decreases |incoming|
      {
        var chunk := Recv();
        if chunk == "" { return Stop(ConnectionClosed); }
        buffer := buffer + chunk;
        if |buffer| > MAX_BYTES { return Stop(TooLong); }
      }
      assert goal == Got(buffer, incoming);
      LineSplits(buffer, Flatten(incoming));
      var n := LineLength(buffer);
      var line := buffer[..n];
      buffer := buffer[n + 1..];
      r := Ok(StripCR(line));
    }
  }

  // ------------------------------------------------------- exactly when the cuts matter

  /** A line too long to leave room for a whole receive, too short to be refused anyway, with more bytes
      behind the limit. */
  predicate CutsMatter(s: string) {
    |s| > 8192 && 8192 - 1024 < LineLength(s) < 8192
  }

  /** What a first `read_line` says of a stream cut in this way: the line, or the failure. */
  function FirstLine(chunks: seq<string>): Result<string, Failure> {
    match Fetch("", chunks)
    case Failed(e) => Stop(e)
    case Got(buffer, _) => Ok(StripCR(buffer[..LineLength(buffer)]))
  }

  function Singles(s: string): seq<string> {
    if s == "" then [] else [s[..1]] + Singles(s[1..])
  }

  lemma {:induction false} SinglesAre(s: string)
    ensures Flatten(Singles(s)) == s && Chunked(Singles(s))
  {
    if s != "" { SinglesAre(s[1..]); }
  }

  lemma {:induction false} ByteByByte(buffer: string, s: string, more: seq<string>)
    requires LF !in buffer + s && |buffer + s| <= MAX_BYTES
    ensures Fetch(buffer, Singles(s) + more) == Fetch(buffer + s, more)
    decreases s
  {
    if s == "" {
      assert Singles(s) + more == more && buffer + s == buffer;
    } else {
      var chunks := Singles(s) + more;
      assert chunks[0] == s[..1] && chunks[1..] == Singles(s[1..]) + more;
      assert buffer + s[..1] + s[1..] == buffer + s;
      ByteByByte(buffer + s[..1], s[1..], more);
    }
  }

  lemma {:induction false} FlattenSplit(a: seq<string>, b: seq<string>)
    ensures Flatten(a + b) == Flatten(a) + Flatten(b)
  {
    if a == [] {
      assert a + b == b;
    } else {
      assert (a + b)[1..] == a[1..] + b;
      FlattenSplit(a[1..], b);
    }
  }

  lemma ChunkedTogether(a: seq<string>, b: seq<string>)
    requires Chunked(a) && Chunked(b)
    ensures Chunked(a + b)
  {}

  lemma {:induction false} ChunkFirst(chunk: string, more: seq<string>)
    requires 0 < |chunk| <= RECV && Chunked(more)
    ensures Flatten([chunk] + more) == chunk + Flatten(more) && Chunked([chunk] + more)
  {
    assert ([chunk] + more)[1..] == more;
  }

  lemma JoinedCuts(s: string, m: nat, e: nat)
    requires m <= e <= |s|
    ensures s[..m] + (s[m..e] + s[e..]) == s && s[..m] + s[m..] == s
  {}

  /** Byte by byte the line arrives. */
  lemma CutSmall(s: string, n: nat) returns (a: seq<string>)
    requires n == LineLength(s) < |s| && n < MAX_BYTES
    ensures Chunked(a) && Flatten(a) == s && FirstLine(a).Ok?
  {
    hide Chunked, Singles, Flatten, StripCR;
    var (head, tail) := (s[..n], s[n..]);
    a := Singles(head) + Singles(tail);
    JoinedCuts(s, n, n);
    SinglesAre(head);
    SinglesAre(tail);
    FlattenSplit(Singles(head), Singles(tail));
    ChunkedTogether(Singles(head), Singles(tail));
    assert "" + head == head;
    ByteByByte("", head, Singles(tail));
    NewlineArrives(head, tail);
  }

  lemma {:induction false} NewlineArrives(head: string, tail: string)
    requires tail != "" && tail[0] == LF && |head| < MAX_BYTES
    ensures Fetch(head, Singles(tail)).Got?
  {
    var chunks := Singles(tail);
    assert chunks[0] == [LF];
    assert (head + chunks[0])[|head|] == LF;
  }

  /** With one full receive across the limit it is refused. */
  lemma CutAcross(s: string, m: nat, e: nat) returns (b: seq<string>)
    requires m < LineLength(s) + 1 && m <= MAX_BYTES && m < e <= |s| && e > MAX_BYTES && e - m <= RECV
    ensures Chunked(b) && Flatten(b) == s && FirstLine(b) == Stop(TooLong)
  {
    hide Chunked, Singles, Flatten, StripCR;
    var (head, middle, tail) := (s[..m], s[m..e], s[e..]);
    var rest := [middle] + Singles(tail);
    b := Singles(head) + rest;
    JoinedCuts(s, m, e);
    SinglesAre(head);
    SinglesAre(tail);
    ChunkFirst(middle, Singles(tail));
    FlattenSplit(Singles(head), rest);
    ChunkedTogether(Singles(head), rest);
    assert "" + head == head;
    ByteByByte("", head, rest);
    OverTheLimit(head, middle, Singles(tail));
  }

  lemma {:induction false} OverTheLimit(head: string, middle: string, more: seq<string>)
    requires LF !in head && middle != "" && |head + middle| > MAX_BYTES
    ensures Fetch(head, [middle] + more) == Failed(TooLong)
  {}

  /** The only thing a first `read_line` can say outside the band. */
  lemma {:induction false} OneOutcome(s: string, a: seq<string>)
    requires Chunked(a) && Flatten(a) == s && !CutsMatter(s)
    ensures FirstLine(a) == if LF in s && Fits(s) then Ok(StripCR(s[..LineLength(s)]))
                            else if Fits(s) then Stop(ConnectionClosed) else Stop(TooLong)
  {
    assert "" + s == s;
    FetchMeans("", a);
    if Fetch("", a).Got? { FetchedLine(s, a); }
  }

  lemma {:induction false} FetchedLine(s: string, a: seq<string>)
    requires Flatten(a) == s && Fetch("", a).Got?
    ensures var buffer := Fetch("", a).buffer;
            LineLength(buffer) == LineLength(s) && buffer[..LineLength(buffer)] == s[..LineLength(s)]
  {
    hide Fetch, Fits;
    assert "" + s == s;
    FetchMeans("", a);
    LineSplits(Fetch("", a).buffer, Flatten(Fetch("", a).rest));
  }

  /** The first line read off a stream is the same for every way of cutting it, unless and only unless
      the line is in the band where one receive may cross the limit. */
  lemma CutsMatterExactly(s: string)
    ensures (forall a, b :: Chunked(a) && Chunked(b) && Flatten(a) == s && Flatten(b) == s ==> FirstLine(a) == FirstLine(b))
            <==> !CutsMatter(s)
  {
    if CutsMatter(s) {
      var a := CutSmall(s, LineLength(s));
      var b := CutAcross(s, MAX_BYTES - RECV + 1, MAX_BYTES + 1);
      assert FirstLine(a) != FirstLine(b);
    } else {
      forall a | Chunked(a) && Flatten(a) == s
        ensures FirstLine(a) == if LF in s && Fits(s) then Ok(StripCR(s[..LineLength(s)]))
                                else if Fits(s) then Stop(ConnectionClosed) else Stop(TooLong)
      {
        OneOutcome(s, a);
      }
    }
  }

  // --------------------------------------------------------------------- a request

  function Digit(c: char): nat
    requires IsDigit(c)
  {
    c as int - '0' as int
  }

  datatype Line = Line(code: nat, last: bool, payload: string)

  /** `parse_svdrp_line`; `decode` is strict UTF-8. */
  function ParseLine(line: string, decode: string -> Option<string>): Result<Line, Failure> {
    if |line| < 4 || !IsDigit(line[0]) || !IsDigit(line[1]) || !IsDigit(line[2]) then Stop(BadLine)
    else if line[3] != ' ' && line[3] != '-' then Stop(BadSeparator)
    else
      match decode(line[4..])
      case None => Stop(BadText)
      case Some(payload) =>
        Ok(Line(100 * Digit(line[0]) + 10 * Digit(line[1]) + Digit(line[2]), line[3] == ' ', payload))
  }

  function Join(payloads: seq<string>): string {
    if payloads == [] then ""
    else if |payloads| == 1 then payloads[0]
    else Join(payloads[..|payloads| - 1]) + [LF] + payloads[|payloads| - 1]
  }

  /** The payloads put together: a line feed between any two, none at the ends. */
  lemma {:induction false} JoinMeans(a: seq<string>, b: seq<string>, payload: string)
    ensures Join([]) == "" && Join([payload]) == payload
    ensures a != [] && b != [] ==> Join(a + b) == Join(a) + "\n" + Join(b)
    decreases |b|
  {
    if a != [] && b != [] {
      var (front, last) := (b[..|b| - 1], b[|b| - 1]);
      assert (a + b)[..|a + b| - 1] == a + front;
      if front == [] {
        assert a + front == a && b == [last];
      } else {
        JoinMeans(a, front, payload);
      }
    }
  }

  datatype Reply = Reply(code: nat, text: string)

  /** The first line of a stream and what follows it. */
  function TakeLine(s: string): (r: Option<(string, string)>)
    ensures r.Some? ==> |r.value.1| < |s|
  {
    if LineLength(s) == |s| then None else Some((StripCR(s[..LineLength(s)]), s[LineLength(s) + 1..]))
  }

  /** What a stream of lines comes to, after a code and some payloads were read. */
  function Collect(s: string, decode: string -> Option<string>, code: nat, payloads: seq<string>): Result<Reply,
                   Failure>
    decreases |s|
  {
    match TakeLine(s)
    case None => Stop(ConnectionClosed)
    case Some((line, rest)) =>
      match ParseLine(line, decode)
      case Stop(e) => Stop(e)
      case Ok(parsed) =>
        if code != 0 && parsed.code != code then Stop(Inconsistent)
        else
          var (next, all) := (if code == 0 then parsed.code else code, payloads + [parsed.payload]);
          if parsed.last then Ok(Reply(next, Join(all)))
          else if |all| >= MAX_LINES then Stop(TooManyLines)
          else Collect(rest, decode, next, all)
  }

  /** The outcome of a request, from the bytes of the whole stream. */
  function Conversation(s: string, decode: string -> Option<string>): Result<Reply, Failure> {
    match TakeLine(s)
    case None => Stop(ConnectionClosed)
    case Some((line, rest)) =>
      match ParseLine(line, decode)
      case Stop(e) => Stop(e)
      case Ok(greeting) =>
        if greeting.code != 220 || !greeting.last then Stop(BadGreeting) else Collect(rest, decode, 0, [])
  }

  // ------------------------------------------------- what a well-behaved server sends

  function Digits(code: nat): string
    requires code < 1000
  {
    ['0' + (code / 100) as char, '0' + (code / 10 % 10) as char, '0' + (code % 10) as char]
  }

  function LineOf(code: nat, last: bool, text: string): string
    requires code < 1000
  {
    Digits(code) + (if last then " " else "-") + text
  }

  /** A reply as it goes over the wire: every line but the last marked as continued, CRLF after each. */
  function Wire(code: nat, texts: seq<string>): string
    requires code < 1000
  {
    if texts == [] then ""
    else LineOf(code, |texts| == 1, texts[0]) + "\r\n" + Wire(code, texts[1..])
  }

  /** Text that survives the trip as one line: no line feed, no carriage return at the end, and decodable. */
  predicate Sendable(text: string, decode: string -> Option<string>) {
    LF !in text && (text != "" ==> text[|text| - 1] != '\r') && decode(text).Some?
  }

  function DecodedAll(texts: seq<string>, decode: string -> Option<string>): seq<string>
    requires forall i :: 0 <= i < |texts| ==> Sendable(texts[i], decode)
  {
    if texts == [] then []
    else
      assert Sendable(texts[0], decode);
      [decode(texts[0]).value] + DecodedAll(texts[1..], decode)
  }

  lemma LineParses(code: nat, last: bool, text: string, decode: string -> Option<string>)
    requires code < 1000 && decode(text).Some?
    ensures ParseLine(LineOf(code, last, text), decode) == Ok(Line(code, last, decode(text).value))
  {
    var line := LineOf(code, last, text);
    assert line[4..] == text;
    assert line[3] == if last then ' ' else '-';
  }

  /** A line is accepted exactly if it is three digits, a space or a hyphen, and text that can be decoded, and then is
      read as that. */
  lemma ParsesExactly(line: string, decode: string -> Option<string>, parsed: Line)
    ensures ParseLine(line, decode) == Ok(parsed) <==>
            parsed.code < 1000
            && exists text :: line == LineOf(parsed.code, parsed.last, text) && decode(text) == Some(parsed.payload)
    ensures ParseLine(line, decode) == Stop(BadText) <==>
            exists code, last, text :: 0 <= code < 1000 && line == LineOf(code, last, text) && decode(text).None?
  {
    hide Digits, Digit, IsDigit;
    if ParseLine(line, decode).Ok? || ParseLine(line, decode) == Stop(BadText) { WrittenSo(line, decode); }
    if parsed.code < 1000
       && exists text :: line == LineOf(parsed.code, parsed.last, text) && decode(text) == Some(parsed.payload)
    {
      var text :| line == LineOf(parsed.code, parsed.last, text) && decode(text) == Some(parsed.payload);
      LineParses(parsed.code, parsed.last, text, decode);
    }
    if code, last, text :| 0 <= code < 1000 && line == LineOf(code, last, text) && decode(text).None? {
      Undecoded(code, last, text, decode);
    }
  }

  lemma WrittenSo(line: string, decode: string -> Option<string>)
    requires ParseLine(line, decode).Ok? || ParseLine(line, decode) == Stop(BadText)
    ensures |line| >= 4 && IsDigit(line[0]) && IsDigit(line[1]) && IsDigit(line[2])
    ensures var code := 100 * Digit(line[0]) + 10 * Digit(line[1]) + Digit(line[2]);
            code < 1000 && line == LineOf(code, line[3] == ' ', line[4..])
  {
    hide Digits, Digit;
    DigitsBack(line);
    assert line == line[..3] + [line[3]] + line[4..];
  }

  lemma Undecoded(code: nat, last: bool, text: string, decode: string -> Option<string>)
    requires code < 1000 && decode(text).None?
    ensures ParseLine(LineOf(code, last, text), decode) == Stop(BadText)
  {
    var line := LineOf(code, last, text);
    assert line[4..] == text;
    assert line[3] == if last then ' ' else '-';
  }

  lemma Places(a: nat, b: nat, c: nat)
    requires a < 10 && b < 10 && c < 10
    ensures var code := 100 * a + 10 * b + c;
            code < 1000 && code / 100 == a && code / 10 == 10 * a + b && code / 10 % 10 == b && code % 10 == c
  {}

  lemma DigitChar(c: char)
    requires IsDigit(c)
    ensures Digit(c) < 10 && '0' + Digit(c) as char == c
  {}

  lemma DigitsBack(line: string)
    requires |line| >= 3 && IsDigit(line[0]) && IsDigit(line[1]) && IsDigit(line[2])
    ensures var code := 100 * Digit(line[0]) + 10 * Digit(line[1]) + Digit(line[2]);
            code < 1000 && Digits(code) == line[..3]
  {
    hide Digit, IsDigit;
    DigitChar(line[0]);
    DigitChar(line[1]);
    DigitChar(line[2]);
    Places(Digit(line[0]), Digit(line[1]), Digit(line[2]));
  }

  /** What else a line may fail for: fewer than three digits and a separator, or another separator. */
  lemma RefusedFor(line: string, decode: string -> Option<string>)
    ensures ParseLine(line, decode) == Stop(BadLine) <==>
            |line| < 4 || exists i :: 0 <= i < 3 && line[i] !in "0123456789"
    ensures ParseLine(line, decode) == Stop(BadSeparator) <==>
            |line| >= 4 && (forall i :: 0 <= i < 3 ==> line[i] in "0123456789") && line[3] != ' ' && line[3] != '-'
  {
    if |line| >= 4 {
      forall i | 0 <= i < 3 ensures IsDigit(line[i]) <==> line[i] in "0123456789" { DigitsAreTen(line[i]); }
      assert IsDigit(line[0]) && IsDigit(line[1]) && IsDigit(line[2]) <==> forall i :: 0 <= i < 3 ==> IsDigit(line[i]);
    }
  }

  lemma LineTaken(code: nat, last: bool, text: string, rest: string)
    requires code < 1000 && LF !in text && (text != "" ==> text[|text| - 1] != '\r')
    ensures TakeLine(LineOf(code, last, text) + "\r\n" + rest) == Some((LineOf(code, last, text), rest))
  {
    var line := LineOf(code, last, text);
    var (s, n) := (line + "\r\n" + rest, |line| + 1);
    assert s[|line|] == '\r' && s[n] == LF;
    forall i | 0 <= i < n ensures s[i] != LF {
      if i < |line| {
        assert s[i] == line[i];
        if i >= 4 { assert line[i] == text[i - 4] && text[i - 4] in text; }
      }
    }
    LineLengthOf(s, n);
    assert s[..n] == line + "\r" && s[n + 1..] == rest;
    assert line[|line| - 1] != '\r' by { if text != "" { assert line[|line| - 1] == text[|text| - 1]; } }
    StripsOne(line);
  }

  lemma {:induction false} StripsOne(line: string)
    requires line != "" && line[|line| - 1] != '\r'
    ensures StripCR(line + "\r") == line
  {
    assert (line + "\r")[..|line|] == line;
    assert StripCR(line) == line;
  }

  /** The lines of a reply are collected in order, whatever follows them on the stream. */
  lemma {:induction false} WireCollects(code: nat, texts: seq<string>, after: string, decode: string -> Option<string>,
                                        sofar: nat, payloads: seq<string>)
    requires 0 < code < 1000 && texts != [] && (sofar == 0 || sofar == code)
    requires forall i :: 0 <= i < |texts| ==> Sendable(texts[i], decode)
    requires |payloads| + |texts| <= 64
    ensures Collect(Wire(code, texts) + after, decode, sofar, payloads)
            == Ok(Reply(code, Join(payloads + DecodedAll(texts, decode))))
    decreases |texts|
  {
    hide ParseLine, LineOf, Join, TakeLine;
    var (text, last) := (texts[0], |texts| == 1);
    var (line, rest) := (LineOf(code, last, text), Wire(code, texts[1..]) + after);
    assert Wire(code, texts) + after == line + "\r\n" + rest;
    assert Sendable(text, decode);
    LineTaken(code, last, text, rest);
    LineParses(code, last, text, decode);
    var more := payloads + [decode(text).value];
    if last {
      assert more == payloads + DecodedAll(texts, decode);
    } else {
      assert more + DecodedAll(texts[1..], decode) == payloads + DecodedAll(texts, decode);
      WireCollects(code, texts[1..], after, decode, code, more);
    }
  }

  /** The round trip: a greeting and then a reply of 1 to 64 lines come back as the reply's code and its
      texts joined by line feeds. */
  lemma {:induction false} WireReadBack(greeting: string, code: nat, texts: seq<string>, after: string,
                                        decode: string -> Option<string>)
    requires Sendable(greeting, decode) && 0 < code < 1000 && 0 < |texts| <= 64
    requires forall i :: 0 <= i < |texts| ==> Sendable(texts[i], decode)
    ensures Conversation(LineOf(220, true, greeting) + "\r\n" + (Wire(code, texts) + after), decode)
            == Ok(Reply(code, Join(DecodedAll(texts, decode))))
  {
    LineTaken(220, true, greeting, Wire(code, texts) + after);
    LineParses(220, true, greeting, decode);
    WireCollects(code, texts, after, decode, 0, []);
    assert [] + DecodedAll(texts, decode) == DecodedAll(texts, decode);
  }

  /** A reply of more than 64 lines is refused, whatever they say. */
  lemma {:induction false} WireTooLong(code: nat, texts: seq<string>, after: string, decode: string -> Option<string>,
                                       sofar: nat, payloads: seq<string>)
    requires 0 < code < 1000 && (sofar == 0 || sofar == code) && |payloads| < 64 < |payloads| + |texts|
    requires forall i :: 0 <= i < |texts| ==> Sendable(texts[i], decode)
    ensures Collect(Wire(code, texts) + after, decode, sofar, payloads) == Stop(TooManyLines)
    decreases |texts|
  {
    hide ParseLine, LineOf, Join, TakeLine;
    var text := texts[0];
    var (line, rest) := (LineOf(code, false, text), Wire(code, texts[1..]) + after);
    assert Wire(code, texts) + after == line + "\r\n" + rest;
    assert Sendable(text, decode);
    LineTaken(code, false, text, rest);
    LineParses(code, false, text, decode);
    if |payloads| + 1 < 64 {
      WireTooLong(code, texts[1..], after, decode, code, payloads + [decode(text).value]);
    }
  }

  /** No line of the stream is in reach of the limit. */
  predicate Calm(s: string)
    decreases |s|
  {
    Fits(s) && (LineLength(s) < |s| ==> Calm(s[LineLength(s) + 1..]))
  }

  lemma {:induction false} SmallIsCalm(s: string)
    requires |s| <= 8192
    ensures Calm(s)
    decreases |s|
  {
    if LineLength(s) < |s| { SmallIsCalm(s[LineLength(s) + 1..]); }
  }

  /** One `read_line` on a calm stream, in terms of its bytes. */
  method NextLine(c: Connection) returns (r: Result<string, Failure>)
    requires Chunked(c.incoming) && |c.buffer| <= MAX_BYTES && Calm(c.Unread())
    modifies c
    ensures Chunked(c.incoming) || r.Stop?
    ensures |c.buffer| <= MAX_BYTES || r.Stop?
    ensures match TakeLine(old(c.Unread()))
            case None => r == Stop(ConnectionClosed)
            case Some((line, rest)) => r == Ok(line) && c.Unread() == rest && Calm(c.Unread())
  {
    ghost var s := c.Unread();
    assert LF in s <==> LineLength(s) < |s| by {
      if LineLength(s) < |s| { assert s[LineLength(s)] in s; }
    }
    r := c.ReadLine();
    assert r.Ok? ==> s[LineLength(s) + 1..] == c.Unread();
  }

  /** `svdrp_request`, from the greeting on: on a calm stream, and so on any of at most 8192 bytes, the
      code, the payload or the failure depend on the bytes alone, whatever the receives were. */
  method Request(c: Connection, decode: string -> Option<string>) returns (r: Result<Reply, Failure>)
    requires Chunked(c.incoming) && c.buffer == "" && Calm(c.Unread())
    modifies c
    ensures r == Conversation(old(c.Unread()), decode)
  {
    ghost var all := c.Unread();
    var line := NextLine(c);
    if line.Stop? { return Stop(line.error); }
    var greeting := ParseLine(line.value, decode);
    if greeting.Stop? { return Stop(greeting.error); }
    if greeting.value.code != 220 || !greeting.value.last { return Stop(BadGreeting); }
    var replyCode := 0;
    var payloads: seq<string> := [];
    while true
      invariant Chunked(c.incoming) && |c.buffer| <= MAX_BYTES && Calm(c.Unread())
      invariant |payloads| < MAX_LINES
      invariant Conversation(all, decode) == Collect(c.Unread(), decode, replyCode, payloads)
      decreases MAX_LINES - |payloads|
    {
      line := NextLine(c);
      if line.Stop? { return Stop(line.error); }
      var parsed := ParseLine(line.value, decode);
      if parsed.Stop? { return Stop(parsed.error); }
      if replyCode == 0 {
        replyCode := parsed.value.code;
      } else if parsed.value.code != replyCode {
        return Stop(Inconsistent);
      }
      payloads := payloads + [parsed.value.payload];
      if parsed.value.last { return Ok(Reply(replyCode, Join(payloads))); }
      if |payloads| >= MAX_LINES { return Stop(TooManyLines); }
    }
  }
}
