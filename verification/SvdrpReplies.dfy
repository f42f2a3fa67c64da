/** What a conversation comes to, in terms of the lines it is made of. */
module SvdrpReplies {
  import opened Wrappers
  import opened Svdrp

  /** A line is the text up to a line feed, without carriage returns at its end. */
  lemma {:induction false} TakeLineMeans(line: string, ends: string, rest: string)
    requires '\n' !in line && (line != "" ==> line[|line| - 1] != '\r') && forall i :: 0 <= i < |ends| ==> ends[i] == '\r'
    ensures TakeLine(line + ends + "\n" + rest) == Some((line, rest))
  {
    hide StripCR, LineLength;
    var s := line + ends + "\n" + rest;
    FirstFeed(line + ends, rest);
    assert line + ends + "\n" + rest == (line + ends) + "\n" + rest;
    assert s[..|line + ends|] == line + ends && s[|line + ends| + 1..] == rest;
    StripsAll(line, ends);
  }

  lemma {:induction false} FirstFeed(front: string, rest: string)
    requires '\n' !in front
    ensures LineLength(front + "\n" + rest) == |front|
  {
    var s := front + "\n" + rest;
    if front == "" {
      assert s[0] == '\n';
    } else {
      assert s[0] == front[0] && front[0] in front && s[1..] == front[1..] + "\n" + rest;
      FirstFeed(front[1..], rest);
    }
  }

  lemma {:induction false} StripsAll(line: string, ends: string)
    requires (line != "" ==> line[|line| - 1] != '\r') && forall i :: 0 <= i < |ends| ==> ends[i] == '\r'
    ensures StripCR(line + ends) == line
    decreases |ends|
  {
    if ends == "" {
      assert line + ends == line;
    } else {
      var s := line + ends;
      assert s[..|s| - 1] == line + ends[..|ends| - 1];
      StripsAll(line, ends[..|ends| - 1]);
    }
  }

  lemma {:induction false} NoFeedNoLine(s: string)
    requires '\n' !in s
    ensures TakeLine(s) == None
  {
    NoFeed(s);
  }

  lemma {:induction false} NoFeed(s: string)
    requires '\n' !in s
    ensures LineLength(s) == |s|
  {
    if s != "" {
      assert s[0] in s;
      NoFeed(s[1..]);
    }
  }

  /** The stream begins with these lines. */
  predicate Begins(s: string, decode: string -> Option<string>, lines: seq<Line>)
    decreases |lines|
  {
    lines != [] ==>
      match TakeLine(s)
      case None => false
      case Some((line, rest)) => ParseLine(line, decode) == Ok(lines[0]) && Begins(rest, decode, lines[1..])
  }

  function Payloads(lines: seq<Line>): seq<string> {
    if lines == [] then [] else [lines[0].payload] + Payloads(lines[1..])
  }

  /** Only the last line is marked as the last. */
  predicate OneReply(lines: seq<Line>) {
    lines != [] && forall i :: 0 <= i < |lines| ==> (lines[i].last <==> i == |lines| - 1)
  }

  /** Read after lines with the code `sofar`, they end in `code`, and none has another; 000 stands for no code. */
  predicate Agree(lines: seq<Line>, sofar: nat, code: nat) {
    if lines == [] then sofar == code
    else (sofar == 0 || lines[0].code == sofar) && Agree(lines[1..], lines[0].code, code)
  }

  lemma {:induction false} CollectGives(s: string, decode: string -> Option<string>, sofar: nat, payloads: seq<string>,
                                        lines: seq<Line>, code: nat)
    requires Begins(s, decode, lines) && OneReply(lines) && |payloads| + |lines| <= 64 && Agree(lines, sofar, code)
    ensures Collect(s, decode, sofar, payloads) == Ok(Reply(code, Join(payloads + Payloads(lines))))
    decreases |lines|
  {
    hide ParseLine, TakeLine, Join, Collect, Agree;
    var rest := TakeLine(s).value.1;
    var all := payloads + [lines[0].payload];
    assert all + Payloads(lines[1..]) == payloads + Payloads(lines);
    CollectStep(s, decode, sofar, payloads);
    AgreeStep(lines, sofar, code);
    if |lines| == 1 {
      assert lines[1..] == [] && lines[0].last && all == payloads + Payloads(lines);
      AgreeNone(lines[0].code, code);
    } else {
      assert !lines[0].last;
      forall i | 0 <= i < |lines[1..]| ensures lines[1..][i].last <==> i == |lines[1..]| - 1 {
        assert lines[1..][i] == lines[i + 1];
      }
      CollectGives(rest, decode, lines[0].code, all, lines[1..], code);
    }
  }

  lemma {:induction false} CollectStep(s: string, decode: string -> Option<string>, sofar: nat, payloads: seq<string>)
    requires TakeLine(s).Some? && ParseLine(TakeLine(s).value.0, decode).Ok?
    ensures var parsed := ParseLine(TakeLine(s).value.0, decode).value;
            var all := payloads + [parsed.payload];
            (sofar == 0 || parsed.code == sofar) ==>
              Collect(s, decode, sofar, payloads) ==
              if parsed.last then Ok(Reply(parsed.code, Join(all)))
              else if |all| >= 64 then Stop(TooManyLines)
              else Collect(TakeLine(s).value.1, decode, parsed.code, all)
  {
    hide ParseLine, TakeLine, Join;
  }

  lemma {:induction false} AgreeStep(lines: seq<Line>, sofar: nat, code: nat)
    requires lines != []
    ensures Agree(lines, sofar, code) <==> (sofar == 0 || lines[0].code == sofar) && Agree(lines[1..], lines[0].code, code)
  {}

  lemma {:induction false} AgreeNone(sofar: nat, code: nat)
    ensures Agree([], sofar, code) <==> sofar == code
  {}

  lemma {:induction false} CollectReads(s: string, decode: string -> Option<string>, sofar: nat, payloads: seq<string>)
    returns (lines: seq<Line>)
    requires Collect(s, decode, sofar, payloads).Ok? && |payloads| < 64
    ensures Begins(s, decode, lines) && OneReply(lines) && |payloads| + |lines| <= 64
    ensures Agree(lines, sofar, Collect(s, decode, sofar, payloads).value.code)
    decreases |s|
  {
    hide ParseLine, Join;
    var (line, rest) := TakeLine(s).value;
    var parsed := ParseLine(line, decode).value;
    if parsed.last {
      lines := [parsed];
      assert lines[1..] == [];
    } else {
      var more := CollectReads(rest, decode, parsed.code, payloads + [parsed.payload]);
      lines := [parsed] + more;
      assert lines[1..] == more;
    }
  }

  /** An answer is got if and only if the stream begins with a greeting, one last line under 220, and up to 64 lines of
      which only the last is marked so and whose codes agree; it is their code and their joined payloads. */
  lemma {:induction false} AnsweredExactly(s: string, decode: string -> Option<string>, reply: Reply)
    ensures Conversation(s, decode) == Ok(reply) <==>
            exists lines: seq<Line> ::
              && 2 <= |lines| <= 65 && Begins(s, decode, lines) && lines[0].code == 220 && lines[0].last
              && OneReply(lines[1..]) && Agree(lines[1..], 0, reply.code) && reply.text == Join(Payloads(lines[1..]))
  {
    hide ParseLine, TakeLine, Collect, Join, Agree, OneReply;
    if Conversation(s, decode) == Ok(reply) {
      var (line, rest) := TakeLine(s).value;
      var greeting := ParseLine(line, decode).value;
      var more := CollectReads(rest, decode, 0, []);
      CollectGives(rest, decode, 0, [], more, reply.code);
      var lines := [greeting] + more;
      assert lines[1..] == more && [] + Payloads(more) == Payloads(more);
      assert |more| > 0 by { ReplyIsThere(more); }
    }
    if lines: seq<Line> :|
      && 2 <= |lines| <= 65 && Begins(s, decode, lines) && lines[0].code == 220 && lines[0].last
      && OneReply(lines[1..]) && Agree(lines[1..], 0, reply.code) && reply.text == Join(Payloads(lines[1..]))
    {
      CollectGives(TakeLine(s).value.1, decode, 0, [], lines[1..], reply.code);
      assert [] + Payloads(lines[1..]) == Payloads(lines[1..]);
    }
  }

  lemma ReplyIsThere(lines: seq<Line>)
    requires OneReply(lines)
    ensures lines != []
  {}

  /** Codes agree exactly if, apart from 000 at the beginning, all are the same. */
  lemma {:induction false} AgreeMeans(lines: seq<Line>, code: nat)
    requires lines != []
    ensures Agree(lines, 0, code) <==>
            && lines[|lines| - 1].code == code
            && forall i :: 0 <= i < |lines| ==> lines[i].code == code || forall j :: 0 <= j <= i ==> lines[j].code == 0
  {
    AgreeFrom(lines, 0, code);
  }

  lemma {:induction false} AgreeFrom(lines: seq<Line>, sofar: nat, code: nat)
    requires lines != []
    ensures Agree(lines, sofar, code) <==>
            && lines[|lines| - 1].code == code
            && (sofar != 0 ==> sofar == code)
            && forall i :: 0 <= i < |lines| ==>
                 lines[i].code == code || (sofar == 0 && forall j :: 0 <= j <= i ==> lines[j].code == 0)
  {
    if |lines| == 1 {
      assert lines[1..] == [];
    } else {
      AgreeFrom(lines[1..], lines[0].code, code);
      assert lines[1..][|lines| - 2] == lines[|lines| - 1];
      if sofar == 0 || lines[0].code == sofar { AgreeTail(lines, sofar, code); }
    }
  }

  lemma AgreeTail(lines: seq<Line>, sofar: nat, code: nat)
    requires |lines| > 1 && (sofar == 0 || lines[0].code == sofar)
    ensures var (rest, first) := (lines[1..], lines[0].code);
            (&& (first != 0 ==> first == code)
             && forall i :: 0 <= i < |rest| ==>
                  rest[i].code == code || (first == 0 && forall j :: 0 <= j <= i ==> rest[j].code == 0))
            <==>
            && (sofar != 0 ==> sofar == code)
            && forall i :: 0 <= i < |lines| ==>
                 lines[i].code == code || (sofar == 0 && forall j :: 0 <= j <= i ==> lines[j].code == 0)
  {
    var (rest, first) := (lines[1..], lines[0].code);
    assert forall i :: 0 <= i < |rest| ==> rest[i] == lines[i + 1];
    if forall i :: 0 <= i < |lines| ==> lines[i].code == code || (sofar == 0 && forall j :: 0 <= j <= i ==> lines[j].code == 0) {
      forall i | 0 <= i < |rest| && rest[i].code != code ensures first == 0 && forall j :: 0 <= j <= i ==> rest[j].code == 0 {
        assert lines[i + 1].code != code;
      }
    }
    if (first != 0 ==> first == code) && forall i :: 0 <= i < |rest| ==> rest[i].code == code || (first == 0 && forall j :: 0 <= j <= i ==> rest[j].code == 0) {
      forall i | 0 <= i < |lines| && lines[i].code != code ensures sofar == 0 && forall j :: 0 <= j <= i ==> lines[j].code == 0 {
        if i > 0 { assert rest[i - 1].code != code; }
        forall j | 0 <= j <= i ensures lines[j].code == 0 {
          if j > 0 { assert rest[j - 1].code == 0; }
        }
      }
    }
  }
}
