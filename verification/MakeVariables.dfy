/** Expanding Make variables in a dependency list, each variable at most once. */
module MakeVariables {

  type Table = map<string, seq<string>>

  datatype Token = Bar | Comment | Reference(name: string) | Ignored | Literal

  predicate IsNameChar(c: char) {
    'A' <= c <= 'Z' || 'a' <= c <= 'z' || '0' <= c <= '9' || c == '_'
  }

  /** A whole word of the form `$(NAME)`. */
  predicate IsReference(word: string) {
    && |word| >= 4 && word[0] == '$' && word[1] == '(' && word[|word| - 1] == ')'
    && forall i :: 2 <= i < |word| - 1 ==> IsNameChar(word[i])
  }

  function Classify(word: string): Token {
    if word == "|" then Bar
    else if "#" <= word then Comment
    else if IsReference(word) then Reference(word[2..|word| - 1])
    else if '$' in word || '%' in word || '=' in word then Ignored
    else Literal
  }

  // ------------------------------------------------------- the tokens, in terms of the text

  /** A name a reference can hold: letters, digits and underscores. */
  predicate ProperName(name: string) {
    name != "" && forall i :: 0 <= i < |name| ==>
      'A' <= name[i] <= 'Z' || 'a' <= name[i] <= 'z' || '0' <= name[i] <= '9' || name[i] == '_'
  }

  /** How a reference to a variable is written. */
  function Written(name: string): string {
    "$(" + name + ")"
  }

  /** A token refers to a variable exactly if it is the variable's name between `$(` and `)`. */
  lemma ReferenceMeans(word: string, name: string)
    ensures Classify(word) == Reference(name) <==> ProperName(name) && word == "$(" + name + ")"
  {
    if Classify(word) == Reference(name) {
      assert forall i :: 0 <= i < |name| ==> name[i] == word[i + 2];
      assert word == "$(" + name + ")";
    }
    if ProperName(name) && word == "$(" + name + ")" {
      assert |word| == |name| + 3 && word[0] == '$' && word[1] == '(' && word[|word| - 1] == ')';
      assert forall i :: 2 <= i < |word| - 1 ==> word[i] == name[i - 2];
      assert word[2..|word| - 1] == name;
    }
  }

  /** The other tokens: a bar on its own; a comment begins with a hash; a literal is neither and has no dollar, percent
      or equals sign in it; everything else is passed over. */
  lemma TokensMean(word: string)
    ensures Classify(word).Bar? <==> word == "|"
    ensures Classify(word).Comment? <==> word != "" && word[0] == '#'
    ensures Classify(word).Literal? <==> IsPlain(word)
    ensures Classify(word).Ignored? <==>
            && ('$' in word || '%' in word || '=' in word) && word[0] != '#'
            && !exists name :: ProperName(name) && word == Written(name)
  {
    if IsReference(word) {
      assert word[0] in word;
      ReferenceMeans(word, word[2..|word| - 1]);
    }
    if exists name :: ProperName(name) && word == Written(name) {
      var name :| ProperName(name) && word == Written(name);
      ReferenceMeans(word, name);
    }
  }

  /** A literal word. */
  predicate IsPlain(word: string) {
    word != "|" && (word == "" || word[0] != '#') && '$' !in word && '%' !in word && '=' !in word
  }

  function Lookup(table: Table, name: string): seq<string> {
    if name in table then table[name] else []
  }

  // ------------------------------------------------------------- the worklist

  datatype Walked = Walked(result: set<string>, expanded: set<string>)

  /** The loop of `dependency_tokens`, as a function of its state. */
  function Walk(table: Table, queue: seq<string>, expanded: set<string>, result: set<string>): Walked
    decreases table.Keys - expanded, |queue|
  {
    if queue == [] then Walked(result, expanded)
    else
      var rest := queue[1..];
      match Classify(queue[0])
      case Bar => Walk(table, rest, expanded, result)
      case Comment => Walked(result, expanded)
      case Reference(name) =>
        if name in expanded then Walk(table, rest, expanded, result)
        else if name in table then
          assert name in table.Keys - expanded;
          Walk(table, table[name] + rest, expanded + {name}, result)
        else
          assert table.Keys - (expanded + {name}) == table.Keys - expanded;
          Walk(table, rest, expanded + {name}, result)
      case Ignored => Walk(table, rest, expanded, result)
      case Literal => Walk(table, rest, expanded, result + {queue[0]})
  }

  /** `dependency_tokens`, on the words of the text. */
  method DependencyTokens(words: seq<string>, table: Table) returns (result: set<string>)
    ensures result == Walk(table, words, {}, {}).result
  {
    result := {};
    var queue := words;
    var expanded: set<string> := {};
    while queue != []
      invariant Walk(table, words, {}, {}) == Walk(table, queue, expanded, result)
      decreases table.Keys - expanded, |queue|
    {
      var token := queue[0];
      queue := queue[1..];
      match Classify(token) {
        case Bar =>
        case Comment => break;
        case Reference(name) =>
          if name !in expanded {
            ghost var before := table.Keys - expanded;
            expanded := expanded + {name};
            if name in table {
              assert name in before;
            } else {
              assert table.Keys - expanded == before;
              assert [] + queue == queue;
            }
            queue := Lookup(table, name) + queue;
          }
        case Ignored =>
        case Literal => result := result + {token};
      }
    }
  }

  // -------------------------------------------- what it means without cycles

  /** Every variable ranks above those its value refers to: no variable refers back to itself. */
  ghost predicate Acyclic(table: Table, rank: string -> nat) {
    forall name :: name in table ==> Below(table, table[name], rank, rank(name))
  }

  /** The words refer only to variables ranked below `depth`. */
  ghost predicate Below(table: Table, words: seq<string>, rank: string -> nat, depth: nat) {
    forall i :: 0 <= i < |words| && Classify(words[i]).Reference? && Classify(words[i]).name in table ==>
      rank(Classify(words[i]).name) < depth
  }

  /** Full recursive expansion: every reference replaced by the expansion of its value. */
  function Leaves(table: Table, words: seq<string>, rank: string -> nat, depth: nat): seq<string>
    decreases depth, |words|
  {
    if words == [] then []
    else LeavesOf(table, words[0], rank, depth) + Leaves(table, words[1..], rank, depth)
  }

  function LeavesOf(table: Table, word: string, rank: string -> nat, depth: nat): seq<string>
    decreases depth, 0
  {
    match Classify(word)
    case Reference(name) =>
      if name in table && rank(name) < depth then Leaves(table, table[name], rank, rank(name)) else []
    case _ => [word]
  }

  /** The literal words before the first comment word. */
  function Literals(leaves: seq<string>): set<string> {
    if leaves == [] || Classify(leaves[0]).Comment? then {}
    else (if Classify(leaves[0]).Literal? then {leaves[0]} else {}) + Literals(leaves[1..])
  }

  predicate Clean(leaves: seq<string>) {
    forall i :: 0 <= i < |leaves| ==> !Classify(leaves[i]).Comment?
  }

  lemma {:induction false} LiteralsSplit(a: seq<string>, b: seq<string>)
    ensures Literals(a + b) == Literals(a) + if Clean(a) then Literals(b) else {}
  {
    if a == [] {
      assert a + b == b;
    } else {
      assert (a + b)[1..] == a[1..] + b;
      assert Clean(a) <==> !Classify(a[0]).Comment? && Clean(a[1..]);
      LiteralsSplit(a[1..], b);
    }
  }

  lemma {:induction false} LeavesSplit(table: Table, a: seq<string>, b: seq<string>, rank: string -> nat, depth: nat)
    ensures Leaves(table, a + b, rank, depth) == Leaves(table, a, rank, depth) + Leaves(table, b, rank, depth)
    decreases a
  {
    if a == [] {
      assert a + b == b;
    } else {
      assert (a + b)[1..] == a[1..] + b;
      LeavesSplit(table, a[1..], b, rank, depth);
    }
  }

  lemma {:induction false} DepthIrrelevant(table: Table, words: seq<string>, rank: string -> nat, d: nat, e: nat)
    requires Below(table, words, rank, d) && Below(table, words, rank, e)
    ensures Leaves(table, words, rank, d) == Leaves(table, words, rank, e)
    decreases words
  {
    if words != [] {
      assert Below(table, words[1..], rank, d) && Below(table, words[1..], rank, e);
      DepthIrrelevant(table, words[1..], rank, d, e);
    }
  }

  /** What is known of a variable expanded earlier, of whose value the first `k` words of the queue are
      still to come: what it contributes is in the result or in those words, no comment word was
      met in it so far, and those words rank below it. */
  ghost predicate Pending(table: Table, rank: string -> nat, depth: nat, queue: seq<string>,
                          result: set<string>, name: string, k: nat)
  {
    && k <= |queue| && name in table
    && Below(table, queue[..k], rank, rank(name))
    && var (own, left) := (Leaves(table, table[name], rank, rank(name)), Leaves(table, queue[..k], rank, depth));
       Literals(own) <= result + Literals(left) && (Clean(left) ==> Clean(own))
  }

  function Left(open: map<string, nat>, name: string): nat {
    if name in open then open[name] else 0
  }

  ghost predicate AllPending(table: Table, rank: string -> nat, depth: nat, queue: seq<string>,
                             expanded: set<string>, result: set<string>, open: map<string, nat>)
  {
    forall name :: name in expanded && name in table ==>
      Pending(table, rank, depth, queue, result, name, Left(open, name))
  }

  /** One word less in the queue, whose leaves went into the result or were there already. */
  lemma {:induction false} PendingAfterWord(table: Table, rank: string -> nat, depth: nat, queue: seq<string>,
                         result: set<string>, more: set<string>, name: string, k: nat)
    requires queue != [] && Pending(table, rank, depth, queue, result, name, k)
    requires var leaves := LeavesOf(table, queue[0], rank, depth);
             Clean(leaves) && Literals(leaves) <= more && result <= more
    ensures Pending(table, rank, depth, queue[1..], more, name, if k == 0 then 0 else k - 1)
  {
    if k > 0 {
      var leaves := LeavesOf(table, queue[0], rank, depth);
      assert queue[..k][1..] == queue[1..][..k - 1];
      LiteralsSplit(leaves, Leaves(table, queue[1..][..k - 1], rank, depth));
    } else {
      assert queue[..0] == queue[1..][..0];
    }
  }

  /** A reference at the head of the queue replaced by its value. */
  lemma PendingAfterExpansion(table: Table, rank: string -> nat, depth: nat, queue: seq<string>,
                              result: set<string>, name: string, k: nat, x: string)
    requires Acyclic(table, rank) && Below(table, queue, rank, depth)
    requires queue != [] && Classify(queue[0]) == Reference(x) && x in table
    requires Pending(table, rank, depth, queue, result, name, k)
    ensures Pending(table, rank, depth, table[x] + queue[1..], result, name, if k == 0 then 0 else k - 1 + |table[x]|)
  {
    var next := table[x] + queue[1..];
    if k > 0 {
      var (was, now) := (queue[..k], next[..k - 1 + |table[x]|]);
      assert was[1..] == queue[1..][..k - 1] && now == table[x] + was[1..];
      assert Classify(was[0]) == Reference(x) && rank(x) < rank(name);
      LeavesSplit(table, table[x], was[1..], rank, depth);
      assert rank(Classify(queue[0]).name) < depth;
      DepthIrrelevant(table, table[x], rank, rank(x), depth);
      assert Leaves(table, was, rank, depth) == Leaves(table, now, rank, depth);
      forall i | 0 <= i < |now| && Classify(now[i]).Reference? && Classify(now[i]).name in table
        ensures rank(Classify(now[i]).name) < rank(name)
      {
        if i < |table[x]| { assert now[i] == table[x][i]; } else { assert now[i] == was[i - |table[x]| + 1]; }
      }
    } else {
      assert queue[..0] == next[..0];
    }
  }

  /** The variable just put into the queue. */
  lemma PendingNew(table: Table, rank: string -> nat, depth: nat, rest: seq<string>, result: set<string>, x: string)
    requires Acyclic(table, rank) && x in table && rank(x) <= depth
    ensures Pending(table, rank, depth, table[x] + rest, result, x, |table[x]|)
  {
    assert (table[x] + rest)[..|table[x]|] == table[x];
    DepthIrrelevant(table, table[x], rank, rank(x), depth);
  }

  /** A step of the walk that does not bring in a variable's value. */
  lemma WalkPasses(table: Table, queue: seq<string>, expanded: set<string>, result: set<string>)
    returns (expanded': set<string>, more: set<string>)
    requires queue != [] && !Classify(queue[0]).Comment?
    requires var t := Classify(queue[0]); t.Reference? && t.name in table ==> t.name in expanded
    ensures Walk(table, queue, expanded, result) == Walk(table, queue[1..], expanded', more)
    ensures more == result + (if Classify(queue[0]).Literal? then {queue[0]} else {})
    ensures table.Keys - expanded' == table.Keys - expanded
    ensures forall name :: name in expanded' && name in table ==> name in expanded
  {
    var token := Classify(queue[0]);
    more := result + if token.Literal? then {queue[0]} else {};
    expanded' := if token.Reference? && token.name !in expanded then expanded + {token.name} else expanded;
    assert more == if token.Literal? then result + {queue[0]} else result;
    assert table.Keys - expanded' == table.Keys - expanded;
  }

  /** What such a step takes off the expansion of the queue. */
  lemma {:induction false} LeavesPass(table: Table, rank: string -> nat, depth: nat, queue: seq<string>,
                                      result: set<string>)
    requires queue != []
    requires Classify(queue[0]).Reference? ==>
               var leaves := LeavesOf(table, queue[0], rank, depth); Clean(leaves) && Literals(leaves) <= result
    ensures var leaves := LeavesOf(table, queue[0], rank, depth);
            var more := result + (if Classify(queue[0]).Literal? then {queue[0]} else {});
            var all := Literals(Leaves(table, queue, rank, depth));
            if Classify(queue[0]).Comment? then all == {}
            else Clean(leaves) && Literals(leaves) <= more
                 && result + all == more + Literals(Leaves(table, queue[1..], rank, depth))
  {
    var leaves := LeavesOf(table, queue[0], rank, depth);
    LiteralsSplit(leaves, Leaves(table, queue[1..], rank, depth));
    if !Classify(queue[0]).Reference? {
      assert leaves == [queue[0]] && leaves[1..] == [];
      if Classify(queue[0]).Comment? { assert !Clean(leaves) by { assert leaves[0] == queue[0]; } }
    }
  }

  lemma {:induction false} AcyclicWalk(table: Table, rank: string -> nat, depth: nat, queue: seq<string>,
                                       expanded: set<string>, result: set<string>, open: map<string, nat>)
    requires Acyclic(table, rank) && Below(table, queue, rank, depth)
    requires AllPending(table, rank, depth, queue, expanded, result, open)
    ensures Walk(table, queue, expanded, result).result == result + Literals(Leaves(table, queue, rank, depth))
    decreases table.Keys - expanded, |queue|
  {
    hide Classify, Pending;
    if queue == [] { return; }
    var token := Classify(queue[0]);
    if token.Reference? && token.name in table && token.name !in expanded {
      AcyclicExpansion(table, rank, depth, queue, expanded, result, open);
      return;
    }
    if token.Reference? && token.name in table { ClosedAlready(table, rank, depth, queue, expanded, result, open); }
    LeavesPass(table, rank, depth, queue, result);
    if token.Comment? { return; }
    var expanded', more := WalkPasses(table, queue, expanded, result);
    var open' := map name | name in open :: if open[name] == 0 then 0 else open[name] - 1;
    forall name | name in expanded' && name in table
      ensures Pending(table, rank, depth, queue[1..], more, name, Left(open', name))
    {
      assert Pending(table, rank, depth, queue, result, name, Left(open, name));
      PendingAfterWord(table, rank, depth, queue, result, more, name, Left(open, name));
    }
    AcyclicWalk(table, rank, depth, queue[1..], expanded', more, open');
  }

  lemma SameHead(queue: seq<string>, k: nat)
    requires k <= |queue|
    ensures k > 0 ==> queue[..k][0] == queue[0]
  {}

  /** A variable met a second time is through: acyclicity leaves none of its own words in front. */
  lemma {:induction false} ClosedAlready(table: Table, rank: string -> nat, depth: nat, queue: seq<string>,
                      expanded: set<string>, result: set<string>, open: map<string, nat>)
    requires Below(table, queue, rank, depth) && AllPending(table, rank, depth, queue, expanded, result, open)
    requires queue != [] && Classify(queue[0]).Reference? && Classify(queue[0]).name in table
    requires Classify(queue[0]).name in expanded
    ensures var leaves := LeavesOf(table, queue[0], rank, depth);
            Clean(leaves) && Literals(leaves) <= result
  {
    var x := Classify(queue[0]).name;
    var k := Left(open, x);
    assert Pending(table, rank, depth, queue, result, x, k);
    SameHead(queue, k);
    assert queue[..k] == [];
  }

  lemma {:induction false} AcyclicExpansion(table: Table, rank: string -> nat, depth: nat, queue: seq<string>,
                                            expanded: set<string>, result: set<string>, open: map<string, nat>)
    requires Acyclic(table, rank) && Below(table, queue, rank, depth)
    requires AllPending(table, rank, depth, queue, expanded, result, open)
    requires queue != [] && Classify(queue[0]).Reference?
    requires Classify(queue[0]).name in table && Classify(queue[0]).name !in expanded
    ensures Walk(table, queue, expanded, result).result == result + Literals(Leaves(table, queue, rank, depth))
    decreases table.Keys - expanded, 0
  {
    hide Classify, Pending;
    var (x, rest) := (Classify(queue[0]).name, queue[1..]);
    var next := table[x] + rest;
    assert rank(x) < depth;
    var open' := map name | name in open.Keys + {x} ::
      if name == x then |table[x]| else if open[name] == 0 then 0 else open[name] - 1 + |table[x]|;
    forall name | name in expanded + {x} && name in table
      ensures Pending(table, rank, depth, next, result, name, Left(open', name))
    {
      if name == x {
        PendingNew(table, rank, depth, rest, result, x);
      } else {
        PendingAfterExpansion(table, rank, depth, queue, result, name, Left(open, name), x);
      }
    }
    LeavesSplit(table, table[x], rest, rank, depth);
    DepthIrrelevant(table, table[x], rank, rank(x), depth);
    forall i | 0 <= i < |next| && Classify(next[i]).Reference? && Classify(next[i]).name in table
      ensures rank(Classify(next[i]).name) < depth
    {
      if i < |table[x]| { assert next[i] == table[x][i]; } else { assert next[i] == queue[i - |table[x]| + 1]; }
    }
    assert x in table.Keys - expanded;
    AcyclicWalk(table, rank, depth, next, expanded + {x}, result, open');
  }

  /** On an acyclic table, expanding each variable once gives exactly the literal words of the full
      recursive expansion up to its first comment word. */
  lemma {:induction false} OnceIsEnough(table: Table, rank: string -> nat, depth: nat, words: seq<string>)
    requires Acyclic(table, rank) && Below(table, words, rank, depth)
    ensures Walk(table, words, {}, {}).result == Literals(Leaves(table, words, rank, depth))
  {
    AcyclicWalk(table, rank, depth, words, {}, {}, map[]);
  }

  // ---------------------------------------------- what it means with cycles

  /** No comment word anywhere. */
  ghost predicate NoComments(table: Table, words: seq<string>) {
    NoHash(words) && forall name :: name in table ==> NoHash(table[name])
  }

  predicate NoHash(words: seq<string>) {
    forall word :: word in words ==> word == "" || word[0] != '#'
  }

  /** A reference to the variable stands among the words. */
  ghost predicate Mentions(words: seq<string>, name: string) {
    ProperName(name) && "$(" + name + ")" in words
  }

  /** The variables on `path` lead from the words to its last one, each mentioned by the value before. */
  ghost predicate Leads(table: Table, words: seq<string>, path: seq<string>) {
    && path != [] && Mentions(words, path[0])
    && forall i :: 0 < i < |path| ==> Mentions(Lookup(table, path[i - 1]), path[i])
  }

  ghost predicate Reachable(table: Table, words: seq<string>, name: string) {
    exists path :: Leads(table, words, path) && path[|path| - 1] == name
  }

  /** A word of the text itself, or of the value of a variable it leads to. */
  ghost predicate Seen(table: Table, words: seq<string>, word: string) {
    word in words || exists name :: Reachable(table, words, name) && word in Lookup(table, name)
  }

  lemma LeadsFurther(table: Table, words: seq<string>, path: seq<string>, name: string)
    requires Leads(table, words, path) && Mentions(Lookup(table, path[|path| - 1]), name)
    ensures Leads(table, words, path + [name])
  {
    hide Mentions, Lookup;
    var longer := path + [name];
    forall i | 0 < i < |longer| ensures Mentions(Lookup(table, longer[i - 1]), longer[i]) {
      if i < |path| { assert longer[i - 1] == path[i - 1] && longer[i] == path[i]; }
    }
  }

  lemma OneMoreStep(table: Table, words: seq<string>, word: string, name: string)
    requires Seen(table, words, word) && Classify(word) == Reference(name)
    ensures Reachable(table, words, name)
    ensures forall w :: w in Lookup(table, name) ==> Seen(table, words, w)
  {
    hide Classify, Lookup, ProperName;
    ReferenceMeans(word, name);
    if word in words {
      assert Leads(table, words, [name]);
      assert [name][|[name]| - 1] == name;
    } else {
      var via :| Reachable(table, words, via) && word in Lookup(table, via);
      var path :| Leads(table, words, path) && path[|path| - 1] == via;
      assert Mentions(Lookup(table, via), name);
      LeadsFurther(table, words, path, name);
      assert (path + [name])[|path|] == name;
    }
  }

  /** Nothing gets into the result but literals that the text leads to. */
  lemma {:induction false} OnlyReachable(table: Table, words: seq<string>, queue: seq<string>,
                                         expanded: set<string>, result: set<string>)
    requires forall i :: 0 <= i < |queue| ==> Seen(table, words, queue[i])
    requires forall w :: w in result ==> IsPlain(w) && Seen(table, words, w)
    ensures forall w :: w in Walk(table, queue, expanded, result).result ==> IsPlain(w) && Seen(table, words, w)
    decreases table.Keys - expanded, |queue|
  {
    hide Seen, IsReference, Reachable, IsPlain, Classify;
    if queue == [] { return; }
    TokensMean(queue[0]);
    var rest := queue[1..];
    match Classify(queue[0])
    case Bar => OnlyReachable(table, words, rest, expanded, result);
    case Comment =>
    case Ignored => OnlyReachable(table, words, rest, expanded, result);
    case Literal => OnlyReachable(table, words, rest, expanded, result + {queue[0]});
    case Reference(name) =>
      OneMoreStep(table, words, queue[0], name);
      if name in expanded {
        OnlyReachable(table, words, rest, expanded, result);
      } else if name in table {
        assert name in table.Keys - expanded;
        var next := table[name] + rest;
        forall i | 0 <= i < |next| ensures Seen(table, words, next[i]) {
          if i < |table[name]| { assert next[i] in table[name]; } else { assert next[i] == queue[i - |table[name]| + 1]; }
        }
        OnlyReachable(table, words, next, expanded + {name}, result);
      } else {
        assert table.Keys - (expanded + {name}) == table.Keys - expanded;
        OnlyReachable(table, words, rest, expanded + {name}, result);
      }
  }

  /** The word is dealt with: its literal is in the result, its variable expanded. */
  predicate Done(word: string, w: Walked) {
    match Classify(word)
    case Literal => word in w.result
    case Reference(name) => name in w.expanded
    case _ => true
  }

  /** Every expanded variable has its words dealt with, or still waiting in the queue. */
  ghost predicate Closing(table: Table, queue: seq<string>, w: Walked) {
    forall name, word :: name in w.expanded && word in Lookup(table, name) ==> Done(word, w) || word in queue
  }

  lemma DoneMore(word: string, w: Walked, v: Walked)
    requires Done(word, w) && w.result <= v.result && w.expanded <= v.expanded
    ensures Done(word, v)
  {}

  lemma ClosingNext(table: Table, queue: seq<string>, next: seq<string>, w: Walked, v: Walked)
    requires Closing(table, queue, w) && w.result <= v.result && w.expanded <= v.expanded
    requires forall word :: word in queue ==> word in next || Done(word, v)
    requires forall name, word :: name in v.expanded && name !in w.expanded && word in Lookup(table, name) ==> word in next
    ensures Closing(table, next, v)
  {
    forall name, word | name in v.expanded && word in Lookup(table, name) ensures Done(word, v) || word in next {
      if name in w.expanded && Done(word, w) { DoneMore(word, w, v); }
    }
  }

  /** Without comment words the walk stops only when everything is dealt with. */
  lemma {:induction false} WalkCloses(table: Table, queue: seq<string>, expanded: set<string>, result: set<string>)
    requires NoComments(table, queue) && Closing(table, queue, Walked(result, expanded))
    ensures var w := Walk(table, queue, expanded, result);
            && result <= w.result && expanded <= w.expanded
            && (forall word :: word in queue ==> Done(word, w))
            && Closing(table, [], w)
    decreases table.Keys - expanded, |queue|
  {
    if queue == [] { return; }
    var (rest, token, w) := (queue[1..], Classify(queue[0]), Walked(result, expanded));
    assert forall word :: word in queue <==> word == queue[0] || word in rest;
    TokensMean(queue[0]);
    assert queue[0] in queue;
    assert NoHash(rest);
    if token.Reference? && token.name !in expanded {
      var next := Lookup(table, token.name) + rest;
      assert forall word :: word in next ==> word in Lookup(table, token.name) || word in rest;
      ClosingNext(table, queue, next, w, Walked(result, expanded + {token.name}));
      if token.name in table {
        assert token.name in table.Keys - expanded;
      } else {
        assert next == rest && table.Keys - (expanded + {token.name}) == table.Keys - expanded;
      }
      WalkCloses(table, next, expanded + {token.name}, result);
    } else {
      var more := if token.Literal? then result + {queue[0]} else result;
      ClosingNext(table, queue, rest, w, Walked(more, expanded));
      WalkCloses(table, rest, expanded, more);
    }
  }

  lemma {:induction false} PathIsExpanded(table: Table, words: seq<string>, path: seq<string>, w: Walked)
    requires Leads(table, words, path) && Closing(table, [], w)
    requires forall word :: word in words ==> Done(word, w)
    ensures path[|path| - 1] in w.expanded
    decreases |path|
  {
    var (n, last) := (|path| - 1, path[|path| - 1]);
    ReferenceMeans("$(" + last + ")", last);
    if n == 0 {
      assert Done("$(" + last + ")", w);
    } else {
      var front := path[..n];
      assert Leads(table, words, front);
      PathIsExpanded(table, words, front, w);
      assert front[|front| - 1] == path[n - 1];
      var value := Lookup(table, path[n - 1]);
      assert Mentions(value, last);
      assert Done("$(" + last + ")", w);
    }
  }

  /** Without comment words, cyclic or not: the result is exactly the literals of the text and of the
      variables it leads to. */
  lemma {:induction false} ReachableLiterals(table: Table, words: seq<string>, word: string)
    requires NoComments(table, words)
    ensures word in Walk(table, words, {}, {}).result <==> IsPlain(word) && Seen(table, words, word)
  {
    hide Walk, Seen, IsPlain, Classify, NoComments;
    EachWordIsSeen(table, words);
    OnlyReachable(table, words, words, {}, {});
    TokensMean(word);
    if IsPlain(word) && Seen(table, words, word) { SeenIsDone(table, words, word); }
  }

  lemma EachWordIsSeen(table: Table, words: seq<string>)
    ensures forall i :: 0 <= i < |words| ==> Seen(table, words, words[i])
  {}

  lemma {:induction false} SeenIsDone(table: Table, words: seq<string>, word: string)
    requires NoComments(table, words) && Seen(table, words, word)
    ensures Done(word, Walk(table, words, {}, {}))
  {
    hide Walk, Classify, NoComments, Reachable;
    var w := Walk(table, words, {}, {});
    WalkCloses(table, words, {}, {});
    if word !in words {
      var name :| Reachable(table, words, name) && word in Lookup(table, name);
      SeenOnPath(table, words, name, w);
    }
  }

  lemma SeenOnPath(table: Table, words: seq<string>, name: string, w: Walked)
    requires Reachable(table, words, name) && Closing(table, [], w)
    requires forall word :: word in words ==> Done(word, w)
    ensures name in w.expanded
  {
    var path :| Leads(table, words, path) && path[|path| - 1] == name;
    PathIsExpanded(table, words, path, w);
  }

  // ------------------------------------------------------------ reading the tables

  datatype Operator = Plain | Append | Default

  /** One matched assignment line. */
  datatype Assignment = Assignment(name: string, operator: Operator, tokens: seq<string>)

  /** What `name` is worth after the lines. */
  function ValueOf(lines: seq<Assignment>, name: string): seq<string> {
    if lines == [] then []
    else
      var (before, a) := (ValueOf(lines[..|lines| - 1], name), lines[|lines| - 1]);
      if a.name != name then before
      else match a.operator
           case Plain => a.tokens
           case Append => before + a.tokens
           case Default => if IsSet(lines[..|lines| - 1], name) then before else a.tokens
  }

  predicate IsSet(lines: seq<Assignment>, name: string) {
    exists i :: 0 <= i < |lines| && lines[i].name == name
  }

  /** `parse_make_variables`, on the matched lines of all files in order. */
  method ParseMakeVariables(lines: seq<Assignment>) returns (table: Table)
    ensures forall name :: name in table <==> IsSet(lines, name)
    ensures forall name :: Lookup(table, name) == ValueOf(lines, name)
  {
    table := map[];
    for n := 0 to |lines|
      invariant forall name :: name in table <==> IsSet(lines[..n], name)
      invariant forall name :: Lookup(table, name) == ValueOf(lines[..n], name)
    {
      var a := lines[n];
      assert lines[..n + 1][..n] == lines[..n];
      assert forall name :: IsSet(lines[..n + 1], name) <==> IsSet(lines[..n], name) || name == a.name by {
        forall name ensures IsSet(lines[..n + 1], name) <==> IsSet(lines[..n], name) || name == a.name {
          IsSetMore(lines, n, name);
        }
      }
      match a.operator {
        case Append => table := table[a.name := Lookup(table, a.name) + a.tokens];
        case Default => if a.name !in table { table := table[a.name := a.tokens]; }
        case Plain => table := table[a.name := a.tokens];
      }
    }
    assert lines[..|lines|] == lines;
  }

  lemma IsSetMore(lines: seq<Assignment>, n: nat, name: string)
    requires n < |lines|
    ensures IsSet(lines[..n + 1], name) <==> IsSet(lines[..n], name) || name == lines[n].name
  {
    if IsSet(lines[..n], name) {
      var i :| 0 <= i < n && lines[..n][i].name == name;
      assert lines[..n + 1][i].name == name;
    }
    assert lines[..n + 1][n] == lines[n];
    if IsSet(lines[..n + 1], name) {
      var i :| 0 <= i < n + 1 && lines[..n + 1][i].name == name;
      assert i < n ==> lines[..n][i].name == name;
    }
  }

  /** The tokens the `+=` lines for `name` bring. */
  function Appended(lines: seq<Assignment>, name: string): seq<string> {
    if lines == [] then []
    else
      Appended(lines[..|lines| - 1], name)
      + if lines[|lines| - 1].name == name && lines[|lines| - 1].operator.Append? then lines[|lines| - 1].tokens else []
  }

  /** The last plain assignment decides: it hides all before it, defaults after it do nothing, and what
      is appended after it is added in order. */
  lemma {:induction false} LastPlainDecides(before: seq<Assignment>, a: Assignment, after: seq<Assignment>)
    requires a.operator.Plain?
    requires forall i :: 0 <= i < |after| && after[i].name == a.name ==> !after[i].operator.Plain?
    ensures ValueOf(before + [a] + after, a.name) == a.tokens + Appended(after, a.name)
    decreases |after|
  {
    var lines := before + [a] + after;
    if after == [] {
      assert lines == before + [a] && lines[..|lines| - 1] == before;
      assert a.tokens + [] == a.tokens;
    } else {
      var front := after[..|after| - 1];
      var last := after[|after| - 1];
      assert lines[..|lines| - 1] == before + [a] + front && lines[|lines| - 1] == last;
      LastPlainDecides(before, a, front);
      assert (before + [a] + front)[|before|] == a;
      assert a.tokens + Appended(front, a.name) + last.tokens == a.tokens + (Appended(front, a.name) + last.tokens);
      assert Appended(front, a.name) + [] == Appended(front, a.name);
    }
  }
}
