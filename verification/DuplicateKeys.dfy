/** The scanner that rejects JSON objects with a repeated name (section 4 of RFC 8259). */
module DuplicateKeys {

  /** A value as written: object members in order, repeated names included. */
  datatype Tree =
    | Scalar
    | Text(text: string)
    | Array(items: seq<Tree>)
    | Object(members: seq<Member>)

  datatype Member = Member(name: string, value: Tree)

  datatype Token = ObjectOpen | ObjectClose | ArrayOpen | ArrayClose | StringToken(text: string) | ScalarToken

  /* ---------- the tokens of a value ---------- */

  function Tokens(t: Tree): seq<Token>
    decreases t, 0
  {
    match t
    case Scalar => [ScalarToken]
    case Text(text) => [StringToken(text)]
    case Array(items) => [ArrayOpen] + ItemTokens(t, 0) + [ArrayClose]
    case Object(members) => [ObjectOpen] + MemberTokens(t, 0) + [ObjectClose]
  }

  function ItemTokens(t: Tree, from: nat): seq<Token>
    requires t.Array? && from <= |t.items|
    decreases t, 0, |t.items| - from
  {
    if from == |t.items| then [] else Tokens(t.items[from]) + ItemTokens(t, from + 1)
  }

  function MemberTokens(t: Tree, from: nat): seq<Token>
    requires t.Object? && from <= |t.members|
    decreases t, 0, |t.members| - from
  {
    if from == |t.members| then []
    else [StringToken(t.members[from].name)] + Tokens(t.members[from].value) + MemberTokens(t, from + 1)
  }

  function StreamTokens(values: seq<Tree>): seq<Token>
  {
    if values == [] then [] else Tokens(values[0]) + StreamTokens(values[1..])
  }

  /* ---------- the independent definition ---------- */

  /** No object in the value repeats a name. */
  ghost predicate NoRepeats(t: Tree)
  {
    match t
    case Array(items) => forall i :: 0 <= i < |items| ==> NoRepeats(items[i])
    case Object(members) =>
      && (forall i, j :: 0 <= i < j < |members| ==> members[i].name != members[j].name)
      && forall i :: 0 <= i < |members| ==> NoRepeats(members[i].value)
    case _ => true
  }

  /* ---------- the scanner ---------- */

  datatype Frame = Frame(isObject: bool, expectKey: bool, keys: set<string>)

  datatype Verdict = Accepted | DuplicateKey(key: string) | Unbalanced

  /** A value has just ended inside the top frame. */
  function ValueEnded(stack: seq<Frame>): seq<Frame>
  {
    if stack != [] && stack[|stack| - 1].isObject then stack[|stack| - 1 := stack[|stack| - 1].(expectKey := true)] else stack
  }

  predicate AwaitsKey(stack: seq<Frame>)
  {
    stack != [] && stack[|stack| - 1].isObject && stack[|stack| - 1].expectKey
  }

  function Scan(stack: seq<Frame>, tokens: seq<Token>): Verdict
    decreases |tokens|
  {
    if tokens == [] then Accepted
    else
      var rest := tokens[1..];
      match tokens[0]
      case ObjectOpen => Scan(stack + [Frame(true, true, {})], rest)
      case ArrayOpen => Scan(stack + [Frame(false, false, {})], rest)
      case ObjectClose => if stack == [] then Unbalanced else Scan(ValueEnded(stack[..|stack| - 1]), rest)
      case ArrayClose => if stack == [] then Unbalanced else Scan(ValueEnded(stack[..|stack| - 1]), rest)
      case StringToken(text) =>
        if AwaitsKey(stack) then
          var top := stack[|stack| - 1];
          if text in top.keys then DuplicateKey(text)
          else Scan(stack[|stack| - 1 := top.(keys := top.keys + {text}, expectKey := false)], rest)
        else Scan(ValueEnded(stack), rest)
      case ScalarToken => Scan(if AwaitsKey(stack) then stack else ValueEnded(stack), rest)
  }

  method RejectDuplicateKeys(tokens: seq<Token>) returns (verdict: Verdict)
    ensures verdict == Scan([], tokens)
  {
    var stack: seq<Frame> := [];
    for i := 0 to |tokens|
      invariant Scan([], tokens) == Scan(stack, tokens[i..])
    {
      assert tokens[i..][0] == tokens[i] && tokens[i..][1..] == tokens[i + 1..];
      match tokens[i]
      case ObjectOpen => stack := stack + [Frame(true, true, {})];
      case ArrayOpen => stack := stack + [Frame(false, false, {})];
      case StringToken(text) =>
        if |stack| > 0 && stack[|stack| - 1].isObject && stack[|stack| - 1].expectKey {
          var current := stack[|stack| - 1];
          if text in current.keys {
            return DuplicateKey(text);
          }
          stack := stack[|stack| - 1 := current.(keys := current.keys + {text}, expectKey := false)];
        } else if |stack| > 0 && stack[|stack| - 1].isObject {
          stack := stack[|stack| - 1 := stack[|stack| - 1].(expectKey := true)];
        }
      case ScalarToken =>
        if |stack| > 0 && stack[|stack| - 1].isObject && !stack[|stack| - 1].expectKey {
          stack := stack[|stack| - 1 := stack[|stack| - 1].(expectKey := true)];
        }
      case _ =>
        if |stack| == 0 {
          return Unbalanced;
        }
        stack := stack[..|stack| - 1];
        if |stack| > 0 && stack[|stack| - 1].isObject {
          stack := stack[|stack| - 1 := stack[|stack| - 1].(expectKey := true)];
        }
    }
    verdict := Accepted;
  }

  /* ---------- the scanner agrees with the definition ---------- */

  /** Scanning goes on after an accepted value and stops inside one that repeats a name. */
  ghost predicate Passes(good: bool, verdict: Verdict, after: Verdict)
  {
    if good then verdict == after else verdict.DuplicateKey?
  }

  lemma {:induction false} ScanValue(stack: seq<Frame>, t: Tree, rest: seq<Token>)
    requires !AwaitsKey(stack)
    ensures Passes(NoRepeats(t), Scan(stack, Tokens(t) + rest), Scan(ValueEnded(stack), rest))
    decreases t, 0
  {
    match t
    case Scalar => assert (Tokens(t) + rest)[1..] == rest;
    case Text(_) => assert (Tokens(t) + rest)[1..] == rest;
    case Array(items) =>
      var inner := ItemTokens(t, 0) + ([ArrayClose] + rest);
      assert Tokens(t) + rest == [ArrayOpen] + inner && (Tokens(t) + rest)[1..] == inner;
      ScanItems(stack, t, 0, rest);
    case Object(members) =>
      var inner := MemberTokens(t, 0) + ([ObjectClose] + rest);
      assert Tokens(t) + rest == [ObjectOpen] + inner && (Tokens(t) + rest)[1..] == inner;
      assert NamesBefore(t, 0) == {};
      ScanMembers(stack, t, 0, rest);
  }

  lemma {:induction false} ScanItems(stack: seq<Frame>, t: Tree, from: nat, rest: seq<Token>)
    requires t.Array? && from <= |t.items|
    ensures Passes(forall i :: from <= i < |t.items| ==> NoRepeats(t.items[i]),
                   Scan(stack + [Frame(false, false, {})], ItemTokens(t, from) + ([ArrayClose] + rest)),
                   Scan(ValueEnded(stack), rest))
    decreases t, 0, |t.items| - from
  {
    var inside := stack + [Frame(false, false, {})];
    if from == |t.items| {
      assert ItemTokens(t, from) + ([ArrayClose] + rest) == [ArrayClose] + rest;
      assert ([ArrayClose] + rest)[1..] == rest && inside[..|inside| - 1] == stack;
    } else {
      var later := ItemTokens(t, from + 1) + ([ArrayClose] + rest);
      assert ItemTokens(t, from) + ([ArrayClose] + rest) == Tokens(t.items[from]) + later;
      ScanValue(inside, t.items[from], later);
      ScanItems(stack, t, from + 1, rest);
      hide Scan, NoRepeats, Tokens;
    }
  }

  ghost function NamesBefore(t: Tree, n: nat): set<string>
    requires t.Object? && n <= |t.members|
  {
    set i | 0 <= i < n :: t.members[i].name
  }

  /** From a member on, the names are new and the values repeat none. */
  ghost predicate MembersPass(t: Tree, from: nat)
    requires t.Object? && from <= |t.members|
  {
    && (forall i, j :: 0 <= i < j < |t.members| && from <= j ==> t.members[i].name != t.members[j].name)
    && forall i :: from <= i < |t.members| ==> NoRepeats(t.members[i].value)
  }

  lemma MembersPassFrom(t: Tree, from: nat)
    requires t.Object? && from < |t.members|
    ensures MembersPass(t, from) <==>
            t.members[from].name !in NamesBefore(t, from) && NoRepeats(t.members[from].value) && MembersPass(t, from + 1)
  {
    hide NoRepeats;
    if t.members[from].name in NamesBefore(t, from) {
      var i :| 0 <= i < from && t.members[i].name == t.members[from].name;
    }
  }

  lemma {:induction false} ScanMembers(stack: seq<Frame>, t: Tree, from: nat, rest: seq<Token>)
    requires t.Object? && from <= |t.members|
    ensures Passes(MembersPass(t, from),
                   Scan(stack + [Frame(true, true, NamesBefore(t, from))], MemberTokens(t, from) + ([ObjectClose] + rest)),
                   Scan(ValueEnded(stack), rest))
    decreases t, 0, |t.members| - from
  {
    var names := NamesBefore(t, from);
    var inside := stack + [Frame(true, true, names)];
    if from == |t.members| {
      assert MemberTokens(t, from) + ([ObjectClose] + rest) == [ObjectClose] + rest;
      assert ([ObjectClose] + rest)[1..] == rest && inside[..|inside| - 1] == stack;
    } else {
      var name, value := t.members[from].name, t.members[from].value;
      var later := MemberTokens(t, from + 1) + ([ObjectClose] + rest);
      var tokens := MemberTokens(t, from) + ([ObjectClose] + rest);
      assert tokens == [StringToken(name)] + (Tokens(value) + later) && tokens[1..] == Tokens(value) + later;
      MembersPassFrom(t, from);
      if name !in names {
        var inValue := stack + [Frame(true, false, names + {name})];
        assert inside[|inside| - 1 := Frame(true, false, names + {name})] == inValue;
        ScanValue(inValue, value, later);
        assert NamesBefore(t, from + 1) == names + {name};
        assert ValueEnded(inValue) == stack + [Frame(true, true, NamesBefore(t, from + 1))];
        ScanMembers(stack, t, from + 1, rest);
      }
    }
  }

  /** The scanner accepts the tokens of any values exactly when no object in them repeats a name. */
  lemma {:induction false} ScannerAgrees(values: seq<Tree>)
    ensures Passes(forall i :: 0 <= i < |values| ==> NoRepeats(values[i]), Scan([], StreamTokens(values)), Accepted)
  {
    hide NoRepeats, Tokens;
    if values != [] {
      ScanValue([], values[0], StreamTokens(values[1..]));
      ScannerAgrees(values[1..]);
      hide Scan;
      assert forall i :: 1 <= i < |values| ==> values[i] == values[1..][i - 1];
    }
  }

  /* ---------- any tokens ---------- */

  function Depth(tokens: seq<Token>): int
  {
    if tokens == [] then 0
    else (if Opens(tokens[0]) then 1 else if Closes(tokens[0]) then -1 else 0) + Depth(tokens[1..])
  }

  predicate Opens(token: Token) { token.ObjectOpen? || token.ArrayOpen? }

  predicate Closes(token: Token) { token.ObjectClose? || token.ArrayClose? }

  /** The token closes what was never opened; this depth was open before the tokens. */
  ghost predicate ClosesNothing(depth: nat, tokens: seq<Token>, j: int)
  {
    0 <= j < |tokens| && Closes(tokens[j]) && depth + Depth(tokens[..j]) == 0
  }

  /** The token is a name that was seen before, among the names of an open object or among the tokens. */
  ghost predicate NamesAgain(stack: seq<Frame>, tokens: seq<Token>, j: int, key: string)
  {
    && 0 <= j < |tokens| && tokens[j] == StringToken(key)
    && ((exists i :: 0 <= i < j && tokens[i] == StringToken(key)) || exists k :: 0 <= k < |stack| && key in stack[k].keys)
  }

  /** Whatever the tokens are: the scanner rejects a name only if it was seen before, calls them unbalanced only at a
      closing token that nothing was opened for, and accepts them only if there is none. */
  lemma {:induction false} ScanMeans(stack: seq<Frame>, tokens: seq<Token>)
    ensures match Scan(stack, tokens)
            case Accepted => forall j :: !ClosesNothing(|stack|, tokens, j)
            case DuplicateKey(key) => exists j :: NamesAgain(stack, tokens, j, key)
            case Unbalanced => exists j :: ClosesNothing(|stack|, tokens, j)
    decreases |tokens|
  {
    if tokens != [] {
      assert tokens[..0] == [];
      assert ClosesNothing(|stack|, tokens, 0) <==> Closes(tokens[0]) && stack == [];
      if !ClosesNothing(|stack|, tokens, 0) && !(AwaitsKey(stack) && Repeats(stack, tokens[0])) {
        var next := NextStack(stack, tokens[0]);
        ScanNext(stack, tokens);
        ScanMeans(next, tokens[1..]);
        LaterClose(stack, tokens, next);
        LaterName(stack, tokens, next);
      } else if !ClosesNothing(|stack|, tokens, 0) {
        assert tokens[0].text in stack[|stack| - 1].keys;
        assert NamesAgain(stack, tokens, 0, tokens[0].text);
        assert Scan(stack, tokens) == DuplicateKey(tokens[0].text);
      }
    }
  }

  predicate Repeats(stack: seq<Frame>, token: Token)
    requires stack != []
  {
    token.StringToken? && token.text in stack[|stack| - 1].keys
  }

  function NextStack(stack: seq<Frame>, token: Token): seq<Frame>
    requires Closes(token) ==> stack != []
  {
    match token
    case ObjectOpen => stack + [Frame(true, true, {})]
    case ArrayOpen => stack + [Frame(false, false, {})]
    case StringToken(text) =>
      if AwaitsKey(stack) then
        var top := stack[|stack| - 1];
        stack[|stack| - 1 := top.(keys := top.keys + {text}, expectKey := false)]
      else ValueEnded(stack)
    case ScalarToken => if AwaitsKey(stack) then stack else ValueEnded(stack)
    case _ => ValueEnded(stack[..|stack| - 1])
  }

  lemma ScanNext(stack: seq<Frame>, tokens: seq<Token>)
    requires tokens != [] && (Closes(tokens[0]) ==> stack != []) && !(AwaitsKey(stack) && Repeats(stack, tokens[0]))
    ensures Scan(stack, tokens) == Scan(NextStack(stack, tokens[0]), tokens[1..])
  {}

  lemma LaterClose(stack: seq<Frame>, tokens: seq<Token>, next: seq<Frame>)
    requires tokens != [] && (Closes(tokens[0]) ==> stack != []) && next == NextStack(stack, tokens[0])
    ensures forall j :: j > 0 ==> (ClosesNothing(|stack|, tokens, j) <==> ClosesNothing(|next|, tokens[1..], j - 1))
    ensures forall j :: ClosesNothing(|next|, tokens[1..], j) ==> ClosesNothing(|stack|, tokens, j + 1)
  {
    forall j | 0 < j < |tokens|
      ensures tokens[..j][0] == tokens[0] && tokens[..j][1..] == tokens[1..][..j - 1]
    {
    }
    forall j | 0 <= j < |tokens| - 1
      ensures ClosesNothing(|next|, tokens[1..], j) <==> ClosesNothing(|stack|, tokens, j + 1)
    {
      assert tokens[..j + 1][1..] == tokens[1..][..j];
    }
  }

  lemma LaterName(stack: seq<Frame>, tokens: seq<Token>, next: seq<Frame>)
    requires tokens != [] && (Closes(tokens[0]) ==> stack != []) && next == NextStack(stack, tokens[0])
    ensures forall j, key :: NamesAgain(next, tokens[1..], j, key) ==> NamesAgain(stack, tokens, j + 1, key)
  {
    forall j, key | NamesAgain(next, tokens[1..], j, key)
      ensures NamesAgain(stack, tokens, j + 1, key)
    {
      if i :| 0 <= i < j && tokens[1..][i] == StringToken(key) {
        assert tokens[i + 1] == StringToken(key);
      } else {
        var k :| 0 <= k < |next| && key in next[k].keys;
        if tokens[0] == StringToken(key) {
          assert tokens[0] == StringToken(key);
        } else {
          assert k < |stack| && key in stack[k].keys;
        }
      }
    }
  }
}
