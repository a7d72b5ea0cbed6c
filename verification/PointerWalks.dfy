/** How tokens are written in a pointer, and where a walk along them ends. */
module PointerWalks {
  import opened Options
  import opened Pointers

  /* ---------- escaping ---------- */

  lemma ReplaceFirst(first: char, s: string, c: char, substitute: string)
    ensures ReplaceChar([first] + s, c, substitute) == (if first == c then substitute else [first]) + ReplaceChar(s, c, substitute)
  {
    assert ([first] + s)[1..] == s;
  }

  lemma NothingReplaced(c: char, substitute: string)
    ensures ReplaceChar("", c, substitute) == ""
  {}

  lemma Associate(a: string, b: string, c: string)
    ensures a + b + c == a + (b + c)
  {}

  lemma {:induction false} ReplaceConcat(s: string, t: string, c: char, substitute: string)
    ensures ReplaceChar(s + t, c, substitute) == ReplaceChar(s, c, substitute) + ReplaceChar(t, c, substitute)
  {
    hide ReplaceChar;
    if s == "" {
      NothingReplaced(c, substitute);
      assert s + t == t && "" + ReplaceChar(t, c, substitute) == ReplaceChar(t, c, substitute);
    } else {
      var first, rest := [s[0]], s[1..];
      assert s == first + rest;
      Associate(first, rest, t);
      ReplaceConcat(rest, t, c, substitute);
      ReplaceFirst(s[0], rest, c, substitute);
      ReplaceFirst(s[0], rest + t, c, substitute);
      Associate(if s[0] == c then substitute else first, ReplaceChar(rest, c, substitute), ReplaceChar(t, c, substitute));
    }
  }

  /** Escaping goes character by character: a tilde becomes ~0, a slash ~1, and any other character stays (section 3 of
      RFC 6901). */
  lemma EscapeByCharacter(c: char, s: string)
    ensures Escape([c] + s) == (if c == '~' then "~0" else if c == '/' then "~1" else [c]) + Escape(s)
  {
    var once := if c == '~' then "~0" else [c];
    ReplaceConcat([c], s, '~', "~0");
    OneCharacter(c, '~', "~0");
    ReplaceConcat(once, ReplaceChar(s, '~', "~0"), '/', "~1");
    OneCharacter(c, '/', "~1");
    ReplaceConcat("~", "0", '/', "~1");
    OneCharacter('~', '/', "~1");
    OneCharacter('0', '/', "~1");
    hide ReplaceChar;
    assert "~" + "0" == "~0";
    assert ReplaceChar([c], '~', "~0") == once;
    assert ReplaceChar(once, '/', "~1") == if c == '~' then "~0" else if c == '/' then "~1" else [c];
  }

  lemma OneCharacter(c: char, replaced: char, substitute: string)
    ensures ReplaceChar([c], replaced, substitute) == if c == replaced then substitute else [c]
  {
    assert [c][1..] == "";
  }

  /* ---------- positions ---------- */

  predicate Numeral(s: string) { s != "" && forall i :: 0 <= i < |s| ==> '0' <= s[i] <= '9' }

  /** The value of a numeral. */
  function Reads(s: string): int
    requires Numeral(s)
  {
    DigitsValue(s)
  }

  /** A position is read from a decimal numeral with at most one sign, and from nothing else. */
  lemma AtoiMeans(s: string)
    ensures Numeral(s) ==> Atoi(s) == Some(Reads(s))
    ensures Numeral(s) ==> Atoi("+" + s) == Some(Reads(s)) && Atoi("-" + s) == Some(-Reads(s))
    ensures Atoi(s).Some? ==> Numeral(s) || (s != "" && (s[0] == '+' || s[0] == '-') && Numeral(s[1..]))
  {
    hide DigitsValue;
    assert ("+" + s)[1..] == s && ("-" + s)[1..] == s;
  }

  /* ---------- walking ---------- */

  /** The walk finds an array before the token, which is no position. */
  ghost predicate BadPosition(root: Json, tokens: seq<string>, k: int)
  {
    && 0 <= k < |tokens| && Walk(root, tokens[..k]).Found? && Walk(root, tokens[..k]).value.Array?
    && (Atoi(tokens[k]).None? || Atoi(tokens[k]).value < 0)
  }

  /** The walk finds a value before the token that has nothing there: an object without the field, an array that ends
      before the position, or a scalar. */
  ghost predicate NothingThere(root: Json, tokens: seq<string>, k: int)
  {
    && 0 <= k < |tokens| && Walk(root, tokens[..k]).Found?
    && match Walk(root, tokens[..k]).value
       case Object(fields) => tokens[k] !in fields
       case Array(items) => Atoi(tokens[k]).Some? && Atoi(tokens[k]).value >= |items|
       case _ => true
  }

  lemma NextPrefix(root: Json, tokens: seq<string>, next: Json, k: int)
    requires tokens != [] && 0 <= k < |tokens| - 1
    requires forall rest :: Walk(root, [tokens[0]] + rest) == Walk(next, rest)
    ensures BadPosition(root, tokens, k + 1) <==> BadPosition(next, tokens[1..], k)
    ensures NothingThere(root, tokens, k + 1) <==> NothingThere(next, tokens[1..], k)
  {
    assert tokens[..k + 1] == [tokens[0]] + tokens[1..][..k];
    hide Walk, Atoi;
  }

  lemma WalkNext(root: Json, token: string)
    ensures root.Object? && token in root.fields ==> forall rest :: Walk(root, [token] + rest) == Walk(root.fields[token], rest)
    ensures root.Array? && Atoi(token).Some? && 0 <= Atoi(token).value < |root.items| ==>
              forall rest :: Walk(root, [token] + rest) == Walk(root.items[Atoi(token).value], rest)
  {
    forall rest: seq<string>
      ensures ([token] + rest)[0] == token && ([token] + rest)[1..] == rest
    {
    }
  }

  /** A walk is missing exactly where there is nothing, invalid exactly at a token that is no position, and otherwise finds
      the value. */
  lemma {:induction false} WalkFails(root: Json, tokens: seq<string>)
    ensures Walk(root, tokens).Missing? <==> exists k :: NothingThere(root, tokens, k)
    ensures Walk(root, tokens).Invalid? <==> exists k :: BadPosition(root, tokens, k)
    ensures forall k :: BadPosition(root, tokens, k) ==> Walk(root, tokens) == Invalid(tokens[k])
    decreases |tokens|
  {
    if tokens != [] {
      assert tokens[..0] == [];
      WalkNext(root, tokens[0]);
      assert NothingThere(root, tokens, 0) <==> FirstMissing(root, tokens[0]) by { assert Walk(root, []) == Found(root); }
      assert BadPosition(root, tokens, 0) <==> FirstInvalid(root, tokens[0]) by { assert Walk(root, []) == Found(root); }
      assert tokens == [tokens[0]] + tokens[1..];
      if FirstMissing(root, tokens[0]) || FirstInvalid(root, tokens[0]) {
        StopsAtFirst(root, tokens);
      } else {
        var next := if root.Object? then root.fields[tokens[0]] else root.items[Atoi(tokens[0]).value];
        WalkFails(next, tokens[1..]);
        GoesOn(root, tokens, next);
      }
    }
  }

  predicate FirstMissing(root: Json, token: string)
  {
    match root
    case Object(fields) => token !in fields
    case Array(items) => Atoi(token).Some? && Atoi(token).value >= |items|
    case _ => true
  }

  predicate FirstInvalid(root: Json, token: string) { root.Array? && (Atoi(token).None? || Atoi(token).value < 0) }

  lemma StopsAtFirst(root: Json, tokens: seq<string>)
    requires tokens != [] && (FirstMissing(root, tokens[0]) || FirstInvalid(root, tokens[0]))
    ensures Walk(root, tokens) == if FirstMissing(root, tokens[0]) then Missing else Invalid(tokens[0])
    ensures forall k :: k > 0 ==> !NothingThere(root, tokens, k) && !BadPosition(root, tokens, k)
  {
    forall k | 0 < k <= |tokens|
      ensures !Walk(root, tokens[..k]).Found?
    {
      assert tokens[..k][0] == tokens[0];
    }
  }

  lemma GoesOn(root: Json, tokens: seq<string>, next: Json)
    requires tokens != [] && !FirstMissing(root, tokens[0]) && !FirstInvalid(root, tokens[0])
    requires forall rest :: Walk(root, [tokens[0]] + rest) == Walk(next, rest)
    ensures forall k :: NothingThere(next, tokens[1..], k) <==> k >= 0 && NothingThere(root, tokens, k + 1)
    ensures forall k :: BadPosition(next, tokens[1..], k) <==> k >= 0 && BadPosition(root, tokens, k + 1)
    ensures !NothingThere(root, tokens, 0) && !BadPosition(root, tokens, 0)
    ensures forall k :: NothingThere(root, tokens, k) ==> NothingThere(next, tokens[1..], k - 1)
    ensures forall k :: BadPosition(root, tokens, k) ==> BadPosition(next, tokens[1..], k - 1)
  {
    assert tokens[..0] == [] && Walk(root, []) == Found(root);
    forall k | 0 <= k < |tokens| - 1
      ensures NothingThere(next, tokens[1..], k) <==> NothingThere(root, tokens, k + 1)
      ensures BadPosition(next, tokens[1..], k) <==> BadPosition(root, tokens, k + 1)
    {
      NextPrefix(root, tokens, next, k);
    }
    hide Walk, Atoi;
    forall k | NothingThere(root, tokens, k) || BadPosition(root, tokens, k)
      ensures k > 0 && k - 1 + 1 == k
    {
    }
  }
}
