/** JSON documents and the pointers into them (sections 3 and 4 of RFC 6901). */
module Pointers {
  import opened Options

  /** A decoded document; numbers keep their text. */
  datatype Json =
    | Null
    | Bool(value: bool)
    | Number(text: string)
    | Text(text: string)
    | Array(items: seq<Json>)
    | Object(fields: map<string, Json>)

  /* ---------- tokens ---------- */

  function ReplaceChar(s: string, c: char, substitute: string): string
  {
    if s == "" then "" else (if s[0] == c then substitute else [s[0]]) + ReplaceChar(s[1..], c, substitute)
  }

  /** Replaces every occurrence of the two characters, from the left. */
  function ReplacePair(s: string, first: char, second: char, substitute: char): string
  {
    if s == "" then ""
    else if |s| >= 2 && s[0] == first && s[1] == second then [substitute] + ReplacePair(s[2..], first, second, substitute)
    else [s[0]] + ReplacePair(s[1..], first, second, substitute)
  }

  function Escape(s: string): string { ReplaceChar(ReplaceChar(s, '~', "~0"), '/', "~1") }

  function Unescape(s: string): string { ReplacePair(ReplacePair(s, '~', '1', '/'), '~', '0', '~') }

  ghost predicate TildeZero(s: string)
  {
    forall i :: 0 <= i < |s| && s[i] == '~' ==> i + 1 < |s| && s[i + 1] == '0'
  }

  lemma {:induction false} TildesAreZero(s: string)
    ensures TildeZero(ReplaceChar(s, '~', "~0"))
  {
    if s != "" {
      var rest := ReplaceChar(s[1..], '~', "~0");
      TildesAreZero(s[1..]);
      var head := if s[0] == '~' then "~0" else [s[0]];
      forall i | 0 <= i < |head + rest| && (head + rest)[i] == '~'
        ensures i + 1 < |head + rest| && (head + rest)[i + 1] == '0'
      {
        if i >= |head| { assert rest[i - |head|] == '~'; }
      }
    }
  }

  lemma {:induction false} UnescapeTildes(s: string)
    ensures ReplacePair(ReplaceChar(s, '~', "~0"), '~', '0', '~') == s
  {
    if s != "" {
      var rest := ReplaceChar(s[1..], '~', "~0");
      UnescapeTildes(s[1..]);
      assert s == [s[0]] + s[1..];
      if s[0] == '~' {
        assert ("~0" + rest)[2..] == rest;
      } else {
        assert ([s[0]] + rest)[1..] == rest;
      }
    }
  }

  lemma {:induction false} UnescapeSlashes(s: string)
    requires TildeZero(s)
    ensures ReplacePair(ReplaceChar(s, '/', "~1"), '~', '1', '/') == s
  {
    if s != "" {
      var rest := ReplaceChar(s[1..], '/', "~1");
      assert TildeZero(s[1..]) by {
        assert forall i :: 0 <= i < |s[1..]| ==> s[1..][i] == s[i + 1];
      }
      UnescapeSlashes(s[1..]);
      assert s == [s[0]] + s[1..];
      if s[0] == '/' {
        assert ("~1" + rest)[2..] == rest;
      } else {
        assert s[0] == '~' ==> s[1] == '0' && s[1..][0] == '0' && rest[0] == '0';
        assert ([s[0]] + rest)[1..] == rest;
      }
    }
  }

  /** Unescaping inverts escaping. */
  lemma EscapeRoundTrip(s: string)
    ensures Unescape(Escape(s)) == s
  {
    TildesAreZero(s);
    UnescapeSlashes(ReplaceChar(s, '~', "~0"));
    UnescapeTildes(s);
  }

  lemma {:induction false} ReplacedHasNoSlash(s: string)
    ensures '/' !in ReplaceChar(s, '/', "~1")
  {
    if s != "" { ReplacedHasNoSlash(s[1..]); }
  }

  lemma EscapedHasNoSlash(s: string)
    ensures '/' !in Escape(s)
  {
    ReplacedHasNoSlash(ReplaceChar(s, '~', "~0"));
  }

  lemma {:induction false} ReplaceOther(s: string, c: char, substitute: string)
    requires c !in s
    ensures ReplaceChar(s, c, substitute) == s
  {
    if s != "" { ReplaceOther(s[1..], c, substitute); }
  }

  /* ---------- pointers ---------- */

  function Split(s: string): (parts: seq<string>)
    ensures |parts| >= 1
  {
    if s == "" then [""]
    else
      var rest := Split(s[1..]);
      if s[0] == '/' then [""] + rest else [[s[0]] + rest[0]] + rest[1..]
  }

  function TrimSlash(pointer: string): string
  {
    if pointer != "" && pointer[0] == '/' then pointer[1..] else pointer
  }

  function Decoded(parts: seq<string>): (tokens: seq<string>)
    ensures |tokens| == |parts| && forall i :: 0 <= i < |parts| ==> tokens[i] == Unescape(parts[i])
  {
    if parts == [] then [] else [Unescape(parts[0])] + Decoded(parts[1..])
  }

  /** The reference tokens of a pointer; the empty pointer has none. */
  function Tokens(pointer: string): seq<string>
  {
    if pointer == "" then [] else Decoded(Split(TrimSlash(pointer)))
  }

  function Render(tokens: seq<string>): string
  {
    if tokens == [] then "" else "/" + Escape(tokens[0]) + Render(tokens[1..])
  }

  lemma {:induction false} SplitHead(head: string, rest: string)
    requires '/' !in head
    ensures Split(head) == [head]
    ensures Split(head + "/" + rest) == [head] + Split(rest)
  {
    if head == "" {
      assert (head + "/" + rest)[1..] == rest;
    } else {
      SplitHead(head[1..], rest);
      assert (head + "/" + rest)[1..] == head[1..] + "/" + rest;
      assert head == [head[0]] + head[1..];
    }
  }

  lemma DecodedCons(part: string, parts: seq<string>)
    ensures Decoded([part] + parts) == [Unescape(part)] + Decoded(parts)
  {
    assert ([part] + parts)[1..] == parts;
  }

  /** The first token of a pointer without its leading slash, and the pointer that follows it. */
  lemma FirstToken(head: string, rest: string)
    requires '/' !in head && (rest == "" || rest[0] == '/')
    ensures Decoded(Split(head + rest)) == [Unescape(head)] + Tokens(rest)
  {
    hide Unescape, Split;
    if rest == "" {
      SplitHead(head, "");
      assert head + rest == head;
      DecodedCons(head, []);
      assert [head] + [] == [head];
    } else {
      SplitHead(head, rest[1..]);
      assert head + rest == head + "/" + rest[1..];
      DecodedCons(head, Split(rest[1..]));
    }
  }

  lemma TokensCons(token: string, rest: string)
    requires rest == "" || rest[0] == '/'
    ensures Tokens("/" + Escape(token) + rest) == [token] + Tokens(rest)
  {
    hide Escape, Unescape, Split, Decoded;
    var pointer := "/" + Escape(token) + rest;
    EscapedHasNoSlash(token);
    EscapeRoundTrip(token);
    FirstToken(Escape(token), rest);
    assert pointer[0] == '/' && pointer[1..] == Escape(token) + rest;
  }

  /** Reading a rendered pointer gives its tokens back, for any tokens. */
  lemma {:induction false} PointerRoundTrip(tokens: seq<string>)
    ensures Tokens(Render(tokens)) == tokens
  {
    if tokens != [] {
      PointerRoundTrip(tokens[1..]);
      RenderedStart(tokens[1..]);
      hide Tokens, Escape;
      TokensCons(tokens[0], Render(tokens[1..]));
      assert tokens == [tokens[0]] + tokens[1..];
    }
  }

  lemma RenderedStart(tokens: seq<string>)
    ensures Render(tokens) == "" || Render(tokens)[0] == '/'
  {}

  /* ---------- array positions ---------- */

  function Digit(n: nat): char
    requires n < 10
  {
    '0' + n as char
  }

  predicate IsDigit(c: char) { '0' <= c <= '9' }

  function DigitValue(c: char): (n: nat)
    requires IsDigit(c)
    ensures n < 10
  {
    (c - '0') as nat
  }

  function Itoa(n: nat): (s: string)
    ensures s != "" && forall i :: 0 <= i < |s| ==> IsDigit(s[i])
  {
    if n < 10 then [Digit(n)] else Itoa(n / 10) + [Digit(n % 10)]
  }

  function DigitsValue(s: string): nat
    requires forall i :: 0 <= i < |s| ==> IsDigit(s[i])
  {
    if s == "" then 0 else 10 * DigitsValue(s[..|s| - 1]) + DigitValue(s[|s| - 1])
  }

  function UnsignedValue(s: string): Option<nat>
  {
    if s != "" && forall i :: 0 <= i < |s| ==> IsDigit(s[i]) then Some(DigitsValue(s)) else None
  }

  /** A decimal number with an optional sign. */
  function Atoi(s: string): Option<int>
  {
    if s != "" && (s[0] == '+' || s[0] == '-') then
      match UnsignedValue(s[1..])
      case Some(n) => Some(if s[0] == '-' then -(n as int) else n)
      case None => None
    else
      match UnsignedValue(s)
      case Some(n) => Some(n)
      case None => None
  }

  lemma {:induction false} DigitsRoundTrip(n: nat)
    ensures DigitsValue(Itoa(n)) == n
  {
    if n >= 10 {
      DigitsRoundTrip(n / 10);
      assert Itoa(n)[..|Itoa(n)| - 1] == Itoa(n / 10);
    } else {
      assert Itoa(n)[..0] == "";
    }
  }

  lemma PositionRoundTrip(n: nat)
    ensures Atoi(Itoa(n)) == Some(n)
  {
    DigitsRoundTrip(n);
    assert IsDigit(Itoa(n)[0]);
  }

  /* ---------- resolving ---------- */

  datatype Resolution = Found(value: Json) | Missing | Invalid(token: string)

  function Walk(current: Json, tokens: seq<string>): Resolution
  {
    if tokens == [] then Found(current)
    else
      match current
      case Object(fields) => if tokens[0] in fields then Walk(fields[tokens[0]], tokens[1..]) else Missing
      case Array(items) =>
        (match Atoi(tokens[0])
         case None => Invalid(tokens[0])
         case Some(position) =>
           if position < 0 then Invalid(tokens[0])
           else if position >= |items| then Missing
           else Walk(items[position], tokens[1..]))
      case _ => Missing
  }

  method ResolvePointer(root: Json, pointer: string) returns (resolved: Resolution)
    ensures resolved == Walk(root, Tokens(pointer))
  {
    if pointer == "" {
      return Found(root);
    }
    var parts := Split(TrimSlash(pointer));
    var current := root;
    for i := 0 to |parts|
      invariant Walk(root, Tokens(pointer)) == Walk(current, Tokens(pointer)[i..])
    {
      var part := Unescape(parts[i]);
      assert Tokens(pointer)[i..][0] == part && Tokens(pointer)[i..][1..] == Tokens(pointer)[i + 1..];
      match current
      case Object(fields) =>
        if part !in fields {
          return Missing;
        }
        current := fields[part];
      case Array(items) =>
        var position := Atoi(part);
        if position.None? || position.value < 0 {
          return Invalid(part);
        }
        if position.value >= |items| {
          return Missing;
        }
        current := items[position.value];
      case _ =>
        return Missing;
    }
    resolved := Found(current);
  }
}
