/** Where the differences of an ordered comparison point. */
module ComparisonPointers {
  import opened Cardinality
  import opened Comparison
  import opened Keys
  import opened Pointers
  import opened T = Text

  /* ---------- every pointer resolves to what is reported ---------- */

  /** What a difference at these tokens says of the two documents is true of them. */
  ghost predicate Explains(left: Json, right: Json, tokens: seq<string>, d: Difference)
  {
    match d.message
    case ValuesDiffer =>
      && d.expected.Of? && d.actual.Of? && d.expected != d.actual
      && Walk(left, tokens) == Found(d.expected.json) && Walk(right, tokens) == Found(d.actual.json)
    case LengthDiffers =>
      && d.expected.Count? && d.actual.Count? && d.expected != d.actual
      && HasLength(Walk(left, tokens), d.expected.length) && HasLength(Walk(right, tokens), d.actual.length)
    case PresenceDiffers =>
      && d.expected.Of? && d.actual.Of?
      && ((Walk(left, tokens) == Found(d.expected.json) && Walk(right, tokens) == Missing && d.actual == Of(Null))
          || (Walk(left, tokens) == Missing && Walk(right, tokens) == Found(d.actual.json) && d.expected == Of(Null)))
  }

  ghost predicate HasLength(r: Resolution, n: nat)
  {
    r.Found? && r.value.Array? && |r.value.items| == n
  }

  ghost predicate LocatedAt(left: Json, right: Json, pointer: string, d: Difference, tokens: seq<string>)
  {
    d.pointer == pointer + Render(tokens) && Explains(left, right, tokens, d)
  }

  ghost predicate Located(left: Json, right: Json, pointer: string, d: Difference)
  {
    exists tokens :: LocatedAt(left, right, pointer, d, tokens)
  }

  lemma LocatedHere(left: Json, right: Json, pointer: string, d: Difference)
    requires d.pointer == pointer && Explains(left, right, [], d)
    ensures Located(left, right, pointer, d)
  {
    assert LocatedAt(left, right, pointer, d, []);
  }

  lemma RenderFirst(pointer: string, token: string, tokens: seq<string>)
    ensures pointer + "/" + Escape(token) + Render(tokens) == pointer + Render([token] + tokens)
  {
    assert ([token] + tokens)[1..] == tokens;
  }

  lemma LocatedInField(left: Json, right: Json, pointer: string, key: string, d: Difference)
    requires left.Object? && right.Object? && key in left.fields && key in right.fields
    requires Located(left.fields[key], right.fields[key], pointer + "/" + Escape(key), d)
    ensures Located(left, right, pointer, d)
  {
    hide Escape, Render;
    var tokens :| LocatedAt(left.fields[key], right.fields[key], pointer + "/" + Escape(key), d, tokens);
    RenderFirst(pointer, key, tokens);
    WalkFirst(left, key, tokens);
    WalkFirst(right, key, tokens);
    assert LocatedAt(left, right, pointer, d, [key] + tokens);
  }

  lemma WalkFirst(current: Json, token: string, tokens: seq<string>)
    ensures current.Object? && token in current.fields ==> Walk(current, [token] + tokens) == Walk(current.fields[token], tokens)
    ensures current.Object? && token !in current.fields ==> Walk(current, [token] + tokens) == Missing
  {
    assert ([token] + tokens)[1..] == tokens;
  }

  lemma {:induction false} ItoaNeedsNoEscape(s: string)
    requires forall i :: 0 <= i < |s| ==> IsDigit(s[i])
    ensures Escape(s) == s
  {
    if s != "" {
      ItoaNeedsNoEscape(s[1..]);
      ReplaceOther(s, '~', "~0");
      ReplaceOther(s, '/', "~1");
    }
  }

  lemma WalkPosition(current: Json, n: nat, tokens: seq<string>)
    requires current.Array? && n < |current.items|
    ensures Walk(current, [Itoa(n)] + tokens) == Walk(current.items[n], tokens)
  {
    PositionRoundTrip(n);
    assert ([Itoa(n)] + tokens)[1..] == tokens;
  }

  lemma LocatedInItem(left: Json, right: Json, pointer: string, n: nat, d: Difference)
    requires left.Array? && right.Array? && n < |left.items| && n < |right.items|
    requires Located(left.items[n], right.items[n], pointer + "/" + Itoa(n), d)
    ensures Located(left, right, pointer, d)
  {
    hide Escape, Itoa, Atoi, Render, Walk;
    var tokens :| LocatedAt(left.items[n], right.items[n], pointer + "/" + Itoa(n), d, tokens);
    ItoaNeedsNoEscape(Itoa(n));
    RenderFirst(pointer, Itoa(n), tokens);
    WalkPosition(left, n, tokens);
    WalkPosition(right, n, tokens);
    assert LocatedAt(left, right, pointer, d, [Itoa(n)] + tokens);
  }

  lemma {:induction false} AllLocated(left: Json, right: Json, pointer: string, d: Difference)
    requires d in CompareValue(left, right, pointer)
    ensures Located(left, right, pointer, d)
    decreases left, 1, 0
  {
    hide Located, Escape, SortedKeys, Itoa;
    match left
    case Object(fields) =>
      if right.Object? {
        FieldsLocated(left, right, SortedKeys(fields.Keys + right.fields.Keys), pointer, d);
      } else {
        LocatedHere(left, right, pointer, d);
      }
    case Array(items) =>
      if right.Array? {
        var limit := if |right.items| < |items| then |right.items| else |items|;
        if d in CompareItems(left, right, limit, pointer) {
          ItemsLocated(left, right, limit, pointer, d);
        } else {
          LocatedHere(left, right, pointer, d);
        }
      } else {
        LocatedHere(left, right, pointer, d);
      }
    case _ => LocatedHere(left, right, pointer, d);
  }

  lemma {:induction false} FieldsLocated(left: Json, right: Json, keys: seq<string>, pointer: string, d: Difference)
    requires left.Object? && right.Object? && Elements(keys) <= left.fields.Keys + right.fields.Keys
    requires d in CompareFields(left, right, keys, pointer)
    ensures Located(left, right, pointer, d)
    decreases left, 0, |keys|
  {
    hide Located, Escape;
    var key := keys[0];
    assert key in Elements(keys) && Elements(keys[1..]) <= Elements(keys);
    if d in CompareField(left, right, key, pointer) {
      if key in left.fields && key in right.fields {
        AllLocated(left.fields[key], right.fields[key], pointer + "/" + Escape(key), d);
        LocatedInField(left, right, pointer, key, d);
      } else {
        PresenceLocated(left, right, pointer, key, d);
      }
    } else {
      FieldsLocated(left, right, keys[1..], pointer, d);
    }
  }

  lemma PresenceLocated(left: Json, right: Json, pointer: string, key: string, d: Difference)
    requires left.Object? && right.Object? && key in left.fields.Keys + right.fields.Keys
    requires !(key in left.fields && key in right.fields) && d in CompareField(left, right, key, pointer)
    ensures Located(left, right, pointer, d)
  {
    hide Escape, Render;
    WalkFirst(left, key, []);
    WalkFirst(right, key, []);
    RenderFirst(pointer, key, []);
    assert Render([]) == "" by { RenderNothing(); }
    assert [key] + [] == [key];
    assert LocatedAt(left, right, pointer, d, [key]);
  }

  lemma RenderNothing()
    ensures Render([]) == ""
  {}

  lemma {:induction false} ItemsLocated(left: Json, right: Json, n: nat, pointer: string, d: Difference)
    requires left.Array? && right.Array? && n <= |left.items| && n <= |right.items|
    requires d in CompareItems(left, right, n, pointer)
    ensures Located(left, right, pointer, d)
    decreases left, 0, n
  {
    hide Located, Itoa;
    if d in CompareItems(left, right, n - 1, pointer) {
      ItemsLocated(left, right, n - 1, pointer, d);
    } else {
      AllLocated(left.items[n - 1], right.items[n - 1], pointer + "/" + Itoa(n - 1), d);
      LocatedInItem(left, right, pointer, n - 1, d);
    }
  }

  /** Every reported pointer resolves: a value difference to the reported values on both sides, a length
      difference to arrays of the reported lengths, a presence difference to the reported value on one side only. */
  lemma PointersResolve(left: Json, right: Json, d: Difference)
    requires d in CompareValue(left, right, "")
    ensures Explains(left, right, Tokens(d.pointer), d)
  {
    hide Explains, Tokens, Render;
    AllLocated(left, right, "", d);
    var tokens :| LocatedAt(left, right, "", d, tokens);
    PointerRoundTrip(tokens);
    assert d.pointer == Render(tokens);
  }

  /* ---------- no pointer is reported twice ---------- */

  /** The pointer is the given one or continues it with a slash. */
  ghost predicate Below(pointer: string, p: string)
  {
    |pointer| <= |p| && p[..|pointer|] == pointer && (|pointer| == |p| || p[|pointer|] == '/')
  }

  ghost predicate AllBelow(pointer: string, differences: seq<Difference>)
  {
    forall i :: 0 <= i < |differences| ==> Below(pointer, differences[i].pointer)
  }

  ghost predicate DistinctPointers(differences: seq<Difference>)
  {
    forall i, j :: 0 <= i < j < |differences| ==> differences[i].pointer != differences[j].pointer
  }

  lemma BelowChild(pointer: string, token: string, p: string)
    requires Below(pointer + "/" + token, p)
    ensures Below(pointer, p) && p != pointer
  {
    var child := pointer + "/" + token;
    assert child[..|pointer|] == pointer && child[|pointer|] == '/';
    assert p[..|pointer|] == child[..|pointer|];
    assert p[|pointer|] == p[..|child|][|pointer|] == '/';
  }

  /** Tokens without a slash are recovered from any pointer below them. */
  lemma ChildrenAreApart(pointer: string, a: string, b: string, p: string)
    requires '/' !in a && '/' !in b && Below(pointer + "/" + a, p) && Below(pointer + "/" + b, p)
    ensures a == b
  {
    var n := |pointer| + 1;
    var childA, childB := pointer + "/" + a, pointer + "/" + b;
    assert forall i :: 0 <= i < |a| ==> p[n + i] == childA[n + i] == a[i];
    assert forall i :: 0 <= i < |b| ==> p[n + i] == childB[n + i] == b[i];
    assert forall i :: n <= i < n + |a| ==> p[i] == a[i - n] != '/';
    assert forall i :: n <= i < n + |b| ==> p[i] == b[i - n] != '/';
  }

  lemma ConcatDistinct(a: seq<Difference>, b: seq<Difference>)
    requires DistinctPointers(a) && DistinctPointers(b)
    requires forall i, j :: 0 <= i < |a| && 0 <= j < |b| ==> a[i].pointer != b[j].pointer
    ensures DistinctPointers(a + b)
  {}

  lemma ConcatBelow(pointer: string, a: seq<Difference>, b: seq<Difference>)
    requires AllBelow(pointer, a) && AllBelow(pointer, b)
    ensures AllBelow(pointer, a + b)
  {}

  lemma ChildBelow(pointer: string, token: string, differences: seq<Difference>)
    requires AllBelow(pointer + "/" + token, differences)
    ensures AllBelow(pointer, differences)
    ensures forall i :: 0 <= i < |differences| ==> differences[i].pointer != pointer
  {
    forall i | 0 <= i < |differences|
      ensures Below(pointer, differences[i].pointer) && differences[i].pointer != pointer
    {
      BelowChild(pointer, token, differences[i].pointer);
    }
  }

  lemma EscapeIsInjective(a: string, b: string)
    requires Escape(a) == Escape(b)
    ensures a == b
  {
    EscapeRoundTrip(a);
    EscapeRoundTrip(b);
  }

  /** All differences lie at or below the pointer they were compared at, no two at the same pointer. */
  lemma {:induction false} PointersAreDistinct(left: Json, right: Json, pointer: string)
    ensures AllBelow(pointer, CompareValue(left, right, pointer))
    ensures DistinctPointers(CompareValue(left, right, pointer))
    decreases left, 1, 0
  {
    hide Escape, SortedKeys, Itoa;
    match left
    case Object(fields) =>
      if right.Object? {
        var keys := SortedKeys(fields.Keys + right.fields.Keys);
        SortedIsDistinct(fields.Keys + right.fields.Keys);
        FieldPointersAreDistinct(left, right, keys, pointer);
      }
    case Array(items) =>
      if right.Array? {
        var limit := if |right.items| < |items| then |right.items| else |items|;
        ItemPointersAreDistinct(left, right, limit, pointer);
        var lengths := CompareLengths(|items|, |right.items|, pointer);
        ConcatDistinct(CompareItems(left, right, limit, pointer), lengths);
        ConcatBelow(pointer, CompareItems(left, right, limit, pointer), lengths);
      }
    case _ =>
  }

  ghost predicate InField(pointer: string, key: string, p: string) { Below(pointer + "/" + Escape(key), p) }

  ghost predicate InSomeField(pointer: string, keys: seq<string>, p: string)
  {
    exists key :: key in keys && InField(pointer, key, p)
  }

  lemma FieldDistinct(left: Json, right: Json, key: string, pointer: string)
    requires left.Object? && right.Object?
    ensures DistinctPointers(CompareField(left, right, key, pointer))
    ensures AllBelow(pointer + "/" + Escape(key), CompareField(left, right, key, pointer))
    decreases left, 0, 0
  {
    hide Escape;
    if key in left.fields && key in right.fields {
      PointersAreDistinct(left.fields[key], right.fields[key], pointer + "/" + Escape(key));
    }
  }

  lemma {:induction false} FieldPointersAreDistinct(left: Json, right: Json, keys: seq<string>, pointer: string)
    requires left.Object? && right.Object? && Distinct(keys)
    ensures AllBelow(pointer, CompareFields(left, right, keys, pointer))
    ensures DistinctPointers(CompareFields(left, right, keys, pointer))
    ensures forall i :: 0 <= i < |CompareFields(left, right, keys, pointer)| ==>
              InSomeField(pointer, keys, CompareFields(left, right, keys, pointer)[i].pointer)
    decreases left, 0, |keys|
  {
    hide Escape, Below, DistinctPointers, CompareField, Distinct;
    if keys == [] {
      NothingIsDistinct(pointer);
    } else {
      var first, rest := CompareField(left, right, keys[0], pointer), CompareFields(left, right, keys[1..], pointer);
      FieldDistinct(left, right, keys[0], pointer);
      ChildBelow(pointer, Escape(keys[0]), first);
      TailIsDistinct(keys);
      FieldPointersAreDistinct(left, right, keys[1..], pointer);
      ConcatBelow(pointer, first, rest);
      forall i, j | 0 <= i < |first| && 0 <= j < |rest|
        ensures first[i].pointer != rest[j].pointer
      {
        FieldsAreApart(pointer, keys, first[i].pointer, rest[j].pointer);
      }
      ConcatDistinct(first, rest);
      FieldsCover(pointer, keys, first, rest);
    }
  }

  lemma NothingIsDistinct(pointer: string)
    ensures AllBelow(pointer, []) && DistinctPointers([])
  {}

  lemma TailIsDistinct(keys: seq<string>)
    requires Distinct(keys) && keys != []
    ensures Distinct(keys[1..]) && keys[0] !in keys[1..]
  {}

  lemma FieldsAreApart(pointer: string, keys: seq<string>, p: string, q: string)
    requires keys != [] && keys[0] !in keys[1..]
    requires Below(pointer + "/" + Escape(keys[0]), p) && InSomeField(pointer, keys[1..], q)
    ensures p != q
  {
    hide Escape, Below;
    if p == q {
      var key :| key in keys[1..] && InField(pointer, key, q);
      EscapedHasNoSlash(keys[0]);
      EscapedHasNoSlash(key);
      ChildrenAreApart(pointer, Escape(keys[0]), Escape(key), p);
      EscapeIsInjective(keys[0], key);
    }
  }

  lemma FieldsCover(pointer: string, keys: seq<string>, first: seq<Difference>, rest: seq<Difference>)
    requires keys != [] && AllBelow(pointer + "/" + Escape(keys[0]), first)
    requires forall i :: 0 <= i < |rest| ==> InSomeField(pointer, keys[1..], rest[i].pointer)
    ensures forall i :: 0 <= i < |first + rest| ==> InSomeField(pointer, keys, (first + rest)[i].pointer)
  {
    hide Escape, Below;
    forall i | 0 <= i < |first + rest|
      ensures InSomeField(pointer, keys, (first + rest)[i].pointer)
    {
      if i < |first| {
        assert InField(pointer, keys[0], first[i].pointer);
      } else {
        assert InSomeField(pointer, keys[1..], rest[i - |first|].pointer);
        var key :| key in keys[1..] && InField(pointer, key, rest[i - |first|].pointer);
        assert key in keys;
      }
    }
  }

  ghost predicate InSomeItem(pointer: string, n: nat, p: string)
  {
    exists i: nat :: i < n && Below(pointer + "/" + Itoa(i), p)
  }

  lemma ItemsAreApart(pointer: string, n: nat, p: string, q: string)
    requires InSomeItem(pointer, n, p) && Below(pointer + "/" + Itoa(n), q)
    ensures p != q
  {
    hide Below, Itoa;
    if p == q {
      var i: nat :| i < n && Below(pointer + "/" + Itoa(i), p);
      assert forall c :: c in Itoa(i) || c in Itoa(n) ==> IsDigit(c);
      ChildrenAreApart(pointer, Itoa(i), Itoa(n), p);
      PositionRoundTrip(i);
      PositionRoundTrip(n);
    }
  }

  lemma {:induction false} ItemPointersAreDistinct(left: Json, right: Json, n: nat, pointer: string)
    requires left.Array? && right.Array? && n <= |left.items| && n <= |right.items|
    ensures AllBelow(pointer, CompareItems(left, right, n, pointer))
    ensures DistinctPointers(CompareItems(left, right, n, pointer))
    ensures forall i :: 0 <= i < |CompareItems(left, right, n, pointer)| ==>
              CompareItems(left, right, n, pointer)[i].pointer != pointer
              && InSomeItem(pointer, n, CompareItems(left, right, n, pointer)[i].pointer)
    decreases left, 0, n
  {
    hide Below, Itoa, DistinctPointers, InSomeItem;
    if n == 0 {
      NothingIsDistinct(pointer);
    } else {
      var child := pointer + "/" + Itoa(n - 1);
      var before, last := CompareItems(left, right, n - 1, pointer), CompareValue(left.items[n - 1], right.items[n - 1], child);
      ItemPointersAreDistinct(left, right, n - 1, pointer);
      PointersAreDistinct(left.items[n - 1], right.items[n - 1], child);
      ChildBelow(pointer, Itoa(n - 1), last);
      ConcatBelow(pointer, before, last);
      forall i, j | 0 <= i < |before| && 0 <= j < |last|
        ensures before[i].pointer != last[j].pointer
      {
        ItemsAreApart(pointer, n - 1, before[i].pointer, last[j].pointer);
      }
      ConcatDistinct(before, last);
      ItemsCover(pointer, n, before, last);
    }
  }

  lemma ItemsCover(pointer: string, n: nat, before: seq<Difference>, last: seq<Difference>)
    requires n > 0 && AllBelow(pointer + "/" + Itoa(n - 1), last)
    requires forall i :: 0 <= i < |before| ==> InSomeItem(pointer, n - 1, before[i].pointer)
    ensures forall i :: 0 <= i < |before + last| ==> InSomeItem(pointer, n, (before + last)[i].pointer)
  {
    hide Below, Itoa;
    forall i | 0 <= i < |before + last|
      ensures InSomeItem(pointer, n, (before + last)[i].pointer)
    {
      if i < |before| {
        var k: nat :| k < n - 1 && Below(pointer + "/" + Itoa(k), before[i].pointer);
        assert k < n;
      } else {
        assert Below(pointer + "/" + Itoa(n - 1), last[i - |before|].pointer);
      }
    }
  }
}
