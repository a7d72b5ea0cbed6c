/** What an ordered comparison reports: exactly the places where the documents differ. */
module ReportedDifferences {
  import opened Comparison
  import opened ComparisonPointers
  import opened Keys
  import opened Pointers
  import opened T = Text

  /** The path goes through an object on both sides or an array on both sides at every step; positions are spelled as they
      are reported. */
  predicate Common(left: Json, right: Json, tokens: seq<string>)
    decreases |tokens|
  {
    tokens == [] ||
    match left
    case Object(fields) =>
      right.Object? && tokens[0] in fields && tokens[0] in right.fields
      && Common(fields[tokens[0]], right.fields[tokens[0]], tokens[1..])
    case Array(items) =>
      right.Array? && Atoi(tokens[0]).Some? &&
      var n := Atoi(tokens[0]).value;
      0 <= n < |items| && n < |right.items| && tokens[0] == Itoa(n) && Common(items[n], right.items[n], tokens[1..])
    case _ => false
  }

  ghost predicate FieldMissing(left: Json, right: Json, pointer: string, key: string, d: Difference)
    requires left.Object? && right.Object?
  {
    && (key in left.fields <==> key !in right.fields)
    && d.pointer == pointer + "/" + Escape(key)
    && d.expected == Of(if key in left.fields then left.fields[key] else Null)
    && d.actual == Of(if key in right.fields then right.fields[key] else Null)
  }

  /** How two values differ by themselves: in kind or as scalars, in length, or in a field that only one of them has. */
  ghost predicate DifferBy(left: Json, right: Json, pointer: string, d: Difference)
  {
    match d.message
    case ValuesDiffer =>
      && left != right && !(left.Object? && right.Object?) && !(left.Array? && right.Array?)
      && d.pointer == pointer && d.expected == Of(left) && d.actual == Of(right)
    case LengthDiffers =>
      && left.Array? && right.Array? && |left.items| != |right.items|
      && d.pointer == pointer && d.expected == Count(|left.items|) && d.actual == Count(|right.items|)
    case PresenceDiffers => left.Object? && right.Object? && exists key :: FieldMissing(left, right, pointer, key, d)
  }

  ghost predicate DifferAt(left: Json, right: Json, pointer: string, tokens: seq<string>, d: Difference)
  {
    && Common(left, right, tokens) && Walk(left, tokens).Found? && Walk(right, tokens).Found?
    && DifferBy(Walk(left, tokens).value, Walk(right, tokens).value, pointer + Render(tokens), d)
  }

  /* ---------- what the loops collect ---------- */

  lemma {:induction false} FieldsCollect(left: Json, right: Json, keys: seq<string>, pointer: string, d: Difference)
    requires left.Object? && right.Object?
    ensures d in CompareFields(left, right, keys, pointer) <==>
            exists key :: key in keys && d in CompareField(left, right, key, pointer)
  {
    hide CompareField;
    if keys != [] {
      FieldsCollect(left, right, keys[1..], pointer, d);
      if d in CompareFields(left, right, keys[1..], pointer) {
        var key :| key in keys[1..] && d in CompareField(left, right, key, pointer);
        assert key in keys;
      }
      if key :| key in keys && d in CompareField(left, right, key, pointer) {
        assert key == keys[0] || key in keys[1..];
      }
    }
  }

  lemma {:induction false} ItemsCollect(left: Json, right: Json, n: nat, pointer: string, d: Difference)
    requires left.Array? && right.Array? && n <= |left.items| && n <= |right.items|
    ensures d in CompareItems(left, right, n, pointer) <==> exists i: nat :: i < n && InItem(left, right, i, pointer, d)
  {
    hide CompareValue, Itoa;
    if n > 0 {
      ItemsCollect(left, right, n - 1, pointer, d);
      assert InItem(left, right, n - 1, pointer, d) <==>
             d in CompareValue(left.items[n - 1], right.items[n - 1], pointer + "/" + Itoa(n - 1));
    }
  }

  ghost predicate InItem(left: Json, right: Json, i: nat, pointer: string, d: Difference)
    requires left.Array? && right.Array?
  {
    i < |left.items| && i < |right.items| && d in CompareValue(left.items[i], right.items[i], pointer + "/" + Itoa(i))
  }

  /* ---------- one step of a path ---------- */

  lemma NoStep(left: Json, right: Json, pointer: string, d: Difference)
    ensures DifferAt(left, right, pointer, [], d) <==> DifferBy(left, right, pointer, d)
  {
    RenderNothing();
    assert pointer + "" == pointer;
  }

  lemma FieldStep(left: Json, right: Json, pointer: string, key: string, rest: seq<string>, d: Difference)
    requires left.Object? && right.Object? && key in left.fields && key in right.fields
    ensures DifferAt(left, right, pointer, [key] + rest, d) <==>
            DifferAt(left.fields[key], right.fields[key], pointer + "/" + Escape(key), rest, d)
  {
    hide DifferBy, Escape, Render;
    RenderFirst(pointer, key, rest);
    WalkFirst(left, key, rest);
    WalkFirst(right, key, rest);
    assert ([key] + rest)[1..] == rest;
  }

  lemma ItemStep(left: Json, right: Json, pointer: string, i: nat, rest: seq<string>, d: Difference)
    requires left.Array? && right.Array? && i < |left.items| && i < |right.items|
    ensures DifferAt(left, right, pointer, [Itoa(i)] + rest, d) <==>
            DifferAt(left.items[i], right.items[i], pointer + "/" + Itoa(i), rest, d)
  {
    hide DifferBy, Escape, Render, Itoa, Atoi, Walk;
    ItoaNeedsNoEscape(Itoa(i));
    RenderFirst(pointer, Itoa(i), rest);
    WalkPosition(left, i, rest);
    WalkPosition(right, i, rest);
    PositionRoundTrip(i);
    assert ([Itoa(i)] + rest)[1..] == rest;
  }

  lemma CommonFirst(left: Json, right: Json, tokens: seq<string>)
    requires tokens != [] && Common(left, right, tokens)
    ensures tokens == [tokens[0]] + tokens[1..]
    ensures left.Object? && right.Object? ==> tokens[0] in left.fields && tokens[0] in right.fields
    ensures left.Array? && right.Array? ==>
              exists i: nat :: i < |left.items| && i < |right.items| && tokens[0] == Itoa(i)
    ensures (left.Object? && right.Object?) || (left.Array? && right.Array?)
  {}

  /* ---------- nothing is left out ---------- */

  lemma HereIsReported(left: Json, right: Json, pointer: string, d: Difference)
    requires DifferBy(left, right, pointer, d)
    ensures d in CompareValue(left, right, pointer)
  {
    hide Escape, SortedKeys, CompareItems;
    if d.message.PresenceDiffers? {
      var key :| FieldMissing(left, right, pointer, key, d);
      var keys := SortedKeys(left.fields.Keys + right.fields.Keys);
      assert key in Elements(keys);
      assert d in CompareField(left, right, key, pointer);
      FieldsCollect(left, right, keys, pointer, d);
    }
  }

  lemma {:induction false} IsReported(left: Json, right: Json, pointer: string, tokens: seq<string>, d: Difference)
    requires DifferAt(left, right, pointer, tokens, d)
    ensures d in CompareValue(left, right, pointer)
    decreases |tokens|
  {
    hide DifferBy, Escape, Itoa, SortedKeys, CompareFields, CompareItems, Common, Walk, Render;
    if tokens == [] {
      NoStep(left, right, pointer, d);
      HereIsReported(left, right, pointer, d);
    } else {
      CommonFirst(left, right, tokens);
      var rest := tokens[1..];
      if left.Object? {
        var key := tokens[0];
        FieldStep(left, right, pointer, key, rest, d);
        IsReported(left.fields[key], right.fields[key], pointer + "/" + Escape(key), rest, d);
        var keys := SortedKeys(left.fields.Keys + right.fields.Keys);
        assert key in Elements(keys);
        FieldsCollect(left, right, keys, pointer, d);
      } else {
        var i: nat :| i < |left.items| && i < |right.items| && tokens[0] == Itoa(i);
        ItemStep(left, right, pointer, i, rest, d);
        IsReported(left.items[i], right.items[i], pointer + "/" + Itoa(i), rest, d);
        assert InItem(left, right, i, pointer, d);
        ItemsCollect(left, right, if |right.items| < |left.items| then |right.items| else |left.items|, pointer, d);
      }
    }
  }

  /* ---------- and nothing else is reported ---------- */

  lemma {:induction false} ReportedDiffers(left: Json, right: Json, pointer: string, d: Difference) returns (tokens: seq<string>)
    requires d in CompareValue(left, right, pointer)
    ensures DifferAt(left, right, pointer, tokens, d)
    decreases left
  {
    hide DifferAt, Escape, Itoa, SortedKeys, CompareFields, CompareItems;
    tokens := [];
    if left.Object? && right.Object? {
      var keys := SortedKeys(left.fields.Keys + right.fields.Keys);
      FieldsCollect(left, right, keys, pointer, d);
      var key :| key in keys && d in CompareField(left, right, key, pointer);
      assert key in Elements(keys);
      if key in left.fields && key in right.fields {
        var rest := ReportedDiffers(left.fields[key], right.fields[key], pointer + "/" + Escape(key), d);
        FieldStep(left, right, pointer, key, rest, d);
        return [key] + rest;
      }
      assert FieldMissing(left, right, pointer, key, d);
    } else if left.Array? && right.Array? {
      var limit := if |right.items| < |left.items| then |right.items| else |left.items|;
      ItemsCollect(left, right, limit, pointer, d);
      if d in CompareItems(left, right, limit, pointer) {
        var i: nat :| i < limit && InItem(left, right, i, pointer, d);
        var rest := ReportedDiffers(left.items[i], right.items[i], pointer + "/" + Itoa(i), d);
        ItemStep(left, right, pointer, i, rest, d);
        return [Itoa(i)] + rest;
      }
    }
    NoStep(left, right, pointer, d);
  }

  /** The report has exactly the differences of the values at the ends of common paths: every differing scalar or kind with
      both values, every pair of lengths, and every field that only one side has. */
  lemma ReportIsExact(left: Json, right: Json, pointer: string, d: Difference)
    ensures d in CompareValue(left, right, pointer) <==> exists tokens :: DifferAt(left, right, pointer, tokens, d)
  {
    hide CompareValue, DifferAt;
    if d in CompareValue(left, right, pointer) {
      var tokens := ReportedDiffers(left, right, pointer, d);
    }
    if tokens :| DifferAt(left, right, pointer, tokens, d) {
      IsReported(left, right, pointer, tokens, d);
    }
  }
}
