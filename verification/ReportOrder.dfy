/** The order of an ordered comparison's report: fields by name, items by position, and an array's length after its items. */
module ReportOrder {
  import opened Cardinality
  import opened Comparison
  import opened ComparisonPointers
  import opened Keys
  import opened Pointers
  import opened ReportedDifferences
  import opened T = Text

  /** The first path is reported before the second one. */
  predicate Precedes(left: Json, p: seq<string>, q: seq<string>)
    decreases |p|
  {
    p != [] &&
    if q == [] then true
    else
      match left
      case Object(fields) =>
        if p[0] == q[0] then p[0] in fields && Precedes(fields[p[0]], p[1..], q[1..]) else Leq(p[0], q[0])
      case Array(items) =>
        Atoi(p[0]).Some? && Atoi(q[0]).Some? &&
        var i, j := Atoi(p[0]).value, Atoi(q[0]).value;
        if i == j then 0 <= i < |items| && Precedes(items[i], p[1..], q[1..]) else i < j
      case _ => false
  }

  ghost predicate Follows(left: Json, pointer: string, d: Difference, e: Difference)
  {
    exists p, q :: PathTo(pointer, d, p) && PathTo(pointer, e, q) && Precedes(left, p, q)
  }

  predicate PathTo(pointer: string, d: Difference, path: seq<string>) { d.pointer == pointer + Render(path) }

  ghost predicate InOrder(left: Json, pointer: string, report: seq<Difference>)
  {
    forall i, j :: 0 <= i < j < |report| ==> Follows(left, pointer, report[i], report[j])
  }

  /* ---------- paths of reported differences ---------- */

  lemma {:induction false} RenderLast(tokens: seq<string>, key: string)
    ensures Render(tokens + [key]) == Render(tokens) + "/" + Escape(key)
  {
    hide Escape;
    if tokens == [] {
      assert [] + [key] == [key] && [key][1..] == [];
    } else {
      RenderLast(tokens[1..], key);
      assert (tokens + [key])[1..] == tokens[1..] + [key];
    }
  }

  lemma HasPath(left: Json, right: Json, pointer: string, d: Difference) returns (path: seq<string>)
    requires d in CompareValue(left, right, pointer)
    ensures PathTo(pointer, d, path)
  {
    hide CompareValue, Escape, Common, Walk;
    path := ReportedDiffers(left, right, pointer, d);
    if d.message.PresenceDiffers? {
      var key :| FieldMissing(Walk(left, path).value, Walk(right, path).value, pointer + Render(path), key, d);
      RenderLast(path, key);
      path := path + [key];
    }
  }

  lemma FieldPath(left: Json, right: Json, key: string, pointer: string, d: Difference) returns (rest: seq<string>)
    requires left.Object? && right.Object? && d in CompareField(left, right, key, pointer)
    ensures PathTo(pointer, d, [key] + rest)
  {
    hide Escape, CompareValue, Render;
    rest := [];
    if key in left.fields && key in right.fields {
      rest := HasPath(left.fields[key], right.fields[key], pointer + "/" + Escape(key), d);
    }
    RenderFirst(pointer, key, rest);
    RenderNothing();
  }

  /* ---------- concatenated reports ---------- */

  lemma ConcatInOrder(left: Json, pointer: string, a: seq<Difference>, b: seq<Difference>)
    requires InOrder(left, pointer, a) && InOrder(left, pointer, b)
    requires forall i, j :: 0 <= i < |a| && 0 <= j < |b| ==> Follows(left, pointer, a[i], b[j])
    ensures InOrder(left, pointer, a + b)
  {
    hide Follows;
  }

  lemma FieldInOrder(left: Json, right: Json, key: string, pointer: string)
    requires left.Object? && right.Object?
    ensures InOrder(left, pointer, CompareField(left, right, key, pointer))
    decreases left, 0, 0
  {
    if key in left.fields && key in right.fields {
      var child, report := pointer + "/" + Escape(key), CompareField(left, right, key, pointer);
      ReportInOrder(left.fields[key], right.fields[key], child);
      hide CompareField, Escape, Render;
      forall i, j | 0 <= i < j < |report|
        ensures Follows(left, pointer, report[i], report[j])
      {
        assert Follows(left.fields[key], child, report[i], report[j]);
        var p, q :| PathTo(child, report[i], p) && PathTo(child, report[j], q) && Precedes(left.fields[key], p, q);
        RenderFirst(pointer, key, p);
        RenderFirst(pointer, key, q);
        assert ([key] + p)[1..] == p && ([key] + q)[1..] == q;
        assert Precedes(left, [key] + p, [key] + q);
      }
    }
  }

  lemma {:induction false} FieldsInOrder(left: Json, right: Json, keys: seq<string>, pointer: string)
    requires left.Object? && right.Object?
    requires forall i, j :: 0 <= i < j < |keys| ==> keys[i] != keys[j] && Leq(keys[i], keys[j])
    ensures InOrder(left, pointer, CompareFields(left, right, keys, pointer))
    decreases left, 0, |keys|
  {
    hide Leq, CompareField, Follows;
    if keys != [] {
      var first, rest := CompareField(left, right, keys[0], pointer), CompareFields(left, right, keys[1..], pointer);
      FieldInOrder(left, right, keys[0], pointer);
      FieldsInOrder(left, right, keys[1..], pointer);
      forall i, j | 0 <= i < |first| && 0 <= j < |rest|
        ensures Follows(left, pointer, first[i], rest[j])
      {
        FieldsCollect(left, right, keys[1..], pointer, rest[j]);
        var key :| key in keys[1..] && rest[j] in CompareField(left, right, key, pointer);
        var n :| 0 <= n < |keys[1..]| && keys[1..][n] == key;
        assert keys[0] != keys[n + 1] && Leq(keys[0], keys[n + 1]);
        FieldsFollow(left, right, keys[0], key, pointer, first[i], rest[j]);
      }
      ConcatInOrder(left, pointer, first, rest);
    }
  }

  lemma FieldsFollow(left: Json, right: Json, a: string, b: string, pointer: string, d: Difference, e: Difference)
    requires left.Object? && right.Object? && a != b && Leq(a, b)
    requires d in CompareField(left, right, a, pointer) && e in CompareField(left, right, b, pointer)
    ensures Follows(left, pointer, d, e)
  {
    hide CompareField, Render, Leq;
    var p := FieldPath(left, right, a, pointer, d);
    var q := FieldPath(left, right, b, pointer, e);
    assert Precedes(left, [a] + p, [b] + q);
  }

  lemma ItemPath(left: Json, right: Json, i: nat, pointer: string, d: Difference) returns (rest: seq<string>)
    requires left.Array? && right.Array? && InItem(left, right, i, pointer, d)
    ensures PathTo(pointer, d, [Itoa(i)] + rest)
  {
    hide Escape, CompareValue, Render, Itoa;
    rest := HasPath(left.items[i], right.items[i], pointer + "/" + Itoa(i), d);
    ItoaNeedsNoEscape(Itoa(i));
    RenderFirst(pointer, Itoa(i), rest);
  }

  lemma ItemInOrder(left: Json, right: Json, n: nat, pointer: string)
    requires left.Array? && right.Array? && n < |left.items| && n < |right.items|
    ensures InOrder(left, pointer, CompareValue(left.items[n], right.items[n], pointer + "/" + Itoa(n)))
    decreases left, 0, 0
  {
    var child := pointer + "/" + Itoa(n);
    var report := CompareValue(left.items[n], right.items[n], child);
    ReportInOrder(left.items[n], right.items[n], child);
    hide CompareValue, Escape, Render, Itoa, Atoi;
    ItoaNeedsNoEscape(Itoa(n));
    PositionRoundTrip(n);
    forall i, j | 0 <= i < j < |report|
      ensures Follows(left, pointer, report[i], report[j])
    {
      assert Follows(left.items[n], child, report[i], report[j]);
      var p, q :| PathTo(child, report[i], p) && PathTo(child, report[j], q) && Precedes(left.items[n], p, q);
      RenderFirst(pointer, Itoa(n), p);
      RenderFirst(pointer, Itoa(n), q);
      assert ([Itoa(n)] + p)[1..] == p && ([Itoa(n)] + q)[1..] == q;
      assert Precedes(left, [Itoa(n)] + p, [Itoa(n)] + q);
    }
  }

  lemma ItemsFollow(left: Json, right: Json, a: nat, b: nat, pointer: string, d: Difference, e: Difference)
    requires left.Array? && right.Array? && a < b && InItem(left, right, a, pointer, d) && InItem(left, right, b, pointer, e)
    ensures Follows(left, pointer, d, e)
  {
    hide InItem, Render, Itoa, Atoi;
    var p := ItemPath(left, right, a, pointer, d);
    var q := ItemPath(left, right, b, pointer, e);
    PositionRoundTrip(a);
    PositionRoundTrip(b);
    assert Precedes(left, [Itoa(a)] + p, [Itoa(b)] + q);
  }

  lemma {:induction false} ItemsInOrder(left: Json, right: Json, n: nat, pointer: string)
    requires left.Array? && right.Array? && n <= |left.items| && n <= |right.items|
    ensures InOrder(left, pointer, CompareItems(left, right, n, pointer))
    decreases left, 0, n
  {
    hide Itoa, Follows;
    if n > 0 {
      var child := pointer + "/" + Itoa(n - 1);
      var before, last := CompareItems(left, right, n - 1, pointer), CompareValue(left.items[n - 1], right.items[n - 1], child);
      ItemsInOrder(left, right, n - 1, pointer);
      ItemInOrder(left, right, n - 1, pointer);
      hide CompareValue;
      forall i, j | 0 <= i < |before| && 0 <= j < |last|
        ensures Follows(left, pointer, before[i], last[j])
      {
        ItemsCollect(left, right, n - 1, pointer, before[i]);
        var a: nat :| a < n - 1 && InItem(left, right, a, pointer, before[i]);
        ItemsFollow(left, right, a, n - 1, pointer, before[i], last[j]);
      }
      ConcatInOrder(left, pointer, before, last);
    }
  }

  lemma LengthsFollow(left: Json, right: Json, n: nat, pointer: string, d: Difference, e: Difference)
    requires left.Array? && right.Array? && n <= |left.items| && n <= |right.items|
    requires d in CompareItems(left, right, n, pointer) && e.pointer == pointer
    ensures Follows(left, pointer, d, e)
  {
    hide CompareItems, InItem, Render, Itoa;
    ItemsCollect(left, right, n, pointer, d);
    var a: nat :| a < n && InItem(left, right, a, pointer, d);
    var p := ItemPath(left, right, a, pointer, d);
    RenderNothing();
    assert PathTo(pointer, e, []);
    assert Precedes(left, [Itoa(a)] + p, []);
  }

  /** Every difference is reported before those that come after it in the document: fields by name, items by position, and
      the length of an array after its items. */
  lemma {:induction false} ReportInOrder(left: Json, right: Json, pointer: string)
    ensures InOrder(left, pointer, CompareValue(left, right, pointer))
    decreases left, 1, 0
  {
    hide SortedKeys, Follows, CompareFields, CompareItems, Leq;
    match left
    case Object(fields) =>
      if right.Object? {
        var names := fields.Keys + right.fields.Keys;
        SortedIsDistinct(names);
        SortedIsAscending(names);
        FieldsInOrder(left, right, SortedKeys(names), pointer);
      }
    case Array(items) =>
      if right.Array? {
        var limit := if |right.items| < |items| then |right.items| else |items|;
        var before, lengths := CompareItems(left, right, limit, pointer), CompareLengths(|items|, |right.items|, pointer);
        ItemsInOrder(left, right, limit, pointer);
        forall i, j | 0 <= i < |before| && 0 <= j < |lengths|
          ensures Follows(left, pointer, before[i], lengths[j])
        {
          LengthsFollow(left, right, limit, pointer, before[i], lengths[j]);
        }
        ConcatInOrder(left, pointer, before, lengths);
      }
    case _ =>
  }
}
