/** The ordered comparison of two documents. */
module Comparison {
  import opened Keys
  import opened Pointers
  import opened T = Text

  datatype Message = ValuesDiffer | PresenceDiffers | LengthDiffers

  /** What a difference shows of one side: a value, null when there is none, or a length. */
  datatype Shown = Of(json: Json) | Count(length: nat)

  datatype Difference = Difference(pointer: string, expected: Shown, actual: Shown, message: Message)

  function Mismatch(pointer: string, left: Json, right: Json): seq<Difference>
  {
    [Difference(pointer, Of(left), Of(right), ValuesDiffer)]
  }

  function FieldOrNull(fields: map<string, Json>, key: string): Json
  {
    if key in fields then fields[key] else Null
  }

  function CompareValue(left: Json, right: Json, pointer: string): seq<Difference>
    decreases left, 1, 0
  {
    match left
    case Object(fields) =>
      if !right.Object? then Mismatch(pointer, left, right)
      else CompareFields(left, right, SortedKeys(fields.Keys + right.fields.Keys), pointer)
    case Array(items) =>
      if !right.Array? then Mismatch(pointer, left, right)
      else
        var limit := if |right.items| < |items| then |right.items| else |items|;
        CompareItems(left, right, limit, pointer)
        + CompareLengths(|items|, |right.items|, pointer)
    case _ => if left == right then [] else Mismatch(pointer, left, right)
  }

  function CompareLengths(left: nat, right: nat, pointer: string): seq<Difference>
  {
    if left != right then [Difference(pointer, Count(left), Count(right), LengthDiffers)] else []
  }

  function CompareFields(left: Json, right: Json, keys: seq<string>, pointer: string): seq<Difference>
    requires left.Object? && right.Object?
    decreases left, 0, |keys|
  {
    if keys == [] then []
    else CompareField(left, right, keys[0], pointer) + CompareFields(left, right, keys[1..], pointer)
  }

  function CompareField(left: Json, right: Json, key: string, pointer: string): seq<Difference>
    requires left.Object? && right.Object?
    decreases left, 0, 0
  {
    var child := pointer + "/" + Escape(key);
    if key in left.fields && key in right.fields then CompareValue(left.fields[key], right.fields[key], child)
    else [Difference(child, Of(FieldOrNull(left.fields, key)), Of(FieldOrNull(right.fields, key)), PresenceDiffers)]
  }

  function CompareItems(left: Json, right: Json, n: nat, pointer: string): seq<Difference>
    requires left.Array? && right.Array? && n <= |left.items| && n <= |right.items|
    decreases left, 0, n
  {
    if n == 0 then []
    else
      CompareItems(left, right, n - 1, pointer)
      + CompareValue(left.items[n - 1], right.items[n - 1], pointer + "/" + Itoa(n - 1))
  }

  /* ---------- no differences means equal ---------- */

  /** Two documents compare without differences exactly when they are equal. */
  lemma {:induction false} NoDifferencesIffEqual(left: Json, right: Json, pointer: string)
    ensures CompareValue(left, right, pointer) == [] <==> left == right
    decreases left, 1, 0
  {
    hide Escape, SortedKeys;
    match left
    case Object(fields) =>
      if right.Object? {
        var keys := SortedKeys(fields.Keys + right.fields.Keys);
        NoFieldDifferences(left, right, keys, pointer);
        FieldsEqual(left, right, keys);
      }
    case Array(items) =>
      if right.Array? && |items| == |right.items| {
        NoItemDifferences(left, right, |items|, pointer);
        assert left == right <==> items == right.items;
      }
    case _ =>
  }

  ghost predicate SameField(left: Json, right: Json, key: string)
    requires left.Object? && right.Object?
  {
    key in left.fields && key in right.fields && left.fields[key] == right.fields[key]
  }

  lemma {:induction false} NoFieldDifferences(left: Json, right: Json, keys: seq<string>, pointer: string)
    requires left.Object? && right.Object?
    ensures CompareFields(left, right, keys, pointer) == [] <==> forall key :: key in keys ==> SameField(left, right, key)
    decreases left, 0, |keys|
  {
    hide Escape;
    if keys != [] {
      var key := keys[0];
      assert keys == [key] + keys[1..];
      NoFieldDifferences(left, right, keys[1..], pointer);
      if key in left.fields && key in right.fields {
        NoDifferencesIffEqual(left.fields[key], right.fields[key], pointer + "/" + Escape(key));
      }
      assert CompareField(left, right, key, pointer) == [] <==> SameField(left, right, key);
    }
  }

  lemma FieldsEqual(left: Json, right: Json, keys: seq<string>)
    requires left.Object? && right.Object? && Elements(keys) == left.fields.Keys + right.fields.Keys
    ensures (forall key :: key in keys ==> SameField(left, right, key)) <==> left == right
  {
    forall key | key in keys
      ensures key in left.fields || key in right.fields
    {
      assert key in Elements(keys);
    }
    if forall key :: key in keys ==> SameField(left, right, key) {
      forall key | key in left.fields || key in right.fields
        ensures SameField(left, right, key)
      {
        assert key in Elements(keys);
      }
      assert left.fields == right.fields;
    }
  }

  lemma {:induction false} NoItemDifferences(left: Json, right: Json, n: nat, pointer: string)
    requires left.Array? && right.Array? && n <= |left.items| && n <= |right.items|
    ensures CompareItems(left, right, n, pointer) == [] <==> left.items[..n] == right.items[..n]
    decreases left, 0, n
  {
    hide Itoa;
    if n > 0 {
      NoItemDifferences(left, right, n - 1, pointer);
      NoDifferencesIffEqual(left.items[n - 1], right.items[n - 1], pointer + "/" + Itoa(n - 1));
      assert left.items[..n] == left.items[..n - 1] + [left.items[n - 1]];
      assert right.items[..n] == right.items[..n - 1] + [right.items[n - 1]];
    }
  }

  /* ---------- swapping ---------- */

  function Swapped(differences: seq<Difference>): seq<Difference>
  {
    if differences == [] then []
    else
      var d := differences[0];
      [Difference(d.pointer, d.actual, d.expected, d.message)] + Swapped(differences[1..])
  }

  lemma {:induction false} SwappedConcat(a: seq<Difference>, b: seq<Difference>)
    ensures Swapped(a + b) == Swapped(a) + Swapped(b)
  {
    if a == [] {
      assert a + b == b;
    } else {
      SwappedConcat(a[1..], b);
      assert (a + b)[1..] == a[1..] + b;
    }
  }

  lemma SwapLengths(left: nat, right: nat, pointer: string)
    ensures CompareLengths(right, left, pointer) == Swapped(CompareLengths(left, right, pointer))
  {}

  /** Swapping the documents swaps the two sides of every difference and nothing else. */
  lemma {:induction false} SwapSwapsSides(left: Json, right: Json, pointer: string)
    ensures CompareValue(right, left, pointer) == Swapped(CompareValue(left, right, pointer))
    decreases left, 1, 0
  {
    hide Escape, SortedKeys, Itoa;
    match left
    case Object(fields) =>
      if right.Object? {
        assert fields.Keys + right.fields.Keys == right.fields.Keys + fields.Keys;
        SwapFields(left, right, SortedKeys(fields.Keys + right.fields.Keys), pointer);
      }
    case Array(items) =>
      if right.Array? {
        var limit := if |right.items| < |items| then |right.items| else |items|;
        SwapItems(left, right, limit, pointer);
        SwapLengths(|items|, |right.items|, pointer);
        SwappedConcat(CompareItems(left, right, limit, pointer), CompareLengths(|items|, |right.items|, pointer));
      }
    case _ =>
  }

  lemma {:induction false} SwapFields(left: Json, right: Json, keys: seq<string>, pointer: string)
    requires left.Object? && right.Object?
    ensures CompareFields(right, left, keys, pointer) == Swapped(CompareFields(left, right, keys, pointer))
    decreases left, 0, |keys|
  {
    hide Escape;
    if keys != [] {
      var key := keys[0];
      SwapFields(left, right, keys[1..], pointer);
      if key in left.fields && key in right.fields {
        SwapSwapsSides(left.fields[key], right.fields[key], pointer + "/" + Escape(key));
      }
      SwappedConcat(CompareField(left, right, key, pointer), CompareFields(left, right, keys[1..], pointer));
    }
  }

  lemma {:induction false} SwapItems(left: Json, right: Json, n: nat, pointer: string)
    requires left.Array? && right.Array? && n <= |left.items| && n <= |right.items|
    ensures CompareItems(right, left, n, pointer) == Swapped(CompareItems(left, right, n, pointer))
    decreases left, 0, n
  {
    hide Itoa;
    if n > 0 {
      var child := pointer + "/" + Itoa(n - 1);
      SwapItems(left, right, n - 1, pointer);
      SwapSwapsSides(left.items[n - 1], right.items[n - 1], child);
      SwappedConcat(CompareItems(left, right, n - 1, pointer), CompareValue(left.items[n - 1], right.items[n - 1], child));
    }
  }
}
