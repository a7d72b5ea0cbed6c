/** Comparing arrays of records as sets, by key, and after stable ordering. */
module Records {
  import opened Cardinality
  import opened Comparison
  import opened Keys
  import opened Pointers
  import opened T = Text

  /** The canonical text of a document, by which records are counted and ordered. */
  type Canon = Json -> string

  ghost predicate Injective(canon: Canon)
  {
    forall a, b :: canon(a) == canon(b) ==> a == b
  }

  datatype Outcome<D> = Compared(differences: seq<D>) | Failed

  /* ---------- sets and multisets ---------- */

  datatype CountDifference = CountDifference(rowKey: string, value: Json, expected: nat, actual: nat)

  function CountOf(canon: Canon, items: seq<Json>, key: string): nat
  {
    if items == [] then 0
    else CountOf(canon, items[..|items| - 1], key) + (if canon(items[|items| - 1]) == key then 1 else 0)
  }

  lemma {:induction false} CountIsMultiplicity(canon: Canon, items: seq<Json>, value: Json)
    requires Injective(canon)
    ensures CountOf(canon, items, canon(value)) == multiset(items)[value]
  {
    if items != [] {
      var init, last := items[..|items| - 1], items[|items| - 1];
      assert items == init + [last];
      CountIsMultiplicity(canon, init, value);
      assert canon(last) == canon(value) ==> last == value;
    }
  }

  lemma {:induction false} CountedKey(canon: Canon, items: seq<Json>, key: string)
    ensures CountOf(canon, items, key) > 0 <==> exists v :: v in items && canon(v) == key
  {
    if items != [] {
      var init, last := items[..|items| - 1], items[|items| - 1];
      assert items == init + [last];
      CountedKey(canon, init, key);
    }
  }

  method Counts(canon: Canon, values: seq<Json>) returns (counts: map<string, nat>, originals: map<string, Json>)
    ensures forall key :: key in counts <==> CountOf(canon, values, key) > 0
    ensures forall key :: key in counts ==> counts[key] == CountOf(canon, values, key)
    ensures originals.Keys == counts.Keys && forall key :: key in originals ==> canon(originals[key]) == key
  {
    counts, originals := map[], map[];
    for i := 0 to |values|
      invariant forall key :: key in counts <==> CountOf(canon, values[..i], key) > 0
      invariant forall key :: key in counts ==> counts[key] == CountOf(canon, values[..i], key)
      invariant originals.Keys == counts.Keys && forall key :: key in originals ==> canon(originals[key]) == key
    {
      var key := canon(values[i]);
      assert values[..i + 1][..i] == values[..i];
      counts := counts[key := (if key in counts then counts[key] else 0) + 1];
      originals := originals[key := values[i]];
    }
    assert values[..|values|] == values;
  }

  /** How often a value counts: once at most when duplicates do not matter. */
  function Weight(count: nat, multi: bool): nat
  {
    if multi || count == 0 then count else 1
  }

  ghost predicate SameMembers(a: seq<Json>, b: seq<Json>, multi: bool)
  {
    forall v :: Weight(multiset(a)[v], multi) == Weight(multiset(b)[v], multi)
  }

  ghost function TextsOf(canon: Canon, items: seq<Json>): set<string> { set v | v in items :: canon(v) }

  ghost function ValueOf(canon: Canon, items: seq<Json>, key: string): (v: Json)
    requires key in TextsOf(canon, items)
    ensures v in items && canon(v) == key
  {
    var v :| v in items && canon(v) == key;
    v
  }

  /** The row of one canonical text, if its weights differ. */
  ghost function RowAt(canon: Canon, a: seq<Json>, b: seq<Json>, multi: bool, key: string): seq<CountDifference>
    requires key in TextsOf(canon, a + b)
  {
    var expected, actual := Weight(CountOf(canon, a, key), multi), Weight(CountOf(canon, b, key), multi);
    if expected != actual then [CountDifference(key, ValueOf(canon, a + b, key), expected, actual)] else []
  }

  ghost function Rows(canon: Canon, a: seq<Json>, b: seq<Json>, multi: bool, keys: seq<string>): seq<CountDifference>
    requires Elements(keys) <= TextsOf(canon, a + b)
  {
    if keys == [] then []
    else
      InitElements(keys);
      Rows(canon, a, b, multi, keys[..|keys| - 1]) + RowAt(canon, a, b, multi, keys[|keys| - 1])
  }

  lemma InitElements(keys: seq<string>)
    requires keys != []
    ensures Elements(keys) == Elements(keys[..|keys| - 1]) + {keys[|keys| - 1]}
  {
    assert keys == keys[..|keys| - 1] + [keys[|keys| - 1]];
  }

  method CompareSet(canon: Canon, left: Json, right: Json, multi: bool) returns (r: Outcome<CountDifference>)
    requires Injective(canon)
    ensures r.Failed? <==> !(left.Array? && right.Array?)
    ensures r.Compared? ==> r.differences == SetDifferences(canon, left.items, right.items, multi)
  {
    if !left.Array? || !right.Array? {
      return Failed;
    }
    hide Injective, CountOf, Weight, SortedKeys, Rows, TextsOf;
    var a, b := left.items, right.items;
    var leftCounts, leftValues := Counts(canon, a);
    var rightCounts, rightValues := Counts(canon, b);
    CountedTexts(canon, a, b, leftCounts.Keys, rightCounts.Keys);
    var ordered := SortKeys(leftCounts.Keys + rightCounts.Keys);
    var differences: seq<CountDifference> := [];
    NoRows(canon, a, b, multi);
    assert ordered[..0] == [];
    for i := 0 to |ordered|
      invariant Elements(ordered[..i]) <= TextsOf(canon, a + b)
      invariant differences == Rows(canon, a, b, multi, ordered[..i])
    {
      var key := ordered[i];
      NextRow(canon, a, b, multi, ordered, i);
      var leftCount := if key in leftCounts then leftCounts[key] else 0;
      var rightCount := if key in rightCounts then rightCounts[key] else 0;
      var value := if key in leftValues && leftValues[key] != Null then leftValues[key]
                   else if key in rightValues then rightValues[key] else Null;
      assert canon(value) == key;
      SameText(canon, value, ValueOf(canon, a + b, key));
      var expected, actual := Weight(leftCount, multi), Weight(rightCount, multi);
      if expected != actual {
        differences := differences + [CountDifference(key, value, expected, actual)];
      }
    }
    assert ordered[..|ordered|] == ordered;
    r := Compared(differences);
  }

  lemma NoRows(canon: Canon, a: seq<Json>, b: seq<Json>, multi: bool)
    ensures Elements([]) <= TextsOf(canon, a + b) && Rows(canon, a, b, multi, []) == []
  {}

  lemma NextRow(canon: Canon, a: seq<Json>, b: seq<Json>, multi: bool, keys: seq<string>, i: nat)
    requires Elements(keys) <= TextsOf(canon, a + b) && i < |keys| && Elements(keys[..i]) <= TextsOf(canon, a + b)
    ensures keys[i] in TextsOf(canon, a + b) && Elements(keys[..i + 1]) <= TextsOf(canon, a + b)
    ensures Rows(canon, a, b, multi, keys[..i + 1]) == Rows(canon, a, b, multi, keys[..i]) + RowAt(canon, a, b, multi, keys[i])
  {
    hide RowAt, TextsOf;
    assert keys[i] in Elements(keys);
    assert keys[..i + 1][..i] == keys[..i];
    InitElements(keys[..i + 1]);
  }

  lemma SameText(canon: Canon, a: Json, b: Json)
    requires Injective(canon) && canon(a) == canon(b)
    ensures a == b
  {}

  lemma CountedTexts(canon: Canon, a: seq<Json>, b: seq<Json>, left: set<string>, right: set<string>)
    requires forall key :: key in left <==> CountOf(canon, a, key) > 0
    requires forall key :: key in right <==> CountOf(canon, b, key) > 0
    ensures left + right == TextsOf(canon, a + b)
  {
    hide CountOf;
    forall key
      ensures key in left + right <==> key in TextsOf(canon, a + b)
    {
      CountedKey(canon, a, key);
      CountedKey(canon, b, key);
    }
  }

  ghost function SetDifferences(canon: Canon, a: seq<Json>, b: seq<Json>, multi: bool): seq<CountDifference>
  {
    Rows(canon, a, b, multi, SortedKeys(TextsOf(canon, a + b)))
  }

  ghost function Members(items: seq<Json>): set<Json> { set v | v in items }

  /** A true statement about a value whose weights differ. */
  ghost predicate Reports(canon: Canon, a: seq<Json>, b: seq<Json>, multi: bool, d: CountDifference)
  {
    && d.rowKey == canon(d.value) && d.expected != d.actual
    && d.expected == Weight(multiset(a)[d.value], multi) && d.actual == Weight(multiset(b)[d.value], multi)
  }

  ghost predicate RowsAscend(differences: seq<CountDifference>)
  {
    forall i, j :: 0 <= i < j < |differences| ==>
      Leq(differences[i].rowKey, differences[j].rowKey) && differences[i].rowKey != differences[j].rowKey
  }

  lemma {:induction false} RowsMean(canon: Canon, a: seq<Json>, b: seq<Json>, multi: bool, keys: seq<string>, d: CountDifference)
    requires Injective(canon) && Elements(keys) <= TextsOf(canon, a + b)
    ensures d in Rows(canon, a, b, multi, keys) <==> d.rowKey in keys && Reports(canon, a, b, multi, d)
  {
    hide Injective, CountOf, RowAt, TextsOf, Reports;
    if keys != [] {
      var init, key := keys[..|keys| - 1], keys[|keys| - 1];
      InitElements(keys);
      assert keys == init + [key];
      RowsMean(canon, a, b, multi, init, d);
      RowMeans(canon, a, b, multi, key);
    }
  }

  lemma {:induction false} RowsAreSorted(canon: Canon, a: seq<Json>, b: seq<Json>, multi: bool, keys: seq<string>)
    requires Injective(canon) && Elements(keys) <= TextsOf(canon, a + b) && Ascending(keys) && Distinct(keys)
    ensures RowsAscend(Rows(canon, a, b, multi, keys))
  {
    hide Injective, CountOf, Leq, TextsOf, Reports;
    if keys != [] {
      var init, key := keys[..|keys| - 1], keys[|keys| - 1];
      InitElements(keys);
      RowsAreSorted(canon, a, b, multi, init);
      var before := Rows(canon, a, b, multi, init);
      forall i | 0 <= i < |before|
        ensures Leq(before[i].rowKey, key) && before[i].rowKey != key
      {
        RowsMean(canon, a, b, multi, init, before[i]);
        var k :| 0 <= k < |init| && init[k] == before[i].rowKey;
        assert keys[k] == init[k];
      }
    }
  }

  lemma RowMeans(canon: Canon, a: seq<Json>, b: seq<Json>, multi: bool, key: string)
    requires Injective(canon) && key in TextsOf(canon, a + b)
    ensures forall d :: d in RowAt(canon, a, b, multi, key) <==> d.rowKey == key && Reports(canon, a, b, multi, d)
  {
    hide Injective, CountOf, Weight;
    var v := ValueOf(canon, a + b, key);
    CountIsMultiplicity(canon, a, v);
    CountIsMultiplicity(canon, b, v);
    forall d: CountDifference | d.rowKey == key && Reports(canon, a, b, multi, d)
      ensures d.value == v
    {
      SameText(canon, d.value, v);
    }
  }

  /** The set comparison reports exactly the values whose weights differ, each once, by canonical text; so it
      reports nothing exactly when the multisets, or the sets, of the two arrays coincide, in whatever order. */
  lemma SetDifferencesMean(canon: Canon, a: seq<Json>, b: seq<Json>, multi: bool)
    requires Injective(canon)
    ensures forall d :: d in SetDifferences(canon, a, b, multi) <==> Reports(canon, a, b, multi, d)
    ensures RowsAscend(SetDifferences(canon, a, b, multi))
    ensures SetDifferences(canon, a, b, multi) == [] <==> SameMembers(a, b, multi)
    ensures multi ==> (SameMembers(a, b, multi) <==> multiset(a) == multiset(b))
    ensures !multi ==> (SameMembers(a, b, multi) <==> Members(a) == Members(b))
  {
    hide Injective, RowsAscend, Rows, CountOf, SortedKeys;
    var texts := TextsOf(canon, a + b);
    var keys := SortedKeys(texts);
    SortedIsDistinct(texts);
    SortedIsAscending(texts);
    RowsAreSorted(canon, a, b, multi, keys);
    var differences := SetDifferences(canon, a, b, multi);
    forall d: CountDifference
      ensures d in differences <==> Reports(canon, a, b, multi, d)
    {
      RowsMean(canon, a, b, multi, keys, d);
      ReportedText(canon, a, b, multi, keys, d);
    }
    WeightsMean(canon, a, b, multi, differences);
  }

  lemma ReportedText(canon: Canon, a: seq<Json>, b: seq<Json>, multi: bool, keys: seq<string>, d: CountDifference)
    requires Elements(keys) == TextsOf(canon, a + b)
    ensures Reports(canon, a, b, multi, d) ==> d.rowKey in keys
  {
    if Reports(canon, a, b, multi, d) {
      assert d.value in multiset(a) || d.value in multiset(b);
      assert d.value in a + b;
      assert d.rowKey in TextsOf(canon, a + b);
      assert d.rowKey in Elements(keys);
    }
  }

  lemma WeightsMean(canon: Canon, a: seq<Json>, b: seq<Json>, multi: bool, differences: seq<CountDifference>)
    requires forall d :: d in differences <==> Reports(canon, a, b, multi, d)
    ensures differences == [] <==> SameMembers(a, b, multi)
    ensures multi ==> (SameMembers(a, b, multi) <==> multiset(a) == multiset(b))
    ensures !multi ==> (SameMembers(a, b, multi) <==> Members(a) == Members(b))
  {
    assert differences == [] || differences[0] in differences;
    if v :| Weight(multiset(a)[v], multi) != Weight(multiset(b)[v], multi) {
      var d := CountDifference(canon(v), v, Weight(multiset(a)[v], multi), Weight(multiset(b)[v], multi));
      assert Reports(canon, a, b, multi, d);
      assert d in differences;
    }
    forall v
      ensures v in a <==> multiset(a)[v] > 0
      ensures v in b <==> multiset(b)[v] > 0
    {
      assert v in a <==> v in multiset(a);
      assert v in b <==> v in multiset(b);
    }
    if !multi && Members(a) == Members(b) {
      forall v
        ensures Weight(multiset(a)[v], multi) == Weight(multiset(b)[v], multi)
      {
        assert v in Members(a) <==> v in Members(b);
      }
    }
    if !multi && SameMembers(a, b, multi) {
      forall v
        ensures v in a <==> v in b
      {
        assert Weight(multiset(a)[v], multi) == Weight(multiset(b)[v], multi);
      }
    }
    if multi && SameMembers(a, b, multi) {
      forall v
        ensures multiset(a)[v] == multiset(b)[v]
      {
        assert Weight(multiset(a)[v], multi) == Weight(multiset(b)[v], multi);
      }
    }
  }
}
