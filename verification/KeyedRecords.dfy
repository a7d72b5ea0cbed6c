/** Records indexed by a key: keyed comparison and stable ordering. */
module KeyedRecords {
  import opened Cardinality
  import opened Comparison
  import opened Keys
  import opened Options
  import opened Pointers
  import opened Records
  import opened T = Text

  /** The text a record is indexed by, if it has one. */
  type KeyOf = Json -> Option<string>

  ghost predicate Keyed(keyOf: KeyOf, items: seq<Json>)
  {
    && (forall i :: 0 <= i < |items| ==> keyOf(items[i]).Some?)
    && forall i, j :: 0 <= i < j < |items| ==> keyOf(items[i]) != keyOf(items[j])
  }

  function IndexBy(keyOf: KeyOf, items: seq<Json>): map<string, Json>
  {
    if items == [] then map[]
    else
      var last, before := items[|items| - 1], IndexBy(keyOf, items[..|items| - 1]);
      if keyOf(last).Some? then before[keyOf(last).value := last] else before
  }

  ghost predicate Holds(m: map<string, Json>, key: string, v: Json)
  {
    key in m && m[key] == v
  }

  /** The index of keyed records holds exactly the records under their keys. */
  lemma {:induction false} IndexHolds(keyOf: KeyOf, items: seq<Json>)
    requires Keyed(keyOf, items)
    ensures forall key, v :: Holds(IndexBy(keyOf, items), key, v) <==> v in items && keyOf(v) == Some(key)
  {
    if items != [] {
      var init, last := items[..|items| - 1], items[|items| - 1];
      assert items == init + [last];
      IndexHolds(keyOf, init);
    }
  }

  lemma KeyedIsDistinct(keyOf: KeyOf, items: seq<Json>)
    requires Keyed(keyOf, items)
    ensures Distinct(items)
  {}

  lemma SameIndex(keyOf: KeyOf, a: seq<Json>, b: seq<Json>)
    requires Keyed(keyOf, a) && Keyed(keyOf, b)
    ensures IndexBy(keyOf, a) == IndexBy(keyOf, b) <==> multiset(a) == multiset(b)
  {
    hide IndexBy, Distinct;
    IndexHolds(keyOf, a);
    IndexHolds(keyOf, b);
    KeyedIsDistinct(keyOf, a);
    KeyedIsDistinct(keyOf, b);
    if multiset(a) == multiset(b) {
      forall v
        ensures v in a <==> v in b
      {
        assert v in a <==> v in multiset(a);
        assert v in b <==> v in multiset(b);
      }
      SameMap(IndexBy(keyOf, a), IndexBy(keyOf, b));
    }
    if IndexBy(keyOf, a) == IndexBy(keyOf, b) {
      forall v
        ensures multiset(a)[v] == multiset(b)[v]
      {
        DistinctCount(a, v);
        DistinctCount(b, v);
        SameRecord(keyOf, a, b, v);
      }
    }
  }

  lemma SameMap(m: map<string, Json>, n: map<string, Json>)
    requires forall key, v :: Holds(m, key, v) <==> Holds(n, key, v)
    ensures m == n
  {
    forall key
      ensures key in m <==> key in n
      ensures key in m && key in n ==> m[key] == n[key]
    {
      if key in m { assert Holds(m, key, m[key]); }
      if key in n { assert Holds(n, key, n[key]); }
    }
  }

  lemma SameRecord(keyOf: KeyOf, a: seq<Json>, b: seq<Json>, v: Json)
    requires Keyed(keyOf, a) && Keyed(keyOf, b) && IndexBy(keyOf, a) == IndexBy(keyOf, b)
    ensures v in a <==> v in b
  {
    hide IndexBy;
    IndexHolds(keyOf, a);
    IndexHolds(keyOf, b);
    if v in a || v in b {
      var key := keyOf(v).value;
      assert keyOf(v) == Some(key);
      assert Holds(IndexBy(keyOf, a), key, v);
    }
  }

  lemma PermutedIsKeyed(keyOf: KeyOf, a: seq<Json>, b: seq<Json>)
    requires Keyed(keyOf, a) && multiset(a) == multiset(b)
    ensures Keyed(keyOf, b)
  {
    KeyedIsDistinct(keyOf, a);
    DistinctByCount(a);
    DistinctByCount(b);
    forall i | 0 <= i < |b|
      ensures b[i] in a
    {
      assert b[i] in multiset(b);
    }
  }

  method BuildIndex(keyOf: KeyOf, items: seq<Json>) returns (ok: bool, index: map<string, Json>)
    ensures ok <==> Keyed(keyOf, items)
    ensures ok ==> index == IndexBy(keyOf, items)
  {
    hide Keyed;
    index := map[];
    assert Keyed(keyOf, items[..0]) by { NothingIsKeyed(keyOf); assert items[..0] == []; }
    for i := 0 to |items|
      invariant Keyed(keyOf, items[..i]) && index == IndexBy(keyOf, items[..i])
    {
      assert items[..i + 1][..i] == items[..i] && items[..i + 1][i] == items[i];
      var key := keyOf(items[i]);
      if key.None? {
        UnkeyedRecord(keyOf, items, i);
        return false, index;
      }
      if key.value in index {
        RepeatedKey(keyOf, items, i);
        return false, index;
      }
      KeyedNext(keyOf, items, i, index);
      index := index[key.value := items[i]];
    }
    assert items[..|items|] == items;
    ok := true;
  }

  lemma NothingIsKeyed(keyOf: KeyOf)
    ensures Keyed(keyOf, [])
  {}

  lemma UnkeyedRecord(keyOf: KeyOf, items: seq<Json>, i: nat)
    requires i < |items| && keyOf(items[i]).None?
    ensures !Keyed(keyOf, items)
  {}

  lemma RepeatedKey(keyOf: KeyOf, items: seq<Json>, i: nat)
    requires i < |items| && Keyed(keyOf, items[..i])
    requires keyOf(items[i]).Some? && keyOf(items[i]).value in IndexBy(keyOf, items[..i])
    ensures !Keyed(keyOf, items)
  {
    hide IndexBy;
    var key, index := keyOf(items[i]).value, IndexBy(keyOf, items[..i]);
    IndexHolds(keyOf, items[..i]);
    assert Holds(index, key, index[key]);
    var k :| 0 <= k < i && items[..i][k] == index[key];
    assert items[k] == items[..i][k];
  }

  lemma KeyedNext(keyOf: KeyOf, items: seq<Json>, i: nat, index: map<string, Json>)
    requires i < |items| && Keyed(keyOf, items[..i]) && index == IndexBy(keyOf, items[..i])
    requires keyOf(items[i]).Some? && keyOf(items[i]).value !in index
    ensures Keyed(keyOf, items[..i + 1])
  {
    hide IndexBy;
    IndexHolds(keyOf, items[..i]);
    forall j | 0 <= j < i
      ensures keyOf(items[j]) != keyOf(items[i]) && items[..i + 1][j] == items[..i][j]
    {
      assert items[..i][j] == items[j];
      assert items[j] in items[..i];
      assert keyOf(items[j]) == Some(keyOf(items[j]).value);
      assert Holds(index, keyOf(items[j]).value, items[j]);
    }
  }

  /* ---------- keyed comparison ---------- */

  datatype RowDifference = RowDifference(rowKey: string, difference: Difference)

  function InRow(key: string, differences: seq<Difference>): (rows: seq<RowDifference>)
    ensures |rows| == |differences|
  {
    seq(|differences|, i requires 0 <= i < |differences| => RowDifference(key, differences[i]))
  }

  function CompareRow(a: map<string, Json>, b: map<string, Json>, key: string): seq<RowDifference>
  {
    if key in a && key in b then InRow(key, CompareValue(a[key], b[key], ""))
    else
      [RowDifference(key, Difference("/records", Of(FieldOrNull(a, key)), Of(FieldOrNull(b, key)), PresenceDiffers))]
  }

  function CompareRows(a: map<string, Json>, b: map<string, Json>, keys: seq<string>): seq<RowDifference>
  {
    if keys == [] then [] else CompareRows(a, b, keys[..|keys| - 1]) + CompareRow(a, b, keys[|keys| - 1])
  }

  /** The canonical text of what the pointer selects in a record. */
  function PointerKey(canon: Canon, pointer: string): KeyOf
  {
    (record: Json) => match Walk(record, Tokens(pointer))
                      case Found(key) => Some(canon(key))
                      case _ => None
  }

  ghost function KeyedDifferences(keyOf: KeyOf, a: seq<Json>, b: seq<Json>): seq<RowDifference>
  {
    var left, right := IndexBy(keyOf, a), IndexBy(keyOf, b);
    CompareRows(left, right, SortedKeys(left.Keys + right.Keys))
  }

  method CompareKeyed(canon: Canon, left: Json, right: Json, pointer: string) returns (r: Outcome<RowDifference>)
    ensures r.Compared? <==>
            && left.Array? && right.Array?
            && Keyed(PointerKey(canon, pointer), left.items) && Keyed(PointerKey(canon, pointer), right.items)
    ensures r.Compared? ==> r.differences == KeyedDifferences(PointerKey(canon, pointer), left.items, right.items)
  {
    if !left.Array? || !right.Array? {
      return Failed;
    }
    hide Keyed, IndexBy, CompareRow, SortedKeys;
    var keyOf := PointerKey(canon, pointer);
    var leftOk, leftIndex := BuildIndex(keyOf, left.items);
    if !leftOk {
      return Failed;
    }
    var rightOk, rightIndex := BuildIndex(keyOf, right.items);
    if !rightOk {
      return Failed;
    }
    var ordered := SortKeys(leftIndex.Keys + rightIndex.Keys);
    var differences: seq<RowDifference> := [];
    for i := 0 to |ordered|
      invariant differences == CompareRows(leftIndex, rightIndex, ordered[..i])
    {
      assert ordered[..i + 1][..i] == ordered[..i];
      differences := differences + CompareRow(leftIndex, rightIndex, ordered[i]);
    }
    assert ordered[..|ordered|] == ordered;
    r := Compared(differences);
  }

  lemma {:induction false} NoRowDifferences(a: map<string, Json>, b: map<string, Json>, keys: seq<string>)
    ensures CompareRows(a, b, keys) == [] <==> forall key :: key in keys ==> key in a && key in b && a[key] == b[key]
  {
    if keys != [] {
      var init, key := keys[..|keys| - 1], keys[|keys| - 1];
      assert keys == init + [key];
      NoRowDifferences(a, b, init);
      if key in a && key in b { NoDifferencesIffEqual(a[key], b[key], ""); }
      assert CompareRow(a, b, key) == [] <==> key in a && key in b && a[key] == b[key];
    }
  }

  /** Keyed comparison reports nothing exactly when the arrays hold the same records, in whatever order. */
  lemma KeyedDifferencesMean(keyOf: KeyOf, a: seq<Json>, b: seq<Json>)
    requires Keyed(keyOf, a) && Keyed(keyOf, b)
    ensures KeyedDifferences(keyOf, a, b) == [] <==> multiset(a) == multiset(b)
  {
    hide Keyed, IndexBy, SortedKeys;
    var left, right := IndexBy(keyOf, a), IndexBy(keyOf, b);
    var keys := SortedKeys(left.Keys + right.Keys);
    NoRowDifferences(left, right, keys);
    SameIndex(keyOf, a, b);
    assert forall key :: key in keys <==> key in Elements(keys);
  }

  /* ---------- stable ordering ---------- */

  /** The canonical text of the declared fields of an object, if it has them all. */
  function CompositeKey(canon: Canon, keys: seq<string>): KeyOf
  {
    (record: Json) =>
      if record.Object? && forall i :: 0 <= i < |keys| ==> keys[i] in record.fields
      then Some(canon(Array(Parts(record, keys))))
      else None
  }

  function Parts(record: Json, keys: seq<string>): (parts: seq<Json>)
    requires record.Object? && forall i :: 0 <= i < |keys| ==> keys[i] in record.fields
    ensures |parts| == |keys| && forall i :: 0 <= i < |keys| ==> parts[i] == record.fields[keys[i]]
  {
    seq(|keys|, i requires 0 <= i < |keys| => record.fields[keys[i]])
  }

  /** The records by ascending key. */
  function InKeyOrder(index: map<string, Json>, keys: seq<string>): (ordered: seq<Json>)
    requires Elements(keys) <= index.Keys
    ensures |ordered| == |keys| && forall i :: 0 <= i < |keys| ==> keys[i] in index && ordered[i] == index[keys[i]]
  {
    assert forall i :: 0 <= i < |keys| ==> keys[i] in Elements(keys);
    seq(|keys|, i requires 0 <= i < |keys| => index[keys[i]])
  }

  function StablyOrdered(keyOf: KeyOf, items: seq<Json>): seq<Json>
  {
    InKeyOrder(IndexBy(keyOf, items), SortedKeys(IndexBy(keyOf, items).Keys))
  }

  method StableOrder(canon: Canon, values: seq<Json>, keys: seq<string>) returns (ok: bool, ordered: seq<Json>, changed: bool)
    ensures ok <==> Keyed(CompositeKey(canon, keys), values)
    ensures ok ==> ordered == StablyOrdered(CompositeKey(canon, keys), values) && (changed <==> ordered != values)
  {
    hide Keyed, IndexBy, CompositeKey, SortedKeys;
    var keyOf := CompositeKey(canon, keys);
    var index;
    ok, index := BuildIndex(keyOf, values);
    if !ok {
      return false, [], false;
    }
    var sorted := SortKeys(index.Keys);
    ordered, changed := [], false;
    ghost var all := StablyOrdered(keyOf, values);
    for i := 0 to |sorted|
      invariant ordered == all[..i]
    {
      assert sorted[i] in Elements(sorted);
      ordered := ordered + [index[sorted[i]]];
    }
    changed := ordered != values;
  }

  lemma StablyOrderedIsPermutation(keyOf: KeyOf, items: seq<Json>)
    requires Keyed(keyOf, items)
    ensures multiset(StablyOrdered(keyOf, items)) == multiset(items)
  {
    hide IndexBy, SortedKeys;
    var index := IndexBy(keyOf, items);
    var keys := SortedKeys(index.Keys);
    var ordered := StablyOrdered(keyOf, items);
    SortedIsDistinct(index.Keys);
    IndexHolds(keyOf, items);
    KeyedIsDistinct(keyOf, items);
    forall i, j | 0 <= i < j < |ordered|
      ensures ordered[i] != ordered[j]
    {
      assert Holds(index, keys[i], ordered[i]) && Holds(index, keys[j], ordered[j]);
    }
    forall v
      ensures multiset(ordered)[v] == multiset(items)[v]
    {
      DistinctCount(ordered, v);
      DistinctCount(items, v);
      if v in ordered {
        var i :| 0 <= i < |ordered| && ordered[i] == v;
        assert Holds(index, keys[i], v);
      }
      if v in items {
        assert keyOf(v) == Some(keyOf(v).value) && Holds(index, keyOf(v).value, v);
        assert keyOf(v).value in Elements(keys);
        var i :| 0 <= i < |keys| && keys[i] == keyOf(v).value;
        assert ordered[i] == v;
      }
    }
  }

  /** Stable ordering forgets the order the records came in, and keeps everything else: the results agree
      exactly when the records do. */
  lemma StablyOrderedAgree(keyOf: KeyOf, a: seq<Json>, b: seq<Json>)
    requires Keyed(keyOf, a) && Keyed(keyOf, b)
    ensures StablyOrdered(keyOf, a) == StablyOrdered(keyOf, b) <==> multiset(a) == multiset(b)
  {
    hide Keyed, IndexBy;
    SameIndex(keyOf, a, b);
    StablyOrderedIsPermutation(keyOf, a);
    StablyOrderedIsPermutation(keyOf, b);
  }

  /** Ordering twice changes nothing. */
  lemma StableOrderIsIdempotent(keyOf: KeyOf, items: seq<Json>)
    requires Keyed(keyOf, items)
    ensures Keyed(keyOf, StablyOrdered(keyOf, items))
    ensures StablyOrdered(keyOf, StablyOrdered(keyOf, items)) == StablyOrdered(keyOf, items)
  {
    hide Keyed, IndexBy;
    StablyOrderedIsPermutation(keyOf, items);
    PermutedIsKeyed(keyOf, items, StablyOrdered(keyOf, items));
    StablyOrderedAgree(keyOf, StablyOrdered(keyOf, items), items);
  }

  /** Ordered comparison after stable ordering agrees with multiset comparison before it. */
  lemma OrderedAgreesWithMultiset(canon: Canon, keyOf: KeyOf, a: seq<Json>, b: seq<Json>)
    requires Injective(canon) && Keyed(keyOf, a) && Keyed(keyOf, b)
    ensures CompareValue(Array(StablyOrdered(keyOf, a)), Array(StablyOrdered(keyOf, b)), "") == []
            <==> SetDifferences(canon, a, b, true) == []
  {
    hide Keyed, Injective, CompareValue, StablyOrdered, SetDifferences, SameMembers;
    NoDifferencesIffEqual(Array(StablyOrdered(keyOf, a)), Array(StablyOrdered(keyOf, b)), "");
    StablyOrderedAgree(keyOf, a, b);
    SetDifferencesMean(canon, a, b, true);
  }

  /** Keyed records are in order exactly when their keys ascend. */
  lemma OrderedKeys(keyOf: KeyOf, items: seq<Json>)
    ensures Keyed(keyOf, items) ==> (StablyOrdered(keyOf, items) == items <==> Ascending(KeyTexts(keyOf, items)))
  {
    if Keyed(keyOf, items) {
      hide IndexBy, SortedKeys, Ascending;
      var index, texts := IndexBy(keyOf, items), KeyTexts(keyOf, items);
      IndexHolds(keyOf, items);
      KeyTextsAreKeys(keyOf, items);
      SortedIsAscending(index.Keys);
      forall i | 0 <= i < |items|
        ensures Holds(index, texts[i], items[i])
      {
        assert items[i] in items && keyOf(items[i]) == Some(texts[i]);
      }
      if Ascending(texts) {
        SortedIsUnique(texts, index.Keys);
      }
      if StablyOrdered(keyOf, items) == items {
        var keys := SortedKeys(index.Keys);
        forall i | 0 <= i < |items|
          ensures texts[i] == keys[i]
        {
          assert Holds(index, keys[i], items[i]);
        }
      }
    }
  }

  ghost function KeyTexts(keyOf: KeyOf, items: seq<Json>): (texts: seq<string>)
    ensures |texts| == |items|
    ensures forall i :: 0 <= i < |items| && keyOf(items[i]).Some? ==> keyOf(items[i]) == Some(texts[i])
  {
    seq(|items|, i requires 0 <= i < |items| => if keyOf(items[i]).Some? then keyOf(items[i]).value else "")
  }

  lemma KeyTextsAreKeys(keyOf: KeyOf, items: seq<Json>)
    requires Keyed(keyOf, items)
    ensures Distinct(KeyTexts(keyOf, items)) && Elements(KeyTexts(keyOf, items)) == IndexBy(keyOf, items).Keys
  {
    hide IndexBy;
    var index, texts := IndexBy(keyOf, items), KeyTexts(keyOf, items);
    IndexHolds(keyOf, items);
    forall key
      ensures key in texts <==> key in index
    {
      if key in texts {
        var i :| 0 <= i < |texts| && texts[i] == key;
        assert Holds(index, key, items[i]);
      }
      if key in index {
        assert Holds(index, key, index[key]);
        var i :| 0 <= i < |items| && items[i] == index[key];
        assert texts[i] == key;
      }
    }
  }
}
