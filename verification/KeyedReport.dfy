/** What a keyed comparison reports, record by record. */
module KeyedReport {
  import opened Comparison
  import opened KeyedRecords
  import opened Keys
  import opened Options
  import opened Pointers
  import opened T = Text

  /** One array has this record under the key. */
  ghost predicate HasRecord(keyOf: KeyOf, items: seq<Json>, key: string, record: Json)
  {
    record in items && keyOf(record) == Some(key)
  }

  ghost predicate HasKey(keyOf: KeyOf, items: seq<Json>, key: string) { exists record :: HasRecord(keyOf, items, key, record) }

  /** Both arrays have a record under the key, and the difference is one of theirs. */
  ghost predicate RecordsDiffer(keyOf: KeyOf, a: seq<Json>, b: seq<Json>, row: RowDifference)
  {
    exists x, y ::
      && HasRecord(keyOf, a, row.rowKey, x) && HasRecord(keyOf, b, row.rowKey, y)
      && row.difference in CompareValue(x, y, "")
  }

  /** Only one array has a record under the key; the other side is shown as null. */
  ghost predicate RecordMissing(keyOf: KeyOf, a: seq<Json>, b: seq<Json>, row: RowDifference)
  {
    var d := row.difference;
    && d.pointer == "/records" && d.message.PresenceDiffers? && d.expected.Of? && d.actual.Of?
    && ((HasRecord(keyOf, a, row.rowKey, d.expected.json) && !HasKey(keyOf, b, row.rowKey) && d.actual == Of(Null))
        || (HasRecord(keyOf, b, row.rowKey, d.actual.json) && !HasKey(keyOf, a, row.rowKey) && d.expected == Of(Null)))
  }

  lemma {:induction false} RowsCollect(a: map<string, Json>, b: map<string, Json>, keys: seq<string>, row: RowDifference)
    ensures row in CompareRows(a, b, keys) <==> row.rowKey in keys && row in CompareRow(a, b, row.rowKey)
  {
    hide CompareValue;
    if keys != [] {
      var init, key := keys[..|keys| - 1], keys[|keys| - 1];
      assert keys == init + [key];
      RowsCollect(a, b, init, row);
      assert row in CompareRow(a, b, key) ==> row.rowKey == key;
    }
  }

  lemma RowMeans(a: map<string, Json>, b: map<string, Json>, key: string, d: Difference)
    requires key in a || key in b
    ensures RowDifference(key, d) in CompareRow(a, b, key) <==>
            if key in a && key in b then d in CompareValue(a[key], b[key], "")
            else d == Difference("/records", Of(if key in a then a[key] else Null), Of(if key in b then b[key] else Null),
                                 PresenceDiffers)
  {
    hide CompareValue;
    if key in a && key in b {
      var differences := CompareValue(a[key], b[key], "");
      if d in differences {
        var i :| 0 <= i < |differences| && differences[i] == d;
        assert InRow(key, differences)[i] == RowDifference(key, d);
      }
    }
  }

  lemma KeysAre(keyOf: KeyOf, items: seq<Json>, key: string)
    requires Keyed(keyOf, items)
    ensures key in IndexBy(keyOf, items) <==> HasKey(keyOf, items, key)
    ensures forall record :: HasRecord(keyOf, items, key, record) <==>
                             key in IndexBy(keyOf, items) && IndexBy(keyOf, items)[key] == record
  {
    hide IndexBy, Keyed;
    IndexHolds(keyOf, items);
    forall record
      ensures HasRecord(keyOf, items, key, record) <==> Holds(IndexBy(keyOf, items), key, record)
    {
    }
    if key in IndexBy(keyOf, items) { assert Holds(IndexBy(keyOf, items), key, IndexBy(keyOf, items)[key]); }
  }

  /** A row is reported exactly if it is a difference of the two records under its key, or the one array lacks it. */
  lemma KeyedReportIsExact(keyOf: KeyOf, a: seq<Json>, b: seq<Json>, row: RowDifference)
    requires Keyed(keyOf, a) && Keyed(keyOf, b)
    ensures row in KeyedDifferences(keyOf, a, b) <==> RecordsDiffer(keyOf, a, b, row) || RecordMissing(keyOf, a, b, row)
  {
    hide IndexBy, Keyed, CompareValue, CompareRow, SortedKeys, HasRecord, HasKey;
    var left, right := IndexBy(keyOf, a), IndexBy(keyOf, b);
    var keys := SortedKeys(left.Keys + right.Keys);
    RowsCollect(left, right, keys, row);
    assert row.rowKey in keys <==> row.rowKey in Elements(keys);
    KeysAre(keyOf, a, row.rowKey);
    KeysAre(keyOf, b, row.rowKey);
    if row.rowKey in left || row.rowKey in right { RowMeans(left, right, row.rowKey, row.difference); }
  }

  /** The rows come by ascending key. */
  lemma {:induction false} RowsAscend(a: map<string, Json>, b: map<string, Json>, keys: seq<string>)
    requires forall i, j :: 0 <= i < j < |keys| ==> Leq(keys[i], keys[j])
    ensures forall i, j :: 0 <= i < j < |CompareRows(a, b, keys)| ==>
              Leq(CompareRows(a, b, keys)[i].rowKey, CompareRows(a, b, keys)[j].rowKey)
  {
    hide CompareValue, Leq;
    if keys != [] {
      var init, key := keys[..|keys| - 1], keys[|keys| - 1];
      var before, last := CompareRows(a, b, init), CompareRow(a, b, key);
      RowsAscend(a, b, init);
      assert forall j :: 0 <= j < |last| ==> last[j].rowKey == key;
      LeqReflexive(key);
      forall i | 0 <= i < |before|
        ensures Leq(before[i].rowKey, key)
      {
        RowsCollect(a, b, init, before[i]);
        var n :| 0 <= n < |init| && init[n] == before[i].rowKey;
        assert keys[n] == before[i].rowKey;
      }
    }
  }

  lemma KeyedReportAscends(keyOf: KeyOf, a: seq<Json>, b: seq<Json>)
    ensures forall i, j :: 0 <= i < j < |KeyedDifferences(keyOf, a, b)| ==>
              Leq(KeyedDifferences(keyOf, a, b)[i].rowKey, KeyedDifferences(keyOf, a, b)[j].rowKey)
  {
    hide IndexBy, CompareRows, SortedKeys, Leq;
    var left, right := IndexBy(keyOf, a), IndexBy(keyOf, b);
    SortedIsAscending(left.Keys + right.Keys);
    RowsAscend(left, right, SortedKeys(left.Keys + right.Keys));
  }
}
