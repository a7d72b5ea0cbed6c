/** Records that a stable order moves, and a pair of records that their texts sort the other way. */
module OppositeOrders {
  import opened CanonicalText
  import opened KeyedRecords
  import opened Keys
  import opened Options
  import opened Pointers
  import opened Records
  import opened SampleDocuments
  import opened T = Text

  /* ---------- neighbours out of order ---------- */

  function Swapped(records: seq<Json>, n: nat): seq<Json>
    requires n + 1 < |records|
  {
    records[n := records[n + 1]][n + 1 := records[n]]
  }

  lemma SwappedIsPermutation(records: seq<Json>, n: nat)
    requires n + 1 < |records|
    ensures multiset(Swapped(records, n)) == multiset(records)
  {
    assert records == records[..n] + [records[n], records[n + 1]] + records[n + 2..];
    assert Swapped(records, n) == records[..n] + [records[n + 1], records[n]] + records[n + 2..];
  }

  lemma SwappedIsOrderedBack(keyOf: KeyOf, records: seq<Json>, n: nat)
    requires n + 1 < |records| && Keyed(keyOf, records) && StablyOrdered(keyOf, records) == records
    ensures Keyed(keyOf, Swapped(records, n)) && StablyOrdered(keyOf, Swapped(records, n)) == records
  {
    hide Keyed, StablyOrdered, Swapped;
    SwappedIsPermutation(records, n);
    PermutedIsKeyed(keyOf, records, Swapped(records, n));
    StablyOrderedAgree(keyOf, Swapped(records, n), records);
  }

  lemma PairIsOrdered(keyOf: KeyOf, first: Json, second: Json)
    requires keyOf(first).Some? && keyOf(second).Some? && TextBelow(keyOf(first).value, keyOf(second).value)
    ensures Keyed(keyOf, [first, second]) && StablyOrdered(keyOf, [first, second]) == [first, second]
  {
    hide StablyOrdered, TextBelow;
    BelowMeansLeq(keyOf(first).value, keyOf(second).value);
    OrderedKeys(keyOf, [first, second]);
  }

  /* ---------- two records with a number ---------- */

  function Numbered(names: set<string>, x: string, digits: string): Json
  {
    Object(map key | key in names :: if key == x then Number(digits) else Null)
  }

  function NumberedParts(keys: seq<string>, x: string, digits: string): seq<Json>
  {
    seq(|keys|, i requires 0 <= i < |keys| => if keys[i] == x then Number(digits) else Null)
  }

  lemma NumberedKey(canon: Canon, keys: seq<string>, names: set<string>, x: string, digits: string)
    requires Elements(keys) <= names
    ensures CompositeKey(canon, keys)(Numbered(names, x, digits)) == Some(canon(Array(NumberedParts(keys, x, digits))))
  {
    var record := Numbered(names, x, digits);
    assert forall i :: 0 <= i < |keys| ==> keys[i] in Elements(keys) && keys[i] in record.fields;
    assert Parts(record, keys) == NumberedParts(keys, x, digits);
  }

  /** By a key that comes last in the list and nowhere before, 10 sorts first; by any other, 1 does. */
  lemma PartsOneAndTen(canon: Canon, escape: string -> string, keys: seq<string>, x: string)
    requires JsonText(canon, escape) && x in keys
    ensures var one, ten := canon(Array(NumberedParts(keys, x, "1"))), canon(Array(NumberedParts(keys, x, "10")));
            if x !in keys[..|keys| - 1] then TextBelow(ten, one) else TextBelow(one, ten)
  {
    hide JsonText, TextBelow;
    var i := FirstOf(keys, x);
    var one, ten := NumberedParts(keys, x, "1"), NumberedParts(keys, x, "10");
    assert one[..i] == ten[..i];
    assert i < |keys| - 1 ==> keys[i] in keys[..|keys| - 1] by { assert i < |keys| - 1 ==> keys[..|keys| - 1][i] == keys[i]; }
    ArrayOneAndTen(canon, escape, one, ten, i);
  }

  /** The record texts sort by what follows the number in turn: a brace, if its name is the greatest. */
  lemma RecordsOneAndTen(canon: Canon, escape: string -> string, names: set<string>, x: string)
    requires JsonText(canon, escape) && x in names
    ensures var one, ten := canon(Numbered(names, x, "1")), canon(Numbered(names, x, "10"));
            if forall name :: name in names && name != x ==> !Leq(x, name) then TextBelow(ten, one) else TextBelow(one, ten)
  {
    hide JsonText, TextBelow, Leq;
    ObjectOneAndTen(canon, escape, Numbered(names, x, "1").fields, Numbered(names, x, "10").fields, x);
  }

  lemma Greatest(keys: seq<string>) returns (x: string)
    requires keys != []
    ensures x in keys && forall key :: key in Elements(keys) && key != x ==> !Leq(x, key)
  {
    hide SortedKeys, Leq;
    var sorted := SortedKeys(Elements(keys));
    assert keys[0] in Elements(sorted);
    LastIsGreatest(Elements(keys), |sorted| - 1);
    x := sorted[|sorted| - 1];
    assert x in Elements(sorted);
  }

  lemma {:induction false} LongerIsGreater(x: string)
    ensures Leq(x, x + "z") && x != x + "z"
  {
    assert |x + "z"| == |x| + 1;
    if x != "" {
      LongerIsGreater(x[1..]);
      assert (x + "z")[0] == x[0] && (x + "z")[1..] == x[1..] + "z";
    }
  }

  /** For each list of keys there are records whose order by key is not that of their texts. */
  lemma OppositePair(canon: Canon, escape: string -> string, keys: seq<string>) returns (r: Json, s: Json)
    requires JsonText(canon, escape) && keys != []
    ensures TextBelow(canon(r), canon(s))
    ensures Keyed(CompositeKey(canon, keys), [r, s]) && StablyOrdered(CompositeKey(canon, keys), [r, s]) == [s, r]
  {
    hide JsonText, TextBelow, Leq, CompositeKey, Keyed, StablyOrdered;
    var keyOf, last, names, x := CompositeKey(canon, keys), keys[|keys| - 1], Elements(keys), "";
    if last !in keys[..|keys| - 1] {
      names, x := names + {last + "z"}, last;
      LongerIsGreater(last);
      r, s := Numbered(names, x, "1"), Numbered(names, x, "10");
    } else {
      x := Greatest(keys);
      RepeatedLast(keys, x);
      r, s := Numbered(names, x, "10"), Numbered(names, x, "1");
    }
    NumberedKey(canon, keys, names, x, "1");
    NumberedKey(canon, keys, names, x, "10");
    PartsOneAndTen(canon, escape, keys, x);
    RecordsOneAndTen(canon, escape, names, x);
    PairIsOrdered(keyOf, s, r);
    SwappedIsOrderedBack(keyOf, [s, r], 0);
    assert Swapped([s, r], 0) == [r, s];
  }

  lemma RepeatedLast(keys: seq<string>, x: string)
    requires keys != [] && keys[|keys| - 1] in keys[..|keys| - 1] && x in keys
    ensures x in keys[..|keys| - 1]
  {
    var i :| 0 <= i < |keys| && keys[i] == x;
    if i < |keys| - 1 { assert keys[..|keys| - 1][i] == x; }
  }
}
