/** Documents in which two paths meet, and records whose canonical keys are in a known order. */
module SampleDocuments {
  import opened CanonicalText
  import opened Documents
  import opened KeyedRecords
  import opened Keys
  import opened Options
  import opened Pointers
  import opened Records
  import opened T = Text

  /* ---------- documents with one path ---------- */

  /** Nested objects with one member each, along the path to the leaf. */
  function Nest(path: seq<string>, leaf: Json): Json
  {
    if path == [] then leaf else Object(map[path[0] := Nest(path[1..], leaf)])
  }

  lemma {:induction false} WalkNest(path: seq<string>, leaf: Json)
    ensures Walk(Nest(path, leaf), path) == Found(leaf)
  {
    if path != [] { WalkNest(path[1..], leaf); }
  }

  lemma {:induction false} PutNest(path: seq<string>, before: Json, after: Json)
    ensures Walk(Nest(path, before), path) == Found(before)
    ensures Put(Nest(path, before), path, after) == Nest(path, after)
  {
    WalkNest(path, before);
    if path != [] {
      PutNest(path[1..], before, after);
      var inner, next := Nest(path[1..], before), Nest(path[1..], after);
      hide Atoi;
      assert map[path[0] := inner][path[0] := next] == map[path[0] := next];
    }
  }

  lemma DeleteLastOf(rest: seq<string>, leaf: Json)
    requires rest != []
    ensures Walk(Nest(rest, leaf), rest).Found? && InObject(Nest(rest, leaf), rest)
    ensures Delete(Nest(rest, leaf), rest) == Nest(rest[..|rest| - 1], Object(map[]))
    decreases |rest|
  {
    if |rest| == 1 {
      assert rest[..0] == [] && rest[1..] == [];
      assert map[rest[0] := leaf] - {rest[0]} == map[];
    } else {
      DeleteLastOf(rest[1..], leaf);
      var inner := Nest(rest[1..], leaf);
      assert rest[..|rest| - 1][0] == rest[0] && rest[..|rest| - 1][1..] == rest[1..][..|rest| - 2];
      assert Walk(Nest(rest, leaf), rest[..|rest| - 1]) == Walk(inner, rest[1..][..|rest| - 2]);
      assert Delete(Nest(rest, leaf), rest) == Object(map[rest[0] := inner][rest[0] := Delete(inner, rest[1..])]);
      assert map[rest[0] := inner][rest[0] := Delete(inner, rest[1..])] == map[rest[0] := Delete(inner, rest[1..])];
    }
  }

  /** The paths part nowhere. */
  predicate Together(p: seq<string>, q: seq<string>)
  {
    forall i :: 0 <= i < |p| && i < |q| ==> Alias(p[i], q[i])
  }

  /** A document in which the paths meet, as long as both go on, at the leaf: one member or one position a step. */
  function Twin(p: seq<string>, q: seq<string>, leaf: Json): Json
    requires Together(p, q)
    decreases |p|
  {
    if p == [] || q == [] then leaf
    else
      assert Alias(p[0], q[0]);
      TogetherRest(p, q);
      var inner := Twin(p[1..], q[1..], leaf);
      if p[0] == q[0] then Object(map[p[0] := inner])
      else Array(Nulls(Atoi(p[0]).value) + [inner])
  }

  function Nulls(n: nat): (items: seq<Json>)
    ensures |items| == n
  {
    seq(n, i => Null)
  }

  lemma TogetherRest(p: seq<string>, q: seq<string>)
    requires Together(p, q) && p != [] && q != []
    ensures Together(p[1..], q[1..])
  {
    hide Alias;
    forall i | 0 <= i < |p| - 1 && i < |q| - 1
      ensures Alias(p[1..][i], q[1..][i])
    {
      assert Alias(p[i + 1], q[i + 1]);
    }
  }

  /** How a path goes on after the other ends. */
  function Rest(p: seq<string>, q: seq<string>): seq<string> { if |p| <= |q| then [] else p[|q|..] }

  lemma {:induction false} TwinIsSymmetric(p: seq<string>, q: seq<string>, leaf: Json)
    requires Together(p, q)
    ensures Together(q, p) && Twin(q, p, leaf) == Twin(p, q, leaf)
    decreases |p|
  {
    if p != [] && q != [] {
      TogetherRest(p, q);
      TwinIsSymmetric(p[1..], q[1..], leaf);
      assert Alias(p[0], q[0]);
    }
  }

  lemma RestRest(p: seq<string>, q: seq<string>)
    requires p != [] && q != []
    ensures Rest(p[1..], q[1..]) == Rest(p, q)
  {}

  /** The first step into such a document. */
  lemma TwinStep(p: seq<string>, q: seq<string>, leaf: Json)
    requires Together(p, q) && p != [] && q != []
    ensures Together(p[1..], q[1..])
    ensures var twin, inner := Twin(p, q, leaf), Twin(p[1..], q[1..], leaf);
            if p[0] == q[0] then twin == Object(map[p[0] := inner])
            else IsPosition(p[0]) && twin == Array(Nulls(Atoi(p[0]).value) + [inner])
  {
    TogetherRest(p, q);
    assert Alias(p[0], q[0]);
  }

  lemma {:induction false} WalkTwin(p: seq<string>, q: seq<string>, leaf: Json)
    requires Together(p, q)
    ensures Walk(Twin(p, q, leaf), p) == Walk(leaf, Rest(p, q))
    decreases |p|
  {
    if q == [] {
      assert p[0..] == p;
    } else if p != [] {
      TwinStep(p, q, leaf);
      RestRest(p, q);
      WalkTwin(p[1..], q[1..], leaf);
      hide Twin, Rest, Atoi;
    }
  }

  lemma {:induction false} PutTwin(p: seq<string>, q: seq<string>, leaf: Json, value: Json)
    requires Together(p, q) && Walk(leaf, Rest(p, q)).Found?
    ensures Walk(Twin(p, q, leaf), p).Found?
    ensures Put(Twin(p, q, leaf), p, value) == Twin(p, q, Put(leaf, Rest(p, q), value))
    decreases |p|
  {
    WalkTwin(p, q, leaf);
    if q == [] {
      assert p[0..] == p;
    } else if p != [] {
      TwinStep(p, q, leaf);
      RestRest(p, q);
      PutTwin(p[1..], q[1..], leaf, value);
      var after := Put(leaf, Rest(p, q), value);
      TwinStep(p, q, after);
      var inner, next := Twin(p[1..], q[1..], leaf), Twin(p[1..], q[1..], after);
      hide Twin, Rest, Atoi;
      if p[0] == q[0] {
        assert map[p[0] := inner][p[0] := next] == map[p[0] := next];
      } else {
        var n := Atoi(p[0]).value;
        assert (Nulls(n) + [inner])[n := next] == Nulls(n) + [next];
      }
    }
  }

  lemma {:induction false} DeleteTwin(p: seq<string>, q: seq<string>, leaf: Json)
    requires Together(p, q) && Walk(leaf, Rest(p, q)).Found? && InObject(leaf, Rest(p, q))
    ensures Walk(Twin(p, q, leaf), p).Found? && InObject(Twin(p, q, leaf), p)
    ensures Delete(Twin(p, q, leaf), p) == Twin(p, q, Delete(leaf, Rest(p, q)))
    decreases |p|
  {
    InObjectTwin(p, q, leaf);
    if q == [] {
      assert p[0..] == p;
    } else if p != [] {
      TwinStep(p, q, leaf);
      RestRest(p, q);
      DeleteTwin(p[1..], q[1..], leaf);
      var after := Delete(leaf, Rest(p, q));
      TwinStep(p, q, after);
      var inner, next := Twin(p[1..], q[1..], leaf), Twin(p[1..], q[1..], after);
      assert |p| > 1;
      InObjectRest(Twin(p, q, leaf), p);
      hide Twin, Rest, Atoi, InObject;
      if p[0] == q[0] {
        assert map[p[0] := inner][p[0] := next] == map[p[0] := next];
      } else {
        var n := Atoi(p[0]).value;
        assert (Nulls(n) + [inner])[n := next] == Nulls(n) + [next];
      }
    }
  }

  lemma InObjectTwin(p: seq<string>, q: seq<string>, leaf: Json)
    requires Together(p, q) && Walk(leaf, Rest(p, q)).Found? && InObject(leaf, Rest(p, q))
    ensures Walk(Twin(p, q, leaf), p).Found? && InObject(Twin(p, q, leaf), p) && |p| > |q|
  {
    hide Walk, Twin;
    WalkTwin(p, q, leaf);
    var init := p[..|p| - 1];
    TwinOfInit(p, q, leaf);
    WalkTwin(init, q, leaf);
    assert Rest(init, q) == Rest(p, q)[..|Rest(p, q)| - 1];
  }

  lemma {:induction false} TwinOfInit(p: seq<string>, q: seq<string>, leaf: Json)
    requires Together(p, q) && |p| > |q|
    ensures Together(p[..|p| - 1], q) && Twin(p[..|p| - 1], q, leaf) == Twin(p, q, leaf)
    decreases |p|
  {
    var init := p[..|p| - 1];
    assert forall i :: 0 <= i < |init| ==> init[i] == p[i];
    if q != [] {
      TwinStep(p, q, leaf);
      TwinStep(init, q, leaf);
      TwinOfInit(p[1..], q[1..], leaf);
      assert init[1..] == p[1..][..|p| - 2];
    }
  }

  /* ---------- records that differ in one order key ---------- */

  /** A record with the keys, all null but for one. */
  function Sample(keys: seq<string>, k: string, value: Json): Json
  {
    Object(map key | key in keys :: if key == k then value else Null)
  }

  function Samples(keys: seq<string>, k: string, values: seq<Json>): (rows: seq<Json>)
    ensures |rows| == |values| && forall i :: 0 <= i < |rows| ==> rows[i] == Sample(keys, k, values[i])
  {
    seq(|values|, i requires 0 <= i < |values| => Sample(keys, k, values[i]))
  }

  /** The composite key of such a record. */
  function KeyText(canon: Canon, keys: seq<string>, k: string, value: Json): string
  {
    canon(Array(seq(|keys|, i requires 0 <= i < |keys| => if keys[i] == k then value else Null)))
  }

  lemma SampleKey(canon: Canon, keys: seq<string>, k: string, value: Json)
    ensures CompositeKey(canon, keys)(Sample(keys, k, value)) == Some(KeyText(canon, keys, k, value))
  {
    var row := Sample(keys, k, value);
    assert forall i :: 0 <= i < |keys| ==> keys[i] in keys && keys[i] in row.fields;
    assert Parts(row, keys) == seq(|keys|, i requires 0 <= i < |keys| => if keys[i] == k then value else Null);
  }

  predicate Below(canon: Canon, keys: seq<string>, k: string, a: Json, b: Json)
  {
    var first, second := KeyText(canon, keys, k, a), KeyText(canon, keys, k, b);
    Leq(first, second) && first != second
  }

  lemma BelowTransitive(canon: Canon, keys: seq<string>, k: string, a: Json, b: Json, c: Json)
    requires Below(canon, keys, k, a, b) && Below(canon, keys, k, b, c)
    ensures Below(canon, keys, k, a, c)
  {
    hide KeyText;
    var first, second, third := KeyText(canon, keys, k, a), KeyText(canon, keys, k, b), KeyText(canon, keys, k, c);
    LeqTransitive(first, second, third);
    if first == third { LeqAntisymmetric(first, second); }
  }

  /** Values whose records come in strictly ascending key order. */
  ghost predicate Climbing(canon: Canon, keys: seq<string>, k: string, values: seq<Json>)
  {
    forall i, j :: 0 <= i < j < |values| ==> Below(canon, keys, k, values[i], values[j])
  }

  /** The records have the composite keys of the values. */
  ghost predicate KeyedBy(canon: Canon, keys: seq<string>, k: string, values: seq<Json>, records: seq<Json>)
  {
    && |records| == |values|
    && forall i :: 0 <= i < |records| ==> CompositeKey(canon, keys)(records[i]) == Some(KeyText(canon, keys, k, values[i]))
  }

  lemma SamplesAreKeyedBy(canon: Canon, keys: seq<string>, k: string, values: seq<Json>)
    ensures KeyedBy(canon, keys, k, values, Samples(keys, k, values))
  {
    hide CompositeKey, KeyText, Sample;
    forall i | 0 <= i < |values|
      ensures CompositeKey(canon, keys)(Sample(keys, k, values[i])) == Some(KeyText(canon, keys, k, values[i]))
    {
      SampleKey(canon, keys, k, values[i]);
    }
  }

  lemma ClimbingIsOrdered(canon: Canon, keys: seq<string>, k: string, values: seq<Json>, rows: seq<Json>)
    requires Climbing(canon, keys, k, values) && KeyedBy(canon, keys, k, values, rows)
    ensures Keyed(CompositeKey(canon, keys), rows) && StablyOrdered(CompositeKey(canon, keys), rows) == rows
  {
    hide StablyOrdered, CompositeKey, KeyText;
    var keyOf := CompositeKey(canon, keys);
    forall i, j | 0 <= i < j < |rows|
      ensures keyOf(rows[i]) != keyOf(rows[j]) && Leq(keyOf(rows[i]).value, keyOf(rows[j]).value)
    {
      assert Below(canon, keys, k, values[i], values[j]);
    }
    OrderedKeys(keyOf, rows);
  }

  /* ---------- values in order ---------- */

  lemma KeyTextBelow(canon: Canon, escape: string -> string, keys: seq<string>, k: string, a: Json, b: Json)
    requires JsonText(canon, escape) && k in keys && TextBelow(canon(a), canon(b))
    ensures Below(canon, keys, k, a, b)
  {
    hide JsonText, TextBelow;
    var i := FirstOf(keys, k);
    var first := seq(|keys|, i requires 0 <= i < |keys| => if keys[i] == k then a else Null);
    var second := seq(|keys|, i requires 0 <= i < |keys| => if keys[i] == k then b else Null);
    assert first[..i] == second[..i];
    ArrayBelow(canon, escape, first, second, i);
    BelowMeansLeq(canon(Array(first)), canon(Array(second)));
  }

  lemma {:induction false} FirstOf(keys: seq<string>, k: string) returns (i: nat)
    requires k in keys
    ensures i < |keys| && keys[i] == k && k !in keys[..i]
  {
    if keys[0] == k {
      i := 0;
    } else {
      i := FirstOf(keys[1..], k);
      assert keys[..i + 1] == [keys[0]] + keys[1..][..i];
      i := i + 1;
    }
  }

  lemma {:induction false} NestBelow(canon: Canon, escape: string -> string, rest: seq<string>, a: Json, b: Json)
    requires JsonText(canon, escape) && TextBelow(canon(a), canon(b))
    ensures TextBelow(canon(Nest(rest, a)), canon(Nest(rest, b)))
  {
    if rest != [] {
      NestBelow(canon, escape, rest[1..], a, b);
      hide JsonText, TextBelow;
      MemberBelow(canon, escape, rest[0], Nest(rest[1..], a), Nest(rest[1..], b));
    }
  }

  function Padded(s: string, n: nat): string { if n == 0 then s else Padded(s, n - 1) + " " }

  /** The padded text at the end of the path. */
  function Rung(rest: seq<string>, s: string, n: nat): Json { Nest(rest, Json.Text(Padded(s, n))) }

  lemma SpaceSetsBack(canon: Canon, escape: string -> string, keys: seq<string>, k: string, rest: seq<string>, s: string, n: nat)
    requires JsonText(canon, escape) && k in keys
    ensures Below(canon, keys, k, Rung(rest, s, n + 1), Rung(rest, s, n))
  {
    hide Below, Nest, JsonText, TextBelow;
    var text := Padded(s, n);
    SpaceIsBelow(canon, escape, text);
    NestBelow(canon, escape, rest, Json.Text(text + " "), Json.Text(text));
    KeyTextBelow(canon, escape, keys, k, Nest(rest, Json.Text(text + " ")), Nest(rest, Json.Text(text)));
  }

  /** Padding a text sets its record back. */
  lemma {:induction false} PaddedDescends(canon: Canon, escape: string -> string, keys: seq<string>, k: string,
                                          rest: seq<string>, s: string, a: nat, b: nat)
    requires JsonText(canon, escape) && k in keys && a < b
    ensures Below(canon, keys, k, Rung(rest, s, b), Rung(rest, s, a))
    decreases b
  {
    hide *;
    SpaceSetsBack(canon, escape, keys, k, rest, s, b - 1);
    if a < b - 1 {
      PaddedDescends(canon, escape, keys, k, rest, s, a, b - 1);
      BelowTransitive(canon, keys, k, Rung(rest, s, b), Rung(rest, s, b - 1), Rung(rest, s, a));
    }
  }

  /** Padded texts, the most padded first, down to the one that is padded once. */
  function Ladder(rest: seq<string>, s: string, n: nat): (values: seq<Json>)
    ensures |values| == n && forall i :: 0 <= i < n ==> values[i] == Rung(rest, s, n - i)
  {
    seq(n, i requires 0 <= i < n => Rung(rest, s, n - i))
  }

  lemma LadderClimbs(canon: Canon, escape: string -> string, keys: seq<string>, k: string, rest: seq<string>, s: string, n: nat)
    requires JsonText(canon, escape) && k in keys
    ensures Climbing(canon, keys, k, Ladder(rest, s, n))
  {
    hide JsonText, Below, Rung;
    forall i, j | 0 <= i < j < n
      ensures Below(canon, keys, k, Ladder(rest, s, n)[i], Ladder(rest, s, n)[j])
    {
      PaddedDescends(canon, escape, keys, k, rest, s, n - j, n - i);
    }
  }

  /** One more value above the top. */
  lemma ClimbsOn(canon: Canon, keys: seq<string>, k: string, values: seq<Json>, top: Json)
    requires Climbing(canon, keys, k, values) && (values != [] ==> Below(canon, keys, k, values[|values| - 1], top))
    ensures Climbing(canon, keys, k, values + [top])
  {
    hide Below;
    var last := |values| - 1;
    forall i, j | 0 <= i < j < |values| + 1
      ensures Below(canon, keys, k, (values + [top])[i], (values + [top])[j])
    {
      if j == |values| && i < last { BelowTransitive(canon, keys, k, values[i], values[last], top); }
    }
  }
}
