/** Documents that show which pairs of normalization rules conflict. */
module RuleConflicts {
  import opened CanonicalText
  import opened Documents
  import opened KeyedRecords
  import opened Normalization
  import opened NormalizationTwice
  import opened OppositeOrders
  import opened Options
  import opened Pointers
  import opened Records
  import opened RulePairs
  import opened SampleDocuments
  import T = Text

  /* ---------- a document that the second pass rejects ---------- */

  /** The rule turns the value, at the path, into another. */
  ghost predicate TurnsInto(codec: Codec, kind: Kind, value: Json, rest: seq<string>, after: Json)
  {
    Walk(value, rest).Found? &&
    if kind.Remove? then InObject(value, rest) && after == Delete(value, rest)
    else exists made :: Local(codec, kind, Walk(value, rest).value) == Some(made) && after == Put(value, rest, made)
  }

  lemma TurnsTwin(codec: Codec, first: seq<string>, rule: Rule, leaf: Json, after: Json)
    requires Together(first, Path(rule)) && TurnsInto(codec, rule.kind, leaf, Rest(Path(rule), first), after)
    ensures var applied := ApplyRule(codec, Twin(first, Path(rule), leaf), rule);
            applied.Ok? && applied.document == Twin(first, Path(rule), after)
  {
    var q := Path(rule);
    TwinIsSymmetric(first, q, leaf);
    TwinIsSymmetric(first, q, after);
    hide Twin, Rest, Tokens, Together, Local, InObject, StablyOrdered, CompositeKey, IsKeyed;
    WalkTwin(q, first, leaf);
    if rule.kind.Remove? {
      DeleteTwin(q, first, leaf);
      hide Walk, Delete;
    } else {
      var made :| Local(codec, rule.kind, Walk(leaf, Rest(q, first)).value) == Some(made)
                  && after == Put(leaf, Rest(q, first), made);
      PutTwin(q, first, leaf, made);
      LocalRule(codec, Twin(first, q, leaf), rule);
    }
  }

  /** The first rule is content with the leaf, the second turns it into something, and the first rejects what it then
      finds: the pair is not idempotent. */
  lemma RejectedLeaf(codec: Codec, a: Rule, b: Rule, leaf: Json, after: Json)
    requires InOrder(a, b) && Together(Path(a), Path(b)) && !a.kind.Remove?
    requires SettledAt(codec, Walk(leaf, Rest(Path(a), Path(b))), a.kind)
    requires TurnsInto(codec, b.kind, leaf, Rest(Path(b), Path(a)), after)
    requires var found := Walk(after, Rest(Path(a), Path(b)));
             found.Found? && Local(codec, a.kind, found.value).None?
    ensures !AlwaysIdempotent(codec, [a, b])
  {
    hide Twin, Rest, Tokens, Together, Local, TurnsInto, ApplyRule, NormalizeWith, SettledAt, Walk;
    var root, next := Twin(Path(a), Path(b), leaf), Twin(Path(a), Path(b), after);
    WalkTwin(Path(a), Path(b), leaf);
    SettledMeans(codec, root, a);
    TurnsTwin(codec, Path(a), b, leaf, after);
    WalkTwin(Path(a), Path(b), after);
    LocalRule(codec, next, a);
    PassesOf(codec, root, a, b);
    PassesOf(codec, next, a, b);
    assert !Twice(codec, root, [a, b]);
  }

  /* ---------- two rules at the same place ---------- */

  lemma NoRecordsAreOrdered(codec: Codec, keys: seq<string>)
    ensures SettledAt(codec, Found(Array([])), StableOrder(keys))
  {
    OrderedKeys(CompositeKey(codec.canon, keys), []);
  }

  lemma SpoiledPlace(codec: Codec, a: Rule, b: Rule)
    requires InOrder(a, b) && Together(Path(a), Path(b)) && |Path(a)| == |Path(b)| && Spoils(codec, a.kind, b.kind)
    ensures !AlwaysIdempotent(codec, [a, b])
  {
    hide Tokens, Together, AlwaysIdempotent, InOrder;
    var leaf := if a.kind.StableOrder? then Array([]) else Json.Text(TIMESTAMP_TOKEN);
    if a.kind.StableOrder? { NoRecordsAreOrdered(codec, a.kind.keys); }
    var text := Json.Text(b.kind.token);
    assert Local(codec, b.kind, leaf) == Some(text) && Put(leaf, [], text) == text;
    RejectedLeaf(codec, a, b, leaf, text);
  }

  /* ---------- an edit below the records of a stable order ---------- */

  lemma TurnsInMember(codec: Codec, kind: Kind, fields: map<string, Json>, k: string, rest: seq<string>, edited: Json)
    requires k in fields && TurnsInto(codec, kind, fields[k], rest, edited)
    ensures TurnsInto(codec, kind, Object(fields), [k] + rest, Object(fields[k := edited]))
  {
    hide Local, Atoi;
    var path := [k] + rest;
    assert path[1..] == rest;
    if kind.Remove? {
      var init := rest[..|rest| - 1];
      assert path[..|path| - 1] == [k] + init && ([k] + init)[1..] == init;
      assert InObject(Object(fields), path);
      InObjectRest(Object(fields), path);
    }
  }

  lemma TurnsInRecord(codec: Codec, kind: Kind, records: seq<Json>, i: string, n: nat, rest: seq<string>, edited: Json)
    requires Atoi(i) == Some(n) && n < |records| && TurnsInto(codec, kind, records[n], rest, edited)
    ensures TurnsInto(codec, kind, Array(records), [i] + rest, Array(records[n := edited]))
  {
    hide Local, Atoi;
    var path := [i] + rest;
    assert path[1..] == rest;
    if kind.Remove? {
      var init := rest[..|rest| - 1];
      assert path[..|path| - 1] == [i] + init && ([i] + init)[1..] == init;
      assert InObject(Array(records), path);
      InObjectRest(Array(records), path);
    }
  }

  lemma WalkMember(records: seq<Json>, i: string, n: nat, k: string, rest: seq<string>)
    requires Atoi(i) == Some(n) && n < |records| && records[n].Object? && k in records[n].fields
    ensures Walk(Array(records), [i, k] + rest) == Walk(records[n].fields[k], rest)
  {
    hide Atoi;
    var path := [i, k] + rest;
    assert path[1..] == [k] + rest && path[1..][1..] == rest;
    assert Walk(records[n], [k] + rest) == Walk(records[n].fields[k], rest);
  }

  /** Ordered records that an edit turns into something that has no keys, or the same one twice. */
  lemma UnkeyedRecords(codec: Codec, a: Rule, b: Rule, records: seq<Json>, after: seq<Json>)
    requires a.kind.StableOrder? && Together(Path(a), Path(b)) && |Path(a)| < |Path(b)|
    requires SettledAt(codec, Found(Array(records)), a.kind)
    requires TurnsInto(codec, b.kind, Array(records), Path(b)[|Path(a)|..], Array(after))
    requires !Keyed(CompositeKey(codec.canon, a.kind.keys), after)
    ensures !AlwaysIdempotent(codec, [a, b])
  {
    hide Tokens, Together, AlwaysIdempotent, CompositeKey, Keyed, StablyOrdered, TurnsInto, SettledAt;
    RejectedLeaf(codec, a, b, Array(records), Array(after));
  }

  lemma SamplesAreSettled(codec: Codec, keys: seq<string>, k: string, values: seq<Json>)
    requires Climbing(codec.canon, keys, k, values)
    ensures SettledAt(codec, Found(Array(Samples(keys, k, values))), StableOrder(keys))
  {
    hide CompositeKey, Keyed, StablyOrdered, Climbing, KeyedBy;
    SamplesAreKeyedBy(codec.canon, keys, k, values);
    ClimbingIsOrdered(codec.canon, keys, k, values, Samples(keys, k, values));
  }

  /** The whole record is replaced. */
  lemma ReplacedRecord(codec: Codec, a: Rule, b: Rule, k: string, values: seq<Json>)
    requires a.kind.StableOrder? && b.kind.Replace? && Together(Path(a), Path(b)) && |Path(b)| == |Path(a)| + 1
    requires IsPosition(Path(b)[|Path(a)|]) && Atoi(Path(b)[|Path(a)|]).value < |values|
    requires Climbing(codec.canon, a.kind.keys, k, values)
    ensures !AlwaysIdempotent(codec, [a, b])
  {
    hide Tokens, Together, AlwaysIdempotent, Climbing, StablyOrdered, CompositeKey, Keyed, Atoi, SettledAt;
    var keys, i, text := a.kind.keys, Path(b)[|Path(a)|], Json.Text(b.kind.token);
    var n, rows := Atoi(i).value, Samples(keys, k, values);
    SamplesAreSettled(codec, keys, k, values);
    assert Local(codec, b.kind, rows[n]) == Some(text) && Put(rows[n], [], text) == text;
    TurnsInRecord(codec, b.kind, rows, i, n, [], text);
    assert Path(b)[|Path(a)|..] == [i] + [];
    TextIsUnkeyed(codec.canon, keys, rows[n := text], n);
    UnkeyedRecords(codec, a, b, rows, rows[n := text]);
  }

  lemma TextIsUnkeyed(canon: Canon, keys: seq<string>, records: seq<Json>, n: nat)
    requires n < |records| && records[n].Text?
    ensures !Keyed(CompositeKey(canon, keys), records)
  {}

  /** The order key of one record becomes that of another. */
  lemma RepeatedKey(codec: Codec, a: Rule, b: Rule, i: string, k: string, rest: seq<string>,
                    values: seq<Json>, j: nat)
    requires a.kind.StableOrder? && Together(Path(a), Path(b)) && |Path(a)| < |Path(b)|
    requires Path(b)[|Path(a)|..] == [i, k] + rest && k in a.kind.keys && IsPosition(i)
    requires Climbing(codec.canon, a.kind.keys, k, values) && Atoi(i).value < |values| && j < |values| && j != Atoi(i).value
    requires TurnsInto(codec, b.kind, values[Atoi(i).value], rest, values[j])
    ensures !AlwaysIdempotent(codec, [a, b])
  {
    hide Tokens, Together, AlwaysIdempotent, Climbing, StablyOrdered, CompositeKey, Keyed, Atoi, TurnsInto, SettledAt;
    var keys, n := a.kind.keys, Atoi(i).value;
    var rows := Samples(keys, k, values);
    SamplesAreSettled(codec, keys, k, values);
    var fields := Sample(keys, k, values[n]).fields;
    TurnsInMember(codec, b.kind, fields, k, rest, values[j]);
    assert fields[k := values[j]] == Sample(keys, k, values[j]).fields;
    TurnsInRecord(codec, b.kind, rows, i, n, [k] + rest, rows[j]);
    assert [i] + ([k] + rest) == [i, k] + rest;
    TwiceIsUnkeyed(CompositeKey(codec.canon, keys), rows, n, j);
    UnkeyedRecords(codec, a, b, rows, rows[n := rows[j]]);
  }

  lemma TwiceIsUnkeyed(keyOf: KeyOf, records: seq<Json>, n: nat, j: nat)
    requires n < |records| && j < |records| && n != j
    ensures !Keyed(keyOf, records[n := records[j]])
  {
    var after := records[n := records[j]];
    assert after[n] == after[j];
    if n < j { assert keyOf(after[n]) == keyOf(after[j]); } else { assert keyOf(after[j]) == keyOf(after[n]); }
  }

  /* ---------- order keys of two records that an edit makes the same ---------- */

  lemma PutsAtEnd(codec: Codec, kind: Kind, rest: seq<string>, before: Json, made: Json)
    requires !kind.Remove? && Local(codec, kind, before) == Some(made)
    ensures TurnsInto(codec, kind, Nest(rest, before), rest, Nest(rest, made))
  {
    hide Local;
    PutNest(rest, before, made);
  }

  lemma ReplacedKey(codec: Codec, escape: string -> string, a: Rule, b: Rule, i: string, k: string, rest: seq<string>)
    requires JsonText(codec.canon, escape) && b.kind.Replace? && BelowRecord(a, b, i, k, rest)
    ensures !AlwaysIdempotent(codec, [a, b])
  {
    hide JsonText, Tokens, Together, AlwaysIdempotent, Climbing, Below, Atoi, TurnsInto, Nest;
    var keys, token, n := a.kind.keys, b.kind.token, Atoi(i).value;
    var ladder, top := Ladder(rest, token, n + 1), Rung(rest, token, 0);
    LadderClimbs(codec.canon, escape, keys, k, rest, token, n + 1);
    SpaceSetsBack(codec.canon, escape, keys, k, rest, token, 0);
    ClimbsOn(codec.canon, keys, k, ladder, top);
    PutsAtEnd(codec, b.kind, rest, Json.Text(Padded(token, 1)), Json.Text(token));
    RepeatedKey(codec, a, b, i, k, rest, ladder + [top], n + 1);
  }

  /** The second rule's path goes on to an order key of a record. */
  predicate BelowRecord(a: Rule, b: Rule, i: string, k: string, rest: seq<string>)
  {
    && a.kind.StableOrder? && Together(Path(a), Path(b)) && |Path(a)| < |Path(b)|
    && Path(b)[|Path(a)|..] == [i, k] + rest && k in a.kind.keys && IsPosition(i)
  }

  /** A ladder of texts with two more values, the first of which becomes the second. */
  lemma LadderOfTwo(codec: Codec, escape: string -> string, a: Rule, b: Rule, i: string, k: string, rest: seq<string>,
                    s: string, before: Json, after: Json)
    requires JsonText(codec.canon, escape) && BelowRecord(a, b, i, k, rest)
    requires Below(codec.canon, a.kind.keys, k, Rung(rest, s, 1), before) && Below(codec.canon, a.kind.keys, k, before, after)
    requires TurnsInto(codec, b.kind, before, rest, after)
    ensures !AlwaysIdempotent(codec, [a, b])
  {
    hide JsonText, Tokens, Together, AlwaysIdempotent, Climbing, Below, Atoi, TurnsInto, Rung;
    var keys, n := a.kind.keys, Atoi(i).value;
    var ladder := Ladder(rest, s, n);
    LadderClimbs(codec.canon, escape, keys, k, rest, s, n);
    ClimbsOn(codec.canon, keys, k, ladder, before);
    ClimbsOn(codec.canon, keys, k, ladder + [before], after);
    RepeatedKey(codec, a, b, i, k, rest, ladder + [before] + [after], n + 1);
  }

  /** A timestamp that sorts before the token that stands for it. */
  ghost predicate TimeBelowToken(codec: Codec, time: string)
  {
    codec.isTime(time) && TextBelow(codec.canon(Json.Text(time)), codec.canon(Json.Text(TIMESTAMP_TOKEN)))
  }

  lemma StampedKey(codec: Codec, escape: string -> string, time: string, a: Rule, b: Rule, i: string, k: string, rest: seq<string>)
    requires JsonText(codec.canon, escape) && TimeBelowToken(codec, time)
    requires b.kind.Timestamp? && BelowRecord(a, b, i, k, rest)
    ensures !AlwaysIdempotent(codec, [a, b])
  {
    hide JsonText, Tokens, AlwaysIdempotent, Below, TurnsInto, Nest, BelowRecord, TextBelow;
    assert k in a.kind.keys by { KeyOfRecord(a, b, i, k, rest); }
    var before, after := Json.Text(time), Json.Text(TIMESTAMP_TOKEN);
    SpaceSetsBack(codec.canon, escape, a.kind.keys, k, rest, time, 0);
    NestBelow(codec.canon, escape, rest, before, after);
    KeyTextBelow(codec.canon, escape, a.kind.keys, k, Nest(rest, before), Nest(rest, after));
    PutsAtEnd(codec, b.kind, rest, before, after);
    LadderOfTwo(codec, escape, a, b, i, k, rest, time, Nest(rest, before), Nest(rest, after));
  }

  lemma KeyOfRecord(a: Rule, b: Rule, i: string, k: string, rest: seq<string>)
    requires BelowRecord(a, b, i, k, rest)
    ensures a.kind.StableOrder? && k in a.kind.keys
  {}

  lemma {:induction false} NestLast(rest: seq<string>, leaf: Json)
    requires rest != []
    ensures Nest(rest, leaf) == Nest(rest[..|rest| - 1], Object(map[rest[|rest| - 1] := leaf]))
    decreases |rest|
  {
    if |rest| == 1 {
      assert rest[1..] == [];
    } else {
      NestLast(rest[1..], leaf);
      assert rest[..|rest| - 1][1..] == rest[1..][..|rest| - 2];
    }
  }

  /** A member is removed inside an order key. */
  lemma RemovedInKey(codec: Codec, escape: string -> string, a: Rule, b: Rule, i: string, k: string, rest: seq<string>)
    requires JsonText(codec.canon, escape) && b.kind.Remove? && BelowRecord(a, b, i, k, rest) && rest != []
    ensures !AlwaysIdempotent(codec, [a, b])
  {
    hide JsonText, Tokens, AlwaysIdempotent, Below, Nest, BelowRecord, TextBelow, Padded;
    assert a.kind.StableOrder? && k in a.kind.keys by { KeyOfRecord(a, b, i, k, rest); }
    var init, empty, key := rest[..|rest| - 1], Object(map[]), rest[|rest| - 1];
    var leaf := Json.Text(Padded("", 0));
    SpaceSetsBack(codec.canon, escape, a.kind.keys, k, rest, "", 0);
    NestLast(rest, leaf);
    MemberIsBelowEmpty(codec.canon, escape, key, leaf);
    NestBelow(codec.canon, escape, init, Object(map[key := leaf]), empty);
    KeyTextBelow(codec.canon, escape, a.kind.keys, k, Nest(rest, leaf), Nest(init, empty));
    DeleteLastOf(rest, leaf);
    LadderOfTwo(codec, escape, a, b, i, k, rest, "", Nest(rest, leaf), Nest(init, empty));
  }

  /** The order key itself is removed. */
  lemma RemovedKey(codec: Codec, escape: string -> string, a: Rule, b: Rule, i: string, k: string)
    requires JsonText(codec.canon, escape) && b.kind.Remove? && BelowRecord(a, b, i, k, [])
    ensures !AlwaysIdempotent(codec, [a, b])
  {
    hide JsonText, Tokens, Together, AlwaysIdempotent, Climbing, StablyOrdered, CompositeKey, Keyed, Atoi, SettledAt;
    var keys, n := a.kind.keys, Atoi(i).value;
    var values := Ladder([], "", n + 1);
    LadderClimbs(codec.canon, escape, keys, k, [], "", n + 1);
    SamplesAreSettled(codec, keys, k, values);
    var rows := Samples(keys, k, values);
    var fields := Sample(keys, k, values[n]).fields;
    var keyless := Object(fields - {k});
    assert [k][..0] == [] && [k][1..] == [];
    assert InObject(Object(fields), [k]) && Delete(Object(fields), [k]) == keyless && Walk(Object(fields), [k]).Found?;
    assert TurnsInto(codec, b.kind, rows[n], [k], keyless);
    TurnsInRecord(codec, b.kind, rows, i, n, [k], keyless);
    assert [i] + [k] == [i, k] + [];
    KeylessIsUnkeyed(codec.canon, keys, k, rows[n := keyless], n);
    UnkeyedRecords(codec, a, b, rows, rows[n := keyless]);
  }

  lemma KeylessIsUnkeyed(canon: Canon, keys: seq<string>, k: string, records: seq<Json>, n: nat)
    requires n < |records| && k in keys && records[n].Object? && k !in records[n].fields
    ensures !Keyed(CompositeKey(canon, keys), records)
  {}

  /** An order key holds records that their own order puts the other way. */
  lemma OrderedInKey(codec: Codec, escape: string -> string, a: Rule, b: Rule, i: string, k: string, rest: seq<string>)
    requires JsonText(codec.canon, escape) && BelowRecord(a, b, i, k, rest) && b.kind.StableOrder? && b.kind.keys != []
    ensures !AlwaysIdempotent(codec, [a, b])
  {
    hide JsonText, Tokens, AlwaysIdempotent, Below, Nest, BelowRecord, TextBelow, CompositeKey, Keyed, StablyOrdered, TurnsInto;
    assert a.kind.StableOrder? && k in a.kind.keys by { KeyOfRecord(a, b, i, k, rest); }
    var r, s := OppositePair(codec.canon, escape, b.kind.keys);
    var before, after := Array([r, s]), Array([s, r]);
    ArrayBelow(codec.canon, escape, [r, s], [s, r], 0);
    NestBelow(codec.canon, escape, rest, before, after);
    KeyTextBelow(codec.canon, escape, a.kind.keys, k, Nest(rest, before), Nest(rest, after));
    RungBelowArray(codec.canon, escape, a.kind.keys, k, rest, "", 1, [r, s]);
    PutsAtEnd(codec, b.kind, rest, before, after);
    LadderOfTwo(codec, escape, a, b, i, k, rest, "", Nest(rest, before), Nest(rest, after));
  }

  lemma RungBelowArray(canon: Canon, escape: string -> string, keys: seq<string>, k: string, rest: seq<string>, s: string, n: nat,
                       items: seq<Json>)
    requires JsonText(canon, escape) && k in keys
    ensures Below(canon, keys, k, Rung(rest, s, n), Nest(rest, Array(items)))
  {
    hide JsonText, TextBelow, Below, Nest;
    TextIsBelowArray(canon, escape, Padded(s, n), items);
    NestBelow(canon, escape, rest, Json.Text(Padded(s, n)), Array(items));
    KeyTextBelow(canon, escape, keys, k, Rung(rest, s, n), Nest(rest, Array(items)));
  }

  /* ---------- a stable order that moves records under another ---------- */

  /** The first rule orders a list in a record that the second one moves. */
  predicate AboveRecord(a: Rule, b: Rule, i: string, k: string, rest: seq<string>)
  {
    && a.kind.StableOrder? && b.kind.StableOrder? && b.kind.keys != []
    && Together(Path(a), Path(b)) && |Path(b)| < |Path(a)|
    && Path(a)[|Path(b)|..] == [i, k] + rest && IsPosition(i)
  }

  /** Ordered records, one with a text where the first rule looks for a list, and the next one with a list there. */
  ghost predicate ListAfterText(codec: Codec, keys: seq<string>, records: seq<Json>, n: nat, k: string, rest: seq<string>,
                                s: string)
  {
    && n + 1 < |records|
    && Keyed(CompositeKey(codec.canon, keys), records) && StablyOrdered(CompositeKey(codec.canon, keys), records) == records
    && HasAt(records[n], k, Nest(rest, Json.Text(s))) && HasAt(records[n + 1], k, Nest(rest, Array([])))
  }

  predicate HasAt(record: Json, k: string, value: Json) { record.Object? && k in record.fields && record.fields[k] == value }

  lemma MovedRecord(codec: Codec, a: Rule, b: Rule, i: string, k: string, rest: seq<string>, records: seq<Json>,
                    s: string)
    requires AboveRecord(a, b, i, k, rest) && ListAfterText(codec, b.kind.keys, records, Atoi(i).value, k, rest, s)
    ensures !AlwaysIdempotent(codec, [a, b])
  {
    hide Tokens, Together, AlwaysIdempotent, CompositeKey, Keyed, StablyOrdered, Nest, Atoi, Swapped;
    var n := Atoi(i).value;
    var before := Swapped(records, n);
    SwappedIsOrderedBack(CompositeKey(codec.canon, b.kind.keys), records, n);
    assert before[n] == records[n + 1] by { SwappedAt(records, n); }
    WalkMember(before, i, n, k, rest);
    WalkMember(records, i, n, k, rest);
    WalkNest(rest, Array([]));
    WalkNest(rest, Json.Text(s));
    NoRecordsAreOrdered(codec, a.kind.keys);
    assert Put(Array(before), [], Array(records)) == Array(records);
    RejectedLeaf(codec, a, b, Array(before), Array(records));
  }

  lemma SwappedAt(records: seq<Json>, n: nat)
    requires n + 1 < |records|
    ensures |Swapped(records, n)| == |records| && Swapped(records, n)[n] == records[n + 1]
  {}

  /** The list is in an order key. */
  lemma MovedByKey(codec: Codec, escape: string -> string, a: Rule, b: Rule, i: string, k: string, rest: seq<string>)
    requires JsonText(codec.canon, escape) && AboveRecord(a, b, i, k, rest) && k in b.kind.keys
    ensures !AlwaysIdempotent(codec, [a, b])
  {
    hide JsonText, Tokens, Together, AlwaysIdempotent, CompositeKey, Keyed, StablyOrdered, Atoi, Climbing, Below, Nest;
    var keys, n := b.kind.keys, Atoi(i).value;
    var ladder, top := Ladder(rest, "", n + 1), Nest(rest, Array([]));
    LadderClimbs(codec.canon, escape, keys, k, rest, "", n + 1);
    RungBelowArray(codec.canon, escape, keys, k, rest, "", 1, []);
    ClimbsOn(codec.canon, keys, k, ladder, top);
    var records := Samples(keys, k, ladder + [top]);
    SamplesAreSettled(codec, keys, k, ladder + [top]);
    MovedRecord(codec, a, b, i, k, rest, records, Padded("", 1));
  }

  /** Records with one more member, which is no order key. */
  function WithMember(records: seq<Json>, k: string, value: Json): (extended: seq<Json>)
    requires forall j :: 0 <= j < |records| ==> records[j].Object?
    ensures |extended| == |records| && forall j :: 0 <= j < |records| ==> extended[j] == Object(records[j].fields[k := value])
  {
    seq(|records|, j requires 0 <= j < |records| => Object(records[j].fields[k := value]))
  }

  lemma OtherMemberKeepsKey(canon: Canon, keys: seq<string>, k: string, fields: map<string, Json>, value: Json)
    requires k !in keys
    ensures CompositeKey(canon, keys)(Object(fields[k := value])) == CompositeKey(canon, keys)(Object(fields))
  {
    var before, after := Object(fields), Object(fields[k := value]);
    if forall i :: 0 <= i < |keys| ==> keys[i] in fields {
      assert Parts(after, keys) == Parts(before, keys);
    }
  }

  /** The list is elsewhere in the records. */
  lemma MovedByOtherKey(codec: Codec, escape: string -> string, a: Rule, b: Rule, i: string, k: string, rest: seq<string>)
    requires JsonText(codec.canon, escape) && AboveRecord(a, b, i, k, rest) && k !in b.kind.keys
    ensures !AlwaysIdempotent(codec, [a, b])
  {
    hide JsonText, Tokens, Together, AlwaysIdempotent, CompositeKey, Keyed, StablyOrdered, Atoi, Climbing, KeyedBy, Nest;
    var keys, n := b.kind.keys, Atoi(i).value;
    var values := Ladder([], "", n + 2);
    LadderClimbs(codec.canon, escape, keys, keys[0], [], "", n + 2);
    var samples := Samples(keys, keys[0], values);
    SamplesAreKeyedBy(codec.canon, keys, keys[0], values);
    var list := Nest(rest, Array([]));
    var records := WithMember(samples, k, Nest(rest, Json.Text("")))[n + 1 := Object(samples[n + 1].fields[k := list])];
    MembersKeepKeys(codec.canon, keys, keys[0], k, values, samples, records);
    ClimbingIsOrdered(codec.canon, keys, keys[0], values, records);
    MovedRecord(codec, a, b, i, k, rest, records, "");
  }

  lemma MembersKeepKeys(canon: Canon, keys: seq<string>, first: string, k: string, values: seq<Json>, samples: seq<Json>,
                        records: seq<Json>)
    requires k !in keys && KeyedBy(canon, keys, first, values, samples) && |records| == |samples|
    requires forall j :: 0 <= j < |samples| ==>
               samples[j].Object? && records[j].Object? && k in records[j].fields
               && records[j].fields == samples[j].fields[k := records[j].fields[k]]
    ensures KeyedBy(canon, keys, first, values, records)
  {
    hide CompositeKey, KeyText;
    forall j | 0 <= j < |records|
      ensures CompositeKey(canon, keys)(records[j]) == CompositeKey(canon, keys)(samples[j])
    {
      OtherMemberKeepsKey(canon, keys, k, samples[j].fields, records[j].fields[k]);
    }
  }

  /* ---------- every conflict shows ---------- */

  lemma TogetherUnlessApart(p: seq<string>, q: seq<string>)
    ensures Together(p, q) <==> !Apart(p, q)
  {
    hide Alias;
  }

  lemma ReplacedRecordShows(codec: Codec, escape: string -> string, a: Rule, b: Rule)
    requires JsonText(codec.canon, escape) && a.kind.StableOrder? && b.kind.Replace? && Together(Path(a), Path(b))
    requires |Path(b)| == |Path(a)| + 1 && IsPosition(Path(b)[|Path(a)|])
    requires a.kind.keys != [] || Atoi(Path(b)[|Path(a)|]) == Some(0)
    ensures !AlwaysIdempotent(codec, [a, b])
  {
    hide JsonText, Tokens, Together, AlwaysIdempotent, Atoi, Below;
    var keys, n := a.kind.keys, Atoi(Path(b)[|Path(a)|]).value;
    if keys != [] {
      LadderClimbs(codec.canon, escape, keys, keys[0], [], "", n + 1);
      ReplacedRecord(codec, a, b, keys[0], Ladder([], "", n + 1));
    } else {
      ReplacedRecord(codec, a, b, "", [Null]);
    }
  }

  /** The path from the records on. */
  lemma StepsInto(path: seq<string>)
    requires |path| >= 2
    ensures path == [path[0], path[1]] + path[2..]
  {}

  lemma EditedRecordShows(codec: Codec, escape: string -> string, time: string, a: Rule, b: Rule)
    requires JsonText(codec.canon, escape) && TimeBelowToken(codec, time)
    requires a.kind.StableOrder? && Together(Path(a), Path(b)) && |Path(a)| < |Path(b)|
    requires EditsRecord(a.kind.keys, b.kind, Path(b)[|Path(a)|..])
    ensures !AlwaysIdempotent(codec, [a, b])
  {
    hide JsonText, TimeBelowToken, Tokens, Together, AlwaysIdempotent, Atoi;
    var path := Path(b)[|Path(a)|..];
    if |path| == 1 {
      assert path[0] == Path(b)[|Path(a)|];
      ReplacedRecordShows(codec, escape, a, b);
    } else {
      StepsInto(path);
      var i, k, rest := path[0], path[1], path[2..];
      assert BelowRecord(a, b, i, k, rest);
      hide BelowRecord;
      match b.kind
      case Remove => if rest == [] { RemovedKey(codec, escape, a, b, i, k); } else { RemovedInKey(codec, escape, a, b, i, k, rest); }
      case Replace(_) => ReplacedKey(codec, escape, a, b, i, k, rest);
      case Timestamp => StampedKey(codec, escape, time, a, b, i, k, rest);
      case StableOrder(_) => OrderedInKey(codec, escape, a, b, i, k, rest);
    }
  }

  lemma MovedRecordsShow(codec: Codec, escape: string -> string, a: Rule, b: Rule)
    requires JsonText(codec.canon, escape) && Together(Path(a), Path(b)) && |Path(a)| >= |Path(b)| + 2
    requires a.kind.StableOrder? && b.kind.StableOrder? && b.kind.keys != [] && IsPosition(Path(a)[|Path(b)|])
    ensures !AlwaysIdempotent(codec, [a, b])
  {
    hide JsonText, Tokens, Together, AlwaysIdempotent, Atoi;
    var path := Path(a)[|Path(b)|..];
    StepsInto(path);
    var i, k, rest := path[0], path[1], path[2..];
    assert AboveRecord(a, b, i, k, rest);
    hide AboveRecord;
    if k in b.kind.keys { MovedByKey(codec, escape, a, b, i, k, rest); } else { MovedByOtherKey(codec, escape, a, b, i, k, rest); }
  }

  lemma ConflictShows(codec: Codec, escape: string -> string, time: string, a: Rule, b: Rule)
    requires JsonText(codec.canon, escape) && TimeBelowToken(codec, time) && InOrder(a, b) && Conflict(codec, a, b)
    ensures !AlwaysIdempotent(codec, [a, b])
  {
    hide JsonText, TimeBelowToken, Tokens, AlwaysIdempotent, EditsRecord, Spoils, IsPosition, Apart, Together;
    var p, q := Path(a), Path(b);
    TogetherUnlessApart(p, q);
    if |p| == |q| {
      SpoiledPlace(codec, a, b);
    } else if |q| < |p| {
      MovedRecordsShow(codec, escape, a, b);
    } else {
      EditedRecordShows(codec, escape, time, a, b);
    }
  }

  /** Two rules normalize every document once and for all exactly when their kinds and paths do not conflict. */
  lemma PairIsIdempotentExactly(codec: Codec, escape: string -> string, time: string, a: Rule, b: Rule)
    requires JsonText(codec.canon, escape) && TimeBelowToken(codec, time)
    ensures AlwaysIdempotent(codec, [a, b]) <==> !Conflicting(codec, a, b)
  {
    hide JsonText, TimeBelowToken, Conflict, Twice;
    if !InOrder(a, b) {
      AuthoredEitherWay(codec, a, b);
      OrderedPair(codec, escape, time, b, a);
    } else {
      OrderedPair(codec, escape, time, a, b);
    }
  }

  lemma OrderedPair(codec: Codec, escape: string -> string, time: string, a: Rule, b: Rule)
    requires JsonText(codec.canon, escape) && TimeBelowToken(codec, time) && InOrder(a, b)
    ensures AlwaysIdempotent(codec, [a, b]) <==> !Conflict(codec, a, b)
  {
    hide JsonText, TimeBelowToken, Conflict, Twice;
    if Conflict(codec, a, b) {
      ConflictShows(codec, escape, time, a, b);
    } else {
      forall root
        ensures Twice(codec, root, [a, b])
      {
        SafePair(codec, root, a, b);
      }
    }
  }
}
