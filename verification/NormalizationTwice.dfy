/** Normalizing a normalized document: a documented promise that holds for rules that keep out of each
    other's way, and fails otherwise. */
module NormalizationTwice {
  import opened Documents
  import opened KeyedRecords
  import opened Normalization
  import opened Options
  import opened Pointers
  import opened Records

  /** What a settled rule finds at its path. */
  ghost predicate SettledAt(codec: Codec, found: Resolution, kind: Kind)
  {
    match found
    case Invalid(_) => false
    case Missing => true
    case Found(current) =>
      match kind
      case Remove => false
      case Replace(token) => current == Text(token)
      case Timestamp => current == Text(TIMESTAMP_TOKEN)
      case StableOrder(keys) =>
        && current.Array? && Keyed(CompositeKey(codec.canon, keys), current.items)
        && StablyOrdered(CompositeKey(codec.canon, keys), current.items) == current.items
      case NumericTolerance => true
  }

  lemma SettledMeans(codec: Codec, root: Json, rule: Rule)
    ensures Settled(codec, root, rule) <==> SettledAt(codec, Walk(root, Path(rule)), rule.kind)
  {
    hide Walk, Put, Delete, InObject, StablyOrdered, CompositeKey, Keyed, Tokens;
  }

  /* ---------- what a rule does ---------- */

  /** What an effective rule that removes nothing leaves at its place. */
  function NewValue(codec: Codec, kind: Kind, current: Json): Json
  {
    match kind
    case Replace(token) => Text(token)
    case Timestamp => Text(TIMESTAMP_TOKEN)
    case StableOrder(keys) =>
      if current.Array? then Array(StablyOrdered(CompositeKey(codec.canon, keys), current.items)) else current
    case _ => current
  }

  /** What an effective rule finds at its place. */
  ghost predicate Editable(codec: Codec, kind: Kind, current: Json)
  {
    match kind
    case Timestamp => current.Text?
    case StableOrder(keys) => current.Array? && Keyed(CompositeKey(codec.canon, keys), current.items)
    case _ => !kind.NumericTolerance?
  }

  lemma EffectOf(codec: Codec, root: Json, rule: Rule)
    requires ApplyRule(codec, root, rule).Ok? && ApplyRule(codec, root, rule).document != root
    ensures Walk(root, Path(rule)).Found? && Editable(codec, rule.kind, Walk(root, Path(rule)).value)
    ensures var next, current := ApplyRule(codec, root, rule).document, Walk(root, Path(rule)).value;
            if rule.kind.Remove? then InObject(root, Path(rule)) && next == Delete(root, Path(rule))
            else next == Put(root, Path(rule), NewValue(codec, rule.kind, current)) && NewValue(codec, rule.kind, current) != current
  {
    hide Walk, Put, Delete, InObject, StablyOrdered, CompositeKey, Keyed, Tokens;
  }

  /** A stable order that moves records has keys, moves objects, and keeps their number. */
  lemma OrderMoves(codec: Codec, keys: seq<string>, items: seq<Json>)
    requires Keyed(CompositeKey(codec.canon, keys), items)
    requires StablyOrdered(CompositeKey(codec.canon, keys), items) != items
    ensures var ordered := StablyOrdered(CompositeKey(codec.canon, keys), items);
            && keys != [] && |ordered| == |items|
            && (forall i :: 0 <= i < |items| ==> items[i].Object? && ordered[i].Object?)
  {
    var keyOf := CompositeKey(codec.canon, keys);
    var ordered := StablyOrdered(keyOf, items);
    StableOrderIsIdempotent(keyOf, items);
    StablyOrderedIsPermutation(keyOf, items);
    assert |ordered| == |multiset(ordered)| == |items|;
    if keys == [] { OneRecord(codec.canon, items); }
    hide StablyOrdered, Parts;
    assert forall i :: 0 <= i < |items| ==> keyOf(items[i]).Some? && keyOf(ordered[i]).Some?;
  }

  /** Without keys all composite keys are the same, so there is at most one record, which is in order. */
  lemma OneRecord(canon: Canon, items: seq<Json>)
    requires Keyed(CompositeKey(canon, []), items)
    ensures |items| <= 1 && StablyOrdered(CompositeKey(canon, []), items) == items
  {
    if |items| > 1 {
      NoKey(canon, items[0]);
      NoKey(canon, items[1]);
    } else {
      OrderedKeys(CompositeKey(canon, []), items);
    }
  }

  lemma NoKey(canon: Canon, record: Json)
    ensures CompositeKey(canon, [])(record).Some? ==> CompositeKey(canon, [])(record) == Some(canon(Array([])))
  {
    if record.Object? { assert Parts(record, []) == []; }
  }

  /* ---------- which rules leave each other alone ---------- */

  /** The later rule may unsettle the earlier one where their paths meet: it writes something else to the same place,
      moves the records above it, or edits a record or its order key below it. */
  predicate Disturbs(earlier: Rule, later: Rule)
  {
    var p, q := Path(earlier), Path(later);
    !Apart(p, q) &&
    if |p| == |q| then Overwrites(earlier.kind, later.kind)
    else if |q| < |p| then later.kind.StableOrder? && later.kind.keys != [] && |p| >= |q| + 2 && IsPosition(p[|q|])
    else earlier.kind.StableOrder? && EditsRecord(earlier.kind.keys, later.kind, q[|p|..])
  }

  predicate Overwrites(earlier: Kind, later: Kind)
  {
    match later
    case Replace(token) =>
      || earlier.StableOrder? || (earlier.Replace? && earlier.token != token)
      || (earlier.Timestamp? && token != TIMESTAMP_TOKEN)
    case Timestamp => earlier.Replace? && earlier.token != TIMESTAMP_TOKEN
    case StableOrder(keys) => earlier.StableOrder? && earlier.keys != keys
    case _ => false
  }

  /** At this path from the array on, the rule replaces a record, or edits an order key of one.  Without keys there is
      at most one record. */
  predicate EditsRecord(keys: seq<string>, later: Kind, rest: seq<string>)
    requires rest != []
  {
    IsPosition(rest[0]) &&
    var inKey := |rest| >= 2 && rest[1] in keys;
    match later
    case Replace(_) => (|rest| == 1 && (keys != [] || Atoi(rest[0]) == Some(0))) || inKey
    case Remove => inKey
    case Timestamp => inKey
    case StableOrder(inner) => inKey && inner != []
    case NumericTolerance => false
  }

  ghost predicate Independent(rules: seq<Rule>)
  {
    forall i, j :: 0 <= i < j < |rules| ==> !Disturbs(rules[i], rules[j])
  }

  /* ---------- edits off the order keys ---------- */

  /** One document is the other edited at the path. */
  ghost predicate Edited(before: Json, path: seq<string>, after: Json)
  {
    && Walk(before, path).Found?
    && ((exists value :: after == Put(before, path, value)) || (InObject(before, path) && after == Delete(before, path)))
  }

  lemma EditedObject(before: Json, path: seq<string>, after: Json)
    requires path != [] && before.Object? && Edited(before, path, after)
    ensures after.Object? && path[0] in before.fields
    ensures forall key :: key != path[0] ==> (key in after.fields <==> key in before.fields)
    ensures forall key :: key != path[0] && key in before.fields ==> after.fields[key] == before.fields[key]
  {
    FoundFirst(before, path);
    if |path| > 1 && InObject(before, path) { InObjectRest(before, path); }
  }

  lemma EditedArray(before: Json, path: seq<string>, after: Json) returns (i: nat)
    requires |path| >= 2 && before.Array? && Edited(before, path, after)
    ensures after.Array? && i < |before.items| && |after.items| == |before.items|
    ensures forall j :: 0 <= j < |before.items| && j != i ==> after.items[j] == before.items[j]
    ensures Edited(before.items[i], path[1..], after.items[i])
  {
    FoundFirst(before, path);
    i := Atoi(path[0]).value;
    if value :| after == Put(before, path, value) {
      assert after.items[i] == Put(before.items[i], path[1..], value);
    } else {
      InObjectRest(before, path);
      assert after.items[i] == Delete(before.items[i], path[1..]);
    }
  }

  lemma EditedKey(codec: Codec, keys: seq<string>, before: Json, path: seq<string>, after: Json)
    requires path != [] && Edited(before, path, after) && path[0] !in keys
    requires CompositeKey(codec.canon, keys)(before).Some?
    ensures CompositeKey(codec.canon, keys)(after) == CompositeKey(codec.canon, keys)(before)
  {
    hide Edited;
    EditedObject(before, path, after);
    assert forall i :: 0 <= i < |keys| ==> keys[i] in keys && keys[i] in before.fields;
    assert Parts(after, keys) == Parts(before, keys);
  }

  /** Records whose keys are unchanged stay in order. */
  lemma SameKeysStayOrdered(keyOf: KeyOf, before: seq<Json>, after: seq<Json>)
    requires Keyed(keyOf, before) && StablyOrdered(keyOf, before) == before
    requires |after| == |before| && forall i :: 0 <= i < |before| ==> keyOf(after[i]) == keyOf(before[i])
    ensures Keyed(keyOf, after) && StablyOrdered(keyOf, after) == after
  {
    hide IndexBy, StablyOrdered;
    OrderedKeys(keyOf, before);
    OrderedKeys(keyOf, after);
    assert KeyTexts(keyOf, after) == KeyTexts(keyOf, before);
  }

  lemma EditKeepsOrder(codec: Codec, keys: seq<string>, before: Json, path: seq<string>, after: Json)
    requires SettledAt(codec, Found(before), StableOrder(keys)) && Edited(before, path, after)
    requires |path| >= 2 && path[1] !in keys
    ensures SettledAt(codec, Found(after), StableOrder(keys))
  {
    hide Edited, StablyOrdered, CompositeKey;
    var keyOf := CompositeKey(codec.canon, keys);
    var i := EditedArray(before, path, after);
    EditedKey(codec, keys, before.items[i], path[1..], after.items[i]);
    SameKeysStayOrdered(keyOf, before.items, after.items);
  }

  /* ---------- settled rules stay settled ---------- */

  lemma DivergingStays(codec: Codec, root: Json, later: Rule, p: seq<string>)
    requires ApplyRule(codec, root, later).Ok? && ApplyRule(codec, root, later).document != root
    requires !Meet(root, p, Path(later))
    ensures Walk(ApplyRule(codec, root, later).document, p) == Walk(root, p)
  {
    hide Walk, Put, Delete, InObject, ApplyRule, Tokens, Meet, NewValue;
    EffectOf(codec, root, later);
    if later.kind.Remove? {
      DeleteDiverges(root, Path(later), p);
    } else {
      PutDiverges(root, Path(later), NewValue(codec, later.kind, Walk(root, Path(later)).value), p);
    }
  }

  /** Below an edited place there is nothing, but for what a stable order has moved there. */
  lemma EditedAbove(codec: Codec, root: Json, later: Rule, p: seq<string>)
    requires ApplyRule(codec, root, later).Ok? && ApplyRule(codec, root, later).document != root
    requires Meet(root, p, Path(later)) && |Path(later)| < |p|
    ensures var rest, next := p[|Path(later)|..], Walk(ApplyRule(codec, root, later).document, p);
            if later.kind.StableOrder? then
              && Walk(root, p) == Walk(Walk(root, Path(later)).value, rest)
              && next == Walk(NewValue(codec, later.kind, Walk(root, Path(later)).value), rest)
            else next == Missing
  {
    hide Put, Delete, InObject, ApplyRule, Tokens, Meet, StablyOrdered, CompositeKey, Keyed;
    EffectOf(codec, root, later);
    if later.kind.Remove? {
      DeleteAbove(root, Path(later), p);
    } else {
      PutAbove(root, Path(later), NewValue(codec, later.kind, Walk(root, Path(later)).value), p);
    }
  }

  lemma StaysBelow(codec: Codec, root: Json, earlier: Rule, later: Rule)
    requires SettledAt(codec, Walk(root, Path(earlier)), earlier.kind)
    requires ApplyRule(codec, root, later).Ok? && ApplyRule(codec, root, later).document != root
    requires Meet(root, Path(earlier), Path(later)) && |Path(later)| < |Path(earlier)| && !Disturbs(earlier, later)
    ensures SettledAt(codec, Walk(ApplyRule(codec, root, later).document, Path(earlier)), earlier.kind)
  {
    var p, q := Path(earlier), Path(later);
    MeetIsNotApart(root, p, q);
    EffectOf(codec, root, later);
    EditedAbove(codec, root, later, p);
    hide Put, Delete, InObject, ApplyRule, Tokens, Meet, Apart, StablyOrdered, CompositeKey, Keyed, Atoi;
    if later.kind.StableOrder? {
      var items := Walk(root, q).value.items;
      OrderMoves(codec, later.kind.keys, items);
      assert p[|q|..][0] == p[|q|];
      MovedBelow(codec, items, NewValue(codec, later.kind, Array(items)).items, p[|q|..], earlier.kind);
    }
  }

  /** Where records have moved, a settled rule on a whole record finds nothing, and one on no position nothing valid. */
  lemma MovedBelow(codec: Codec, items: seq<Json>, ordered: seq<Json>, rest: seq<string>, kind: Kind)
    requires |items| == |ordered| && forall i :: 0 <= i < |items| ==> items[i].Object? && ordered[i].Object?
    requires rest != [] && (|rest| == 1 || !IsPosition(rest[0]))
    requires SettledAt(codec, Walk(Array(items), rest), kind)
    ensures SettledAt(codec, Walk(Array(ordered), rest), kind)
  {
    hide Atoi, StablyOrdered, CompositeKey, Keyed;
    if |rest| == 1 {
      assert rest[1..] == [];
    }
  }

  lemma StaysAtPlace(codec: Codec, root: Json, earlier: Rule, later: Rule)
    requires SettledAt(codec, Walk(root, Path(earlier)), earlier.kind)
    requires ApplyRule(codec, root, later).Ok? && ApplyRule(codec, root, later).document != root
    requires Meet(root, Path(earlier), Path(later)) && |Path(later)| == |Path(earlier)| && !Disturbs(earlier, later)
    ensures SettledAt(codec, Walk(ApplyRule(codec, root, later).document, Path(earlier)), earlier.kind)
  {
    var p, q := Path(earlier), Path(later);
    MeetIsNotApart(root, p, q);
    EffectOf(codec, root, later);
    var value := NewValue(codec, later.kind, Walk(root, q).value);
    hide Put, Delete, InObject, ApplyRule, Tokens, Meet, Apart, StablyOrdered, CompositeKey, Keyed;
    PutAbove(root, q, value, p);
    assert p[|q|..] == [];
    if later.kind.Remove? { DeleteAbove(root, q, p); }
  }

  lemma StaysAbove(codec: Codec, root: Json, earlier: Rule, later: Rule)
    requires SettledAt(codec, Walk(root, Path(earlier)), earlier.kind)
    requires ApplyRule(codec, root, later).Ok? && ApplyRule(codec, root, later).document != root
    requires Meet(root, Path(earlier), Path(later)) && |Path(earlier)| < |Path(later)| && !Disturbs(earlier, later)
    ensures SettledAt(codec, Walk(ApplyRule(codec, root, later).document, Path(earlier)), earlier.kind)
  {
    var p, q := Path(earlier), Path(later);
    var rest := q[|p|..];
    MeetIsNotApart(root, p, q);
    EffectOf(codec, root, later);
    hide Put, Delete, InObject, ApplyRule, Tokens, Meet, Apart, StablyOrdered, CompositeKey, Keyed, Atoi, Edited;
    var after := EditedPlace(codec, root, later, p);
    var before := Walk(root, p).value;
    if earlier.kind.StableOrder? {
      RecordStays(codec, earlier.kind.keys, later.kind, before, rest, after);
    }
  }

  /** An edit below a place edits what is found there. */
  lemma EditedPlace(codec: Codec, root: Json, later: Rule, p: seq<string>) returns (after: Json)
    requires ApplyRule(codec, root, later).Ok? && ApplyRule(codec, root, later).document != root
    requires Meet(root, p, Path(later)) && |p| < |Path(later)|
    ensures Walk(root, p).Found? && Walk(ApplyRule(codec, root, later).document, p) == Found(after)
    ensures var rest := Path(later)[|p|..];
            && Edited(Walk(root, p).value, rest, after)
            && Walk(Walk(root, p).value, rest) == Walk(root, Path(later))
            && (later.kind.Remove? ==> InObject(Walk(root, p).value, rest))
  {
    hide Put, Delete, InObject, ApplyRule, Tokens, Meet, Walk, NewValue;
    var q := Path(later);
    EffectOf(codec, root, later);
    if later.kind.Remove? {
      DeleteBelow(root, q, p);
      after := Delete(Walk(root, p).value, q[|p|..]);
    } else {
      var value := NewValue(codec, later.kind, Walk(root, q).value);
      PutBelow(root, q, value, p);
      after := Put(Walk(root, p).value, q[|p|..], value);
    }
  }

  lemma OneToken(rest: seq<string>)
    ensures |rest| == 1 ==> rest[1..] == [] && rest[..0] == []
  {}

  lemma RecordStays(codec: Codec, keys: seq<string>, later: Kind, before: Json, rest: seq<string>, after: Json)
    requires SettledAt(codec, Found(before), StableOrder(keys)) && rest != [] && Edited(before, rest, after)
    requires Editable(codec, later, Walk(before, rest).value) && (later.Remove? ==> InObject(before, rest))
    requires later.StableOrder? ==> NewValue(codec, later, Walk(before, rest).value) != Walk(before, rest).value
    requires !EditsRecord(keys, later, rest)
    ensures SettledAt(codec, Found(after), StableOrder(keys))
  {
    FoundFirst(before, rest);
    OneToken(rest);
    if keys == [] { OneRecord(codec.canon, before.items); }
    hide StablyOrdered, Atoi, Edited;
    if |rest| > 1 {
      if later.StableOrder? { OrderMoves(codec, later.keys, Walk(before, rest).value.items); }
      assert IsPosition(rest[0]);
      hide CompositeKey, Walk, InObject;
      EditKeepsOrder(codec, keys, before, rest, after);
    }
  }

  lemma StaysSettled(codec: Codec, root: Json, earlier: Rule, later: Rule)
    requires Settled(codec, root, earlier) && ApplyRule(codec, root, later).Ok? && !Disturbs(earlier, later)
    ensures Settled(codec, ApplyRule(codec, root, later).document, earlier)
  {
    hide Walk, Tokens, Disturbs, SettledAt, Put, Delete, InObject, IsKeyed, StablyOrdered, CompositeKey, Apart, Meet, ApplyRule;
    var next := ApplyRule(codec, root, later).document;
    if next != root {
      SettledMeans(codec, root, earlier);
      SettledMeans(codec, next, earlier);
      if !Meet(root, Path(earlier), Path(later)) {
        DivergingStays(codec, root, later, Path(earlier));
      } else if |Path(later)| < |Path(earlier)| {
        StaysBelow(codec, root, earlier, later);
      } else if |Path(later)| == |Path(earlier)| {
        StaysAtPlace(codec, root, earlier, later);
      } else {
        StaysAbove(codec, root, earlier, later);
      }
    }
  }

  /* ---------- normalizing twice ---------- */

  ghost predicate AllSettled(codec: Codec, root: Json, rules: seq<Rule>)
  {
    forall r :: r in rules ==> Settled(codec, root, r)
  }

  /** Rules that are done stay done while the remaining, independent rules are applied. */
  lemma {:induction false} AllStaySettled(codec: Codec, root: Json, finished: seq<Rule>, rules: seq<Rule>)
    requires ApplyAll(codec, root, rules).Done? && AllSettled(codec, root, finished)
    requires forall r, later :: r in finished && later in rules ==> !Disturbs(r, later)
    requires Independent(rules)
    ensures AllSettled(codec, ApplyAll(codec, root, rules).document, finished + rules)
    decreases |rules|
  {
    hide Settled, Disturbs, ApplyRule;
    if rules == [] {
      assert finished + rules == finished;
    } else {
      var first, next := rules[0], ApplyRule(codec, root, rules[0]).document;
      assert rules == [first] + rules[1..];
      forall r | r in finished + [first]
        ensures Settled(codec, next, r)
      {
        if r in finished {
          StaysSettled(codec, root, r, first);
        } else {
          AppliedIsSettled(codec, root, first);
        }
      }
      TailIsIndependent(rules);
      AllStaySettled(codec, next, finished + [first], rules[1..]);
      assert finished + [first] + rules[1..] == finished + rules;
    }
  }

  lemma TailIsIndependent(rules: seq<Rule>)
    requires rules != [] && Independent(rules)
    ensures Independent(rules[1..]) && forall later :: later in rules[1..] ==> !Disturbs(rules[0], later)
  {
    hide Disturbs;
    assert forall i :: 0 <= i < |rules[1..]| ==> rules[1..][i] == rules[i + 1];
  }

  function Nothing(n: nat): seq<bool> { seq(n, i => false) }

  lemma {:induction false} SettledRulesDoNothing(codec: Codec, root: Json, rules: seq<Rule>)
    requires AllSettled(codec, root, rules)
    ensures ApplyAll(codec, root, rules) == Done(root, Nothing(|rules|))
    decreases |rules|
  {
    hide ApplyRule;
    if rules != [] {
      assert Settled(codec, root, rules[0]);
      SettledRulesDoNothing(codec, root, rules[1..]);
      assert [false] + Nothing(|rules| - 1) == Nothing(|rules|);
    }
  }

  /** Independent rules normalize idempotently: a second pass succeeds and no rule has an effect. */
  lemma IndependentRulesAreIdempotent(codec: Codec, root: Json, rules: seq<Rule>)
    requires Independent(Arranged(rules)) && NormalizeWith(codec, root, rules).Done?
    ensures var once := NormalizeWith(codec, root, rules).document;
            NormalizeWith(codec, once, rules) == Done(once, Nothing(|rules|))
  {
    hide Independent, AllSettled, ApplyAll, Arranged;
    assert AllSettled(codec, root, []) by { NoRuleIsUnsettled(codec, root); }
    AllStaySettled(codec, root, [], Arranged(rules));
    assert [] + Arranged(rules) == Arranged(rules);
    SettledRulesDoNothing(codec, NormalizeWith(codec, root, rules).document, Arranged(rules));
    ArrangedSize(rules);
  }

  lemma NoRuleIsUnsettled(codec: Codec, root: Json)
    ensures AllSettled(codec, root, [])
  {}

  lemma {:induction false} ArrangedSize(rules: seq<Rule>)
    ensures |Arranged(rules)| == |rules|
  {
    if rules != [] { ArrangedSize(rules[1..]); }
  }

  lemma ArrangedOne(rule: Rule)
    ensures Orders([rule]) == if rule.kind.StableOrder? then [rule] else []
    ensures Edits([rule]) == if rule.kind.StableOrder? then [] else [rule]
    ensures Arranged([rule]) == [rule]
  {
    assert [rule][1..] == [];
    assert Orders([]) == [] && Edits([]) == [];
  }

  lemma ArrangedPair(order: Rule, edit: Rule)
    requires order.kind.StableOrder? && !edit.kind.StableOrder?
    ensures Arranged([order, edit]) == [order, edit]
  {
    ArrangedOne(edit);
    assert [order, edit][1..] == [edit];
  }

  /* ---------- a counterexample ---------- */

  function Row(): Json { Object(map["id" := Text("a")]) }

  /** Order the records by id, then remove the id of the first one, at /0/id. */
  function RemovesOrderKey(): seq<Rule>
  {
    [Rule("", StableOrder(["id"])), Rule(Render([Itoa(0), "id"]), Remove)]
  }

  lemma RowIsOrdered(codec: Codec, order: Rule)
    requires order == Rule("", StableOrder(["id"]))
    ensures ApplyRule(codec, Array([Row()]), order) == Ok(Array([Row()]), false)
    ensures ApplyRule(codec, Array([Object(map[])]), order) == Error
  {
    hide StablyOrdered;
    var keyOf := CompositeKey(codec.canon, ["id"]);
    assert ["id"][0] !in Object(map[]).fields;
    assert keyOf(Row()).Some? && keyOf(Object(map[])).None?;
    assert Keyed(keyOf, [Row()]) && !Keyed(keyOf, [Object(map[])]) by { assert [Object(map[])][0] == Object(map[]); }
    OrderedKeys(keyOf, [Row()]);
    assert Walk(Array([Row()]), []) == Found(Array([Row()]));
  }

  lemma IdIsRemoved(codec: Codec, remove: Rule)
    requires remove == Rule(Render([Itoa(0), "id"]), Remove)
    ensures ApplyRule(codec, Array([Row()]), remove) == Ok(Array([Object(map[])]), true)
  {
    hide Itoa, Atoi, Render, Tokens;
    var path, rows := [Itoa(0), "id"], Array([Row()]);
    PointerRoundTrip(path);
    PositionRoundTrip(0);
    assert path[1..] == ["id"] && path[..1] == [Itoa(0)] && path[..1][1..] == [] && ["id"][1..] == [];
    assert Walk(Row(), ["id"]) == Found(Text("a"));
    assert Walk(rows, path) == Found(Text("a"));
    assert Walk(rows, path[..1]) == Found(Row());
    assert InObject(rows, path);
    InObjectRest(rows, path);
    assert ["id"][..0] == [];
    assert Delete(Row(), ["id"]) == Object(map[]);
    assert [Row()][0 := Object(map[])] == [Object(map[])];
  }

  /** Removing an order key: the first pass succeeds, and the second finds a record without its key.  So
      normalization is not idempotent for all rules that are accepted, whatever the canonical encoding. */
  lemma RemovedOrderKeyIsNotIdempotent(codec: Codec)
    ensures NormalizeWith(codec, Array([Row()]), RemovesOrderKey()) == Done(Array([Object(map[])]), [false, true])
    ensures NormalizeWith(codec, Array([Object(map[])]), RemovesOrderKey()) == Rejected
  {
    hide ApplyRule, Row, Arranged;
    var order, remove := RemovesOrderKey()[0], RemovesOrderKey()[1];
    assert RemovesOrderKey() == [order, remove] && [order, remove][1..] == [remove] && [remove][1..] == [];
    ArrangedPair(order, remove);
    RowIsOrdered(codec, order);
    IdIsRemoved(codec, remove);
  }
}
