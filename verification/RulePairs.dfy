/** Two rules: exactly which pairs normalize to a document that a second pass changes or rejects. */
module RulePairs {
  import opened Documents
  import opened KeyedRecords
  import opened Normalization
  import opened NormalizationTwice
  import opened Options
  import opened Pointers

  /** Where the first pass succeeds, the second does too and gives the same document. */
  ghost predicate Twice(codec: Codec, root: Json, rules: seq<Rule>)
  {
    var once := NormalizeWith(codec, root, rules);
    once.Done? ==>
      var twice := NormalizeWith(codec, once.document, rules);
      twice.Done? && twice.document == once.document
  }

  ghost predicate AlwaysIdempotent(codec: Codec, rules: seq<Rule>)
  {
    forall root :: Twice(codec, root, rules)
  }

  /** The rules are in the order in which they are applied: a stable order comes first. */
  predicate InOrder(first: Rule, second: Rule) { second.kind.StableOrder? ==> first.kind.StableOrder? }

  /** Where the paths meet, the second rule leaves what the first rejects: something that is no array or no timestamp at
      its place, another record under its path, or records that are none or share a key. */
  predicate Conflict(codec: Codec, first: Rule, second: Rule)
  {
    var p, q := Path(first), Path(second);
    !Apart(p, q) &&
    if |p| == |q| then Spoils(codec, first.kind, second.kind)
    else if |q| < |p| then
      first.kind.StableOrder? && second.kind.StableOrder? && second.kind.keys != [] && |p| >= |q| + 2 && IsPosition(p[|q|])
    else first.kind.StableOrder? && EditsRecord(first.kind.keys, second.kind, q[|p|..])
  }

  predicate Spoils(codec: Codec, first: Kind, second: Kind)
  {
    second.Replace?
    && (first.StableOrder? || (first.Timestamp? && second.token != TIMESTAMP_TOKEN && !codec.isTime(second.token)))
  }

  /** The same for a pair as authored. */
  predicate Conflicting(codec: Codec, a: Rule, b: Rule)
  {
    if InOrder(a, b) then Conflict(codec, a, b) else Conflict(codec, b, a)
  }

  /* ---------- both passes ---------- */

  lemma ArrangedTwo(a: Rule, b: Rule)
    ensures Arranged([a, b]) == if InOrder(a, b) then [a, b] else [b, a]
  {
    assert [a, b][1..] == [b] && [b][1..] == [];
    assert Orders([]) == [] && Edits([]) == [];
    assert Orders([b]) == (if b.kind.StableOrder? then [b] else []) && Edits([b]) == (if b.kind.StableOrder? then [] else [b]);
  }

  lemma PassesOf(codec: Codec, root: Json, a: Rule, b: Rule)
    requires InOrder(a, b)
    ensures NormalizeWith(codec, root, [a, b]) ==
            match ApplyRule(codec, root, a)
            case Error => Rejected
            case Ok(between, first) =>
              match ApplyRule(codec, between, b)
              case Error => Rejected
              case Ok(next, second) => Done(next, [first, second])
  {
    hide ApplyRule, Arranged;
    ArrangedTwo(a, b);
    assert [a, b][1..] == [b];
    if ApplyRule(codec, root, a).Ok? {
      LastRule(codec, ApplyRule(codec, root, a).document, b);
    }
  }

  lemma LastRule(codec: Codec, root: Json, rule: Rule)
    ensures ApplyAll(codec, root, [rule]) ==
            match ApplyRule(codec, root, rule)
            case Error => Rejected
            case Ok(next, affected) => Done(next, [affected])
  {
    hide ApplyRule;
    assert [rule][1..] == [];
    if ApplyRule(codec, root, rule).Ok? {
      NoRulesLeft(codec, ApplyRule(codec, root, rule).document);
    }
  }

  /** The order in which two rules are authored does not matter where only one is a stable order. */
  lemma AuthoredEitherWay(codec: Codec, a: Rule, b: Rule)
    requires !InOrder(a, b)
    ensures AlwaysIdempotent(codec, [a, b]) <==> AlwaysIdempotent(codec, [b, a])
  {
    hide ApplyAll, Arranged;
    ArrangedTwo(a, b);
    ArrangedTwo(b, a);
    assert forall root :: NormalizeWith(codec, root, [a, b]) == NormalizeWith(codec, root, [b, a]);
    assert forall root :: Twice(codec, root, [a, b]) <==> Twice(codec, root, [b, a]);
  }

  /* ---------- two rules at the same place ---------- */

  /** What a rule that removes nothing makes of the value at its place, if it takes it. */
  function Local(codec: Codec, kind: Kind, current: Json): Option<Json>
  {
    match kind
    case Remove => None
    case Replace(token) => Some(Text(token))
    case Timestamp =>
      if current == Text(TIMESTAMP_TOKEN) then Some(current)
      else if current.Text? && codec.isTime(current.text) then Some(Text(TIMESTAMP_TOKEN))
      else None
    case StableOrder(keys) =>
      if current.Array? && IsKeyed(CompositeKey(codec.canon, keys), current.items)
      then Some(Array(StablyOrdered(CompositeKey(codec.canon, keys), current.items)))
      else None
    case NumericTolerance => Some(current)
  }

  lemma {:induction false} PutSelf(root: Json, p: seq<string>)
    requires Walk(root, p).Found?
    ensures Put(root, p, Walk(root, p).value) == root
    decreases |p|
  {
    if p != [] {
      FoundFirst(root, p);
      if root.Object? {
        PutSelf(root.fields[p[0]], p[1..]);
        assert root.fields[p[0] := root.fields[p[0]]] == root.fields;
      } else {
        PutSelf(root.items[Atoi(p[0]).value], p[1..]);
      }
    }
  }

  lemma LocalRule(codec: Codec, root: Json, rule: Rule)
    requires Walk(root, Path(rule)).Found? && !rule.kind.Remove?
    ensures var made := Local(codec, rule.kind, Walk(root, Path(rule)).value);
            var applied := ApplyRule(codec, root, rule);
            (made.None? <==> applied.Error?) && (made.Some? ==> applied.document == Put(root, Path(rule), made.value))
  {
    PutSelf(root, Path(rule));
    hide Walk, Put, Tokens, StablyOrdered, CompositeKey, IsKeyed, Keyed;
  }

  /** Paths that meet and are equally long are two spellings of one place. */
  lemma {:induction false} SamePlace(root: Json, p: seq<string>, q: seq<string>, value: Json)
    requires Walk(root, q).Found? && Meet(root, p, q) && |p| == |q|
    ensures Walk(root, p) == Walk(root, q)
    ensures Put(root, p, value) == Put(root, q, value)
    ensures Meet(Put(root, q, value), p, q)
    decreases |p|
  {
    if p != [] {
      FoundFirst(root, q);
      if root.Object? {
        SamePlace(root.fields[q[0]], p[1..], q[1..], value);
      } else {
        SamePlace(root.items[Atoi(q[0]).value], p[1..], q[1..], value);
      }
    }
  }

  lemma {:induction false} PutTwice(root: Json, q: seq<string>, first: Json, second: Json)
    requires Walk(root, q).Found?
    ensures Walk(Put(root, q, first), q).Found?
    ensures Put(Put(root, q, first), q, second) == Put(root, q, second)
    decreases |q|
  {
    WalkPut(root, q, first);
    if q != [] {
      FoundFirst(root, q);
      if root.Object? {
        PutTwice(root.fields[q[0]], q[1..], first, second);
        var inner := Put(root.fields[q[0]], q[1..], first);
        assert root.fields[q[0] := inner][q[0] := Put(inner, q[1..], second)] == root.fields[q[0] := Put(inner, q[1..], second)];
      } else {
        PutTwice(root.items[Atoi(q[0]).value], q[1..], first, second);
      }
    }
  }

  /** Applied again to what the second rule has left, the first rule succeeds and the second restores it. */
  ghost predicate Restored(codec: Codec, first: Kind, second: Kind, settled: Json)
  {
    var left := Local(codec, second, settled);
    left.Some? ==>
      var again := Local(codec, first, left.value);
      again.Some? && Local(codec, second, again.value) == left
  }

  lemma OrdersRestore(codec: Codec, keys: seq<string>, inner: seq<string>, items: seq<Json>)
    requires Keyed(CompositeKey(codec.canon, keys), items)
    ensures Restored(codec, StableOrder(keys), StableOrder(inner), Array(items))
  {
    var keyOf, innerOf := CompositeKey(codec.canon, keys), CompositeKey(codec.canon, inner);
    hide CompositeKey, StablyOrdered, Keyed;
    if Keyed(innerOf, items) {
      var left := StablyOrdered(innerOf, items);
      StablyOrderedIsPermutation(innerOf, items);
      StableOrderIsIdempotent(innerOf, items);
      PermutedIsKeyed(keyOf, items, left);
      var again := StablyOrdered(keyOf, left);
      StablyOrderedIsPermutation(keyOf, left);
      PermutedIsKeyed(innerOf, left, again);
      StablyOrderedAgree(innerOf, again, left);
    }
  }

  /** What a settled rule has left is restored by every pair that neither removes nor spoils. */
  lemma SettledIsRestored(codec: Codec, first: Kind, second: Kind, settled: Json)
    requires SettledAt(codec, Found(settled), first) && !first.Remove? && !second.Remove? && !Spoils(codec, first, second)
    requires second.StableOrder? ==> first.StableOrder?
    ensures Restored(codec, first, second, settled)
  {
    if first.StableOrder? && second.StableOrder? {
      OrdersRestore(codec, first.keys, second.keys, settled.items);
    }
    hide CompositeKey, StablyOrdered, Keyed, IsKeyed;
  }

  lemma RemovedStays(codec: Codec, between: Json, a: Rule, b: Rule)
    requires ApplyRule(codec, between, b).Ok? && ApplyRule(codec, between, b).document != between && b.kind.Remove?
    requires Meet(between, Path(a), Path(b)) && |Path(a)| == |Path(b)|
    ensures Settled(codec, ApplyRule(codec, between, b).document, a)
  {
    EffectOf(codec, between, b);
    DeleteAbove(between, Path(b), Path(a));
    hide Walk, Delete, InObject, Tokens, Meet, NewValue;
  }

  /** The second pass at one place: the first rule overwrites what the second has left, and the second restores it. */
  lemma PlaceIsRestored(codec: Codec, between: Json, a: Rule, b: Rule)
    requires Settled(codec, between, a) && ApplyRule(codec, between, b).Ok? && ApplyRule(codec, between, b).document != between
    requires Meet(between, Path(a), Path(b)) && |Path(a)| == |Path(b)|
    requires InOrder(a, b) && !Spoils(codec, a.kind, b.kind) && !b.kind.Remove?
    ensures var once := ApplyRule(codec, between, b).document;
            var again := ApplyRule(codec, once, a);
            again.Ok? && ApplyRule(codec, again.document, b).Ok? && ApplyRule(codec, again.document, b).document == once
  {
    var q := Path(b);
    EffectOf(codec, between, b);
    SettledMeans(codec, between, a);
    var settled := Walk(between, q).value;
    SamePlace(between, Path(a), q, settled);
    hide SettledAt, Local, Spoils, Put, Walk, Meet, NewValue, Editable, ApplyRule, Tokens;
    SettledAtFound(codec, settled, a.kind);
    SettledIsRestored(codec, a.kind, b.kind, settled);
    LocalRule(codec, between, b);
    var left := Local(codec, b.kind, settled).value;
    var once := Put(between, q, left);
    WalkPut(between, q, left);
    SamePlace(between, Path(a), q, left);
    var again := Local(codec, a.kind, left).value;
    SamePlace(once, Path(a), q, again);
    LocalRule(codec, once, a);
    var third := Put(once, q, again);
    WalkPut(once, q, again);
    LocalRule(codec, third, b);
    PutTwice(once, q, again, left);
    PutSelf(once, q);
  }

  lemma SettledAtFound(codec: Codec, settled: Json, kind: Kind)
    ensures SettledAt(codec, Found(settled), kind) ==> !kind.Remove?
  {}

  lemma DisturbedSafely(codec: Codec, a: Rule, b: Rule)
    requires InOrder(a, b) && Disturbs(a, b) && !Conflict(codec, a, b)
    ensures |Path(a)| == |Path(b)| && !Spoils(codec, a.kind, b.kind)
  {
    hide EditsRecord, Apart, Tokens, IsPosition;
  }

  lemma SafePair(codec: Codec, root: Json, a: Rule, b: Rule)
    requires InOrder(a, b) && !Conflict(codec, a, b)
    ensures Twice(codec, root, [a, b])
  {
    hide ApplyRule, NormalizeWith, Disturbs, Conflict, Spoils, Meet, Tokens, SettledAt;
    PassesOf(codec, root, a, b);
    if NormalizeWith(codec, root, [a, b]).Done? {
      var between := ApplyRule(codec, root, a).document;
      var once := ApplyRule(codec, between, b).document;
      AppliedIsSettled(codec, root, a);
      AppliedIsSettled(codec, between, b);
      PassesOf(codec, once, a, b);
      if !Disturbs(a, b) {
        StaysSettled(codec, between, a, b);
      } else if once != between {
        DisturbedSafely(codec, a, b);
        if !Meet(between, Path(a), Path(b)) {
          DivergingStays(codec, between, b, Path(a));
          SettledMeans(codec, between, a);
          SettledMeans(codec, once, a);
        } else if b.kind.Remove? {
          RemovedStays(codec, between, a, b);
        } else {
          PlaceIsRestored(codec, between, a, b);
        }
      }
    }
  }
}
