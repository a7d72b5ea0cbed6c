/** What a normalization rule does to a document, and in which order the rules are applied. */
module RuleEffects {
  import opened Documents
  import opened KeyedRecords
  import opened Normalization
  import opened Pointers
  import opened Records
  import T = Text

  /** The records by ascending key, each once. */
  ghost predicate OrderedBy(keyOf: KeyOf, before: seq<Json>, after: seq<Json>)
  {
    && multiset(after) == multiset(before) && (forall i :: 0 <= i < |after| ==> keyOf(after[i]).Some?)
    && forall i, j :: 0 <= i < j < |after| && keyOf(after[i]).Some? && keyOf(after[j]).Some? ==>
         keyOf(after[i]) != keyOf(after[j]) && T.Leq(keyOf(after[i]).value, keyOf(after[j]).value)
  }

  lemma OrderedMeans(keyOf: KeyOf, items: seq<Json>)
    requires Keyed(keyOf, items)
    ensures OrderedBy(keyOf, items, StablyOrdered(keyOf, items))
  {
    hide StablyOrdered, T.Leq;
    var ordered := StablyOrdered(keyOf, items);
    StablyOrderedIsPermutation(keyOf, items);
    StableOrderIsIdempotent(keyOf, items);
    OrderedKeys(keyOf, ordered);
    forall i, j | 0 <= i < j < |ordered|
      ensures T.Leq(keyOf(ordered[i]).value, keyOf(ordered[j]).value)
    {
      assert T.Leq(KeyTexts(keyOf, ordered)[i], KeyTexts(keyOf, ordered)[j]);
    }
  }

  /** What the rule makes of the value at its place, and whether that is an effect. */
  ghost predicate RuleMakes(codec: Codec, kind: Kind, current: Json, applied: Applied, after: Resolution)
  {
    var token := "<chronicle-timestamp>";
    match kind
    case Remove => applied.Ok? ==> applied.affected && after == Missing
    case Replace(replacement) =>
      applied.Ok? && after == Found(Text(replacement)) && (applied.affected <==> current != Text(replacement))
    case Timestamp =>
      && (applied.Ok? <==> current.Text? && (current.text == token || codec.isTime(current.text)))
      && (applied.Ok? ==> after == Found(Text(token)) && (applied.affected <==> current != Text(token)))
    case StableOrder(keys) =>
      var keyOf := CompositeKey(codec.canon, keys);
      && (applied.Ok? <==> current.Array? && Keyed(keyOf, current.items))
      && (applied.Ok? ==>
            && after.Found? && after.value.Array? && OrderedBy(keyOf, current.items, after.value.items)
            && (applied.affected <==> after.value != current))
    case NumericTolerance => applied.Ok? && !applied.affected && after == Found(current)
  }

  /** A rule fails at a position that is none, does nothing where there is nothing, and otherwise changes the value at its
      place as its kind says; places that part from it stay as they are. */
  lemma RuleEffect(codec: Codec, root: Json, rule: Rule, elsewhere: seq<string>)
    ensures var applied, found := ApplyRule(codec, root, rule), Walk(root, Tokens(rule.pointer));
            && (found.Invalid? ==> applied == Error)
            && (found.Missing? ==> applied == Ok(root, false))
            && (found.Found? ==>
                  RuleMakes(codec, rule.kind, found.value, applied,
                            if applied.Ok? then Walk(applied.document, Tokens(rule.pointer)) else Missing))
            && (found.Found? && rule.kind.Remove? ==> (applied.Ok? <==> InObject(root, Tokens(rule.pointer))))
            && (applied.Ok? && !applied.affected ==> applied.document == root)
            && (applied.Ok? && Apart(elsewhere, Tokens(rule.pointer)) ==>
                  Walk(applied.document, elsewhere) == Walk(root, elsewhere))
  {
    hide Walk, Put, Delete, InObject, Tokens, StablyOrdered, CompositeKey, Keyed, OrderedBy, Apart;
    var path, applied := Tokens(rule.pointer), ApplyRule(codec, root, rule);
    if Walk(root, path).Found? && applied.Ok? {
      var current := Walk(root, path).value;
      match rule.kind
      case Remove =>
        WalkDelete(root, path);
        if Apart(elsewhere, path) { DeleteKeepsApart(root, path, elsewhere); }
      case StableOrder(keys) =>
        OrderedMeans(CompositeKey(codec.canon, keys), current.items);
        PutAndKeep(root, path, Array(StablyOrdered(CompositeKey(codec.canon, keys), current.items)), elsewhere);
      case Replace(token) => PutAndKeep(root, path, Text(token), elsewhere);
      case Timestamp => PutAndKeep(root, path, Text(TIMESTAMP_TOKEN), elsewhere);
      case NumericTolerance =>
    }
  }

  lemma PutAndKeep(root: Json, path: seq<string>, value: Json, elsewhere: seq<string>)
    requires Walk(root, path).Found?
    ensures Walk(Put(root, path, value), path) == Found(value)
    ensures Apart(elsewhere, path) ==> Walk(Put(root, path, value), elsewhere) == Walk(root, elsewhere)
  {
    WalkPut(root, path, value);
    if Apart(elsewhere, path) { PutKeepsApart(root, path, value, elsewhere); }
  }

  /* ---------- the order of the rules ---------- */

  predicate InClass(rules: seq<Rule>, i: int, ordering: bool)
  {
    0 <= i < |rules| && rules[i].kind.StableOrder? == ordering
  }

  /** The positions ascend and are exactly those of this class of rules. */
  ghost predicate PositionsOf(picks: seq<nat>, rules: seq<Rule>, ordering: bool)
  {
    && (forall k :: 0 <= k < |picks| ==> InClass(rules, picks[k], ordering))
    && (forall j, k :: 0 <= j < k < |picks| ==> picks[j] < picks[k])
    && forall i: nat :: InClass(rules, i, ordering) ==> i in picks
  }

  /** The rule, if it belongs to the class. */
  function Alone(rule: Rule, ordering: bool): seq<Rule> { if rule.kind.StableOrder? == ordering then [rule] else [] }

  lemma ClassesFirst(rule: Rule, rules: seq<Rule>)
    ensures Orders([rule] + rules) == Alone(rule, true) + Orders(rules)
    ensures Edits([rule] + rules) == Alone(rule, false) + Edits(rules)
  {
    assert ([rule] + rules)[1..] == rules;
  }

  lemma NoClasses()
    ensures Orders([]) == [] && Edits([]) == []
  {}

  lemma {:induction false} ClassesGrow(rules: seq<Rule>, last: Rule)
    ensures Orders(rules + [last]) == Orders(rules) + Alone(last, true)
    ensures Edits(rules + [last]) == Edits(rules) + Alone(last, false)
  {
    hide Orders, Edits, Alone;
    if rules == [] {
      ClassesFirst(last, []);
      NoClasses();
      assert [] + [last] == [last] + [];
    } else {
      var first, rest := rules[0], rules[1..];
      ClassesGrow(rest, last);
      ClassesFirst(first, rest);
      ClassesFirst(first, rest + [last]);
      assert rules == [first] + rest && rules + [last] == [first] + (rest + [last]);
    }
  }

  lemma NextPosition(picks: seq<nat>, rules: seq<Rule>, last: Rule, ordering: bool)
    requires PositionsOf(picks, rules, ordering)
    ensures PositionsOf(if last.kind.StableOrder? == ordering then picks + [|rules|] else picks, rules + [last], ordering)
  {
    var all := rules + [last];
    assert forall i :: InClass(all, i, ordering) <==>
                       InClass(rules, i, ordering) || (i == |rules| && last.kind.StableOrder? == ordering);
    hide InClass;
    assert forall k :: 0 <= k < |picks| ==> picks[k] < |rules| by { PicksAreInside(picks, rules, ordering); }
  }

  lemma PicksAreInside(picks: seq<nat>, rules: seq<Rule>, ordering: bool)
    requires PositionsOf(picks, rules, ordering)
    ensures forall k :: 0 <= k < |picks| ==> picks[k] < |rules|
  {}

  lemma {:induction false} ClassIs(rules: seq<Rule>, ordering: bool) returns (picks: seq<nat>)
    ensures PositionsOf(picks, rules, ordering)
    ensures var chosen := if ordering then Orders(rules) else Edits(rules);
            |picks| == |chosen| && forall k :: 0 <= k < |picks| ==> picks[k] < |rules| && chosen[k] == rules[picks[k]]
  {
    picks := [];
    NoClasses();
    hide Orders, Edits;
    if rules != [] {
      var n := |rules| - 1;
      assert rules == rules[..n] + [rules[n]];
      picks := ClassIs(rules[..n], ordering);
      ClassesGrow(rules[..n], rules[n]);
      NextPosition(picks, rules[..n], rules[n], ordering);
      hide PositionsOf;
      if rules[n].kind.StableOrder? == ordering { picks := picks + [n]; }
    }
  }

  /** All stable orders as declared, and then all other rules as declared. */
  lemma ArrangedMeans(rules: seq<Rule>) returns (orders: seq<nat>, edits: seq<nat>)
    ensures PositionsOf(orders, rules, true) && PositionsOf(edits, rules, false)
    ensures |Arranged(rules)| == |orders| + |edits|
    ensures forall k :: 0 <= k < |orders| ==> Arranged(rules)[k] == rules[orders[k]]
    ensures forall k :: 0 <= k < |edits| ==> Arranged(rules)[|orders| + k] == rules[edits[k]]
  {
    orders := ClassIs(rules, true);
    edits := ClassIs(rules, false);
    hide PositionsOf, Orders, Edits;
  }

  /* ---------- a pass over the rules ---------- */

  /** The documents between the rules, with what each rule tells of its effect. */
  ghost predicate Trace(codec: Codec, rules: seq<Rule>, documents: seq<Json>, audit: seq<bool>)
  {
    && |documents| == |audit| + 1 && |audit| <= |rules|
    && forall k :: 0 <= k < |audit| ==> ApplyRule(codec, documents[k], rules[k]) == Ok(documents[k + 1], audit[k])
  }

  /** A pass applies every rule to what the one before has left, and stops at the first that fails. */
  lemma {:induction false} PassIsTrace(codec: Codec, root: Json, rules: seq<Rule>) returns (documents: seq<Json>, audit: seq<bool>)
    ensures Trace(codec, rules, documents, audit) && documents[0] == root
    ensures match ApplyAll(codec, root, rules)
            case Done(document, audited) => audit == audited && |audit| == |rules| && document == documents[|rules|]
            case Rejected => |audit| < |rules| && ApplyRule(codec, documents[|audit|], rules[|audit|]) == Error
    decreases |rules|
  {
    hide ApplyRule;
    documents, audit := [root], [];
    if rules != [] {
      match ApplyRule(codec, root, rules[0])
      case Error =>
      case Ok(next, affected) =>
        var rest, more := PassIsTrace(codec, next, rules[1..]);
        documents, audit := [root] + rest, [affected] + more;
    }
  }
}
