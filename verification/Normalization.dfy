/** The declared normalization rules, and when applying them twice changes nothing. */
module Normalization {
  import opened Documents
  import opened KeyedRecords
  import opened Pointers
  import opened Records

  datatype Kind = Remove | Replace(token: string) | Timestamp | StableOrder(keys: seq<string>) | NumericTolerance

  datatype Rule = Rule(pointer: string, kind: Kind)

  const TIMESTAMP_TOKEN := "<chronicle-timestamp>"

  /** The canonical text of a document, and which strings are timestamps. */
  datatype Codec = Codec(canon: Canon, isTime: string -> bool)

  datatype Applied = Ok(document: Json, affected: bool) | Error

  function Path(rule: Rule): seq<string> { Tokens(rule.pointer) }

  function ApplyRule(codec: Codec, root: Json, rule: Rule): Applied
  {
    match Walk(root, Path(rule))
    case Invalid(_) => Error
    case Missing => Ok(root, false)
    case Found(current) =>
      match rule.kind
      case Remove => if !InObject(root, Path(rule)) then Error else Ok(Delete(root, Path(rule)), true)
      case Replace(token) =>
        if current == Text(token) then Ok(root, false) else Ok(Put(root, Path(rule), Text(token)), true)
      case Timestamp =>
        if current == Text(TIMESTAMP_TOKEN) then Ok(root, false)
        else if !current.Text? || !codec.isTime(current.text) then Error
        else Ok(Put(root, Path(rule), Text(TIMESTAMP_TOKEN)), true)
      case StableOrder(keys) => ApplyStableOrder(codec, root, Path(rule), current, keys)
      case NumericTolerance => Ok(root, false)
  }

  function ApplyStableOrder(codec: Codec, root: Json, path: seq<string>, current: Json, keys: seq<string>): Applied
    requires Walk(root, path) == Found(current)
  {
    if !current.Array? || !IsKeyed(CompositeKey(codec.canon, keys), current.items) then Error
    else
      var ordered := StablyOrdered(CompositeKey(codec.canon, keys), current.items);
      if ordered == current.items then Ok(root, false) else Ok(Put(root, path, Array(ordered)), true)
  }

  predicate IsKeyed(keyOf: KeyOf, items: seq<Json>)
    ensures IsKeyed(keyOf, items) <==> Keyed(keyOf, items)
  {
    && (forall i :: 0 <= i < |items| ==> keyOf(items[i]).Some?)
    && forall i, j :: 0 <= i < j < |items| ==> keyOf(items[i]) != keyOf(items[j])
  }

  datatype Normalized = Done(document: Json, audit: seq<bool>) | Rejected

  /** The rules applied one after the other, with whether each had an effect. */
  function ApplyAll(codec: Codec, root: Json, rules: seq<Rule>): Normalized
    decreases |rules|
  {
    if rules == [] then Done(root, [])
    else
      match ApplyRule(codec, root, rules[0])
      case Error => Rejected
      case Ok(next, affected) =>
        match ApplyAll(codec, next, rules[1..])
        case Rejected => Rejected
        case Done(document, audit) => Done(document, [affected] + audit)
  }

  function Orders(rules: seq<Rule>): seq<Rule>
  {
    if rules == [] then [] else (if rules[0].kind.StableOrder? then [rules[0]] else []) + Orders(rules[1..])
  }

  function Edits(rules: seq<Rule>): seq<Rule>
  {
    if rules == [] then [] else (if rules[0].kind.StableOrder? then [] else [rules[0]]) + Edits(rules[1..])
  }

  /** The stable orders first, and otherwise as declared. */
  function Arranged(rules: seq<Rule>): seq<Rule> { Orders(rules) + Edits(rules) }

  function NormalizeWith(codec: Codec, root: Json, rules: seq<Rule>): Normalized { ApplyAll(codec, root, Arranged(rules)) }

  /** The outcome with the audit of the rules applied before. */
  ghost function After(applied: seq<bool>, rest: Normalized): Normalized
  {
    if rest.Rejected? then Rejected else Done(rest.document, applied + rest.audit)
  }

  lemma ApplyNext(codec: Codec, root: Json, rules: seq<Rule>, applied: seq<bool>)
    requires rules != []
    ensures After(applied, ApplyAll(codec, root, rules)) ==
            if ApplyRule(codec, root, rules[0]).Error? then Rejected
            else After(applied + [ApplyRule(codec, root, rules[0]).affected],
                       ApplyAll(codec, ApplyRule(codec, root, rules[0]).document, rules[1..]))
  {
    hide ApplyRule;
    if ApplyRule(codec, root, rules[0]).Ok? {
      var rest := ApplyAll(codec, ApplyRule(codec, root, rules[0]).document, rules[1..]);
      var affected := ApplyRule(codec, root, rules[0]).affected;
      assert rest.Done? ==> applied + ([affected] + rest.audit) == applied + [affected] + rest.audit;
    }
  }

  method Normalize(codec: Codec, root: Json, rules: seq<Rule>) returns (r: Normalized)
    ensures r == NormalizeWith(codec, root, rules)
  {
    hide ApplyRule, Arranged, ApplyAll;
    var ordered := Arranged(rules);
    var normalized, applied: seq<bool> := root, [];
    assert ApplyAll(codec, root, ordered) == After([], ApplyAll(codec, root, ordered[0..])) by { assert ordered[0..] == ordered; }
    for i := 0 to |ordered|
      invariant ApplyAll(codec, root, ordered) == After(applied, ApplyAll(codec, normalized, ordered[i..]))
    {
      assert ordered[i..][0] == ordered[i] && ordered[i..][1..] == ordered[i + 1..];
      ApplyNext(codec, normalized, ordered[i..], applied);
      var step := ApplyRule(codec, normalized, ordered[i]);
      if step.Error? {
        return Rejected;
      }
      normalized, applied := step.document, applied + [step.affected];
    }
    NoRulesLeft(codec, normalized);
    r := Done(normalized, applied);
  }

  lemma NoRulesLeft(codec: Codec, root: Json)
    ensures ApplyAll(codec, root, []) == Done(root, [])
  {}

  /* ---------- one rule ---------- */

  /** The rule has nothing left to do. */
  ghost predicate Settled(codec: Codec, root: Json, rule: Rule)
  {
    ApplyRule(codec, root, rule) == Ok(root, false)
  }

  lemma OrderedIsSettled(codec: Codec, root: Json, rule: Rule, items: seq<Json>)
    requires rule.kind.StableOrder? && Walk(root, Path(rule)) == Found(Array(items))
    requires Keyed(CompositeKey(codec.canon, rule.kind.keys), items)
    requires StablyOrdered(CompositeKey(codec.canon, rule.kind.keys), items) == items
    ensures Settled(codec, root, rule)
  {
    hide Walk, Keyed, StablyOrdered, CompositeKey;
  }

  /** Every rule by itself is idempotent: once applied it has nothing left to do. */
  lemma AppliedIsSettled(codec: Codec, root: Json, rule: Rule)
    requires ApplyRule(codec, root, rule).Ok?
    ensures Settled(codec, ApplyRule(codec, root, rule).document, rule)
  {
    hide Walk, Put, Delete, InObject, StablyOrdered, CompositeKey, Keyed, Tokens;
    var path := Path(rule);
    if Walk(root, path).Found? && ApplyRule(codec, root, rule).affected {
      var current := Walk(root, path).value;
      match rule.kind
      case Remove => WalkDelete(root, path);
      case Replace(token) => WalkPut(root, path, Text(token));
      case Timestamp => WalkPut(root, path, Text(TIMESTAMP_TOKEN));
      case StableOrder(keys) =>
        var keyOf := CompositeKey(codec.canon, keys);
        var ordered := StablyOrdered(keyOf, current.items);
        WalkPut(root, path, Array(ordered));
        StableOrderIsIdempotent(keyOf, current.items);
        OrderedIsSettled(codec, Put(root, path, Array(ordered)), rule, ordered);
      case NumericTolerance =>
    }
  }
}
