/** What one reduction step keeps and what it makes smaller. */
module ReductionMeasure {
  import opened Cardinality
  import opened Proposals
  import opened Reduction
  import opened Scenario
  import opened StepGraph

  ghost function FieldSet(s: Spec): (fields: set<(string, string)>)
    ensures forall event, key :: (event, key) in fields <==> HasField(s, event, key)
  {
    set event, key | event in s.events && key in s.events[event] :: (event, key)
  }

  /** The fields holding a nonempty string. */
  ghost function TextSet(s: Spec): (fields: set<(string, string)>)
    ensures forall event, key :: (event, key) in fields <==>
              HasField(s, event, key) && s.events[event][key].Text? && s.events[event][key].text != ""
  {
    set event, key |
      event in s.events && key in s.events[event] && s.events[event][key].Text? && s.events[event][key].text != "" :: (event, key)
  }

  ghost predicate HasNumber(s: Spec)
  {
    exists event, key :: HasField(s, event, key) && s.events[event][key].Number?
  }

  /** Fewer steps, or as many steps and fewer fields, or as many of both and fewer nonempty strings. */
  ghost predicate Smaller(a: Spec, b: Spec)
  {
    || |a.steps| < |b.steps|
    || (|a.steps| == |b.steps| && |FieldSet(a)| < |FieldSet(b)|)
    || (|a.steps| == |b.steps| && |FieldSet(a)| == |FieldSet(b)| && |TextSet(a)| < |TextSet(b)|)
  }

  ghost predicate SameSize(a: Spec, b: Spec)
  {
    |a.steps| == |b.steps| && |FieldSet(a)| == |FieldSet(b)| && |TextSet(a)| == |TextSet(b)|
  }

  lemma WithoutShrinks(s: Spec, seeds: set<string>, i: nat)
    requires i < |s.steps| && s.steps[i].id in seeds
    ensures |Without(s, seeds).steps| < |s.steps|
  {
    hide Doomed, SurvivorsOf;
    assert s.steps[i] in s.steps;
    SurvivorsShrink(s.steps, s.steps, seeds);
  }

  lemma DropShrinks(s: Spec, event: string, key: string)
    requires HasField(s, event, key)
    ensures Smaller(DropField(s, event, key), s)
  {
    var t := DropField(s, event, key);
    assert FieldSet(t) == FieldSet(s) - {(event, key)};
  }

  lemma PutKeepsFields(s: Spec, event: string, key: string, value: Value)
    requires HasField(s, event, key)
    ensures FieldSet(PutField(s, event, key, value)) == FieldSet(s)
    ensures TextSet(PutField(s, event, key, value)) ==
            if value.Text? && value.text != "" then TextSet(s) + {(event, key)} else TextSet(s) - {(event, key)}
  {}

  /** Every proposal is smaller, except a numeric replacement, which leaves the size as it is. */
  lemma ProposalShrinks(s: Spec, p: Proposal)
    requires IsProposal(s, p)
    ensures if p.transform.SetField? && p.transform.value.Number? then SameSize(p.scenario, s) && HasNumber(s)
            else Smaller(p.scenario, s)
  {
    hide Without, FieldSet, TextSet, DropField, PutField;
    match p.transform
    case RemoveStep(id) =>
      var i :| 0 <= i < |s.steps| && s.steps[i].optional && s.steps[i].id == id;
      WithoutShrinks(s, {id}, i);
    case RemoveChunk(_, _) =>
      var start, end :| IsRun(s.steps, start, end) && p == ChunkProposal(s, start, end);
      WithoutShrinks(s, IdsBetween(s.steps, start, end), start);
    case RemoveFault(id) =>
      var i :| 0 <= i < |s.steps| && s.steps[i].optional && s.steps[i].id == id;
      WithoutShrinks(s, {id}, i);
    case RemoveField(event, key) => DropShrinks(s, event, key);
    case SetField(event, key, value) => PutShrinks(s, event, key, value);
  }

  lemma PutShrinks(s: Spec, event: string, key: string, value: Value)
    requires HasField(s, event, key) && value in Boundaries(s.events[event][key])
    ensures var t := PutField(s, event, key, value);
            if value.Number? then SameSize(t, s) && HasNumber(s) else Smaller(t, s)
  {
    hide FieldSet, TextSet;
    PutKeepsFields(s, event, key, value);
    var t := PutField(s, event, key, value);
    if value.Number? {
      assert TextSet(s) - {(event, key)} == TextSet(s);
      assert s.events[event][key].Number?;
    } else {
      assert (event, key) in TextSet(s);
    }
  }

  /** No proposal brings a number into a scenario that has none. */
  lemma ProposalBringsNoNumber(s: Spec, p: Proposal)
    requires IsProposal(s, p) && !HasNumber(s)
    ensures !HasNumber(p.scenario)
  {
    hide SurvivorsOf, Published;
    forall event, key | HasField(p.scenario, event, key)
      ensures HasField(s, event, key) && !p.scenario.events[event][key].Number?
    {
      assert HasField(s, event, key);
      assert !s.events[event][key].Number?;
      match p.transform
      case RemoveChunk(_, _) =>
        var start, end :| IsRun(s.steps, start, end) && p == ChunkProposal(s, start, end);
      case SetField(e, k, v) =>
        assert HasField(s, e, k) && !s.events[e][k].Number?;
      case _ =>
    }
  }

  /* ---------- the steps ---------- */

  /** The steps of a proposal: all of them, or those that the closure of some optional steps leaves. */
  lemma ProposalSteps(s: Spec, p: Proposal) returns (seeds: set<string>)
    requires IsProposal(s, p)
    ensures p.scenario.steps == s.steps || p.scenario.steps == SurvivorsOf(s.steps, s.steps, seeds)
    ensures forall id :: id in seeds ==> exists i :: 0 <= i < |s.steps| && s.steps[i].optional && s.steps[i].id == id
  {
    hide SurvivorsOf, Published;
    seeds := {};
    match p.transform
    case RemoveStep(id) => seeds := {id};
    case RemoveChunk(_, _) =>
      var start, end :| IsRun(s.steps, start, end) && p == ChunkProposal(s, start, end);
      seeds := IdsBetween(s.steps, start, end);
    case RemoveFault(id) => seeds := {id};
    case RemoveField(_, _) =>
    case SetField(_, _, _) =>
  }

  ghost predicate WellFormed(s: Spec)
  {
    Closed(DependencyGraph(s.steps)) && Acyclic(DependencyGraph(s.steps))
  }

  /** A step that is not optional and depends on no optional step. */
  ghost predicate Needed(steps: seq<Step>, x: Step)
  {
    x in steps && forall i :: 0 <= i < |steps| && steps[i].optional ==>
      steps[i].id != x.id && !Ancestor(DependencyGraph(steps), steps[i].id, x.id)
  }

  lemma ProposalIsWellFormed(s: Spec, p: Proposal)
    requires IsProposal(s, p) && WellFormed(s)
    ensures WellFormed(p.scenario)
  {
    hide IsProposal, Closed, Acyclic, DependencyGraph, SurvivorsOf;
    var seeds := ProposalSteps(s, p);
    SurvivorsAreWellFormed(s.steps, seeds);
  }

  /** No proposal removes a needed step. */
  lemma NeededSurvives(s: Spec, p: Proposal, x: Step)
    requires IsProposal(s, p) && Needed(s.steps, x)
    ensures Needed(p.scenario.steps, x)
  {
    hide IsProposal, DependencyGraph, SurvivorsOf, Ancestor;
    var seeds := ProposalSteps(s, p);
    var kept := p.scenario.steps;
    if kept != s.steps {
      SurvivorsMember(s.steps, s.steps, seeds, x);
      forall i | 0 <= i < |kept| && kept[i].optional
        ensures kept[i].id != x.id && !Ancestor(DependencyGraph(kept), kept[i].id, x.id)
      {
        SurvivorsMember(s.steps, s.steps, seeds, kept[i]);
        var j :| 0 <= j < |s.steps| && s.steps[j] == kept[i];
        if Ancestor(DependencyGraph(kept), kept[i].id, x.id) {
          SurvivorAncestor(s.steps, seeds, kept[i].id, x.id);
        }
      }
    }
  }

  /** The kept steps are authored steps in their authored order. */
  lemma ProposalKeepsOrder(s: Spec, p: Proposal) returns (picks: seq<nat>)
    requires IsProposal(s, p)
    ensures PicksFrom(picks, p.scenario.steps, s.steps)
  {
    hide IsProposal, SurvivorsOf;
    var seeds := ProposalSteps(s, p);
    if p.scenario.steps == s.steps {
      picks := seq(|s.steps|, i => i);
    } else {
      picks := SurvivorsKeepOrder(s.steps, s.steps, seeds);
    }
  }
}
