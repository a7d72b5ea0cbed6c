/** The order in which reductions are offered, and what each of them changes. */
module ProposalOrder {
  import opened Keys
  import opened Proposals
  import opened Reduction
  import opened Scenario
  import opened T = Text

  /* ---------- what a proposal changes ---------- */

  /** The smaller values of a field: the empty text, and 0, 1 and -1 in that order. */
  lemma BoundariesMean(value: Value)
    ensures value.Text? ==> Boundaries(value) == if value.text == "" then [] else [Value.Text("")]
    ensures value.Number? ==>
              var zero, one, minus := Number(0.0), Number(1.0), Number(-1.0);
              Boundaries(value) == if value == zero then [one, minus] else if value == one then [zero, minus]
                                   else if value == minus then [zero, one] else [zero, one, minus]
    ensures value.Other? ==> Boundaries(value) == []
  {}

  ghost predicate SameElsewhere(before: Spec, after: Spec, event: string, key: string)
  {
    && after.steps == before.steps && after.events.Keys == before.events.Keys
    && forall name :: name in before.events && name in after.events ==>
         forall field :: (name, field) != (event, key) ==>
           && (field in after.events[name] <==> field in before.events[name])
           && (field in before.events[name] && field in after.events[name] ==>
                 after.events[name][field] == before.events[name][field])
  }

  /** A field reduction changes that field only; a fault reduction starts at an optional step that rewinds, stops, arms
      or releases. */
  lemma ProposalChanges(s: Spec, p: Proposal)
    requires IsProposal(s, p)
    ensures p.transform.RemoveField? ==>
              var event, key := p.transform.event, p.transform.key;
              && event in s.events && key in s.events[event] && event in p.scenario.events
              && key !in p.scenario.events[event] && SameElsewhere(s, p.scenario, event, key)
    ensures p.transform.SetField? ==>
              var event, key, value := p.transform.event, p.transform.key, p.transform.value;
              && event in s.events && key in s.events[event] && value != s.events[event][key]
              && event in p.scenario.events && key in p.scenario.events[event] && p.scenario.events[event][key] == value
              && SameElsewhere(s, p.scenario, event, key)
    ensures p.transform.RemoveFault? ==>
              exists i :: 0 <= i < |s.steps| && s.steps[i].id == p.transform.id && FaultStep(s.steps[i])
  {
    hide Without;
    if p.transform.SetField? { BoundariesMean(s.events[p.transform.event][p.transform.key]); }
    if p.transform.RemoveFault? {
      var i :| 0 <= i < |s.steps| && s.steps[i].optional && IsFault(s.steps[i].action) && s.steps[i].id == p.transform.id;
      assert FaultStep(s.steps[i]);
    }
  }

  predicate FaultStep(step: Step)
  {
    step.optional &&
    match step.action
    case RewindOffset(_, _, _, _, _) => true
    case Stop(_) => true
    case ArmCheckpoint(_) => true
    case ReleaseCheckpoint(_) => true
    case _ => false
  }

  /* ---------- the kinds, in their order ---------- */

  function Rank(transform: Transform): nat
  {
    match transform
    case RemoveStep(_) => 0
    case RemoveChunk(_, _) => 1
    case RemoveFault(_) => 2
    case RemoveField(_, _) => 3
    case SetField(_, _, _) => 4
  }

  ghost predicate KindsAscend(proposals: seq<Proposal>)
  {
    forall i, j :: 0 <= i < j < |proposals| ==> Rank(proposals[i].transform) <= Rank(proposals[j].transform)
  }

  ghost predicate OfKind(proposals: seq<Proposal>, rank: nat)
  {
    forall i :: 0 <= i < |proposals| ==> Rank(proposals[i].transform) == rank
  }

  lemma KindsOfParts(s: Spec)
    ensures OfKind(StepProposals(s, |s.steps|), 0) && OfKind(ChunkProposals(s, 0), 1) && OfKind(FaultProposals(s, |s.steps|), 2)
    ensures OfKind(FieldProposals(s, AllFields(s)), 3) && OfKind(BoundaryProposals(s, AllFields(s)), 4)
  {
    hide StepProposals, ChunkProposals, FaultProposals, FieldProposals, BoundaryProposals, AllFields, Without, ChunkProposal, IsRun;
    forall p
      ensures p in StepProposals(s, |s.steps|) ==> Rank(p.transform) == 0
      ensures p in ChunkProposals(s, 0) ==> Rank(p.transform) == 1
      ensures p in FaultProposals(s, |s.steps|) ==> Rank(p.transform) == 2
      ensures p in FieldProposals(s, AllFields(s)) ==> Rank(p.transform) == 3
      ensures p in BoundaryProposals(s, AllFields(s)) ==> Rank(p.transform) == 4
    {
      StepProposalsMean(s, |s.steps|, p);
      ChunkProposalsMean(s, 0, p);
      ChunkTransform(s, p);
      FaultProposalsMean(s, |s.steps|, p);
      FieldProposalsMean(s, AllFields(s), p);
      BoundaryProposalsMean(s, AllFields(s), p);
    }
  }

  lemma AllKindsAscend(s: Spec)
    ensures KindsAscend(AllProposals(s))
  {
    KindsOfParts(s);
    hide StepProposals, ChunkProposals, FaultProposals, FieldProposals, BoundaryProposals, AllFields, Rank;
    var a, b := StepProposals(s, |s.steps|), ChunkProposals(s, 0);
    var c, d, e := FaultProposals(s, |s.steps|), FieldProposals(s, AllFields(s)), BoundaryProposals(s, AllFields(s));
    AppendKind(a, b, 0);
    AppendKind(a + b, c, 1);
    AppendKind(a + b + c, d, 2);
    AppendKind(a + b + c + d, e, 3);
  }

  lemma AppendKind(before: seq<Proposal>, more: seq<Proposal>, rank: nat)
    requires KindsAscend(before) && (forall i :: 0 <= i < |before| ==> Rank(before[i].transform) <= rank) && OfKind(more, rank + 1)
    ensures KindsAscend(before + more)
    ensures forall i :: 0 <= i < |before + more| ==> Rank((before + more)[i].transform) <= rank + 1
  {}

  ghost predicate IsFirst(proposals: seq<Proposal>, i: nat)
  {
    i < |proposals| && forall j :: 0 <= j < i ==> proposals[j].scenario != proposals[i].scenario
  }

  /** The positions ascend and hold these proposals, each the first of its scenario. */
  ghost predicate PicksFirsts(picks: seq<nat>, unique: seq<Proposal>, proposals: seq<Proposal>)
  {
    && |picks| == |unique|
    && (forall k :: 0 <= k < |picks| ==> IsFirst(proposals, picks[k]) && unique[k] == proposals[picks[k]])
    && forall j, k :: 0 <= j < k < |picks| ==> picks[j] < picks[k]
  }

  lemma PicksStay(picks: seq<nat>, unique: seq<Proposal>, init: seq<Proposal>, last: Proposal)
    requires PicksFirsts(picks, unique, init)
    ensures PicksFirsts(picks, unique, init + [last])
    ensures last.scenario !in Scenarios(init) ==> PicksFirsts(picks + [|init|], unique + [last], init + [last])
  {
    var all := init + [last];
    forall k | 0 <= k < |picks|
      ensures IsFirst(all, picks[k]) && picks[k] < |init|
    {
      assert IsFirst(init, picks[k]);
    }
    if last.scenario !in Scenarios(init) {
      forall j | 0 <= j < |init|
        ensures all[j].scenario != last.scenario
      {
        assert init[j] in init && init[j].scenario in Scenarios(init);
      }
      assert IsFirst(all, |init|);
    }
  }

  lemma {:induction false} FirstsOf(proposals: seq<Proposal>) returns (picks: seq<nat>)
    ensures PicksFirsts(picks, Unique(proposals), proposals)
  {
    hide PicksFirsts, Scenarios;
    if proposals == [] {
      picks := [];
      assert PicksFirsts([], [], []) by { NothingPicked(); }
    } else {
      var init, last := proposals[..|proposals| - 1], proposals[|proposals| - 1];
      assert proposals == init + [last];
      picks := FirstsOf(init);
      PicksStay(picks, Unique(init), init, last);
      if last.scenario !in Scenarios(init) {
        picks := picks + [|init|];
      } else {
        assert Unique(proposals) == Unique(init);
      }
    }
  }

  lemma NothingPicked()
    ensures PicksFirsts([], [], [])
  {}

  /** The kinds come in their order, and a scenario is offered as the first kind that gives it. */
  lemma HierarchicalInOrder(s: Spec)
    ensures KindsAscend(Hierarchical(s))
    ensures forall p, q :: p in Hierarchical(s) && IsProposal(s, q) && q.scenario == p.scenario ==>
              Rank(p.transform) <= Rank(q.transform)
  {
    hide AllProposals, IsProposal, Unique, Rank;
    var all := AllProposals(s);
    AllKindsAscend(s);
    var picks := FirstsOf(all);
    forall p, q | p in Hierarchical(s) && IsProposal(s, q) && q.scenario == p.scenario
      ensures Rank(p.transform) <= Rank(q.transform)
    {
      AllProposalsMean(s, q);
      var k :| 0 <= k < |Unique(all)| && Unique(all)[k] == p;
      var j :| 0 <= j < |all| && all[j] == q;
      assert IsFirst(all, picks[k]);
    }
  }

  /* ---------- the order within a kind ---------- */

  /** The positions ascend and are all those that satisfy the condition. */
  ghost predicate AscendingPositions(picks: seq<nat>, n: nat, wanted: nat -> bool)
  {
    && (forall k :: 0 <= k < |picks| ==> picks[k] < n && wanted(picks[k]))
    && (forall j, k :: 0 <= j < k < |picks| ==> picks[j] < picks[k])
    && forall i :: 0 <= i < n && wanted(i) ==> i in picks
  }

  ghost function OptionalAt(s: Spec): nat -> bool { (i: nat) => i < |s.steps| && s.steps[i].optional }

  ghost function FaultAt(s: Spec): nat -> bool { (i: nat) => i < |s.steps| && FaultStep(s.steps[i]) }

  lemma {:induction false} StepsInOrder(s: Spec, n: nat) returns (picks: seq<nat>)
    requires n <= |s.steps|
    ensures AscendingPositions(picks, n, OptionalAt(s)) && |picks| == |StepProposals(s, n)|
    ensures forall k :: 0 <= k < |picks| ==>
              picks[k] < |s.steps| && StepProposals(s, n)[k].transform == RemoveStep(s.steps[picks[k]].id)
  {
    hide Without;
    picks := [];
    if n > 0 {
      picks := StepsInOrder(s, n - 1);
      if s.steps[n - 1].optional { picks := picks + [n - 1]; }
    }
  }

  lemma {:induction false} FaultsInOrder(s: Spec, n: nat) returns (picks: seq<nat>)
    requires n <= |s.steps|
    ensures AscendingPositions(picks, n, FaultAt(s)) && |picks| == |FaultProposals(s, n)|
    ensures forall k :: 0 <= k < |picks| ==>
              picks[k] < |s.steps| && FaultProposals(s, n)[k].transform == RemoveFault(s.steps[picks[k]].id)
  {
    hide Without;
    picks := [];
    if n > 0 {
      picks := FaultsInOrder(s, n - 1);
      assert FaultStep(s.steps[n - 1]) <==> s.steps[n - 1].optional && IsFault(s.steps[n - 1].action);
      if FaultStep(s.steps[n - 1]) { picks := picks + [n - 1]; }
    }
  }

  /** The chunks in the order of the steps they start at. */
  lemma {:induction false} ChunksInOrder(s: Spec, from: nat) returns (starts: seq<nat>)
    requires from <= |s.steps|
    ensures |starts| == |ChunkProposals(s, from)|
    ensures forall j, k :: 0 <= j < k < |starts| ==> starts[j] < starts[k]
    ensures forall k :: 0 <= k < |starts| ==> from <= starts[k] && StartsAt(s, starts[k], ChunkProposals(s, from)[k])
    decreases |s.steps| - from
  {
    hide ChunkProposal;
    starts := [];
    if from < |s.steps| {
      if !s.steps[from].optional {
        starts := ChunksInOrder(s, from + 1);
      } else {
        var end := RunEnd(s.steps, from);
        starts := ChunksInOrder(s, end + 1);
        if end > from {
          assert StartsAt(s, from, ChunkProposal(s, from, end)) by { ChunkStarts(s, from, end); }
          starts := [from] + starts;
        }
      }
    }
  }

  predicate StartsAt(s: Spec, start: nat, p: Proposal)
  {
    start < |s.steps| && p.transform.RemoveChunk? && p.transform.first == s.steps[start].id
  }

  lemma ChunkStarts(s: Spec, start: nat, end: nat)
    requires start <= end < |s.steps|
    ensures StartsAt(s, start, ChunkProposal(s, start, end))
  {}

  /** The fields by ascending event name and then by ascending key. */
  ghost predicate FieldsAscend(fields: seq<(string, string)>)
  {
    forall i, j :: 0 <= i < j < |fields| ==>
      fields[i] != fields[j] && Leq(fields[i].0, fields[j].0) && (fields[i].0 == fields[j].0 ==> Leq(fields[i].1, fields[j].1))
  }

  lemma FieldsOfEventAscend(s: Spec, name: string)
    requires name in s.events
    ensures FieldsAscend(FieldsOfEvent(s, name))
  {
    hide SortedKeys, Leq;
    SortedIsDistinct(s.events[name].Keys);
    SortedIsAscending(s.events[name].Keys);
    LeqReflexive(name);
  }

  lemma {:induction false} AscendingFields(s: Spec, names: seq<string>)
    requires Elements(names) <= s.events.Keys
    requires forall i, j :: 0 <= i < j < |names| ==> names[i] != names[j] && Leq(names[i], names[j])
    ensures FieldsAscend(Fields(s, names))
    ensures forall i :: 0 <= i < |Fields(s, names)| ==> Fields(s, names)[i].0 in names
  {
    hide Leq, FieldsOfEvent;
    if names != [] {
      var last := |names| - 1;
      assert names[last] in Elements(names) && Elements(names[..last]) <= Elements(names);
      AscendingFields(s, names[..last]);
      FieldsOfEventAscend(s, names[last]);
      var before, more := Fields(s, names[..last]), FieldsOfEvent(s, names[last]);
      forall i, j | 0 <= i < |before| && 0 <= j < |more|
        ensures before[i] != more[j] && Leq(before[i].0, more[j].0) && before[i].0 != more[j].0
      {
        var k :| 0 <= k < last && names[..last][k] == before[i].0;
        assert names[k] != names[last];
      }
    }
  }

  lemma AllFieldsAscend(s: Spec)
    ensures FieldsAscend(AllFields(s))
  {
    hide SortedKeys, Leq;
    SortedIsDistinct(s.events.Keys);
    SortedIsAscending(s.events.Keys);
    AscendingFields(s, SortedKeys(s.events.Keys));
  }

  /** One field proposal for each field, in their order. */
  lemma {:induction false} FieldsProposed(s: Spec, fields: seq<(string, string)>)
    requires forall i :: 0 <= i < |fields| ==> HasField(s, fields[i].0, fields[i].1)
    ensures |FieldProposals(s, fields)| == |fields|
    ensures forall i :: 0 <= i < |fields| ==> FieldProposals(s, fields)[i].transform == RemoveField(fields[i].0, fields[i].1)
  {
    hide DropField;
    if fields != [] { FieldsProposed(s, fields[..|fields| - 1]); }
  }

  /** The proposal sets the n-th boundary of the field. */
  predicate SetsBoundary(s: Spec, field: (string, string), n: nat, p: Proposal)
    requires HasField(s, field.0, field.1)
  {
    var values := Boundaries(s.events[field.0][field.1]);
    n < |values| && p.transform == SetField(field.0, field.1, values[n])
  }

  /** The boundary proposals go through the fields in order, and at each through its boundaries in order. */
  lemma {:induction false} BoundariesProposed(s: Spec, fields: seq<(string, string)>) returns (at: seq<nat>, nth: seq<nat>)
    requires forall i :: 0 <= i < |fields| ==> HasField(s, fields[i].0, fields[i].1)
    ensures |at| == |nth| == |BoundaryProposals(s, fields)|
    ensures forall k :: 0 <= k < |at| ==>
              at[k] < |fields| && SetsBoundary(s, fields[at[k]], nth[k], BoundaryProposals(s, fields)[k])
    ensures forall j, k :: 0 <= j < k < |at| ==> at[j] < at[k] || (at[j] == at[k] && nth[j] < nth[k])
  {
    hide PutField, Boundaries;
    at, nth := [], [];
    if fields != [] {
      var last := |fields| - 1;
      at, nth := BoundariesProposed(s, fields[..last]);
      var more := BoundariesAt(s, fields[last].0, fields[last].1);
      assert BoundaryProposals(s, fields) == BoundaryProposals(s, fields[..last]) + more;
      assert forall k :: 0 <= k < |more| ==> SetsBoundary(s, fields[last], k, more[k]);
      at, nth := at + seq(|more|, _ => last), nth + seq(|more|, k => k);
    }
  }
}
