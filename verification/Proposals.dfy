/** The reduction steps offered for a scenario, in the reducer's order. */
module Proposals {
  import opened Keys
  import opened Reduction
  import opened Scenario
  import opened StepGraph
  import opened Text

  datatype Transform =
    | RemoveStep(id: string)
    | RemoveChunk(first: string, last: string)
    | RemoveFault(id: string)
    | RemoveField(event: string, key: string)
    | SetField(event: string, key: string, value: Value)

  datatype Proposal = Proposal(scenario: Spec, transform: Transform)

  /* ---------- fields and boundaries ---------- */

  function Boundaries(value: Value): seq<Value>
  {
    match value
    case Text(text) => if text != "" then [Text("")] else []
    case Number(number) =>
      (if number != 0.0 then [Number(0.0)] else [])
      + (if number != 1.0 then [Number(1.0)] else [])
      + (if number != -1.0 then [Number(-1.0)] else [])
    case Other(_) => []
  }

  predicate HasField(s: Spec, event: string, key: string)
  {
    event in s.events && key in s.events[event]
  }

  function DropField(s: Spec, event: string, key: string): Spec
    requires HasField(s, event, key)
  {
    s.(events := s.events[event := s.events[event] - {key}])
  }

  function PutField(s: Spec, event: string, key: string, value: Value): Spec
    requires HasField(s, event, key)
  {
    s.(events := s.events[event := s.events[event][key := value]])
  }

  predicate IsFault(action: Action)
  {
    action.RewindOffset? || action.Stop? || action.ArmCheckpoint? || action.ReleaseCheckpoint?
  }

  /* ---------- the proposals, in order ---------- */

  ghost function StepProposals(s: Spec, n: nat): seq<Proposal>
    requires n <= |s.steps|
  {
    if n == 0 then []
    else
      var step := s.steps[n - 1];
      StepProposals(s, n - 1) + (if step.optional then [Proposal(Without(s, {step.id}), RemoveStep(step.id))] else [])
  }

  ghost function FaultProposals(s: Spec, n: nat): seq<Proposal>
    requires n <= |s.steps|
  {
    if n == 0 then []
    else
      var step := s.steps[n - 1];
      FaultProposals(s, n - 1)
      + (if step.optional && IsFault(step.action) then [Proposal(Without(s, {step.id}), RemoveFault(step.id))] else [])
  }

  /** The last step of the run of optional steps that starts here. */
  function RunEnd(steps: seq<Step>, start: nat): (end: nat)
    requires start < |steps| && steps[start].optional
    ensures start <= end < |steps| && forall i :: start <= i <= end ==> steps[i].optional
    ensures end + 1 < |steps| ==> !steps[end + 1].optional
    decreases |steps| - start
  {
    if start + 1 < |steps| && steps[start + 1].optional then RunEnd(steps, start + 1) else start
  }

  function IdsBetween(steps: seq<Step>, start: nat, end: nat): set<string>
    requires start <= end < |steps|
  {
    set i | start <= i <= end :: steps[i].id
  }

  ghost function ChunkProposals(s: Spec, start: nat): seq<Proposal>
    decreases |s.steps| - start
  {
    if start >= |s.steps| then []
    else if !s.steps[start].optional then ChunkProposals(s, start + 1)
    else
      var end := RunEnd(s.steps, start);
      (if end > start then [ChunkProposal(s, start, end)] else []) + ChunkProposals(s, end + 1)
  }

  ghost function ChunkProposal(s: Spec, start: nat, end: nat): Proposal
    requires start <= end < |s.steps|
  {
    Proposal(Without(s, IdsBetween(s.steps, start, end)), RemoveChunk(s.steps[start].id, s.steps[end].id))
  }

  /** The fields of the events, by sorted event name and then by sorted key. */
  ghost function Fields(s: Spec, names: seq<string>): (fields: seq<(string, string)>)
    requires Elements(names) <= s.events.Keys
    ensures forall i :: 0 <= i < |fields| ==> HasField(s, fields[i].0, fields[i].1)
  {
    if names == [] then []
    else
      var last := names[|names| - 1];
      assert last in Elements(names);
      assert Elements(names[..|names| - 1]) <= Elements(names);
      Fields(s, names[..|names| - 1]) + FieldsOfEvent(s, last)
  }

  ghost function FieldsOfEvent(s: Spec, name: string): (fields: seq<(string, string)>)
    requires name in s.events
    ensures forall i :: 0 <= i < |fields| ==> fields[i].0 == name && HasField(s, name, fields[i].1)
  {
    var keys := SortedKeys(s.events[name].Keys);
    assert forall i :: 0 <= i < |keys| ==> keys[i] in Elements(keys);
    seq(|keys|, i requires 0 <= i < |keys| => (name, keys[i]))
  }

  ghost function AllFields(s: Spec): (fields: seq<(string, string)>)
    ensures forall i :: 0 <= i < |fields| ==> HasField(s, fields[i].0, fields[i].1)
  {
    Fields(s, SortedKeys(s.events.Keys))
  }

  ghost function FieldProposals(s: Spec, fields: seq<(string, string)>): seq<Proposal>
    requires forall i :: 0 <= i < |fields| ==> HasField(s, fields[i].0, fields[i].1)
  {
    if fields == [] then []
    else
      var (event, key) := fields[|fields| - 1];
      FieldProposals(s, fields[..|fields| - 1]) + [Proposal(DropField(s, event, key), RemoveField(event, key))]
  }

  ghost function BoundaryProposals(s: Spec, fields: seq<(string, string)>): seq<Proposal>
    requires forall i :: 0 <= i < |fields| ==> HasField(s, fields[i].0, fields[i].1)
  {
    if fields == [] then []
    else
      var (event, key) := fields[|fields| - 1];
      BoundaryProposals(s, fields[..|fields| - 1]) + BoundariesAt(s, event, key)
  }

  function BoundariesAt(s: Spec, event: string, key: string): seq<Proposal>
    requires HasField(s, event, key)
  {
    var values := Boundaries(s.events[event][key]);
    seq(|values|, i requires 0 <= i < |values| => Proposal(PutField(s, event, key, values[i]), SetField(event, key, values[i])))
  }

  ghost function AllProposals(s: Spec): seq<Proposal>
  {
    StepProposals(s, |s.steps|) + ChunkProposals(s, 0) + FaultProposals(s, |s.steps|)
    + FieldProposals(s, AllFields(s)) + BoundaryProposals(s, AllFields(s))
  }

  function Scenarios(proposals: seq<Proposal>): set<Spec> { set p | p in proposals :: p.scenario }

  /** The first proposal of every scenario. */
  ghost function Unique(proposals: seq<Proposal>): seq<Proposal>
  {
    if proposals == [] then []
    else
      var init, last := proposals[..|proposals| - 1], proposals[|proposals| - 1];
      Unique(init) + (if last.scenario in Scenarios(init) then [] else [last])
  }

  ghost function Hierarchical(s: Spec): seq<Proposal> { Unique(AllProposals(s)) }

  /* ---------- computing them ---------- */

  method OptionalStepProposals(s: Spec) returns (proposals: seq<Proposal>)
    ensures proposals == StepProposals(s, |s.steps|)
  {
    hide Without;
    proposals := [];
    for i := 0 to |s.steps|
      invariant proposals == StepProposals(s, i)
    {
      if s.steps[i].optional {
        var proposal := RemoveClosure(s, {s.steps[i].id});
        proposals := proposals + [Proposal(proposal, RemoveStep(s.steps[i].id))];
      }
    }
  }

  method OptionalFaultProposals(s: Spec) returns (proposals: seq<Proposal>)
    ensures proposals == FaultProposals(s, |s.steps|)
  {
    hide Without;
    proposals := [];
    for i := 0 to |s.steps|
      invariant proposals == FaultProposals(s, i)
    {
      if s.steps[i].optional && IsFault(s.steps[i].action) {
        var proposal := RemoveClosure(s, {s.steps[i].id});
        proposals := proposals + [Proposal(proposal, RemoveFault(s.steps[i].id))];
      }
    }
  }

  method OptionalChunkProposals(s: Spec) returns (proposals: seq<Proposal>)
    ensures proposals == ChunkProposals(s, 0)
  {
    hide Without;
    proposals := [];
    var start := 0;
    while start < |s.steps|
      invariant start <= |s.steps|
      invariant proposals + ChunkProposals(s, start) == ChunkProposals(s, 0)
    {
      if !s.steps[start].optional {
        start := start + 1;
      } else {
        var end := start;
        while end + 1 < |s.steps| && s.steps[end + 1].optional
          invariant start <= end < |s.steps| && s.steps[end].optional
          invariant RunEnd(s.steps, end) == RunEnd(s.steps, start)
        {
          end := end + 1;
        }
        assert end == RunEnd(s.steps, start);
        var before := proposals;
        if end > start {
          var removed := IdsBetween(s.steps, start, end);
          var proposal := RemoveClosure(s, removed);
          proposals := proposals + [Proposal(proposal, RemoveChunk(s.steps[start].id, s.steps[end].id))];
        }
        assert before + ChunkProposals(s, start) == proposals + ChunkProposals(s, end + 1);
        start := end + 1;
      }
    }
  }

  method ListFieldsOfEvent(s: Spec, name: string) returns (fields: seq<(string, string)>)
    requires name in s.events
    ensures fields == FieldsOfEvent(s, name)
  {
    var keys := SortKeys(s.events[name].Keys);
    fields := [];
    for j := 0 to |keys|
      invariant fields == FieldsOfEvent(s, name)[..j]
    {
      fields := fields + [(name, keys[j])];
    }
  }

  lemma FieldsNext(s: Spec, names: seq<string>, i: nat)
    requires Elements(names) <= s.events.Keys && i < |names|
    ensures Elements(names[..i]) <= s.events.Keys && Elements(names[..i + 1]) <= s.events.Keys && names[i] in s.events
    ensures Fields(s, names[..i + 1]) == Fields(s, names[..i]) + FieldsOfEvent(s, names[i])
  {
    hide FieldsOfEvent;
    assert names[i] in Elements(names);
    assert Elements(names[..i + 1]) <= Elements(names) && Elements(names[..i]) <= Elements(names);
    assert names[..i + 1][..i] == names[..i];
  }

  method ListFields(s: Spec) returns (fields: seq<(string, string)>)
    ensures fields == AllFields(s)
  {
    hide FieldsOfEvent, SortedKeys;
    var names := SortKeys(s.events.Keys);
    fields := [];
    for i := 0 to |names|
      invariant Elements(names[..i]) <= s.events.Keys && fields == Fields(s, names[..i])
    {
      FieldsNext(s, names, i);
      var more := ListFieldsOfEvent(s, names[i]);
      fields := fields + more;
    }
    assert names[..|names|] == names;
  }

  method OptionalEventFieldProposals(s: Spec) returns (proposals: seq<Proposal>)
    ensures proposals == FieldProposals(s, AllFields(s))
  {
    hide AllFields;
    var fields := ListFields(s);
    proposals := [];
    for i := 0 to |fields|
      invariant proposals == FieldProposals(s, fields[..i])
    {
      assert fields[..i + 1][..i] == fields[..i];
      var (event, key) := fields[i];
      proposals := proposals + [Proposal(DropField(s, event, key), RemoveField(event, key))];
    }
    assert fields[..|fields|] == fields;
  }

  method ScalarBoundaryProposals(s: Spec) returns (proposals: seq<Proposal>)
    ensures proposals == BoundaryProposals(s, AllFields(s))
  {
    hide AllFields, Boundaries;
    var fields := ListFields(s);
    proposals := [];
    for i := 0 to |fields|
      invariant proposals == BoundaryProposals(s, fields[..i])
    {
      assert fields[..i + 1][..i] == fields[..i];
      var (event, key) := fields[i];
      var values := Boundaries(s.events[event][key]);
      ghost var before := proposals;
      for j := 0 to |values|
        invariant proposals == before + BoundariesAt(s, event, key)[..j]
      {
        proposals := proposals + [Proposal(PutField(s, event, key, values[j]), SetField(event, key, values[j]))];
      }
      assert proposals == before + BoundariesAt(s, event, key);
    }
    assert fields[..|fields|] == fields;
  }

  method HierarchicalProposals(s: Spec) returns (unique: seq<Proposal>)
    ensures unique == Hierarchical(s)
  {
    hide StepProposals, ChunkProposals, FaultProposals, FieldProposals, BoundaryProposals, AllFields;
    var byStep := OptionalStepProposals(s);
    var byChunk := OptionalChunkProposals(s);
    var byFault := OptionalFaultProposals(s);
    var byField := OptionalEventFieldProposals(s);
    var byBoundary := ScalarBoundaryProposals(s);
    var proposals := byStep + byChunk + byFault + byField + byBoundary;
    assert proposals == AllProposals(s);
    hide AllProposals;
    var seen: set<Spec> := {};
    unique := [];
    for i := 0 to |proposals|
      invariant seen == Scenarios(proposals[..i]) && unique == Unique(proposals[..i])
    {
      ScenariosNext(proposals, i);
      assert proposals[..i + 1][..i] == proposals[..i];
      if proposals[i].scenario !in seen {
        seen := seen + {proposals[i].scenario};
        unique := unique + [proposals[i]];
      }
    }
    assert proposals[..|proposals|] == proposals;
  }

  lemma ScenariosNext(proposals: seq<Proposal>, i: nat)
    requires i < |proposals|
    ensures Scenarios(proposals[..i + 1]) == Scenarios(proposals[..i]) + {proposals[i].scenario}
  {
    assert proposals[..i + 1] == proposals[..i] + [proposals[i]];
  }

  /* ---------- what is proposed ---------- */

  /** A maximal run of at least two optional steps. */
  ghost predicate IsRun(steps: seq<Step>, start: nat, end: nat)
  {
    && start < end < |steps|
    && (forall i :: start <= i <= end ==> steps[i].optional)
    && (start > 0 ==> !steps[start - 1].optional)
    && (end + 1 < |steps| ==> !steps[end + 1].optional)
  }

  ghost predicate IsProposal(s: Spec, p: Proposal)
  {
    match p.transform
    case RemoveStep(id) =>
      p.scenario == Without(s, {id}) && exists i :: 0 <= i < |s.steps| && s.steps[i].optional && s.steps[i].id == id
    case RemoveChunk(first, last) =>
      exists start, end :: IsRun(s.steps, start, end) && p == ChunkProposal(s, start, end)
    case RemoveFault(id) =>
      && p.scenario == Without(s, {id})
      && exists i :: 0 <= i < |s.steps| && s.steps[i].optional && IsFault(s.steps[i].action) && s.steps[i].id == id
    case RemoveField(event, key) => HasField(s, event, key) && p.scenario == DropField(s, event, key)
    case SetField(event, key, value) =>
      && HasField(s, event, key) && value in Boundaries(s.events[event][key])
      && p.scenario == PutField(s, event, key, value)
  }

  lemma {:induction false} StepProposalsMean(s: Spec, n: nat, p: Proposal)
    requires n <= |s.steps|
    ensures p in StepProposals(s, n) <==>
            && p.transform.RemoveStep? && p.scenario == Without(s, {p.transform.id})
            && exists i :: 0 <= i < n && s.steps[i].optional && s.steps[i].id == p.transform.id
  {
    hide Without;
    if n > 0 { StepProposalsMean(s, n - 1, p); }
  }

  lemma {:induction false} FaultProposalsMean(s: Spec, n: nat, p: Proposal)
    requires n <= |s.steps|
    ensures p in FaultProposals(s, n) <==>
            && p.transform.RemoveFault? && p.scenario == Without(s, {p.transform.id})
            && exists i :: 0 <= i < n && s.steps[i].optional && IsFault(s.steps[i].action) && s.steps[i].id == p.transform.id
  {
    hide Without;
    if n > 0 { FaultProposalsMean(s, n - 1, p); }
  }

  lemma {:induction false} ChunkProposalsMean(s: Spec, from: nat, p: Proposal)
    requires from <= |s.steps| && (0 < from < |s.steps| ==> !s.steps[from - 1].optional || !s.steps[from].optional)
    ensures p in ChunkProposals(s, from) <==>
            exists start, end :: from <= start && IsRun(s.steps, start, end) && p == ChunkProposal(s, start, end)
    decreases |s.steps| - from
  {
    hide ChunkProposal;
    if from >= |s.steps| {
    } else if !s.steps[from].optional {
      ChunkProposalsMean(s, from + 1, p);
    } else {
      var end := RunEnd(s.steps, from);
      ChunkProposalsMean(s, end + 1, p);
      if end > from { assert IsRun(s.steps, from, end); }
      forall i: nat, j: nat | from <= i <= end && IsRun(s.steps, i, j)
        ensures i == from && j == end
      {
      }
    }
  }

  lemma {:induction false} FieldProposalsMean(s: Spec, fields: seq<(string, string)>, p: Proposal)
    requires forall i :: 0 <= i < |fields| ==> HasField(s, fields[i].0, fields[i].1)
    ensures p in FieldProposals(s, fields) <==>
            && p.transform.RemoveField? && (p.transform.event, p.transform.key) in fields
            && p.scenario == DropField(s, p.transform.event, p.transform.key)
  {
    hide DropField;
    if fields != [] {
      var init, last := fields[..|fields| - 1], fields[|fields| - 1];
      assert fields == init + [last];
      FieldProposalsMean(s, init, p);
    }
  }

  lemma BoundariesAtMean(s: Spec, event: string, key: string, p: Proposal)
    requires HasField(s, event, key)
    ensures p in BoundariesAt(s, event, key) <==>
            && p.transform.SetField? && p.transform.event == event && p.transform.key == key
            && p.transform.value in Boundaries(s.events[event][key])
            && p.scenario == PutField(s, event, key, p.transform.value)
  {
    hide PutField, Boundaries;
    var values := Boundaries(s.events[event][key]);
    if p.transform.SetField? && p.transform.value in values {
      var i :| 0 <= i < |values| && values[i] == p.transform.value;
      assert BoundariesAt(s, event, key)[i] == Proposal(PutField(s, event, key, values[i]), SetField(event, key, values[i]));
    }
  }

  lemma {:induction false} BoundaryProposalsMean(s: Spec, fields: seq<(string, string)>, p: Proposal)
    requires forall i :: 0 <= i < |fields| ==> HasField(s, fields[i].0, fields[i].1)
    ensures p in BoundaryProposals(s, fields) <==>
            && p.transform.SetField? && (p.transform.event, p.transform.key) in fields
            && p.transform.value in Boundaries(s.events[p.transform.event][p.transform.key])
            && p.scenario == PutField(s, p.transform.event, p.transform.key, p.transform.value)
  {
    hide PutField, Boundaries, BoundariesAt;
    if fields != [] {
      var init, last := fields[..|fields| - 1], fields[|fields| - 1];
      assert fields == init + [last];
      BoundaryProposalsMean(s, init, p);
      BoundariesAtMean(s, last.0, last.1, p);
    }
  }

  lemma {:induction false} FieldsMember(s: Spec, names: seq<string>, event: string, key: string)
    requires Elements(names) <= s.events.Keys
    ensures (event, key) in Fields(s, names) <==> event in names && HasField(s, event, key)
  {
    if names != [] {
      var init, last := names[..|names| - 1], names[|names| - 1];
      assert names == init + [last];
      assert last in Elements(names);
      assert Elements(init) <= Elements(names);
      FieldsMember(s, init, event, key);
      FieldsOfEventMember(s, last, event, key);
    }
  }

  lemma FieldsOfEventMember(s: Spec, name: string, event: string, key: string)
    requires name in s.events
    ensures (event, key) in FieldsOfEvent(s, name) <==> event == name && HasField(s, event, key)
  {
    hide SortedKeys;
    var keys := SortedKeys(s.events[name].Keys);
    if event == name && key in s.events[name] {
      assert key in Elements(keys);
      var i :| 0 <= i < |keys| && keys[i] == key;
      assert FieldsOfEvent(s, name)[i] == (event, key);
    }
  }

  lemma AllProposalsMember(s: Spec, p: Proposal)
    ensures p in AllProposals(s) <==>
            p in StepProposals(s, |s.steps|) || p in ChunkProposals(s, 0) || p in FaultProposals(s, |s.steps|)
            || p in FieldProposals(s, AllFields(s)) || p in BoundaryProposals(s, AllFields(s))
  {
    hide StepProposals, ChunkProposals, FaultProposals, FieldProposals, BoundaryProposals, AllFields;
  }

  lemma AllFieldsMember(s: Spec, event: string, key: string)
    ensures (event, key) in AllFields(s) <==> HasField(s, event, key)
  {
    hide SortedKeys, Fields;
    var names := SortedKeys(s.events.Keys);
    FieldsMember(s, names, event, key);
    assert event in names <==> event in Elements(names);
  }

  /** The proposals are exactly those of the five kinds. */
  lemma AllProposalsMean(s: Spec, p: Proposal)
    ensures p in AllProposals(s) <==> IsProposal(s, p)
  {
    hide AllProposals, StepProposals, ChunkProposals, FaultProposals, FieldProposals, BoundaryProposals, AllFields, Without,
         DropField, PutField, Boundaries, HasField, IsRun, IsFault;
    AllProposalsMember(s, p);
    StepProposalsMean(s, |s.steps|, p);
    ChunkProposalsMean(s, 0, p);
    FaultProposalsMean(s, |s.steps|, p);
    FieldProposalsMean(s, AllFields(s), p);
    BoundaryProposalsMean(s, AllFields(s), p);
    match p.transform
    case RemoveField(event, key) => AllFieldsMember(s, event, key);
    case SetField(event, key, _) => AllFieldsMember(s, event, key);
    case RemoveChunk(_, _) => ChunkTransform(s, p);
    case RemoveStep(_) => ChunkTransform(s, p);
    case RemoveFault(_) => ChunkTransform(s, p);
  }

  lemma ChunkTransform(s: Spec, p: Proposal)
    ensures (exists start, end :: 0 <= start && IsRun(s.steps, start, end) && p == ChunkProposal(s, start, end)) ==>
              p.transform.RemoveChunk?
  {}

  lemma {:induction false} UniqueMember(proposals: seq<Proposal>, x: Spec)
    ensures x in Scenarios(Unique(proposals)) <==> x in Scenarios(proposals)
    ensures forall p :: p in Unique(proposals) ==> p in proposals
  {
    if proposals != [] {
      var init, last := proposals[..|proposals| - 1], proposals[|proposals| - 1];
      assert proposals == init + [last];
      UniqueMember(init, x);
      UniqueMember(init, last.scenario);
      assert Scenarios(proposals) == Scenarios(init) + {last.scenario};
      if last.scenario !in Scenarios(init) {
        assert Scenarios(Unique(init) + [last]) == Scenarios(Unique(init)) + {last.scenario};
      }
    }
  }

  ghost predicate DistinctScenarios(proposals: seq<Proposal>)
  {
    forall i, j :: 0 <= i < j < |proposals| ==> proposals[i].scenario != proposals[j].scenario
  }

  /** No scenario is proposed twice. */
  lemma {:induction false} UniqueIsDistinct(proposals: seq<Proposal>)
    ensures DistinctScenarios(Unique(proposals))
  {
    if proposals != [] {
      var init, last := proposals[..|proposals| - 1], proposals[|proposals| - 1];
      UniqueIsDistinct(init);
      UniqueMember(init, last.scenario);
      assert forall i :: 0 <= i < |Unique(init)| ==> Unique(init)[i].scenario in Scenarios(Unique(init));
    }
  }

  /** Every scenario of one of the five kinds is proposed, once, and nothing else. */
  lemma HierarchicalIsComplete(s: Spec)
    ensures forall p :: p in Hierarchical(s) ==> IsProposal(s, p)
    ensures forall p :: IsProposal(s, p) ==> p.scenario in Scenarios(Hierarchical(s))
    ensures DistinctScenarios(Hierarchical(s))
  {
    hide AllProposals, IsProposal, Unique, DistinctScenarios;
    UniqueIsDistinct(AllProposals(s));
    forall p | p in Hierarchical(s)
      ensures IsProposal(s, p)
    {
      UniqueMember(AllProposals(s), p.scenario);
      AllProposalsMean(s, p);
    }
    forall p | IsProposal(s, p)
      ensures p.scenario in Scenarios(Hierarchical(s))
    {
      AllProposalsMean(s, p);
      UniqueMember(AllProposals(s), p.scenario);
    }
  }
}
