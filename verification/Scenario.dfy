/** The authored steps of a scenario. */
module Scenario {
  import opened StepGraph
  import opened Cardinality

  datatype Selector = Selector(service: string, name: string, eventId: string, stepId: string, occurrence: int)

  datatype Action =
    | Publish(event: string, topic: string, partition: int, key: string)
    | AwaitCondition(condition: string)
    | AwaitCheckpoint(selector: Selector)
    | Stop(service: string)
    | Restart(service: string)
    | RewindOffset(service: string, group: string, topic: string, partition: int, toOffset: int)
    | ArmCheckpoint(selector: Selector)
    | ReleaseCheckpoint(selector: Selector)
    | AdvanceClock(nanos: int)
    | Observe(observation: string)

  /** A declared event; times are in nanoseconds. */
  datatype Event = Event(id: string, aggregateId: string, aggregateVersion: int, time: int)

  /** A step with its timeout in nanoseconds. */
  datatype Step = Step(id: string, optional: bool, dependsOn: seq<string>, timeout: int, action: Action)

  /** Lower-case letters, digits and hyphens after a letter: the pattern of step ids. */
  predicate Slug(s: string)
  {
    s != "" && 'a' <= s[0] <= 'z' && forall i :: 0 <= i < |s| ==> 'a' <= s[i] <= 'z' || '0' <= s[i] <= '9' || s[i] == '-'
  }

  /** The publishing steps, in their order. */
  function Publications(steps: seq<Step>): (s: seq<Step>)
    ensures forall i :: 0 <= i < |s| ==> s[i].action.Publish?
  {
    if steps == [] then []
    else
      var last := steps[|steps| - 1];
      Publications(steps[..|steps| - 1]) + (if last.action.Publish? then [last] else [])
  }

  lemma {:induction false} PublicationsMember(steps: seq<Step>, s: Step)
    ensures s in Publications(steps) <==> s in steps && s.action.Publish?
  {
    if steps != [] {
      PublicationsMember(steps[..|steps| - 1], s);
      assert steps == steps[..|steps| - 1] + [steps[|steps| - 1]];
    }
  }

  function Ids(steps: seq<Step>): (ids: seq<string>)
    ensures |ids| == |steps|
    ensures forall i :: 0 <= i < |steps| ==> ids[i] == steps[i].id
  {
    seq(|steps|, i requires 0 <= i < |steps| => steps[i].id)
  }

  ghost predicate UniqueIds(steps: seq<Step>)
  {
    Distinct(Ids(steps))
  }

  /** The steps by id; of steps sharing an id the last one stays. */
  function ById(steps: seq<Step>): (m: map<string, Step>)
    ensures forall id :: id in m ==> m[id] in steps && m[id].id == id
    ensures forall i :: 0 <= i < |steps| ==> steps[i].id in m
  {
    if steps == [] then map[]
    else ById(steps[..|steps| - 1])[steps[|steps| - 1].id := steps[|steps| - 1]]
  }

  lemma {:induction false} ByIdUnique(steps: seq<Step>, i: nat)
    requires UniqueIds(steps) && i < |steps|
    ensures ById(steps)[steps[i].id] == steps[i]
  {
    var last := |steps| - 1;
    if i < last {
      var init := steps[..last];
      assert forall j :: 0 <= j < last ==> Ids(init)[j] == Ids(steps)[j];
      ByIdUnique(init, i);
      assert Ids(steps)[i] != Ids(steps)[last];
    }
  }

  function DependencySet(s: Step): set<string> { set d | d in s.dependsOn }

  /** The dependency graph as authored. */
  function GraphOf(m: map<string, Step>): Graph
  {
    map id | id in m :: DependencySet(m[id])
  }

  lemma IdsCount(steps: seq<Step>)
    ensures (set id | id in Ids(steps)) == ById(steps).Keys
    ensures |ById(steps)| <= |steps|
    ensures UniqueIds(steps) <==> |ById(steps)| == |steps|
  {
    var ids := Ids(steps);
    assert (set id | id in ids) == ById(steps).Keys by {
      forall id | id in ids ensures id in ById(steps) {
        var i :| 0 <= i < |ids| && ids[i] == id;
      }
      forall id | id in ById(steps) ensures id in ids {
        var i :| 0 <= i < |steps| && steps[i] == ById(steps)[id];
        assert ids[i] == id;
      }
    }
    if UniqueIds(steps) {
      DistinctSeqCardinality(ids);
    } else {
      RepeatsShrink(ids);
    }
  }

  lemma {:induction false} RepeatsShrink(s: seq<string>)
    ensures |set x | x in s| <= |s|
    ensures !Distinct(s) ==> |set x | x in s| < |s|
  {
    if s != [] {
      var init, last := s[..|s| - 1], s[|s| - 1];
      RepeatsShrink(init);
      assert s == init + [last];
      if last in init {
        assert (set x | x in s) == (set x | x in init);
      } else {
        assert (set x | x in s) == (set x | x in init) + {last};
        if Distinct(init) {
          assert Distinct(s);
        }
      }
    }
  }
}
