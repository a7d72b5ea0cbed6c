/** Writing the journal, ending a run, and what the end of a journal says about the run. */
module RunJournal {
  import opened Journal
  import opened Options
  import P = Pointers

  /** How the disk answers: the bytes taken by each write and whether it failed, and the sync. */
  datatype Disk = Disk(write: nat -> (nat, bool), synced: bool)

  function Zeros(n: nat): string { if n == 0 then "" else "0" + Zeros(n - 1) }

  /** At least six digits. */
  function Padded(n: nat): string
  {
    var digits := P.Itoa(n);
    (if |digits| < 6 then Zeros(6 - |digits|) else "") + digits
  }

  predicate AllDigits(s: string) { forall i :: 0 <= i < |s| ==> P.IsDigit(s[i]) }

  lemma {:induction false} LeadingZero(s: string)
    requires AllDigits(s)
    ensures AllDigits("0" + s) && P.DigitsValue("0" + s) == P.DigitsValue(s)
  {
    var padded := "0" + s;
    if s != "" {
      LeadingZero(s[..|s| - 1]);
      assert padded[..|padded| - 1] == "0" + s[..|s| - 1];
    } else {
      assert padded[..0] == "";
    }
  }

  lemma {:induction false} ZerosRead(n: nat, s: string)
    requires AllDigits(s)
    ensures |Zeros(n)| == n && AllDigits(Zeros(n) + s) && P.DigitsValue(Zeros(n) + s) == P.DigitsValue(s)
  {
    if n > 0 {
      ZerosRead(n - 1, s);
      LeadingZero(Zeros(n - 1) + s);
      assert Zeros(n) + s == "0" + (Zeros(n - 1) + s);
    } else {
      assert "" + s == s;
    }
  }

  lemma {:induction false} ItoaIsShort(n: nat, k: nat)
    requires 0 < k && n < TenTo(k)
    ensures |P.Itoa(n)| <= k
  {
    if n >= 10 { ItoaIsShort(n / 10, k - 1); }
  }

  function TenTo(k: nat): nat { if k == 0 then 1 else 10 * TenTo(k - 1) }

  lemma Million()
    ensures TenTo(6) == 1_000_000
  {}

  /** The number in an id is read back from it, so ids of different entries differ; up to 999,999 it has six digits. */
  lemma PaddedReadsBack(n: nat)
    ensures P.Atoi(Padded(n)) == Some(n) && |Padded(n)| >= 6
    ensures n < 1_000_000 ==> |Padded(n)| == 6
  {
    hide P.Itoa, P.DigitsValue, Zeros, TenTo;
    var digits := P.Itoa(n);
    P.DigitsRoundTrip(n);
    Million();
    ZerosRead(if |digits| < 6 then 6 - |digits| else 0, digits);
    assert |digits| >= 6 ==> "" + digits == digits;
    if n < 1_000_000 { ItoaIsShort(n, 6); }
    assert P.IsDigit(Padded(n)[0]);
  }

  class RunJournal {
    const codec: Codec
    var file: seq<Byte>
    var sequence: nat
    ghost var events: seq<Event>

    /** The file holds exactly the lines of the appended events, numbered from one. */
    ghost predicate Intact()
      reads this
    {
      file == Lines(codec, events) && sequence == |events| && Contiguous(events)
    }

    constructor (codec: Codec)
      ensures Intact() && events == [] && this.codec == codec
    {
      this.codec := codec;
      file, sequence, events := [], 0, [];
    }

    /** A successful append adds one whole line; a failed one may leave any part of it, even all. */
    method Append(event: Event, publishable: bool, disk: Disk) returns (ok: bool)
      modifies this
      ensures var numbered := event.(sequence := old(sequence) + 1);
              if ok then
                file == old(file) + Line(codec, numbered) && sequence == old(sequence) + 1 && events == old(events) + [numbered]
              else
                && sequence == old(sequence) && events == old(events)
                && exists n :: 0 <= n <= |Line(codec, numbered)| && file == old(file) + Line(codec, numbered)[..n]
      ensures ok && old(Intact()) ==> Intact()
    {
      var numbered := event.(sequence := sequence + 1);
      ghost var line := Line(codec, numbered);
      if !publishable {
        assert file == old(file) + line[..0];
        return false;
      }
      var document := codec.encode(numbered) + [NEWLINE];
      var k: nat := 0;
      while |document| > 0
        invariant |document| <= |line| && document == line[|line| - |document|..]
        invariant file == old(file) + line[..|line| - |document|]
        invariant sequence == old(sequence) && events == old(events)
      {
        var (count, failed) := disk.write(k);
        var written := if count < |document| then count else |document|;
        ghost var done := |line| - |document|;
        assert line[..done] + document[..written] == line[..done + written];
        file := file + document[..written];
        if failed || written == 0 {
          return false;
        }
        document := document[written..];
        k := k + 1;
      }
      assert line[..|line|] == line;
      if !disk.synced {
        return false;
      }
      sequence := numbered.sequence;
      events := events + [numbered];
      assert events[..|events| - 1] == old(events);
      ok := true;
    }

    method Before(state: string, operation: string, disk: Disk) returns (operationId: string, ok: bool)
      modifies this
      ensures operationId == "op-" + Padded(old(sequence) + 1)
      ensures events == old(events) + (if ok then [Event(old(sequence) + 1, Phase.Before, state, operationId, operation, "", "")] else [])
      ensures sequence == old(sequence) + if ok then 1 else 0
      ensures ok && old(Intact()) ==> Intact()
    {
      operationId := "op-" + Padded(sequence + 1);
      ok := Append(Event(0, Phase.Before, state, operationId, operation, "", ""), true, disk);
    }

    method After(state: string, operationId: string, operation: string, status: string, cause: string, disk: Disk) returns (ok: bool)
      modifies this
      ensures events == old(events)
                        + (if ok then [Event(old(sequence) + 1, Phase.After, state, operationId, operation, status, cause)] else [])
      ensures sequence == old(sequence) + if ok then 1 else 0
      ensures ok && old(Intact()) ==> Intact()
    {
      ok := Append(Event(0, Phase.After, state, operationId, operation, status, cause), true, disk);
    }

    method State(state: string, cause: string, disk: Disk) returns (ok: bool)
      modifies this
      ensures events == old(events)
                        + (if ok then [Event(old(sequence) + 1, StateChange, state, "state-" + Padded(old(sequence) + 1),
                                             "transition", "", cause)]
                           else [])
      ensures sequence == old(sequence) + if ok then 1 else 0
      ensures ok && old(Intact()) ==> Intact()
    {
      ok := Append(Event(0, StateChange, state, "state-" + Padded(sequence + 1), "transition", "", cause), true, disk);
    }

    /** The two entries of an operation, which share its id; a nonempty `failure` is the cause with which it fails. */
    static function Entries(first: nat, state: string, operation: string, failure: string): (entries: seq<Event>)
      ensures |entries| == 2
    {
      var operationId := "op-" + Padded(first);
      [Event(first, Phase.Before, state, operationId, operation, "", ""),
       Event(first + 1, Phase.After, state, operationId, operation, if failure == "" then "ok" else "error", failure)]
    }

    /** An operation between its two entries, or as many of them as could be appended. */
    method Journaled(state: string, operation: string, failure: string, before: Disk, after: Disk) returns (ok: bool)
      modifies this
      ensures |old(events)| <= |events| <= |old(events)| + 2
      ensures events == old(events) + Entries(old(sequence) + 1, state, operation, failure)[..|events| - |old(events)|]
      ensures ok <==> failure == "" && |events| == |old(events)| + 2
      ensures |events| == |old(events)| + 2 ==>
                && events[|events| - 1].status == (if ok then "ok" else "error") && events[|events| - 1].cause == failure
                && events[|events| - 1].operationId == events[|events| - 2].operationId
      ensures ok && old(Intact()) ==> Intact()
    {
      var operationId, begun := Before(state, operation, before);
      if !begun {
        return false;
      }
      var status := if failure == "" then "ok" else "error";
      var ended := After(state, operationId, operation, status, failure, after);
      ok := ended && failure == "";
    }
  }

  /* ---------- the end of a run ---------- */

  predicate TerminalName(state: string)
  {
    state in {"COMPLETE", "INFRASTRUCTURE_ERROR", "TIMEOUT", "UNRESOLVED", "INTERRUPTED", "FLAKY"}
  }

  predicate IsTerminal(e: Event) { e.phase.StateChange? && TerminalName(e.state) }

  ghost predicate NoTerminal(events: seq<Event>)
  {
    forall i :: 0 <= i < |events| ==> !IsTerminal(events[i])
  }

  function FinalState(events: seq<Event>, truncated: bool): (string, bool)
  {
    if truncated || events == [] || !events[|events| - 1].phase.StateChange? then ("INTERRUPTED", false)
    else if TerminalName(events[|events| - 1].state) then (events[|events| - 1].state, true)
    else ("INTERRUPTED", false)
  }

  predicate HasSuffix(s: string, suffix: string) { |s| >= |suffix| && s[|s| - |suffix|..] == suffix }

  function TerminalState(classification: string, state: string): string
  {
    if classification == "INFRASTRUCTURE_ERROR" then "INFRASTRUCTURE_ERROR"
    else if state == "INTERRUPTED" then "INTERRUPTED"
    else if classification == "PASS" || HasSuffix(classification, "_REGRESSION") then "COMPLETE"
    else classification
  }

  /** The classification names a regression. */
  ghost predicate IsRegression(classification: string)
  {
    exists prefix: string :: classification == prefix + "_REGRESSION"
  }

  lemma RegressionHasSuffix(classification: string)
    ensures HasSuffix(classification, "_REGRESSION") <==> IsRegression(classification)
  {
    var n := |classification| - |"_REGRESSION"|;
    if HasSuffix(classification, "_REGRESSION") {
      assert classification == classification[..n] + "_REGRESSION";
    }
  }

  /** What a reader makes of a whole journal that ends a run with this classification in this state.  An infrastructure
      error is told even of an interrupted run; a pass and a regression are complete runs. */
  ghost predicate ReadAs(classification: string, state: string, read: (string, bool))
  {
    && (read == ("INFRASTRUCTURE_ERROR", true) <==> classification == "INFRASTRUCTURE_ERROR")
    && (read == ("COMPLETE", true) <==>
          state != "INTERRUPTED" && (classification == "PASS" || IsRegression(classification) || classification == "COMPLETE"))
    && (read == ("INTERRUPTED", true) <==>
          (state == "INTERRUPTED" && classification != "INFRASTRUCTURE_ERROR") || classification == "INTERRUPTED")
    && (forall name :: name in {"TIMEOUT", "UNRESOLVED", "FLAKY"} ==>
          (read == (name, true) <==> state != "INTERRUPTED" && classification == name))
    && (read.1 <==>
          || state == "INTERRUPTED" || classification == "PASS" || IsRegression(classification)
          || classification in {"COMPLETE", "INFRASTRUCTURE_ERROR", "TIMEOUT", "UNRESOLVED", "INTERRUPTED", "FLAKY"})
    && (!read.1 ==> read.0 == "INTERRUPTED")
  }

  /** A run read back as it was classified. */
  lemma TerminalStateReadsBack(events: seq<Event>, classification: string, state: string)
    requires events != [] && events[|events| - 1].phase.StateChange?
    requires events[|events| - 1].state == TerminalState(classification, state)
    ensures ReadAs(classification, state, FinalState(events, false))
  {
    RegressionHasSuffix(classification);
    if IsRegression(classification) {
      var prefix: string :| classification == prefix + "_REGRESSION";
      assert classification[|classification| - 1] == 'N' && classification[|classification| - 2] == 'O';
    }
  }

  /** The answers of the disk and of the operations while a run ends. */
  datatype Surroundings = Surroundings(disk: nat -> Disk, failure: nat -> string)

  const REPORT_OPERATIONS: seq<string> :=
    ["write_report", "write_report", "write_report", "write_report", "write_result", "write_checksums"]

  ghost predicate Unfinished(before: seq<Event>, after: seq<Event>)
  {
    before <= after && NoTerminal(after[|before|..])
  }

  /** Entries that are not terminal, and then the terminal state. */
  ghost predicate Finalized(before: seq<Event>, after: seq<Event>, terminal: string)
  {
    && after != [] && Unfinished(before, after[..|after| - 1])
    && after[|after| - 1].phase.StateChange? && after[|after| - 1].state == terminal
  }

  /** After the entries before, the reporting state and the first n operations between their two entries: four reports, the
      result and the checksums. */
  ghost predicate Reported(before: seq<Event>, after: seq<Event>, n: nat)
  {
    && |after| > |before| + 2 * n && after[..|before|] == before
    && after[|before|].phase.StateChange? && after[|before|].state == "REPORTING"
    && forall k :: 0 <= k < n ==> IsOperation(after[|before| + 1 + 2 * k], after[|before| + 2 + 2 * k],
                                              if k < 4 then "write_report" else if k == 4 then "write_result" else "write_checksums")
  }

  predicate IsOperation(first: Event, second: Event, operation: string)
  {
    && first.phase.Before? && second.phase.After? && first.operation == operation && second.operation == operation
    && first.operationId == second.operationId && second.status == "ok" && second.cause == ""
  }

  lemma ReportedNext(before: seq<Event>, after: seq<Event>, n: nat, more: seq<Event>)
    requires Reported(before, after, n) && |after| == |before| + 1 + 2 * n && |more| == 2
    requires IsOperation(more[0], more[1],
                         if n < 4 then "write_report" else if n == 4 then "write_result" else "write_checksums")
    ensures Reported(before, after + more, n + 1)
  {
    hide IsOperation;
    var all := after + more;
    forall k | 0 <= k < n
      ensures all[|before| + 1 + 2 * k] == after[|before| + 1 + 2 * k] && all[|before| + 2 + 2 * k] == after[|before| + 2 + 2 * k]
    {
    }
    assert all[..|before|] == after[..|before|];
  }

  lemma ReportedStays(before: seq<Event>, after: seq<Event>, n: nat, last: Event)
    requires Reported(before, after, n)
    ensures Reported(before, after + [last], n)
  {
    hide IsOperation;
    assert (after + [last])[..|before|] == after[..|before|];
  }

  lemma ReportingStarts(before: seq<Event>, after: seq<Event>)
    requires |after| == |before| + 1 && after[..|before|] == before
    requires after[|before|].phase.StateChange? && after[|before|].state == "REPORTING"
    ensures Reported(before, after, 0)
  {}

  /** The report, result and checksum operations, each between its entries, up to the first that fails. */
  method WriteReports(journal: RunJournal, ghost start: seq<Event>, around: Surroundings) returns (ok: bool)
    requires Unfinished(start, journal.events) && Reported(start, journal.events, 0) && |journal.events| == |start| + 1
    modifies journal
    ensures Unfinished(start, journal.events)
    ensures ok ==> Reported(start, journal.events, 6) && |journal.events| == |start| + 13
    ensures ok && old(journal.Intact()) ==> journal.Intact()
  {
    for i := 0 to |REPORT_OPERATIONS|
      invariant Unfinished(start, journal.events)
      invariant Reported(start, journal.events, i) && |journal.events| == |start| + 1 + 2 * i
      invariant old(journal.Intact()) ==> journal.Intact()
    {
      hide Reported, Unfinished;
      ghost var before := journal.events;
      ghost var first := journal.sequence + 1;
      ok := journal.Journaled("REPORTING", REPORT_OPERATIONS[i], around.failure(i), around.disk(2 * i + 1), around.disk(2 * i + 2));
      ghost var more := journal.events[|before|..];
      assert journal.events == before + more;
      NotTerminal(before, more, RunJournal.Entries(first, "REPORTING", REPORT_OPERATIONS[i], around.failure(i)));
      StillUnfinished(start, before, journal.events);
      if !ok {
        return;
      }
      ReportedNext(start, before, i, more);
    }
    ok := true;
  }

  lemma NotTerminal(before: seq<Event>, more: seq<Event>, entries: seq<Event>)
    requires more <= entries && forall i :: 0 <= i < |entries| ==> !entries[i].phase.StateChange?
    ensures Unfinished(before, before + more)
  {}

  /** Ends the run: the terminal state is appended once, last, and only if everything before it succeeded. */
  method FinalizeRun(journal: RunJournal, classification: string, state: string, cause: string, around: Surroundings)
    returns (ok: bool, terminal: string)
    modifies journal
    ensures terminal == TerminalState(if classification == "" then "UNRESOLVED" else classification, state)
    ensures if ok then Finalized(old(journal.events), journal.events, terminal) else Unfinished(old(journal.events), journal.events)
    ensures ok ==> ReadAs(if classification == "" then "UNRESOLVED" else classification, state, FinalState(journal.events, false))
    ensures ok ==> Reported(old(journal.events), journal.events, 6) && |journal.events| == |old(journal.events)| + 14
    ensures ok && old(journal.Intact()) ==> journal.Intact()
  {
    terminal := TerminalState(if classification == "" then "UNRESOLVED" else classification, state);
    hide ReadAs, TerminalState, FinalState, Reported;
    ghost var start := journal.events;
    var reporting := journal.State("REPORTING", "", around.disk(0));
    assert Unfinished(start, journal.events);
    if !reporting {
      return false, terminal;
    }
    assert Reported(start, journal.events, 0) by { ReportingStarts(start, journal.events); }
    var written := WriteReports(journal, start, around);
    if !written {
      return false, terminal;
    }
    ghost var before := journal.events;
    ok := journal.State(terminal, cause, around.disk(2 * |REPORT_OPERATIONS| + 1));
    assert ok ==> journal.events[..|journal.events| - 1] == before;
    if ok {
      ReportedStays(start, before, 6, journal.events[|before|]);
      TerminalStateReadsBack(journal.events, if classification == "" then "UNRESOLVED" else classification, state);
    }
  }

  lemma StillUnfinished(start: seq<Event>, before: seq<Event>, after: seq<Event>)
    requires Unfinished(start, before) && Unfinished(before, after)
    ensures Unfinished(start, after)
  {
    assert after[|start|..] == before[|start|..] + after[|before|..];
  }

  /** After any cut of a finalized journal the final state is authoritative exactly when nothing was cut. */
  lemma OnlyWholeJournalIsAuthoritative(codec: Codec, body: seq<Event>, last: Event, cut: nat)
    requires Faithful(codec) && Contiguous(body + [last]) && NoTerminal(body) && IsTerminal(last)
    requires cut <= |Lines(codec, body + [last])|
    ensures var contents := Reading(codec, Lines(codec, body + [last])[..cut]);
            && contents.Contents?
            && FinalState(contents.events, contents.truncated) ==
               if cut == |Lines(codec, body + [last])| then (last.state, true) else ("INTERRUPTED", false)
  {
    hide Reading, Lines, Faithful;
    var events := body + [last];
    var m := PrefixReadsBack(codec, events, cut);
    if m == |events| {
      assert events[..m] == events;
    } else {
      LinesGrow(codec, events, m + 1);
      if m > 0 { assert events[..m][m - 1] == body[m - 1]; }
    }
  }

  lemma {:induction false} LinesGrow(codec: Codec, events: seq<Event>, k: nat)
    requires k <= |events|
    ensures |Lines(codec, events[..k])| <= |Lines(codec, events)|
    decreases |events|
  {
    if k == |events| {
      assert events[..k] == events;
    } else {
      var init := events[..|events| - 1];
      assert init[..k] == events[..k];
      LinesGrow(codec, init, k);
    }
  }
}
