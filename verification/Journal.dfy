/** The execution journal: an append-only file of lines, read back after any cut. */
module Journal {
  import opened Options

  newtype Byte = x: int | 0 <= x < 256

  const NEWLINE: Byte := 10

  datatype Phase = Before | After | StateChange

  datatype Event = Event(sequence: nat, phase: Phase, state: string, operationId: string, operation: string, status: string,
                         cause: string)

  /** The JSON encoding of an event on one line, and its strict decoding with the schema check. */
  datatype Codec = Codec(encode: Event -> seq<Byte>, decode: seq<Byte> -> Option<Event>)

  ghost predicate Faithful(codec: Codec)
  {
    forall e :: NEWLINE !in codec.encode(e) && codec.decode(codec.encode(e)) == Some(e)
  }

  function Line(codec: Codec, e: Event): seq<Byte> { codec.encode(e) + [NEWLINE] }

  function Lines(codec: Codec, events: seq<Event>): seq<Byte>
  {
    if events == [] then [] else Lines(codec, events[..|events| - 1]) + Line(codec, events[|events| - 1])
  }

  ghost predicate Contiguous(events: seq<Event>)
  {
    forall i :: 0 <= i < |events| ==> events[i].sequence == i + 1
  }

  /* ---------- reading ---------- */

  function Split(document: seq<Byte>): (lines: seq<seq<Byte>>)
    ensures |lines| >= 1
  {
    if document == [] then [[]]
    else
      var lines, last := Split(document[..|document| - 1]), document[|document| - 1];
      if last == NEWLINE then lines + [[]] else lines[..|lines| - 1] + [lines[|lines| - 1] + [last]]
  }

  datatype Contents = Contents(events: seq<Event>, truncated: bool) | Unreadable

  /** The events of the lines, if each decodes and carries its position. */
  function DecodeLines(codec: Codec, lines: seq<seq<Byte>>): Option<seq<Event>>
  {
    if lines == [] then Some([])
    else
      match DecodeLines(codec, lines[..|lines| - 1])
      case None => None
      case Some(events) =>
        match codec.decode(lines[|lines| - 1])
        case None => None
        case Some(e) => if e.sequence == |lines| then Some(events + [e]) else None
  }

  function IsTruncated(document: seq<Byte>): bool { document != [] && document[|document| - 1] != NEWLINE }

  function Reading(codec: Codec, document: seq<Byte>): Contents
  {
    var lines := Split(document);
    match DecodeLines(codec, lines[..|lines| - 1])
    case None => Unreadable
    case Some(events) => Contents(events, IsTruncated(document))
  }

  lemma {:induction false} LastLine(document: seq<Byte>)
    ensures var lines := Split(document); lines[|lines| - 1] == [] <==> !IsTruncated(document)
  {
    if document != [] { LastLine(document[..|document| - 1]); }
  }

  method Read(codec: Codec, document: seq<Byte>) returns (contents: Contents)
    ensures contents == Reading(codec, document)
  {
    var truncated := |document| > 0 && document[|document| - 1] != NEWLINE;
    var lines := Split(document);
    LastLine(document);
    if |lines| > 0 && |lines[|lines| - 1]| == 0 {
      lines := lines[..|lines| - 1];
    }
    if truncated && |lines| > 0 {
      lines := lines[..|lines| - 1];
    }
    var events: seq<Event> := [];
    for i := 0 to |lines|
      invariant DecodeLines(codec, lines[..i]) == Some(events)
    {
      assert lines[..i + 1][..i] == lines[..i];
      var decoded := codec.decode(lines[i]);
      if decoded.None? || decoded.value.sequence != i + 1 {
        DecodeStops(codec, lines, i + 1);
        return Unreadable;
      }
      events := events + [decoded.value];
    }
    assert lines[..|lines|] == lines;
    contents := Contents(events, truncated);
  }

  lemma {:induction false} DecodeStops(codec: Codec, lines: seq<seq<Byte>>, n: nat)
    requires n <= |lines| && DecodeLines(codec, lines[..n]).None?
    ensures DecodeLines(codec, lines).None?
    decreases |lines|
  {
    if n == |lines| {
      assert lines[..n] == lines;
    } else {
      var init := lines[..|lines| - 1];
      assert init[..n] == lines[..n];
      DecodeStops(codec, init, n);
    }
  }

  /* ---------- what is read back ---------- */

  function Encoded(codec: Codec, events: seq<Event>): (lines: seq<seq<Byte>>)
    ensures |lines| == |events| && forall i :: 0 <= i < |events| ==> lines[i] == codec.encode(events[i])
  {
    seq(|events|, i requires 0 <= i < |events| => codec.encode(events[i]))
  }

  lemma SplitByte(document: seq<Byte>, b: Byte)
    requires b != NEWLINE
    ensures var lines := Split(document);
            Split(document + [b]) == lines[..|lines| - 1] + [lines[|lines| - 1] + [b]]
  {
    assert (document + [b])[..|document|] == document;
  }

  lemma {:induction false} SplitTail(document: seq<Byte>, tail: seq<Byte>)
    requires NEWLINE !in tail
    ensures var lines := Split(document);
            Split(document + tail) == lines[..|lines| - 1] + [lines[|lines| - 1] + tail]
  {
    hide Split;
    var lines := Split(document);
    if tail == [] {
      assert document + tail == document && lines[|lines| - 1] + [] == lines[|lines| - 1];
    } else {
      var init, last := tail[..|tail| - 1], tail[|tail| - 1];
      SplitTail(document, init);
      SplitByte(document + init, last);
      assert document + tail == document + init + [last];
      assert lines[|lines| - 1] + init + [last] == lines[|lines| - 1] + tail by { assert init + [last] == tail; }
    }
  }

  lemma SplitNewline(document: seq<Byte>)
    ensures Split(document + [NEWLINE]) == Split(document) + [[]]
  {
    assert (document + [NEWLINE])[..|document|] == document;
  }

  /** A line after whole lines. */
  lemma SplitLine(document: seq<Byte>, lines: seq<seq<Byte>>, line: seq<Byte>)
    requires Split(document) == lines + [[]] && NEWLINE !in line
    ensures Split(document + line) == lines + [line]
    ensures Split(document + line + [NEWLINE]) == lines + [line] + [[]]
  {
    hide Split;
    SplitTail(document, line);
    SplitNewline(document + line);
    var all := lines + [[]];
    assert all[..|all| - 1] == lines && all[|all| - 1] + line == line;
  }

  lemma {:induction false} SplitOfLines(codec: Codec, events: seq<Event>)
    requires Faithful(codec)
    ensures Split(Lines(codec, events)) == Encoded(codec, events) + [[]]
  {
    if events != [] {
      var init, last := events[..|events| - 1], events[|events| - 1];
      SplitOfLines(codec, init);
      var before := Lines(codec, init);
      SplitLine(before, Encoded(codec, init), codec.encode(last));
      hide Split;
      assert before + codec.encode(last) + [NEWLINE] == before + Line(codec, last);
      assert Encoded(codec, events) == Encoded(codec, init) + [codec.encode(last)];
    }
  }

  lemma {:induction false} EncodedDecodes(codec: Codec, events: seq<Event>)
    requires Faithful(codec) && Contiguous(events)
    ensures DecodeLines(codec, Encoded(codec, events)) == Some(events)
  {
    if events != [] {
      var init := events[..|events| - 1];
      EncodedDecodes(codec, init);
      assert Encoded(codec, events)[..|events| - 1] == Encoded(codec, init);
      assert init + [events[|events| - 1]] == events;
    }
  }

  /** Whole lines and a tail without its newline: the whole lines are read, and the tail is the truncation. */
  lemma ReadsCompleteLines(codec: Codec, events: seq<Event>, tail: seq<Byte>)
    requires Faithful(codec) && Contiguous(events) && NEWLINE !in tail
    ensures Reading(codec, Lines(codec, events) + tail) == Contents(events, tail != [])
  {
    hide Faithful, Contiguous;
    var document := Lines(codec, events) + tail;
    SplitOfLines(codec, events);
    SplitLine(Lines(codec, events), Encoded(codec, events), tail);
    EncodedDecodes(codec, events);
    LastLine(document);
    hide Split, DecodeLines;
    var lines := Split(document);
    assert lines == Encoded(codec, events) + [tail] && lines[..|lines| - 1] == Encoded(codec, events);
  }

  /** The cut falls after m whole lines and before the end of the next. */
  ghost predicate CutAfter(codec: Codec, events: seq<Event>, cut: nat, m: nat)
  {
    && m <= |events| && |Lines(codec, events[..m])| <= cut
    && (m == |events| ==> cut == |Lines(codec, events)|)
    && (m < |events| ==> cut < |Lines(codec, events[..m + 1])|)
  }

  lemma {:induction false} FindCut(codec: Codec, events: seq<Event>, cut: nat) returns (m: nat, tail: seq<Byte>)
    requires Faithful(codec) && cut <= |Lines(codec, events)|
    ensures CutAfter(codec, events, cut, m) && NEWLINE !in tail
    ensures Lines(codec, events)[..cut] == Lines(codec, events[..m]) + tail
  {
    var all := Lines(codec, events);
    if cut == |all| {
      m, tail := |events|, [];
      assert events[..m] == events && all[..cut] == all + [];
    } else {
      var last := |events| - 1;
      var init := events[..last];
      var before := Lines(codec, init);
      if cut < |before| {
        m, tail := FindCut(codec, init, cut);
        assert all[..cut] == before[..cut];
        assert events[..m] == init[..m];
        if m < last { assert events[..m + 1] == init[..m + 1]; }
      } else {
        m, tail := last, codec.encode(events[last])[..cut - |before|];
        assert events[..last + 1] == events;
        assert all[..cut] == before + tail;
      }
    }
  }

  /** Any byte prefix of a journal reads back as exactly the events whose lines are complete, and is flagged
      as truncated exactly when it ends within a line. */
  lemma PrefixReadsBack(codec: Codec, events: seq<Event>, cut: nat) returns (m: nat)
    requires Faithful(codec) && Contiguous(events) && cut <= |Lines(codec, events)|
    ensures CutAfter(codec, events, cut, m)
    ensures Reading(codec, Lines(codec, events)[..cut]) == Contents(events[..m], cut != |Lines(codec, events[..m])|)
  {
    var tail;
    m, tail := FindCut(codec, events, cut);
    ReadsCompleteLines(codec, events[..m], tail);
  }

  /* ---------- after a failed append ---------- */

  /** What follows does not change the whole lines before it. */
  lemma {:induction false} SplitMore(document: seq<Byte>, more: seq<Byte>)
    ensures var lines, all := Split(document), Split(document + more);
            |lines| <= |all| && all[..|lines| - 1] == lines[..|lines| - 1]
  {
    if more == [] {
      assert document + more == document;
    } else {
      var init := more[..|more| - 1];
      SplitMore(document, init);
      assert (document + more)[..|document + more| - 1] == document + init;
    }
  }

  lemma DecodeOneMore(codec: Codec, lines: seq<seq<Byte>>, events: seq<Event>, line: seq<Byte>)
    requires DecodeLines(codec, lines) == Some(events) && |events| == |lines|
    ensures var decoded := codec.decode(line);
            DecodeLines(codec, lines + [line]) ==
            if decoded.Some? && decoded.value.sequence == |events| + 1 then Some(events + [decoded.value]) else None
  {
    assert (lines + [line])[..|lines|] == lines;
  }

  lemma ReadsWholeLines(codec: Codec, document: seq<Byte>, lines: seq<seq<Byte>>)
    requires Split(document) == lines + [[]]
    ensures Reading(codec, document) ==
            match DecodeLines(codec, lines)
            case None => Unreadable
            case Some(events) => Contents(events, false)
  {
    LastLine(document);
    hide Split, DecodeLines;
    assert Split(document)[..|Split(document)| - 1] == lines;
  }

  /** A journal that goes on after a torn line reads that line and the next as one: it stays readable only if
      the two together happen to decode as an event of the right sequence. */
  lemma TornLineIsMerged(codec: Codec, events: seq<Event>, torn: seq<Byte>, next: Event)
    requires Faithful(codec) && Contiguous(events) && NEWLINE !in torn
    ensures var merged := codec.decode(torn + codec.encode(next));
            Reading(codec, Lines(codec, events) + torn + Line(codec, next)) ==
            if merged.Some? && merged.value.sequence == |events| + 1 then Contents(events + [merged.value], false) else Unreadable
  {
    var line := torn + codec.encode(next);
    assert NEWLINE !in line;
    hide Faithful, Contiguous, Split, Lines, DecodeLines, Reading;
    SplitOfLines(codec, events);
    SplitLine(Lines(codec, events), Encoded(codec, events), line);
    EncodedDecodes(codec, events);
    DecodeOneMore(codec, Encoded(codec, events), events, line);
    var document := Lines(codec, events) + line + [NEWLINE];
    assert Lines(codec, events) + torn + Line(codec, next) == document;
    ReadsWholeLines(codec, document, Encoded(codec, events) + [line]);
  }

  /** A repeated sequence number makes the journal unreadable. */
  lemma RepeatedSequenceIsUnreadable(codec: Codec, events: seq<Event>, lost: Event, next: Event)
    requires Faithful(codec) && Contiguous(events)
    requires lost.sequence == next.sequence == |events| + 1
    ensures Reading(codec, Lines(codec, events) + Line(codec, lost) + Line(codec, next)) == Unreadable
  {
    hide Contiguous;
    var written := events + [lost, next];
    assert written[..|written| - 1] == events + [lost] && (events + [lost])[..|events|] == events;
    assert Lines(codec, written) == Lines(codec, events) + Line(codec, lost) + Line(codec, next);
    SplitOfLines(codec, written);
    RepeatIsRefused(codec, events, lost, next);
    hide Lines, Line, Split, Reading, DecodeLines, Faithful;
    ReadsWholeLines(codec, Lines(codec, written), Encoded(codec, written));
  }

  lemma RepeatIsRefused(codec: Codec, events: seq<Event>, lost: Event, next: Event)
    requires Faithful(codec) && lost.sequence == next.sequence == |events| + 1
    ensures DecodeLines(codec, Encoded(codec, events + [lost, next])).None?
  {
    var lines := Encoded(codec, events + [lost, next]);
    assert codec.decode(lines[|lines| - 1]) == Some(next);
  }

  /** No later byte makes an unreadable journal readable. */
  lemma UnreadableStays(codec: Codec, document: seq<Byte>, more: seq<Byte>)
    requires Reading(codec, document) == Unreadable
    ensures Reading(codec, document + more) == Unreadable
  {
    SplitMore(document, more);
    hide Split;
    var lines, all := Split(document), Split(document + more);
    assert all[..|all| - 1][..|lines| - 1] == lines[..|lines| - 1];
    DecodeStops(codec, all[..|all| - 1], |lines| - 1);
  }

  /** What the last line of a journal reads as that goes on after an append has left n bytes of a line. */
  function Resumed(codec: Codec, lost: Event, n: nat, next: Event): Option<Event>
    requires n <= |Line(codec, lost)|
  {
    if n == 0 then Some(next)
    else if n == |Line(codec, lost)| then None
    else codec.decode(Line(codec, lost)[..n] + codec.encode(next))
  }

  /** A run that goes on after a failed append, which may have left any n bytes of the line, appends the next event
      under the same number.  Nothing is lost if no byte was written; if all were, the number repeats and the journal
      is unreadable; in between, the torn line and the next are read as one.  Unreadable is for good. */
  lemma AppendAfterFailure(codec: Codec, events: seq<Event>, lost: Event, n: nat, next: Event, more: seq<Byte>)
    requires Faithful(codec) && Contiguous(events)
    requires lost.sequence == next.sequence == |events| + 1 && n <= |Line(codec, lost)|
    ensures var document := Lines(codec, events) + Line(codec, lost)[..n] + Line(codec, next);
            var last := Resumed(codec, lost, n, next);
            if last.Some? && last.value.sequence == |events| + 1
            then Reading(codec, document) == Contents(events + [last.value], false)
            else Reading(codec, document) == Unreadable && Reading(codec, document + more) == Unreadable
  {
    hide Contiguous, Split, DecodeLines, Lines, Reading;
    var torn := Line(codec, lost)[..n];
    var document := Lines(codec, events) + torn + Line(codec, next);
    if n == |Line(codec, lost)| {
      assert torn == Line(codec, lost);
      RepeatedSequenceIsUnreadable(codec, events, lost, next);
    } else {
      assert NEWLINE !in torn;
      TornLineIsMerged(codec, events, torn, next);
      if n == 0 { assert torn + codec.encode(next) == codec.encode(next); }
    }
    if Reading(codec, document) == Unreadable { UnreadableStays(codec, document, more); }
  }

  /** The decoder reads one value and ignores what follows it on the line; an event broken off within its text does not
      go on as another. */
  ghost predicate ReadsOneValue(codec: Codec)
  {
    && (forall e, rest :: codec.decode(codec.encode(e) + rest) == Some(e))
    && (forall e, n, f :: 0 < n < |codec.encode(e)| ==> codec.decode(codec.encode(e)[..n] + codec.encode(f)).None?)
  }

  /** So the number of bytes that the failed append left decides what the journal then holds: the next event, or the
      lost one in its stead if all but the newline were written, or else nothing that can be read. */
  lemma FailedAppendDecides(codec: Codec, events: seq<Event>, lost: Event, n: nat, next: Event, more: seq<Byte>)
    requires Faithful(codec) && ReadsOneValue(codec) && Contiguous(events)
    requires lost.sequence == next.sequence == |events| + 1 && n <= |Line(codec, lost)|
    ensures var document := Lines(codec, events) + Line(codec, lost)[..n] + Line(codec, next);
            if n == 0 then Reading(codec, document) == Contents(events + [next], false)
            else if n == |codec.encode(lost)| then Reading(codec, document) == Contents(events + [lost], false)
            else Reading(codec, document) == Unreadable && Reading(codec, document + more) == Unreadable
  {
    hide Contiguous, Lines, Reading;
    AppendAfterFailure(codec, events, lost, n, next, more);
    EncodingIsNotEmpty(codec, lost);
    var text := codec.encode(lost);
    if n == |text| {
      assert Line(codec, lost)[..n] == text;
    } else if n < |text| {
      assert Line(codec, lost)[..n] == text[..n];
    }
  }

  lemma EncodingIsNotEmpty(codec: Codec, e: Event)
    requires ReadsOneValue(codec)
    ensures codec.encode(e) != []
  {
    var unlike := e.(sequence := e.sequence + 1);
    var both := codec.encode(e) + codec.encode(unlike);
    assert codec.decode(both) == Some(e) && codec.decode(codec.encode(unlike) + []) == Some(unlike);
    assert codec.encode(e) == [] ==> both == codec.encode(unlike) + [];
  }
}
