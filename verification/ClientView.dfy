/** What a client that follows the event stream format makes of a stream that was stopped: the
    events before the stop, and the termination event after them. */
module ClientView {
  import opened ByteStrings
  import opened SseFraming

  // ---------------------------------------------------------------------------------
  // The reader sees the same events in a shorter stream
  // ---------------------------------------------------------------------------------

  /** Bytes that the reader takes as one slice, whatever follows them. */
  ghost predicate IsSlice(line: Text) {
    && line != [] && |line| <= BUFFER
    && (forall k :: 0 <= k < |line| - 1 ==> line[k] != LF)
    && (|line| == BUFFER || line[|line| - 1] == LF)
  }

  lemma {:induction false} SliceStays(line: Text, more: Text)
    requires IsSlice(line)
    ensures SliceLength(line + more) == |line| && (line + more)[..|line|] == line && (line + more)[|line|..] == more
  {
    var s := line + more;
    assert forall k :: 0 <= k < |line| ==> s[k] == line[k];
    if line[|line| - 1] == LF {
      assert s[|line| - 1] == LF;
    }
  }

  lemma {:induction false} SliceOfSource(rest: Text)
    requires rest != [] && rest[SliceLength(rest)..] != []
    ensures IsSlice(rest[..SliceLength(rest)])
  {
    var n := SliceLength(rest);
    assert forall k :: 0 <= k < n ==> rest[..n][k] == rest[k];
  }

  /** One slice further. */
  lemma {:induction false} AfterSlice(raw: Text, line: Text, more: Text, broken: bool, limit: nat)
    requires IsSlice(line) && |raw| + |line| <= limit
    ensures NextEvent(raw, line + more, broken, limit) ==
              if line[|line| - 1] == LF && IsBlankLine(line) then Event(raw + line, more, false)
              else NextEvent(raw + line, more, broken, limit)
  {
    SliceStays(line, more);
  }

  /** A closed event is read again from its own bytes, whatever follows. */
  lemma {:induction false} EventAgain(raw: Text, rest: Text, broken: bool, limit: nat, more: Text, broken': bool)
    requires var r := NextEvent(raw, rest, broken, limit); r.Event? && !r.last
    ensures var r := NextEvent(raw, rest, broken, limit);
      && |raw| <= |r.raw| && r.raw[..|raw|] == raw
      && NextEvent(raw, r.raw[|raw|..] + more, broken', limit) == Event(r.raw, more, false)
    decreases |rest|
  {
    var r := NextEvent(raw, rest, broken, limit);
    var n := SliceLength(rest);
    var line := rest[..n];
    if line[n - 1] == LF && IsBlankLine(line) {
      assert IsSlice(line);
      ClosesAgain(raw, line, more, broken', limit);
    } else {
      SliceOfSource(rest);
      EventAgain(raw + line, rest[n..], broken, limit, more, broken');
      GoesOnAgain(raw, line, r.raw, more, broken', limit);
    }
  }

  lemma {:induction false} ClosesAgain(raw: Text, line: Text, more: Text, broken: bool, limit: nat)
    requires IsSlice(line) && |raw| + |line| <= limit && line[|line| - 1] == LF && IsBlankLine(line)
    ensures (raw + line)[..|raw|] == raw
    ensures NextEvent(raw, (raw + line)[|raw|..] + more, broken, limit) == Event(raw + line, more, false)
  {
    assert (raw + line)[|raw|..] == line;
    AfterSlice(raw, line, more, broken, limit);
  }

  lemma {:induction false} GoesOnAgain(raw: Text, line: Text, whole: Text, more: Text, broken: bool, limit: nat)
    requires IsSlice(line) && |raw| + |line| <= limit && !(line[|line| - 1] == LF && IsBlankLine(line))
    requires |raw + line| <= |whole| && whole[..|raw + line|] == raw + line
    ensures whole[..|raw|] == raw
    ensures NextEvent(raw, whole[|raw|..] + more, broken, limit)
         == NextEvent(raw + line, whole[|raw + line|..] + more, broken, limit)
  {
    var rest := whole[|raw + line|..];
    assert whole == (raw + line) + rest;
    assert whole[|raw|..] + more == line + (rest + more);
    AfterSlice(raw, line, rest + more, broken, limit);
  }

  /** The first `sent` events are closed: only the last event of a stream that ends properly may
      be open. */
  predicate AllClosed(f: Framing, sent: nat) {
    sent <= |f.events| && (sent < |f.events| || !f.ending.Eof?)
  }

  lemma {:induction false} FramesFirst(event: Text, rest: Text, input: Text, broken: bool, limit: nat)
    requires NextEvent([], input, broken, limit) == Event(event, rest, false)
    ensures Frames([], input, broken, limit) == Prepend(event, Frames([], rest, broken, limit))
  {
  }

  lemma {:induction false} FirstIsClosed(input: Text, broken: bool, limit: nat, sent: nat)
    requires sent > 0 && AllClosed(Frames([], input, broken, limit), sent)
    ensures var r := NextEvent([], input, broken, limit);
      && r.Event? && !r.last && |r.rest| < |input|
      && var rest := Frames([], r.rest, broken, limit);
         && AllClosed(rest, sent - 1)
         && Frames([], input, broken, limit).events[..sent] == [r.raw] + rest.events[..sent - 1]
  {
  }

  /** Closed events of a stream are all the events of their own bytes. */
  lemma {:induction false} FramesOfSent(input: Text, broken: bool, limit: nat, sent: nat, broken': bool)
    requires AllClosed(Frames([], input, broken, limit), sent)
    ensures var events := Frames([], input, broken, limit).events[..sent];
      Frames([], Concat(events), broken', limit) == Framing(events, if broken' then ReadError else Eof)
    decreases |input|
  {
    if sent > 0 {
      FirstIsClosed(input, broken, limit, sent);
      var r := NextEvent([], input, broken, limit);
      var later := Frames([], r.rest, broken, limit).events[..sent - 1];
      FramesOfSent(r.rest, broken, limit, sent - 1, broken');
      EventAgain([], input, broken, limit, Concat(later), broken');
      ConcatFirst(r.raw, later);
      assert r.raw[0..] == r.raw;
      FramesFirst(r.raw, Concat(later), r.raw + Concat(later), broken', limit);
    }
  }

  /** What was sent ends with a line at which the reader closes an event. */
  lemma {:induction false} SentIsClosed(input: Text, broken: bool, limit: nat, sent: nat)
    requires AllClosed(Frames([], input, broken, limit), sent)
    ensures !LeftOpen([], Concat(Frames([], input, broken, limit).events[..sent]))
  {
    var events := Frames([], input, broken, limit).events[..sent];
    FramesOfSent(input, broken, limit, sent, true);
    FramesOfSent(input, broken, limit, sent, false);
    BrokenFrames([], Concat(events), limit);
  }

  // ---------------------------------------------------------------------------------
  // Appending to a closed stream
  // ---------------------------------------------------------------------------------

  lemma {:induction false} LinesAppend(a: Text, b: Text)
    requires a == [] || a[|a| - 1] == LF
    ensures Lines(a + b) == Lines(a) + Lines(b)
    decreases |a|
  {
    if a == [] {
      assert a + b == b;
    } else {
      var n := LineLength(a);
      LineStays(a, b);
      LinesAppend(a[n..], b);
      LinesUnfold(a);
      LinesUnfold(a + b);
      ConsAppend(a[..n], Lines(a[n..]), Lines(b));
    }
  }

  lemma {:induction false} LinesUnfold(s: Text)
    requires s != []
    ensures Lines(s) == [s[..LineLength(s)]] + Lines(s[LineLength(s)..])
  {
  }

  lemma {:induction false} ConsAppend(x: Text, a: seq<Text>, b: seq<Text>)
    ensures [x] + (a + b) == ([x] + a) + b
  {
  }

  lemma {:induction false} LineStays(a: Text, b: Text)
    requires a != [] && a[|a| - 1] == LF
    ensures var n := LineLength(a);
      && LineLength(a + b) == n && (a + b)[..n] == a[..n] && (a + b)[n..] == a[n..] + b
      && (a[n..] == [] || a[n..][|a[n..]| - 1] == LF)
  {
    var n := LineLength(a);
    assert HasNewline(a) && a[n - 1] == LF;
    assert forall k :: 0 <= k < |a| ==> (a + b)[k] == a[k];
  }

  /** However an event stands open before it, `text` ends it: its lines make one event. */
  ghost predicate OneGroup(text: Text) {
    text != [] && forall open :: Grouped(Lines(text), open, EndsEvent) == [open + text]
  }

  /** Such a text counts as one line that closes an event. */
  lemma {:induction false} GroupAsLine(lines: seq<Text>, text: Text, open: Text)
    requires OneGroup(text)
    ensures Grouped(lines + Lines(text), open, EndsEvent) == Grouped(lines + [text], open, EndsEvent)
    decreases |lines|
  {
    if lines == [] {
      assert lines + Lines(text) == Lines(text) && lines + [text] == [text] && [text][1..] == [];
    } else {
      assert (lines + Lines(text))[1..] == lines[1..] + Lines(text) && (lines + [text])[1..] == lines[1..] + [text];
      GroupAsLine(lines[1..], text, if EndsEvent(lines[0]) then [] else open + lines[0]);
    }
  }

  lemma {:induction false} GroupedSnoc(lines: seq<Text>, text: Text, open: Text, ends: Text -> bool)
    requires text != [] && if lines == [] then open == [] else ends(lines[|lines| - 1])
    ensures Grouped(lines + [text], open, ends) == Grouped(lines, open, ends) + [text]
    decreases |lines|
  {
    if lines == [] {
      assert lines + [text] == [text] && [text][1..] == [] && [] + text == text;
    } else {
      assert (lines + [text])[1..] == lines[1..] + [text];
      if |lines| > 1 {
        assert lines[1..][|lines[1..]| - 1] == lines[|lines| - 1];
      }
      GroupedSnoc(lines[1..], text, if ends(lines[0]) then [] else open + lines[0], ends);
    }
  }

  /** The reader groups the lines of what was sent into the events that were sent, and the last
      line closes the last one. */
  lemma {:induction false} SentLines(input: Text, broken: bool, limit: nat, sent: nat)
    requires AllClosed(Frames([], input, broken, limit), sent)
    ensures var events := Frames([], input, broken, limit).events[..sent];
            var text := Concat(events);
            var lines := Lines(text);
      && Grouped(lines, [], ClosesForReader) == events
      && (lines != [] ==> ClosesForReader(lines[|lines| - 1]))
      && (text == [] || text[|text| - 1] == LF)
  {
    var text := Concat(Frames([], input, broken, limit).events[..sent]);
    FramesOfSent(input, broken, limit, sent, false);
    SentIsClosed(input, broken, limit, sent);
    FramesAreGroups([], text, limit);
    AllFit(Grouped(Lines(text), [], ClosesForReader), limit);
    EndsInNewline(text);
  }

  /** Lines that the reader groups into `events`, and a notice after them, are the same events
      and the notice by the format if and only if no line is misframed. */
  lemma {:induction false} NoticeAfterLines(lines: seq<Text>, events: seq<Text>, notice: Text)
    requires Grouped(lines, [], ClosesForReader) == events && OneGroup(notice)
    requires forall i :: 0 <= i < |lines| ==> lines[i] != []
    requires lines != [] ==> ClosesForReader(lines[|lines| - 1])
    ensures Grouped(lines + Lines(notice), [], EndsEvent) == events + [notice] <==>
            forall i :: 0 <= i < |lines| ==> !Misframed(lines[i])
  {
    GroupAsLine(lines, notice, []);
    GroupedSnoc(lines, notice, [], ClosesForReader);
    var all := lines + [notice];
    SameGroups(all, [], ClosesForReader, EndsEvent);
    forall i | 0 <= i < |lines|
      ensures all[i] == lines[i] && (ClosesForReader(lines[i]) == EndsEvent(lines[i]) <==> !Misframed(lines[i]))
    {
      ReaderClosesAt(lines[i]);
    }
  }

  /** After a stream was stopped and `notice` was written, a client finds the events that were
      sent and the notice as an event of its own if and only if no line that was sent is
      misframed: after such a line the client is still inside an event. */
  lemma {:induction false} ClientFrames(input: Text, broken: bool, limit: nat, sent: nat, notice: Text)
    requires AllClosed(Frames([], input, broken, limit), sent) && OneGroup(notice)
    ensures var events := Frames([], input, broken, limit).events[..sent];
            var lines := Lines(Concat(events));
      ReferenceEvents(Concat(events) + notice) == events + [notice] <==>
      forall i :: 0 <= i < |lines| ==> !Misframed(lines[i])
  {
    SentLines(input, broken, limit, sent);
    var events := Frames([], input, broken, limit).events[..sent];
    NoticeAfterText(Concat(events), Lines(Concat(events)), events, notice);
  }

  lemma {:induction false} NoticeAfterText(text: Text, lines: seq<Text>, events: seq<Text>, notice: Text)
    requires lines == Lines(text) && (text == [] || text[|text| - 1] == LF)
    requires lines != [] ==> ClosesForReader(lines[|lines| - 1])
    requires Grouped(lines, [], ClosesForReader) == events && OneGroup(notice)
    ensures ReferenceEvents(text + notice) == events + [notice] <==>
            forall i :: 0 <= i < |lines| ==> !Misframed(lines[i])
  {
    LinesAppend(text, notice);
    NoticeAfterLines(lines, events, notice);
  }

  lemma {:induction false} EndsInNewline(text: Text)
    requires !LeftOpen([], text)
    ensures text == [] || text[|text| - 1] == LF
    decreases |text|
  {
    if text != [] {
      var n := LineLength(text);
      assert Lines(text)[0] == text[..n] && Lines(text)[1..] == Lines(text[n..]);
      if text[n..] == [] {
        assert text[..n] == text;
      } else {
        EndsInNewline(text[n..]);
      }
    }
  }
}
