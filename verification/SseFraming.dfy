/** Event framing of internal/stream/sse.go: cutting a byte stream into events through a
    buffered reader of fixed size, without changing a byte. */
module SseFraming {
  import opened ByteStrings

  /** The size of the buffered reader that `Copy` puts in front of the source. */
  const BUFFER: nat := 32 * 1024

  const LF: byte := 10
  const CR: byte := 13

  predicate HasNewline(s: Text) { LF in s }

  /** The bytes up to and including the first newline, or everything if there is none. */
  function LineLength(s: Text): (n: nat)
    ensures n <= |s|
    ensures s != [] ==> n > 0
    ensures forall k :: 0 <= k < n - 1 ==> s[k] != LF
    ensures n < |s| ==> s[n - 1] == LF
    ensures HasNewline(s) <==> n > 0 && s[n - 1] == LF
  {
    if s == [] then 0
    else if s[0] == LF then 1
    else
      assert s == [s[0]] + s[1..];
      1 + LineLength(s[1..])
  }

  function TrimSuffixByte(line: Text, b: byte): Text {
    if line != [] && line[|line| - 1] == b then line[..|line| - 1] else line
  }

  function TrimLineEnd(line: Text): Text {
    TrimSuffixByte(TrimSuffixByte(line, LF), CR)
  }

  predicate IsBlankLine(line: Text) {
    TrimLineEnd(line) == []
  }

  // ---------------------------------------------------------------------------------
  // The buffered source
  // ---------------------------------------------------------------------------------

  datatype SliceStatus = Delimited | BufferFull | SourceEnd

  /** What is left of the source.  `broken` tells a source that ends in a read error from
      one that ends normally.  How the source splits its bytes into reads cannot be seen
      through `ReadSlice`, up to the choice at the end of a full buffer below. */
  class Reader {
    var rest: Text
    const broken: bool

    constructor (input: Text, broken: bool)
      ensures rest == input && this.broken == broken
    {
      rest, this.broken := input, broken;
    }

    /** The next bytes up to a newline, at most a buffer full of them. */
    method ReadSlice() returns (line: Text, status: SliceStatus)
      modifies this
      ensures line == old(rest)[..SliceLength(old(rest))] && rest == old(rest)[SliceLength(old(rest))..]
      ensures status.Delimited? <==> line != [] && line[|line| - 1] == LF
      ensures status.BufferFull? ==> line != []
      ensures status.SourceEnd? ==> rest == []
    {
      var n := SliceLength(rest);
      line := rest[..n];
      if n > 0 && line[n - 1] == LF {
        status := Delimited;
      } else if n < |rest| {
        status := BufferFull;
      } else if n == BUFFER {
        // the end of the source may or may not have been seen already
        var endSeen: bool := *;
        status := if endSeen then SourceEnd else BufferFull;
      } else {
        status := SourceEnd;
      }
      rest := rest[n..];
    }
  }

  /** The length of the next slice: a whole line, cut at the buffer size. */
  function SliceLength(s: Text): (n: nat)
    ensures n <= |s| && (s != [] ==> n > 0)
  {
    if LineLength(s) <= BUFFER then LineLength(s) else BUFFER
  }

  // ---------------------------------------------------------------------------------
  // Reading one event
  // ---------------------------------------------------------------------------------

  datatype Reading =
    | Event(raw: Text, rest: Text, last: bool)
    | Finished
    | TooLarge
    | Failed

  /** The event that starts with the bytes `raw` already read, by slices. */
  function NextEvent(raw: Text, rest: Text, broken: bool, limit: nat): (r: Reading)
    ensures r.Event? ==> r.raw != [] && |r.raw| + |r.rest| == |raw| + |rest|
    decreases |rest|
  {
    if rest == [] then
      if broken then Failed else if raw == [] then Finished else Event(raw, [], true)
    else
      var n := SliceLength(rest);
      var line := rest[..n];
      if |raw| + n > limit then TooLarge
      else if line[n - 1] == LF && IsBlankLine(line) then Event(raw + line, rest[n..], false)
      else NextEvent(raw + line, rest[n..], broken, limit)
  }

  /** An event is made of the bytes at hand, within the limit; the limit is only reported
      when the bytes at hand exceed it. */
  lemma {:induction false} NextEventBytes(raw: Text, rest: Text, broken: bool, limit: nat)
    ensures var r := NextEvent(raw, rest, broken, limit);
      && (r.Event? ==> r.raw + r.rest == raw + rest)
      && (r.Event? && |raw| <= limit ==> |r.raw| <= limit)
      && (r.Event? && r.last ==> r.rest == [])
      && (r.Finished? ==> raw + rest == [] && !broken)
      && (r.Failed? ==> broken)
      && (r.TooLarge? ==> |raw| + |rest| > limit)
    decreases |rest|
  {
    if rest != [] {
      var n := SliceLength(rest);
      NextEventBytes(raw + rest[..n], rest[n..], broken, limit);
      assert raw + rest == (raw + rest[..n]) + rest[n..];
    }
  }

  lemma {:induction false} Sliced(raw: Text, rest: Text, line: Text, later: Text, broken: bool, limit: nat)
    requires line == rest[..SliceLength(rest)] && later == rest[SliceLength(rest)..]
    ensures NextEvent(raw, rest, broken, limit) ==
              if line == [] then if broken then Failed else if raw == [] then Finished else Event(raw, [], true)
              else if |raw| + |line| > limit then TooLarge
              else if line[|line| - 1] == LF && IsBlankLine(line) then Event(raw + line, later, false)
              else NextEvent(raw + line, later, broken, limit)
    ensures line == [] ==> rest == []
    ensures line != [] ==> |later| < |rest|
  {
  }

  /** `readEvent`: gather slices until a blank line, the end of the source, or the limit. */
  method ReadEvent(reader: Reader, limit: nat) returns (r: Reading)
    modifies reader
    ensures r == NextEvent([], old(reader.rest), reader.broken, limit)
    ensures r.Event? ==> reader.rest == r.rest
  {
    var raw: Text := [];
    ghost var next := NextEvent([], reader.rest, reader.broken, limit);
    while true
      invariant NextEvent(raw, reader.rest, reader.broken, limit) == next
      decreases |reader.rest|
    {
      ghost var before := reader.rest;
      var line, status := reader.ReadSlice();
      Sliced(raw, before, line, reader.rest, reader.broken, limit);
      if |line| > 0 {
        if |raw| + |line| > limit {
          return TooLarge;
        }
        raw := raw + line;
        if status.Delimited? && IsBlankLine(line) {
          return Event(raw, reader.rest, false);
        }
      }
      if status.BufferFull? {
        continue;
      }
      if status.SourceEnd? {
        if reader.broken {
          return Failed;
        }
        if |raw| == 0 {
          return Finished;
        }
        return Event(raw, [], true);
      }
    }
  }

  // ---------------------------------------------------------------------------------
  // The whole stream
  // ---------------------------------------------------------------------------------

  datatype Ending = Eof | Oversized | ReadError

  datatype Framing = Framing(events: seq<Text>, ending: Ending)

  function Prepend(event: Text, f: Framing): Framing {
    Framing([event] + f.events, f.ending)
  }

  /** All events `Copy` reads if nobody stops it, and how the stream ends. */
  function Frames(raw: Text, rest: Text, broken: bool, limit: nat): Framing
    decreases |raw| + |rest|
  {
    match NextEvent(raw, rest, broken, limit)
    case Finished => Framing([], Eof)
    case TooLarge => Framing([], Oversized)
    case Failed => Framing([], ReadError)
    case Event(event, rest', last) =>
      if last then Framing([event], Eof) else Prepend(event, Frames([], rest', broken, limit))
  }

  /** Framing loses and invents nothing: the events are the input, or the part of it before
      an oversized event or a read error, and every event is within the limit. */
  lemma {:induction false} FramesPreserveBytes(raw: Text, rest: Text, broken: bool, limit: nat)
    requires |raw| <= limit
    ensures var f := Frames(raw, rest, broken, limit);
      && Concat(f.events) <= raw + rest
      && (f.ending.Eof? ==> Concat(f.events) == raw + rest)
      && (forall i :: 0 <= i < |f.events| ==> 0 < |f.events[i]| <= limit)
    decreases |raw| + |rest|
  {
    var r := NextEvent(raw, rest, broken, limit);
    NextEventBytes(raw, rest, broken, limit);
    if r.Event? {
      ConcatFirst(r.raw, []);
      if !r.last {
        FramesPreserveBytes([], r.rest, broken, limit);
        EventThenRest(r.raw, r.rest, raw + rest, Frames([], r.rest, broken, limit).events);
      }
    }
  }

  lemma {:induction false} ConcatFirst(event: Text, events: seq<Text>)
    ensures Concat([event] + events) == event + Concat(events)
  {
    ConcatAppend([event], events);
    assert Concat([event]) == Concat([]) + event;
  }

  lemma {:induction false} EventThenRest(event: Text, rest: Text, whole: Text, events: seq<Text>)
    requires event + rest == whole && Concat(events) <= [] + rest
    ensures Concat([event] + events) <= whole
    ensures Concat(events) == [] + rest ==> Concat([event] + events) == whole
  {
    ConcatFirst(event, events);
    assert [] + rest == rest;
  }

  // ---------------------------------------------------------------------------------
  // Boundaries against blank lines
  // ---------------------------------------------------------------------------------

  /** The lines of a text, each with its newline; the last one may lack it. */
  function Lines(s: Text): (lines: seq<Text>)
    ensures forall i :: 0 <= i < |lines| ==> lines[i] != []
    decreases |s|
  {
    if s == [] then [] else [s[..LineLength(s)]] + Lines(s[LineLength(s)..])
  }

  lemma {:induction false} LinesFirst(line: Text, rest: Text)
    requires line != [] && LineLength(line + rest) == |line|
    ensures Lines(line + rest) == [line] + Lines(rest)
  {
    assert (line + rest)[..|line|] == line && (line + rest)[|line|..] == rest;
  }

  /** Lines joined into events; `ends` tells which line closes an event, and an open last
      event is kept. */
  function Grouped(lines: seq<Text>, current: Text, ends: Text -> bool): seq<Text>
    decreases |lines|
  {
    if lines == [] then if current == [] then [] else [current]
    else if ends(lines[0]) then [current + lines[0]] + Grouped(lines[1..], [], ends)
    else Grouped(lines[1..], current + lines[0], ends)
  }

  /** The events up to the first one above the limit. */
  function Fitting(events: seq<Text>, limit: nat): Framing {
    if events == [] then Framing([], Eof)
    else if |events[0]| > limit then Framing([], Oversized)
    else Prepend(events[0], Fitting(events[1..], limit))
  }

  /** A blank line, as the event stream format means it. */
  predicate EndsEvent(line: Text) {
    line != [] && line[|line| - 1] == LF && IsBlankLine(line)
  }

  /** What the reader takes for a blank line: it only looks at the last slice of a line. */
  predicate ClosesForReader(line: Text) {
    && line != [] && line[|line| - 1] == LF
    && IsBlankLine(line[|line| - 1 - (|line| - 1) % BUFFER..])
  }

  /** A long line whose newline, or carriage return and newline, starts a fresh slice. */
  predicate Misframed(line: Text) {
    && |line| > BUFFER && line[|line| - 1] == LF
    && ((|line| - 1) % BUFFER == 0 || ((|line| - 2) % BUFFER == 0 && line[|line| - 2] == CR))
  }

  /** The reader closes an event at every blank line and, wrongly, at every misframed one. */
  lemma {:induction false} ReaderClosesAt(line: Text)
    ensures ClosesForReader(line) <==> EndsEvent(line) || Misframed(line)
    ensures EndsEvent(line) ==> !Misframed(line)
  {
    if line != [] && line[|line| - 1] == LF {
      BlankShape(line);
      SliceShape(line, (|line| - 1) % BUFFER);
      SecondInSlice(|line| - 1);
    }
  }

  /** The last slice of a line looks blank when it is just the line end. */
  lemma {:induction false} SliceShape(line: Text, f: nat)
    requires f < |line| && line[|line| - 1] == LF
    ensures IsBlankLine(line[|line| - 1 - f..]) <==> f == 0 || (f == 1 && line[|line| - 2] == CR)
  {
    var slice := line[|line| - 1 - f..];
    assert slice[|slice| - 1] == line[|line| - 1] && slice[0] == line[|line| - 1 - f];
    BlankShape(slice);
  }

  lemma {:induction false} WholeSlice(line: Text)
    requires 0 < |line| <= BUFFER
    ensures ClosesForReader(line) <==> EndsEvent(line)
  {
    assert line[|line| - 1 - (|line| - 1) % BUFFER..] == line;
  }

  lemma {:induction false} SecondInSlice(n: nat)
    ensures n >= BUFFER ==> (n % BUFFER == 1 <==> (n - 1) % BUFFER == 0)
    ensures n < BUFFER ==> n % BUFFER == n
  {
  }

  lemma {:induction false} BlankShape(line: Text)
    requires line != [] && line[|line| - 1] == LF
    ensures IsBlankLine(line) <==> |line| == 1 || (|line| == 2 && line[0] == CR)
  {
  }

  /** Where the reader stands after a line: above the limit, at the end of the event, or with
      the line added to it. */
  function AfterLine(raw: Text, line: Text, rest: Text, broken: bool, limit: nat): Reading {
    if |raw| + |line| > limit then TooLarge
    else if ClosesForReader(line) then Event(raw + line, rest, false)
    else NextEvent(raw + line, rest, broken, limit)
  }

  lemma {:induction false} AfterLongLine(raw: Text, line: Text, rest: Text, broken: bool, limit: nat)
    requires BUFFER < |line|
    ensures AfterLine(raw, line, rest, broken, limit) ==
              if |raw| + BUFFER > limit then TooLarge
              else AfterLine(raw + line[..BUFFER], line[BUFFER..], rest, broken, limit)
  {
    LastSlice(line);
    assert (raw + line[..BUFFER]) + line[BUFFER..] == raw + line;
  }

  /** Slice by slice or line by line, the reader gets to the same place. */
  lemma {:induction false} ReadLine(raw: Text, rest: Text, broken: bool, limit: nat)
    requires rest != [] && |raw| <= limit
    ensures var n := LineLength(rest);
      NextEvent(raw, rest, broken, limit) == AfterLine(raw, rest[..n], rest[n..], broken, limit)
    decreases |rest|
  {
    if LineLength(rest) <= BUFFER {
      WholeSlice(rest[..LineLength(rest)]);
    } else {
      LineLengthAfter(rest, BUFFER);
      if |raw| + BUFFER <= limit {
        ReadLine(raw + rest[..BUFFER], rest[BUFFER..], broken, limit);
      }
      ReadLongLine(raw, rest, LineLength(rest), broken, limit);
    }
  }

  lemma {:induction false} ReadLongLine(raw: Text, rest: Text, n: nat, broken: bool, limit: nat)
    requires BUFFER < n == LineLength(rest)
    requires |raw| + BUFFER <= limit ==>
      var later := rest[BUFFER..];
      NextEvent(raw + rest[..BUFFER], later, broken, limit)
        == AfterLine(raw + rest[..BUFFER], later[..n - BUFFER], later[n - BUFFER..], broken, limit)
    ensures NextEvent(raw, rest, broken, limit) == AfterLine(raw, rest[..n], rest[n..], broken, limit)
  {
    FullSlice(raw, rest, broken, limit);
    SliceOff(rest, n);
    AfterLongLine(raw, rest[..n], rest[n..], broken, limit);
  }

  /** The first slice of a long line is a buffer full and closes nothing. */
  lemma {:induction false} FullSlice(raw: Text, rest: Text, broken: bool, limit: nat)
    requires BUFFER < LineLength(rest)
    ensures NextEvent(raw, rest, broken, limit) ==
              if |raw| + BUFFER > limit then TooLarge
              else NextEvent(raw + rest[..BUFFER], rest[BUFFER..], broken, limit)
  {
    assert rest[..BUFFER][BUFFER - 1] == rest[BUFFER - 1] != LF;
  }

  lemma {:induction false} SliceOff(rest: Text, n: nat)
    requires BUFFER < n <= |rest|
    ensures rest[BUFFER..][..n - BUFFER] == rest[..n][BUFFER..] && rest[..n][..BUFFER] == rest[..BUFFER]
    ensures rest[BUFFER..][n - BUFFER..] == rest[n..]
  {
  }

  lemma {:induction false} LineLengthAfter(s: Text, k: nat)
    requires k < LineLength(s)
    ensures LineLength(s[k..]) == LineLength(s) - k
  {
    var n, t := LineLength(s), s[k..];
    assert forall i :: 0 <= i < n - k - 1 ==> t[i] == s[k + i];
    assert n < |s| ==> t[n - k - 1] == LF;
    assert forall i :: 0 <= i < |t| ==> t[i] == s[k + i];
  }

  lemma {:induction false} LastSlice(line: Text)
    requires |line| > BUFFER
    ensures ClosesForReader(line) <==> ClosesForReader(line[BUFFER..])
  {
    var m := |line| - BUFFER;
    SameRemainder(m - 1);
    DropTwice(line, BUFFER, m - 1 - (m - 1) % BUFFER);
  }

  lemma {:induction false} SameRemainder(k: nat)
    ensures (k + BUFFER) % BUFFER == k % BUFFER <= k
  {
  }

  lemma {:induction false} DropTwice(s: Text, i: nat, j: nat)
    requires i + j <= |s|
    ensures s[i..][j..] == s[i + j..]
  {
  }

  lemma {:induction false} FirstGroupGrows(lines: seq<Text>, current: Text, ends: Text -> bool)
    requires lines != [] && lines[0] != []
    ensures var g := Grouped(lines, current, ends); g != [] && |g[0]| >= |current| + |lines[0]|
    decreases |lines|
  {
    if !ends(lines[0]) && |lines| > 1 {
      if lines[1] == [] {
        SkipEmpty(lines[1..], current + lines[0], ends);
      } else {
        FirstGroupGrows(lines[1..], current + lines[0], ends);
      }
    }
  }

  lemma {:induction false} SkipEmpty(lines: seq<Text>, current: Text, ends: Text -> bool)
    requires current != []
    ensures var g := Grouped(lines, current, ends); g != [] && |g[0]| >= |current|
    decreases |lines|
  {
    if lines != [] && !ends(lines[0]) {
      SkipEmpty(lines[1..], current + lines[0], ends);
    }
  }

  /** The events of the reader are the lines grouped at `ClosesForReader`, up to the limit. */
  lemma {:induction false} FramesAreGroups(raw: Text, rest: Text, limit: nat)
    requires |raw| <= limit
    ensures Frames(raw, rest, false, limit) == Fitting(Grouped(Lines(rest), raw, ClosesForReader), limit)
    decreases |rest|
  {
    if rest == [] {
      if raw != [] {
        assert [raw][1..] == [];
      }
    } else {
      var n := LineLength(rest);
      var line, lines := rest[..n], Lines(rest);
      assert lines[0] == line && lines[1..] == Lines(rest[n..]);
      ReadLine(raw, rest, false, limit);
      FirstGroupGrows(lines, raw, ClosesForReader);
      if |raw| + n <= limit {
        if ClosesForReader(line) {
          FramesAreGroups([], rest[n..], limit);
          var g := Grouped(lines, raw, ClosesForReader);
          assert g[1..] == Grouped(Lines(rest[n..]), [], ClosesForReader);
        } else {
          FramesAreGroups(raw + line, rest[n..], limit);
        }
      }
    }
  }

  /** Two notions of a closing line give the same events exactly when they agree on every
      line but the last: an event at the very end closes either way. */
  lemma {:induction false} SameGroups(lines: seq<Text>, current: Text, a: Text -> bool, b: Text -> bool)
    requires forall i :: 0 <= i < |lines| ==> lines[i] != []
    ensures Grouped(lines, current, a) == Grouped(lines, current, b)
       <==> forall i :: 0 <= i < |lines| - 1 ==> a(lines[i]) == b(lines[i])
    decreases |lines|
  {
    if |lines| > 1 {
      var l, rest := lines[0], lines[1..];
      var ga, gb := Grouped(lines, current, a), Grouped(lines, current, b);
      FirstGroupGrows(rest, current + l, a);
      FirstGroupGrows(rest, current + l, b);
      SameGroups(rest, [], a, b);
      SameGroups(rest, current + l, a, b);
      assert (forall i :: 0 <= i < |lines| - 1 ==> a(lines[i]) == b(lines[i])) <==>
               a(l) == b(l) && forall i :: 0 <= i < |rest| - 1 ==> a(rest[i]) == b(rest[i]) by {
        assert forall i :: 0 <= i < |rest| ==> rest[i] == lines[i + 1];
        assert forall i :: 1 <= i < |lines| ==> lines[i] == rest[i - 1];
      }
      if a(l) && b(l) {
        assert ga[1..] == Grouped(rest, [], a) && gb[1..] == Grouped(rest, [], b);
      }
    } else if |lines| == 1 {
      assert lines[1..] == [];
    }
  }

  /** The events as the format defines them: one per blank line, and an open last one. */
  function ReferenceEvents(input: Text): seq<Text> {
    Grouped(Lines(input), [], EndsEvent)
  }

  ghost predicate NoMisframedLine(input: Text) {
    forall i :: 0 <= i < |Lines(input)| - 1 ==> !Misframed(Lines(input)[i])
  }

  lemma {:induction false} AllFit(events: seq<Text>, limit: nat)
    ensures (forall i :: 0 <= i < |events| ==> |events[i]| <= limit) ==> Fitting(events, limit) == Framing(events, Eof)
    ensures !Fitting(events, limit).ending.Oversized? ==> Fitting(events, limit).events == events
  {
    if events != [] {
      assert forall i :: 0 <= i < |events[1..]| ==> events[1..][i] == events[i + 1];
      AllFit(events[1..], limit);
    }
  }

  /** Event boundaries fall exactly at the blank lines, for every input without an event
      above the limit, if and only if no line before the last one is misframed.  Without
      such a line the reader follows the reference up to the limit as well. */
  lemma {:induction false} BoundariesAtBlankLines(input: Text, limit: nat)
    ensures NoMisframedLine(input) ==> Frames([], input, false, limit) == Fitting(ReferenceEvents(input), limit)
    ensures var f := Frames([], input, false, limit);
            f.ending.Eof? ==> (f.events == ReferenceEvents(input) <==> NoMisframedLine(input))
  {
    var lines := Lines(input);
    FramesAreGroups([], input, limit);
    forall i | 0 <= i < |lines|
      ensures ClosesForReader(lines[i]) != EndsEvent(lines[i]) <==> Misframed(lines[i])
    {
      ReaderClosesAt(lines[i]);
    }
    SameGroups(lines, [], ClosesForReader, EndsEvent);
    AllFit(Grouped(lines, [], ClosesForReader), limit);
  }

  lemma {:induction false} LargeLimit(raw: Text, rest: Text, limit: nat)
    requires |raw| + |rest| <= limit
    ensures Frames(raw, rest, false, limit).ending.Eof?
    decreases |raw| + |rest|
  {
    var r := NextEvent(raw, rest, false, limit);
    NextEventBytes(raw, rest, false, limit);
    if r.Event? && !r.last {
      LargeLimit([], r.rest, limit);
    }
  }

  /** The bytes end inside an event. */
  predicate LeftOpen(raw: Text, rest: Text) {
    if rest == [] then raw != [] else !ClosesForReader(Lines(rest)[|Lines(rest)| - 1])
  }

  /** The same events when the source breaks instead of ending: an open last one is lost. */
  function Interrupted(f: Framing, open: bool): Framing {
    if !f.ending.Eof? then f
    else Framing(if open && f.events != [] then f.events[..|f.events| - 1] else f.events, ReadError)
  }

  /** A source that breaks gives the events of the same source ending properly, without an
      open last one, and a read error. */
  lemma {:induction false} BrokenFrames(raw: Text, rest: Text, limit: nat)
    requires |raw| <= limit
    ensures Frames(raw, rest, true, limit) == Interrupted(Frames(raw, rest, false, limit), LeftOpen(raw, rest))
    decreases |rest|
  {
    if rest != [] {
      var n := LineLength(rest);
      if |raw| + n <= limit {
        if ClosesForReader(rest[..n]) {
          BrokenFrames([], rest[n..], limit);
          BrokenAfterEvent(raw, rest, limit);
        } else {
          BrokenFrames(raw + rest[..n], rest[n..], limit);
          BrokenAfterLine(raw, rest, limit);
        }
      } else {
        ReadLine(raw, rest, true, limit);
        ReadLine(raw, rest, false, limit);
      }
    }
  }

  lemma {:induction false} BrokenAfterEvent(raw: Text, rest: Text, limit: nat)
    requires rest != [] && |raw| + LineLength(rest) <= limit && ClosesForReader(rest[..LineLength(rest)])
    requires var later := rest[LineLength(rest)..];
      Frames([], later, true, limit) == Interrupted(Frames([], later, false, limit), LeftOpen([], later))
    ensures Frames(raw, rest, true, limit) == Interrupted(Frames(raw, rest, false, limit), LeftOpen(raw, rest))
  {
    var n := LineLength(rest);
    ReadLine(raw, rest, true, limit);
    ReadLine(raw, rest, false, limit);
    OpenAfterLine(raw, rest);
    OpenEventRemains(rest[n..], limit);
    InterruptedPrepend(raw + rest[..n], Frames([], rest[n..], false, limit), LeftOpen([], rest[n..]));
  }

  lemma {:induction false} BrokenAfterLine(raw: Text, rest: Text, limit: nat)
    requires rest != [] && |raw| + LineLength(rest) <= limit && !ClosesForReader(rest[..LineLength(rest)])
    requires var n := LineLength(rest);
      Frames(raw + rest[..n], rest[n..], true, limit)
        == Interrupted(Frames(raw + rest[..n], rest[n..], false, limit), LeftOpen(raw + rest[..n], rest[n..]))
    ensures Frames(raw, rest, true, limit) == Interrupted(Frames(raw, rest, false, limit), LeftOpen(raw, rest))
  {
    ReadLine(raw, rest, true, limit);
    ReadLine(raw, rest, false, limit);
    OpenAfterLine(raw, rest);
  }

  lemma {:induction false} OpenAfterLine(raw: Text, rest: Text)
    requires rest != []
    ensures var n := LineLength(rest);
      LeftOpen(raw, rest) == if ClosesForReader(rest[..n]) then LeftOpen([], rest[n..])
                             else LeftOpen(raw + rest[..n], rest[n..])
  {
    var n := LineLength(rest);
    assert Lines(rest)[0] == rest[..n] && Lines(rest)[1..] == Lines(rest[n..]);
  }

  lemma {:induction false} OpenEventRemains(rest: Text, limit: nat)
    ensures var f := Frames([], rest, false, limit); f.ending.Eof? && LeftOpen([], rest) ==> f.events != []
  {
    FramesPreserveBytes([], rest, false, limit);
    assert [] + rest == rest;
  }

  lemma {:induction false} InterruptedPrepend(event: Text, f: Framing, open: bool)
    requires f.ending.Eof? && open ==> f.events != []
    ensures Interrupted(Prepend(event, f), open) == Prepend(event, Interrupted(f, open))
  {
    var all := [event] + f.events;
    assert f.events != [] ==> all[..|all| - 1] == [event] + f.events[..|f.events| - 1];
  }

  /** A line of exactly one buffer of content splits the event it belongs to. */
  lemma {:induction false} MisframedLineSplitsEvent(rest: Text)
    requires rest != []
    ensures var input := seq(32_768, _ => 97) + [LF] + rest;
            var events, reference := Frames([], input, false, |input|).events, ReferenceEvents(input);
      && events != [] && events[0] == input[..32_769]
      && reference != [] && |reference[0]| > |events[0]|
  {
    var input := seq(BUFFER, _ => 97) + [LF] + rest;
    assert LineLength(input) == BUFFER + 1 by {
      assert input[BUFFER] == LF;
      assert forall k :: 0 <= k < BUFFER ==> input[k] == 97;
    }
    assert Lines(input)[0] == input[..BUFFER + 1];
    assert Misframed(Lines(input)[0]);
    assert input[BUFFER + 1..] == rest && Lines(input)[1..] == Lines(rest);
    ReaderClosesAt(input[..BUFFER + 1]);
    ReadLine([], input, false, |input|);
    assert [] + input[..BUFFER + 1] == input[..BUFFER + 1];
    FirstGroupGrows(Lines(rest), [] + input[..BUFFER + 1], EndsEvent);
  }
}
