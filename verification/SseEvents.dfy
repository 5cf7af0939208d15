/** Event contents of internal/stream/sse.go: the `data` lines of an event and the
    fragments found in them.  JSON decoding and Unicode trimming are arbitrary functions. */
module SseEvents {
  import opened ByteStrings
  import opened SseFraming

  const DATA: Text := [100, 97, 116, 97]
  const COLON: byte := 58
  const SPACE: byte := 32
  const DONE: Text := [91, 68, 79, 78, 69, 93]

  /** The pieces after each newline; there is always a last piece, possibly empty. */
  function SplitAfter(s: Text): (pieces: seq<Text>)
    ensures |pieces| > 0
    decreases |s|
  {
    if !HasNewline(s) then [s] else [s[..LineLength(s)]] + SplitAfter(s[LineLength(s)..])
  }

  function DropSpace(value: Text): Text {
    if value != [] && value[0] == SPACE then value[1..] else value
  }

  /** What one line adds to the data of its event. */
  function ParseLine(line: Text): Option<Text> {
    var l := TrimLineEnd(line);
    if !(DATA <= l) then None
    else if |l| == |DATA| then Some([])
    else if l[|DATA|] != COLON then None
    else Some(DropSpace(l[|DATA| + 1..]))
  }

  function Values(lines: seq<Text>): seq<Text> {
    if lines == [] then []
    else (match ParseLine(lines[0]) case None => [] case Some(v) => [v]) + Values(lines[1..])
  }

  function JoinLines(values: seq<Text>): Text {
    if values == [] then []
    else if |values| == 1 then values[0]
    else values[0] + [LF] + JoinLines(values[1..])
  }

  /** The loop of `parseEvent` over the lines of an event. */
  method ParseData(raw: Text) returns (data: Text)
    ensures data == JoinLines(Values(SplitAfter(raw)))
  {
    var dataLines := CollectValues(SplitAfter(raw));
    data := JoinLines(dataLines);
  }

  method CollectValues(lines: seq<Text>) returns (values: seq<Text>)
    ensures values == Values(lines)
  {
    values := [];
    for i := 0 to |lines|
      invariant values + Values(lines[i..]) == Values(lines)
    {
      ValuesFrom(lines, i);
      var value := ParseLine(lines[i]);
      if value.Some? {
        values := values + [value.value];
      }
    }
    assert values + Values(lines[|lines|..]) == values;
  }

  lemma {:induction false} ValuesFrom(lines: seq<Text>, i: nat)
    requires i < |lines|
    ensures Values(lines[i..]) ==
              (match ParseLine(lines[i]) case None => [] case Some(v) => [v]) + Values(lines[i + 1..])
  {
    assert lines[i..] == [lines[i]] + lines[i + 1..];
    ValuesFirst(lines[i], lines[i + 1..]);
  }

  // ---------------------------------------------------------------------------------
  // Section 9.2.6 of the HTML standard, "Interpreting an event stream"
  // ---------------------------------------------------------------------------------

  function FirstLineEnd(s: Text): (k: nat)
    ensures k <= |s|
    ensures forall i :: 0 <= i < k ==> s[i] != CR && s[i] != LF
    ensures k < |s| ==> s[k] == CR || s[k] == LF
  {
    if s == [] || s[0] == CR || s[0] == LF then 0 else 1 + FirstLineEnd(s[1..])
  }

  /** Lines end at a CR LF pair, a lone LF or a lone CR. */
  function StreamLines(s: Text): seq<Text>
    decreases |s|
  {
    var k := FirstLineEnd(s);
    if s == [] then []
    else if k == |s| then [s]
    else
      var skip := if s[k] == CR && k + 1 < |s| && s[k + 1] == LF then 2 else 1;
      [s[..k]] + StreamLines(s[k + skip..])
  }

  function ColonAt(line: Text): (k: nat)
    ensures k <= |line|
    ensures forall i :: 0 <= i < k ==> line[i] != COLON
    ensures k < |line| ==> line[k] == COLON
  {
    if line == [] || line[0] == COLON then 0 else 1 + ColonAt(line[1..])
  }

  function FieldName(line: Text): Text { line[..ColonAt(line)] }

  function FieldValue(line: Text): Text {
    if ColonAt(line) == |line| then [] else DropSpace(line[ColonAt(line) + 1..])
  }

  /** Every `data` field appends its value and a line feed to the data buffer. */
  function DataBuffer(lines: seq<Text>): Text {
    if lines == [] then []
    else (if FieldName(lines[0]) == DATA then FieldValue(lines[0]) + [LF] else []) + DataBuffer(lines[1..])
  }

  /** The data of a dispatched event: the buffer without its last line feed. */
  function EventData(raw: Text): Text {
    TrimSuffixByte(DataBuffer(StreamLines(raw)), LF)
  }

  predicate NoLoneCR(s: Text) {
    forall k :: 0 <= k < |s| && s[k] == CR ==> k + 1 < |s| && s[k + 1] == LF
  }

  function FieldValues(lines: seq<Text>): seq<Text> {
    if lines == [] then []
    else (if FieldName(lines[0]) == DATA then [FieldValue(lines[0])] else []) + FieldValues(lines[1..])
  }

  /** The prefix test of the code picks exactly the lines whose field is `data`. */
  lemma {:induction false} FieldAgrees(whole: Text)
    ensures var line := TrimLineEnd(whole);
      ParseLine(whole) == if FieldName(line) == DATA then Some(FieldValue(line)) else None
  {
    var line := TrimLineEnd(whole);
    assert ColonAt(line) == 4 ==> line[..4] == FieldName(line);
    if DATA <= line {
      assert forall i :: 0 <= i < 4 ==> line[i] == DATA[i];
      if |line| > 4 && line[4] == COLON {
        assert ColonAt(line) == 4;
        assert line[..4] == DATA;
      } else if |line| > 4 {
        assert line[4] != COLON && ColonAt(line) > 4;
      } else {
        assert line == DATA && ColonAt(line) == 4;
      }
    }
  }

  lemma {:induction false} FirstLineAgrees(raw: Text)
    requires NoLoneCR(raw) && HasNewline(raw)
    ensures var n := LineLength(raw);
      StreamLines(raw) == [TrimLineEnd(raw[..n])] + StreamLines(raw[n..])
  {
    var n := LineLength(raw);
    var k := LineEndBeforeNewline(raw);
    TrimEol(raw[..k], raw[k..n]);
    assert raw[..k] + raw[k..n] == raw[..n];
    StreamLinesFirst(raw, k, n);
  }

  lemma {:induction false} StreamLinesFirst(raw: Text, k: nat, n: nat)
    requires k == FirstLineEnd(raw) < n <= |raw| && IsEol(raw[k..n])
    ensures StreamLines(raw) == [raw[..k]] + StreamLines(raw[n..])
  {
    assert raw[k] == raw[k..n][0];
    if n == k + 2 {
      assert raw[k + 1] == raw[k..n][1];
    }
    var skip := if raw[k] == CR && k + 1 < |raw| && raw[k + 1] == LF then 2 else 1;
    assert k + skip == n;
  }

  /** Without a lone CR the first line end is the first LF, or the CR before it. */
  lemma {:induction false} LineEndBeforeNewline(raw: Text) returns (k: nat)
    requires NoLoneCR(raw) && HasNewline(raw)
    ensures var n := LineLength(raw);
      && k == FirstLineEnd(raw) < n && IsEol(raw[k..n])
      && (k > 0 ==> raw[k - 1] != CR)
  {
    var n := LineLength(raw);
    k := FirstLineEnd(raw);
    assert raw[n - 1] == LF;
    if k < n - 1 {
      assert raw[k] == CR && raw[k + 1] == LF;
      assert raw[k..n] == [CR, LF];
    } else {
      assert raw[k..n] == [LF];
    }
  }

  lemma {:induction false} ValuesAgree(raw: Text)
    requires NoLoneCR(raw)
    ensures Values(SplitAfter(raw)) == FieldValues(StreamLines(raw))
    decreases |raw|
  {
    if HasNewline(raw) {
      var n := LineLength(raw);
      NoLoneCRAfter(raw, n);
      ValuesAgree(raw[n..]);
      FirstLineAgrees(raw);
      FieldAgrees(raw[..n]);
      ValuesFirst(raw[..n], SplitAfter(raw[n..]));
      FieldValuesFirst(TrimLineEnd(raw[..n]), StreamLines(raw[n..]));
    } else {
      LastLineAgrees(raw);
    }
  }

  lemma {:induction false} NoLoneCRAfter(raw: Text, n: nat)
    requires NoLoneCR(raw) && n <= |raw|
    ensures NoLoneCR(raw[n..])
  {
    assert forall k :: 0 <= k < |raw[n..]| ==> raw[n..][k] == raw[n + k];
  }

  lemma {:induction false} LastLineAgrees(raw: Text)
    requires NoLoneCR(raw) && !HasNewline(raw)
    ensures Values(SplitAfter(raw)) == FieldValues(StreamLines(raw))
  {
    assert forall k :: 0 <= k < |raw| ==> raw[k] != LF;
    assert forall k :: 0 <= k < |raw| && raw[k] == CR ==> raw[k + 1] == LF;
    FieldAgrees(raw);
    ValuesFirst(raw, []);
    FieldValuesFirst(raw, []);
    assert [raw] + [] == [raw];
  }

  lemma {:induction false} FieldValuesFirst(line: Text, rest: seq<Text>)
    ensures FieldValues([line] + rest)
         == (if FieldName(line) == DATA then [FieldValue(line)] else []) + FieldValues(rest)
  {
    assert ([line] + rest)[1..] == rest;
  }

  lemma {:induction false} ValuesFirst(line: Text, rest: seq<Text>)
    ensures Values([line] + rest) == (match ParseLine(line) case None => [] case Some(v) => [v]) + Values(rest)
  {
    assert ([line] + rest)[1..] == rest;
  }

  lemma {:induction false} JoinFirst(value: Text, rest: seq<Text>)
    ensures JoinLines([value] + rest) == if rest == [] then value else value + [LF] + JoinLines(rest)
  {
    assert ([value] + rest)[1..] == rest;
  }

  lemma {:induction false} JoinIsBuffer(lines: seq<Text>)
    ensures DataBuffer(lines) == if FieldValues(lines) == [] then [] else JoinLines(FieldValues(lines)) + [LF]
  {
    if lines != [] {
      JoinIsBuffer(lines[1..]);
      var rest := FieldValues(lines[1..]);
      if FieldName(lines[0]) == DATA {
        JoinFirst(FieldValue(lines[0]), rest);
      } else {
        assert [] + rest == rest;
      }
    }
  }

  /** For events whose line ends are LF or CR LF, `Data` is the data buffer the standard
      would dispatch. */
  lemma {:induction false} DataIsStandard(raw: Text)
    requires NoLoneCR(raw)
    ensures JoinLines(Values(SplitAfter(raw))) == EventData(raw)
  {
    ValuesAgree(raw);
    JoinIsBuffer(StreamLines(raw));
  }

  /** Lines that end at LF only, without it and without a CR before it. */
  function FeedLines(lines: seq<Text>): seq<Text> {
    if lines == [] then [] else [TrimLineEnd(lines[0])] + FeedLines(lines[1..])
  }

  /** The data of an event, by the standard; the code does not take a lone CR for a line end. */
  function DataSeen(raw: Text): Text {
    if NoLoneCR(raw) then EventData(raw) else TrimSuffixByte(DataBuffer(FeedLines(Lines(raw))), LF)
  }

  /** Whatever the event, `Data` is its data. */
  lemma {:induction false} DataIsSeen(raw: Text)
    ensures JoinLines(Values(SplitAfter(raw))) == DataSeen(raw)
  {
    if NoLoneCR(raw) {
      DataIsStandard(raw);
    } else {
      FeedValuesAgree(raw);
      JoinIsBuffer(FeedLines(Lines(raw)));
    }
  }

  lemma {:induction false} FeedValuesAgree(raw: Text)
    ensures Values(SplitAfter(raw)) == FieldValues(FeedLines(Lines(raw)))
    decreases |raw|
  {
    if raw == [] {
      FieldAgrees([]);
      ValuesFirst([], []);
      assert [[]] + [] == SplitAfter(raw);
    } else {
      var n := LineLength(raw);
      FieldAgrees(raw[..n]);
      FeedFirst(raw);
      if HasNewline(raw) {
        FeedValuesAgree(raw[n..]);
        ValuesFirst(raw[..n], SplitAfter(raw[n..]));
        FieldValuesFirst(TrimLineEnd(raw[..n]), FeedLines(Lines(raw[n..])));
      } else {
        ValuesFirst(raw, []);
        FieldValuesFirst(TrimLineEnd(raw), []);
        assert raw[..n] == raw && raw[n..] == [] && [raw] + [] == SplitAfter(raw);
      }
    }
  }

  lemma {:induction false} FeedFirst(raw: Text)
    requires raw != []
    ensures var n := LineLength(raw); FeedLines(Lines(raw)) == [TrimLineEnd(raw[..n])] + FeedLines(Lines(raw[n..]))
  {
    var n := LineLength(raw);
    var lines := Lines(raw);
    assert lines == [raw[..n]] + Lines(raw[n..]);
    assert lines[0] == raw[..n] && lines[1..] == Lines(raw[n..]);
  }

  // ---------------------------------------------------------------------------------
  // Writing an event and reading it back
  // ---------------------------------------------------------------------------------

  predicate IsEol(eol: Text) { eol == [LF] || eol == [CR, LF] }

  /** A value that survives: a newline would split it, a final CR would be trimmed. */
  predicate Encodable(value: Text) {
    LF !in value && (value == [] || value[|value| - 1] != CR)
  }

  function DataLine(value: Text, eol: Text): Text {
    DATA + [COLON, SPACE] + value + eol
  }

  /** One `data` line per value, closed by a blank line. */
  function Encoded(values: seq<Text>, eol: Text): Text {
    if values == [] then eol else DataLine(values[0], eol) + Encoded(values[1..], eol)
  }

  lemma {:induction false} DataLineFirst(value: Text, eol: Text, rest: Text)
    requires IsEol(eol) && Encodable(value)
    ensures var l := DataLine(value, eol);
      && LineLength(l + rest) == |l| && (l + rest)[..|l|] == l && (l + rest)[|l|..] == rest
      && HasNewline(l + rest)
  {
    var l := DataLine(value, eol);
    var whole := l + rest;
    assert l[|l| - 1] == LF && whole[|l| - 1] == LF;
    assert forall k :: 0 <= k < |l| - 1 ==> l[k] != LF;
    assert forall k :: 0 <= k < |l| - 1 ==> whole[k] == l[k];
  }

  lemma {:induction false} TrimEol(t: Text, eol: Text)
    requires IsEol(eol) && (t == [] || t[|t| - 1] != CR)
    ensures TrimLineEnd(t + eol) == t
  {
    if eol == [LF] {
      assert (t + eol)[..|t|] == t;
    } else {
      assert (t + eol)[..|t| + 1] == t + [CR];
      assert (t + [CR])[..|t|] == t;
    }
  }

  lemma {:induction false} DataLineParses(value: Text, eol: Text)
    requires IsEol(eol) && Encodable(value)
    ensures ParseLine(DataLine(value, eol)) == Some(value) && !EndsEvent(DataLine(value, eol))
  {
    var t := DATA + [COLON, SPACE] + value;
    TrimEol(t, eol);
    assert DataLine(value, eol) == t + eol;
    assert t[|DATA| + 1..] == [SPACE] + value;
    assert t[..|DATA|] == DATA;
  }

  lemma {:induction false} EolAlone(eol: Text)
    requires IsEol(eol)
    ensures SplitAfter(eol) == [eol, []] && Lines(eol) == [eol]
    ensures EndsEvent(eol) && ParseLine(eol).None? && ParseLine([]).None?
  {
    assert eol[|eol| - 1] == LF;
    assert LineLength(eol) == |eol| && eol[..|eol|] == eol && eol[|eol|..] == [];
    TrimEol([], eol);
    assert [] + eol == eol;
  }

  /** Parsing what was written returns the values, for every list of values. */
  lemma {:induction false} EncodedRoundTrip(values: seq<Text>, eol: Text)
    requires IsEol(eol) && forall i :: 0 <= i < |values| ==> Encodable(values[i])
    ensures Values(SplitAfter(Encoded(values, eol))) == values
    decreases |values|
  {
    if values == [] {
      EolAlone(eol);
      NoValues(eol);
    } else {
      var rest := Encoded(values[1..], eol);
      DataLineFirst(values[0], eol, rest);
      DataLineParses(values[0], eol);
      EncodedRoundTrip(values[1..], eol);
      SplitFirst(DataLine(values[0], eol), rest);
      ValuesFirst(DataLine(values[0], eol), SplitAfter(rest));
    }
  }

  lemma {:induction false} SplitFirst(l: Text, rest: Text)
    requires HasNewline(l + rest) && LineLength(l + rest) == |l|
    requires (l + rest)[..|l|] == l && (l + rest)[|l|..] == rest
    ensures SplitAfter(l + rest) == [l] + SplitAfter(rest)
  {
  }

  lemma {:induction false} NoValues(line: Text)
    requires ParseLine(line).None? && ParseLine([]).None?
    ensures Values([line, []]) == []
  {
    ValuesFirst([], []);
    ValuesFirst(line, [[]]);
    assert [line] + [[]] == [line, []];
  }

  function DataLines(values: seq<Text>, eol: Text): seq<Text> {
    seq(|values|, i requires 0 <= i < |values| => DataLine(values[i], eol))
  }

  lemma {:induction false} EncodedLines(values: seq<Text>, eol: Text)
    requires IsEol(eol) && forall i :: 0 <= i < |values| ==> Encodable(values[i])
    ensures Lines(Encoded(values, eol)) == DataLines(values, eol) + [eol]
    decreases |values|
  {
    if values == [] {
      EolAlone(eol);
    } else {
      var l, rest := DataLine(values[0], eol), Encoded(values[1..], eol);
      DataLineFirst(values[0], eol, rest);
      EncodedLines(values[1..], eol);
      LinesFirst(l, rest);
      DataLinesFirst(values, eol);
    }
  }

  lemma {:induction false} DataLinesFirst(values: seq<Text>, eol: Text)
    requires values != []
    ensures DataLines(values, eol) + [eol] == [DataLine(values[0], eol)] + (DataLines(values[1..], eol) + [eol])
  {
  }

  /** By the format, what was written is one event. */
  lemma {:induction false} EncodedIsOneGroup(values: seq<Text>, eol: Text, current: Text)
    requires IsEol(eol) && forall i :: 0 <= i < |values| ==> Encodable(values[i])
    ensures Grouped(Lines(Encoded(values, eol)), current, EndsEvent) == [current + Encoded(values, eol)]
    decreases |values|
  {
    if values == [] {
      EolAlone(eol);
      assert Lines(eol)[1..] == [];
    } else {
      var l, rest := DataLine(values[0], eol), Encoded(values[1..], eol);
      DataLineFirst(values[0], eol, rest);
      DataLineParses(values[0], eol);
      EncodedIsOneGroup(values[1..], eol, current + l);
      var lines := Lines(Encoded(values, eol));
      assert lines[0] == l && lines[1..] == Lines(rest);
      assert (current + l) + rest == current + (l + rest);
    }
  }

  /** The line end of the data line of a value does not start a fresh slice of the reader. */
  predicate FitsSlices(value: Text, eol: Text) {
    && (|value| + |DATA| + 2) % BUFFER != 0
    && (eol == [CR, LF] ==> (|value| + |DATA| + 3) % BUFFER != 0)
  }

  lemma {:induction false} FitsSlicesExactly(value: Text, eol: Text)
    requires IsEol(eol) && Encodable(value)
    ensures Misframed(DataLine(value, eol)) <==> !FitsSlices(value, eol)
  {
    var t := DATA + [COLON, SPACE] + value;
    var l := DataLine(value, eol);
    assert l == t + eol && t[|t| - 1] != CR && |t| == |value| + |DATA| + 2;
    MisframedEnd(t, eol);
  }

  lemma {:induction false} MisframedEnd(t: Text, eol: Text)
    requires IsEol(eol) && t != [] && t[|t| - 1] != CR
    ensures Misframed(t + eol) <==> |t| % BUFFER == 0 || (eol == [CR, LF] && (|t| + 1) % BUFFER == 0)
  {
    var l := t + eol;
    assert l[|l| - 1] == LF && l[|l| - 2] == if eol == [LF] then t[|t| - 1] else CR;
    assert |t| % BUFFER == 0 ==> |t| >= BUFFER;
    assert (|t| + 1) % BUFFER == 0 ==> |t| + 1 >= BUFFER;
  }

  /** The reader takes what was written for one event if and only if no data line ends on a
      fresh slice of its buffer. */
  lemma {:induction false} EncodedIsOneEvent(values: seq<Text>, eol: Text, limit: nat)
    requires IsEol(eol) && forall i :: 0 <= i < |values| ==> Encodable(values[i])
    requires |Encoded(values, eol)| <= limit
    ensures Frames([], Encoded(values, eol), false, limit) == Framing([Encoded(values, eol)], Eof)
       <==> forall i :: 0 <= i < |values| ==> FitsSlices(values[i], eol)
  {
    var input := Encoded(values, eol);
    EncodedIsOneGroup(values, eol, []);
    assert [] + input == input;
    BoundariesAtBlankLines(input, limit);
    LargeLimit([], input, limit);
    EncodedMisframed(values, eol);
  }

  lemma {:induction false} EncodedMisframed(values: seq<Text>, eol: Text)
    requires IsEol(eol) && forall i :: 0 <= i < |values| ==> Encodable(values[i])
    ensures NoMisframedLine(Encoded(values, eol)) <==> forall i :: 0 <= i < |values| ==> FitsSlices(values[i], eol)
  {
    EncodedLines(values, eol);
    var lines := Lines(Encoded(values, eol));
    forall i | 0 <= i < |values|
      ensures Misframed(lines[i]) <==> !FitsSlices(values[i], eol)
    {
      FitsSlicesExactly(values[i], eol);
      assert lines[i] == DataLine(values[i], eol);
    }
  }

  // ---------------------------------------------------------------------------------
  // Events
  // ---------------------------------------------------------------------------------

  /** A piece of model output on one semantic channel (a choice, a tool call, an item). */
  datatype Fragment = Fragment(channel: string, text: Text)

  datatype SseEvent = SseEvent(raw: Text, data: Text, done: bool, fragments: seq<Fragment>)

  /** Library functions of the event parser: Unicode trimming and JSON extraction. */
  datatype EventLibrary = EventLibrary(trimSpace: Text -> Text, extract: Text -> seq<Fragment>)

  function Parsed(raw: Text, lib: EventLibrary): SseEvent {
    var data := JoinLines(Values(SplitAfter(raw)));
    var done := lib.trimSpace(data) == DONE;
    SseEvent(raw, data, done, if done then [] else lib.extract(data))
  }

  /** What an event shows the inspector: the fragments of its data, and nothing for the end
      marker. */
  function Shown(raw: Text, lib: EventLibrary): seq<Fragment> {
    var data := DataSeen(raw);
    if lib.trimSpace(data) == DONE then [] else lib.extract(data)
  }

  function ShownBy(events: seq<Text>, lib: EventLibrary): seq<Fragment> {
    if events == [] then [] else Shown(events[0], lib) + ShownBy(events[1..], lib)
  }

  method ParseEvent(raw: Text, lib: EventLibrary) returns (event: SseEvent)
    ensures event == Parsed(raw, lib)
    ensures event.raw == raw && event.data == DataSeen(raw) && event.fragments == Shown(raw, lib)
    ensures event.done <==> lib.trimSpace(DataSeen(raw)) == DONE
  {
    DataIsSeen(raw);
    var data := ParseData(raw);
    var done := lib.trimSpace(data) == DONE;
    event := SseEvent(raw, data, done, if done then [] else lib.extract(data));
  }

  lemma {:induction false} ParsedShows(raw: Text, lib: EventLibrary)
    ensures Parsed(raw, lib).fragments == Shown(raw, lib)
  {
    DataIsSeen(raw);
  }

  /** A written value is what the inspector sees of it. */
  lemma {:induction false} EncodedIsShown(value: Text, eol: Text, lib: EventLibrary)
    requires IsEol(eol) && Encodable(value)
    ensures var event := Parsed(Encoded([value], eol), lib);
      && event.data == value
      && (event.done <==> lib.trimSpace(value) == DONE)
      && (!event.done ==> event.fragments == lib.extract(value))
  {
    EncodedRoundTrip([value], eol);
  }

  lemma {:induction false} ShownBySnoc(events: seq<Text>, raw: Text, lib: EventLibrary)
    ensures ShownBy(events + [raw], lib) == ShownBy(events, lib) + Shown(raw, lib)
  {
    var more := events + [raw];
    if events == [] {
      assert more[0] == raw && more[1..] == [];
    } else {
      assert more[0] == events[0] && more[1..] == events[1..] + [raw];
      ShownBySnoc(events[1..], raw, lib);
    }
  }

  lemma {:induction false} ShownLast(events: seq<Text>, lib: EventLibrary)
    requires events != []
    ensures var k := |events| - 1; ShownBy(events, lib) == ShownBy(events[..k], lib) + Parsed(events[k], lib).fragments
  {
    var k := |events| - 1;
    assert events == events[..k] + [events[k]];
    ShownBySnoc(events[..k], events[k], lib);
    ParsedShows(events[k], lib);
  }
}
