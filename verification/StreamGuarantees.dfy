/** What auditing a stream event by event guarantees about the whole stream. */
module StreamGuarantees {
  import opened ByteStrings
  import opened RuleEngine
  import opened Policies
  import opened SseFraming
  import opened SseEvents
  import opened RollingWindows
  import opened StreamAudit
  import opened StreamCopy
  import opened ClientView

  // ---------------------------------------------------------------------------------
  // Serving a stream
  // ---------------------------------------------------------------------------------

  /** The bytes of a string of printable ASCII characters, as all fixed texts here are; any other
      character would become a question mark. */
  function Ascii(s: string): Text {
    seq(|s|, i requires 0 <= i < |s| => if 32 <= s[i] as int < 127 then s[i] as int else 63)
  }

  /** The event that ends a stopped stream; `json` encodes a string. */
  function TerminationPayload(code: string, requestID: string, json: string -> Text): Text {
    var message := if code == "sse_event_too_large" then "stream event exceeds configured size limit"
                   else "stream response blocked by audit policy";
    Framed(Ascii("{\"error\":{\"type\":\"security_termination\",\"code\":"), json(code), Ascii(",\"message\":"),
           json(message), Ascii(",\"request_id\":"), json(requestID), Ascii("}}"))
  }

  /** Three values in their frame. */
  function Framed(a: Text, x: Text, b: Text, y: Text, c: Text, z: Text, d: Text): Text {
    a + x + b + y + c + z + d
  }

  function SecurityTermination(code: string, requestID: string, json: string -> Text): Text {
    WithHeader(Ascii("event: gateway.security_terminated"), TerminationPayload(code, requestID, json))
  }

  /** An event of two fields: the header line and one data line. */
  function WithHeader(header: Text, payload: Text): Text {
    (header + [LF]) + Encoded([payload], [LF])
  }

  /** The last words for a stream stopped by policy and for one stopped by the size limit. */
  datatype Farewells = Farewells(blocked: Text, tooLarge: Text)

  function Terminations(requestID: string, json: string -> Text): Farewells {
    Farewells(SecurityTermination("stream_policy_blocked", requestID, json),
              SecurityTermination("sse_event_too_large", requestID, json))
  }

  /** A stopped stream ends with its termination event, cut short only if the client is gone;
      any other stream ends without. */
  ghost predicate Notified(result: CopyResult, told: bool, notice: Text, words: Farewells) {
    var full := match result
      case InspectionBlocked => words.blocked
      case EventTooLarge => words.tooLarge
      case _ => [];
    notice <= full && (told ==> notice == full)
  }

  method Notify(dst: Writer, result: CopyResult, requestID: string, json: string -> Text)
    returns (told: bool, ghost notice: Text)
    modifies dst
    ensures Notified(result, told, notice, Terminations(requestID, json))
    ensures dst.written == old(dst.written) + notice
  {
    told, notice := true, [];
    if result.InspectionBlocked? || result.EventTooLarge? {
      var code := if result.EventTooLarge? then "sse_event_too_large" else "stream_policy_blocked";
      told, notice := dst.Write(SecurityTermination(code, requestID, json));
    }
  }

  /** The streaming part of the gateway: copy under inspection, then tell the client when
      the stream was stopped by policy or by the size limit. */
  method Serve(dst: Writer, reader: Reader, maxEventBytes: int, snapshot: Snapshot, normalize: Text -> Text,
               policy: Policy, enabled: bool, windowBytes: int, lib: EventLibrary, requestID: string,
               json: string -> Text)
    returns (result: CopyResult, told: bool, ghost sent: nat, ghost output: Text, ghost part: Text,
             ghost notice: Text, ghost blocks: Blocker)
    requires snapshot.Built()
    modifies dst, reader
    ensures DecidesFor(blocks, Setup(snapshot.rules, snapshot.lower, normalize, policy, enabled))
    ensures var limit := if maxEventBytes <= 0 then 262_144 else maxEventBytes;
            var f := Frames([], old(reader.rest), reader.broken, limit);
            var window := if windowBytes <= 0 then 16_384 else windowBytes;
      && Copied(result, f, sent, blocks, window, lib)
      && Delivered(output, result, f.events, sent, part)
    ensures dst.written == old(dst.written) + output + notice
    ensures Notified(result, told, notice, Terminations(requestID, json))
  {
    var inspector := new Inspector(snapshot, normalize, policy, enabled, windowBytes);
    blocks := inspector.blocks;
    result, sent, output, part := Copy(dst, reader, maxEventBytes, inspector, lib);
    told, notice := Notify(dst, result, requestID, json);
  }

  // ---------------------------------------------------------------------------------
  // Blocking keywords
  // ---------------------------------------------------------------------------------

  /** Rule `r` is a keyword rule whose action is to block, short enough for the window. */
  ghost predicate BlockKeyword(s: Setup, r: nat, window: nat) {
    && r < |s.rules| && s.rules[r].re.None?
    && s.rules[r].definition.action == "block"
    && |Needle(s, r)| <= window + 1
  }

  function Needle(s: Setup, r: nat): Text
    requires r < |s.rules|
  {
    s.lower.apply(s.rules[r].definition.pattern)
  }

  /** Where a window of the channel, mapped byte by byte, shows the keyword, the audited text of
      that window shows it too. */
  ghost predicate KeepsKeyword(s: Setup, p: Text, g: byte -> byte, fragments: seq<Fragment>, channel: string,
                               window: nat)
  {
    forall i :: CaughtAt(p, MapFragments(g, fragments), channel, window, i) ==>
      Occurs(p, Audited(s, WindowText(fragments[..i], fragments[i], window)))
  }

  /** The audited text of a window of the channel shows the keyword exactly when the mapped
      window does. */
  ghost predicate ShowsSame(s: Setup, p: Text, g: byte -> byte, fragments: seq<Fragment>, channel: string,
                            window: nat)
  {
    forall i :: 0 <= i < |fragments| && fragments[i].channel == channel ==>
      var seen := WindowText(fragments[..i], fragments[i], window);
      Occurs(p, Audited(s, seen)) <==> Occurs(p, Mapped(g, seen))
  }

  /** Normalising and lower-casing a window of the channel maps its bytes, as they do for ASCII. */
  ghost predicate AuditsBytewise(s: Setup, g: byte -> byte, fragments: seq<Fragment>, channel: string, window: nat) {
    forall i :: 0 <= i < |fragments| && fragments[i].channel == channel ==>
      var seen := WindowText(fragments[..i], fragments[i], window); Audited(s, seen) == Mapped(g, seen)
  }

  lemma {:induction false} BytewiseKeepsKeyword(s: Setup, p: Text, g: byte -> byte, fragments: seq<Fragment>,
                                                channel: string, window: nat)
    requires AuditsBytewise(s, g, fragments, channel, window)
    ensures ShowsSame(s, p, g, fragments, channel, window)
    ensures KeepsKeyword(s, p, g, fragments, channel, window)
  {
    forall i | CaughtAt(p, MapFragments(g, fragments), channel, window, i)
      ensures Occurs(p, Audited(s, WindowText(fragments[..i], fragments[i], window)))
    {
      WindowTextMapped(g, fragments, window, i);
    }
  }

  /** A window that holds a blocking keyword is blocked, whatever the policy. */
  lemma {:induction false} KeywordBlocks(s: Setup, r: nat, seen: Text)
    requires r < |s.rules| && s.rules[r].re.None? && s.rules[r].definition.action == "block"
    requires Occurs(Needle(s, r), Audited(s, seen))
    ensures WindowVerdict(s, seen) == Block
  {
    var text := Audited(s, seen);
    HitsExactly(s.rules, s.lower, text, r);
    var hits := Hits(s.rules, s.lower, text);
    var i :| 0 <= i < |hits| && hits[i] == r;
    MatchesOfAt(s.rules, hits, i);
    assert Findings(s.rules, s.lower, text)[i] == ToMatch(s.rules[r]);
    assert HasAction(Findings(s.rules, s.lower, text), Block);
  }

  /** Some rule with this action matches the normalised and lowered text. */
  ghost predicate FiresWith(s: Setup, seen: Text, action: string) {
    exists r: nat :: r < |s.rules| && s.rules[r].definition.action == action
                     && Fires(s.rules[r], s.lower, s.lower.apply(s.normalize(seen)))
  }

  /** A rule that blocks matches the window, or the matching rules together weigh as much as a
      policy that blocks allows. */
  ghost predicate Blocking(s: Setup, seen: Text) {
    || FiresWith(s, seen, "block")
    || (&& s.policy.interventionAction == Block
        && TotalWeight(Findings(s.rules, s.lower, s.lower.apply(s.normalize(seen)))) >= s.policy.interventionAt)
  }

  lemma {:induction false} VerdictBlocks(s: Setup, seen: Text)
    requires 1 <= s.policy.monitorAt < s.policy.interventionAt <= 100
    requires s.policy.interventionAction == Block || s.policy.interventionAction == Redact
    ensures WindowVerdict(s, seen) == Block <==> Blocking(s, seen)
  {
    VerdictExactly(Findings(s.rules, s.lower, Audited(s, seen)), s.policy);
    ActionFires(s, seen, "block");
  }

  /** What stops a stream, exactly. */
  lemma {:induction false} BlocksExactly(s: Setup, blocks: Blocker, seen: Text)
    requires DecidesFor(blocks, s) && 1 <= s.policy.monitorAt < s.policy.interventionAt <= 100
    requires s.policy.interventionAction == Block || s.policy.interventionAction == Redact
    ensures blocks(seen) <==> s.enabled && Blocking(s, seen)
  {
    VerdictBlocks(s, seen);
  }

  lemma {:induction false} ActionFires(s: Setup, seen: Text, action: string)
    ensures SomeAction(Findings(s.rules, s.lower, s.lower.apply(s.normalize(seen))), {action}) <==>
            FiresWith(s, seen, action)
  {
    var text := s.lower.apply(s.normalize(seen));
    var found, hits := Findings(s.rules, s.lower, text), Hits(s.rules, s.lower, text);
    HitsExactly(s.rules, s.lower, text, 0);
    MatchesSize(s.rules, hits);
    if SomeAction(found, {action}) {
      var m :| m in found && m.action in {action};
      var i :| 0 <= i < |found| && found[i] == m;
      MatchesOfAt(s.rules, hits, i);
      HitsExactly(s.rules, s.lower, text, hits[i]);
    }
    if FiresWith(s, seen, action) {
      var r: nat :| r < |s.rules| && s.rules[r].definition.action == action && Fires(s.rules[r], s.lower, text);
      HitsExactly(s.rules, s.lower, text, r);
      var i :| 0 <= i < |hits| && hits[i] == r;
      MatchesOfAt(s.rules, hits, i);
      assert found[i] in found;
    }
  }

  /** Events that pass one by one are clean as one sequence of fragments. */
  lemma {:induction false} PassedIsClean(blocks: Blocker, window: nat, events: seq<Text>, lib: EventLibrary, n: nat)
    requires n <= |events| && AllPass(blocks, window, events, lib, n)
    ensures Clean(blocks, window, FragmentsOf(events[..n], lib), 0)
    decreases n
  {
    if n > 0 {
      AllPassBefore(blocks, window, events, lib, n);
      PassedIsClean(blocks, window, events, lib, n - 1);
      TakeOneMore(events, n - 1);
      CleanAppend(blocks, window, FragmentsOf(events[..n - 1], lib), Parsed(events[n - 1], lib).fragments);
    }
  }

  lemma {:induction false} AllPassBefore(blocks: Blocker, window: nat, events: seq<Text>, lib: EventLibrary, n: nat)
    requires 0 < n <= |events| && AllPass(blocks, window, events, lib, n)
    ensures AllPass(blocks, window, events, lib, n - 1) && Passes(blocks, window, events, lib, n - 1)
  {
  }

  lemma {:induction false} AllPassNext(blocks: Blocker, window: nat, events: seq<Text>, lib: EventLibrary, n: nat)
    requires n < |events| && AllPass(blocks, window, events, lib, n) && Passes(blocks, window, events, lib, n)
    ensures AllPass(blocks, window, events, lib, n + 1)
  {
  }

  lemma {:induction false} CleanAppend(blocks: Blocker, window: nat, before: seq<Fragment>, more: seq<Fragment>)
    requires Clean(blocks, window, before, 0) && Clean(blocks, window, before + more, |before|)
    ensures Clean(blocks, window, before + more, 0)
  {
    var all := before + more;
    assert forall i :: 0 <= i < |before| ==> all[..i] == before[..i] && all[i] == before[i];
  }

  /** A blocking keyword that the mapped text of a channel holds is shown by a blocked window. */
  lemma {:induction false} KeywordIsBlocked(s: Setup, blocks: Blocker, window: nat, fragments: seq<Fragment>, r: nat,
                                            g: byte -> byte, channel: string)
    requires DecidesFor(blocks, s) && s.enabled && BlockKeyword(s, r, window)
    requires Occurs(Needle(s, r), Mapped(g, ChannelText(fragments, channel)))
    requires KeepsKeyword(s, Needle(s, r), g, fragments, channel, window)
    ensures !Clean(blocks, window, fragments, 0)
  {
    ChannelTextMapped(g, fragments, channel);
    var i := FirstCaught(Needle(s, r), MapFragments(g, fragments), channel, window);
    var seen := WindowText(fragments[..i], fragments[i], window);
    KeywordBlocks(s, r, seen);
    assert blocks(seen);
  }

  lemma {:induction false} DeliveredWithin(output: Text, result: CopyResult, events: seq<Text>, sent: nat, part: Text,
                                           j: nat)
    requires sent <= j < |events| && Delivered(output, result, events, sent, part)
    requires result.WriteFailed? ==> sent < j
    ensures output <= Concat(events[..j])
  {
    ConcatPrefix(events, sent, j);
    if part != [] {
      TakeOneMore(events, sent);
      ConcatPrefix(events, sent + 1, j);
      assert Concat(events[..sent + 1]) == Concat(events[..sent]) + events[sent];
    }
  }

  lemma {:induction false} ConcatPrefix(events: seq<Text>, a: nat, b: nat)
    requires a <= b <= |events|
    ensures Concat(events[..a]) <= Concat(events[..b])
  {
    assert events[..b] == events[..a] + events[a..b];
    ConcatAppend(events[..a], events[a..b]);
  }

  /** Whatever is blocked by the end of event `j` stops the stream before event `j` is written. */
  lemma {:induction false} StoppedBefore(blocks: Blocker, window: nat, result: CopyResult, f: Framing, sent: nat,
                                         lib: EventLibrary, j: nat)
    requires Copied(result, f, sent, blocks, window, lib) && j < |f.events|
    requires !Clean(blocks, window, FragmentsOf(f.events[..j + 1], lib), 0)
    ensures sent <= j && (result.WriteFailed? ==> sent < j)
    ensures result.InspectionBlocked? || result.Cancelled? || result.WriteFailed?
  {
    PassedBefore(blocks, window, f.events, lib, sent, j);
    if result.WriteFailed? {
      AllPassNext(blocks, window, f.events, lib, sent);
      PassedBefore(blocks, window, f.events, lib, sent + 1, j);
    }
  }

  lemma {:induction false} PassedBefore(blocks: Blocker, window: nat, events: seq<Text>, lib: EventLibrary, n: nat,
                                        j: nat)
    requires n <= |events| && j < |events| && AllPass(blocks, window, events, lib, n)
    requires !Clean(blocks, window, FragmentsOf(events[..j + 1], lib), 0)
    ensures n <= j
  {
    if j < n {
      PassedIsClean(blocks, window, events, lib, j + 1);
      assert false;
    }
  }

  /** End to end: when a blocking keyword of at most one byte more than the window is
      complete on some channel with event `j`, the stream stops at or before event `j`, and
      no byte of that event reaches the client, not even by a write that fails. */
  lemma {:induction false} KeywordNeverForwarded(s: Setup, blocks: Blocker, window: nat, result: CopyResult, f: Framing,
                                                 sent: nat, output: Text, part: Text, lib: EventLibrary, r: nat,
                                                 g: byte -> byte, channel: string, j: nat)
    requires DecidesFor(blocks, s) && s.enabled
    requires Copied(result, f, sent, blocks, window, lib) && Delivered(output, result, f.events, sent, part)
    requires BlockKeyword(s, r, window)
    requires j < |f.events|
    requires Occurs(Needle(s, r), Mapped(g, ChannelText(ShownBy(f.events[..j + 1], lib), channel)))
    requires KeepsKeyword(s, Needle(s, r), g, ShownBy(f.events[..j + 1], lib), channel, window)
    ensures sent <= j && (result.WriteFailed? ==> sent < j)
    ensures output <= Concat(f.events[..j])
    ensures result.InspectionBlocked? || result.Cancelled? || result.WriteFailed?
  {
    FragmentsAreShown(f.events[..j + 1], lib);
    KeywordIsBlocked(s, blocks, window, FragmentsOf(f.events[..j + 1], lib), r, g, channel);
    StoppedBefore(blocks, window, result, f, sent, lib, j);
    DeliveredWithin(output, result, f.events, sent, part, j);
  }

  /** The same for what the client of a served stream receives: some of the bytes before event
      `j`, and if the stream was stopped by policy while the client listened, exactly the events
      before the stopping one and one termination event. */
  lemma {:induction false} KeywordStream(s: Setup, blocks: Blocker, window: nat, result: CopyResult, f: Framing,
                                         sent: nat, output: Text, part: Text, told: bool, notice: Text,
                                         words: Farewells, lib: EventLibrary, r: nat, g: byte -> byte,
                                         channel: string, j: nat)
    requires DecidesFor(blocks, s) && s.enabled && BlockKeyword(s, r, window)
    requires Copied(result, f, sent, blocks, window, lib) && Delivered(output, result, f.events, sent, part)
    requires Notified(result, told, notice, words)
    requires j < |f.events|
    requires Occurs(Needle(s, r), Mapped(g, ChannelText(ShownBy(f.events[..j + 1], lib), channel)))
    requires KeepsKeyword(s, Needle(s, r), g, ShownBy(f.events[..j + 1], lib), channel, window)
    ensures output <= Concat(f.events[..j])
    ensures !result.InspectionBlocked? ==> notice == [] && (result.Cancelled? || result.WriteFailed?)
    ensures result.InspectionBlocked? && told ==>
      output + notice == Concat(f.events[..sent]) + words.blocked
  {
    KeywordNeverForwarded(s, blocks, window, result, f, sent, output, part, lib, r, g, channel, j);
    StoppedStream(result, f.events, sent, output, part, told, notice, words);
  }

  /** A stream stopped by policy is the passing events followed by one termination event, any
      stream that was neither blocked nor too large ends without a word. */
  lemma {:induction false} StoppedStream(result: CopyResult, events: seq<Text>, sent: nat, output: Text, part: Text,
                                         told: bool, notice: Text, words: Farewells)
    requires sent <= |events| && Delivered(output, result, events, sent, part)
    requires Notified(result, told, notice, words)
    ensures !result.InspectionBlocked? && !result.EventTooLarge? ==> notice == []
    ensures result.InspectionBlocked? && told ==>
      output + notice == Concat(events[..sent]) + words.blocked
  {
  }

  // ---------------------------------------------------------------------------------
  // What the client makes of a stopped stream
  // ---------------------------------------------------------------------------------

  /** Encoded as JSON, a string is on one line. */
  ghost predicate OneLine(json: string -> Text) {
    forall s :: LF !in json(s)
  }

  lemma {:induction false} AsciiOnOneLine(s: string)
    ensures LF !in Ascii(s) && CR !in Ascii(s) && |Ascii(s)| == |s|
  {
  }

  lemma {:induction false} FramedOnOneLine(a: Text, x: Text, b: Text, y: Text, c: Text, z: Text, d: Text)
    requires LF !in a && LF !in b && LF !in c && LF !in d && LF !in x && LF !in y && LF !in z
    requires d != [] && CR !in d
    ensures Encodable(Framed(a, x, b, y, c, z, d))
  {
    var t := Framed(a, x, b, y, c, z, d);
    assert t[|t| - 1] == d[|d| - 1] && d[|d| - 1] in d;
  }

  lemma {:induction false} PayloadOnOneLine(code: string, requestID: string, json: string -> Text)
    requires OneLine(json)
    ensures Encodable(TerminationPayload(code, requestID, json))
  {
    var message := if code == "sse_event_too_large" then "stream event exceeds configured size limit"
                   else "stream response blocked by audit policy";
    AsciiOnOneLine("{\"error\":{\"type\":\"security_termination\",\"code\":");
    AsciiOnOneLine(",\"message\":");
    AsciiOnOneLine(",\"request_id\":");
    AsciiOnOneLine("}}");
    FramedOnOneLine(Ascii("{\"error\":{\"type\":\"security_termination\",\"code\":"), json(code),
                    Ascii(",\"message\":"), json(message), Ascii(",\"request_id\":"), json(requestID), Ascii("}}"));
  }

  /** The termination event is one event, whatever comes before it. */
  lemma {:induction false} TerminationIsOneEvent(code: string, requestID: string, json: string -> Text)
    requires OneLine(json)
    ensures OneGroup(SecurityTermination(code, requestID, json))
  {
    PayloadOnOneLine(code, requestID, json);
    AsciiOnOneLine("event: gateway.security_terminated");
    HeaderThenData(Ascii("event: gateway.security_terminated"), TerminationPayload(code, requestID, json));
  }

  lemma {:induction false} LineFirst(header: Text, data: Text)
    requires LF !in header
    ensures Lines((header + [LF]) + data) == [header + [LF]] + Lines(data)
  {
    var line := header + [LF];
    LineStays(line, data);
    assert LineLength(line) == |line|;
    LinesFirst(line, data);
  }

  lemma {:induction false} HeaderThenData(header: Text, payload: Text)
    requires |header| > 1 && LF !in header && Encodable(payload)
    ensures OneGroup(WithHeader(header, payload))
  {
    var line, data := header + [LF], Encoded([payload], [LF]);
    var text := line + data;
    LineFirst(header, data);
    BlankShape(line);
    forall open
      ensures Grouped(Lines(text), open, EndsEvent) == [open + text]
    {
      EncodedIsOneGroup([payload], [LF], open + line);
      LineThenGroup(line, data, open);
    }
  }

  lemma {:induction false} LineThenGroup(line: Text, data: Text, open: Text)
    requires Lines(line + data) == [line] + Lines(data) && !EndsEvent(line)
    requires Grouped(Lines(data), open + line, EndsEvent) == [(open + line) + data]
    ensures Grouped(Lines(line + data), open, EndsEvent) == [open + (line + data)]
  {
    var lines := Lines(line + data);
    assert lines[0] == line && lines[1..] == Lines(data);
    assert (open + line) + data == open + (line + data);
  }

  /** The header line adds nothing to the data of the event. */
  lemma {:induction false} HeaderIsNoData(header: Text, payload: Text)
    requires LF !in header && CR !in header && !(DATA <= header)
    requires Encodable(payload) && CR !in payload
    ensures EventData(WithHeader(header, payload)) == payload
  {
    var text := WithHeader(header, payload);
    HeaderValues(header, Encoded([payload], [LF]));
    EncodedRoundTrip([payload], [LF]);
    WithoutCR(header, payload);
    DataIsStandard(text);
  }

  lemma {:induction false} HeaderValues(header: Text, data: Text)
    requires LF !in header && CR !in header && !(DATA <= header)
    ensures Values(SplitAfter((header + [LF]) + data)) == Values(SplitAfter(data))
  {
    var line := header + [LF];
    LineStays(line, data);
    assert LineLength(line) == |line|;
    assert (line + data)[..|line|] == line && (line + data)[|line|..] == data;
    SplitFirst(line, data);
    TrimEol(header, [LF]);
    ValuesFirst(line, SplitAfter(data));
  }

  lemma {:induction false} WithoutCR(header: Text, payload: Text)
    requires CR !in header && CR !in payload
    ensures NoLoneCR(WithHeader(header, payload))
  {
    assert [payload][1..] == [];
    assert Encoded([payload], [LF]) == DataLine(payload, [LF]) + [LF];
    assert CR !in DataLine(payload, [LF]);
  }

  /** What the termination event tells a client: that the stream was stopped, why, and for which
      request. */
  function Says(code: Text, message: Text, requestID: Text): Text {
    Ascii("{\"error\":{\"type\":\"security_termination\",\"code\":") + code + Ascii(",\"message\":") + message +
    Ascii(",\"request_id\":") + requestID + Ascii("}}")
  }

  /** A client that was told finds the code and the message of the policy in the data of the
      event after a policy stop, and those of the size limit after an event that is too large. */
  lemma {:induction false} TerminationSays(result: CopyResult, notice: Text, requestID: string, json: string -> Text)
    requires OneLine(json) && forall s :: CR !in json(s)
    requires Notified(result, true, notice, Terminations(requestID, json))
    ensures result.InspectionBlocked? ==>
              EventData(notice) ==
                Says(json("stream_policy_blocked"), json("stream response blocked by audit policy"), json(requestID))
    ensures result.EventTooLarge? ==>
              EventData(notice) ==
                Says(json("sse_event_too_large"), json("stream event exceeds configured size limit"), json(requestID))
  {
    if result.InspectionBlocked? {
      PayloadIsData("stream_policy_blocked", requestID, json);
    }
    if result.EventTooLarge? {
      PayloadIsData("sse_event_too_large", requestID, json);
    }
  }

  lemma {:induction false} PayloadIsData(code: string, requestID: string, json: string -> Text)
    requires OneLine(json) && forall s :: CR !in json(s)
    ensures EventData(SecurityTermination(code, requestID, json)) == TerminationPayload(code, requestID, json)
  {
    PayloadOnOneLine(code, requestID, json);
    PayloadWithoutCR(code, requestID, json);
    var header := Ascii("event: gateway.security_terminated");
    AsciiOnOneLine("event: gateway.security_terminated");
    assert header[0] == 101;
    HeaderIsNoData(header, TerminationPayload(code, requestID, json));
  }

  lemma {:induction false} PayloadWithoutCR(code: string, requestID: string, json: string -> Text)
    requires forall s :: CR !in json(s)
    ensures CR !in TerminationPayload(code, requestID, json)
  {
    var message := if code == "sse_event_too_large" then "stream event exceeds configured size limit"
                   else "stream response blocked by audit policy";
    AsciiOnOneLine("{\"error\":{\"type\":\"security_termination\",\"code\":");
    AsciiOnOneLine(",\"message\":");
    AsciiOnOneLine(",\"request_id\":");
    AsciiOnOneLine("}}");
    FramedWithoutCR(Ascii("{\"error\":{\"type\":\"security_termination\",\"code\":"), json(code),
                    Ascii(",\"message\":"), json(message), Ascii(",\"request_id\":"), json(requestID), Ascii("}}"));
  }

  lemma {:induction false} FramedWithoutCR(a: Text, x: Text, b: Text, y: Text, c: Text, z: Text, d: Text)
    requires CR !in a && CR !in b && CR !in c && CR !in d && CR !in x && CR !in y && CR !in z
    ensures CR !in Framed(a, x, b, y, c, z, d)
  {
  }

  /** A client of a stream stopped by policy or by the size limit, told so, finds exactly the
      events that were sent and the termination event if and only if no line that was sent is
      misframed. */
  lemma {:induction false} ClientSeesTermination(input: Text, broken: bool, limit: nat, blocks: Blocker, window: nat,
                                                 lib: EventLibrary, result: CopyResult, sent: nat, output: Text,
                                                 part: Text, notice: Text, requestID: string, json: string -> Text)
    requires result.InspectionBlocked? || result.EventTooLarge?
    requires var f := Frames([], input, broken, limit);
      Copied(result, f, sent, blocks, window, lib) && Delivered(output, result, f.events, sent, part)
    requires OneLine(json) && Notified(result, true, notice, Terminations(requestID, json))
    ensures var events := Frames([], input, broken, limit).events[..sent];
            var lines := Lines(Concat(events));
      ReferenceEvents(output + notice) == events + [notice] <==>
      forall i :: 0 <= i < |lines| ==> !Misframed(lines[i])
  {
    TerminationIsOneEvent("stream_policy_blocked", requestID, json);
    TerminationIsOneEvent("sse_event_too_large", requestID, json);
    var events := Frames([], input, broken, limit).events[..sent];
    assert output == Concat(events) + [] == Concat(events);
    ClientFrames(input, broken, limit, sent, notice);
  }

  // ---------------------------------------------------------------------------------
  // Nothing is withheld or invented
  // ---------------------------------------------------------------------------------

  /** However a copy ends, and whether or not its source breaks, the client gets a prefix of the
      source, and all of it when the copy completes. */
  lemma {:induction false} CopyPreservesBytes(input: Text, broken: bool, limit: nat, result: CopyResult, sent: nat,
                                              output: Text, part: Text, blocks: Blocker, window: nat,
                                              lib: EventLibrary)
    requires var f := Frames([], input, broken, limit);
      Copied(result, f, sent, blocks, window, lib) && Delivered(output, result, f.events, sent, part)
    ensures output <= input && (result.Completed? ==> output == input)
  {
    FramesPreserveBytes([], input, broken, limit);
    assert [] + input == input;
    DeliveredIsPrefix(output, result, Frames([], input, broken, limit).events, sent, part);
  }

  lemma {:induction false} DeliveredIsPrefix(output: Text, result: CopyResult, events: seq<Text>, sent: nat, part: Text)
    requires sent <= |events| && Delivered(output, result, events, sent, part)
    ensures output <= Concat(events)
    ensures sent == |events| ==> output == Concat(events)
  {
    TakeAll(events);
    ConcatPrefix(events, sent, |events|);
    if part != [] {
      ConcatPrefix(events, sent + 1, |events|);
      ConcatOneMore(events, sent);
    }
  }

  /** Nothing is withheld without a reason: unless an event is blocked or too large, or a
      read, a write or the client fails, the output is the input. */
  lemma {:induction false} CleanStreamIsUnchanged(blocks: Blocker, window: nat, result: CopyResult, input: Text,
                                                  limit: nat, sent: nat, output: Text, part: Text,
                                                  lib: EventLibrary)
    requires var f := Frames([], input, false, limit);
      && Copied(result, f, sent, blocks, window, lib) && Delivered(output, result, f.events, sent, part)
      && AllPass(blocks, window, f.events, lib, |f.events|) && !f.ending.Oversized?
    requires !result.Cancelled? && !result.WriteFailed?
    ensures result.Completed? && output == input
  {
    NotBroken([], input, limit);
    CopyPreservesBytes(input, false, limit, result, sent, output, part, blocks, window, lib);
  }

  lemma {:induction false} NotBroken(raw: Text, rest: Text, limit: nat)
    ensures !Frames(raw, rest, false, limit).ending.ReadError?
    decreases |raw| + |rest|
  {
    NextEventBytes(raw, rest, false, limit);
    var r := NextEvent(raw, rest, false, limit);
    if r.Event? && !r.last {
      NotBroken([], r.rest, limit);
    }
  }

  /** Window by window auditing agrees with one search of the whole channel: where audited and
      mapped windows of the channel show the keyword alike, a keyword rule is reported for some
      fragment exactly when its keyword occurs in the mapped channel text. */
  lemma {:induction false} ReportedIffOccurs(s: Setup, r: nat, g: byte -> byte, fragments: seq<Fragment>,
                                             channel: string, window: nat)
    requires r < |s.rules| && s.rules[r].re.None? && |Needle(s, r)| <= window + 1
    requires ShowsSame(s, Needle(s, r), g, fragments, channel, window)
    ensures Occurs(Needle(s, r), Mapped(g, ChannelText(fragments, channel))) <==>
      exists i :: ReportedAt(s, r, fragments, channel, window, i)
  {
    var p, mapped := Needle(s, r), MapFragments(g, fragments);
    assert p != [];
    ChannelTextMapped(g, fragments, channel);
    forall i
      ensures ReportedAt(s, r, fragments, channel, window, i) <==> CaughtAt(p, mapped, channel, window, i)
    {
      if 0 <= i < |fragments| && fragments[i].channel == channel {
        ReportedIffCaught(s, r, g, fragments, channel, window, i);
      }
    }
    WindowsSeeWholeText(p, mapped, channel, window);
    if i :| CaughtAt(p, mapped, channel, window, i) {
      assert ReportedAt(s, r, fragments, channel, window, i);
    }
    if i :| ReportedAt(s, r, fragments, channel, window, i) {
      assert CaughtAt(p, mapped, channel, window, i);
    }
  }

  lemma {:induction false} ReportedIffCaught(s: Setup, r: nat, g: byte -> byte, fragments: seq<Fragment>,
                                             channel: string, window: nat, i: nat)
    requires r < |s.rules| && s.rules[r].re.None?
    requires ShowsSame(s, Needle(s, r), g, fragments, channel, window)
    requires i < |fragments| && fragments[i].channel == channel
    ensures ReportedAt(s, r, fragments, channel, window, i)
       <==> CaughtAt(Needle(s, r), MapFragments(g, fragments), channel, window, i)
  {
    WindowTextMapped(g, fragments, window, i);
    var seen := WindowText(fragments[..i], fragments[i], window);
    assert Occurs(Needle(s, r), Audited(s, seen)) <==> Occurs(Needle(s, r), Mapped(g, seen));
    HitsExactly(s.rules, s.lower, Audited(s, seen), r);
  }

  ghost predicate ReportedAt(s: Setup, r: nat, fragments: seq<Fragment>, channel: string, window: nat, i: int) {
    && 0 <= i < |fragments| && fragments[i].channel == channel && fragments[i].text != []
    && r in Hits(s.rules, s.lower, Audited(s, WindowText(fragments[..i], fragments[i], window)))
  }
}
