/** Forwarding a streamed response: `Copy` of internal/stream/sse.go, which reads an event, asks
    its inspector, writes the event and flushes it, until something stops it. */
module StreamCopy {
  import opened ByteStrings
  import opened SseFraming
  import opened SseEvents
  import opened StreamAudit

  /** The client side.  A failed write may have sent any part of its data. */
  class Writer {
    var written: Text

    constructor ()
      ensures written == []
    {
      written := [];
    }

    method Write(data: Text) returns (ok: bool, ghost part: Text)
      modifies this
      ensures part <= data && written == old(written) + part
      ensures ok ==> part == data
    {
      ok := *;
      part := data;
      if ok {
        written := written + data;
      } else {
        var n: nat :| n <= |data|;
        part := data[..n];
        written := written + data[..n];
      }
    }
  }

  datatype CopyResult = Completed | InspectionBlocked | EventTooLarge | Cancelled | WriteFailed | ReadFailed

  datatype Step = Sent | Stopped | NotWritten

  /** Write to the client; the inspector is not involved. */
  method Emit(dst: Writer, data: Text, inspector: Inspector) returns (ok: bool, ghost part: Text)
    requires inspector.Valid() && dst !in inspector.Repr
    modifies dst
    ensures inspector.Valid()
    ensures inspector.Repr == old(inspector.Repr) && inspector.windows.history == old(inspector.windows.history)
    ensures part <= data && dst.written == old(dst.written) + part
    ensures ok ==> part == data
  {
    ok, part := dst.Write(data);
  }

  /** Read the next event; the inspector is not involved. */
  method Pull(reader: Reader, limit: nat, inspector: Inspector) returns (r: Reading)
    requires inspector.Valid() && reader !in inspector.Repr
    modifies reader
    ensures inspector.Valid()
    ensures inspector.Repr == old(inspector.Repr) && inspector.windows.history == old(inspector.windows.history)
    ensures r == NextEvent([], old(reader.rest), reader.broken, limit)
    ensures r.Event? ==> reader.rest == r.rest
  {
    r := ReadEvent(reader, limit);
  }

  /** Inspect one event and only then write it. */
  method Forward(dst: Writer, raw: Text, inspector: Inspector, lib: EventLibrary, ghost earlier: seq<Fragment>)
    returns (step: Step, ghost part: Text)
    requires inspector.Valid() && inspector.Configured() && dst !in inspector.Repr
    requires inspector.enabled ==> inspector.windows.history == earlier
    modifies dst, inspector.Repr
    ensures inspector.Valid() && (forall o <- inspector.Repr :: o in old(inspector.Repr) || fresh(o))
    ensures step.Stopped? <==>
      !Clean(inspector.blocks, inspector.windows.window, earlier + Parsed(raw, lib).fragments, |earlier|)
    ensures step.Sent? && inspector.enabled ==> inspector.windows.history == earlier + Parsed(raw, lib).fragments
    ensures part <= raw && dst.written == old(dst.written) + part
    ensures step.Sent? ==> part == raw
    ensures step.Stopped? ==> part == []
  {
    var event := ParseEvent(raw, lib);
    var ok := inspector.Inspect(event, earlier);
    if !ok {
      return Stopped, [];
    }
    ok, part := Emit(dst, raw, inspector);
    step := if ok then Sent else NotWritten;
  }

  /** What `Copy` did with the events `f` of its source: it forwarded the first `sent` of
      them, which all passed inspection, and `result` tells why it stopped there. */
  ghost predicate Copied(result: CopyResult, f: Framing, sent: nat, blocks: Blocker, window: nat, lib: EventLibrary) {
    && sent <= |f.events|
    && AllPass(blocks, window, f.events, lib, sent)
    && match result
       case Completed => sent == |f.events| && f.ending.Eof?
       case EventTooLarge => sent == |f.events| && f.ending.Oversized?
       case ReadFailed => sent == |f.events| && f.ending.ReadError?
       case InspectionBlocked => sent < |f.events| && !Passes(blocks, window, f.events, lib, sent)
       case Cancelled => sent < |f.events|
       case WriteFailed => sent < |f.events| && Passes(blocks, window, f.events, lib, sent)
  }

  /** The client got the first `sent` events and `part` of the next one, which is empty
      unless a write failed. */
  ghost predicate Delivered(output: Text, result: CopyResult, events: seq<Text>, sent: nat, part: Text)
    requires sent <= |events|
  {
    && output == Concat(events[..sent]) + part
    && (part == [] || (result.WriteFailed? && sent < |events| && part <= events[sent]))
  }

  /** The result of a copy that reaches the end of its source. */
  function ResultOf(ending: Ending): CopyResult {
    match ending
    case Eof => Completed
    case Oversized => EventTooLarge
    case ReadError => ReadFailed
  }

  /** The events already read and those still to come make up the whole stream. */
  ghost predicate Reads(f: Framing, sent: nat, rest: Text, broken: bool, limit: nat) {
    && sent <= |f.events|
    && Frames([], rest, broken, limit) == Framing(f.events[sent..], f.ending)
  }

  lemma {:induction false} ReadsNext(f: Framing, sent: nat, rest: Text, broken: bool, limit: nat)
    requires Reads(f, sent, rest, broken, limit)
    ensures match NextEvent([], rest, broken, limit)
      case Finished => sent == |f.events| && f.ending.Eof?
      case TooLarge => sent == |f.events| && f.ending.Oversized?
      case Failed => sent == |f.events| && f.ending.ReadError?
      case Event(raw, rest', last) =>
        && sent < |f.events| && raw == f.events[sent]
        && (last ==> sent + 1 == |f.events| && f.ending.Eof?)
        && (!last ==> Reads(f, sent + 1, rest', broken, limit))
  {
    var r := NextEvent([], rest, broken, limit);
    if r.Event? {
      assert f.events[sent..][0] == f.events[sent];
      assert f.events[sent..][1..] == f.events[sent + 1..];
    }
  }

  /** The windows hold the fragments of the events sent so far. */
  ghost predicate Fed(inspector: Inspector, lib: EventLibrary, events: seq<Text>, sent: nat)
    reads inspector, inspector.windows
  {
    && sent <= |events|
    && (inspector.enabled ==> inspector.windows.history == FragmentsOf(events[..sent], lib))
  }

  /** What became of event `sent`: forwarded, or stopped by the client, the policy or a write. */
  ghost predicate EventOutcome(stop: Option<CopyResult>, part: Text, events: seq<Text>, sent: nat,
                               blocks: Blocker, window: nat, lib: EventLibrary)
    requires sent < |events|
  {
    var passes := Passes(blocks, window, events, lib, sent);
    match stop
    case None => passes && part == events[sent]
    case Some(why) =>
      || (why.Cancelled? && part == [])
      || (why.InspectionBlocked? && part == [] && !passes)
      || (why.WriteFailed? && passes && part <= events[sent])
  }

  /** One event: look for cancellation, inspect, write. */
  method CopyEvent(dst: Writer, raw: Text, inspector: Inspector, lib: EventLibrary, ghost f: Framing, ghost sent: nat)
    returns (stop: Option<CopyResult>, ghost part: Text)
    requires inspector.Valid() && inspector.Configured() && dst !in inspector.Repr
    requires sent < |f.events| && raw == f.events[sent] && Fed(inspector, lib, f.events, sent)
    modifies dst, inspector.Repr
    ensures inspector.Valid() && (forall o <- inspector.Repr :: o in old(inspector.Repr) || fresh(o))
    ensures dst.written == old(dst.written) + part
    ensures stop.None? ==> Fed(inspector, lib, f.events, sent + 1)
    ensures EventOutcome(stop, part, f.events, sent, inspector.blocks, inspector.windows.window, lib)
  {
    var cancelled: bool := *;
    if cancelled {
      return Some(Cancelled), [];
    }
    TakeOneMore(f.events, sent);
    var step;
    step, part := Forward(dst, raw, inspector, lib, FragmentsOf(f.events[..sent], lib));
    stop := match step case Sent => None case Stopped => Some(InspectionBlocked) case NotWritten => Some(WriteFailed);
  }

  /** What one round of `Copy` did: it sent event `sent` whole and goes on, or stops. */
  ghost predicate RoundDone(stop: Option<CopyResult>, f: Framing, sent: nat, sent': nat, gain: Text,
                            blocks: Blocker, window: nat, lib: EventLibrary)
  {
    && sent <= sent' <= sent + 1 && sent' <= |f.events|
    && (sent < |f.events| && sent' == sent + 1 ==>
          gain == f.events[sent] && Passes(blocks, window, f.events, lib, sent))
    && (stop.None? ==> sent' == sent + 1)
    && (stop.Some? && sent' == sent + 1 ==> stop.value.Completed? && sent' == |f.events| && f.ending.Eof?)
    && (stop.Some? && sent' == sent ==>
          if sent == |f.events| then
            gain == [] && stop.value == ResultOf(f.ending)
          else
            var passes := Passes(blocks, window, f.events, lib, sent);
            || (stop.value.Cancelled? && gain == [])
            || (stop.value.InspectionBlocked? && gain == [] && !passes)
            || (stop.value.WriteFailed? && passes && gain <= f.events[sent]))
  }

  /** One round of `Copy`: read an event, inspect it, write it. */
  method CopyNext(dst: Writer, reader: Reader, limit: nat, inspector: Inspector, lib: EventLibrary,
                  ghost f: Framing, ghost sent: nat)
    returns (stop: Option<CopyResult>, ghost sent': nat, ghost gain: Text)
    requires inspector.Valid() && inspector.Configured()
    requires dst !in inspector.Repr && reader !in inspector.Repr
    requires Reads(f, sent, reader.rest, reader.broken, limit) && Fed(inspector, lib, f.events, sent)
    modifies dst, reader, inspector.Repr
    ensures inspector.Valid() && (forall o <- inspector.Repr :: o in old(inspector.Repr) || fresh(o))
    ensures dst.written == old(dst.written) + gain
    ensures RoundDone(stop, f, sent, sent', gain, inspector.blocks, inspector.windows.window, lib)
    ensures stop.None? ==>
      Reads(f, sent', reader.rest, reader.broken, limit) && Fed(inspector, lib, f.events, sent')
  {
    ReadsNext(f, sent, reader.rest, reader.broken, limit);
    var r := Pull(reader, limit, inspector);
    sent', gain := sent, [];
    if r.Event? {
      var forwarded;
      forwarded, gain := CopyEvent(dst, r.raw, inspector, lib, f, sent);
      EventRound(forwarded, r.last, f, sent, gain, inspector.blocks, inspector.windows.window, lib);
      stop := if forwarded.None? && r.last then Some(Completed) else forwarded;
      sent' := if forwarded.None? then sent + 1 else sent;
    } else {
      stop := Some(match r case TooLarge => EventTooLarge case Failed => ReadFailed case _ => Completed);
    }
  }

  lemma {:induction false} EventRound(stop: Option<CopyResult>, last: bool, f: Framing, sent: nat, part: Text,
                                      blocks: Blocker, window: nat, lib: EventLibrary)
    requires sent < |f.events| && EventOutcome(stop, part, f.events, sent, blocks, window, lib)
    requires last ==> sent + 1 == |f.events| && f.ending.Eof?
    ensures RoundDone(if stop.None? && last then Some(Completed) else stop, f, sent,
                      if stop.None? then sent + 1 else sent, part, blocks, window, lib)
  {
  }

  /** After a round, the output is again the events sent and a part of the next one. */
  lemma {:induction false} AfterRound(stop: Option<CopyResult>, f: Framing, sent: nat, sent': nat, output: Text,
                                      gain: Text, blocks: Blocker, window: nat, lib: EventLibrary)
    requires RoundDone(stop, f, sent, sent', gain, blocks, window, lib)
    requires AllPass(blocks, window, f.events, lib, sent) && output == Concat(f.events[..sent])
    ensures AllPass(blocks, window, f.events, lib, sent')
    ensures stop.None? ==> output + gain == Concat(f.events[..sent'])
    ensures stop.Some? ==>
      && Copied(stop.value, f, sent', blocks, window, lib)
      && Delivered(output + gain, stop.value, f.events, sent', if sent' == sent then gain else [])
  {
    if sent' == sent + 1 {
      ConcatOneMore(f.events, sent);
      forall k | 0 <= k < sent'
        ensures Passes(blocks, window, f.events, lib, k)
      {
        assert k < sent || k == sent;
      }
    }
  }

  lemma {:induction false} ConcatOneMore(events: seq<Text>, i: nat)
    requires i < |events|
    ensures Concat(events[..i + 1]) == Concat(events[..i]) + events[i] == (Concat(events[..i]) + events[i]) + []
  {
    TakeOneMore(events, i);
  }

  /** `Copy`: events are forwarded whole, unchanged and in order, each inspected before it is
      written.  Cancellation may strike before any inspection. */
  method Copy(dst: Writer, reader: Reader, maxEventBytes: int, inspector: Inspector, lib: EventLibrary)
    returns (result: CopyResult, ghost sent: nat, ghost output: Text, ghost part: Text)
    requires inspector.Valid() && inspector.Configured()
    requires dst !in inspector.Repr && reader !in inspector.Repr
    requires inspector.windows.history == []
    modifies dst, reader, inspector.Repr
    ensures var f := Frames([], old(reader.rest), reader.broken, Limit(maxEventBytes));
      && Copied(result, f, sent, inspector.blocks, inspector.windows.window, lib)
      && Delivered(output, result, f.events, sent, part)
    ensures dst.written == old(dst.written) + output
  {
    var limit: nat := Limit(maxEventBytes);
    ghost var f := Frames([], reader.rest, reader.broken, limit);
    sent, output, part := 0, [], [];
    assert f.events[0..] == f.events && f.events[..0] == [];
    while true
      invariant inspector.Valid() && (forall o <- inspector.Repr :: o in old(inspector.Repr) || fresh(o))
      invariant dst !in inspector.Repr && reader !in inspector.Repr
      invariant Reads(f, sent, reader.rest, reader.broken, limit) && Fed(inspector, lib, f.events, sent)
      invariant AllPass(inspector.blocks, inspector.windows.window, f.events, lib, sent)
      invariant output == Concat(f.events[..sent]) && dst.written == old(dst.written) + output
      decreases |f.events| - sent
    {
      var stop;
      ghost var sent', gain;
      stop, sent', gain := CopyNext(dst, reader, limit, inspector, lib, f, sent);
      AfterRound(stop, f, sent, sent', output, gain, inspector.blocks, inspector.windows.window, lib);
      Regroup(old(dst.written), output, gain);
      part := if sent' == sent then gain else [];
      sent, output := sent', output + gain;
      if stop.Some? {
        return stop.value, sent, output, part;
      }
    }
  }

  lemma {:induction false} Regroup(a: Text, b: Text, c: Text)
    ensures (a + b) + c == a + (b + c)
  {
  }

  function Limit(maxEventBytes: int): nat {
    if maxEventBytes <= 0 then DEFAULT_MAX_EVENT else maxEventBytes
  }
}
