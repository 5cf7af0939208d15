/** The rolling inspection windows of internal/stream/sse.go: one per semantic channel,
    kept in reused storage. */
module RollingWindows {
  import opened ByteStrings
  import opened SseEvents

  const DEFAULT_WINDOW: nat := 16 * 1024

  function LastBytes(s: Text, n: nat): Text {
    if |s| <= n then s else s[|s| - n..]
  }

  /** Everything a list of fragments put on one channel. */
  function ChannelText(fragments: seq<Fragment>, channel: string): Text {
    if fragments == [] then []
    else
      var last := fragments[|fragments| - 1];
      ChannelText(fragments[..|fragments| - 1], channel) + if last.channel == channel then last.text else []
  }

  /** The text inspected for fragment `f` after the fragments `earlier`. */
  function WindowText(earlier: seq<Fragment>, f: Fragment, window: nat): Text {
    LastBytes(ChannelText(earlier, f.channel), window) + f.text
  }

  // ---------------------------------------------------------------------------------
  // Storage
  // ---------------------------------------------------------------------------------

  /** Go's `append(dst[:len], src...)`: in place when the capacity suffices, otherwise in
      fresh storage of some larger capacity. */
  method Append(dst: array<byte>, len: nat, src: Text) returns (out: array<byte>, outLen: nat)
    requires len <= dst.Length
    modifies dst
    ensures out == dst || fresh(out)
    ensures outLen == len + |src| <= out.Length
    ensures out[..outLen] == old(dst[..len]) + src
  {
    outLen := len + |src|;
    out := dst;
    if outLen > dst.Length {
      var capacity: nat :| outLen <= capacity;
      out := new byte[capacity];
      for i := 0 to len
        invariant out[..i] == dst[..i] && dst[..len] == old(dst[..len])
      {
        out[i] := dst[i];
      }
    }
    for i := 0 to |src|
      invariant out[..len + i] == old(dst[..len]) + src[..i]
    {
      out[len + i] := src[i];
    }
  }

  /** Go's `append(dst[:0], src...)`. */
  method Rewrite(dst: array<byte>, src: Text) returns (out: array<byte>, outLen: nat)
    modifies dst
    ensures out == dst || fresh(out)
    ensures outLen == |src| <= out.Length && out[..outLen] == src
  {
    out, outLen := Append(dst, 0, src);
  }

  class Scanner {
    var tail: array<byte>
    var tailLen: nat
    var buf: array<byte>
    var bufLen: nat
    const window: nat
    /** Everything fed so far. */
    ghost var fed: Text
    ghost var Repr: set<object>

    /** The tail is the end of what was fed, and never shares storage with the buffer. */
    ghost predicate Valid()
      reads this, Repr
    {
      && Repr == {this, tail, buf}
      && 0 < window
      && tail != buf
      && tailLen <= tail.Length
      && bufLen <= buf.Length
      && tail[..tailLen] == LastBytes(fed, window)
    }

    constructor (size: int)
      ensures Valid() && fed == [] && fresh(Repr)
      ensures window == if size <= 0 then DEFAULT_WINDOW else size
    {
      window := if size <= 0 then DEFAULT_WINDOW else size;
      tail, tailLen := new byte[0], 0;
      buf, bufLen := new byte[0], 0;
      fed := [];
      Repr := {this, tail, buf};
    }

    /** Append a chunk and return the window: the end of the earlier text and the chunk.
        The result is read from the shared buffer after the tail has been rewritten. */
    method Feed(chunk: Text) returns (combined: Text)
      requires Valid()
      modifies Repr
      ensures Valid() && (forall o <- Repr :: o in old(Repr) || fresh(o))
      ensures combined == LastBytes(old(fed), window) + chunk && buf[..bufLen] == combined
      ensures fed == old(fed) + chunk
    {
      LastBytesStep(fed, chunk, window);
      fed := fed + chunk;
      Fill(chunk);
      combined := buf[..bufLen];
      Keep();
    }

    /** Put the tail and the chunk into the buffer. */
    method Fill(chunk: Text)
      requires Repr == {this, tail, buf} && tail != buf && tailLen <= tail.Length
      modifies this`buf, this`bufLen, this`Repr, buf
      ensures tail != buf && Repr == {this, tail, buf} && (buf == old(buf) || fresh(buf))
      ensures tail[..tailLen] == old(tail[..tailLen])
      ensures bufLen <= buf.Length && buf[..bufLen] == tail[..tailLen] + chunk
    {
      buf, bufLen := Rewrite(buf, tail[..tailLen]);
      buf, bufLen := Append(buf, bufLen, chunk);
      Repr := {this, tail, buf};
    }

    /** Keep the end of the buffer as the new tail. */
    method Keep()
      requires Repr == {this, tail, buf} && tail != buf && bufLen <= buf.Length
      modifies this`tail, this`tailLen, this`Repr, tail
      ensures tail != buf && Repr == {this, tail, buf} && (tail == old(tail) || fresh(tail))
      ensures buf[..bufLen] == old(buf[..bufLen])
      ensures tailLen <= tail.Length && tail[..tailLen] == LastBytes(buf[..bufLen], window)
    {
      var kept := if bufLen > window then buf[bufLen - window..bufLen] else buf[..bufLen];
      assert kept == LastBytes(buf[..bufLen], window);
      tail, tailLen := Rewrite(tail, kept);
      Repr := {this, tail, buf};
    }
  }

  lemma {:induction false} LastBytesStep(fed: Text, chunk: Text, window: nat)
    ensures LastBytes(fed + chunk, window) == LastBytes(LastBytes(fed, window) + chunk, window)
  {
  }

  /** All channels of one response. */
  class Windows {
    const window: nat
    var byKey: map<string, Scanner>
    /** Every fragment fed so far, on any channel. */
    ghost var history: seq<Fragment>

    ghost var Repr: set<object>

    ghost predicate Owned(k: string)
      reads this, Repr
      requires k in byKey
    {
      && byKey[k] in Repr && byKey[k].Repr <= Repr && this !in byKey[k].Repr
      && byKey[k].Valid() && byKey[k].window == window
      && byKey[k].fed == ChannelText(history, k)
    }

    ghost predicate Valid()
      reads this, Repr
    {
      && this in Repr
      && 0 < window
      && (forall k <- byKey :: Owned(k))
      && (forall k: string :: k !in byKey ==> ChannelText(history, k) == [])
      && (forall k, l :: k in byKey && l in byKey && k != l ==> byKey[k].Repr !! byKey[l].Repr)
    }

    constructor (size: int)
      ensures Valid() && history == [] && fresh(Repr)
      ensures window == if size <= 0 then DEFAULT_WINDOW else size
    {
      window := if size <= 0 then DEFAULT_WINDOW else size;
      byKey, history := map[], [];
      Repr := {this};
    }

    /** Make sure the channel has a scanner. */
    method Open(channel: string)
      requires Valid()
      modifies this
      ensures Valid() && (forall o <- Repr :: o in old(Repr) || fresh(o)) && history == old(history)
      ensures channel in byKey
    {
      if channel !in byKey {
        var created := new Scanner(window);
        byKey := byKey[channel := created];
        Repr := Repr + created.Repr;
        OpenedStaysValid(channel);
      }
    }

    /** A new channel, in storage of its own, leaves the others as they are. */
    twostate lemma OpenedStaysValid(channel: string)
      requires old(Valid())
      requires channel !in old(byKey) && byKey.Keys == old(byKey).Keys + {channel}
      requires forall k <- old(byKey) :: byKey[k] == old(byKey[k])
      requires byKey[channel].Valid() && byKey[channel].fed == [] && byKey[channel].window == window
      requires fresh(byKey[channel].Repr) && byKey[channel] in byKey[channel].Repr
      requires history == old(history) && Repr == old(Repr) + byKey[channel].Repr
      requires unchanged(old(Repr) - {this})
      ensures Valid()
    {
      assert Owned(channel);
      forall k | k in old(byKey)
        ensures Owned(k) && byKey[k].Repr == old(byKey[k].Repr) && byKey[k].Repr !! byKey[channel].Repr
      {
        OldStaysApart(k);
      }
      PairsStayApart(channel);
    }

    twostate lemma PairsStayApart(channel: string)
      requires old(Valid()) && channel in byKey && byKey.Keys == old(byKey).Keys + {channel}
      requires forall k <- old(byKey) ::
                 byKey[k].Repr == old(byKey[k].Repr) && (k != channel ==> byKey[k].Repr !! byKey[channel].Repr)
      ensures forall k, l :: k in byKey && l in byKey && k != l ==> byKey[k].Repr !! byKey[l].Repr
    {
    }

    twostate lemma OldStaysApart(k: string)
      requires old(Valid()) && k in old(byKey) && k in byKey && byKey[k] == old(byKey[k])
      requires history == old(history) && old(Repr) <= Repr && unchanged(old(Repr) - {this})
      ensures Owned(k) && byKey[k].Repr == old(byKey[k].Repr) <= old(Repr)
    {
      assert old(Owned(k));
      OtherStaysOwned(k);
    }

    /** Feed one fragment.  Other channels are not touched. */
    method Feed(channel: string, chunk: Text) returns (text: Text)
      requires Valid()
      modifies Repr
      ensures Valid() && (forall o <- Repr :: o in old(Repr) || fresh(o))
      ensures text == WindowText(old(history), Fragment(channel, chunk), window)
      ensures history == old(history) + [Fragment(channel, chunk)]
    {
      Open(channel);
      text := FeedOpened(channel, chunk);
    }

    method FeedOpened(channel: string, chunk: Text) returns (text: Text)
      requires Valid() && channel in byKey
      modifies Repr
      ensures Valid() && (forall o <- Repr :: o in old(Repr) || fresh(o))
      ensures text == WindowText(old(history), Fragment(channel, chunk), window)
      ensures history == old(history) + [Fragment(channel, chunk)]
    {
      var scanner := byKey[channel];
      assert Owned(channel);
      text := scanner.Feed(chunk);
      Repr := Repr + scanner.Repr;
      history := history + [Fragment(channel, chunk)];
      FedStaysValid(Fragment(channel, chunk));
    }

    /** Feeding one channel, in its own storage, keeps all of them in order. */
    twostate lemma FedStaysValid(f: Fragment)
      requires old(Valid())
      requires f.channel in old(byKey) && byKey == old(byKey)
      requires history == old(history) + [f]
      requires Repr == old(Repr) + byKey[f.channel].Repr
      requires byKey[f.channel].Valid()
      requires byKey[f.channel].fed == old(byKey[f.channel].fed) + f.text
      requires forall o <- byKey[f.channel].Repr :: o in old(byKey[f.channel].Repr) || fresh(o)
      requires unchanged(old(Repr) - old(byKey[f.channel].Repr) - {this})
      ensures Valid()
    {
      assert old(Owned(f.channel));
      forall k: string
        ensures ChannelText(history, k) == ChannelText(old(history), k) + if k == f.channel then f.text else []
      {
        ChannelTextSnoc(old(history), f, k);
      }
      forall k | k in byKey && k != f.channel
        ensures Owned(k) && byKey[k].Repr == old(byKey[k].Repr)
      {
        assert old(Owned(k));
        OtherStaysOwned(k);
      }
    }

    /** A channel whose storage is not written stays as it was. */
    twostate lemma OtherStaysOwned(k: string)
      requires old(k in byKey && Owned(k)) && k in byKey && byKey[k] == old(byKey[k]) && old(Repr) <= Repr
      requires unchanged(old(byKey[k].Repr))
      requires ChannelText(history, k) == old(ChannelText(history, k))
      ensures Owned(k) && byKey[k].Repr == old(byKey[k].Repr)
    {
      assert byKey[k] in old(byKey[k].Repr);
    }
  }

  lemma {:induction false} ChannelTextSnoc(fragments: seq<Fragment>, f: Fragment, channel: string)
    ensures ChannelText(fragments + [f], channel)
         == ChannelText(fragments, channel) + if f.channel == channel then f.text else []
  {
    assert (fragments + [f])[..|fragments|] == fragments;
  }

  // ---------------------------------------------------------------------------------
  // What the windows catch
  // ---------------------------------------------------------------------------------

  /** A pattern of at most one byte more than the window that first occurs with fragment `f`
      is in the window text of `f`. */
  lemma {:induction false} WindowCatches(p: Text, earlier: seq<Fragment>, f: Fragment, channel: string, window: nat)
    requires 0 < |p| <= window + 1
    requires Occurs(p, ChannelText(earlier + [f], channel)) && !Occurs(p, ChannelText(earlier, channel))
    ensures f.channel == channel && f.text != []
    ensures Occurs(p, WindowText(earlier, f, window))
  {
    ChannelTextSnoc(earlier, f, channel);
    var before := ChannelText(earlier, channel);
    assert f.channel != channel || f.text == [] ==> ChannelText(earlier + [f], channel) == before;
    if f.channel == channel {
      NewOccurrence(p, before, f.text, window);
    }
  }

  /** A pattern that appears with `text` ends in it, so it starts among the last `window`
      bytes before. */
  lemma {:induction false} NewOccurrence(p: Text, before: Text, text: Text, window: nat)
    requires 0 < |p| <= window + 1
    requires Occurs(p, before + text) && !Occurs(p, before)
    ensures Occurs(p, LastBytes(before, window) + text)
  {
    var whole := before + text;
    var k: nat :| OccursAt(p, whole, k);
    assert !OccursAt(p, before, k);
    var cut := |before| - |LastBytes(before, window)|;
    OccursAfterCut(p, whole, k, cut);
    assert LastBytes(before, window) + text == whole[cut..];
  }

  lemma {:induction false} OccursAfterCut(p: Text, whole: Text, k: nat, cut: nat)
    requires OccursAt(p, whole, k) && cut <= k
    ensures Occurs(p, whole[cut..])
  {
    assert whole[cut..][k - cut..k - cut + |p|] == whole[k..k + |p|];
    assert OccursAt(p, whole[cut..], k - cut);
  }

  ghost predicate CaughtAt(p: Text, fragments: seq<Fragment>, channel: string, window: nat, i: int) {
    && 0 <= i < |fragments| && fragments[i].channel == channel && fragments[i].text != []
    && Occurs(p, WindowText(fragments[..i], fragments[i], window))
  }

  /** The fragment with which a pattern first occurs shows it. */
  lemma {:induction false} FirstCaught(p: Text, fragments: seq<Fragment>, channel: string, window: nat) returns (i: nat)
    requires 0 < |p| <= window + 1
    requires Occurs(p, ChannelText(fragments, channel))
    ensures CaughtAt(p, fragments, channel, window, i)
    ensures !Occurs(p, ChannelText(fragments[..i], channel))
  {
    assert !Occurs(p, []);
    var n := |fragments| - 1;
    assert fragments == fragments[..n] + [fragments[n]];
    if Occurs(p, ChannelText(fragments[..n], channel)) {
      i := FirstCaught(p, fragments[..n], channel, window);
      assert fragments[..n][..i] == fragments[..i];
    } else {
      WindowCatches(p, fragments[..n], fragments[n], channel, window);
      i := n;
    }
  }

  lemma {:induction false} CaughtOccurs(p: Text, fragments: seq<Fragment>, channel: string, window: nat, i: nat)
    requires CaughtAt(p, fragments, channel, window, i)
    ensures Occurs(p, ChannelText(fragments, channel))
    decreases |fragments|
  {
    var n := |fragments| - 1;
    assert fragments == fragments[..n] + [fragments[n]];
    ChannelTextSnoc(fragments[..n], fragments[n], channel);
    var whole := ChannelText(fragments, channel);
    if i == n {
      WindowIsSuffix(fragments[..n], fragments[n], window);
      OccursInSuffix(p, WindowText(fragments[..n], fragments[n], window), whole);
    } else {
      assert fragments[..n][..i] == fragments[..i];
      CaughtOccurs(p, fragments[..n], channel, window, i);
      OccursInPrefix(p, ChannelText(fragments[..n], channel), whole);
    }
  }

  lemma {:induction false} OccursInSuffix(p: Text, s: Text, whole: Text)
    requires IsSuffix(s, whole) && Occurs(p, s)
    ensures Occurs(p, whole)
  {
    OccursInContext(p, whole[..|whole| - |s|], s, []);
    assert whole[..|whole| - |s|] + s + [] == whole;
  }

  lemma {:induction false} OccursInPrefix(p: Text, s: Text, whole: Text)
    requires s <= whole && Occurs(p, s)
    ensures Occurs(p, whole)
  {
    OccursInContext(p, [], s, whole[|s|..]);
    assert [] + s + whole[|s|..] == whole;
  }

  /** Whatever other channels do in between, the windows of a channel show a pattern of at
      most one byte more than the window exactly when the whole channel text holds it. */
  lemma {:induction false} WindowsSeeWholeText(p: Text, fragments: seq<Fragment>, channel: string, window: nat)
    requires 0 < |p| <= window + 1
    ensures Occurs(p, ChannelText(fragments, channel)) <==> exists i :: CaughtAt(p, fragments, channel, window, i)
  {
    if Occurs(p, ChannelText(fragments, channel)) {
      var i := FirstCaught(p, fragments, channel, window);
    }
    if i :| CaughtAt(p, fragments, channel, window, i) {
      CaughtOccurs(p, fragments, channel, window, i);
    }
  }

  lemma {:induction false} WindowIsSuffix(earlier: seq<Fragment>, f: Fragment, window: nat)
    ensures IsSuffix(WindowText(earlier, f, window), ChannelText(earlier + [f], f.channel))
  {
    ChannelTextSnoc(earlier, f, f.channel);
    LastBytesSuffix(ChannelText(earlier, f.channel), f.text, window);
  }

  lemma {:induction false} LastBytesSuffix(before: Text, text: Text, window: nat)
    ensures IsSuffix(LastBytes(before, window) + text, before + text)
  {
  }

  /** A text mapped byte by byte, as a change of letter case does. */
  function Mapped(g: byte -> byte, t: Text): Text {
    seq(|t|, i requires 0 <= i < |t| => g(t[i]))
  }

  function MapFragments(g: byte -> byte, fragments: seq<Fragment>): (mapped: seq<Fragment>)
    ensures |mapped| == |fragments|
    ensures forall i :: 0 <= i < |mapped| ==> mapped[i] == Fragment(fragments[i].channel, Mapped(g, fragments[i].text))
  {
    seq(|fragments|, i requires 0 <= i < |fragments| => Fragment(fragments[i].channel, Mapped(g, fragments[i].text)))
  }

  lemma {:induction false} MappedConcat(g: byte -> byte, a: Text, b: Text)
    ensures Mapped(g, a + b) == Mapped(g, a) + Mapped(g, b)
  {
  }

  lemma {:induction false} ChannelTextMapped(g: byte -> byte, fragments: seq<Fragment>, channel: string)
    ensures ChannelText(MapFragments(g, fragments), channel) == Mapped(g, ChannelText(fragments, channel))
  {
    if fragments != [] {
      var n := |fragments| - 1;
      ChannelTextMapped(g, fragments[..n], channel);
      assert MapFragments(g, fragments)[..n] == MapFragments(g, fragments[..n]);
      MappedConcat(g, ChannelText(fragments[..n], channel),
                   if fragments[n].channel == channel then fragments[n].text else []);
    }
  }

  /** The windows of mapped fragments are the mapped windows. */
  lemma {:induction false} WindowTextMapped(g: byte -> byte, fragments: seq<Fragment>, window: nat, i: nat)
    requires i < |fragments|
    ensures var mapped := MapFragments(g, fragments);
      WindowText(mapped[..i], mapped[i], window) == Mapped(g, WindowText(fragments[..i], fragments[i], window))
  {
    var before := ChannelText(fragments[..i], fragments[i].channel);
    assert MapFragments(g, fragments)[..i] == MapFragments(g, fragments[..i]);
    ChannelTextMapped(g, fragments[..i], fragments[i].channel);
    assert LastBytes(Mapped(g, before), window) == Mapped(g, LastBytes(before, window));
    MappedConcat(g, LastBytes(before, window), fragments[i].text);
  }

  /** One fragment per byte. */
  function Bytewise(p: Text, channel: string): (fragments: seq<Fragment>)
    ensures |fragments| == |p|
    ensures forall i :: 0 <= i < |p| ==> fragments[i] == Fragment(channel, [p[i]])
  {
    seq(|p|, i requires 0 <= i < |p| => Fragment(channel, [p[i]]))
  }

  /** The bound is sharp: any longer pattern, sent byte by byte, is never in a window. */
  lemma {:induction false} WindowBoundIsSharp(p: Text, channel: string, window: nat)
    requires |p| > window + 1
    ensures Occurs(p, ChannelText(Bytewise(p, channel), channel))
    ensures !exists i :: CaughtAt(p, Bytewise(p, channel), channel, window, i)
  {
    BytewiseText(p, channel);
    assert OccursAt(p, p, 0);
    forall i: nat
      ensures !CaughtAt(p, Bytewise(p, channel), channel, window, i)
    {
      if i < |p| {
        var seen := WindowText(Bytewise(p, channel)[..i], Bytewise(p, channel)[i], window);
        assert |seen| < |p|;
      }
    }
  }

  lemma {:induction false} BytewiseText(p: Text, channel: string)
    ensures ChannelText(Bytewise(p, channel), channel) == p
  {
    if p != [] {
      var k := |p| - 1;
      assert Bytewise(p, channel)[..k] == Bytewise(p[..k], channel);
      BytewiseText(p[..k], channel);
    }
  }
}
