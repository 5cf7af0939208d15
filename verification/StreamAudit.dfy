/** Auditing one event of a streamed response: the `inspect` closure of
    internal/httpapi/handler.go, its rolling windows and the verdict on each window.

    Rule set, response policy and audit switch are fixed for the stream; text normalisation
    is an arbitrary function. */
module StreamAudit {
  import opened ByteStrings
  import opened RuleEngine
  import opened Policies
  import opened SseEvents
  import opened RollingWindows

  const DEFAULT_MAX_EVENT: nat := 256 * 1024

  // ---------------------------------------------------------------------------------
  // Specification
  // ---------------------------------------------------------------------------------

  /** Everything that decides on a window text. */
  datatype Setup = Setup(rules: RuleSet, lower: Lowering, normalize: Text -> Text, policy: Policy, enabled: bool)

  /** The text the rules see for a window. */
  function Audited(s: Setup, seen: Text): Text { s.lower.apply(s.normalize(seen)) }

  function WindowVerdict(s: Setup, seen: Text): Decision {
    Verdict(Findings(s.rules, s.lower, Audited(s, seen)), s.policy)
  }

  /** The stream stops at a window text that `blocks` holds of. */
  type Blocker = Text -> bool

  ghost predicate DecidesFor(blocks: Blocker, s: Setup) {
    forall seen {:trigger WindowVerdict(s, seen)} :: blocks(seen) <==> s.enabled && WindowVerdict(s, seen) == Block
  }

  ghost function BlockerOf(s: Setup): (blocks: Blocker)
    ensures DecidesFor(blocks, s)
  {
    seen => s.enabled && WindowVerdict(s, seen) == Block
  }

  lemma {:induction false} DisabledNeverBlocks(blocks: Blocker, s: Setup, seen: Text)
    requires DecidesFor(blocks, s) && !s.enabled
    ensures !blocks(seen)
  {
    var v := WindowVerdict(s, seen);
  }

  /** No fragment from the `from`-th on shows a blocked window. */
  ghost predicate Clean(blocks: Blocker, window: nat, fragments: seq<Fragment>, from: nat) {
    forall i :: from <= i < |fragments| ==> !blocks(WindowText(fragments[..i], fragments[i], window))
  }

  /** The fragments of a list of raw events, in order. */
  function FragmentsOf(events: seq<Text>, lib: EventLibrary): seq<Fragment> {
    if events == [] then []
    else FragmentsOf(events[..|events| - 1], lib) + Parsed(events[|events| - 1], lib).fragments
  }

  /** They are what the events show, by their data. */
  lemma {:induction false} FragmentsAreShown(events: seq<Text>, lib: EventLibrary)
    ensures FragmentsOf(events, lib) == ShownBy(events, lib)
  {
    if events != [] {
      var k := |events| - 1;
      FragmentsAreShown(events[..k], lib);
      ShownLast(events, lib);
    }
  }

  /** Event `k` passes inspection, given that the events before it were fed. */
  ghost predicate Passes(blocks: Blocker, window: nat, events: seq<Text>, lib: EventLibrary, k: nat)
    requires k < |events|
  {
    Clean(blocks, window, FragmentsOf(events[..k], lib) + Parsed(events[k], lib).fragments,
          |FragmentsOf(events[..k], lib)|)
  }

  ghost predicate AllPass(blocks: Blocker, window: nat, events: seq<Text>, lib: EventLibrary, n: nat)
    requires n <= |events|
  {
    forall k :: 0 <= k < n ==> Passes(blocks, window, events, lib, k)
  }

  // ---------------------------------------------------------------------------------
  // The inspector
  // ---------------------------------------------------------------------------------

  class Inspector {
    const enabled: bool
    const snapshot: Snapshot
    const scratch: MatchScratch
    const normalize: Text -> Text
    const policy: Policy
    const windows: Windows
    var terminationCode: string
    var cancelled: bool
    ghost const setup: Setup
    ghost const blocks: Blocker
    ghost var Repr: set<object>

    /** Never changes: which rules, policy and switch the stream is inspected with. */
    ghost predicate Configured() {
      && snapshot.Built()
      && setup == Setup(snapshot.rules, snapshot.lower, normalize, policy, enabled)
      && DecidesFor(blocks, setup)
    }

    ghost predicate Valid()
      reads this, Repr
    {
      && this in Repr && scratch in Repr && windows in Repr && windows.Repr <= Repr
      && this !in windows.Repr && scratch !in windows.Repr
      && scratch.Valid() && windows.Valid()
    }

    constructor (snapshot: Snapshot, normalize: Text -> Text, policy: Policy, enabled: bool, window: int)
      requires snapshot.Built()
      ensures Valid() && fresh(Repr) && windows.history == []
      ensures Configured() && setup == Setup(snapshot.rules, snapshot.lower, normalize, policy, enabled)
      ensures windows.window == if window <= 0 then DEFAULT_WINDOW else window
    {
      this.snapshot, this.normalize, this.policy, this.enabled := snapshot, normalize, policy, enabled;
      var s := new MatchScratch();
      var w := new Windows(window);
      scratch, windows := s, w;
      terminationCode, cancelled := "", false;
      setup := Setup(snapshot.rules, snapshot.lower, normalize, policy, enabled);
      blocks := BlockerOf(Setup(snapshot.rules, snapshot.lower, normalize, policy, enabled));
      Repr := {this, s} + w.Repr;
    }

    /** Feed the window of the fragment's channel. */
    method See(fragment: Fragment) returns (seen: Text)
      requires Valid()
      modifies Repr
      ensures Valid() && (forall o <- Repr :: o in old(Repr) || fresh(o))
      ensures windows.history == old(windows.history) + [fragment]
      ensures seen == WindowText(old(windows.history), fragment, windows.window)
    {
      seen := windows.Feed(fragment.channel, fragment.text);
      Repr := Repr + windows.Repr;
    }

    /** Audit a window and decide. */
    method Assess(seen: Text) returns (decision: Decision)
      requires Valid() && Configured() && enabled
      modifies scratch
      ensures Valid() && windows.history == old(windows.history) && Repr == old(Repr)
      ensures decision == Block <==> blocks(seen)
    {
      var result := snapshot.Audit(normalize(seen), scratch);
      decision := Elevate(result.matches, Decide(result.score, policy));
      assert decision == WindowVerdict(setup, seen);
    }

    /** One fragment: feed the window, audit it, decide. */
    method Judge(fragment: Fragment) returns (decision: Decision)
      requires Valid() && Configured() && enabled
      modifies Repr
      ensures Valid() && (forall o <- Repr :: o in old(Repr) || fresh(o))
      ensures windows.history == old(windows.history) + [fragment]
      ensures decision == Block <==> blocks(WindowText(old(windows.history), fragment, windows.window))
    {
      var seen := See(fragment);
      decision := Assess(seen);
    }

    /** The loop of the `inspect` closure over the fragments of an event: it stops at the
        first blocked fragment. */
    method JudgeAll(fragments: seq<Fragment>) returns (ok: bool)
      requires Valid() && Configured() && enabled
      modifies Repr
      ensures Valid() && (forall o <- Repr :: o in old(Repr) || fresh(o))
      ensures ok <==> Clean(blocks, windows.window, old(windows.history) + fragments, |old(windows.history)|)
      ensures ok ==> windows.history == old(windows.history) + fragments
    {
      ghost var earlier := windows.history;
      for i := 0 to |fragments|
        invariant Valid() && (forall o <- Repr :: o in old(Repr) || fresh(o))
        invariant windows.history == earlier + fragments[..i]
        invariant Clean(blocks, windows.window, earlier + fragments[..i], |earlier|)
      {
        ExtendHistory(blocks, windows.window, earlier, fragments, i);
        var decision := Judge(fragments[i]);
        if decision == Block {
          return false;
        }
      }
      TakeAll(fragments);
      return true;
    }

    /** The `inspect` closure: an event passes when none of its fragments is blocked. */
    method Inspect(event: SseEvent, ghost earlier: seq<Fragment>) returns (ok: bool)
      requires Valid() && Configured()
      requires enabled ==> windows.history == earlier
      modifies Repr
      ensures Valid() && (forall o <- Repr :: o in old(Repr) || fresh(o))
      ensures ok <==> Clean(blocks, windows.window, earlier + event.fragments, |earlier|)
      ensures ok && enabled ==> windows.history == earlier + event.fragments
      ensures !ok ==> terminationCode == "stream_policy_blocked" && cancelled
    {
      if !enabled {
        forall seen
          ensures !blocks(seen)
        {
          DisabledNeverBlocks(blocks, setup, seen);
        }
        return true;
      }
      ok := JudgeAll(event.fragments);
      if !ok {
        Terminate();
      }
    }

    method Terminate()
      requires Valid()
      modifies this`terminationCode, this`cancelled
      ensures Valid()
      ensures terminationCode == "stream_policy_blocked" && cancelled
    {
      terminationCode, cancelled := "stream_policy_blocked", true;
    }
  }

  /** The verdict on the next fragment decides whether the history stays clean. */
  lemma {:induction false} ExtendHistory(blocks: Blocker, window: nat, earlier: seq<Fragment>,
                                         fragments: seq<Fragment>, i: nat)
    requires i < |fragments|
    requires Clean(blocks, window, earlier + fragments[..i], |earlier|)
    ensures var now := earlier + fragments[..i];
            var blocked := blocks(WindowText(now, fragments[i], window));
      && now + [fragments[i]] == earlier + fragments[..i + 1]
      && (!blocked ==> Clean(blocks, window, earlier + fragments[..i + 1], |earlier|))
      && (blocked ==> !Clean(blocks, window, earlier + fragments, |earlier|))
  {
    var now, next, all := earlier + fragments[..i], earlier + fragments[..i + 1], earlier + fragments;
    assert now + [fragments[i]] == next;
    assert forall j :: 0 <= j <= |now| ==> next[..j] == now[..j];
    assert forall j :: 0 <= j < |now| ==> next[j] == now[j];
    assert all[..|now|] == now && all[|now|] == fragments[i];
  }
}
