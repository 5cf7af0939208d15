/** The decision of internal/policy/policy.go: score thresholds, elevated by the explicit
    actions of the matching rules. */
module Policies {
  import opened RuleEngine

  datatype Decision = Allow | Monitor | Redact | Block | Other(name: string)

  datatype Policy = Policy(monitorAt: int, interventionAt: int, interventionAction: Decision)

  function ParseDecision(text: string): Decision {
    if text == "allow" then Allow
    else if text == "monitor" then Monitor
    else if text == "redact" then Redact
    else if text == "block" then Block
    else Other(text)
  }

  function Normalized(p: Policy): Policy {
    p.(monitorAt := if p.monitorAt <= 0 then 30 else p.monitorAt,
       interventionAt := if p.interventionAt <= 0 then 80 else p.interventionAt,
       interventionAction := if p.interventionAction == Other("") then Block else p.interventionAction)
  }

  /** The thresholds and the action that `Validate` accepts. */
  predicate Validated(policy: Policy) {
    var p := Normalized(policy);
    1 <= p.monitorAt < p.interventionAt <= 100 && (p.interventionAction == Block || p.interventionAction == Redact)
  }

  function Decide(score: int, configured: Policy): Decision {
    var p := Normalized(configured);
    if score >= p.interventionAt then p.interventionAction
    else if score >= p.monitorAt then Monitor
    else Allow
  }

  predicate HasAction(matches: seq<Match>, action: Decision) {
    exists i :: 0 <= i < |matches| && ParseDecision(matches[i].action) == action
  }

  /** The decision after elevation, told by which actions are present, not by their order. */
  function Elevated(matches: seq<Match>, decision: Decision): Decision {
    if HasAction(matches, Block) then Block
    else if HasAction(matches, Redact) then if decision == Block then Block else Redact
    else if HasAction(matches, Monitor) && decision == Allow then Monitor
    else decision
  }

  /** One pass over the matches, leaving early at the first blocking rule. */
  method Elevate(matches: seq<Match>, decision: Decision) returns (r: Decision)
    ensures r == Elevated(matches, decision)
  {
    r := decision;
    for i := 0 to |matches|
      invariant !HasAction(matches[..i], Block)
      invariant r == Elevated(matches[..i], decision)
    {
      assert matches[..i + 1] == matches[..i] + [matches[i]];
      assert forall a :: HasAction(matches[..i + 1], a) <==>
               HasAction(matches[..i], a) || ParseDecision(matches[i].action) == a by {
        forall a
          ensures HasAction(matches[..i + 1], a) <==>
                    HasAction(matches[..i], a) || ParseDecision(matches[i].action) == a
        {
          HasActionSnoc(matches[..i], matches[i], a);
        }
      }
      match ParseDecision(matches[i].action)
      case Block =>
        assert HasAction(matches, Block);
        return Block;
      case Redact =>
        if r != Block { r := Redact; }
      case Monitor =>
        if r == Allow { r := Monitor; }
      case _ =>
    }
    assert matches[..|matches|] == matches;
  }

  lemma {:induction false} HasActionSnoc(matches: seq<Match>, m: Match, a: Decision)
    ensures HasAction(matches + [m], a) <==> HasAction(matches, a) || ParseDecision(m.action) == a
  {
    var more := matches + [m];
    if HasAction(matches, a) {
      var i :| 0 <= i < |matches| && ParseDecision(matches[i].action) == a;
      assert ParseDecision(more[i].action) == a;
    }
    if ParseDecision(m.action) == a {
      assert ParseDecision(more[|matches|].action) == a;
    }
  }

  // ---------------------------------------------------------------------------------
  // The decision as a join
  // ---------------------------------------------------------------------------------

  /** allow < monitor < redact < block; an unknown action asks for nothing. */
  function Rank(d: Decision): nat {
    match d
    case Allow => 0
    case Monitor => 1
    case Redact => 2
    case Block => 3
    case Other(_) => 0
  }

  /** What the gateway does with a text whose audit found `matches`. */
  function Verdict(matches: seq<Match>, policy: Policy): Decision {
    Elevated(matches, Decide(Capped(TotalWeight(matches)), policy))
  }

  /** The verdict is the least decision that is no weaker than the threshold decision and
      than the action of any matching rule. */
  lemma {:induction false} VerdictIsJoin(matches: seq<Match>, policy: Policy)
    requires Validated(policy)
    ensures var v, weight := Verdict(matches, policy), TotalWeight(matches);
            var monitorAt := if policy.monitorAt <= 0 then 30 else policy.monitorAt;
            var interventionAt := if policy.interventionAt <= 0 then 80 else policy.interventionAt;
            var action := if policy.interventionAction == Other("") then Block else policy.interventionAction;
            var byScore := if weight >= interventionAt then action else if weight >= monitorAt then Monitor else Allow;
      && Rank(byScore) <= Rank(v)
      && (forall i :: 0 <= i < |matches| ==> Rank(ParseDecision(matches[i].action)) <= Rank(v))
      && (v == byScore || exists i :: 0 <= i < |matches| && v == ParseDecision(matches[i].action))
      && !v.Other?
  {
    forall i | 0 <= i < |matches|
      ensures HasAction(matches, ParseDecision(matches[i].action))
    {
    }
  }

  ghost predicate SomeAction(matches: seq<Match>, actions: set<string>) {
    exists m :: m in matches && m.action in actions
  }

  /** What each verdict takes: the intervention threshold brings the intervention action, the
      monitoring threshold monitoring, and a matching rule its own action, whatever the score. */
  lemma {:induction false} VerdictExactly(matches: seq<Match>, p: Policy)
    requires 1 <= p.monitorAt < p.interventionAt <= 100
    requires p.interventionAction == Block || p.interventionAction == Redact
    ensures var v, weight := Verdict(matches, p), TotalWeight(matches);
      && (v == Block <==>
            SomeAction(matches, {"block"}) || (p.interventionAction == Block && weight >= p.interventionAt))
      && (v == Block || v == Redact <==> SomeAction(matches, {"block", "redact"}) || weight >= p.interventionAt)
      && (v == Block || v == Redact || v == Monitor <==>
            SomeAction(matches, {"block", "redact", "monitor"}) || weight >= p.monitorAt)
      && (v == Block || v == Redact || v == Monitor || v == Allow)
  {
    ActionNames(matches);
  }

  lemma {:induction false} ActionNames(matches: seq<Match>)
    ensures HasAction(matches, Block) <==> SomeAction(matches, {"block"})
    ensures HasAction(matches, Block) || HasAction(matches, Redact) <==> SomeAction(matches, {"block", "redact"})
    ensures HasAction(matches, Block) || HasAction(matches, Redact) || HasAction(matches, Monitor) <==>
            SomeAction(matches, {"block", "redact", "monitor"})
  {
    forall i | 0 <= i < |matches|
      ensures matches[i] in matches
    {
    }
    forall m | m in matches
      ensures HasAction(matches, ParseDecision(m.action))
    {
      var i :| 0 <= i < |matches| && matches[i] == m;
      assert ParseDecision(matches[i].action) == ParseDecision(m.action);
    }
  }

  /** Thresholds that are not set are 30 and 80, and an action that is not set is to block. */
  lemma {:induction false} UnsetMeansDefault(matches: seq<Match>, p: Policy)
    ensures p.monitorAt <= 0 ==> Verdict(matches, p) == Verdict(matches, p.(monitorAt := 30))
    ensures p.interventionAt <= 0 ==> Verdict(matches, p) == Verdict(matches, p.(interventionAt := 80))
    ensures p.interventionAction == Other("") ==>
              Verdict(matches, p) == Verdict(matches, p.(interventionAction := Block))
    ensures Verdict(matches, Policy(0, 0, Other(""))) == Verdict(matches, Policy(30, 80, Block))
  {
  }

  /** The same by rank: the verdict is at least the intervention action if and only if the
      threshold is reached or some match asks for as much, and likewise for monitoring. */
  lemma {:induction false} ThresholdsExactly(matches: seq<Match>, p: Policy)
    requires 1 <= p.monitorAt < p.interventionAt <= 100
    requires p.interventionAction == Block || p.interventionAction == Redact
    ensures Rank(Verdict(matches, p)) >= Rank(p.interventionAction) <==>
      || TotalWeight(matches) >= p.interventionAt
      || exists m :: m in matches && Rank(ParseDecision(m.action)) >= Rank(p.interventionAction)
    ensures Rank(Verdict(matches, p)) >= Rank(Monitor) <==>
      || TotalWeight(matches) >= p.monitorAt
      || exists m :: m in matches && Rank(ParseDecision(m.action)) >= Rank(Monitor)
  {
    VerdictExactly(matches, p);
    RankOfName();
  }

  lemma {:induction false} RankOfName()
    ensures forall name :: Rank(ParseDecision(name)) == 3 <==> name == "block"
    ensures forall name :: Rank(ParseDecision(name)) >= 2 <==> name in {"block", "redact"}
    ensures forall name :: Rank(ParseDecision(name)) >= 1 <==> name in {"block", "redact", "monitor"}
  {
  }

  lemma {:induction false} RemoveWeight(matches: seq<Match>, j: nat)
    requires j < |matches|
    ensures TotalWeight(matches) == TotalWeight(matches[..j] + matches[j + 1..]) + matches[j].weight
  {
    var k := |matches| - 1;
    if j == k {
      assert matches[..j] + matches[j + 1..] == matches[..k];
    } else {
      RemoveWeight(matches[..k], j);
      assert (matches[..j] + matches[j + 1..])[..k - 1] == matches[..k][..j] + matches[..k][j + 1..];
    }
  }

  /** More matches never weigh less, whatever the order. */
  lemma {:induction false} WeightMonotone(few: seq<Match>, many: seq<Match>)
    requires multiset(few) <= multiset(many)
    requires forall m <- many :: m.weight > 0
    ensures TotalWeight(few) <= TotalWeight(many)
  {
    if few == [] {
      WeightNonNegative(many);
    } else {
      var k := |few| - 1;
      var x := few[k];
      assert few == few[..k] + [x];
      assert x in multiset(few);
      assert x in many;
      var j :| 0 <= j < |many| && many[j] == x;
      assert many == many[..j] + [x] + many[j + 1..];
      var rest := many[..j] + many[j + 1..];
      assert multiset(rest) == multiset(many) - multiset{x};
      assert multiset(few[..k]) == multiset(few) - multiset{x};
      assert forall m <- rest :: m in many;
      WeightMonotone(few[..k], rest);
      RemoveWeight(many, j);
    }
  }

  lemma {:induction false} WeightNonNegative(matches: seq<Match>)
    requires forall m <- matches :: m.weight > 0
    ensures TotalWeight(matches) >= 0
  {
    if matches != [] {
      assert matches[|matches| - 1] in matches;
      WeightNonNegative(matches[..|matches| - 1]);
    }
  }

  /** The verdict never falls when more rules match. */
  lemma {:induction false} VerdictMonotone(few: seq<Match>, many: seq<Match>, policy: Policy)
    requires Validated(policy)
    requires multiset(few) <= multiset(many)
    requires forall m <- many :: m.weight > 0
    ensures Rank(Verdict(few, policy)) <= Rank(Verdict(many, policy))
  {
    WeightMonotone(few, many);
    VerdictIsJoin(few, policy);
    VerdictIsJoin(many, policy);
    forall i | 0 <= i < |few|
      ensures Rank(ParseDecision(few[i].action)) <= Rank(Verdict(many, policy))
    {
      assert few[i] in multiset(few);
      assert few[i] in many;
    }
  }

  /** The verdict does not depend on the order of the matches. */
  lemma {:induction false} VerdictOrderFree(a: seq<Match>, b: seq<Match>, policy: Policy)
    requires Validated(policy)
    requires multiset(a) == multiset(b)
    requires forall m <- a :: m.weight > 0
    ensures Verdict(a, policy) == Verdict(b, policy)
  {
    forall m | m in b
      ensures m in a
    {
      assert m in multiset(b);
    }
    VerdictMonotone(a, b, policy);
    VerdictMonotone(b, a, policy);
    VerdictIsJoin(a, policy);
    VerdictIsJoin(b, policy);
  }
}
