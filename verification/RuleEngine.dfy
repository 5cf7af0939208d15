/** The rule engine of internal/rule/engine.go: compiling a rule set into a snapshot,
    scanning a text with a pooled scratch, and scoring the matches.

    Unicode lowering and regular expressions are library behaviour: they are arbitrary
    functions here. */
module RuleEngine {
  import opened ByteStrings
  import opened AhoCorasick
  import opened AhoBuilder

  newtype uint32 = x: int | 0 <= x < 0x1_0000_0000

  datatype LowerCase = LowerCase(apply: Text -> Text)

  /** Lowering maps every rune to a rune, so only the empty text becomes empty. */
  type Lowering = l: LowerCase | forall s :: KeepsSubstance(l.apply, s) witness LowerCase((s: Text) => s)

  ghost predicate KeepsSubstance(f: Text -> Text, s: Text) { f(s) == [] <==> s == [] }

  type Regexp = Text -> bool

  datatype Definition = Definition(id: string, name: string, pattern: Text, severity: string,
                                   action: string, weight: int, regex: bool)

  datatype CompiledRule = CompiledRule(definition: Definition, re: Option<Regexp>)

  datatype Match = Match(ruleID: string, name: string, severity: string, action: string,
                         weight: int, evidence: Text)

  datatype AuditResult = AuditResult(matches: seq<Match>, score: int)

  // ---------------------------------------------------------------------------------
  // Compiling a rule set
  // ---------------------------------------------------------------------------------

  /** A definition with the defaults of `Replace` filled in. */
  function WithDefaults(d: Definition): Definition {
    d.(weight := if d.weight <= 0 then 10 else d.weight,
       severity := if d.severity == "" then "medium" else d.severity,
       action := if d.action == "" then "monitor" else d.action)
  }

  /** The definitions `Replace` keeps, in order: those with a pattern. */
  function Kept(definitions: seq<Definition>): seq<Definition> {
    if definitions == [] then []
    else
      var d := definitions[|definitions| - 1];
      Kept(definitions[..|definitions| - 1]) + if d.pattern == [] then [] else [WithDefaults(d)]
  }

  lemma {:induction false} KeptNext(definitions: seq<Definition>, i: nat)
    requires i < |definitions|
    ensures Kept(definitions[..i + 1])
         == Kept(definitions[..i]) + if definitions[i].pattern == [] then [] else [WithDefaults(definitions[i])]
  {
    TakeOneMore(definitions, i);
  }

  predicate Rejected(d: Definition, compile: Text -> Option<Regexp>) {
    d.pattern != [] && d.regex && compile(d.pattern).None?
  }

  ghost predicate CompiledFrom(rules: seq<CompiledRule>, kept: seq<Definition>, compile: Text -> Option<Regexp>) {
    && |rules| == |kept|
    && forall i :: 0 <= i < |rules| ==>
         && rules[i].definition == kept[i]
         && rules[i].re == if kept[i].regex then compile(kept[i].pattern) else None
  }

  /** Patterns are non-empty, weights positive, and exactly the regex rules carry a regex. */
  ghost predicate WellFormed(rules: seq<CompiledRule>) {
    forall i :: 0 <= i < |rules| ==>
      && rules[i].definition.pattern != []
      && rules[i].definition.weight > 0
      && rules[i].definition.action != ""
      && (rules[i].re.Some? <==> rules[i].definition.regex)
  }

  /** A rule set as `Replace` compiles it. */
  type RuleSet = rules: seq<CompiledRule> | WellFormed(rules)

  /** `rules` is what the first `n` definitions compile to. */
  ghost predicate Compiled(rules: seq<CompiledRule>, definitions: seq<Definition>, n: nat,
                           compile: Text -> Option<Regexp>)
  {
    && n <= |definitions|
    && (forall j :: 0 <= j < n ==> !Rejected(definitions[j], compile))
    && CompiledFrom(rules, Kept(definitions[..n]), compile)
  }

  method CompileRules(definitions: seq<Definition>, compile: Text -> Option<Regexp>)
    returns (ok: bool, rules: RuleSet)
    ensures ok <==> forall i :: 0 <= i < |definitions| ==> !Rejected(definitions[i], compile)
    ensures ok ==> CompiledFrom(rules, Kept(definitions), compile)
  {
    rules := [];
    for i := 0 to |definitions|
      invariant Compiled(rules, definitions, i, compile)
    {
      if definitions[i].pattern == [] {
        CompiledSkip(rules, definitions, i, compile);
        continue;
      }
      var compiled, rule := CompileRule(definitions[i], compile);
      if !compiled {
        return false, [];
      }
      CompiledNext(rules, definitions, i, rule, compile);
      rules := rules + [rule];
    }
    TakeAll(definitions);
    ok := true;
  }

  lemma {:induction false} CompiledSkip(rules: seq<CompiledRule>, definitions: seq<Definition>, i: nat,
                                        compile: Text -> Option<Regexp>)
    requires Compiled(rules, definitions, i, compile) && i < |definitions| && definitions[i].pattern == []
    ensures Compiled(rules, definitions, i + 1, compile)
  {
    KeptNext(definitions, i);
    assert Kept(definitions[..i]) + [] == Kept(definitions[..i]);
  }

  lemma {:induction false} CompiledNext(rules: RuleSet, definitions: seq<Definition>, i: nat, rule: CompiledRule,
                                        compile: Text -> Option<Regexp>)
    requires Compiled(rules, definitions, i, compile) && i < |definitions| && definitions[i].pattern != []
    requires !Rejected(definitions[i], compile) && WellFormed([rule])
    requires var d := definitions[i];
      rule == CompiledRule(WithDefaults(d), if d.regex then compile(d.pattern) else None)
    ensures Compiled(rules + [rule], definitions, i + 1, compile) && WellFormed(rules + [rule])
  {
    KeptNext(definitions, i);
    assert [rule][0] == rule;
  }

  /** One rule, with its defaults; it fails exactly when its regex does not compile. */
  method CompileRule(d: Definition, compile: Text -> Option<Regexp>) returns (ok: bool, rule: CompiledRule)
    requires d.pattern != []
    ensures ok <==> !Rejected(d, compile)
    ensures ok ==> rule == CompiledRule(WithDefaults(d), if d.regex then compile(d.pattern) else None)
    ensures ok ==> WellFormed([rule])
  {
    var definition := WithDefaults(d);
    rule := CompiledRule(definition, None);
    if definition.regex {
      var re := compile(definition.pattern);
      if re.None? {
        return false, rule;
      }
      rule := CompiledRule(definition, re);
    }
    ok := true;
  }

  /** The keyword each rule contributes to the automaton. */
  function Keywords(rules: seq<CompiledRule>, lower: Lowering): (needles: Needles)
    ensures |needles| == |rules|
  {
    seq(|rules|, i requires 0 <= i < |rules| =>
      if rules[i].re.None? then Some(lower.apply(rules[i].definition.pattern)) else None)
  }

  /** The trie of all keyword rules; regex rules are skipped. */
  method PlantKeywords(rules: seq<CompiledRule>, lower: Lowering)
    returns (nodes: seq<AhoNode>, ghost paths: seq<Text>, ghost parents: seq<nat>)
    ensures Planted(nodes, paths, parents, Keywords(rules, lower))
  {
    ghost var needles := Keywords(rules, lower);
    nodes, paths, parents := [AhoNode(map[], 0, [])], [[]], [0];
    for index := 0 to |rules|
      invariant Planted(nodes, paths, parents, needles[..index])
    {
      assert needles[..index + 1] == needles[..index] + [needles[index]];
      if rules[index].re.Some? {
        SkipRule(nodes, paths, parents, needles[..index]);
      } else {
        nodes, paths, parents := InsertKeyword(nodes, lower.apply(rules[index].definition.pattern), index,
                                               paths, parents, needles[..index]);
      }
    }
    assert needles[..|rules|] == needles;
  }

  /** The automaton of a rule set: the trie of its keywords, then the breadth-first pass. */
  method BuildAho(rules: RuleSet, lower: Lowering) returns (aho: BuiltMachine)
    ensures aho.needles == Keywords(rules, lower)
  {
    var nodes, paths, parents := PlantKeywords(rules, lower);
    nodes := LinkFailures(nodes, paths, parents, Keywords(rules, lower));
    aho := Machine(nodes, paths, parents, Keywords(rules, lower));
  }

  /** A published rule set: the automaton is built once and then only read. */
  class Snapshot {
    const rules: RuleSet
    const lower: Lowering
    const aho: BuiltMachine

    ghost predicate Built() {
      aho.needles == Keywords(rules, lower)
    }

    constructor (rules: RuleSet, lower: Lowering)
      ensures this.rules == rules && this.lower == lower && Built()
    {
      var built := BuildAho(rules, lower);
      this.rules, this.lower, aho := rules, lower, built;
    }

    /** The audit of a text: its findings, and their weights up to 100. */
    ghost function Expected(text: Text): AuditResult {
      var found := Findings(rules, lower, lower.apply(text));
      AuditResult(found, Capped(TotalWeight(found)))
    }

    /** Audit a text with a scratch taken from the pool, whoever used it before. */
    method Audit(text: Text, scratch: MatchScratch) returns (result: AuditResult)
      requires Built() && scratch.Valid()
      modifies scratch
      ensures scratch.Valid()
      ensures result == Expected(text)
    {
      var lowered := lower.apply(text);
      FindingsInOrder(rules, lower, lowered);
      scratch.Begin(lowered);
      var indexes := AhoMatches(aho, scratch);
      var matches, score := CollectKeywords(rules, indexes);
      matches, score := CollectRegexes(rules, lowered, matches, score);
      result := AuditResult(matches, Capped(score));
    }
  }

  // ---------------------------------------------------------------------------------
  // Scanning
  // ---------------------------------------------------------------------------------

  /** Pooled per-scan storage.  `seen[i] == gen` marks rule `i` as already reported by the
      current scan; older generations left in `seen` are ignored. */
  class MatchScratch {
    var seen: seq<uint32>
    var gen: uint32
    var matches: seq<nat>
    var buffer: Text

    /** No marker is from the future: this is what survives from one user to the next. */
    ghost predicate Valid()
      reads this
    {
      forall k :: 0 <= k < |seen| ==> seen[k] <= gen
    }

    /** No rule is marked as reported. */
    ghost predicate Unmarked()
      reads this
    {
      gen > 0 && forall k :: 0 <= k < |seen| ==> seen[k] < gen
    }

    constructor ()
      ensures Valid()
    {
      seen, gen, matches, buffer := [], 0, [], [];
    }

    /** Start a scan of `text`, with the wrap-around of the 32-bit generation. */
    method Begin(text: Text)
      requires Valid()
      modifies this
      ensures Unmarked() && buffer == text
    {
      buffer := text;
      gen := if gen == 0xFFFF_FFFF then 0 else gen + 1;
      if gen == 0 {
        for i := 0 to |seen|
          invariant |seen| == old(|seen|) && gen == 0 && buffer == text
          invariant forall k :: 0 <= k < i ==> seen[k] == 0
        {
          seen := seen[i := 0];
        }
        gen := 1;
      }
    }

    /** The markers and the list of matches agree. */
    ghost predicate Consistent()
      reads this
    {
      && gen > 0 && Valid()
      && (forall m <- matches :: m < |seen|)
      && (forall k :: 0 <= k < |seen| ==> (seen[k] == gen <==> k in matches))
    }

    /** Report one rule unless this scan has already done so. */
    method Mark(index: nat)
      requires Consistent()
      modifies this
      ensures Consistent() && buffer == old(buffer) && gen == old(gen)
      ensures matches == if index in old(matches) then old(matches) else old(matches) + [index]
    {
      if index >= |seen| {
        seen := seen + seq(index + 1 - |seen|, _ => 0 as uint32);
      }
      if seen[index] != gen {
        seen := seen[index := gen];
        matches := matches + [index];
      }
    }
  }

  method ReportTerms(scratch: MatchScratch, terms: seq<nat>)
    requires scratch.Consistent()
    modifies scratch
    ensures scratch.Consistent() && scratch.buffer == old(scratch.buffer)
    ensures scratch.matches == AppendNew(old(scratch.matches), terms)
  {
    for j := 0 to |terms|
      invariant scratch.Consistent() && scratch.buffer == old(scratch.buffer)
      invariant scratch.matches == AppendNew(old(scratch.matches), terms[..j])
    {
      assert terms[..j + 1] == terms[..j] + [terms[j]];
      AppendNewSnoc(old(scratch.matches), terms[..j], terms[j]);
      scratch.Mark(terms[j]);
    }
    assert terms[..|terms|] == terms;
  }

  /** One iteration of the scan: move on by one byte and report the rules that end there. */
  method ScanByte(m: BuiltMachine, scratch: MatchScratch, state: nat, ch: byte, ghost before: Text)
    returns (next: nat)
    requires LongestSuffix(m.paths, before, state)
    requires scratch.Consistent() && scratch.matches == Reported(m.needles, before)
    modifies scratch
    ensures LongestSuffix(m.paths, before + [ch], next)
    ensures scratch.Consistent() && scratch.matches == Reported(m.needles, before + [ch])
    ensures scratch.buffer == old(scratch.buffer)
  {
    TakeAll(before);
    assert (before + [ch])[..|before|] == before;
    next := Advance(m, state, ch, before);
    ReportTerms(scratch, m.nodes[next].terms);
  }

  /** Walk the automaton over the scratch buffer.  The answer is the reference answer:
      nothing of it depends on what earlier scans, of this or of another snapshot, left in
      the scratch, nor on the order in which the builder visited map entries. */
  method AhoMatches(m: BuiltMachine, scratch: MatchScratch) returns (result: seq<nat>)
    requires scratch.Unmarked()
    modifies scratch
    ensures scratch.Valid() && scratch.buffer == old(scratch.buffer)
    ensures result == Reported(m.needles, old(scratch.buffer))
  {
    var text := scratch.buffer;
    var state: nat := 0;
    scratch.matches := [];
    RootMatchesEmpty(m.paths);
    TakeAll(text);
    for i := 0 to |text|
      invariant scratch.Consistent() && scratch.buffer == text
      invariant LongestSuffix(m.paths, text[..i], state)
      invariant scratch.matches == Reported(m.needles, text[..i])
    {
      TakeOneMore(text, i);
      state := ScanByte(m, scratch, state, text[i], text[..i]);
    }
    result := scratch.matches;
  }

  // ---------------------------------------------------------------------------------
  // Auditing
  // ---------------------------------------------------------------------------------

  function ToMatch(rule: CompiledRule): Match {
    var d := rule.definition;
    Match(d.id, d.name, d.severity, d.action, d.weight, d.pattern)
  }

  /** Rule `rule` matches the lowered text. */
  ghost predicate Fires(rule: CompiledRule, lower: Lowering, text: Text) {
    match rule.re
    case None => Occurs(lower.apply(rule.definition.pattern), text)
    case Some(re) => re(text)
  }

  function RegexHits(rules: seq<CompiledRule>, text: Text): (hits: seq<nat>)
    ensures InRange(rules, hits)
  {
    if rules == [] then []
    else
      var k := |rules| - 1;
      RegexHits(rules[..k], text) + if rules[k].re.Some? && rules[k].re.value(text) then [k] else []
  }

  /** The rules an audit of the lowered text lists, keyword rules first. */
  function Hits(rules: seq<CompiledRule>, lower: Lowering, text: Text): seq<nat> {
    Reported(Keywords(rules, lower), text) + RegexHits(rules, text)
  }

  predicate InRange(rules: seq<CompiledRule>, hits: seq<nat>) {
    forall i :: 0 <= i < |hits| ==> hits[i] < |rules|
  }

  function MatchesOf(rules: seq<CompiledRule>, hits: seq<nat>): seq<Match>
    requires InRange(rules, hits)
  {
    if hits == [] then []
    else
      var k := |hits| - 1;
      MatchesOf(rules, hits[..k]) + [ToMatch(rules[hits[k]])]
  }

  lemma {:induction false} MatchesOfAt(rules: seq<CompiledRule>, hits: seq<nat>, i: nat)
    requires InRange(rules, hits) && i < |hits|
    ensures |MatchesOf(rules, hits)| == |hits| && MatchesOf(rules, hits)[i] == ToMatch(rules[hits[i]])
    decreases |hits|
  {
    var k := |hits| - 1;
    if k > 0 {
      MatchesOfAt(rules, hits[..k], if i < k then i else 0);
    }
  }

  lemma {:induction false} MatchesOfConcat(rules: seq<CompiledRule>, a: seq<nat>, b: seq<nat>)
    requires InRange(rules, a) && InRange(rules, b) && InRange(rules, a + b)
    ensures MatchesOf(rules, a + b) == MatchesOf(rules, a) + MatchesOf(rules, b)
    decreases |b|
  {
    if b == [] {
      assert a + b == a;
    } else {
      var k := |b| - 1;
      assert (a + b)[..|a| + k] == a + b[..k] && (a + b)[|a| + k] == b[k];
      MatchesOfConcat(rules, a, b[..k]);
    }
  }

  /** Rules behind those that hits speak of do not matter. */
  lemma {:induction false} MatchesOfPrefix(rules: seq<CompiledRule>, n: nat, hits: seq<nat>)
    requires n <= |rules| && InRange(rules[..n], hits)
    ensures InRange(rules, hits) && MatchesOf(rules[..n], hits) == MatchesOf(rules, hits)
    decreases |hits|
  {
    if hits != [] {
      MatchesOfPrefix(rules, n, hits[..|hits| - 1]);
    }
  }

  function TotalWeight(matches: seq<Match>): int {
    if matches == [] then 0 else TotalWeight(matches[..|matches| - 1]) + matches[|matches| - 1].weight
  }

  /** The least of 100 and the sum of the weights. */
  function Capped(score: int): (r: int)
    ensures r <= 100 && r <= score && (r == 100 || r == score)
  {
    if score > 100 then 100 else score
  }

  lemma {:induction false} RegexHitsMembers(rules: seq<CompiledRule>, text: Text, i: nat)
    ensures i in RegexHits(rules, text) <==> i < |rules| && rules[i].re.Some? && rules[i].re.value(text)
    ensures NoDuplicates(RegexHits(rules, text))
  {
    if rules != [] {
      var k := |rules| - 1;
      RegexHitsMembers(rules[..k], text, i);
      RegexHitsMembers(rules[..k], text, k);
      if i in RegexHits(rules[..k], text) {
        assert rules[..k][i] == rules[i];
      }
      assert forall h <- RegexHits(rules[..k], text) :: h < k by {
        forall h | h in RegexHits(rules[..k], text)
          ensures h < k
        {
          RegexHitsMembers(rules[..k], text, h);
        }
      }
    }
  }

  lemma {:induction false} KeywordHitsMembers(rules: RuleSet, lower: Lowering, text: Text, i: nat)
    ensures i in Reported(Keywords(rules, lower), text)
       <==> i < |rules| && rules[i].re.None? && Occurs(lower.apply(rules[i].definition.pattern), text)
    ensures NoDuplicates(Reported(Keywords(rules, lower), text))
  {
    ReportedExactly(Keywords(rules, lower), text, i);
  }

  /** An audit lists exactly the rules that match the lowered text, each once. */
  lemma {:induction false} HitsExactly(rules: RuleSet, lower: Lowering, text: Text, i: nat)
    ensures i in Hits(rules, lower, text) <==> i < |rules| && Fires(rules[i], lower, text)
    ensures InRange(rules, Hits(rules, lower, text)) && NoDuplicates(Hits(rules, lower, text))
  {
    KeywordHitsMembers(rules, lower, text, i);
    RegexHitsMembers(rules, text, i);
    var keyword, regex := Reported(Keywords(rules, lower), text), RegexHits(rules, text);
    forall h | h in keyword
      ensures h < |rules| && h !in regex
    {
      KeywordHitsMembers(rules, lower, text, h);
      RegexHitsMembers(rules, text, h);
    }
    forall h | h in regex
      ensures h < |rules|
    {
      RegexHitsMembers(rules, text, h);
    }
    DisjointConcat(keyword, regex, |rules|);
  }

  lemma {:induction false} DisjointConcat(a: seq<nat>, b: seq<nat>, n: nat)
    requires NoDuplicates(a) && NoDuplicates(b)
    requires forall x <- a :: x < n && x !in b
    requires forall x <- b :: x < n
    ensures NoDuplicates(a + b) && forall i :: 0 <= i < |a + b| ==> (a + b)[i] < n
  {
    assert forall i :: 0 <= i < |a| ==> a[i] in a;
    assert forall i :: 0 <= i < |b| ==> b[i] in b;
  }

  /** The matches of an audit of the lowered text. */
  function Findings(rules: RuleSet, lower: Lowering, text: Text): seq<Match>
  {
    HitsExactly(rules, lower, text, 0);
    MatchesOf(rules, Hits(rules, lower, text))
  }

  // ---------------------------------------------------------------------------------
  // What an audit says about the definitions it was given
  // ---------------------------------------------------------------------------------

  /** Definition `d` has a pattern, and the lowered text matches it. */
  ghost predicate Hit(d: Definition, lower: Lowering, compile: Text -> Option<Regexp>, text: Text) {
    && d.pattern != []
    && if d.regex then compile(d.pattern).Some? && compile(d.pattern).value(text)
       else Occurs(lower.apply(d.pattern), text)
  }

  /** The match reports the definition, with defaults where it leaves something open. */
  predicate Reports(m: Match, d: Definition) {
    && m.ruleID == d.id && m.name == d.name && m.evidence == d.pattern
    && (if d.weight > 0 then m.weight == d.weight else m.weight == 10)
    && (if d.severity != "" then m.severity == d.severity else m.severity == "medium")
    && (if d.action != "" then m.action == d.action else m.action == "monitor")
  }

  /** The places of the definitions that are kept. */
  function KeptAt(definitions: seq<Definition>): (at: seq<nat>)
    ensures |at| == |Kept(definitions)|
  {
    if definitions == [] then []
    else
      var k := |definitions| - 1;
      KeptAt(definitions[..k]) + if definitions[k].pattern == [] then [] else [k]
  }

  lemma {:induction false} KeptDefinition(definitions: seq<Definition>, i: nat)
    requires i < |Kept(definitions)|
    ensures var k := KeptAt(definitions)[i];
      k < |definitions| && definitions[k].pattern != [] && Kept(definitions)[i] == WithDefaults(definitions[k])
  {
    var last := |definitions| - 1;
    if i < |Kept(definitions[..last])| {
      KeptDefinition(definitions[..last], i);
    }
  }

  lemma {:induction false} KeptInOrder(definitions: seq<Definition>, i: nat, j: nat)
    requires i < j < |Kept(definitions)|
    ensures KeptAt(definitions)[i] < KeptAt(definitions)[j]
  {
    var last := |definitions| - 1;
    if j < |Kept(definitions[..last])| {
      KeptInOrder(definitions[..last], i, j);
    } else {
      KeptDefinition(definitions[..last], i);
    }
  }

  lemma {:induction false} KeptPlace(definitions: seq<Definition>, k: nat) returns (i: nat)
    requires k < |definitions| && definitions[k].pattern != []
    ensures i < |Kept(definitions)| && KeptAt(definitions)[i] == k
  {
    var last := |definitions| - 1;
    if k < last {
      i := KeptPlace(definitions[..last], k);
    } else {
      i := |Kept(definitions[..last])|;
    }
  }

  /** From the rules that fire to the definitions behind them. */
  function Behind(definitions: seq<Definition>, hits: seq<nat>): (places: seq<nat>)
    requires forall i :: 0 <= i < |hits| ==> hits[i] < |Kept(definitions)|
    ensures |places| == |hits| && forall i :: 0 <= i < |hits| ==> places[i] == KeptAt(definitions)[hits[i]]
  {
    seq(|hits|, i requires 0 <= i < |hits| => KeptAt(definitions)[hits[i]])
  }

  lemma {:induction false} BehindDistinct(definitions: seq<Definition>, hits: seq<nat>)
    requires NoDuplicates(hits) && forall i :: 0 <= i < |hits| ==> hits[i] < |Kept(definitions)|
    ensures NoDuplicates(Behind(definitions, hits))
  {
    var places := Behind(definitions, hits);
    forall i, j | 0 <= i < j < |places|
      ensures places[i] != places[j]
    {
      KeptInOrder(definitions, if hits[i] < hits[j] then hits[i] else hits[j],
                  if hits[i] < hits[j] then hits[j] else hits[i]);
    }
  }

  lemma {:induction false} FiresExactly(rules: RuleSet, definitions: seq<Definition>, lower: Lowering,
                                        compile: Text -> Option<Regexp>, text: Text, i: nat)
    requires CompiledFrom(rules, Kept(definitions), compile) && i < |rules|
    ensures var k := KeptAt(definitions)[i];
      && k < |definitions| && (Fires(rules[i], lower, text) <==> Hit(definitions[k], lower, compile, text))
      && Reports(ToMatch(rules[i]), definitions[k])
  {
    var k := KeptAt(definitions)[i];
    KeptDefinition(definitions, i);
    assert rules[i].definition == WithDefaults(definitions[k]);
  }

  /** An audit reports exactly the definitions that the text matches, each once. */
  lemma {:induction false} AuditReportsExactly(rules: RuleSet, definitions: seq<Definition>, lower: Lowering,
                                               compile: Text -> Option<Regexp>, text: Text) returns (places: seq<nat>)
    requires CompiledFrom(rules, Kept(definitions), compile)
    ensures var found := Findings(rules, lower, text);
      && |places| == |found| && NoDuplicates(places)
      && (forall i :: 0 <= i < |found| ==> places[i] < |definitions| && Reports(found[i], definitions[places[i]]))
      && (forall k: nat :: k in places <==> k < |definitions| && Hit(definitions[k], lower, compile, text))
  {
    var hits := Hits(rules, lower, text);
    HitsExactly(rules, lower, text, 0);
    places := Behind(definitions, hits);
    BehindDistinct(definitions, hits);
    MatchesSize(rules, hits);
    forall i | 0 <= i < |hits|
      ensures places[i] < |definitions| && Reports(Findings(rules, lower, text)[i], definitions[places[i]])
    {
      MatchesOfAt(rules, hits, i);
      FiresExactly(rules, definitions, lower, compile, text, hits[i]);
    }
    forall k: nat
      ensures k in places <==> k < |definitions| && Hit(definitions[k], lower, compile, text)
    {
      HitBehind(rules, definitions, lower, compile, text, k);
    }
  }

  lemma {:induction false} MatchesSize(rules: seq<CompiledRule>, hits: seq<nat>)
    requires InRange(rules, hits)
    ensures |MatchesOf(rules, hits)| == |hits|
  {
    if hits != [] {
      MatchesOfAt(rules, hits, 0);
    }
  }

  lemma {:induction false} HitBehind(rules: RuleSet, definitions: seq<Definition>, lower: Lowering,
                                     compile: Text -> Option<Regexp>, text: Text, k: nat)
    requires CompiledFrom(rules, Kept(definitions), compile) && InRange(rules, Hits(rules, lower, text))
    ensures k in Behind(definitions, Hits(rules, lower, text)) <==>
            k < |definitions| && Hit(definitions[k], lower, compile, text)
  {
    var hits := Hits(rules, lower, text);
    var places := Behind(definitions, hits);
    if k in places {
      var i :| 0 <= i < |places| && places[i] == k;
      HitsExactly(rules, lower, text, hits[i]);
      FiresExactly(rules, definitions, lower, compile, text, hits[i]);
    }
    if k < |definitions| && Hit(definitions[k], lower, compile, text) {
      var i := KeptPlace(definitions, k);
      FiresExactly(rules, definitions, lower, compile, text, i);
      HitsExactly(rules, lower, text, i);
      var j :| 0 <= j < |hits| && hits[j] == i;
      assert places[j] == k;
    }
  }

  /** The engine: readers take the current snapshot, writers replace it as a whole. */
  class Engine {
    const lower: Lowering
    const compile: Text -> Option<Regexp>
    var current: Snapshot?

    ghost predicate Valid()
      reads this
    {
      current != null ==> current.Built()
    }

    constructor (lower: Lowering, compile: Text -> Option<Regexp>)
      ensures Valid() && this.lower == lower && this.compile == compile && current == null
    {
      this.lower, this.compile, current := lower, compile, null;
    }

    /** Publish a new rule set; a rule set with a broken regex leaves the old one in place. */
    method Replace(definitions: seq<Definition>) returns (ok: bool)
      requires Valid()
      modifies this
      ensures Valid()
      ensures ok <==> forall i :: 0 <= i < |definitions| ==> !Rejected(definitions[i], compile)
      ensures ok ==> current != null && fresh(current) && current.lower == lower
      ensures ok ==> CompiledFrom(current.rules, Kept(definitions), compile)
      ensures !ok ==> current == old(current)
    {
      var rules;
      ok, rules := CompileRules(definitions, compile);
      if ok {
        current := new Snapshot(rules, lower);
      }
    }

    method Audit(text: Text, scratch: MatchScratch) returns (result: AuditResult)
      requires Valid() && scratch.Valid()
      modifies scratch
      ensures scratch.Valid()
      ensures result == if current == null then AuditResult([], 0) else current.Expected(text)
    {
      if current == null {
        return AuditResult([], 0);
      }
      result := current.Audit(text, scratch);
    }
  }

  lemma {:induction false} TotalWeightSnoc(matches: seq<Match>, m: Match)
    ensures TotalWeight(matches + [m]) == TotalWeight(matches) + m.weight
  {
    assert (matches + [m])[..|matches|] == matches;
  }

  /** The first loop of `Audit`: the keyword matches in scan order. */
  method CollectKeywords(rules: seq<CompiledRule>, indexes: seq<nat>)
    returns (matches: seq<Match>, score: int)
    requires InRange(rules, indexes)
    ensures matches == MatchesOf(rules, indexes) && score == TotalWeight(matches)
  {
    matches, score := [], 0;
    for i := 0 to |indexes|
      invariant matches == MatchesOf(rules, indexes[..i]) && score == TotalWeight(matches)
    {
      TakeOneMore(indexes, i);
      TotalWeightSnoc(matches, ToMatch(rules[indexes[i]]));
      matches, score := matches + [ToMatch(rules[indexes[i]])], score + rules[indexes[i]].definition.weight;
    }
    TakeAll(indexes);
  }

  /** The second loop of `Audit`: the regex matches, by rule. */
  method CollectRegexes(rules: seq<CompiledRule>, text: Text, found: seq<Match>, weight: int)
    returns (matches: seq<Match>, score: int)
    requires weight == TotalWeight(found)
    ensures matches == found + RegexMatches(rules, text) && score == TotalWeight(matches)
  {
    matches, score := found, weight;
    for i := 0 to |rules|
      invariant matches == found + RegexMatches(rules[..i], text) && score == TotalWeight(matches)
    {
      TakeOneMore(rules, i);
      if rules[i].re.Some? && rules[i].re.value(text) {
        TotalWeightSnoc(matches, ToMatch(rules[i]));
        matches, score := matches + [ToMatch(rules[i])], score + rules[i].definition.weight;
      }
    }
    TakeAll(rules);
  }

  /** The matches of the regex rules that fire, by rule. */
  function RegexMatches(rules: seq<CompiledRule>, text: Text): seq<Match> {
    if rules == [] then []
    else
      var k := |rules| - 1;
      RegexMatches(rules[..k], text) + if rules[k].re.Some? && rules[k].re.value(text) then [ToMatch(rules[k])] else []
  }

  lemma {:induction false} RegexMatchesOfHits(rules: seq<CompiledRule>, text: Text)
    ensures RegexMatches(rules, text) == MatchesOf(rules, RegexHits(rules, text))
  {
    if rules != [] {
      var k := |rules| - 1;
      var earlier := RegexHits(rules[..k], text);
      RegexMatchesOfHits(rules[..k], text);
      MatchesOfPrefix(rules, k, earlier);
      assert (earlier + [k])[..|earlier|] == earlier && earlier + [] == earlier;
    }
  }

  /** The findings are the keyword matches in scan order, then the regex matches. */
  lemma {:induction false} FindingsInOrder(rules: RuleSet, lower: Lowering, text: Text)
    ensures InRange(rules, Reported(Keywords(rules, lower), text))
    ensures Findings(rules, lower, text)
         == MatchesOf(rules, Reported(Keywords(rules, lower), text)) + RegexMatches(rules, text)
  {
    HitsExactly(rules, lower, text, 0);
    var keyword, regex := Reported(Keywords(rules, lower), text), RegexHits(rules, text);
    assert forall i :: 0 <= i < |keyword| ==> (keyword + regex)[i] == keyword[i];
    MatchesOfConcat(rules, keyword, regex);
    RegexMatchesOfHits(rules, text);
  }
}
