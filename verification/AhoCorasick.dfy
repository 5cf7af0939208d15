/** The keyword automaton of internal/rule/engine.go: a trie grown in place, fail links
    and inherited terms set breadth first, and the scan over a text.

    Node `n` stands for the string `paths[n]`.  The paths and parents are ghost: the
    source stores only `next`, `fail` and `terms`. */
module AhoCorasick {
  import opened ByteStrings

  datatype AhoNode = AhoNode(next: map<byte, nat>, fail: nat, terms: seq<nat>)

  /** Rule `i` takes part in the automaton when `needles[i]` is its lowered keyword. */
  type Needles = seq<Option<Text>>

  // ---------------------------------------------------------------------------------
  // Reference: what a search without any automaton reports
  // ---------------------------------------------------------------------------------

  /** The rules whose keyword is exactly `w`, by increasing index. */
  function Own(needles: Needles, w: Text): seq<nat> {
    if needles == [] then []
    else
      var k := |needles| - 1;
      Own(needles[..k], w) + if needles[k] == Some(w) then [k] else []
  }

  /** The rules whose keyword ends `w`: longest keyword first, then by index. */
  function Ending(needles: Needles, w: Text): seq<nat> {
    if w == [] then [] else Own(needles, w) + Ending(needles, w[1..])
  }

  /** `acc` followed by the members of `terms` that it does not hold yet. */
  function AppendNew(acc: seq<nat>, terms: seq<nat>): seq<nat>
    decreases |terms|
  {
    if terms == [] then acc
    else AppendNew(if terms[0] in acc then acc else acc + [terms[0]], terms[1..])
  }

  /** The rules found in `text`, in the order in which their first occurrences end. */
  function Reported(needles: Needles, text: Text): seq<nat> {
    if text == [] then []
    else AppendNew(Reported(needles, text[..|text| - 1]), Ending(needles, text))
  }

  lemma {:induction false} OwnMembers(needles: Needles, w: Text, i: nat)
    ensures i in Own(needles, w) <==> i < |needles| && needles[i] == Some(w)
  {
    if needles != [] {
      OwnMembers(needles[..|needles| - 1], w, i);
    }
  }

  lemma {:induction false} OwnAbsent(needles: Needles, w: Text)
    requires forall i :: 0 <= i < |needles| ==> needles[i] != Some(w)
    ensures Own(needles, w) == []
  {
    if needles != [] {
      OwnAbsent(needles[..|needles| - 1], w);
    }
  }

  lemma {:induction false} SuffixOfTail(s: Text, w: Text)
    requires w != []
    ensures IsSuffix(s, w) <==> s == w || IsSuffix(s, w[1..])
  {
    if |s| < |w| {
      assert w[|w| - |s|..] == w[1..][|w[1..]| - |s|..];
    }
  }

  /** A keyword is listed as ending `w` exactly when it is a non-empty suffix of `w`. */
  lemma {:induction false} EndingMembers(needles: Needles, w: Text, i: nat)
    ensures i in Ending(needles, w)
       <==> i < |needles| && needles[i].Some? && needles[i].value != [] && IsSuffix(needles[i].value, w)
  {
    if w != [] {
      OwnMembers(needles, w, i);
      EndingMembers(needles, w[1..], i);
      if i < |needles| && needles[i].Some? {
        SuffixOfTail(needles[i].value, w);
      }
    }
  }

  lemma {:induction false} AppendNewMembers(acc: seq<nat>, terms: seq<nat>, i: nat)
    ensures i in AppendNew(acc, terms) <==> i in acc || i in terms
    ensures NoDuplicates(acc) ==> NoDuplicates(AppendNew(acc, terms))
    decreases |terms|
  {
    if terms != [] {
      AppendNewMembers(if terms[0] in acc then acc else acc + [terms[0]], terms[1..], i);
    }
  }

  lemma {:induction false} AppendNewSnoc(acc: seq<nat>, terms: seq<nat>, x: nat)
    ensures AppendNew(acc, terms + [x])
         == var a := AppendNew(acc, terms); if x in a then a else a + [x]
    decreases |terms|
  {
    if terms == [] {
      assert terms + [x] == [x];
    } else {
      assert (terms + [x])[1..] == terms[1..] + [x];
      AppendNewSnoc(if terms[0] in acc then acc else acc + [terms[0]], terms[1..], x);
    }
  }

  /** The reference reports exactly the rules whose keyword occurs in the text, each once. */
  lemma {:induction false} ReportedExactly(needles: Needles, text: Text, i: nat)
    ensures i in Reported(needles, text)
       <==> i < |needles| && needles[i].Some? && needles[i].value != [] && Occurs(needles[i].value, text)
    ensures NoDuplicates(Reported(needles, text))
  {
    if text == [] {
      if i < |needles| && needles[i].Some? && Occurs(needles[i].value, text) {
        var k: nat :| OccursAt(needles[i].value, text, k);
      }
    } else {
      var shorter := text[..|text| - 1];
      ReportedExactly(needles, shorter, i);
      EndingMembers(needles, text, i);
      AppendNewMembers(Reported(needles, shorter), Ending(needles, text), i);
      if i < |needles| && needles[i].Some? {
        OccursLastByte(needles[i].value, text);
      }
    }
  }

  /** An occurrence either ends the text or lies before its last byte. */
  lemma {:induction false} OccursLastByte(p: Text, text: Text)
    requires text != []
    ensures p != [] ==> (Occurs(p, text) <==> Occurs(p, text[..|text| - 1]) || IsSuffix(p, text))
  {
    var shorter := text[..|text| - 1];
    if p != [] && Occurs(p, text) {
      var k: nat :| OccursAt(p, text, k);
      if k + |p| < |text| {
        assert shorter[k..k + |p|] == text[k..k + |p|];
        assert OccursAt(p, shorter, k);
      }
    }
    if Occurs(p, shorter) {
      OccursInContext(p, [], shorter, text[|text| - 1..]);
      assert [] + shorter + text[|text| - 1..] == text;
    }
    if IsSuffix(p, text) {
      assert OccursAt(p, text, |text| - |p|);
    }
  }

  // ---------------------------------------------------------------------------------
  // The trie
  // ---------------------------------------------------------------------------------

  ghost predicate ChildOfParent(nodes: seq<AhoNode>, paths: seq<Text>, parents: seq<nat>, n: nat)
    requires |nodes| == |paths| == |parents|
    requires 0 < n < |nodes|
  {
    && parents[n] < n
    && paths[n] != []
    && var c := paths[n][|paths[n]| - 1];
       && paths[n] == paths[parents[n]] + [c]
       && c in nodes[parents[n]].next
       && nodes[parents[n]].next[c] == n
  }

  ghost predicate EdgeOk(nodes: seq<AhoNode>, paths: seq<Text>, parents: seq<nat>, n: nat, c: byte)
    requires |nodes| == |paths| == |parents|
    requires n < |nodes| && c in nodes[n].next
  {
    var m := nodes[n].next[c];
    0 < m < |nodes| && parents[m] == n && paths[m] == paths[n] + [c]
  }

  /** `nodes` is a trie and `paths` are the strings of its nodes. */
  ghost predicate Trie(nodes: seq<AhoNode>, paths: seq<Text>, parents: seq<nat>) {
    && |nodes| == |paths| == |parents|
    && 0 < |nodes|
    && paths[0] == []
    && (forall n :: 0 < n < |nodes| ==> ChildOfParent(nodes, paths, parents, n))
    && (forall n, c :: 0 <= n < |nodes| && c in nodes[n].next ==> EdgeOk(nodes, paths, parents, n, c))
  }

  /** Each string has at most one node. */
  lemma {:induction false} PathsDistinct(nodes: seq<AhoNode>, paths: seq<Text>, parents: seq<nat>, a: nat, b: nat)
    requires Trie(nodes, paths, parents)
    requires a < |nodes| && b < |nodes| && paths[a] == paths[b]
    ensures a == b
    decreases |paths[a]|
  {
    assert 0 < b ==> ChildOfParent(nodes, paths, parents, b);
    if a != 0 {
      assert ChildOfParent(nodes, paths, parents, a);
      var p := paths[a][..|paths[a]| - 1];
      assert paths[parents[a]] == p && paths[parents[b]] == p;
      PathsDistinct(nodes, paths, parents, parents[a], parents[b]);
    }
  }

  /** `n` is the node of the longest suffix of `w` that the trie holds. */
  ghost predicate LongestSuffix(paths: seq<Text>, w: Text, n: nat) {
    && n < |paths|
    && IsSuffix(paths[n], w)
    && forall m :: 0 <= m < |paths| && IsSuffix(paths[m], w) ==> |paths[m]| <= |paths[n]|
  }

  lemma {:induction false} RootMatchesEmpty(paths: seq<Text>)
    requires 0 < |paths| && paths[0] == []
    ensures LongestSuffix(paths, [], 0)
  {
  }

  /** The fail link of `n` leads to the longest proper suffix of its string in the trie. */
  ghost predicate FailOk(nodes: seq<AhoNode>, paths: seq<Text>, n: nat)
    requires |nodes| == |paths| && n < |nodes|
  {
    paths[n] != [] ==> LongestSuffix(paths, paths[n][1..], nodes[n].fail)
  }

  /** The node is finished: its fail link is right, and it lists every rule that ends there. */
  ghost predicate Linked(nodes: seq<AhoNode>, paths: seq<Text>, needles: Needles, n: nat)
    requires |nodes| == |paths| && n < |nodes|
  {
    FailOk(nodes, paths, n) && nodes[n].terms == Ending(needles, paths[n])
  }

  /** Everything `buildAho` establishes. */
  ghost predicate Automaton(nodes: seq<AhoNode>, paths: seq<Text>, parents: seq<nat>, needles: Needles) {
    && Trie(nodes, paths, parents)
    && (forall n :: 0 <= n < |nodes| ==> Linked(nodes, paths, needles, n))
    && HoldsNeedles(paths, needles)
  }

  /** Every keyword has a node. */
  ghost predicate HoldsNeedles(paths: seq<Text>, needles: Needles) {
    forall i :: 0 <= i < |needles| ==> Held(paths, needles, i)
  }

  ghost predicate Held(paths: seq<Text>, needles: Needles, i: nat)
    requires i < |needles|
  {
    needles[i].Some? ==> needles[i].value in paths
  }

  /** A string without a node is no keyword. */
  lemma {:induction false} NotANeedle(paths: seq<Text>, needles: Needles, w: Text)
    requires HoldsNeedles(paths, needles) && w !in paths
    ensures Own(needles, w) == []
  {
    forall i | 0 <= i < |needles|
      ensures needles[i] != Some(w)
    {
      assert Held(paths, needles, i);
    }
    OwnAbsent(needles, w);
  }

  lemma {:induction false} HoldsMore(paths: seq<Text>, more: seq<Text>, needles: Needles)
    requires HoldsNeedles(paths, needles) && paths <= more
    ensures HoldsNeedles(more, needles)
  {
    forall i | 0 <= i < |needles|
      ensures Held(more, needles, i)
    {
      assert Held(paths, needles, i);
    }
  }

  lemma {:induction false} HoldsSnoc(paths: seq<Text>, needles: Needles, needle: Option<Text>)
    requires HoldsNeedles(paths, needles) && (needle.Some? ==> needle.value in paths)
    ensures HoldsNeedles(paths, needles + [needle])
  {
    forall i | 0 <= i < |needles + [needle]|
      ensures Held(paths, needles + [needle], i)
    {
      assert i < |needles| ==> Held(paths, needles, i);
    }
  }

  /** Suffixes that are no keyword add nothing, so the terms of a string are those of the
      longest suffix the trie holds. */
  lemma {:induction false} EndingOfLongestSuffix(paths: seq<Text>, needles: Needles, w: Text, n: nat)
    requires HoldsNeedles(paths, needles)
    requires LongestSuffix(paths, w, n)
    ensures Ending(needles, w) == Ending(needles, paths[n])
    decreases |w|
  {
    if |paths[n]| < |w| {
      assert forall m :: 0 <= m < |paths| && paths[m] == w ==> IsSuffix(paths[m], w);
      NotANeedle(paths, needles, w);
      forall m | 0 <= m < |paths| && IsSuffix(paths[m], w[1..])
        ensures IsSuffix(paths[m], w)
      {
        SuffixTransitive(paths[m], w[1..], w);
      }
      SuffixesNest(paths[n], w[1..], w);
      EndingOfLongestSuffix(paths, needles, w[1..], n);
    } else {
      assert paths[n] == w;
    }
  }

  /** The walk shared by the builder and the scanner: follow fail links until a node has a
      transition for `ch`.  If `start` is the longest suffix of `w`, the target is the
      longest suffix of `w + [ch]`; the walk ends because every fail link is shorter. */
  method Follow(nodes: seq<AhoNode>, start: nat, ch: byte,
                ghost paths: seq<Text>, ghost parents: seq<nat>, ghost w: Text)
    returns (target: nat)
    requires Trie(nodes, paths, parents)
    requires LongestSuffix(paths, w, start)
    requires forall n :: 0 <= n < |nodes| && |paths[n]| <= |paths[start]| ==> FailOk(nodes, paths, n)
    ensures LongestSuffix(paths, w + [ch], target)
  {
    target := start;
    while target != 0
      invariant target < |nodes| && IsSuffix(paths[target], w)
      invariant |paths[target]| <= |paths[start]|
      invariant ReachBound(nodes, paths, w, ch, |paths[target]|)
      decreases |paths[target]|
    {
      if ch in nodes[target].next {
        ExtendMatch(nodes, paths, parents, w, ch, target);
        return nodes[target].next[ch];
      }
      assert FailOk(nodes, paths, target);
      ShrinkBound(nodes, paths, parents, w, ch, target);
      target := nodes[target].fail;
    }
    if ch in nodes[0].next {
      ExtendMatch(nodes, paths, parents, w, ch, 0);
      target := nodes[0].next[ch];
    } else {
      NoExtension(nodes, paths, parents, w, ch);
    }
  }

  /** No suffix of `w` longer than `bound` can be extended by `ch`. */
  ghost predicate ReachBound(nodes: seq<AhoNode>, paths: seq<Text>, w: Text, ch: byte, bound: nat)
    requires |nodes| == |paths|
  {
    forall m :: 0 <= m < |nodes| && IsSuffix(paths[m], w) && ch in nodes[m].next ==> |paths[m]| <= bound
  }

  lemma {:induction false} SuffixSnoc(s: Text, w: Text, ch: byte)
    ensures IsSuffix(s, w) <==> IsSuffix(s + [ch], w + [ch])
  {
    if |s| <= |w| {
      var v := w + [ch];
      assert v[|v| - |s| - 1..] == w[|w| - |s|..] + [ch];
      if IsSuffix(s + [ch], v) {
        assert w[|w| - |s|..] == v[|v| - |s| - 1..][..|s|] == s;
      }
    }
  }

  lemma {:induction false} ExtendMatch(nodes: seq<AhoNode>, paths: seq<Text>, parents: seq<nat>, w: Text, ch: byte,
                                       n: nat)
    requires Trie(nodes, paths, parents)
    requires n < |nodes| && IsSuffix(paths[n], w) && ch in nodes[n].next
    requires ReachBound(nodes, paths, w, ch, |paths[n]|)
    ensures LongestSuffix(paths, w + [ch], nodes[n].next[ch])
  {
    assert EdgeOk(nodes, paths, parents, n, ch);
    SuffixSnoc(paths[n], w, ch);
    forall m | 0 < m < |paths| && IsSuffix(paths[m], w + [ch])
      ensures |paths[m]| <= |paths[n]| + 1
    {
      ParentIsSuffix(nodes, paths, parents, w, ch, m);
    }
  }

  lemma {:induction false} ParentIsSuffix(nodes: seq<AhoNode>, paths: seq<Text>, parents: seq<nat>, w: Text, ch: byte,
                                          m: nat)
    requires Trie(nodes, paths, parents)
    requires 0 < m < |paths| && IsSuffix(paths[m], w + [ch])
    ensures parents[m] < m
    ensures IsSuffix(paths[parents[m]], w) && ch in nodes[parents[m]].next
    ensures |paths[m]| == |paths[parents[m]]| + 1
  {
    assert ChildOfParent(nodes, paths, parents, m);
    var v := w + [ch];
    assert paths[m][|paths[m]| - 1] == v[|v| - |paths[m]|..][|paths[m]| - 1] == ch;
    SuffixSnoc(paths[parents[m]], w, ch);
  }

  lemma {:induction false} ShrinkBound(nodes: seq<AhoNode>, paths: seq<Text>, parents: seq<nat>, w: Text, ch: byte,
                                       n: nat)
    requires Trie(nodes, paths, parents)
    requires 0 < n < |nodes| && FailOk(nodes, paths, n)
    requires IsSuffix(paths[n], w) && ch !in nodes[n].next
    requires ReachBound(nodes, paths, w, ch, |paths[n]|)
    ensures paths[n] != [] && nodes[n].fail < |nodes|
    ensures IsSuffix(paths[nodes[n].fail], w)
    ensures |paths[nodes[n].fail]| < |paths[n]|
    ensures ReachBound(nodes, paths, w, ch, |paths[nodes[n].fail]|)
  {
    assert ChildOfParent(nodes, paths, parents, n);
    var f := nodes[n].fail;
    var rest := paths[n][1..];
    assert IsSuffix(rest, paths[n]);
    SuffixTransitive(rest, paths[n], w);
    SuffixTransitive(paths[f], rest, w);
    forall m | 0 <= m < |nodes| && IsSuffix(paths[m], w) && ch in nodes[m].next
      ensures |paths[m]| <= |paths[f]|
    {
      if paths[m] == paths[n] {
        PathsDistinct(nodes, paths, parents, m, n);
      }
      ShorterSuffix(paths[m], paths[n], w);
    }
  }

  lemma {:induction false} ShorterSuffix(s: Text, t: Text, w: Text)
    requires IsSuffix(s, w) && IsSuffix(t, w) && |s| <= |t| && s != t
    ensures IsSuffix(s, t[1..])
  {
    SuffixesNest(s, t, w);
    assert t[|t| - |s|..] == t[1..][|t[1..]| - |s|..];
  }

  lemma {:induction false} NoExtension(nodes: seq<AhoNode>, paths: seq<Text>, parents: seq<nat>, w: Text, ch: byte)
    requires Trie(nodes, paths, parents)
    requires ch !in nodes[0].next
    requires ReachBound(nodes, paths, w, ch, 0)
    ensures LongestSuffix(paths, w + [ch], 0)
  {
    forall m | 0 < m < |paths|
      ensures !IsSuffix(paths[m], w + [ch])
    {
      if IsSuffix(paths[m], w + [ch]) {
        ParentIsSuffix(nodes, paths, parents, w, ch, m);
        PathsDistinct(nodes, paths, parents, parents[m], 0);
      }
    }
  }

  /** A finished automaton together with the strings its nodes stand for. */
  datatype Machine = Machine(nodes: seq<AhoNode>, ghost paths: seq<Text>, ghost parents: seq<nat>,
                             ghost needles: Needles)

  type BuiltMachine = m: Machine | Automaton(m.nodes, m.paths, m.parents, m.needles)
    witness Machine([AhoNode(map[], 0, [])], [[]], [0], [])

  /** One byte of the scan: from the longest suffix of `w` to that of `w + [ch]`, whose
      terms are all the rules that end there. */
  method Advance(m: BuiltMachine, state: nat, ch: byte, ghost w: Text) returns (target: nat)
    requires LongestSuffix(m.paths, w, state)
    ensures LongestSuffix(m.paths, w + [ch], target)
    ensures target < |m.nodes| && m.nodes[target].terms == Ending(m.needles, w + [ch])
  {
    assert forall n :: 0 <= n < |m.nodes| ==> Linked(m.nodes, m.paths, m.needles, n) && FailOk(m.nodes, m.paths, n);
    target := Follow(m.nodes, state, ch, m.paths, m.parents, w);
    assert Linked(m.nodes, m.paths, m.needles, target);
    EndingOfLongestSuffix(m.paths, m.needles, w + [ch], target);
  }
}
