/** `buildAho` of internal/rule/engine.go: the trie is grown keyword by keyword, then a
    breadth-first pass sets the fail links and inherits the terms.  Go visits map entries
    in an arbitrary order; here every such choice is nondeterministic. */
module AhoBuilder {
  import opened ByteStrings
  import opened AhoCorasick

  // ---------------------------------------------------------------------------------
  // Growing the trie
  // ---------------------------------------------------------------------------------

  /** The trie before the breadth-first pass: a node only knows the rules it spells. */
  ghost predicate Planted(nodes: seq<AhoNode>, paths: seq<Text>, parents: seq<nat>, needles: Needles) {
    && Trie(nodes, paths, parents)
    && (forall n :: 0 <= n < |nodes| ==> nodes[n].fail == 0 && nodes[n].terms == Own(needles, paths[n]))
    && HoldsNeedles(paths, needles)
  }

  /** The trie after `state` got a new child for `c`. */
  function Grown(nodes: seq<AhoNode>, state: nat, c: byte): seq<AhoNode>
    requires state < |nodes|
  {
    nodes[state := nodes[state].(next := nodes[state].next[c := |nodes|])] + [AhoNode(map[], 0, [])]
  }

  /** A string with no node: its parent has no edge for its last byte. */
  lemma {:induction false} NewPathIsFresh(nodes: seq<AhoNode>, paths: seq<Text>, parents: seq<nat>, state: nat, c: byte)
    requires Trie(nodes, paths, parents)
    requires state < |nodes| && c !in nodes[state].next
    ensures paths[state] + [c] !in paths
  {
    forall m | 0 <= m < |paths|
      ensures paths[m] != paths[state] + [c]
    {
      if paths[m] == paths[state] + [c] {
        assert ChildOfParent(nodes, paths, parents, m);
        assert paths[parents[m]] == paths[m][..|paths[m]| - 1] == paths[state];
        PathsDistinct(nodes, paths, parents, parents[m], state);
      }
    }
  }

  lemma {:induction false} GrownIsTrie(nodes: seq<AhoNode>, paths: seq<Text>, parents: seq<nat>, state: nat, c: byte)
    requires Trie(nodes, paths, parents)
    requires state < |nodes| && c !in nodes[state].next
    ensures Trie(Grown(nodes, state, c), paths + [paths[state] + [c]], parents + [state])
  {
    var nodes', paths', parents' := Grown(nodes, state, c), paths + [paths[state] + [c]], parents + [state];
    forall n | 0 < n < |nodes'|
      ensures ChildOfParent(nodes', paths', parents', n)
    {
      if n < |nodes| {
        assert ChildOfParent(nodes, paths, parents, n);
      }
    }
    forall n, d | 0 <= n < |nodes'| && d in nodes'[n].next
      ensures EdgeOk(nodes', paths', parents', n, d)
    {
      if n < |nodes| && d in nodes[n].next {
        assert EdgeOk(nodes, paths, parents, n, d);
      }
    }
  }

  lemma {:induction false} GrownIsPlanted(nodes: seq<AhoNode>, paths: seq<Text>, parents: seq<nat>, needles: Needles,
                                          state: nat, c: byte)
    requires Planted(nodes, paths, parents, needles)
    requires state < |nodes| && c !in nodes[state].next
    ensures Planted(Grown(nodes, state, c), paths + [paths[state] + [c]], parents + [state], needles)
  {
    GrownIsTrie(nodes, paths, parents, state, c);
    NewPathIsFresh(nodes, paths, parents, state, c);
    NotANeedle(paths, needles, paths[state] + [c]);
    HoldsMore(paths, paths + [paths[state] + [c]], needles);
  }

  lemma {:induction false} OwnSnoc(needles: Needles, x: Option<Text>, w: Text)
    ensures Own(needles + [x], w) == Own(needles, w) + if x == Some(w) then [|needles|] else []
  {
    assert (needles + [x])[..|needles|] == needles;
  }

  /** Insert one keyword and record its rule at the node that spells it. */
  method InsertKeyword(aho: seq<AhoNode>, needle: Text, index: nat,
                       ghost paths0: seq<Text>, ghost parents0: seq<nat>, ghost needles: Needles)
    returns (nodes: seq<AhoNode>, ghost paths: seq<Text>, ghost parents: seq<nat>)
    requires Planted(aho, paths0, parents0, needles)
    requires index == |needles|
    ensures Planted(nodes, paths, parents, needles + [Some(needle)])
  {
    nodes, paths, parents := aho, paths0, parents0;
    var state: nat := 0;
    for i := 0 to |needle|
      invariant Planted(nodes, paths, parents, needles)
      invariant state < |nodes| && paths[state] == needle[..i]
    {
      var c := needle[i];
      if c !in nodes[state].next {
        GrownIsPlanted(nodes, paths, parents, needles, state, c);
        paths, parents := paths + [paths[state] + [c]], parents + [state];
        nodes := Grown(nodes, state, c);
      }
      assert EdgeOk(nodes, paths, parents, state, c);
      state := nodes[state].next[c];
    }
    assert needle[..|needle|] == needle;
    RecordTerm(nodes, paths, parents, needles, state);
    nodes := nodes[state := nodes[state].(terms := nodes[state].terms + [index])];
  }

  lemma {:induction false} SameEdges(a: seq<AhoNode>, b: seq<AhoNode>, paths: seq<Text>, parents: seq<nat>)
    requires Trie(a, paths, parents)
    requires |a| == |b| && forall n :: 0 <= n < |a| ==> a[n].next == b[n].next
    ensures Trie(b, paths, parents)
  {
    forall n | 0 < n < |b|
      ensures ChildOfParent(b, paths, parents, n)
    {
      assert ChildOfParent(a, paths, parents, n);
    }
    forall n, c | 0 <= n < |b| && c in b[n].next
      ensures EdgeOk(b, paths, parents, n, c)
    {
      assert EdgeOk(a, paths, parents, n, c);
    }
  }

  lemma {:induction false} RecordTerm(nodes: seq<AhoNode>, paths: seq<Text>, parents: seq<nat>, needles: Needles,
                                      state: nat)
    requires Planted(nodes, paths, parents, needles)
    requires state < |nodes|
    ensures Planted(nodes[state := nodes[state].(terms := nodes[state].terms + [|needles|])], paths, parents,
                    needles + [Some(paths[state])])
  {
    var nodes' := nodes[state := nodes[state].(terms := nodes[state].terms + [|needles|])];
    SameEdges(nodes, nodes', paths, parents);
    forall n | 0 <= n < |nodes'|
      ensures nodes'[n].terms == Own(needles + [Some(paths[state])], paths[n])
    {
      OwnSnoc(needles, Some(paths[state]), paths[n]);
      if paths[n] == paths[state] {
        PathsDistinct(nodes, paths, parents, n, state);
      }
    }
    HoldsSnoc(paths, needles, Some(paths[state]));
  }

  lemma {:induction false} SkipRule(nodes: seq<AhoNode>, paths: seq<Text>, parents: seq<nat>, needles: Needles)
    requires Planted(nodes, paths, parents, needles)
    ensures Planted(nodes, paths, parents, needles + [None])
  {
    forall n | 0 <= n < |nodes|
      ensures nodes[n].terms == Own(needles + [None], paths[n])
    {
      OwnSnoc(needles, None, paths[n]);
    }
    HoldsSnoc(paths, needles, None);
  }

  // ---------------------------------------------------------------------------------
  // The breadth-first pass
  // ---------------------------------------------------------------------------------

  /** How far the pass has come: the nodes of `expanded` are finished, those of `state`
      are being visited, the edges of `state` for the bytes of `todo` are still to come. */
  datatype Progress = Progress(expanded: set<nat>, state: nat, todo: set<byte>)

  /** `n` has been put on the queue (the root counts as visited). */
  ghost predicate Visited(paths: seq<Text>, parents: seq<nat>, at: Progress, n: nat)
    requires |paths| == |parents| && n < |paths|
    requires 0 < n ==> paths[n] != []
  {
    || n == 0
    || parents[n] in at.expanded
    || (parents[n] == at.state && paths[n][|paths[n]| - 1] !in at.todo)
  }

  ghost predicate NonEmptyPaths(paths: seq<Text>) {
    forall n :: 0 < n < |paths| ==> paths[n] != []
  }

  ghost predicate Expanding(nodes: seq<AhoNode>, parents: seq<nat>, at: Progress)
    requires |nodes| == |parents|
  {
    && at.state < |nodes| && at.state !in at.expanded
    && (forall n <- at.expanded :: n < |nodes| && (n == 0 || parents[n] in at.expanded))
    && (at.state == 0 || (0 in at.expanded && parents[at.state] in at.expanded))
    && at.todo <= nodes[at.state].next.Keys
  }

  ghost predicate LinkedSoFar(nodes: seq<AhoNode>, paths: seq<Text>, parents: seq<nat>, needles: Needles, at: Progress)
    requires |nodes| == |paths| == |parents| && NonEmptyPaths(paths)
  {
    forall n :: 0 <= n < |nodes| ==> Settled(nodes, paths, parents, needles, at, n)
  }

  /** A visited node is finished, any other only knows the rules it spells. */
  ghost predicate Settled(nodes: seq<AhoNode>, paths: seq<Text>, parents: seq<nat>, needles: Needles, at: Progress,
                          n: nat)
    requires |nodes| == |paths| == |parents| && NonEmptyPaths(paths) && n < |nodes|
  {
    if Visited(paths, parents, at, n) then Linked(nodes, paths, needles, n)
    else nodes[n].terms == Own(needles, paths[n])
  }

  ghost predicate QueueOk(paths: seq<Text>, parents: seq<nat>, queue: seq<nat>, at: Progress)
    requires |paths| == |parents| && NonEmptyPaths(paths)
    requires at.state < |paths|
  {
    && Levels(paths, queue, |paths[at.state]|)
    && (forall n :: n in queue <==>
          0 < n < |paths| && Visited(paths, parents, at, n) && n !in at.expanded && n != at.state)
  }

  /** The queue lists nodes of two neighbouring levels, the upper level first. */
  ghost predicate Levels(paths: seq<Text>, queue: seq<nat>, depth: nat) {
    && NoDuplicates(queue)
    && (forall i :: 0 <= i < |queue| ==> 0 < queue[i] < |paths| && depth <= |paths[queue[i]]| <= depth + 1)
    && (forall i, j :: 0 <= i < j < |queue| ==> |paths[queue[i]]| <= |paths[queue[j]]|)
  }

  lemma {:induction false} LevelsSnoc(paths: seq<Text>, queue: seq<nat>, depth: nat, m: nat)
    requires Levels(paths, queue, depth)
    requires 0 < m < |paths| && |paths[m]| == depth + 1 && m !in queue
    ensures Levels(paths, queue + [m], depth)
  {
    assert forall i :: 0 <= i < |queue| ==> queue[i] in queue;
  }

  ghost predicate Frontier(nodes: seq<AhoNode>, paths: seq<Text>, parents: seq<nat>, needles: Needles,
                           queue: seq<nat>, at: Progress)
  {
    && Trie(nodes, paths, parents)
    && NonEmptyPaths(paths)
    && HoldsNeedles(paths, needles)
    && Expanding(nodes, parents, at)
    && LinkedSoFar(nodes, paths, parents, needles, at)
    && QueueOk(paths, parents, queue, at)
  }

  /** Breadth first: every node at most as deep as the current one has been visited. */
  lemma {:induction false} ShallowVisited(nodes: seq<AhoNode>, paths: seq<Text>, parents: seq<nat>, queue: seq<nat>,
                                          at: Progress, n: nat)
    requires Trie(nodes, paths, parents) && NonEmptyPaths(paths)
    requires Expanding(nodes, parents, at)
    requires QueueOk(paths, parents, queue, at)
    requires n < |nodes| && |paths[n]| <= |paths[at.state]|
    ensures Visited(paths, parents, at, n)
    decreases n
  {
    if n != 0 {
      assert ChildOfParent(nodes, paths, parents, n);
      ShallowVisited(nodes, paths, parents, queue, at, parents[n]);
      assert parents[n] !in queue;
    }
  }

  /** Visiting the edge for `c` visits one more node and no other. */
  lemma {:induction false} VisitedByEdge(nodes: seq<AhoNode>, paths: seq<Text>, parents: seq<nat>, at: Progress,
                                         c: byte, n: nat)
    requires Trie(nodes, paths, parents) && NonEmptyPaths(paths)
    requires Expanding(nodes, parents, at)
    requires c in at.todo && n < |nodes|
    ensures var m := nodes[at.state].next[c];
      && 0 < m < |nodes| && paths[m] == paths[at.state] + [c]
      && m != at.state && m !in at.expanded
      && !Visited(paths, parents, at, m)
      && (Visited(paths, parents, at.(todo := at.todo - {c}), n) <==> Visited(paths, parents, at, n) || n == m)
  {
    var m := nodes[at.state].next[c];
    assert EdgeOk(nodes, paths, parents, at.state, c);
    if 0 < n && parents[n] == at.state {
      assert ChildOfParent(nodes, paths, parents, n);
    }
  }

  /** The node of a visited edge joins the queue at its end. */
  lemma {:induction false} QueueEdge(nodes: seq<AhoNode>, paths: seq<Text>, parents: seq<nat>, queue: seq<nat>,
                                     at: Progress, c: byte)
    requires Trie(nodes, paths, parents) && NonEmptyPaths(paths)
    requires Expanding(nodes, parents, at)
    requires QueueOk(paths, parents, queue, at)
    requires c in at.todo
    ensures QueueOk(paths, parents, queue + [nodes[at.state].next[c]], at.(todo := at.todo - {c}))
  {
    var at', m := at.(todo := at.todo - {c}), nodes[at.state].next[c];
    var queue' := queue + [m];
    VisitedByEdge(nodes, paths, parents, at, c, 0);
    forall n
      ensures n in queue' <==>
                0 < n < |nodes| && Visited(paths, parents, at', n) && n !in at.expanded && n != at.state
    {
      if 0 < n < |nodes| {
        VisitedByEdge(nodes, paths, parents, at, c, n);
      }
    }
    LevelsSnoc(paths, queue, |paths[at.state]|, m);
  }

  /** The root's children keep the fail link 0 and inherit nothing. */
  lemma {:induction false} VisitRootEdge(nodes: seq<AhoNode>, paths: seq<Text>, parents: seq<nat>, needles: Needles,
                                         queue: seq<nat>, at: Progress, c: byte)
    requires Frontier(nodes, paths, parents, needles, queue, at)
    requires at.state == 0 && c in at.todo
    requires nodes[nodes[0].next[c]].fail == 0
    ensures Frontier(nodes, paths, parents, needles, queue + [nodes[0].next[c]], at.(todo := at.todo - {c}))
  {
    var at', m := at.(todo := at.todo - {c}), nodes[0].next[c];
    QueueEdge(nodes, paths, parents, queue, at, c);
    forall n | 0 <= n < |nodes|
      ensures Settled(nodes, paths, parents, needles, at', n)
    {
      assert Settled(nodes, paths, parents, needles, at, n);
      VisitedByEdge(nodes, paths, parents, at, c, n);
      if n == m {
        RootChildLinked(nodes, paths, needles, m, c);
      }
    }
  }

  lemma {:induction false} RootChildLinked(nodes: seq<AhoNode>, paths: seq<Text>, needles: Needles, m: nat, c: byte)
    requires |nodes| == |paths| && m < |nodes| && paths[0] == [] && paths[m] == [] + [c]
    requires nodes[m].fail == 0 && nodes[m].terms == Own(needles, paths[m])
    ensures Linked(nodes, paths, needles, m)
  {
    assert paths[m][1..] == [];
    RootMatchesEmpty(paths);
    assert Ending(needles, paths[m]) == Own(needles, paths[m]) + Ending(needles, []);
  }

  /** The node reached by `c` after its fail link and terms are set. */
  function WithFail(nodes: seq<AhoNode>, m: nat, fallback: nat): seq<AhoNode>
    requires m < |nodes| && fallback < |nodes|
  {
    nodes[m := nodes[m].(fail := fallback, terms := nodes[m].terms + nodes[fallback].terms)]
  }

  lemma {:induction false} LinkEdge(nodes: seq<AhoNode>, paths: seq<Text>, parents: seq<nat>, needles: Needles,
                                    at: Progress, c: byte, fallback: nat)
    requires Trie(nodes, paths, parents) && NonEmptyPaths(paths) && HoldsNeedles(paths, needles)
    requires Expanding(nodes, parents, at) && LinkedSoFar(nodes, paths, parents, needles, at)
    requires at.state != 0 && c in at.todo
    requires LongestSuffix(paths, paths[at.state][1..] + [c], fallback) && Visited(paths, parents, at, fallback)
    ensures var m := nodes[at.state].next[c];
      && m < |nodes|
      && LinkedSoFar(WithFail(nodes, m, fallback), paths, parents, needles, at.(todo := at.todo - {c}))
  {
    var at', m := at.(todo := at.todo - {c}), nodes[at.state].next[c];
    VisitedByEdge(nodes, paths, parents, at, c, 0);
    var nodes' := WithFail(nodes, m, fallback);
    DropFirstOfSnoc(paths[at.state], c);
    EndingOfLongestSuffix(paths, needles, paths[m][1..], fallback);
    assert Settled(nodes, paths, parents, needles, at, fallback) && Settled(nodes, paths, parents, needles, at, m);
    forall n | 0 <= n < |nodes|
      ensures Settled(nodes', paths, parents, needles, at', n)
    {
      VisitedByEdge(nodes, paths, parents, at, c, n);
      assert Settled(nodes, paths, parents, needles, at, n);
    }
  }

  lemma {:induction false} SameShape(nodes: seq<AhoNode>, paths: seq<Text>, parents: seq<nat>, at: Progress, c: byte,
                                     m: nat, fallback: nat)
    requires Trie(nodes, paths, parents) && Expanding(nodes, parents, at)
    requires m < |nodes| && fallback < |nodes|
    ensures Trie(WithFail(nodes, m, fallback), paths, parents)
    ensures Expanding(WithFail(nodes, m, fallback), parents, at.(todo := at.todo - {c}))
  {
    SameEdges(nodes, WithFail(nodes, m, fallback), paths, parents);
  }

  lemma {:induction false} VisitEdge(nodes: seq<AhoNode>, paths: seq<Text>, parents: seq<nat>, needles: Needles,
                                     queue: seq<nat>, at: Progress, c: byte, fallback: nat)
    requires Frontier(nodes, paths, parents, needles, queue, at)
    requires at.state != 0 && c in at.todo
    requires LongestSuffix(paths, paths[at.state][1..] + [c], fallback)
    ensures var m := nodes[at.state].next[c];
      && m < |nodes|
      && Frontier(WithFail(nodes, m, fallback), paths, parents, needles, queue + [m], at.(todo := at.todo - {c}))
  {
    var at', m := at.(todo := at.todo - {c}), nodes[at.state].next[c];
    ShallowVisited(nodes, paths, parents, queue, at, fallback);
    LinkEdge(nodes, paths, parents, needles, at, c, fallback);
    SameShape(nodes, paths, parents, at, c, m, fallback);
    QueueEdge(nodes, paths, parents, queue, at, c);
  }

  /** The next node of the queue becomes the current one. */
  lemma {:induction false} Dequeue(nodes: seq<AhoNode>, paths: seq<Text>, parents: seq<nat>, needles: Needles,
                                   queue: seq<nat>, at: Progress)
    requires Frontier(nodes, paths, parents, needles, queue, at)
    requires at.todo == {} && queue != []
    ensures Frontier(nodes, paths, parents, needles, queue[1..],
                     Progress(at.expanded + {at.state}, queue[0], nodes[queue[0]].next.Keys))
  {
    var at' := Progress(at.expanded + {at.state}, queue[0], nodes[queue[0]].next.Keys);
    assert queue[0] in queue;
    forall n | 0 <= n < |nodes|
      ensures Visited(paths, parents, at', n) <==> Visited(paths, parents, at, n)
      ensures Settled(nodes, paths, parents, needles, at', n)
    {
      assert Settled(nodes, paths, parents, needles, at, n);
      DequeueVisits(nodes, paths, parents, queue, at, n);
    }
    DequeueQueue(paths, parents, queue, at, at');
  }

  /** Moving on to the next node visits nothing new. */
  lemma {:induction false} DequeueVisits(nodes: seq<AhoNode>, paths: seq<Text>, parents: seq<nat>, queue: seq<nat>,
                                         at: Progress, n: nat)
    requires Trie(nodes, paths, parents) && NonEmptyPaths(paths)
    requires Expanding(nodes, parents, at) && QueueOk(paths, parents, queue, at)
    requires at.todo == {} && queue != [] && n < |nodes| && queue[0] < |nodes|
    ensures Visited(paths, parents, Progress(at.expanded + {at.state}, queue[0], nodes[queue[0]].next.Keys), n)
       <==> Visited(paths, parents, at, n)
  {
    assert queue[0] in queue;
    if 0 < n && parents[n] == queue[0] {
      assert ChildOfParent(nodes, paths, parents, n);
    }
  }

  lemma {:induction false} DequeueQueue(paths: seq<Text>, parents: seq<nat>, queue: seq<nat>, at: Progress,
                                        at': Progress)
    requires |paths| == |parents| && NonEmptyPaths(paths) && at.state < |paths|
    requires QueueOk(paths, parents, queue, at) && queue != []
    requires at'.state == queue[0] < |paths| && at'.expanded == at.expanded + {at.state}
    requires forall n :: 0 <= n < |paths| ==> (Visited(paths, parents, at', n) <==> Visited(paths, parents, at, n))
    ensures QueueOk(paths, parents, queue[1..], at')
  {
    LevelsTail(paths, queue, |paths[at.state]|);
    HeadAndTail(queue);
  }

  lemma {:induction false} LevelsTail(paths: seq<Text>, queue: seq<nat>, depth: nat)
    requires Levels(paths, queue, depth) && queue != []
    ensures Levels(paths, queue[1..], |paths[queue[0]]|)
  {
    assert forall i :: 0 <= i < |queue[1..]| ==> queue[1..][i] == queue[i + 1];
  }

  lemma {:induction false} HeadAndTail(queue: seq<nat>)
    requires queue != [] && NoDuplicates(queue)
    ensures forall n :: n in queue[1..] <==> n in queue && n != queue[0]
  {
    assert queue == [queue[0]] + queue[1..];
    assert forall i :: 0 <= i < |queue[1..]| ==> queue[1..][i] == queue[i + 1];
  }

  /** When the queue runs dry every node has been visited. */
  lemma {:induction false} AllVisited(nodes: seq<AhoNode>, paths: seq<Text>, parents: seq<nat>, queue: seq<nat>,
                                      at: Progress, n: nat)
    requires Trie(nodes, paths, parents) && NonEmptyPaths(paths)
    requires Expanding(nodes, parents, at)
    requires queue == [] && QueueOk(paths, parents, queue, at)
    requires at.todo == {} && n < |nodes|
    ensures Visited(paths, parents, at, n)
    decreases n
  {
    if n != 0 {
      assert ChildOfParent(nodes, paths, parents, n);
      AllVisited(nodes, paths, parents, queue, at, parents[n]);
      assert parents[n] !in queue;
    }
  }

  lemma {:induction false} PassComplete(nodes: seq<AhoNode>, paths: seq<Text>, parents: seq<nat>, needles: Needles,
                                        at: Progress)
    requires Frontier(nodes, paths, parents, needles, [], at)
    requires at.todo == {}
    ensures Automaton(nodes, paths, parents, needles)
  {
    forall n | 0 <= n < |nodes|
      ensures Linked(nodes, paths, needles, n)
    {
      AllVisited(nodes, paths, parents, [], at, n);
      assert Settled(nodes, paths, parents, needles, at, n);
    }
  }

  lemma {:induction false} PassStart(nodes: seq<AhoNode>, paths: seq<Text>, parents: seq<nat>, needles: Needles)
    requires Planted(nodes, paths, parents, needles)
    requires forall i :: 0 <= i < |needles| ==> needles[i] != Some([])
    ensures Frontier(nodes, paths, parents, needles, [], Progress({}, 0, nodes[0].next.Keys))
  {
    var at := Progress({}, 0, nodes[0].next.Keys);
    forall n | 0 < n < |nodes|
      ensures paths[n] != [] && !Visited(paths, parents, at, n)
    {
      assert ChildOfParent(nodes, paths, parents, n);
    }
    OwnAbsent(needles, []);
  }

  /** The fail links that a walk from the current node follows are all set. */
  lemma {:induction false} ReadyToFollow(nodes: seq<AhoNode>, paths: seq<Text>, parents: seq<nat>, needles: Needles,
                                         queue: seq<nat>, at: Progress)
    requires Frontier(nodes, paths, parents, needles, queue, at) && at.state != 0
    ensures paths[at.state] != [] && LongestSuffix(paths, paths[at.state][1..], nodes[at.state].fail)
    ensures forall n :: 0 <= n < |nodes| && |paths[n]| <= |paths[nodes[at.state].fail]| ==> FailOk(nodes, paths, n)
  {
    ShallowVisited(nodes, paths, parents, queue, at, at.state);
    assert Settled(nodes, paths, parents, needles, at, at.state);
    forall n | 0 <= n < |nodes| && |paths[n]| <= |paths[nodes[at.state].fail]|
      ensures FailOk(nodes, paths, n)
    {
      ShallowVisited(nodes, paths, parents, queue, at, n);
      assert Settled(nodes, paths, parents, needles, at, n);
    }
  }

  ghost function Below(n: nat): (s: set<nat>)
    ensures forall k :: k in s <==> 0 <= k < n
  {
    if n == 0 then {} else Below(n - 1) + {n - 1}
  }

  /** Set every fail link and inherit the terms along it, breadth first from the root,
      visiting the edges of a node in an arbitrary order. */
  method LinkFailures(aho: seq<AhoNode>, ghost paths: seq<Text>, ghost parents: seq<nat>, ghost needles: Needles)
    returns (nodes: seq<AhoNode>)
    requires Planted(aho, paths, parents, needles)
    requires forall i :: 0 <= i < |needles| ==> needles[i] != Some([])
    ensures Automaton(nodes, paths, parents, needles)
  {
    nodes := aho;
    var queue: seq<nat> := [];
    var todo := nodes[0].next.Keys;
    ghost var at := Progress({}, 0, todo);
    PassStart(nodes, paths, parents, needles);
    while todo != {}
      invariant at == Progress({}, 0, todo)
      invariant nodes == aho && Frontier(nodes, paths, parents, needles, queue, at)
    {
      var c :| c in todo;
      assert EdgeOk(nodes, paths, parents, 0, c);
      VisitRootEdge(nodes, paths, parents, needles, queue, at, c);
      queue, todo := queue + [nodes[0].next[c]], todo - {c};
      at := at.(todo := todo);
    }
    while |queue| > 0
      invariant at.todo == {} && Frontier(nodes, paths, parents, needles, queue, at)
      decreases Below(|nodes|) - at.expanded
    {
      Dequeue(nodes, paths, parents, needles, queue, at);
      var state := queue[0];
      queue := queue[1..];
      todo := nodes[state].next.Keys;
      ghost var before := at;
      at := Progress(at.expanded + {at.state}, state, todo);
      while todo != {}
        invariant at == Progress(before.expanded + {before.state}, state, todo)
        invariant state != 0 && |nodes| == |paths| && Frontier(nodes, paths, parents, needles, queue, at)
        decreases todo
      {
        var c :| c in todo;
        ReadyToFollow(nodes, paths, parents, needles, queue, at);
        var fallback := Follow(nodes, nodes[state].fail, c, paths, parents, paths[state][1..]);
        VisitEdge(nodes, paths, parents, needles, queue, at, c, fallback);
        var next := nodes[state].next[c];
        nodes := WithFail(nodes, next, fallback);
        queue, todo := queue + [next], todo - {c};
        at := at.(todo := todo);
      }
    }
    PassComplete(nodes, paths, parents, needles, at);
  }
}
