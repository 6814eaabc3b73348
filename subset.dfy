/**
 * `NfaToDfaConvertor.Convert` before minimisation: the subset construction.
 *
 * Each DFA node stands for an epsilon-closed set of NFA nodes. The
 * dictionary `dfaNodes` (keyed by `NFASetComparer`) is the sequence `sets`,
 * where the index of a set is the `ID` of its DFA node. Because every set is
 * enqueued exactly when it is added to the dictionary, the FIFO queue is
 * always the suffix `sets[p..]`, where `p` counts the sets dequeued so far.
 */
module SubsetConstruction {
  import opened Wrappers
  import opened Collections
  import opened Nfa
  import opened ThompsonLanguage
  import opened NfaSets
  import DfaGraph

  /** `NFASetComparer.Equals`: equal counts and mutual containment, which is set equality. */
  function SetEquals(x: set<nat>, y: set<nat>): (r: bool)
    ensures r <==> x == y
  {
    |x| == |y| && (forall a :: a in x ==> a in y) && (forall a :: a in y ==> a in x)
  }

  /** `dfaNodes.TryGetValue(s)`: the ID of the set the comparer finds equal to `s`. */
  function Lookup(sets: seq<set<nat>>, s: set<nat>): (r: Option<nat>)
    ensures r.Some? ==> r.value < |sets| && sets[r.value] == s
    ensures r.None? <==> s !in sets
  {
    if |sets| == 0 then None
    else if SetEquals(sets[|sets| - 1], s) then Some(|sets| - 1)
    else
      var r := Lookup(sets[..|sets| - 1], s);
      assert sets == sets[..|sets| - 1] + [sets[|sets| - 1]];
      r
  }

  /** `Move`: the union of the `c`-successors of the nodes of `s`. */
  method Move(g: Graph, s: set<nat>, c: char) returns (rst: set<nat>)
    requires InRange(g, s)
    ensures rst == MoveSet(g, s, c)
  {
    var nodes := Enumerate(s);
    rst := {};
    var i := 0;
    while i < |nodes|
      invariant 0 <= i <= |nodes|
      invariant rst == MoveSet(g, Elems(nodes[..i]), c)
    {
      var node := nodes[i];
      assert node in s;
      if c in g[node].trans {
        rst := rst + g[node].trans[c];
      }
      ElemsSnoc(nodes, i);
      MoveSetAdd(g, Elems(nodes[..i]), node, c);
      i := i + 1;
    }
    assert nodes[..i] == nodes;
  }

  /** The loop state of `EpsilonClosure`: what is closed so far, and what waits on the stack. */
  ghost predicate Closing(g: Graph, s: set<nat>, closure: set<nat>, stack: seq<nat>)
  {
    WellFormed(g) && InRange(g, s) &&
    closure <= EClose(g, s) &&
    (forall x :: x in stack ==> x in EClose(g, s)) &&
    (forall x :: x in s ==> x in closure || x in stack) &&
    (forall x, t :: x in closure && t in EpsOf(g, x) ==> t in closure || t in stack)
  }

  /**
   * `EpsilonClosure`: pop a node; if it is new, add it and push its epsilon
   * targets. The result is the least epsilon-closed superset of `s`.
   */
  method EpsilonClosure(g: Graph, s: set<nat>) returns (closure: set<nat>)
    requires WellFormed(g) && InRange(g, s)
    ensures closure == EClose(g, s)
  {
    var stack := Enumerate(s);
    closure := {};
    ECloseLeast(g, s, {});
    while stack != []
      invariant Closing(g, s, closure, stack)
      decreases |Below(|g|) - closure|, |stack|
    {
      ghost var before := closure;
      closure, stack := PopState(g, s, closure, stack);
      if closure != before {
        SubsetBelow(before, closure, |g|);
      }
    }
    ClosingDone(g, s, closure);
  }

  lemma ClosingDone(g: Graph, s: set<nat>, closure: set<nat>)
    requires Closing(g, s, closure, [])
    ensures closure == EClose(g, s)
  {
    forall x, t | x in closure && t in EpsOf(g, x) ensures t in closure {
      assert t in closure || t in [];
    }
    forall x | x in s ensures x in closure {
      assert x in closure || x in [];
    }
    ECloseLeast(g, s, closure);
  }

  /** One iteration of the loop of `EpsilonClosure`. */
  method PopState(g: Graph, s: set<nat>, closure: set<nat>, stack: seq<nat>)
    returns (closure': set<nat>, stack': seq<nat>)
    requires Closing(g, s, closure, stack) && stack != []
    requires EpsClosed(g, EClose(g, s)) && InRange(g, EClose(g, s))
    ensures Closing(g, s, closure', stack')
    ensures closure <= closure' && (closure' == closure ==> |stack'| < |stack|)
    ensures forall x :: x in closure' ==> x < |g|
  {
    var state := stack[|stack| - 1];
    stack' := stack[..|stack| - 1];
    assert forall x :: x in stack ==> x in stack' || x == state;
    closure' := closure;
    assert state in stack;
    if state !in closure {
      closure' := closure + {state};
      var eps := Enumerate(g[state].eps);
      assert forall t :: t in eps ==> t in EpsOf(g, state);
      stack' := stack' + eps;
    }
  }

  /** The loop state of `Alphabet(nfa)`; `reach` is the set of nodes reachable from the start. */
  ghost predicate Searching(g: Graph, reach: set<nat>, symbols: set<char>, visited: set<nat>, stack: seq<nat>)
  {
    WellFormed(g) && InRange(g, reach) && SuccClosed(g, reach) &&
    symbols == Labels(g, visited) && visited <= reach &&
    (forall x :: x in stack ==> x in reach) &&
    (forall x, t :: x in visited && t in Succs(g, x) ==> t in visited || t in stack)
  }

  /**
   * `Alphabet(nfa)`: a depth-first search from the start node collecting
   * the symbols of every transition met. These are exactly the symbols on
   * the edges leaving nodes reachable from the start.
   */
  method Alphabet(g: Graph, start: nat) returns (symbols: set<char>)
    requires WellFormed(g) && start < |g|
    ensures symbols == ReachableLabels(g, start)
  {
    ghost var reach := ReachableNodes(g, start);
    ReachableClosed(g, start);
    symbols := {};
    var visited: set<nat> := {};
    var stack := [start];
    while stack != []
      invariant Searching(g, reach, symbols, visited, stack)
      invariant start in visited || start in stack
      decreases |Below(|g|) - visited|, |stack|
    {
      ghost var before := visited;
      symbols, visited, stack := VisitState(g, reach, symbols, visited, stack);
      if visited != before {
        SubsetBelow(before, visited, |g|);
      }
    }
    SearchDone(g, start, reach, symbols, visited);
  }

  lemma SearchDone(g: Graph, start: nat, reach: set<nat>, symbols: set<char>, visited: set<nat>)
    requires Searching(g, reach, symbols, visited, []) && (start in visited || start in [])
    requires reach == ReachableNodes(g, start)
    ensures symbols == ReachableLabels(g, start)
  {
    forall x, t | x in visited && t in Succs(g, x) ensures t in visited {
      assert t in visited || t in [];
    }
    assert start in visited || start in [];
    forall x | x in reach ensures x in visited {
      var w, n :| Path(g, start, x, w, n);
      ClosedContainsReach(g, visited, start, x, w, n);
    }
    assert visited == reach;
  }

  /** One iteration of the loop of `Alphabet(nfa)`. */
  method VisitState(g: Graph, ghost reach: set<nat>, symbols: set<char>, visited: set<nat>, stack: seq<nat>)
    returns (symbols': set<char>, visited': set<nat>, stack': seq<nat>)
    requires Searching(g, reach, symbols, visited, stack) && stack != []
    ensures Searching(g, reach, symbols', visited', stack')
    ensures visited <= visited' && (visited' == visited ==> |stack'| < |stack|)
    ensures forall x :: x in stack ==> x in visited' || x in stack'
  {
    var state := stack[|stack| - 1];
    stack' := stack[..|stack| - 1];
    assert forall x :: x in stack ==> x in stack' || x == state;
    assert forall x :: x in stack' ==> x in stack;
    symbols', visited' := symbols, visited;
    assert state in stack;
    if state !in visited {
      visited' := visited + {state};
      symbols' := symbols + g[state].trans.Keys;
      LabelsAdd(g, visited, state);
      stack' := PushTargets(g, reach, stack', state, visited');
    }
  }

  /** The pushes of one visit: the unvisited epsilon targets, then the unvisited targets of each symbol. */
  method PushTargets(g: Graph, ghost reach: set<nat>, stack: seq<nat>, state: nat, visited: set<nat>)
    returns (stack': seq<nat>)
    requires WellFormed(g) && state < |g| && state in reach && SuccClosed(g, reach)
    requires forall x :: x in stack ==> x in reach
    ensures forall x :: x in stack ==> x in stack'
    ensures forall x :: x in stack' ==> x in reach
    ensures forall t :: t in Succs(g, state) ==> t in visited || t in stack'
  {
    SuccsWithin(g, reach, state);
    stack' := PushUnvisited(stack, g[state].eps, reach, visited);
    var keys := Enumerate(g[state].trans.Keys);
    var j := 0;
    while j < |keys|
      invariant 0 <= j <= |keys|
      invariant forall x :: x in stack ==> x in stack'
      invariant forall x :: x in stack' ==> x in reach
      invariant forall t :: t in g[state].eps ==> t in visited || t in stack'
      invariant forall c, t :: c in keys[..j] && t in g[state].trans[c] ==> t in visited || t in stack'
    {
      stack' := PushUnvisited(stack', g[state].trans[keys[j]], reach, visited);
      assert keys[..j + 1] == keys[..j] + [keys[j]];
      j := j + 1;
    }
    assert keys[..j] == keys;
  }

  lemma SuccsWithin(g: Graph, reach: set<nat>, state: nat)
    requires state < |g| && state in reach && SuccClosed(g, reach)
    ensures forall t :: t in g[state].eps ==> t in reach
    ensures forall c, t :: c in g[state].trans && t in g[state].trans[c] ==> t in reach
  {
    forall t | t in g[state].eps ensures t in reach {
      assert t in Succs(g, state);
    }
    forall c, t | c in g[state].trans && t in g[state].trans[c] ensures t in reach {
      assert t in Succs(g, state);
    }
  }

  lemma LabelsAdd(g: Graph, v: set<nat>, x: nat)
    requires x < |g|
    ensures Labels(g, v + {x}) == Labels(g, v) + g[x].trans.Keys
  {
  }

  /** Push the members of `targets` that are not visited, in some order. */
  method PushUnvisited(stack: seq<nat>, targets: set<nat>, ghost reach: set<nat>, visited: set<nat>)
    returns (stack': seq<nat>)
    requires targets <= reach
    ensures forall x :: x in stack ==> x in stack'
    ensures forall x :: x in stack' ==> x in stack || x in targets
    ensures forall t :: t in targets ==> t in visited || t in stack'
  {
    var ts := Enumerate(targets);
    stack' := stack;
    var i := 0;
    while i < |ts|
      invariant 0 <= i <= |ts|
      invariant forall x :: x in stack ==> x in stack'
      invariant forall x :: x in stack' ==> x in stack || x in targets
      invariant forall k :: 0 <= k < i ==> ts[k] in visited || ts[k] in stack'
    {
      if ts[i] !in visited {
        stack' := stack' + [ts[i]];
      }
      assert forall k :: 0 <= k < i + 1 ==> ts[k] in visited || ts[k] in stack';
      i := i + 1;
    }
  }

  /**
   * A DFA node and the NFA set it stands for agree: the set is a non-empty,
   * epsilon-closed set of nodes inside `reach`, and the node accepts iff the
   * set holds the NFA end.
   */
  ghost predicate Member(reach: set<nat>, g: Graph, end: nat, s: set<nat>, node: DfaGraph.DfaNode)
  {
    s != {} && EpsClosed(g, s) && s <= reach && (node.accepting <==> end in s)
  }

  /** The transition of `node` (standing for `s`) on `c` is the subset-construction step. */
  ghost predicate Stepped(g: Graph, sets: seq<set<nat>>, node: DfaGraph.DfaNode, s: set<nat>, c: char)
  {
    (c in node.trans ==> node.trans[c] < |sets| && sets[node.trans[c]] == EClose(g, MoveSet(g, s, c))) &&
    (c !in node.trans ==> EClose(g, MoveSet(g, s, c)) == {})
  }

  /** What holds of every discovered set; `reach` is a set of nodes no edge leaves. */
  ghost predicate Core(g: Graph, start: nat, reach: set<nat>, end: nat, sets: seq<set<nat>>, nodes: seq<DfaGraph.DfaNode>)
  {
    WellFormed(g) && start < |g| && InRange(g, reach) && SuccClosed(g, reach) &&
    |nodes| == |sets| && 0 < |sets| && sets[0] == EClose(g, {start}) && Distinct(sets) &&
    forall k :: 0 <= k < |sets| ==> Member(reach, g, end, sets[k], nodes[k])
  }

  /** The sets before `p` have left the queue and have all their transitions. */
  ghost predicate Done(g: Graph, sets: seq<set<nat>>, nodes: seq<DfaGraph.DfaNode>, p: nat)
    requires p <= |sets| == |nodes|
  {
    forall k, c :: 0 <= k < p ==> Stepped(g, sets, nodes[k], sets[k], c)
  }

  /** The nodes from `p` on are still waiting in the queue and have no transitions yet. */
  ghost predicate Waiting(nodes: seq<DfaGraph.DfaNode>, p: nat)
  {
    forall k :: p <= k < |nodes| ==> nodes[k].trans == map[]
  }

  /** The invariant of the main loop of `Convert`. */
  ghost predicate Built(g: Graph, start: nat, reach: set<nat>, end: nat, sets: seq<set<nat>>, nodes: seq<DfaGraph.DfaNode>, p: nat)
  {
    Core(g, start, reach, end, sets, nodes) && p <= |sets| && Done(g, sets, nodes, p) && Waiting(nodes, p)
  }

  /** The invariant of the loop over the alphabet while the set `sets[p]` is processed. */
  ghost predicate Expanding(g: Graph, start: nat, reach: set<nat>, end: nat, sets: seq<set<nat>>, nodes: seq<DfaGraph.DfaNode>,
                            p: nat, symbols: seq<char>, i: nat)
  {
    Core(g, start, reach, end, sets, nodes) && p < |sets| && i <= |symbols| &&
    Done(g, sets, nodes, p) && Waiting(nodes, p + 1) &&
    (forall c :: c in nodes[p].trans ==> c in symbols[..i]) &&
    (forall j :: 0 <= j < i ==> Stepped(g, sets, nodes[p], sets[p], symbols[j]))
  }

  /**
   * The subset construction of `Convert` (everything but the final call to
   * `Minimal`). Node `k` of the result stands for `sets[k]`; node 0, the
   * start, for the closure of the NFA start; every set is a non-empty closed
   * set of nodes reachable from the start; a node accepts iff its set holds
   * the NFA end; and the transition on `c` leads to the closure of the
   * `c`-step, or is missing when that closure is empty. The automaton
   * accepts exactly the words the NFA accepts.
   */
  method SubsetConstruct(g: Graph, start: nat, end: nat) returns (d: DfaGraph.Dfa, sets: seq<set<nat>>, symbols: seq<char>)
    requires WellFormed(g) && start < |g| && end < |g|
    ensures Distinct(symbols) && forall k, c :: 0 <= k < |d.nodes| && c in d.nodes[k].trans ==> c in symbols
    ensures DfaGraph.Valid(d) && d.start == 0 && |d.nodes| == |sets|
    ensures sets[0] == EClose(g, {start}) && Distinct(sets)
    ensures forall k :: 0 <= k < |sets| ==> Member(ReachableNodes(g, start), g, end, sets[k], d.nodes[k])
    ensures forall k, c :: 0 <= k < |sets| ==> Stepped(g, sets, d.nodes[k], sets[k], c)
    ensures forall w :: DfaGraph.Accepts(d, w) <==> Accepts(g, start, end, w)
    ensures DfaGraph.ParentsFirst(d.nodes) && forall k :: 0 <= k < |d.nodes| ==> DfaGraph.Reachable(d, k)
  {
    ghost var reach := ReachableNodes(g, start);
    ReachableClosed(g, start);
    var init := EpsilonClosure(g, {start});
    sets := [init];
    var nodes := [DfaGraph.DfaNode(end in init, map[])];
    var alphabet := Alphabet(g, start);
    symbols := Enumerate(alphabet);
    InitialSet(g, start, reach, end, init);
    var p := 0;
    while p < |sets|
      invariant Built(g, start, reach, end, sets, nodes, p) && DfaGraph.ParentsFirst(nodes)
      decreases |Subsets(|g|) - Elems(sets)|, |sets| - p
    {
      sets, nodes := Expand(g, start, reach, end, alphabet, symbols, sets, nodes, p);
      p := p + 1;
    }
    d := DfaGraph.Dfa(nodes, 0);
    BuiltClosed(g, start, reach, end, sets, nodes);
    KeysInAlphabet(g, start, reach, end, sets, nodes);
    forall w ensures DfaGraph.Accepts(d, w) <==> Accepts(g, start, end, w) {
      SubsetLanguage(g, start, reach, end, sets, nodes, w);
    }
    forall k | 0 <= k < |d.nodes| ensures DfaGraph.Reachable(d, k) {
      DfaGraph.ParentsFirstReachable(d, k);
    }
  }

  lemma InitialSet(g: Graph, start: nat, reach: set<nat>, end: nat, init: set<nat>)
    requires WellFormed(g) && start < |g| && init == EClose(g, {start})
    requires start in reach && InRange(g, reach) && SuccClosed(g, reach)
    ensures Built(g, start, reach, end, [init], [DfaGraph.DfaNode(end in init, map[])], 0)
  {
    SuccClosedEps(g, reach);
    ECloseLeast(g, {start}, reach);
  }

  /** One iteration of the main loop: dequeue `sets[p]` and give its node a transition on every symbol. */
  method Expand(g: Graph, start: nat, ghost reach: set<nat>, end: nat, alphabet: set<char>, symbols: seq<char>,
                sets: seq<set<nat>>, nodes: seq<DfaGraph.DfaNode>, p: nat)
    returns (sets': seq<set<nat>>, nodes': seq<DfaGraph.DfaNode>)
    requires Built(g, start, reach, end, sets, nodes, p) && p < |sets|
    requires alphabet == Labels(g, reach) && Distinct(symbols)
    requires forall c :: c in symbols <==> c in alphabet
    requires DfaGraph.ParentsFirst(nodes)
    ensures Built(g, start, reach, end, sets', nodes', p + 1) && DfaGraph.ParentsFirst(nodes')
    ensures sets' == sets || |Subsets(|g|) - Elems(sets')| < |Subsets(|g|) - Elems(sets)|
  {
    sets', nodes' := sets, nodes;
    var i := 0;
    while i < |symbols|
      invariant Expanding(g, start, reach, end, sets', nodes', p, symbols, i) && DfaGraph.ParentsFirst(nodes')
      invariant sets' == sets || |Subsets(|g|) - Elems(sets')| < |Subsets(|g|) - Elems(sets)|
    {
      sets', nodes' := Step(g, start, reach, end, sets', nodes', p, symbols, i);
      i := i + 1;
    }
    FinishNode(g, start, reach, end, alphabet, symbols, sets', nodes', p);
  }

  /** The body of `foreach (var symbol in alphabet)`: link `sets[p]` to the closure of its step on `symbols[i]`. */
  method Step(g: Graph, start: nat, ghost reach: set<nat>, end: nat, sets: seq<set<nat>>, nodes: seq<DfaGraph.DfaNode>,
              p: nat, symbols: seq<char>, i: nat)
    returns (sets': seq<set<nat>>, nodes': seq<DfaGraph.DfaNode>)
    requires Expanding(g, start, reach, end, sets, nodes, p, symbols, i) && i < |symbols| && Distinct(symbols)
    requires DfaGraph.ParentsFirst(nodes)
    ensures Expanding(g, start, reach, end, sets', nodes', p, symbols, i + 1) && DfaGraph.ParentsFirst(nodes')
    ensures sets' == sets || |Subsets(|g|) - Elems(sets')| < |Subsets(|g|) - Elems(sets)|
  {
    var c := symbols[i];
    assert Member(reach, g, end, sets[p], nodes[p]);
    assert InRange(g, sets[p]);
    var moved := Move(g, sets[p], c);
    MoveInRange(g, sets[p], c);
    var newSet := EpsilonClosure(g, moved);
    sets', nodes' := sets, nodes;
    if newSet == {} {
      StepEmpty(g, start, reach, end, sets, nodes, p, symbols, i);
    } else {
      var target: nat;
      var found := Lookup(sets, newSet);
      if found.Some? {
        target := found.value;
      } else {
        target := |sets|;
        sets' := sets + [newSet];
        nodes' := nodes + [DfaGraph.DfaNode(end in newSet, map[])];
        StepAdd(g, start, reach, end, sets, nodes, p, symbols, i, newSet);
      }
      StepLink(g, start, reach, end, sets', nodes', p, symbols, i, target);
      NotYetLinked(g, start, reach, end, sets, nodes, p, symbols, i);
      DfaGraph.ParentsFirstLink(nodes, nodes', p, c, target);
      var node := nodes'[p];
      nodes' := nodes'[p := node.(trans := node.trans[c := target])];
    }
  }

  /** While `sets[p]` is processed, its node has no transition yet on the next symbol. */
  lemma NotYetLinked(g: Graph, start: nat, reach: set<nat>, end: nat, sets: seq<set<nat>>, nodes: seq<DfaGraph.DfaNode>,
                     p: nat, symbols: seq<char>, i: nat)
    requires Expanding(g, start, reach, end, sets, nodes, p, symbols, i) && i < |symbols| && Distinct(symbols)
    ensures symbols[i] !in nodes[p].trans
  {
    DistinctPrefix(symbols, i);
  }

  lemma StepEmpty(g: Graph, start: nat, reach: set<nat>, end: nat, sets: seq<set<nat>>, nodes: seq<DfaGraph.DfaNode>,
                  p: nat, symbols: seq<char>, i: nat)
    requires Expanding(g, start, reach, end, sets, nodes, p, symbols, i) && i < |symbols| && Distinct(symbols)
    requires EClose(g, MoveSet(g, sets[p], symbols[i])) == {}
    ensures Expanding(g, start, reach, end, sets, nodes, p, symbols, i + 1)
  {
    var c := symbols[i];
    DistinctPrefix(symbols, i);
    PrefixSnoc(symbols, i);
    assert Stepped(g, sets, nodes[p], sets[p], c);
  }

  /** The closure of a step from a member set is closed and stays inside `reach`. */
  lemma StepWithin(g: Graph, reach: set<nat>, s: set<nat>, c: char)
    requires WellFormed(g) && InRange(g, reach) && SuccClosed(g, reach) && s <= reach
    ensures EpsClosed(g, EClose(g, MoveSet(g, s, c))) && EClose(g, MoveSet(g, s, c)) <= reach
  {
    MoveWithin(g, reach, s, c);
    SuccClosedEps(g, reach);
    ECloseLeast(g, MoveSet(g, s, c), reach);
  }

  /** A new set found by the step on `symbols[i]` enters the dictionary and the queue. */
  lemma StepAdd(g: Graph, start: nat, reach: set<nat>, end: nat, sets: seq<set<nat>>, nodes: seq<DfaGraph.DfaNode>,
                p: nat, symbols: seq<char>, i: nat, newSet: set<nat>)
    requires Expanding(g, start, reach, end, sets, nodes, p, symbols, i) && i < |symbols|
    requires newSet == EClose(g, MoveSet(g, sets[p], symbols[i])) && newSet != {} && newSet !in sets
    ensures Expanding(g, start, reach, end, sets + [newSet], nodes + [DfaGraph.DfaNode(end in newSet, map[])], p, symbols, i)
    ensures |Subsets(|g|) - Elems(sets + [newSet])| < |Subsets(|g|) - Elems(sets)|
  {
    var node := DfaGraph.DfaNode(end in newSet, map[]);
    assert Member(reach, g, end, sets[p], nodes[p]);
    StepWithin(g, reach, sets[p], symbols[i]);
    CoreAdd(g, start, reach, end, sets, nodes, newSet, node);
    ExpandingGrow(g, start, reach, end, sets, nodes, p, symbols, i, newSet, node);
    NewSetFewer(g, sets, newSet);
  }

  /** A new set of nodes leaves fewer sets of nodes undiscovered. */
  lemma NewSetFewer(g: Graph, sets: seq<set<nat>>, s: set<nat>)
    requires InRange(g, s) && s !in sets
    ensures |Subsets(|g|) - Elems(sets + [s])| < |Subsets(|g|) - Elems(sets)|
  {
    assert Bounded(s, |g|);
    assert Elems(sets + [s]) == Elems(sets) + {s};
    FewerLeft(Subsets(|g|), Elems(sets), s);
  }

  /** Adding a new member set and its node keeps what holds of every set. */
  lemma CoreAdd(g: Graph, start: nat, reach: set<nat>, end: nat, sets: seq<set<nat>>, nodes: seq<DfaGraph.DfaNode>,
                s: set<nat>, node: DfaGraph.DfaNode)
    requires Core(g, start, reach, end, sets, nodes) && Member(reach, g, end, s, node) && s !in sets
    ensures Core(g, start, reach, end, sets + [s], nodes + [node])
  {
    var sets', nodes' := sets + [s], nodes + [node];
    forall k | 0 <= k < |sets'| ensures Member(reach, g, end, sets'[k], nodes'[k]) {
      if k < |sets| {
        assert Member(reach, g, end, sets[k], nodes[k]);
      }
    }
  }

  /** Appending a set with a node without transitions keeps the loop state over the alphabet. */
  lemma ExpandingGrow(g: Graph, start: nat, reach: set<nat>, end: nat, sets: seq<set<nat>>, nodes: seq<DfaGraph.DfaNode>,
                      p: nat, symbols: seq<char>, i: nat, s: set<nat>, node: DfaGraph.DfaNode)
    requires Expanding(g, start, reach, end, sets, nodes, p, symbols, i)
    requires Core(g, start, reach, end, sets + [s], nodes + [node]) && node.trans == map[]
    ensures Expanding(g, start, reach, end, sets + [s], nodes + [node], p, symbols, i)
  {
    var sets', nodes' := sets + [s], nodes + [node];
    forall k, c' | 0 <= k < p ensures Stepped(g, sets', nodes'[k], sets'[k], c') {
      SteppedGrow(g, sets, sets', nodes[k], sets[k], c');
    }
    forall j | 0 <= j < i ensures Stepped(g, sets', nodes'[p], sets'[p], symbols[j]) {
      SteppedGrow(g, sets, sets', nodes[p], sets[p], symbols[j]);
    }
  }

  /** Setting the transition of `sets[p]` on `symbols[i]` to `target`, the index of the closure of the step. */
  lemma StepLink(g: Graph, start: nat, reach: set<nat>, end: nat, sets: seq<set<nat>>, nodes: seq<DfaGraph.DfaNode>,
                 p: nat, symbols: seq<char>, i: nat, target: nat)
    requires Expanding(g, start, reach, end, sets, nodes, p, symbols, i) && i < |symbols| && Distinct(symbols)
    requires target < |sets| && sets[target] == EClose(g, MoveSet(g, sets[p], symbols[i]))
    ensures Expanding(g, start, reach, end, sets, nodes[p := nodes[p].(trans := nodes[p].trans[symbols[i] := target])],
                      p, symbols, i + 1)
  {
    var c := symbols[i];
    var node := nodes[p].(trans := nodes[p].trans[c := target]);
    var nodes' := nodes[p := node];
    DistinctPrefix(symbols, i);
    PrefixSnoc(symbols, i);
    forall k | 0 <= k < |sets| ensures Member(reach, g, end, sets[k], nodes'[k]) {
      assert Member(reach, g, end, sets[k], nodes[k]);
    }
    forall k, c' | 0 <= k < p ensures Stepped(g, sets, nodes'[k], sets[k], c') {
      assert Stepped(g, sets, nodes[k], sets[k], c');
    }
    forall j | 0 <= j < i + 1 ensures Stepped(g, sets, node, sets[p], symbols[j]) {
      if j < i {
        assert symbols[j] != c;
        assert Stepped(g, sets, nodes[p], sets[p], symbols[j]);
      }
    }
  }

  /** A step stays the same when the dictionary grows. */
  lemma SteppedGrow(g: Graph, sets: seq<set<nat>>, sets': seq<set<nat>>, node: DfaGraph.DfaNode, s: set<nat>, c: char)
    requires Stepped(g, sets, node, s, c) && |sets| <= |sets'| && sets'[..|sets|] == sets
    ensures Stepped(g, sets', node, s, c)
  {
    if c in node.trans {
      assert sets'[node.trans[c]] == sets[node.trans[c]];
    }
  }

  /** After the last symbol, the node of `sets[p]` has every transition it should have. */
  lemma FinishNode(g: Graph, start: nat, reach: set<nat>, end: nat, alphabet: set<char>, symbols: seq<char>,
                   sets: seq<set<nat>>, nodes: seq<DfaGraph.DfaNode>, p: nat)
    requires Expanding(g, start, reach, end, sets, nodes, p, symbols, |symbols|)
    requires alphabet == Labels(g, reach)
    requires forall c :: c in symbols <==> c in alphabet
    ensures Built(g, start, reach, end, sets, nodes, p + 1)
  {
    assert symbols[..|symbols|] == symbols;
    assert Member(reach, g, end, sets[p], nodes[p]);
    forall c ensures Stepped(g, sets, nodes[p], sets[p], c) {
      if c in symbols {
        var j :| 0 <= j < |symbols| && symbols[j] == c;
      } else {
        MoveOffAlphabet(g, reach, sets[p], c);
        ECloseEmpty(g);
      }
    }
  }

  /**
   * Every node's transitions are on symbols of the alphabet, so each node
   * inserted them in the order in which `foreach (var symbol in alphabet)`
   * met their symbols.
   */
  lemma KeysInAlphabet(g: Graph, start: nat, reach: set<nat>, end: nat, sets: seq<set<nat>>, nodes: seq<DfaGraph.DfaNode>)
    requires Built(g, start, reach, end, sets, nodes, |sets|)
    ensures forall k, c :: 0 <= k < |nodes| && c in nodes[k].trans ==> c in Labels(g, reach)
  {
    ECloseEmpty(g);
    forall k, c | 0 <= k < |nodes| && c in nodes[k].trans ensures c in Labels(g, reach) {
      assert Stepped(g, sets, nodes[k], sets[k], c);
      assert Member(reach, g, end, sets[nodes[k].trans[c]], nodes[nodes[k].trans[c]]);
      assert sets[k] <= reach;
      MoveOnAlphabet(g, reach, sets[k], c);
    }
  }

  lemma BuiltClosed(g: Graph, start: nat, reach: set<nat>, end: nat, sets: seq<set<nat>>, nodes: seq<DfaGraph.DfaNode>)
    requires Built(g, start, reach, end, sets, nodes, |sets|)
    ensures DfaGraph.Valid(DfaGraph.Dfa(nodes, 0))
  {
    forall k, c | 0 <= k < |nodes| && c in nodes[k].trans ensures nodes[k].trans[c] < |nodes| {
      assert Stepped(g, sets, nodes[k], sets[k], c);
    }
  }

  /** Running the DFA from node `k` on `w` tracks the NFA nodes reached from `sets[k]` on `w`. */
  lemma {:induction false} SubsetRun(g: Graph, start: nat, reach: set<nat>, end: nat, sets: seq<set<nat>>,
                                     nodes: seq<DfaGraph.DfaNode>, k: nat, w: string)
    requires Built(g, start, reach, end, sets, nodes, |sets|) && DfaGraph.Closed(nodes) && k < |sets|
    ensures DfaGraph.Run(nodes, k, w).Some? ==> ReachSet(g, sets[k], w) == sets[DfaGraph.Run(nodes, k, w).value]
    ensures DfaGraph.Run(nodes, k, w).None? ==> ReachSet(g, sets[k], w) == {}
    decreases |w|
  {
    assert Member(reach, g, end, sets[k], nodes[k]);
    assert InRange(g, sets[k]);
    if w == [] {
      ECloseIsReach(g, sets[k]);
      ECloseFixed(g, sets[k]);
    } else {
      var c, rest := w[0], w[1..];
      assert w == [c] + rest;
      ReachCons(g, sets[k], c, rest);
      ECloseFixed(g, sets[k]);
      MoveInRange(g, sets[k], c);
      ReachFromClosure(g, MoveSet(g, sets[k], c), rest);
      assert Stepped(g, sets, nodes[k], sets[k], c);
      if c in nodes[k].trans {
        SubsetRun(g, start, reach, end, sets, nodes, nodes[k].trans[c], rest);
      } else {
        ReachEmptySet(g, rest);
      }
    }
  }

  lemma ReachEmptySet(g: Graph, w: string)
    ensures ReachSet(g, {}, w) == {}
  {
  }

  /** The subset automaton accepts `w` exactly when the NFA does. */
  lemma SubsetLanguage(g: Graph, start: nat, reach: set<nat>, end: nat, sets: seq<set<nat>>,
                       nodes: seq<DfaGraph.DfaNode>, w: string)
    requires Built(g, start, reach, end, sets, nodes, |sets|) && end < |g|
    ensures DfaGraph.Valid(DfaGraph.Dfa(nodes, 0))
    ensures DfaGraph.Accepts(DfaGraph.Dfa(nodes, 0), w) <==> Accepts(g, start, end, w)
  {
    BuiltClosed(g, start, reach, end, sets, nodes);
    SubsetRun(g, start, reach, end, sets, nodes, 0, w);
    ReachFromClosure(g, {start}, w);
    var r := DfaGraph.Run(nodes, 0, w);
    if r.Some? {
      assert Member(reach, g, end, sets[r.value], nodes[r.value]);
    }
    assert end in ReachSet(g, {start}, w) <==> Accepts(g, start, end, w);
  }
}
