/**
 * Deterministic automata of the lexical engine (`DFANode`, `DFA`).
 *
 * Nodes live in an arena: a node's identity (the `DFANode` object) is its
 * index, and for the automata the engine builds the `ID` property equals
 * that index. `Transition` is a map from symbols to node indices.
 */
module DfaGraph {
  import opened Wrappers
  import opened Collections

  datatype DfaNode = DfaNode(accepting: bool, trans: map<char, nat>)

  /** `DFA(start)`: the node arena and the start node. */
  datatype Dfa = Dfa(nodes: seq<DfaNode>, start: nat)

  /** Every transition of the arena names a node of the arena. */
  ghost predicate Closed(nodes: seq<DfaNode>)
  {
    forall i, c :: 0 <= i < |nodes| && c in nodes[i].trans ==> nodes[i].trans[c] < |nodes|
  }

  ghost predicate Valid(d: Dfa)
  {
    d.start < |d.nodes| && Closed(d.nodes)
  }

  /** The nodes that `nodes[i]` has a transition to. */
  function Targets(n: DfaNode): set<nat>
  {
    n.trans.Values
  }

  /** Following the transitions from node `i` on `w`; `None` when one is missing. */
  function Run(nodes: seq<DfaNode>, i: nat, w: string): (r: Option<nat>)
    requires i < |nodes| && Closed(nodes)
    ensures r.Some? ==> r.value < |nodes|
    decreases |w|
  {
    if w == [] then Some(i)
    else if w[0] in nodes[i].trans then Run(nodes, nodes[i].trans[w[0]], w[1..])
    else None
  }

  /** The automaton consumes all of `w` and stops in an accepting node. */
  ghost predicate Accepts(d: Dfa, w: string)
    requires Valid(d)
  {
    var r := Run(d.nodes, d.start, w);
    r.Some? && d.nodes[r.value].accepting
  }

  /** Node `x` is reached from the start on some word. */
  ghost predicate Reachable(d: Dfa, x: nat)
    requires Valid(d)
  {
    exists w :: Run(d.nodes, d.start, w) == Some(x)
  }

  /** A run extended by one transition. */
  lemma {:induction false} RunSnoc(nodes: seq<DfaNode>, i: nat, w: string, c: char)
    requires i < |nodes| && Closed(nodes) && Run(nodes, i, w).Some?
    requires c in nodes[Run(nodes, i, w).value].trans
    ensures Run(nodes, i, w + [c]) == Some(nodes[Run(nodes, i, w).value].trans[c])
    decreases |w|
  {
    if w == [] {
      assert w + [c] == [c];
    } else {
      assert (w + [c])[0] == w[0] && (w + [c])[1..] == w[1..] + [c];
      RunSnoc(nodes, nodes[i].trans[w[0]], w[1..], c);
    }
  }

  /** The target of a reachable node is reachable. */
  lemma ReachableTarget(d: Dfa, x: nat, c: char)
    requires Valid(d) && x < |d.nodes| && Reachable(d, x) && c in d.nodes[x].trans
    ensures Reachable(d, d.nodes[x].trans[c])
  {
    var w :| Run(d.nodes, d.start, w) == Some(x);
    RunSnoc(d.nodes, d.start, w, c);
  }

  /** A set of nodes closed under transitions keeps every run that starts in it. */
  lemma {:induction false} RunStaysIn(nodes: seq<DfaNode>, s: set<nat>, i: nat, w: string)
    requires i < |nodes| && Closed(nodes) && i in s
    requires forall x, c :: x in s && x < |nodes| && c in nodes[x].trans ==> nodes[x].trans[c] in s
    requires Run(nodes, i, w).Some?
    ensures Run(nodes, i, w).value in s
    decreases |w|
  {
    if w != [] {
      RunStaysIn(nodes, s, nodes[i].trans[w[0]], w[1..]);
    }
  }

  /**
   * `DFANodeComparer.Equals`: same acceptance, the same set of symbols and
   * the same set of target nodes, the two sets compared separately.
   */
  function NodeEquals(x: DfaNode, y: DfaNode): (r: bool)
    ensures r <==> (x.accepting == y.accepting && x.trans.Keys == y.trans.Keys && Targets(x) == Targets(y))
  {
    x.accepting == y.accepting &&
    (forall c :: c in x.trans ==> c in y.trans) && (forall c :: c in y.trans ==> c in x.trans) &&
    (forall t :: t in x.trans.Values ==> t in y.trans.Values) &&
    (forall t :: t in y.trans.Values ==> t in x.trans.Values)
  }

  /** The comparer is an equivalence relation. */
  lemma NodeEqualsEquivalence(x: DfaNode, y: DfaNode, z: DfaNode)
    ensures NodeEquals(x, x)
    ensures NodeEquals(x, y) ==> NodeEquals(y, x)
    ensures NodeEquals(x, y) && NodeEquals(y, z) ==> NodeEquals(x, z)
  {
  }

  /** Equal transition maps are not required: swapped targets still compare equal. */
  lemma NodeEqualsIgnoresPairing()
    ensures NodeEquals(DfaNode(false, map['a' := 0, 'b' := 1]), DfaNode(false, map['a' := 1, 'b' := 0]))
    ensures map['a' := 0, 'b' := 1] != map['a' := 1, 'b' := 0]
  {
    var m1: map<char, nat> := map['a' := 0, 'b' := 1];
    var m2: map<char, nat> := map['a' := 1, 'b' := 0];
    assert m1.Values == {0, 1} by {
      assert m1['a'] == 0 && m1['b'] == 1;
    }
    assert m2.Values == {0, 1} by {
      assert m2['a'] == 1 && m2['b'] == 0;
    }
    assert m1['a'] != m2['a'];
  }

  /** C#'s unchecked 32-bit `int` arithmetic: `x` wrapped into [-2^31, 2^31). */
  function Wrap(x: int): (r: int)
    ensures -0x8000_0000 <= r < 0x8000_0000
    ensures (r - x) % 0x1_0000_0000 == 0
    ensures -0x8000_0000 <= x < 0x8000_0000 ==> r == x
  {
    (x + 0x8000_0000) % 0x1_0000_0000 - 0x8000_0000
  }

  /**
   * The loop of `DFANodeComparer.GetHashCode` from the value `h` on, over the
   * transitions `trans` enumerated in the order `keys` (symbols without a
   * transition are skipped): `h * 31 + key + target.ID`, wrapping at 32 bits.
   */
  function HashFrom(h: int, trans: map<char, nat>, keys: seq<char>): (r: int)
    ensures -0x8000_0000 <= h < 0x8000_0000 ==> -0x8000_0000 <= r < 0x8000_0000
    decreases |keys|
  {
    if keys == [] then h
    else if keys[0] in trans then HashFrom(Wrap(h * 31 + keys[0] as int + trans[keys[0]]), trans, keys[1..])
    else HashFrom(h, trans, keys[1..])
  }

  /**
   * `DFANodeComparer.GetHashCode(n)` for a node whose transitions were
   * inserted in the order in which their symbols appear in `insertion`.
   */
  function Hash(insertion: seq<char>, n: DfaNode): (r: int)
    ensures -0x8000_0000 <= r < 0x8000_0000
  {
    HashFrom(17, n.trans, insertion)
  }

  /**
   * A `Dictionary` built with `DFANode.Comparer` finds the stored key `y`
   * for `x` exactly when the hash codes are equal and `Equals` holds.
   */
  predicate SameKey(insertion: seq<char>, x: DfaNode, y: DfaNode)
  {
    Hash(insertion, x) == Hash(insertion, y) && NodeEquals(x, y)
  }

  /** Dictionary lookup through the comparer is an equivalence relation, finer than `Equals`. */
  lemma SameKeyEquivalence(insertion: seq<char>, x: DfaNode, y: DfaNode, z: DfaNode)
    ensures SameKey(insertion, x, x)
    ensures SameKey(insertion, x, y) ==> SameKey(insertion, y, x) && NodeEquals(x, y)
    ensures SameKey(insertion, x, y) && SameKey(insertion, y, z) ==> SameKey(insertion, x, z)
  {
  }

  /**
   * Two nodes whose targets on `a` and `b` are swapped are `Equals`, but
   * their hash codes differ by `30 * (p - q)` in either insertion order, so
   * the dictionary keeps them apart.
   */
  lemma SwappedTargetsKeptApart(insertion: seq<char>, accepting: bool, p: nat, q: nat)
    requires insertion == ['a', 'b'] || insertion == ['b', 'a']
    requires p != q && p < 0x1_0000 && q < 0x1_0000
    ensures NodeEquals(DfaNode(accepting, map['a' := p, 'b' := q]), DfaNode(accepting, map['a' := q, 'b' := p]))
    ensures !SameKey(insertion, DfaNode(accepting, map['a' := p, 'b' := q]), DfaNode(accepting, map['a' := q, 'b' := p]))
  {
    var m1: map<char, nat> := map['a' := p, 'b' := q];
    var m2: map<char, nat> := map['a' := q, 'b' := p];
    assert m1.Values == {p, q} by {
      assert m1['a'] == p && m1['b'] == q;
    }
    assert m2.Values == {p, q} by {
      assert m2['a'] == q && m2['b'] == p;
    }
    var x, y := insertion[0], insertion[1];
    assert insertion == [x, y];
    HashOfTwo(m1, x, y);
    HashOfTwo(m2, x, y);
  }

  /** The hash code of a node with transitions on two small symbols `x` then `y`: no wrap-around happens. */
  lemma HashOfTwo(m: map<char, nat>, x: char, y: char)
    requires x in m && y in m && x as int < 0x80 && y as int < 0x80 && m[x] < 0x1_0000 && m[y] < 0x1_0000
    ensures HashFrom(17, m, [x, y]) == (17 * 31 + x as int + m[x]) * 31 + y as int + m[y]
  {
    var a := 17 * 31 + x as int + m[x];
    assert [x, y][1..] == [y] && [y][1..] == [];
    assert Wrap(a) == a;
    assert HashFrom(17, m, [x, y]) == HashFrom(a, m, [y]);
  }

  /**
   * A discovery list of a traversal from the start: the start first, no
   * repetitions, each node after the first a target of a node listed before it.
   */
  ghost predicate Discovery(d: Dfa, disc: seq<nat>)
    requires Valid(d)
  {
    |disc| > 0 && disc[0] == d.start && Distinct(disc) &&
    (forall k :: 0 <= k < |disc| ==> disc[k] < |d.nodes|) &&
    (forall k :: 0 < k < |disc| ==> FoundFrom(d, disc, k))
  }

  /** `disc[k]` is a target of a node listed before it. */
  ghost predicate FoundFrom(d: Dfa, disc: seq<nat>, k: nat)
    requires Valid(d) && k < |disc| && forall i :: 0 <= i < |disc| ==> disc[i] < |d.nodes|
  {
    exists j :: 0 <= j < k && disc[k] in Targets(d.nodes[disc[j]])
  }

  /**
   * The least `r` from `j` on with `disc[k]` a target of `disc[r]`, or `k`
   * when no node from `disc[j]` to `disc[k - 1]` has it as a target.
   */
  ghost function ParentFrom(d: Dfa, disc: seq<nat>, k: nat, j: nat): (r: nat)
    requires Valid(d) && k < |disc| && j <= k && forall i :: 0 <= i < |disc| ==> disc[i] < |d.nodes|
    ensures j <= r <= k
    ensures r < k ==> disc[k] in Targets(d.nodes[disc[r]])
    ensures forall i :: j <= i < r ==> disc[k] !in Targets(d.nodes[disc[i]])
    decreases k - j
  {
    if j == k then k
    else if disc[k] in Targets(d.nodes[disc[j]]) then j
    else ParentFrom(d, disc, k, j + 1)
  }

  /** The position of the first listed node that has `disc[k]` as a target: the node that enqueued it. */
  ghost function FirstParent(d: Dfa, disc: seq<nat>, k: nat): nat
    requires Valid(d) && Discovery(d, disc) && k < |disc|
  {
    ParentFrom(d, disc, k, 0)
  }

  /**
   * A breadth-first listing: nodes are listed in the order of the nodes
   * that first reach them, as a FIFO queue gives.
   */
  ghost predicate BreadthFirst(d: Dfa, disc: seq<nat>)
    requires Valid(d) && Discovery(d, disc)
  {
    forall k, k' :: 0 < k < k' < |disc| ==> FirstParent(d, disc, k) <= FirstParent(d, disc, k')
  }

  /** A breadth-first listing whose every node after the first was enqueued by one of the first `bound` nodes. */
  ghost predicate Layered(d: Dfa, disc: seq<nat>, bound: nat)
    requires Valid(d) && Discovery(d, disc)
  {
    BreadthFirst(d, disc) && forall k :: 0 < k < |disc| ==> FirstParent(d, disc, k) < bound
  }

  /** Appending a node does not change the first parents of the nodes listed before it. */
  lemma FirstParentAppend(d: Dfa, disc: seq<nat>, t: nat, k: nat)
    requires Valid(d) && Discovery(d, disc) && Discovery(d, disc + [t]) && 0 < k < |disc|
    ensures FirstParent(d, disc + [t], k) == FirstParent(d, disc, k)
  {
    var disc' := disc + [t];
    var r, r' := FirstParent(d, disc, k), FirstParent(d, disc', k);
    assert forall i :: 0 <= i <= k ==> disc'[i] == disc[i];
  }

  /**
   * Enqueueing a target `t` of `disc[head]` that no node before `disc[head]`
   * reaches: its first parent is `head`, and the listing stays breadth-first.
   */
  lemma LayeredAppend(d: Dfa, disc: seq<nat>, head: nat, t: nat)
    requires Valid(d) && Discovery(d, disc) && head < |disc| && t in Targets(d.nodes[disc[head]]) && t !in disc
    requires forall j :: 0 <= j < head ==> t !in Targets(d.nodes[disc[j]])
    requires Layered(d, disc, head + 1)
    ensures Discovery(d, disc + [t]) && Layered(d, disc + [t], head + 1)
  {
    DiscoveryAppend(d, disc, head, t);
    var disc' := disc + [t];
    var n := |disc|;
    var r := FirstParent(d, disc', n);
    assert disc'[n] == t && forall i :: 0 <= i < n ==> disc'[i] == disc[i];
    assert r == head;
    forall k | 0 < k < n ensures FirstParent(d, disc', k) == FirstParent(d, disc, k) {
      FirstParentAppend(d, disc, t, k);
    }
  }

  lemma DiscoveryAppend(d: Dfa, disc: seq<nat>, j: nat, t: nat)
    requires Valid(d) && Discovery(d, disc) && j < |disc| && t in Targets(d.nodes[disc[j]]) && t !in disc
    ensures Discovery(d, disc + [t])
  {
    var disc' := disc + [t];
    assert t < |d.nodes| by {
      var c :| c in d.nodes[disc[j]].trans && d.nodes[disc[j]].trans[c] == t;
    }
    forall k | 0 < k < |disc'| ensures FoundFrom(d, disc', k) {
      if k == |disc| {
        assert disc'[j] == disc[j];
      } else {
        assert FoundFrom(d, disc, k);
        var j' :| 0 <= j' < k && disc[k] in Targets(d.nodes[disc[j']]);
        assert disc'[j'] == disc[j'];
      }
    }
  }

  /** Node `k` is a target of a node numbered before it. */
  ghost predicate LinkedBefore(nodes: seq<DfaNode>, k: nat)
  {
    exists j, c :: 0 <= j < k && j < |nodes| && c in nodes[j].trans && nodes[j].trans[c] == k
  }

  /** Nodes are numbered in discovery order: every node after the first is a target of a node numbered before it. */
  ghost predicate ParentsFirst(nodes: seq<DfaNode>)
  {
    forall k :: 0 < k < |nodes| ==> LinkedBefore(nodes, k)
  }

  /**
   * Linking node `p` on a symbol it has no transition on yet, to an old
   * node or to a node appended just now, keeps the numbering in discovery
   * order.
   */
  lemma ParentsFirstLink(prev: seq<DfaNode>, nodes: seq<DfaNode>, p: nat, c: char, target: nat)
    requires ParentsFirst(prev) && p < |prev| && c !in prev[p].trans
    requires |prev| <= |nodes| <= |prev| + 1 && nodes[..|prev|] == prev && (|nodes| == |prev| + 1 ==> target == |prev|)
    ensures ParentsFirst(nodes[p := nodes[p].(trans := nodes[p].trans[c := target])])
  {
    var nodes' := nodes[p := nodes[p].(trans := nodes[p].trans[c := target])];
    assert nodes[p] == prev[p];
    forall k | 0 < k < |nodes'| ensures LinkedBefore(nodes', k) {
      if k < |prev| {
        assert LinkedBefore(prev, k);
        var j, c' :| 0 <= j < k && j < |prev| && c' in prev[j].trans && prev[j].trans[c'] == k;
        assert nodes[j] == prev[j];
        assert c' in nodes'[j].trans && nodes'[j].trans[c'] == k;
      } else {
        assert c in nodes'[p].trans && nodes'[p].trans[c] == k;
      }
    }
  }

  /** With nodes numbered in discovery order from the start 0, every node is reachable. */
  lemma {:induction false} ParentsFirstReachable(d: Dfa, k: nat)
    requires Valid(d) && d.start == 0 && ParentsFirst(d.nodes) && k < |d.nodes|
    ensures Reachable(d, k)
    decreases k
  {
    if k == 0 {
      assert Run(d.nodes, d.start, []) == Some(d.start);
    } else {
      assert LinkedBefore(d.nodes, k);
      var j, c :| 0 <= j < k && j < |d.nodes| && c in d.nodes[j].trans && d.nodes[j].trans[c] == k;
      ParentsFirstReachable(d, j);
      var w :| Run(d.nodes, d.start, w) == Some(j);
      RunSnoc(d.nodes, d.start, w, c);
    }
  }

  /** Every node of a discovery list is reachable. */
  lemma {:induction false} DiscoveryReachable(d: Dfa, disc: seq<nat>, k: nat)
    requires Valid(d) && Discovery(d, disc) && k < |disc|
    ensures Reachable(d, disc[k])
    decreases k
  {
    if k == 0 {
      assert Run(d.nodes, d.start, []) == Some(d.start);
    } else {
      assert FoundFrom(d, disc, k);
      var j :| 0 <= j < k && disc[k] in Targets(d.nodes[disc[j]]);
      DiscoveryReachable(d, disc, j);
      assert disc[k] in d.nodes[disc[j]].trans.Values;
      var w :| Run(d.nodes, d.start, w) == Some(disc[j]);
      var c :| c in d.nodes[disc[j]].trans && d.nodes[disc[j]].trans[c] == disc[k];
      RunSnoc(d.nodes, d.start, w, c);
    }
  }

  /**
   * `DFA.Nodes`: a breadth-first traversal from the start node. It yields the
   * start first and every reachable node exactly once, each node after the
   * first being a target of a node yielded before it, in the order of the
   * nodes that first reach them.
   */
  method Nodes(d: Dfa) returns (order: seq<nat>)
    requires Valid(d)
    ensures Discovery(d, order) && BreadthFirst(d, order)
    ensures forall x: nat :: x in order <==> x < |d.nodes| && Reachable(d, x)
  {
    // The queue is `order[head..]`; `order[..head]` are the nodes yielded so far.
    order := [d.start];
    var visited: set<nat> := {d.start};
    var head := 0;
    ghost var done: set<nat> := {};
    while head < |order|
      invariant 0 <= head <= |order| && Traversal(d, order, visited, head, done)
      decreases |Below(|d.nodes|) - visited|, |order| - head
    {
      order, visited, done := VisitHead(d, order, visited, head, done);
      head := head + 1;
    }
    assert order[..head] == order;
    DiscoveryComplete(d, order, visited);
  }

  /** The automaton 0 -a-> 1, 0 -b-> 2, 1 -a-> 3. */
  function Fork(): Dfa
  {
    Dfa([DfaNode(false, map['a' := 1, 'b' := 2]), DfaNode(false, map['a' := 3]), DfaNode(false, map[]), DfaNode(false, map[])], 0)
  }

  lemma ForkTargets()
    ensures Valid(Fork())
    ensures Targets(Fork().nodes[0]) == {1, 2} && Targets(Fork().nodes[1]) == {3}
    ensures Targets(Fork().nodes[2]) == {} && Targets(Fork().nodes[3]) == {}
  {
    var d := Fork();
    assert d.nodes[0].trans['a'] == 1 && d.nodes[0].trans['b'] == 2;
    assert d.nodes[1].trans['a'] == 3;
  }

  /**
   * On `Fork`, the depth-first listing 0, 1, 3, 2 is a discovery list but
   * not breadth-first, since 3 is reached first from 1 and 2 from 0; the
   * listing 0, 1, 2, 3 that the queue gives is breadth-first.
   */
  lemma DepthFirstNotBreadthFirst()
    ensures Valid(Fork()) && Discovery(Fork(), [0, 1, 3, 2]) && !BreadthFirst(Fork(), [0, 1, 3, 2])
    ensures Discovery(Fork(), [0, 1, 2, 3]) && BreadthFirst(Fork(), [0, 1, 2, 3])
  {
    ForkTargets();
    ForkDepthFirst(Fork(), [0, 1, 3, 2]);
    ForkBreadthFirst(Fork(), [0, 1, 2, 3]);
  }

  lemma ForkDepthFirst(d: Dfa, dfs: seq<nat>)
    requires Valid(d) && d.start == 0 && |d.nodes| == 4 && dfs == [0, 1, 3, 2]
    requires Targets(d.nodes[0]) == {1, 2} && Targets(d.nodes[1]) == {3}
    ensures Discovery(d, dfs) && !BreadthFirst(d, dfs)
  {
    assert dfs[1] in Targets(d.nodes[dfs[0]]) && dfs[2] in Targets(d.nodes[dfs[1]]) && dfs[3] in Targets(d.nodes[dfs[0]]);
    assert FoundFrom(d, dfs, 1) && FoundFrom(d, dfs, 2) && FoundFrom(d, dfs, 3);
    assert dfs[2] !in Targets(d.nodes[dfs[0]]);
    assert FirstParent(d, dfs, 2) == 1 && FirstParent(d, dfs, 3) == 0;
  }

  lemma ForkBreadthFirst(d: Dfa, bfs: seq<nat>)
    requires Valid(d) && d.start == 0 && |d.nodes| == 4 && bfs == [0, 1, 2, 3]
    requires Targets(d.nodes[0]) == {1, 2} && Targets(d.nodes[1]) == {3}
    ensures Discovery(d, bfs) && BreadthFirst(d, bfs)
  {
    assert bfs[1] in Targets(d.nodes[bfs[0]]) && bfs[2] in Targets(d.nodes[bfs[0]]) && bfs[3] in Targets(d.nodes[bfs[1]]);
    assert FoundFrom(d, bfs, 1) && FoundFrom(d, bfs, 2) && FoundFrom(d, bfs, 3);
    assert bfs[3] !in Targets(d.nodes[bfs[0]]);
    assert FirstParent(d, bfs, 1) == 0 && FirstParent(d, bfs, 2) == 0 && FirstParent(d, bfs, 3) == 1;
  }

  /**
   * The state of the traversal: `order` is a discovery list, `visited` its
   * nodes, `done` the nodes already dequeued, whose targets are all visited.
   */
  ghost predicate Traversal(d: Dfa, order: seq<nat>, visited: set<nat>, head: nat, done: set<nat>)
  {
    Valid(d) && Discovery(d, order) && visited == Elems(order) && head <= |order| &&
    Layered(d, order, head) &&
    done == Elems(order[..head]) &&
    forall x, c :: x in done && x < |d.nodes| && c in d.nodes[x].trans ==> d.nodes[x].trans[c] in visited
  }

  /** One round of the traversal: dequeue `order[head]` and enqueue its unvisited targets. */
  method VisitHead(d: Dfa, order: seq<nat>, visited: set<nat>, head: nat, ghost done: set<nat>)
    returns (order': seq<nat>, visited': set<nat>, ghost done': set<nat>)
    requires Traversal(d, order, visited, head, done) && head < |order|
    ensures Traversal(d, order', visited', head + 1, done')
    ensures |Below(|d.nodes|) - visited'| < |Below(|d.nodes|) - visited| ||
      (|Below(|d.nodes|) - visited'| == |Below(|d.nodes|) - visited| && |order'| == |order|)
  {
    var state := order[head];
    var next := Enumerate(Targets(d.nodes[state]));
    DoneTargets(d, order, visited, head, done);
    order', visited' := EnqueueUnvisited(d, order, visited, head, next);
    TargetsCovered(d.nodes[state], next, visited');
    PrefixElems(order, order', head);
    done' := done + {state};
    DiscoveryBelow(d, order', visited');
    SubsetBelow(visited, visited', |d.nodes|);
  }

  /** The nodes dequeued so far have all their targets visited. */
  lemma DoneTargets(d: Dfa, order: seq<nat>, visited: set<nat>, head: nat, done: set<nat>)
    requires Traversal(d, order, visited, head, done)
    ensures forall j :: 0 <= j < head ==> Targets(d.nodes[order[j]]) <= visited
  {
    forall j, t | 0 <= j < head && t in Targets(d.nodes[order[j]]) ensures t in visited {
      assert order[..head][j] == order[j];
      var c :| c in d.nodes[order[j]].trans && d.nodes[order[j]].trans[c] == t;
    }
  }

  lemma TargetsCovered(n: DfaNode, next: seq<nat>, visited: set<nat>)
    requires (forall t :: t in next <==> t in Targets(n)) && forall t :: t in next ==> t in visited
    ensures forall c :: c in n.trans ==> n.trans[c] in visited
  {
    forall c | c in n.trans ensures n.trans[c] in visited {
      assert n.trans[c] in Targets(n);
    }
  }

  lemma PrefixElems<T>(xs: seq<T>, ys: seq<T>, k: nat)
    requires k < |xs| <= |ys| && ys[..|xs|] == xs
    ensures Elems(ys[..k + 1]) == Elems(xs[..k]) + {xs[k]}
  {
    assert ys[..k + 1] == xs[..k] + [xs[k]];
  }

  lemma DiscoveryBelow(d: Dfa, disc: seq<nat>, visited: set<nat>)
    requires Valid(d) && Discovery(d, disc) && visited == Elems(disc)
    ensures forall x :: x in visited ==> x < |d.nodes|
  {
  }

  /** A discovery list closed under transitions lists exactly the reachable nodes. */
  lemma DiscoveryComplete(d: Dfa, disc: seq<nat>, visited: set<nat>)
    requires Valid(d) && Discovery(d, disc) && visited == Elems(disc)
    requires forall x, c :: x in visited && x < |d.nodes| && c in d.nodes[x].trans ==> d.nodes[x].trans[c] in visited
    ensures forall x: nat :: x in disc <==> x < |d.nodes| && Reachable(d, x)
  {
    forall x: nat | x in disc ensures x < |d.nodes| && Reachable(d, x) {
      var k :| 0 <= k < |disc| && disc[k] == x;
      DiscoveryReachable(d, disc, k);
    }
    forall x: nat | x < |d.nodes| && Reachable(d, x) ensures x in disc {
      var w :| Run(d.nodes, d.start, w) == Some(x);
      RunStaysIn(d.nodes, visited, d.start, w);
    }
  }

  /** The inner loop of `DFA.Nodes`: enqueue each target of `order[head]` not yet visited. */
  method EnqueueUnvisited(d: Dfa, order: seq<nat>, visited: set<nat>, head: nat, next: seq<nat>)
    returns (order': seq<nat>, visited': set<nat>)
    requires Valid(d) && Discovery(d, order) && visited == Elems(order) && head < |order|
    requires forall t :: t in next ==> t in Targets(d.nodes[order[head]])
    requires Layered(d, order, head) && forall j :: 0 <= j < head ==> Targets(d.nodes[order[j]]) <= visited
    ensures Discovery(d, order') && visited' == Elems(order') && Layered(d, order', head + 1)
    ensures |order| <= |order'| && order'[..|order|] == order
    ensures forall t :: t in next ==> t in visited'
    ensures visited <= visited' && (visited' == visited ==> order' == order)
  {
    order', visited' := order, visited;
    var i := 0;
    while i < |next|
      invariant 0 <= i <= |next|
      invariant Discovery(d, order') && visited' == Elems(order') && Layered(d, order', head + 1)
      invariant |order| <= |order'| && order'[..|order|] == order
      invariant forall k :: 0 <= k < i ==> next[k] in visited'
      invariant visited <= visited' && (visited' == visited ==> order' == order)
    {
      var t := next[i];
      if t !in visited' {
        assert order'[head] == order[head];
        forall j | 0 <= j < head ensures t !in Targets(d.nodes[order'[j]]) {
          assert order'[j] == order[j];
        }
        LayeredAppend(d, order', head, t);
        order' := order' + [t];
        visited' := visited' + {t};
      }
      assert forall k :: 0 <= k < i + 1 ==> next[k] in visited';
      i := i + 1;
    }
  }
}
