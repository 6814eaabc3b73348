/**
 * Sets of NFA nodes: the nodes reached from a set on a word, the epsilon
 * closure and the symbol step of the subset construction, and the nodes and
 * symbols reachable from a start node. These are the reference definitions
 * the worklist methods of `NfaToDfaConvertor` are proved against.
 */
module NfaSets {
  import opened Collections
  import opened Nfa
  import opened ThompsonLanguage

  /** Some run from a node of `s` reading `w` ends in `j`. */
  ghost predicate ReachedFrom(g: Graph, s: set<nat>, j: nat, w: string)
  {
    exists i, n :: i in s && Path(g, i, j, w, n)
  }

  /** The nodes of `g` reached from a node of `s` by a run reading `w`. */
  ghost function ReachSet(g: Graph, s: set<nat>, w: string): set<nat>
  {
    set j: nat | j < |g| && ReachedFrom(g, s, j, w)
  }

  /** The union of the `c`-successors of the nodes of `s`. */
  function MoveSet(g: Graph, s: set<nat>, c: char): set<nat>
  {
    set i, k | i in s && k in SuccOf(g, i, c) :: k
  }

  /** The targets of the epsilon edges leaving `s`. */
  function EpsTargets(g: Graph, s: set<nat>): set<nat>
  {
    set x, t | x in s && t in EpsOf(g, x) :: t
  }

  /** `n` rounds of adding the epsilon targets. */
  ghost function Grow(g: Graph, s: set<nat>, n: nat): set<nat>
    decreases n
  {
    if n == 0 then s else Grow(g, s + EpsTargets(g, s), n - 1)
  }

  /** The epsilon closure of `s`; `|g|` rounds always suffice (see `ECloseLeast`). */
  ghost function EClose(g: Graph, s: set<nat>): set<nat>
  {
    Grow(g, s, |g|)
  }

  /** No epsilon edge leaves `s`. */
  ghost predicate EpsClosed(g: Graph, s: set<nat>)
  {
    forall x, t :: x in s && t in EpsOf(g, x) ==> t in s
  }

  /** All members of `s` are nodes of `g`. */
  ghost predicate InRange(g: Graph, s: set<nat>)
  {
    forall x :: x in s ==> x < |g|
  }

  // ---------------------------------------------------------------------
  // The closure by rounds

  lemma {:induction false} GrowContains(g: Graph, s: set<nat>, n: nat)
    ensures s <= Grow(g, s, n)
    decreases n
  {
    if n > 0 {
      GrowContains(g, s + EpsTargets(g, s), n - 1);
    }
  }

  lemma EpsTargetsInRange(g: Graph, s: set<nat>)
    requires WellFormed(g)
    ensures InRange(g, EpsTargets(g, s))
  {
    forall t | t in EpsTargets(g, s) ensures t < |g| {
      var x :| x in s && t in EpsOf(g, x);
      assert EdgesWithin(g[x], 0, |g|);
    }
  }

  lemma {:induction false} GrowInRange(g: Graph, s: set<nat>, n: nat)
    requires WellFormed(g) && InRange(g, s)
    ensures InRange(g, Grow(g, s, n))
    decreases n
  {
    if n > 0 {
      EpsTargetsInRange(g, s);
      GrowInRange(g, s + EpsTargets(g, s), n - 1);
    }
  }

  lemma {:induction false} GrowFixed(g: Graph, s: set<nat>, n: nat)
    requires EpsTargets(g, s) <= s
    ensures Grow(g, s, n) == s
    decreases n
  {
    if n > 0 {
      assert s + EpsTargets(g, s) == s;
      GrowFixed(g, s, n - 1);
    }
  }

  lemma {:induction false} GrowInClosed(g: Graph, s: set<nat>, c: set<nat>, n: nat)
    requires s <= c && EpsClosed(g, c)
    ensures Grow(g, s, n) <= c
    decreases n
  {
    if n > 0 {
      GrowInClosed(g, s + EpsTargets(g, s), c, n - 1);
    }
  }

  /** Once `n` rounds and the size of `s` together reach the number of nodes, the rounds have closed `s`. */
  lemma {:induction false} GrowClosed(g: Graph, s: set<nat>, n: nat)
    requires WellFormed(g) && InRange(g, s) && n + |s| >= |g|
    ensures EpsClosed(g, Grow(g, s, n))
    decreases n
  {
    var s' := s + EpsTargets(g, s);
    EpsTargetsInRange(g, s);
    if EpsTargets(g, s) <= s {
      GrowFixed(g, s, n);
      forall x, t | x in s && t in EpsOf(g, x) ensures t in s {
        assert t in EpsTargets(g, s);
      }
    } else {
      ProperSubsetCard(s, s');
      BoundedCard(s', |g|);
      GrowClosed(g, s', n - 1);
    }
  }

  /**
   * `EClose(S)` is the least superset of `S` closed under epsilon edges: it
   * contains `S`, it is closed, it holds only nodes, and it lies inside every
   * closed superset of `S`.
   */
  lemma ECloseLeast(g: Graph, s: set<nat>, c: set<nat>)
    requires WellFormed(g) && InRange(g, s)
    ensures s <= EClose(g, s) && EpsClosed(g, EClose(g, s)) && InRange(g, EClose(g, s))
    ensures s <= c && EpsClosed(g, c) ==> EClose(g, s) <= c
  {
    GrowContains(g, s, |g|);
    GrowClosed(g, s, |g|);
    GrowInRange(g, s, |g|);
    if s <= c && EpsClosed(g, c) {
      GrowInClosed(g, s, c, |g|);
    }
  }

  /** A closed set is its own closure. */
  lemma ECloseFixed(g: Graph, s: set<nat>)
    requires EpsClosed(g, s)
    ensures EClose(g, s) == s
  {
    forall t | t in EpsTargets(g, s) ensures t in s {
      var x :| x in s && t in EpsOf(g, x);
    }
    GrowFixed(g, s, |g|);
  }

  /** Closing twice is closing once. */
  lemma ECloseIdempotent(g: Graph, s: set<nat>)
    requires WellFormed(g) && InRange(g, s)
    ensures EClose(g, EClose(g, s)) == EClose(g, s)
  {
    ECloseLeast(g, s, {});
    ECloseFixed(g, EClose(g, s));
  }

  lemma ECloseEmpty(g: Graph)
    ensures EClose(g, {}) == {}
  {
    GrowFixed(g, {}, |g|);
  }

  // ---------------------------------------------------------------------
  // Runs from a set

  /** In a well-formed graph a run from a node ends at a node. */
  lemma {:induction false} PathInRange(g: Graph, i: nat, j: nat, w: string, n: nat)
    requires WellFormed(g) && i < |g| && Path(g, i, j, w, n)
    ensures j < |g|
    decreases n
  {
    if i == j && w == [] {
    } else if k :| k in EpsOf(g, i) && Path(g, k, j, w, n - 1) {
      assert EdgesWithin(g[i], 0, |g|);
      PathInRange(g, k, j, w, n - 1);
    } else {
      var k :| k in SuccOf(g, i, w[0]) && Path(g, k, j, w[1..], n - 1);
      assert EdgesWithin(g[i], 0, |g|);
      PathInRange(g, k, j, w[1..], n - 1);
    }
  }

  lemma {:induction false} EmptyPathStaysIn(g: Graph, s: set<nat>, i: nat, j: nat, n: nat)
    requires EpsClosed(g, s) && i in s && Path(g, i, j, [], n)
    ensures j in s
    decreases n
  {
    if i != j {
      var k :| k in EpsOf(g, i) && Path(g, k, j, [], n - 1);
      EmptyPathStaysIn(g, s, k, j, n - 1);
    }
  }

  lemma ReachedExtend(g: Graph, s: set<nat>, x: nat, j: nat, u: string, v: string, n: nat)
    requires ReachedFrom(g, s, x, u) && Path(g, x, j, v, n)
    ensures ReachedFrom(g, s, j, u + v)
  {
    var i, m :| i in s && Path(g, i, x, u, m);
    PathConcat(g, i, x, j, u, v, m, n);
  }

  lemma ReachedEps(g: Graph, s: set<nat>, x: nat, t: nat)
    requires ReachedFrom(g, s, x, []) && t in EpsOf(g, x)
    ensures ReachedFrom(g, s, t, [])
  {
    EpsStep(g, x, t, t, [], 0);
    ReachedExtend(g, s, x, t, [], [], 1);
    var e: string := [];
    assert e + e == e;
  }

  /** The nodes reached on the empty word form the least closed superset too. */
  lemma ReachEmptyLeast(g: Graph, s: set<nat>, c: set<nat>)
    requires WellFormed(g) && InRange(g, s)
    ensures s <= ReachSet(g, s, []) && EpsClosed(g, ReachSet(g, s, []))
    ensures s <= c && EpsClosed(g, c) ==> ReachSet(g, s, []) <= c
  {
    forall i | i in s ensures i in ReachSet(g, s, []) {
      assert Path(g, i, i, [], 0);
    }
    forall x, t | x in ReachSet(g, s, []) && t in EpsOf(g, x) ensures t in ReachSet(g, s, []) {
      ReachedEps(g, s, x, t);
      assert EdgesWithin(g[x], 0, |g|);
    }
    if s <= c && EpsClosed(g, c) {
      forall j | j in ReachSet(g, s, []) ensures j in c {
        var i, n :| i in s && Path(g, i, j, [], n);
        EmptyPathStaysIn(g, c, i, j, n);
      }
    }
  }

  /** The closure by rounds is the set of nodes reached on the empty word. */
  lemma ECloseIsReach(g: Graph, s: set<nat>)
    requires WellFormed(g) && InRange(g, s)
    ensures EClose(g, s) == ReachSet(g, s, [])
  {
    ECloseLeast(g, s, ReachSet(g, s, []));
    ReachEmptyLeast(g, s, EClose(g, s));
  }

  /** A run reading `[c] + w` is an empty run, one `c` edge, and a run reading `w`. */
  lemma {:induction false} PathSplit(g: Graph, i: nat, j: nat, c: char, w: string, n: nat)
    returns (y: nat, k: nat, n1: nat, n2: nat)
    requires Path(g, i, j, [c] + w, n)
    ensures Path(g, i, y, [], n1) && k in SuccOf(g, y, c) && Path(g, k, j, w, n2)
    decreases n
  {
    var cw := [c] + w;
    assert cw[0] == c && cw[1..] == w;
    if m :| m in EpsOf(g, i) && Path(g, m, j, cw, n - 1) {
      var n1';
      y, k, n1', n2 := PathSplit(g, m, j, c, w, n - 1);
      EpsStep(g, i, m, y, [], n1');
      n1 := n1' + 1;
    } else {
      k :| k in SuccOf(g, i, c) && Path(g, k, j, w, n - 1);
      y, n1, n2 := i, 0, n - 1;
    }
  }

  /** Reading from the closure of `t` reaches what reading from `t` reaches. */
  lemma ReachFromClosure(g: Graph, t: set<nat>, w: string)
    requires WellFormed(g) && InRange(g, t)
    ensures ReachSet(g, EClose(g, t), w) == ReachSet(g, t, w)
  {
    ECloseIsReach(g, t);
    var ct := ReachSet(g, t, []);
    forall j: nat | j < |g| && ReachedFrom(g, ct, j, w) ensures ReachedFrom(g, t, j, w) {
      var m: nat, n :| m in ct && Path(g, m, j, w, n);
      ReachedExtend(g, t, m, j, [], w, n);
      assert [] + w == w;
    }
    forall j: nat | j < |g| && ReachedFrom(g, t, j, w) ensures ReachedFrom(g, ct, j, w) {
      var i: nat, n :| i in t && Path(g, i, j, w, n);
      assert Path(g, i, i, [], 0);
      assert i in ct;
    }
  }

  /** One symbol of the word: close, step on `c`, then read the rest. */
  lemma ReachCons(g: Graph, s: set<nat>, c: char, w: string)
    requires WellFormed(g) && InRange(g, s)
    ensures ReachSet(g, s, [c] + w) == ReachSet(g, MoveSet(g, EClose(g, s), c), w)
  {
    ECloseIsReach(g, s);
    var cs := ReachSet(g, s, []);
    forall j: nat | j < |g| && ReachedFrom(g, s, j, [c] + w) ensures ReachedFrom(g, MoveSet(g, cs, c), j, w) {
      var i, n :| i in s && Path(g, i, j, [c] + w, n);
      var y, k, n1, n2 := PathSplit(g, i, j, c, w, n);
      PathInRange(g, i, y, [], n1);
      assert y in cs;
      assert k in MoveSet(g, cs, c);
    }
    forall j: nat | j < |g| && ReachedFrom(g, MoveSet(g, cs, c), j, w) ensures ReachedFrom(g, s, j, [c] + w) {
      var k: nat, n2: nat :| k in MoveSet(g, cs, c) && Path(g, k, j, w, n2);
      var y: nat :| y in cs && k in SuccOf(g, y, c);
      CharStep(g, y, k, j, c, w, n2);
      ReachedExtend(g, s, y, j, [], [c] + w, n2 + 1);
      assert [] + ([c] + w) == [c] + w;
    }
  }

  // ---------------------------------------------------------------------
  // Steps

  lemma MoveSetAdd(g: Graph, s: set<nat>, x: nat, c: char)
    ensures MoveSet(g, s + {x}, c) == MoveSet(g, s, c) + SuccOf(g, x, c)
  {
  }

  /** In a well-formed graph a step stays among the nodes. */
  lemma MoveInRange(g: Graph, s: set<nat>, c: char)
    requires WellFormed(g)
    ensures InRange(g, MoveSet(g, s, c))
  {
    forall k | k in MoveSet(g, s, c) ensures k < |g| {
      var i :| i in s && k in SuccOf(g, i, c);
      assert EdgesWithin(g[i], 0, |g|);
    }
  }

  // ---------------------------------------------------------------------
  // Reachable nodes and the alphabet

  /** Node `x` is reached from `s` along some run, whatever it reads. */
  ghost predicate ReachAny(g: Graph, s: nat, x: nat)
  {
    exists w, n :: Path(g, s, x, w, n)
  }

  /** The nodes reachable from `s`. */
  ghost function ReachableNodes(g: Graph, s: nat): set<nat>
  {
    set x: nat | x < |g| && ReachAny(g, s, x)
  }

  /** The symbols on the transitions leaving the nodes of `v`. */
  function Labels(g: Graph, v: set<nat>): set<char>
  {
    set x, c | x in v && x < |g| && c in g[x].trans :: c
  }

  /** The symbols labelling an edge out of a node reachable from `s`. */
  ghost function ReachableLabels(g: Graph, s: nat): set<char>
  {
    Labels(g, ReachableNodes(g, s))
  }

  /** The targets of all edges, epsilon or labelled, leaving node `x`. */
  function Succs(g: Graph, x: nat): set<nat>
  {
    EpsOf(g, x) + set c, t | x < |g| && c in g[x].trans && t in g[x].trans[c] :: t
  }

  /** No edge leaves `v`. */
  ghost predicate SuccClosed(g: Graph, v: set<nat>)
  {
    forall x, t :: x in v && t in Succs(g, x) ==> t in v
  }

  /** A set closed under all edges contains every node a run from it reaches. */
  lemma {:induction false} ClosedContainsReach(g: Graph, v: set<nat>, i: nat, j: nat, w: string, n: nat)
    requires SuccClosed(g, v) && i in v && Path(g, i, j, w, n)
    ensures j in v
    decreases n
  {
    if i == j && w == [] {
    } else if k :| k in EpsOf(g, i) && Path(g, k, j, w, n - 1) {
      assert k in Succs(g, i);
      ClosedContainsReach(g, v, k, j, w, n - 1);
    } else {
      var k :| k in SuccOf(g, i, w[0]) && Path(g, k, j, w[1..], n - 1);
      assert k in Succs(g, i);
      ClosedContainsReach(g, v, k, j, w[1..], n - 1);
    }
  }

  /** The successors of a reachable node are reachable. */
  lemma ReachAnySucc(g: Graph, start: nat, x: nat, t: nat)
    requires ReachAny(g, start, x) && t in Succs(g, x)
    ensures ReachAny(g, start, t)
  {
    var w, n :| Path(g, start, x, w, n);
    if t in EpsOf(g, x) {
      EpsStep(g, x, t, t, [], 0);
      PathConcat(g, start, x, t, w, [], n, 1);
      assert w + [] == w;
    } else {
      var c :| x < |g| && c in g[x].trans && t in g[x].trans[c];
      CharStep(g, x, t, t, c, [], 0);
      PathConcat(g, start, x, t, w, [c] + [], n, 1);
    }
  }

  /** The reachable nodes contain the start, are nodes, and no edge leaves them. */
  lemma ReachableClosed(g: Graph, start: nat)
    requires WellFormed(g) && start < |g|
    ensures start in ReachableNodes(g, start) && InRange(g, ReachableNodes(g, start))
    ensures SuccClosed(g, ReachableNodes(g, start))
  {
    assert Path(g, start, start, [], 0);
    forall x, t | x in ReachableNodes(g, start) && t in Succs(g, x) ensures t in ReachableNodes(g, start) {
      ReachAnySucc(g, start, x, t);
      assert EdgesWithin(g[x], 0, |g|);
    }
  }

  /** A set closed under all edges is closed under epsilon edges. */
  lemma SuccClosedEps(g: Graph, v: set<nat>)
    requires SuccClosed(g, v)
    ensures EpsClosed(g, v)
  {
    forall x, t | x in v && t in EpsOf(g, x) ensures t in v {
      assert t in Succs(g, x);
    }
  }

  /** A step from inside a set closed under all edges stays inside. */
  lemma MoveWithin(g: Graph, v: set<nat>, s: set<nat>, c: char)
    requires SuccClosed(g, v) && s <= v
    ensures MoveSet(g, s, c) <= v
  {
    forall k | k in MoveSet(g, s, c) ensures k in v {
      var y :| y in s && k in SuccOf(g, y, c);
      assert k in Succs(g, y);
    }
  }

  /** From inside `v`, a step that leads somewhere is on a symbol of `v`. */
  lemma MoveOnAlphabet(g: Graph, v: set<nat>, s: set<nat>, c: char)
    requires s <= v && MoveSet(g, s, c) != {}
    ensures c in Labels(g, v)
  {
    var t :| t in MoveSet(g, s, c);
  }

  /** From inside `v`, a symbol no node of `v` has an edge for leads nowhere. */
  lemma MoveOffAlphabet(g: Graph, v: set<nat>, s: set<nat>, c: char)
    requires s <= v && c !in Labels(g, v)
    ensures MoveSet(g, s, c) == {}
  {
  }
}
