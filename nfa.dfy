/**
 * The NFA of the lexical engine and Thompson's construction.
 *
 * `NFANode` objects are modelled by an arena: a node is its index in a
 * sequence of `NfaNode` values, and the arena's length plays the part of the
 * static id counter `NFANode._nextID` (a new node gets the next index).
 * `IASTNode.Build` is the method `NfaArena.Build`, proved equal to the pure
 * function `Thompson`, about which the structural facts are stated.
 */
module Nfa {
  import opened RegexAst

  /** One NFA node: `Transtions` (symbol -> successor set) and `EpsilonClosureTranstions`. */
  datatype NfaNode = NfaNode(trans: map<char, set<nat>>, eps: set<nat>)

  /** A freshly allocated node: no edges at all. */
  const Blank := NfaNode(map[], {})

  type Graph = seq<NfaNode>

  /** An NFA fragment (`NFAConnection`) together with the arena it lives in. */
  datatype Frag = Frag(g: Graph, start: nat, end: nat)

  /** `NFANode.AddTransition`: `t` joins `Transtions[c]` (created empty when absent). */
  function AddTrans(n: NfaNode, c: char, t: nat): (m: NfaNode)
    ensures m.eps == n.eps
    ensures m.trans.Keys == n.trans.Keys + {c}
    ensures forall d :: d in m.trans ==>
      m.trans[d] == (if d in n.trans then n.trans[d] else {}) + (if d == c then {t} else {})
  {
    if c in n.trans then n.(trans := n.trans[c := n.trans[c] + {t}])
    else n.(trans := n.trans[c := {t}])
  }

  /** `NFANode.AddEpsilonClosureTransition`: `t` joins the epsilon successor set. */
  function AddEps(n: NfaNode, t: nat): NfaNode
  {
    n.(eps := n.eps + {t})
  }

  /** The arena after `g[i].AddEpsilonClosureTransition(j)`. */
  function Link(g: Graph, i: nat, j: nat): Graph
    requires i < |g|
  {
    g[i := AddEps(g[i], j)]
  }

  /** Every edge of the arena points at a node of the arena. */
  ghost predicate WellFormed(g: Graph)
  {
    forall i :: 0 <= i < |g| ==> EdgesWithin(g[i], 0, |g|)
  }

  /** Every edge of node `n` points into `[lo, hi)`. */
  ghost predicate EdgesWithin(n: NfaNode, lo: nat, hi: nat)
  {
    (forall t :: t in n.eps ==> lo <= t < hi) &&
    (forall c, t :: c in n.trans && t in n.trans[c] ==> lo <= t < hi)
  }

  /** Every edge leaving a node of `[lo, hi)` stays inside `[lo, hi)`. */
  ghost predicate Confined(g: Graph, lo: nat, hi: nat)
  {
    hi <= |g| && forall i :: lo <= i < hi ==> EdgesWithin(g[i], lo, hi)
  }

  lemma EdgesWiden(n: NfaNode, lo: nat, hi: nat, lo': nat, hi': nat)
    requires EdgesWithin(n, lo, hi) && lo' <= lo && hi <= hi'
    ensures EdgesWithin(n, lo', hi')
  {
  }

  /** `h` is `g` with more nodes appended and `g`'s nodes untouched. */
  ghost predicate Extends(h: Graph, g: Graph)
  {
    |g| <= |h| && forall k :: 0 <= k < |g| ==> h[k] == g[k]
  }

  /**
   * The pure meaning of `IASTNode.Build`: the arena after building `r` on top
   * of `g`, and the fragment's (start, end).  Nodes are allocated in the order
   * of the source (Alt: left, right, start, end; Star: inner, start, end).
   */
  function Thompson(r: Regex, g: Graph): (f: Frag)
    ensures |g| + 2 <= |f.g|
    ensures |g| <= f.start < |f.g| && |g| <= f.end < |f.g| && f.start != f.end
    ensures f.g[f.end] == Blank
    decreases r
  {
    match r
    case Eps =>
      Frag(Link(g + [Blank] + [Blank], |g|, |g| + 1), |g|, |g| + 1)
    case Char(c) =>
      var h := g + [Blank] + [Blank];
      Frag(h[|g| := AddTrans(h[|g|], c, |g| + 1)], |g|, |g| + 1)
    case Concat(a, b) =>
      var fa := Thompson(a, g);
      ConcatJoin(fa, Thompson(b, fa.g))
    case Alt(a, b) =>
      var fa := Thompson(a, g);
      AlternateJoin(fa, Thompson(b, fa.g))
    case Star(a) =>
      ClosureJoin(Thompson(a, g))
  }

  /** The wiring of `ConcatNode.Build` around the two built sub-fragments. */
  function ConcatJoin(fa: Frag, fb: Frag): (f: Frag)
    requires fa.end < |fb.g|
    ensures |f.g| == |fb.g| && f.start == fa.start && f.end == fb.end
  {
    Frag(Link(fb.g, fa.end, fb.start), fa.start, fb.end)
  }

  /** The wiring of `AlternateNode.Build` around the two built sub-fragments. */
  function AlternateJoin(fa: Frag, fb: Frag): (f: Frag)
    requires fa.end < |fb.g| && fb.end < |fb.g|
    ensures |f.g| == |fb.g| + 2 && f.start == |fb.g| && f.end == |fb.g| + 1
  {
    var s := |fb.g|;
    var h := Link(Link(fb.g + [Blank], s, fa.start), s, fb.start);
    Frag(Link(Link(h + [Blank], fa.end, s + 1), fb.end, s + 1), s, s + 1)
  }

  /** The wiring of `ClosureNode.Build` around the built inner fragment. */
  function ClosureJoin(fa: Frag): (f: Frag)
    requires fa.end < |fa.g|
    ensures |f.g| == |fa.g| + 2 && f.start == |fa.g| && f.end == |fa.g| + 1
  {
    var s := |fa.g|;
    var h := Link(Link(fa.g + [Blank] + [Blank], s, fa.start), s, s + 1);
    Frag(Link(Link(h, fa.end, fa.start), fa.end, s + 1), s, s + 1)
  }

  /** The nodes of the arena `NFANode` objects live in. */
  class NfaArena {
    var nodes: Graph

    constructor ()
      ensures nodes == []
    {
      nodes := [];
    }

    /** `new NFANode()`: the node gets the next id and no edges. */
    method NewNode() returns (id: nat)
      modifies this
      ensures id == |old(nodes)| && nodes == old(nodes) + [Blank]
    {
      id := |nodes|;
      nodes := nodes + [Blank];
    }

    /** `NFANode.AddTransition` on node `from`. */
    method AddTransition(from: nat, c: char, to: nat)
      requires from < |nodes|
      modifies this
      ensures nodes == old(nodes)[from := AddTrans(old(nodes)[from], c, to)]
    {
      nodes := nodes[from := AddTrans(nodes[from], c, to)];
    }

    /** `NFANode.AddEpsilonClosureTransition` on node `from`. */
    method AddEpsilonClosureTransition(from: nat, to: nat)
      requires from < |nodes|
      modifies this
      ensures nodes == Link(old(nodes), from, to)
    {
      nodes := nodes[from := AddEps(nodes[from], to)];
    }

    /** `IASTNode.Build`: dispatch on the node class. */
    method Build(r: Regex) returns (start: nat, end: nat)
      modifies this
      ensures Frag(nodes, start, end) == Thompson(r, old(nodes))
      decreases r, 1
    {
      match r
      case Eps => start, end := BuildEpsilon();
      case Char(c) => start, end := BuildCharacter(c);
      case Concat(a, b) => start, end := BuildConcat(a, b);
      case Alt(a, b) => start, end := BuildAlternate(a, b);
      case Star(a) => start, end := BuildClosure(a);
    }

    /** `EplisionNode.Build`. */
    method BuildEpsilon() returns (start: nat, end: nat)
      modifies this
      ensures Frag(nodes, start, end) == Thompson(Eps, old(nodes))
    {
      start := NewNode();
      end := NewNode();
      AddEpsilonClosureTransition(start, end);
    }

    /** `CharacterNode.Build`. */
    method BuildCharacter(c: char) returns (start: nat, end: nat)
      modifies this
      ensures Frag(nodes, start, end) == Thompson(Char(c), old(nodes))
    {
      start := NewNode();
      end := NewNode();
      AddTransition(start, c, end);
    }

    /** `ConcatNode.Build`. */
    method BuildConcat(a: Regex, b: Regex) returns (start: nat, end: nat)
      modifies this
      ensures Frag(nodes, start, end) == Thompson(Concat(a, b), old(nodes))
      decreases Concat(a, b), 0
    {
      var leftStart, leftEnd := Build(a);
      var rightStart, rightEnd := Build(b);
      AddEpsilonClosureTransition(leftEnd, rightStart);
      start, end := leftStart, rightEnd;
    }

    /** `AlternateNode.Build`. */
    method BuildAlternate(a: Regex, b: Regex) returns (start: nat, end: nat)
      modifies this
      ensures Frag(nodes, start, end) == Thompson(Alt(a, b), old(nodes))
      decreases Alt(a, b), 0
    {
      var leftStart, leftEnd := Build(a);
      ghost var left := Frag(nodes, leftStart, leftEnd);
      var rightStart, rightEnd := Build(b);
      start, end := WireAlternate(left, leftStart, leftEnd, rightStart, rightEnd);
    }

    /** The part of `AlternateNode.Build` after both sub-builds. */
    method WireAlternate(ghost left: Frag, leftStart: nat, leftEnd: nat, rightStart: nat, rightEnd: nat)
      returns (start: nat, end: nat)
      requires left.start == leftStart && left.end == leftEnd
      requires leftEnd < |nodes| && rightEnd < |nodes|
      modifies this
      ensures Frag(nodes, start, end) == AlternateJoin(left, Frag(old(nodes), rightStart, rightEnd))
    {
      start := NewNode();
      AddEpsilonClosureTransition(start, leftStart);
      AddEpsilonClosureTransition(start, rightStart);
      end := NewNode();
      AddEpsilonClosureTransition(leftEnd, end);
      AddEpsilonClosureTransition(rightEnd, end);
    }

    /** `ClosureNode.Build`. */
    method BuildClosure(a: Regex) returns (start: nat, end: nat)
      modifies this
      ensures Frag(nodes, start, end) == Thompson(Star(a), old(nodes))
      decreases Star(a), 0
    {
      var innerStart, innerEnd := Build(a);
      start, end := WireClosure(innerStart, innerEnd);
    }

    /** The part of `ClosureNode.Build` after the inner build. */
    method WireClosure(innerStart: nat, innerEnd: nat) returns (start: nat, end: nat)
      requires innerEnd < |nodes|
      modifies this
      ensures Frag(nodes, start, end) == ClosureJoin(Frag(old(nodes), innerStart, innerEnd))
    {
      start := NewNode();
      end := NewNode();
      AddEpsilonClosureTransition(start, innerStart);
      AddEpsilonClosureTransition(start, end);
      AddEpsilonClosureTransition(innerEnd, innerStart);
      AddEpsilonClosureTransition(innerEnd, end);
    }
  }


  // ---------------------------------------------------------------------
  // What each `Build` adds to the arena.

  lemma ExtendsTrans(a: Graph, b: Graph, c: Graph)
    requires Extends(c, b) && Extends(b, a)
    ensures Extends(c, a)
  {
  }

  /** A build on top of `g` leaves the nodes of `g` as they were. */
  lemma {:induction false} KeepsOld(r: Regex, g: Graph)
    ensures Extends(Thompson(r, g).g, g)
    decreases r, 1
  {
    match r
    case Eps =>
    case Char(c) =>
    case Concat(a, b) => KeepsOldPair(a, b, g, r);
    case Alt(a, b) => KeepsOldPair(a, b, g, r);
    case Star(a) =>
      KeepsOld(a, g);
      KeepsClosure(Thompson(a, g), g);
  }

  lemma {:induction false} KeepsOldPair(a: Regex, b: Regex, g: Graph, r: Regex)
    requires r == Concat(a, b) || r == Alt(a, b)
    ensures Extends(Thompson(r, g).g, g)
    decreases r, 0
  {
    var fa := Thompson(a, g);
    KeepsOld(a, g);
    KeepsOld(b, fa.g);
    ExtendsTrans(g, fa.g, Thompson(b, fa.g).g);
    if r == Concat(a, b) {
      KeepsConcat(fa, Thompson(b, fa.g), g);
    } else {
      KeepsAlternate(fa, Thompson(b, fa.g), g);
    }
  }

  lemma KeepsConcat(fa: Frag, fb: Frag, g: Graph)
    requires |g| <= fa.end < |fb.g| && Extends(fb.g, g)
    ensures Extends(ConcatJoin(fa, fb).g, g)
  {
  }

  lemma KeepsAlternate(fa: Frag, fb: Frag, g: Graph)
    requires |g| <= fa.end < |fb.g| && |g| <= fb.end < |fb.g| && Extends(fb.g, g)
    ensures Extends(AlternateJoin(fa, fb).g, g)
  {
  }

  lemma KeepsClosure(fa: Frag, g: Graph)
    requires |g| <= fa.end < |fa.g| && Extends(fa.g, g)
    ensures Extends(ClosureJoin(fa).g, g)
  {
  }

  /** `EplisionNode.Build`: two fresh nodes, one epsilon edge start -> end, no character edge. */
  lemma EpsilonShape(g: Graph)
    ensures var f := Thompson(Eps, g);
      |f.g| == |g| + 2 && f.start == |g| && f.end == |g| + 1 &&
      f.g[f.start] == NfaNode(map[], {f.end})
  {
  }

  /** `CharacterNode.Build`: two fresh nodes and exactly one transition start -> end on `c`. */
  lemma CharacterShape(g: Graph, c: char)
    ensures var f := Thompson(Char(c), g);
      |f.g| == |g| + 2 && f.start == |g| && f.end == |g| + 1 &&
      f.g[f.start] == NfaNode(map[c := {f.end}], {})
  {
  }

  lemma ConcatJoinShape(fa: Frag, fb: Frag)
    requires fa.end < |fb.g| && fb.g[fa.end] == Blank
    ensures var f := ConcatJoin(fa, fb);
      f.g[fa.end] == NfaNode(map[], {fb.start}) &&
      forall k :: 0 <= k < |fb.g| && k != fa.end ==> f.g[k] == fb.g[k]
  {
  }

  /**
   * `ConcatNode.Build`: returns (left start, right end); the only change to
   * the two sub-fragments is the epsilon edge left end -> right start.
   */
  lemma ConcatShape(a: Regex, b: Regex, g: Graph)
    ensures var fa := Thompson(a, g); var fb := Thompson(b, fa.g);
      var f := Thompson(Concat(a, b), g);
      f.start == fa.start && f.end == fb.end && |f.g| == |fb.g| &&
      f.g[fa.end] == NfaNode(map[], {fb.start}) &&
      forall k :: 0 <= k < |fb.g| && k != fa.end ==> f.g[k] == fb.g[k]
  {
    var fa := Thompson(a, g);
    KeepsOld(b, fa.g);
    ConcatJoinShape(fa, Thompson(b, fa.g));
  }

  lemma AlternateJoinShape(fa: Frag, fb: Frag)
    requires fa.end < |fb.g| && fb.end < |fb.g| && fa.end != fb.end
    requires fb.g[fa.end] == Blank && fb.g[fb.end] == Blank
    ensures var f := AlternateJoin(fa, fb);
      f.g[f.start] == NfaNode(map[], {fa.start, fb.start}) &&
      f.g[fa.end] == NfaNode(map[], {f.end}) &&
      f.g[fb.end] == NfaNode(map[], {f.end}) &&
      f.g[f.end] == Blank &&
      forall k :: 0 <= k < |fb.g| && k != fa.end && k != fb.end ==> f.g[k] == fb.g[k]
  {
    var s := |fb.g|;
    var h := Link(Link(fb.g + [Blank], s, fa.start), s, fb.start);
    assert h[s] == NfaNode(map[], {fa.start, fb.start});
    assert forall k :: 0 <= k < s ==> h[k] == fb.g[k];
    var j := Link(h + [Blank], fa.end, s + 1);
    assert j[fa.end] == NfaNode(map[], {s + 1});
    assert forall k :: 0 <= k <= s && k != fa.end ==> j[k] == h[k];
  }

  /**
   * `AlternateNode.Build`: a fresh start with epsilon edges to both starts,
   * a fresh end reached by epsilon from both ends, nothing else changed.
   */
  lemma AlternateShape(a: Regex, b: Regex, g: Graph)
    ensures var fa := Thompson(a, g); var fb := Thompson(b, fa.g);
      var f := Thompson(Alt(a, b), g);
      |f.g| == |fb.g| + 2 && f.start == |fb.g| && f.end == |fb.g| + 1 &&
      f.g[f.start] == NfaNode(map[], {fa.start, fb.start}) &&
      f.g[fa.end] == NfaNode(map[], {f.end}) &&
      f.g[fb.end] == NfaNode(map[], {f.end}) &&
      forall k :: 0 <= k < |fb.g| && k != fa.end && k != fb.end ==> f.g[k] == fb.g[k]
  {
    var fa := Thompson(a, g);
    KeepsOld(b, fa.g);
    AlternateJoinShape(fa, Thompson(b, fa.g));
  }

  lemma ClosureJoinShape(fa: Frag)
    requires fa.end < |fa.g| && fa.g[fa.end] == Blank
    ensures var f := ClosureJoin(fa);
      f.g[f.start] == NfaNode(map[], {fa.start, f.end}) &&
      f.g[fa.end] == NfaNode(map[], {fa.start, f.end}) &&
      f.g[f.end] == Blank &&
      forall k :: 0 <= k < |fa.g| && k != fa.end ==> f.g[k] == fa.g[k]
  {
    var s := |fa.g|;
    var h := Link(Link(fa.g + [Blank] + [Blank], s, fa.start), s, s + 1);
    assert h[s] == NfaNode(map[], {fa.start, s + 1});
    assert forall k :: 0 <= k < s ==> h[k] == fa.g[k];
  }

  /**
   * `ClosureNode.Build`: fresh start and end; start -> inner start, start -> end,
   * inner end -> inner start and inner end -> end, nothing else changed.
   */
  lemma ClosureShape(a: Regex, g: Graph)
    ensures var fa := Thompson(a, g); var f := Thompson(Star(a), g);
      |f.g| == |fa.g| + 2 && f.start == |fa.g| && f.end == |fa.g| + 1 &&
      f.g[f.start] == NfaNode(map[], {fa.start, f.end}) &&
      f.g[fa.end] == NfaNode(map[], {fa.start, f.end}) &&
      forall k :: 0 <= k < |fa.g| && k != fa.end ==> f.g[k] == fa.g[k]
  {
    ClosureJoinShape(Thompson(a, g));
  }

  lemma EdgesAddEps(n: NfaNode, t: nat, lo: nat, hi: nat)
    requires EdgesWithin(n, lo, hi) && lo <= t < hi
    ensures EdgesWithin(AddEps(n, t), lo, hi)
  {
  }

  lemma EdgesOf(targets: set<nat>, lo: nat, hi: nat)
    requires forall t :: t in targets ==> lo <= t < hi
    ensures EdgesWithin(NfaNode(map[], targets), lo, hi)
  {
  }

  lemma ConcatJoinConfined(fa: Frag, fb: Frag, lo: nat)
    requires lo <= fa.end < |fa.g| <= fb.start < |fb.g| && fa.g[fa.end] == Blank
    requires Extends(fb.g, fa.g) && Confined(fa.g, lo, |fa.g|) && Confined(fb.g, |fa.g|, |fb.g|)
    ensures Confined(ConcatJoin(fa, fb).g, lo, |ConcatJoin(fa, fb).g|)
  {
    var f := ConcatJoin(fa, fb);
    ConcatJoinShape(fa, fb);
    forall k | lo <= k < |fb.g| ensures EdgesWithin(f.g[k], lo, |fb.g|) {
      if k == fa.end {
        EdgesOf({fb.start}, lo, |fb.g|);
      } else if k < |fa.g| {
        EdgesWiden(fa.g[k], lo, |fa.g|, lo, |fb.g|);
      } else {
        EdgesWiden(fb.g[k], |fa.g|, |fb.g|, lo, |fb.g|);
      }
    }
  }

  lemma AlternateJoinConfined(fa: Frag, fb: Frag, lo: nat)
    requires lo <= fa.start < |fa.g| && lo <= fa.end < |fa.g| && fa.g[fa.end] == Blank
    requires |fa.g| <= fb.start < |fb.g| && |fa.g| <= fb.end < |fb.g| && fb.g[fb.end] == Blank
    requires Extends(fb.g, fa.g) && Confined(fa.g, lo, |fa.g|) && Confined(fb.g, |fa.g|, |fb.g|)
    ensures Confined(AlternateJoin(fa, fb).g, lo, |AlternateJoin(fa, fb).g|)
  {
    var f := AlternateJoin(fa, fb);
    var hi := |fb.g| + 2;
    AlternateJoinShape(fa, fb);
    forall k | lo <= k < hi ensures EdgesWithin(f.g[k], lo, hi) {
      if k == f.start {
        EdgesOf({fa.start, fb.start}, lo, hi);
      } else if k == fa.end || k == fb.end {
        EdgesOf({f.end}, lo, hi);
      } else if k == f.end {
      } else if k < |fa.g| {
        EdgesWiden(fa.g[k], lo, |fa.g|, lo, hi);
      } else {
        EdgesWiden(fb.g[k], |fa.g|, |fb.g|, lo, hi);
      }
    }
  }

  lemma ClosureJoinConfined(fa: Frag, lo: nat)
    requires lo <= fa.start < |fa.g| && lo <= fa.end < |fa.g| && fa.g[fa.end] == Blank
    requires Confined(fa.g, lo, |fa.g|)
    ensures Confined(ClosureJoin(fa).g, lo, |ClosureJoin(fa).g|)
  {
    var f := ClosureJoin(fa);
    var hi := |fa.g| + 2;
    ClosureJoinShape(fa);
    forall k | lo <= k < hi ensures EdgesWithin(f.g[k], lo, hi) {
      if k == f.start || k == fa.end {
        EdgesOf({fa.start, f.end}, lo, hi);
      } else if k == f.end {
      } else {
        EdgesWiden(fa.g[k], lo, |fa.g|, lo, hi);
      }
    }
  }

  /** The edges of the nodes a build creates stay among those nodes. */
  lemma {:induction false} ThompsonConfined(r: Regex, g: Graph)
    ensures Confined(Thompson(r, g).g, |g|, |Thompson(r, g).g|)
    decreases r, 1
  {
    match r
    case Eps => EpsilonShape(g);
    case Char(c) => CharacterShape(g, c);
    case Concat(a, b) => ConfinedConcat(a, b, g);
    case Alt(a, b) => ConfinedAlternate(a, b, g);
    case Star(a) =>
      ThompsonConfined(a, g);
      ClosureJoinConfined(Thompson(a, g), |g|);
  }

  lemma {:induction false} ConfinedConcat(a: Regex, b: Regex, g: Graph)
    ensures Confined(Thompson(Concat(a, b), g).g, |g|, |Thompson(Concat(a, b), g).g|)
    decreases Concat(a, b), 0
  {
    var fa := Thompson(a, g);
    ThompsonConfined(a, g);
    ThompsonConfined(b, fa.g);
    KeepsOld(b, fa.g);
    var fb := Thompson(b, fa.g);
    assert Thompson(Concat(a, b), g) == ConcatJoin(fa, fb);
    ConcatJoinConfined(fa, fb, |g|);
  }

  lemma {:induction false} ConfinedAlternate(a: Regex, b: Regex, g: Graph)
    ensures Confined(Thompson(Alt(a, b), g).g, |g|, |Thompson(Alt(a, b), g).g|)
    decreases Alt(a, b), 0
  {
    var fa := Thompson(a, g);
    ThompsonConfined(a, g);
    ThompsonConfined(b, fa.g);
    KeepsOld(b, fa.g);
    var fb := Thompson(b, fa.g);
    assert Thompson(Alt(a, b), g) == AlternateJoin(fa, fb);
    AlternateJoinConfined(fa, fb, |g|);
  }

  /** Building on a well-formed arena leaves it well-formed. */
  lemma ThompsonWellFormed(r: Regex, g: Graph)
    requires WellFormed(g)
    ensures WellFormed(Thompson(r, g).g)
  {
    var f := Thompson(r, g);
    ThompsonConfined(r, g);
    KeepsOld(r, g);
    forall k | 0 <= k < |f.g| ensures EdgesWithin(f.g[k], 0, |f.g|) {
      if k < |g| {
        EdgesWiden(g[k], 0, |g|, 0, |f.g|);
      } else {
        EdgesWiden(f.g[k], |g|, |f.g|, 0, |f.g|);
      }
    }
  }
}
