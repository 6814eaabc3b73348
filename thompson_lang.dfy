/**
 * The language of a Thompson NFA: a run from the fragment's start to its end
 * reading `w` exists exactly when `w` is in the pattern's language.
 */
module ThompsonLanguage {
  import opened RegexAst
  import opened Nfa

  /** Epsilon successors of node `i` (none for a node outside the arena). */
  function EpsOf(g: Graph, i: nat): set<nat>
  {
    if i < |g| then g[i].eps else {}
  }

  /** Successors of node `i` on symbol `c`. */
  function SuccOf(g: Graph, i: nat, c: char): set<nat>
  {
    if i < |g| && c in g[i].trans then g[i].trans[c] else {}
  }

  /** A run of at most `n` edges from `i` to `j` reading exactly `w`. */
  ghost predicate Path(g: Graph, i: nat, j: nat, w: string, n: nat)
    decreases n
  {
    (i == j && w == []) ||
    (n > 0 &&
      ((exists k :: k in EpsOf(g, i) && Path(g, k, j, w, n - 1)) ||
       (w != [] && exists k :: k in SuccOf(g, i, w[0]) && Path(g, k, j, w[1..], n - 1))))
  }

  /** The NFA (start `s`, accepting node `e`) accepts `w`. */
  ghost predicate Accepts(g: Graph, s: nat, e: nat, w: string)
  {
    exists n :: Path(g, s, e, w, n)
  }

  /** A run that stops at its first visit of `t`. */
  ghost predicate Walk(g: Graph, i: nat, t: nat, w: string, n: nat)
    decreases n
  {
    if i == t then
      w == []
    else
      n > 0 &&
      ((exists k :: k in EpsOf(g, i) && Walk(g, k, t, w, n - 1)) ||
       (w != [] && exists k :: k in SuccOf(g, i, w[0]) && Walk(g, k, t, w[1..], n - 1)))
  }

  /** Every edge of `h` is an edge of `G`. */
  ghost predicate Sub(h: Graph, G: Graph)
  {
    |h| <= |G| &&
    forall k :: 0 <= k < |h| ==>
      h[k].eps <= G[k].eps &&
      forall c :: c in h[k].trans ==> c in G[k].trans && h[k].trans[c] <= G[k].trans[c]
  }

  // ---------------------------------------------------------------------
  // Runs: one-step introduction, composition, fuel, more edges.

  lemma EpsStep(g: Graph, i: nat, k: nat, j: nat, w: string, n: nat)
    requires k in EpsOf(g, i) && Path(g, k, j, w, n)
    ensures Path(g, i, j, w, n + 1)
  {
  }

  lemma CharStep(g: Graph, i: nat, k: nat, j: nat, c: char, w: string, n: nat)
    requires k in SuccOf(g, i, c) && Path(g, k, j, w, n)
    ensures Path(g, i, j, [c] + w, n + 1)
  {
    assert ([c] + w)[0] == c && ([c] + w)[1..] == w;
  }

  lemma {:induction false} PathFuel(g: Graph, i: nat, j: nat, w: string, n: nat, m: nat)
    requires Path(g, i, j, w, n) && n <= m
    ensures Path(g, i, j, w, m)
    decreases n
  {
    if i == j && w == [] {
    } else if k :| k in EpsOf(g, i) && Path(g, k, j, w, n - 1) {
      PathFuel(g, k, j, w, n - 1, m - 1);
    } else {
      var k :| k in SuccOf(g, i, w[0]) && Path(g, k, j, w[1..], n - 1);
      PathFuel(g, k, j, w[1..], n - 1, m - 1);
    }
  }

  /** Runs compose: `i -u-> j` then `j -v-> k` is `i -(u + v)-> k`. */
  lemma {:induction false} PathConcat(g: Graph, i: nat, j: nat, k: nat, u: string, v: string, n1: nat, n2: nat)
    requires Path(g, i, j, u, n1) && Path(g, j, k, v, n2)
    ensures Path(g, i, k, u + v, n1 + n2)
    decreases n1
  {
    if i == j && u == [] {
      assert u + v == v;
      PathFuel(g, j, k, v, n2, n1 + n2);
    } else if m :| m in EpsOf(g, i) && Path(g, m, j, u, n1 - 1) {
      PathConcat(g, m, j, k, u, v, n1 - 1, n2);
    } else {
      var m :| m in SuccOf(g, i, u[0]) && Path(g, m, j, u[1..], n1 - 1);
      PathConcat(g, m, j, k, u[1..], v, n1 - 1, n2);
      assert (u + v)[0] == u[0] && (u + v)[1..] == u[1..] + v;
    }
  }

  lemma {:induction false} PathMono(h: Graph, G: Graph, i: nat, j: nat, w: string, n: nat)
    requires Sub(h, G) && Path(h, i, j, w, n)
    ensures Path(G, i, j, w, n)
    decreases n
  {
    if i == j && w == [] {
    } else if k :| k in EpsOf(h, i) && Path(h, k, j, w, n - 1) {
      PathMono(h, G, k, j, w, n - 1);
      assert k in EpsOf(G, i);
    } else {
      var k :| k in SuccOf(h, i, w[0]) && Path(h, k, j, w[1..], n - 1);
      PathMono(h, G, k, j, w[1..], n - 1);
      assert k in SuccOf(G, i, w[0]);
    }
  }

  lemma SubTrans(a: Graph, b: Graph, c: Graph)
    requires Sub(a, b) && Sub(b, c)
    ensures Sub(a, c)
  {
  }

  lemma SubOfExtends(h: Graph, G: Graph)
    requires Extends(G, h)
    ensures Sub(h, G)
  {
  }

  lemma SubConcatJoin(fa: Frag, fb: Frag)
    requires fa.end < |fb.g| && Extends(fb.g, fa.g)
    ensures Sub(fa.g, ConcatJoin(fa, fb).g) && Sub(fb.g, ConcatJoin(fa, fb).g)
  {
  }

  lemma SubAlternateJoin(fa: Frag, fb: Frag)
    requires fa.end < |fb.g| && fb.end < |fb.g| && Extends(fb.g, fa.g)
    ensures Sub(fa.g, AlternateJoin(fa, fb).g) && Sub(fb.g, AlternateJoin(fa, fb).g)
  {
    var f := AlternateJoin(fa, fb);
    forall k | 0 <= k < |fb.g| ensures fb.g[k].eps <= f.g[k].eps && fb.g[k].trans == f.g[k].trans {
    }
  }

  lemma SubClosureJoin(fa: Frag)
    requires fa.end < |fa.g|
    ensures Sub(fa.g, ClosureJoin(fa).g)
  {
    var f := ClosureJoin(fa);
    forall k | 0 <= k < |fa.g| ensures fa.g[k].eps <= f.g[k].eps && fa.g[k].trans == f.g[k].trans {
    }
  }

  /** The arena of a concatenation contains all edges of both sub-builds. */
  lemma SubConcat(a: Regex, b: Regex, g: Graph)
    ensures Sub(Thompson(a, g).g, Thompson(Concat(a, b), g).g)
    ensures Sub(Thompson(b, Thompson(a, g).g).g, Thompson(Concat(a, b), g).g)
  {
    var fa := Thompson(a, g);
    var fb := Thompson(b, fa.g);
    KeepsOld(b, fa.g);
    SubConcatJoin(fa, fb);
    assert Thompson(Concat(a, b), g) == ConcatJoin(fa, fb);
  }

  /** The arena of an alternation contains all edges of both sub-builds. */
  lemma SubAlternate(a: Regex, b: Regex, g: Graph)
    ensures Sub(Thompson(a, g).g, Thompson(Alt(a, b), g).g)
    ensures Sub(Thompson(b, Thompson(a, g).g).g, Thompson(Alt(a, b), g).g)
  {
    var fa := Thompson(a, g);
    var fb := Thompson(b, fa.g);
    KeepsOld(b, fa.g);
    SubAlternateJoin(fa, fb);
    assert Thompson(Alt(a, b), g) == AlternateJoin(fa, fb);
  }

  lemma SubInner(a: Regex, g: Graph)
    ensures Sub(Thompson(a, g).g, Thompson(Star(a), g).g)
  {
    SubClosureJoin(Thompson(a, g));
  }

  // ---------------------------------------------------------------------
  // Completeness: every word of the pattern labels a run start -> end.

  lemma {:induction false} Complete(r: Regex, g: Graph, w: string) returns (n: nat)
    requires Matches(r, w)
    ensures Path(Thompson(r, g).g, Thompson(r, g).start, Thompson(r, g).end, w, n)
    decreases r, |w|, 1
  {
    match r
    case Eps => n := CompleteEpsilon(g, w);
    case Char(c) => n := CompleteCharacter(g, c, w);
    case Concat(a, b) =>
      var k :| 0 <= k <= |w| && Matches(a, w[..k]) && Matches(b, w[k..]);
      n := CompleteConcat(a, b, g, w[..k], w[k..]);
      assert w[..k] + w[k..] == w;
    case Alt(a, b) => n := CompleteAlternate(a, b, g, w);
    case Star(a) => n := CompleteClosure(a, g, w);
  }

  lemma CompleteEpsilon(g: Graph, w: string) returns (n: nat)
    requires w == []
    ensures var f := Thompson(Eps, g); Path(f.g, f.start, f.end, w, n)
  {
    var f := Thompson(Eps, g);
    EpsilonShape(g);
    EpsStep(f.g, f.start, f.end, f.end, w, 0);
    n := 1;
  }

  lemma CompleteCharacter(g: Graph, c: char, w: string) returns (n: nat)
    requires w == [c]
    ensures var f := Thompson(Char(c), g); Path(f.g, f.start, f.end, w, n)
  {
    var f := Thompson(Char(c), g);
    CharacterShape(g, c);
    assert f.end in SuccOf(f.g, f.start, c);
    CharStep(f.g, f.start, f.end, f.end, c, [], 0);
    assert [c] + [] == w;
    n := 1;
  }

  lemma {:induction false} CompleteClosure(a: Regex, g: Graph, w: string) returns (n: nat)
    requires Matches(Star(a), w)
    ensures var f := Thompson(Star(a), g); Path(f.g, f.start, f.end, w, n)
    decreases Star(a), |w|, 0
  {
    var fa := Thompson(a, g);
    var f := Thompson(Star(a), g);
    ClosureEdges(a, g);
    if w == [] {
      EpsStep(f.g, f.start, f.end, f.end, w, 0);
      n := 1;
    } else {
      var k :| 0 < k <= |w| && Matches(a, w[..k]) && Matches(Star(a), w[k..]);
      var n1 := CompleteInner(a, g, w[..k]);
      var n2 := CompleteLoop(a, g, w[k..]);
      n := Enter(f.g, f.start, fa.start, fa.end, f.end, w, k, n1, n2);
    }
  }

  /** The epsilon edges a closure adds around its inner fragment. */
  lemma ClosureEdges(a: Regex, g: Graph)
    ensures var fa := Thompson(a, g); var f := Thompson(Star(a), g);
      fa.start in EpsOf(f.g, f.start) && f.end in EpsOf(f.g, f.start) &&
      fa.start in EpsOf(f.g, fa.end) && f.end in EpsOf(f.g, fa.end)
  {
    ClosureShape(a, g);
  }

  /** A run of the inner fragment is a run of the closure's arena. */
  lemma {:induction false} CompleteInner(a: Regex, g: Graph, u: string) returns (n: nat)
    requires Matches(a, u)
    ensures Path(Thompson(Star(a), g).g, Thompson(a, g).start, Thompson(a, g).end, u, n)
    decreases a, |u|, 2
  {
    var fa := Thompson(a, g);
    var m := Complete(a, g, u);
    SubInner(a, g);
    PathMono(fa.g, Thompson(Star(a), g).g, fa.start, fa.end, u, m);
    n := m;
  }

  /** An epsilon edge `s -> i`, then a run `i -> j` on a prefix of `w` and `j -> e` on the rest. */
  lemma Enter(G: Graph, s: nat, i: nat, j: nat, e: nat, w: string, k: nat, n1: nat, n2: nat) returns (n: nat)
    requires k <= |w| && i in EpsOf(G, s)
    requires Path(G, i, j, w[..k], n1) && Path(G, j, e, w[k..], n2)
    ensures Path(G, s, e, w, n)
  {
    PathConcat(G, i, j, e, w[..k], w[k..], n1, n2);
    assert w[..k] + w[k..] == w;
    EpsStep(G, s, i, e, w, n1 + n2);
    n := n1 + n2 + 1;
  }

  lemma {:induction false} CompleteConcat(a: Regex, b: Regex, g: Graph, u: string, v: string) returns (n: nat)
    requires Matches(a, u) && Matches(b, v)
    ensures var f := Thompson(Concat(a, b), g); Path(f.g, f.start, f.end, u + v, n)
    decreases Concat(a, b), |u + v|, 0
  {
    var fa := Thompson(a, g);
    var fb := Thompson(b, fa.g);
    var f := Thompson(Concat(a, b), g);
    var n1 := Complete(a, g, u);
    var n2 := Complete(b, fa.g, v);
    SubConcat(a, b, g);
    PathMono(fa.g, f.g, fa.start, fa.end, u, n1);
    PathMono(fb.g, f.g, fb.start, fb.end, v, n2);
    ConcatShape(a, b, g);
    EpsStep(f.g, fa.end, fb.start, fb.end, v, n2);
    PathConcat(f.g, fa.start, fa.end, fb.end, u, v, n1, n2 + 1);
    n := n1 + n2 + 1;
  }

  lemma {:induction false} CompleteAlternate(a: Regex, b: Regex, g: Graph, w: string) returns (n: nat)
    requires Matches(Alt(a, b), w)
    ensures var f := Thompson(Alt(a, b), g); Path(f.g, f.start, f.end, w, n)
    decreases Alt(a, b), |w|, 0
  {
    var fa := Thompson(a, g);
    var fb := Thompson(b, fa.g);
    var f := Thompson(Alt(a, b), g);
    SubAlternate(a, b, g);
    AlternateShape(a, b, g);
    if Matches(a, w) {
      var m := Complete(a, g, w);
      PathMono(fa.g, f.g, fa.start, fa.end, w, m);
      n := Detour(f.g, f.start, fa.start, fa.end, f.end, w, m);
    } else {
      var m := Complete(b, fa.g, w);
      PathMono(fb.g, f.g, fb.start, fb.end, w, m);
      n := Detour(f.g, f.start, fb.start, fb.end, f.end, w, m);
    }
  }

  /** A run `i -w-> j` framed by epsilon edges `s -> i` and `j -> e`. */
  lemma Detour(G: Graph, s: nat, i: nat, j: nat, e: nat, w: string, m: nat) returns (n: nat)
    requires i in EpsOf(G, s) && e in EpsOf(G, j) && Path(G, i, j, w, m)
    ensures Path(G, s, e, w, n)
  {
    EpsStep(G, j, e, e, [], 0);
    PathConcat(G, i, j, e, w, [], m, 1);
    assert w + [] == w;
    EpsStep(G, s, i, e, w, m + 1);
    n := m + 2;
  }

  /** In a closure, every word of `Star(a)` labels a run from the inner end to the end. */
  lemma {:induction false} CompleteLoop(a: Regex, g: Graph, v: string) returns (n: nat)
    requires Matches(Star(a), v)
    ensures var f := Thompson(Star(a), g); Path(f.g, Thompson(a, g).end, f.end, v, n)
    decreases Star(a), |v|, 0
  {
    var fa := Thompson(a, g);
    var f := Thompson(Star(a), g);
    ClosureEdges(a, g);
    if v == [] {
      EpsStep(f.g, fa.end, f.end, f.end, v, 0);
      n := 1;
    } else {
      var k :| 0 < k <= |v| && Matches(a, v[..k]) && Matches(Star(a), v[k..]);
      var n1 := CompleteInner(a, g, v[..k]);
      var n2 := CompleteLoop(a, g, v[k..]);
      n := Enter(f.g, fa.end, fa.start, fa.end, f.end, v, k, n1, n2);
    }
  }

  // ---------------------------------------------------------------------
  // Soundness: a run start -> end of a fragment reads a word of its pattern,
  // even inside a larger arena that may add edges out of the fragment's end.

  /** `G` has the nodes of `h` on `[lo, hi)`, except perhaps node `x`. */
  ghost predicate Agree(G: Graph, h: Graph, lo: nat, hi: nat, x: nat)
  {
    hi <= |G| && hi <= |h| && forall k :: lo <= k < hi && k != x ==> G[k] == h[k]
  }

  /** The nodes of `[lo, hi)` other than `e` have their edges inside `[lo, hi)`. */
  ghost predicate ConfinedBut(G: Graph, lo: nat, hi: nat, e: nat)
  {
    hi <= |G| && forall k :: lo <= k < hi && k != e ==> EdgesWithin(G[k], lo, hi)
  }

  /** A walk that leaves a confined region passes through its exit `e`. */
  lemma {:induction false} Exit(G: Graph, lo: nat, hi: nat, e: nat, i: nat, t: nat, w: string, n: nat)
    returns (k: nat, n1: nat, n2: nat)
    requires ConfinedBut(G, lo, hi, e) && lo <= i < hi && lo <= e < hi && !(lo <= t < hi)
    requires Walk(G, i, t, w, n)
    ensures k <= |w| && n2 <= n && Walk(G, i, e, w[..k], n1) && Walk(G, e, t, w[k..], n2)
    decreases n
  {
    if i == e {
      k, n1, n2 := 0, 0, n;
      assert w[..0] == [] && w[0..] == w;
    } else if m :| m in EpsOf(G, i) && Walk(G, m, t, w, n - 1) {
      var k', m1, m2 := Exit(G, lo, hi, e, m, t, w, n - 1);
      k, n1, n2 := k', m1 + 1, m2;
    } else {
      var m :| m in SuccOf(G, i, w[0]) && Walk(G, m, t, w[1..], n - 1);
      var k', m1, m2 := Exit(G, lo, hi, e, m, t, w[1..], n - 1);
      k, n1, n2 := k' + 1, m1 + 1, m2;
      assert w[..k][0] == w[0] && w[..k][1..] == w[1..][..k'];
      assert w[k..] == w[1..][k'..];
    }
  }

  lemma EmptyWalk(G: Graph, e: nat, w: string, n: nat)
    requires Walk(G, e, e, w, n)
    ensures w == []
  {
  }

  /** A walk out of a node whose only edges are epsilon edges to `targets`. */
  lemma EpsOnlyStep(G: Graph, i: nat, t: nat, w: string, n: nat, targets: set<nat>)
    returns (m: nat)
    requires i < |G| && G[i] == NfaNode(map[], targets) && i != t && Walk(G, i, t, w, n)
    ensures n > 0 && m in targets && Walk(G, m, t, w, n - 1)
  {
    m :| m in EpsOf(G, i) && Walk(G, m, t, w, n - 1);
  }

  /** A walk to `e` entering it only from `x`, whose sole edge is epsilon to `e`. */
  lemma BranchExit(G: Graph, lo: nat, hi: nat, i: nat, x: nat, e: nat, w: string, n: nat)
    returns (n1: nat)
    requires ConfinedBut(G, lo, hi, x) && lo <= i < hi && lo <= x < hi && !(lo <= e < hi)
    requires G[x] == NfaNode(map[], {e}) && Walk(G, i, e, w, n)
    ensures Walk(G, i, x, w, n1)
  {
    var k, m1, m2 := Exit(G, lo, hi, x, i, e, w, n);
    var m := EpsOnlyStep(G, x, e, w[k..], m2, {e});
    EmptyWalk(G, e, w[k..], m2 - 1);
    assert w[..k] == w;
    n1 := m1;
  }

  lemma ConfinedFromAgree(G: Graph, h: Graph, lo: nat, hi: nat, x: nat)
    requires Agree(G, h, lo, hi, x) && Confined(h, lo, hi)
    ensures ConfinedBut(G, lo, hi, x)
  {
  }

  lemma ConcatJoinRegions(fa: Frag, fb: Frag, lo: nat, G: Graph)
    requires lo <= fa.end < |fa.g| <= fb.end < |fb.g| && fa.g[fa.end] == Blank && Extends(fb.g, fa.g)
    requires Confined(fa.g, lo, |fa.g|)
    requires Agree(G, ConcatJoin(fa, fb).g, lo, |fb.g|, fb.end)
    ensures Agree(G, fa.g, lo, |fa.g|, fa.end) && ConfinedBut(G, lo, |fa.g|, fa.end)
    ensures Agree(G, fb.g, |fa.g|, |fb.g|, fb.end)
    ensures G[fa.end] == NfaNode(map[], {fb.start})
  {
    ConfinedFromAgree(G, fa.g, lo, |fa.g|, fa.end);
  }

  lemma AlternateJoinRegions(fa: Frag, fb: Frag, lo: nat, G: Graph)
    requires lo <= fa.end < |fa.g| <= fb.end < |fb.g| && fa.g[fa.end] == Blank && fb.g[fb.end] == Blank
    requires Extends(fb.g, fa.g) && Confined(fa.g, lo, |fa.g|) && Confined(fb.g, |fa.g|, |fb.g|)
    requires Agree(G, AlternateJoin(fa, fb).g, lo, |fb.g| + 2, |fb.g| + 1)
    ensures Agree(G, fa.g, lo, |fa.g|, fa.end) && ConfinedBut(G, lo, |fa.g|, fa.end)
    ensures Agree(G, fb.g, |fa.g|, |fb.g|, fb.end) && ConfinedBut(G, |fa.g|, |fb.g|, fb.end)
    ensures G[AlternateJoin(fa, fb).start] == NfaNode(map[], {fa.start, fb.start})
    ensures G[fa.end] == NfaNode(map[], {AlternateJoin(fa, fb).end})
    ensures G[fb.end] == NfaNode(map[], {AlternateJoin(fa, fb).end})
  {
    AlternateJoinShape(fa, fb);
    ConfinedFromAgree(G, fa.g, lo, |fa.g|, fa.end);
    ConfinedFromAgree(G, fb.g, |fa.g|, |fb.g|, fb.end);
  }

  lemma ClosureJoinRegions(fa: Frag, lo: nat, G: Graph)
    requires lo <= fa.end < |fa.g| && fa.g[fa.end] == Blank && Confined(fa.g, lo, |fa.g|)
    requires Agree(G, ClosureJoin(fa).g, lo, |fa.g| + 2, |fa.g| + 1)
    ensures Agree(G, fa.g, lo, |fa.g|, fa.end) && ConfinedBut(G, lo, |fa.g|, fa.end)
    ensures G[ClosureJoin(fa).start] == NfaNode(map[], {fa.start, ClosureJoin(fa).end})
    ensures G[fa.end] == NfaNode(map[], {fa.start, ClosureJoin(fa).end})
  {
    ClosureJoinShape(fa);
    ConfinedFromAgree(G, fa.g, lo, |fa.g|, fa.end);
  }

  lemma ConcatRegions(a: Regex, b: Regex, g: Graph, G: Graph)
    requires var f := Thompson(Concat(a, b), g); Agree(G, f.g, |g|, |f.g|, f.end)
    ensures var fa := Thompson(a, g); Agree(G, fa.g, |g|, |fa.g|, fa.end) && ConfinedBut(G, |g|, |fa.g|, fa.end)
    ensures var fa := Thompson(a, g); var fb := Thompson(b, fa.g); Agree(G, fb.g, |fa.g|, |fb.g|, fb.end)
    ensures var fa := Thompson(a, g); G[fa.end] == NfaNode(map[], {Thompson(b, fa.g).start})
  {
    var fa := Thompson(a, g);
    var fb := Thompson(b, fa.g);
    KeepsOld(b, fa.g);
    ThompsonConfined(a, g);
    assert Thompson(Concat(a, b), g) == ConcatJoin(fa, fb);
    ConcatJoinRegions(fa, fb, |g|, G);
  }

  lemma AlternateRegions(a: Regex, b: Regex, g: Graph, G: Graph)
    requires var f := Thompson(Alt(a, b), g); Agree(G, f.g, |g|, |f.g|, f.end)
    ensures var fa := Thompson(a, g); Agree(G, fa.g, |g|, |fa.g|, fa.end) && ConfinedBut(G, |g|, |fa.g|, fa.end)
    ensures var fa := Thompson(a, g); var fb := Thompson(b, fa.g);
      Agree(G, fb.g, |fa.g|, |fb.g|, fb.end) && ConfinedBut(G, |fa.g|, |fb.g|, fb.end)
    ensures var fa := Thompson(a, g); var fb := Thompson(b, fa.g); var f := Thompson(Alt(a, b), g);
      G[f.start] == NfaNode(map[], {fa.start, fb.start}) &&
      G[fa.end] == NfaNode(map[], {f.end}) && G[fb.end] == NfaNode(map[], {f.end})
  {
    var fa := Thompson(a, g);
    var fb := Thompson(b, fa.g);
    KeepsOld(b, fa.g);
    ThompsonConfined(a, g);
    ThompsonConfined(b, fa.g);
    assert Thompson(Alt(a, b), g) == AlternateJoin(fa, fb);
    AlternateJoinRegions(fa, fb, |g|, G);
  }

  lemma ClosureRegions(a: Regex, g: Graph, G: Graph)
    requires var f := Thompson(Star(a), g); Agree(G, f.g, |g|, |f.g|, f.end)
    ensures var fa := Thompson(a, g); Agree(G, fa.g, |g|, |fa.g|, fa.end) && ConfinedBut(G, |g|, |fa.g|, fa.end)
    ensures var fa := Thompson(a, g); var f := Thompson(Star(a), g);
      G[f.start] == NfaNode(map[], {fa.start, f.end}) &&
      G[fa.end] == NfaNode(map[], {fa.start, f.end})
  {
    var fa := Thompson(a, g);
    ThompsonConfined(a, g);
    assert Thompson(Star(a), g) == ClosureJoin(fa);
    ClosureJoinRegions(fa, |g|, G);
  }

  lemma {:induction false} Sound(r: Regex, g: Graph, G: Graph, w: string, n: nat)
    requires var f := Thompson(r, g); Agree(G, f.g, |g|, |f.g|, f.end)
    requires Walk(G, Thompson(r, g).start, Thompson(r, g).end, w, n)
    ensures Matches(r, w)
    decreases r, 1, n
  {
    match r
    case Eps => SoundEpsilon(g, G, w, n);
    case Char(c) => SoundCharacter(g, c, G, w, n);
    case Concat(a, b) => SoundConcat(a, b, g, G, w, n);
    case Alt(a, b) => SoundAlternate(a, b, g, G, w, n);
    case Star(a) => SoundClosure(a, g, G, w, n);
  }

  lemma SoundEpsilon(g: Graph, G: Graph, w: string, n: nat)
    requires var f := Thompson(Eps, g); Agree(G, f.g, |g|, |f.g|, f.end)
    requires Walk(G, Thompson(Eps, g).start, Thompson(Eps, g).end, w, n)
    ensures w == []
  {
    var f := Thompson(Eps, g);
    EpsilonShape(g);
    var m := EpsOnlyStep(G, f.start, f.end, w, n, {f.end});
  }

  lemma SoundCharacter(g: Graph, c: char, G: Graph, w: string, n: nat)
    requires var f := Thompson(Char(c), g); Agree(G, f.g, |g|, |f.g|, f.end)
    requires Walk(G, Thompson(Char(c), g).start, Thompson(Char(c), g).end, w, n)
    ensures w == [c]
  {
    var f := Thompson(Char(c), g);
    CharacterShape(g, c);
    assert EpsOf(G, f.start) == {};
    var m :| m in SuccOf(G, f.start, w[0]) && Walk(G, m, f.end, w[1..], n - 1);
    assert w == [w[0]] + w[1..];
  }

  lemma {:induction false} SoundConcat(a: Regex, b: Regex, g: Graph, G: Graph, w: string, n: nat)
    requires var f := Thompson(Concat(a, b), g); Agree(G, f.g, |g|, |f.g|, f.end)
    requires Walk(G, Thompson(Concat(a, b), g).start, Thompson(Concat(a, b), g).end, w, n)
    ensures Matches(Concat(a, b), w)
    decreases Concat(a, b), 0, n
  {
    var fa := Thompson(a, g);
    var fb := Thompson(b, fa.g);
    ConcatRegions(a, b, g, G);
    var k, n1, n2 := Exit(G, |g|, |fa.g|, fa.end, fa.start, fb.end, w, n);
    Sound(a, g, G, w[..k], n1);
    var m := EpsOnlyStep(G, fa.end, fb.end, w[k..], n2, {fb.start});
    Sound(b, fa.g, G, w[k..], n2 - 1);
    ConcatAt(a, b, w, k);
  }

  lemma {:induction false} SoundAlternate(a: Regex, b: Regex, g: Graph, G: Graph, w: string, n: nat)
    requires var f := Thompson(Alt(a, b), g); Agree(G, f.g, |g|, |f.g|, f.end)
    requires Walk(G, Thompson(Alt(a, b), g).start, Thompson(Alt(a, b), g).end, w, n)
    ensures Matches(Alt(a, b), w)
    decreases Alt(a, b), 0, n
  {
    var fa := Thompson(a, g);
    var fb := Thompson(b, fa.g);
    var f := Thompson(Alt(a, b), g);
    AlternateRegions(a, b, g, G);
    var left, n1 := BranchSplit(G, |g|, |fa.g|, |fb.g|, f.start, fa.start, fa.end, fb.start, fb.end, f.end, w, n);
    if left {
      Sound(a, g, G, w, n1);
    } else {
      Sound(b, fa.g, G, w, n1);
    }
  }

  /** A walk through an alternation's start goes through exactly one of its two branches. */
  lemma BranchSplit(G: Graph, lo: nat, mid: nat, hi: nat, s: nat, i1: nat, x1: nat, i2: nat, x2: nat,
                    e: nat, w: string, n: nat)
    returns (left: bool, n1: nat)
    requires lo <= i1 < mid && lo <= x1 < mid && mid <= i2 < hi && mid <= x2 < hi && hi <= s && s != e
    requires hi <= e
    requires ConfinedBut(G, lo, mid, x1) && ConfinedBut(G, mid, hi, x2) && s < |G|
    requires G[s] == NfaNode(map[], {i1, i2}) && G[x1] == NfaNode(map[], {e}) && G[x2] == NfaNode(map[], {e})
    requires Walk(G, s, e, w, n)
    ensures left ==> Walk(G, i1, x1, w, n1)
    ensures !left ==> Walk(G, i2, x2, w, n1)
  {
    var m := EpsOnlyStep(G, s, e, w, n, {i1, i2});
    left := m == i1;
    if left {
      n1 := BranchExit(G, lo, mid, i1, x1, e, w, n - 1);
    } else {
      n1 := BranchExit(G, mid, hi, i2, x2, e, w, n - 1);
    }
  }

  lemma {:induction false} SoundClosure(a: Regex, g: Graph, G: Graph, w: string, n: nat)
    requires var f := Thompson(Star(a), g); Agree(G, f.g, |g|, |f.g|, f.end)
    requires Walk(G, Thompson(Star(a), g).start, Thompson(Star(a), g).end, w, n)
    ensures Matches(Star(a), w)
    decreases Star(a), 0, n
  {
    var fa := Thompson(a, g);
    var f := Thompson(Star(a), g);
    ClosureRegions(a, g, G);
    var m := EpsOnlyStep(G, f.start, f.end, w, n, {fa.start, f.end});
    if m == fa.start {
      var k, n1, n2 := Exit(G, |g|, |fa.g|, fa.end, fa.start, f.end, w, n - 1);
      Sound(a, g, G, w[..k], n1);
      SoundLoop(a, g, G, w[k..], n2);
      StarAt(a, w, k);
    } else {
      EmptyWalk(G, f.end, w, n - 1);
    }
  }

  /** In a closure, a walk from the inner end to the end reads a word of `Star(a)`. */
  lemma {:induction false} SoundLoop(a: Regex, g: Graph, G: Graph, v: string, n: nat)
    requires var f := Thompson(Star(a), g); Agree(G, f.g, |g|, |f.g|, f.end)
    requires Walk(G, Thompson(a, g).end, Thompson(Star(a), g).end, v, n)
    ensures Matches(Star(a), v)
    decreases Star(a), 0, n
  {
    var fa := Thompson(a, g);
    var f := Thompson(Star(a), g);
    ClosureRegions(a, g, G);
    var m := EpsOnlyStep(G, fa.end, f.end, v, n, {fa.start, f.end});
    if m == fa.start {
      var k, n1, n2 := Exit(G, |g|, |fa.g|, fa.end, fa.start, f.end, v, n - 1);
      Sound(a, g, G, v[..k], n1);
      SoundLoop(a, g, G, v[k..], n2);
      StarAt(a, v, k);
    } else {
      EmptyWalk(G, f.end, v, n - 1);
    }
  }

  lemma ConcatAt(a: Regex, b: Regex, w: string, k: nat)
    requires k <= |w| && Matches(a, w[..k]) && Matches(b, w[k..])
    ensures Matches(Concat(a, b), w)
  {
  }

  lemma StarAt(a: Regex, w: string, k: nat)
    requires k <= |w| && Matches(a, w[..k]) && Matches(Star(a), w[k..])
    ensures Matches(Star(a), w)
  {
    StarCons(a, w[..k], w[k..]);
    assert w[..k] + w[k..] == w;
  }

  /** Node `t` has no outgoing edge, so a run to `t` stops there. */
  lemma {:induction false} PathIsWalk(G: Graph, i: nat, t: nat, w: string, n: nat)
    requires t < |G| && G[t] == Blank && Path(G, i, t, w, n)
    ensures Walk(G, i, t, w, n)
    decreases n
  {
    if i == t {
      assert EpsOf(G, i) == {} && forall c :: SuccOf(G, i, c) == {};
    } else if k :| k in EpsOf(G, i) && Path(G, k, t, w, n - 1) {
      PathIsWalk(G, k, t, w, n - 1);
    } else {
      var k :| k in SuccOf(G, i, w[0]) && Path(G, k, t, w[1..], n - 1);
      PathIsWalk(G, k, t, w[1..], n - 1);
    }
  }

  /** The NFA `Build` produces for `r` accepts exactly the language of `r`. */
  lemma ThompsonCorrect(r: Regex, g: Graph, w: string)
    ensures var f := Thompson(r, g); Accepts(f.g, f.start, f.end, w) <==> Matches(r, w)
  {
    var f := Thompson(r, g);
    if Matches(r, w) {
      var n := Complete(r, g, w);
    }
    if Accepts(f.g, f.start, f.end, w) {
      var n :| Path(f.g, f.start, f.end, w, n);
      PathIsWalk(f.g, f.start, f.end, w, n);
      Sound(r, g, f.g, w, n);
    }
  }
}
