/**
 * FIRST sets of the LALR(1) generator: `GetFirst` for one symbol and
 * `ComputeFirst` for a sequence of symbols, with the cache `_firstCache`.
 *
 * `GetFirst` has no guard against a nonterminal that reaches itself
 * through nullable prefixes, and on such grammars it recurses without end.
 * The reference definitions below therefore take a `fuel` bound on the
 * nesting of nonterminal expansions and give `None` when it runs out; a
 * value they give does not depend on the fuel (`FirstFuel`), so "the FIRST
 * set of `s` is `v`" is `FirstIs`: some fuel yields `v`.
 *
 * "Is epsilon" is decided by name, as in the C# code (`Name ==
 * Syntax.EpsilonSymbol.Name`): a symbol named `Epsilon,`.
 */
module FirstSets {
  import opened Wrappers
  import opened Grammar

  /** The `Name` of `Syntax.EpsilonSymbol`. */
  const EpsilonName: string := "Epsilon,"

  predicate IsEps(x: Symbol)
  {
    x.name == EpsilonName
  }

  /** `first.Where(s => s.Name != Syntax.EpsilonSymbol.Name)`. */
  function NonEps(a: set<Symbol>): set<Symbol>
  {
    set x | x in a && !IsEps(x)
  }

  /** `first.Any(s => s.Name == Syntax.EpsilonSymbol.Name)`. */
  predicate Nullable(a: set<Symbol>)
  {
    exists x :: x in a && IsEps(x)
  }

  /**
   * `GetFirst(s)` for the productions `ps` of the grammar: `{s}` for a
   * terminal; otherwise the union over the productions of `s` (looked up by
   * name), `eps` for an empty right-hand side and `ComputeFirst` of it
   * otherwise.
   */
  function First(ps: seq<Sentence>, eps: Symbol, s: Symbol, fuel: nat): Option<set<Symbol>>
    decreases fuel, 0, 0
  {
    if s.kind == Terminal then Some({s})
    else if fuel == 0 then None
    else Alternatives(ps, eps, WithLeft(ps, s.name), fuel - 1)
  }

  /** The loop of `GetFirst` over the productions `prods`, in order. */
  function Alternatives(ps: seq<Sentence>, eps: Symbol, prods: seq<Sentence>, fuel: nat): Option<set<Symbol>>
    decreases fuel, 2, |prods|
  {
    if prods == [] then Some({})
    else
      var n := |prods| - 1;
      match Alternatives(ps, eps, prods[..n], fuel)
      case None => None
      case Some(a) =>
        if prods[n].right == [] then Some(a + {eps})
        else
          match FirstSeq(ps, eps, prods[n].right, fuel)
          case None => None
          case Some(b) => Some(a + b)
  }

  /**
   * `ComputeFirst(syms)`: the non-epsilon FIRST of each symbol, left to right,
   * up to and including the first symbol that is not nullable; `eps` is added
   * when every symbol is nullable.
   */
  function FirstSeq(ps: seq<Sentence>, eps: Symbol, syms: seq<Symbol>, fuel: nat): Option<set<Symbol>>
    decreases fuel, 1, |syms|
  {
    if syms == [] then Some({eps})
    else
      match First(ps, eps, syms[0], fuel)
      case None => None
      case Some(a) =>
        if !Nullable(a) then Some(NonEps(a))
        else
          match FirstSeq(ps, eps, syms[1..], fuel)
          case None => None
          case Some(b) => Some(NonEps(a) + b)
  }

  /** The FIRST set of `s` is `v`: the computation ends, with `v`. */
  ghost predicate FirstIs(ps: seq<Sentence>, eps: Symbol, s: Symbol, v: set<Symbol>)
  {
    exists f: nat :: First(ps, eps, s, f) == Some(v)
  }

  ghost predicate AlternativesIs(ps: seq<Sentence>, eps: Symbol, prods: seq<Sentence>, v: set<Symbol>)
  {
    exists f: nat :: Alternatives(ps, eps, prods, f) == Some(v)
  }

  ghost predicate FirstSeqIs(ps: seq<Sentence>, eps: Symbol, syms: seq<Symbol>, v: set<Symbol>)
  {
    exists f: nat :: FirstSeq(ps, eps, syms, f) == Some(v)
  }

  /** `s` is nullable within fuel `f`. */
  ghost predicate NullableAt(ps: seq<Sentence>, eps: Symbol, s: Symbol, f: nat)
  {
    First(ps, eps, s, f).Some? && Nullable(First(ps, eps, s, f).value)
  }

  /** More fuel does not change a result that was reached. */
  lemma {:induction false} FirstFuel(ps: seq<Sentence>, eps: Symbol, s: Symbol, f: nat, g: nat)
    requires f <= g && First(ps, eps, s, f).Some?
    ensures First(ps, eps, s, g) == First(ps, eps, s, f)
    decreases f, 0, 0
  {
    if s.kind == NonTerminal {
      AlternativesFuel(ps, eps, WithLeft(ps, s.name), f - 1, g - 1);
    }
  }

  lemma {:induction false} AlternativesFuel(ps: seq<Sentence>, eps: Symbol, prods: seq<Sentence>, f: nat, g: nat)
    requires f <= g && Alternatives(ps, eps, prods, f).Some?
    ensures Alternatives(ps, eps, prods, g) == Alternatives(ps, eps, prods, f)
    decreases f, 2, |prods|
  {
    if prods != [] {
      var n := |prods| - 1;
      AlternativesFuel(ps, eps, prods[..n], f, g);
      if prods[n].right != [] {
        FirstSeqFuel(ps, eps, prods[n].right, f, g);
      }
    }
  }

  lemma {:induction false} FirstSeqFuel(ps: seq<Sentence>, eps: Symbol, syms: seq<Symbol>, f: nat, g: nat)
    requires f <= g && FirstSeq(ps, eps, syms, f).Some?
    ensures FirstSeq(ps, eps, syms, g) == FirstSeq(ps, eps, syms, f)
    decreases f, 1, |syms|
  {
    if syms != [] {
      FirstFuel(ps, eps, syms[0], f, g);
      if Nullable(First(ps, eps, syms[0], f).value) {
        FirstSeqFuel(ps, eps, syms[1..], f, g);
      }
    }
  }

  /** A symbol has at most one FIRST set. */
  lemma FirstUnique(ps: seq<Sentence>, eps: Symbol, s: Symbol, v: set<Symbol>, w: set<Symbol>)
    requires FirstIs(ps, eps, s, v) && FirstIs(ps, eps, s, w)
    ensures v == w
  {
    var f: nat :| First(ps, eps, s, f) == Some(v);
    var g: nat :| First(ps, eps, s, g) == Some(w);
    if f <= g {
      FirstFuel(ps, eps, s, f, g);
    } else {
      FirstFuel(ps, eps, s, g, f);
    }
  }

  lemma FirstSeqUnique(ps: seq<Sentence>, eps: Symbol, syms: seq<Symbol>, v: set<Symbol>, w: set<Symbol>)
    requires FirstSeqIs(ps, eps, syms, v) && FirstSeqIs(ps, eps, syms, w)
    ensures v == w
  {
    var f: nat :| FirstSeq(ps, eps, syms, f) == Some(v);
    var g: nat :| FirstSeq(ps, eps, syms, g) == Some(w);
    if f <= g {
      FirstSeqFuel(ps, eps, syms, f, g);
    } else {
      FirstSeqFuel(ps, eps, syms, g, f);
    }
  }

  /**
   * Each production contributes to its nonterminal's FIRST set: `eps` for an
   * empty right-hand side, the FIRST of the right-hand side otherwise.
   */
  lemma {:induction false} AlternativeIncluded(ps: seq<Sentence>, eps: Symbol, prods: seq<Sentence>, f: nat, k: nat)
    requires k < |prods| && Alternatives(ps, eps, prods, f).Some?
    ensures prods[k].right == [] ==> eps in Alternatives(ps, eps, prods, f).value
    ensures prods[k].right != [] ==> FirstSeq(ps, eps, prods[k].right, f).Some? &&
                                     FirstSeq(ps, eps, prods[k].right, f).value <= Alternatives(ps, eps, prods, f).value
    decreases |prods|
  {
    var n := |prods| - 1;
    if k < n {
      AlternativeIncluded(ps, eps, prods[..n], f, k);
      assert prods[..n][k] == prods[k];
    }
  }

  /** A nonterminal with an empty production has `eps` in its FIRST set. */
  lemma EpsilonProduction(ps: seq<Sentence>, eps: Symbol, a: Symbol, p: Sentence, v: set<Symbol>)
    requires a.kind == NonTerminal && p in ps && p.left.name == a.name && p.right == []
    requires FirstIs(ps, eps, a, v)
    ensures eps in v
  {
    var f: nat :| First(ps, eps, a, f) == Some(v);
    var prods := WithLeft(ps, a.name);
    WithLeftMembers(ps, a.name);
    var k :| 0 <= k < |prods| && prods[k] == p;
    AlternativeIncluded(ps, eps, prods, f - 1, k);
  }

  /** A nonterminal without productions has the empty FIRST set. */
  lemma NoProductions(ps: seq<Sentence>, eps: Symbol, a: Symbol, v: set<Symbol>)
    requires a.kind == NonTerminal && (forall p :: p in ps ==> p.left.name != a.name)
    requires FirstIs(ps, eps, a, v)
    ensures v == {}
  {
    var f: nat :| First(ps, eps, a, f) == Some(v);
    var prods := WithLeft(ps, a.name);
    WithLeftMembers(ps, a.name);
    assert First(ps, eps, a, f) == Alternatives(ps, eps, prods, f - 1);
  }

  /** FIRST of a terminal is the terminal alone. */
  lemma TerminalFirst(ps: seq<Sentence>, eps: Symbol, t: Symbol)
    requires t.kind == Terminal
    ensures FirstIs(ps, eps, t, {t})
  {
    assert First(ps, eps, t, 0) == Some({t});
  }

  /** FIRST of the empty sequence is `{eps}`. */
  lemma EmptySequenceFirst(ps: seq<Sentence>, eps: Symbol)
    ensures FirstSeqIs(ps, eps, [], {eps})
  {
    assert FirstSeq(ps, eps, [], 0) == Some({eps});
  }

  /** `eps` is in FIRST of a sequence exactly when every symbol of it is nullable. */
  lemma {:induction false} SequenceNullable(ps: seq<Sentence>, eps: Symbol, syms: seq<Symbol>, f: nat)
    requires IsEps(eps) && FirstSeq(ps, eps, syms, f).Some?
    ensures eps in FirstSeq(ps, eps, syms, f).value <==> forall i :: 0 <= i < |syms| ==> NullableAt(ps, eps, syms[i], f)
    decreases |syms|
  {
    if syms != [] {
      var a := First(ps, eps, syms[0], f).value;
      assert eps !in NonEps(a);
      if Nullable(a) {
        SequenceNullable(ps, eps, syms[1..], f);
        assert forall i :: 1 <= i < |syms| ==> syms[i] == syms[1..][i - 1];
      }
    }
  }

  /**
   * Left to right: the non-epsilon FIRST of every symbol whose predecessors
   * are all nullable is part of FIRST of the sequence.
   */
  lemma {:induction false} SequenceIncludes(ps: seq<Sentence>, eps: Symbol, syms: seq<Symbol>, f: nat, i: nat)
    requires FirstSeq(ps, eps, syms, f).Some? && i < |syms|
    requires forall j :: 0 <= j < i ==> NullableAt(ps, eps, syms[j], f)
    ensures First(ps, eps, syms[i], f).Some?
    ensures NonEps(First(ps, eps, syms[i], f).value) <= FirstSeq(ps, eps, syms, f).value
    decreases i
  {
    if i > 0 {
      assert NullableAt(ps, eps, syms[0], f);
      assert forall j :: 0 <= j < i - 1 ==> syms[1..][j] == syms[j + 1];
      SequenceIncludes(ps, eps, syms[1..], f, i - 1);
      assert syms[1..][i - 1] == syms[i];
    }
  }

  /**
   * And nothing else: a member of FIRST of the sequence is `eps` or comes
   * from a symbol whose predecessors are all nullable.
   */
  lemma {:induction false} SequenceOnly(ps: seq<Sentence>, eps: Symbol, syms: seq<Symbol>, f: nat, x: Symbol)
    requires FirstSeq(ps, eps, syms, f).Some? && x in FirstSeq(ps, eps, syms, f).value && x != eps
    ensures exists i :: 0 <= i < |syms| && (forall j :: 0 <= j < i ==> NullableAt(ps, eps, syms[j], f)) &&
                        First(ps, eps, syms[i], f).Some? && x in NonEps(First(ps, eps, syms[i], f).value)
    decreases |syms|
  {
    var a := First(ps, eps, syms[0], f).value;
    if x !in NonEps(a) {
      SequenceOnly(ps, eps, syms[1..], f, x);
      var i :| 0 <= i < |syms| - 1 && (forall j :: 0 <= j < i ==> NullableAt(ps, eps, syms[1..][j], f)) &&
               First(ps, eps, syms[1..][i], f).Some? && x in NonEps(First(ps, eps, syms[1..][i], f).value);
      assert forall j :: 1 <= j < i + 1 ==> syms[j] == syms[1..][j - 1];
      assert syms[i + 1] == syms[1..][i];
    }
  }

  /** `A -> B c` with `B -> ε`: the terminal `c` is in FIRST(A). */
  lemma AfterNullable(ps: seq<Sentence>, eps: Symbol, a: Symbol, b: Symbol, c: Symbol, p: Sentence, q: Sentence, v: set<Symbol>)
    requires a.kind == NonTerminal && b.kind == NonTerminal && c.kind == Terminal && !IsEps(c)
    requires p in ps && p.left.name == a.name && p.right == [b, c]
    requires q in ps && q.left.name == b.name && q.right == []
    requires IsEps(eps) && FirstIs(ps, eps, a, v)
    ensures c in v
  {
    var f: nat :| First(ps, eps, a, f) == Some(v);
    var prods := WithLeft(ps, a.name);
    WithLeftMembers(ps, a.name);
    var k :| 0 <= k < |prods| && prods[k] == p;
    AlternativeIncluded(ps, eps, prods, f - 1, k);
    var fb := First(ps, eps, b, f - 1).value;
    assert First(ps, eps, b, f - 1).Some?;
    EpsilonProduction(ps, eps, b, q, fb);
    assert Nullable(fb) by {
      assert eps in fb && IsEps(eps);
    }
    SequenceIncludes(ps, eps, p.right, f - 1, 1);
    assert First(ps, eps, c, f - 1) == Some({c});
  }

  /** Prepend `acc` to a result that was reached. */
  function Join(acc: set<Symbol>, r: Option<set<Symbol>>): Option<set<Symbol>>
  {
    if r.Some? then Some(acc + r.value) else None
  }

  lemma JoinEmpty(r: Option<set<Symbol>>)
    ensures Join({}, r) == r
  {
    if r.Some? {
      assert {} + r.value == r.value;
    }
  }

  lemma JoinTwice(a: set<Symbol>, b: set<Symbol>, r: Option<set<Symbol>>)
    ensures Join(a, Join(b, r)) == Join(a + b, r)
  {
    if r.Some? {
      assert a + (b + r.value) == (a + b) + r.value;
    }
  }

  /** One nullable symbol off the front of a suffix. */
  lemma SuffixStep(ps: seq<Sentence>, eps: Symbol, syms: seq<Symbol>, i: nat, f: nat, a: set<Symbol>)
    requires i < |syms| && First(ps, eps, syms[i], f) == Some(a)
    ensures Nullable(a) ==> FirstSeq(ps, eps, syms[i..], f) == Join(NonEps(a), FirstSeq(ps, eps, syms[i + 1..], f))
    ensures !Nullable(a) ==> FirstSeq(ps, eps, syms[i..], f) == Some(NonEps(a))
  {
    assert syms[i..][0] == syms[i] && syms[i..][1..] == syms[i + 1..];
  }

  /** One more production at the end of the list. */
  lemma ProductionStep(ps: seq<Sentence>, eps: Symbol, prods: seq<Sentence>, i: nat, f: nat)
    requires i < |prods|
    ensures Alternatives(ps, eps, prods[..i + 1], f) ==
      match Alternatives(ps, eps, prods[..i], f)
      case None => None
      case Some(a) =>
        if prods[i].right == [] then Some(a + {eps})
        else Join(a, FirstSeq(ps, eps, prods[i].right, f))
  {
    assert prods[..i + 1][..i] == prods[..i] && prods[..i + 1][i] == prods[i];
  }

  lemma EmptyAlternativeStep(ps: seq<Sentence>, eps: Symbol, prods: seq<Sentence>, i: nat, j: nat, g: nat, first: set<Symbol>)
    requires i < |prods| && j == i + 1 && prods[i].right == []
    requires forall f: nat :: f >= g ==> Alternatives(ps, eps, prods[..i], f) == Some(first)
    ensures forall f: nat :: f >= g ==> Alternatives(ps, eps, prods[..j], f) == Some(first + {eps})
  {
    forall f: nat | f >= g ensures Alternatives(ps, eps, prods[..j], f) == Some(first + {eps}) {
      ProductionStep(ps, eps, prods, i, f);
    }
  }

  lemma AlternativeStep(ps: seq<Sentence>, eps: Symbol, prods: seq<Sentence>, i: nat, j: nat, g: nat, h: nat, first: set<Symbol>, b: set<Symbol>)
    requires i < |prods| && j == i + 1 && prods[i].right != []
    requires forall f: nat :: f >= g ==> Alternatives(ps, eps, prods[..i], f) == Some(first)
    requires FirstSeq(ps, eps, prods[i].right, h) == Some(b)
    ensures forall f: nat :: f >= g && f >= h ==> Alternatives(ps, eps, prods[..j], f) == Some(first + b)
  {
    forall f: nat | f >= g && f >= h ensures Alternatives(ps, eps, prods[..j], f) == Some(first + b) {
      ProductionStep(ps, eps, prods, i, f);
      FirstSeqFuel(ps, eps, prods[i].right, h, f);
    }
  }

  /** From fuel `g` on, FIRST of `syms` is `acc` joined to FIRST of the suffix from `i`. */
  ghost predicate Progress(ps: seq<Sentence>, eps: Symbol, syms: seq<Symbol>, i: nat, g: nat, acc: set<Symbol>)
  {
    i <= |syms| && forall f: nat :: f >= g ==> FirstSeq(ps, eps, syms, f) == Join(acc, FirstSeq(ps, eps, syms[i..], f))
  }

  lemma ProgressStart(ps: seq<Sentence>, eps: Symbol, syms: seq<Symbol>)
    ensures Progress(ps, eps, syms, 0, 0, {})
  {
    forall f: nat ensures FirstSeq(ps, eps, syms, f) == Join({}, FirstSeq(ps, eps, syms[0..], f)) {
      assert syms[0..] == syms;
      JoinEmpty(FirstSeq(ps, eps, syms, f));
    }
  }

  /** Past the last symbol, every symbol was nullable: `eps` joins the set. */
  lemma ProgressDone(ps: seq<Sentence>, eps: Symbol, syms: seq<Symbol>, g: nat, acc: set<Symbol>)
    requires Progress(ps, eps, syms, |syms|, g, acc)
    ensures FirstSeq(ps, eps, syms, g) == Some(acc + {eps})
  {
    assert syms[|syms|..] == [];
  }

  /** One more symbol, whose FIRST set `a` was reached with fuel `h`, with `g'` at least both fuels. */
  lemma SymbolStep(ps: seq<Sentence>, eps: Symbol, syms: seq<Symbol>, i: nat, g: nat, h: nat, g': nat, acc: set<Symbol>, a: set<Symbol>)
    requires i < |syms| && First(ps, eps, syms[i], h) == Some(a) && g <= g' && h <= g'
    requires Progress(ps, eps, syms, i, g, acc)
    ensures Nullable(a) ==> Progress(ps, eps, syms, i + 1, g', acc + NonEps(a))
    ensures !Nullable(a) ==> FirstSeq(ps, eps, syms, g') == Some(acc + NonEps(a))
  {
    forall f: nat | f >= g'
      ensures Nullable(a) ==> FirstSeq(ps, eps, syms, f) == Join(acc + NonEps(a), FirstSeq(ps, eps, syms[i + 1..], f))
      ensures !Nullable(a) ==> FirstSeq(ps, eps, syms, f) == Some(acc + NonEps(a))
    {
      FirstFuel(ps, eps, syms[i], h, f);
      SuffixStep(ps, eps, syms, i, f, a);
      JoinTwice(acc, NonEps(a), FirstSeq(ps, eps, syms[i + 1..], f));
    }
  }

  /**
   * `SymbolStep`, and when the whole sequence has a FIRST set within `fuel`,
   * so does the suffix after a nullable symbol.
   */
  lemma SymbolNext(ps: seq<Sentence>, eps: Symbol, syms: seq<Symbol>, i: nat, g: nat, h: nat, g': nat, acc: set<Symbol>, a: set<Symbol>, fuel: nat)
    requires i < |syms| && First(ps, eps, syms[i], h) == Some(a) && g <= g' && h <= g'
    requires Progress(ps, eps, syms, i, g, acc)
    requires FirstSeq(ps, eps, syms, fuel).Some? ==> FirstSeq(ps, eps, syms[i..], fuel).Some?
    ensures Nullable(a) ==> Progress(ps, eps, syms, i + 1, g', acc + NonEps(a))
    ensures Nullable(a) ==> FirstSeq(ps, eps, syms, fuel).Some? ==> FirstSeq(ps, eps, syms[i + 1..], fuel).Some?
    ensures !Nullable(a) ==> FirstSeq(ps, eps, syms, g') == Some(acc + NonEps(a))
  {
    SymbolStep(ps, eps, syms, i, g, h, g', acc, a);
    if FirstSeq(ps, eps, syms, fuel).Some? {
      assert FirstIs(ps, eps, syms[i], a);
      SymbolReached(ps, eps, syms, i, fuel, a);
    }
  }

  /** Known nullable up to `i`, and at `i`: known nullable up to `i + 1`. */
  lemma KnownNext(c: map<Symbol, set<Symbol>>, syms: seq<Symbol>, i: nat)
    requires i < |syms| && KnownIn(c, syms[i], true) && forall j :: 0 <= j < i ==> KnownIn(c, syms[j], true)
    ensures forall j :: 0 <= j < i + 1 ==> KnownIn(c, syms[j], true)
  {
  }

  lemma SymbolDefined(ps: seq<Sentence>, eps: Symbol, syms: seq<Symbol>, i: nat, fuel: nat)
    requires i < |syms| && FirstSeq(ps, eps, syms[i..], fuel).Some?
    ensures First(ps, eps, syms[i], fuel).Some?
  {
    assert syms[i..][0] == syms[i];
  }

  lemma SymbolReached(ps: seq<Sentence>, eps: Symbol, syms: seq<Symbol>, i: nat, fuel: nat, a: set<Symbol>)
    requires i < |syms| && FirstSeq(ps, eps, syms[i..], fuel).Some? && FirstIs(ps, eps, syms[i], a)
    ensures First(ps, eps, syms[i], fuel) == Some(a)
    ensures Nullable(a) ==> FirstSeq(ps, eps, syms[i + 1..], fuel).Some?
  {
    SymbolDefined(ps, eps, syms, i, fuel);
    assert FirstIs(ps, eps, syms[i], First(ps, eps, syms[i], fuel).value);
    FirstUnique(ps, eps, syms[i], a, First(ps, eps, syms[i], fuel).value);
    SuffixStep(ps, eps, syms, i, fuel, a);
  }

  /** What `ComputeFirst` later reads again for `s` from cache `c`: is its FIRST set nullable? */
  ghost predicate KnownIn(c: map<Symbol, set<Symbol>>, s: Symbol, nullable: bool)
  {
    (s.kind == Terminal && IsEps(s) == nullable) ||
    (s.kind == NonTerminal && s in c && Nullable(c[s]) == nullable)
  }

  /** A cache that only grew still knows what it knew. */
  lemma KnownKept(c0: map<Symbol, set<Symbol>>, c1: map<Symbol, set<Symbol>>, syms: seq<Symbol>, i: nat)
    requires forall k :: k in c0 ==> k in c1 && c1[k] == c0[k]
    requires i <= |syms| && forall j :: 0 <= j < i ==> KnownIn(c0, syms[j], true)
    ensures forall j :: 0 <= j < i ==> KnownIn(c1, syms[j], true)
  {
  }

  /**
   * The FIRST computations of one generator over the productions of its
   * grammar, and the cache `_firstCache` they share: a nonterminal's set,
   * once computed, is stored and returned from then on.
   */
  class FirstCache {
    const syntax: Syntax
    /** `Syntax.EpsilonSymbol`. */
    const eps: Symbol
    var cache: map<Symbol, set<Symbol>>

    /** Every cached set is the FIRST set of its nonterminal. */
    ghost predicate Valid()
      reads this, syntax
    {
      syntax.Valid() &&
      forall s :: s in cache ==> s.kind == NonTerminal && FirstIs(syntax.added, eps, s, cache[s])
    }

    constructor (syntax: Syntax, eps: Symbol)
      requires syntax.Valid()
      ensures Valid() && this.syntax == syntax && this.eps == eps && cache == map[]
    {
      this.syntax := syntax;
      this.eps := eps;
      cache := map[];
    }

    /** What `ComputeFirst` later reads again for `s`: is its (cached) FIRST set nullable? */
    ghost predicate Known(s: Symbol, nullable: bool)
      reads this
    {
      KnownIn(cache, s, nullable)
    }

    /**
     * `GetFirst(symbol)`: the cached set, `{symbol}` for a terminal (not
     * cached), or the union over the symbol's productions, which is then
     * cached. `None` when `fuel` nested expansions do not suffice.
     */
    method GetFirst(s: Symbol, fuel: nat) returns (r: Option<set<Symbol>>)
      requires Valid()
      modifies this
      ensures Valid() && forall k :: k in old(cache) ==> k in cache && cache[k] == old(cache)[k]
      ensures s in old(cache) ==> r == Some(old(cache)[s])
      ensures r.Some? ==> FirstIs(syntax.added, eps, s, r.value)
      ensures r.Some? ==> Known(s, Nullable(r.value))
      ensures s.kind == Terminal ==> r == Some({s})
      ensures First(syntax.added, eps, s, fuel).Some? ==> r.Some?
      decreases fuel, 1
    {
      if s in cache {
        return Some(cache[s]);
      }
      var first: set<Symbol> := {};
      if s.kind == Terminal {
        first := first + {s};
        assert first == {s};
        assert First(syntax.added, eps, s, 0) == Some(first);
        return Some(first);
      }
      if fuel == 0 {
        return None;
      }
      var prods := syntax.GetSentence(s);
      ghost var ps := syntax.added;
      r := UnionOver(prods, fuel - 1);
      if r.None? {
        return;
      }
      first := r.value;
      ghost var f: nat :| Alternatives(ps, eps, prods, f) == Some(first);
      assert First(ps, eps, s, f + 1) == Some(first);
      if s in cache {
        FirstUnique(ps, eps, s, cache[s], first);
      }
      cache := cache[s := first];
    }

    /**
     * The `foreach (var prod in ...)` loop of `GetFirst`: `eps` for an empty
     * right-hand side, `ComputeFirst` of it otherwise, all united.
     */
    method UnionOver(prods: seq<Sentence>, fuel: nat) returns (r: Option<set<Symbol>>)
      requires Valid()
      modifies this
      ensures Valid() && forall k :: k in old(cache) ==> k in cache && cache[k] == old(cache)[k]
      ensures r.Some? ==> AlternativesIs(syntax.added, eps, prods, r.value)
      ensures Alternatives(syntax.added, eps, prods, fuel).Some? ==> r.Some?
      decreases fuel, 4
    {
      ghost var ps := syntax.added;
      var first: set<Symbol> := {};
      ghost var g: nat := 0;
      for i := 0 to |prods|
        invariant Valid() && syntax.added == ps && forall k :: k in old(cache) ==> k in cache && cache[k] == old(cache)[k]
        invariant forall f: nat :: f >= g ==> Alternatives(ps, eps, prods[..i], f) == Some(first)
      {
        if prods[i].right == [] {
          EmptyAlternativeStep(ps, eps, prods, i, i + 1, g, first);
          first := first + {eps};
          continue;
        }
        if Alternatives(ps, eps, prods, fuel).Some? {
          AlternativeIncluded(ps, eps, prods, fuel, i);
        }
        var pf := ComputeFirst(prods[i].right, fuel);
        if pf.None? {
          return None;
        }
        ghost var h: nat :| FirstSeq(ps, eps, prods[i].right, h) == Some(pf.value);
        ghost var g' := if g < h then h else g;
        AlternativeStep(ps, eps, prods, i, i + 1, g, h, first, pf.value);
        first := first + pf.value;
        g := g';
      }
      assert prods[..|prods|] == prods;
      assert Alternatives(ps, eps, prods, g) == Some(first);
      return Some(first);
    }

    /**
     * `ComputeFirst(symbols)`: the non-epsilon FIRST of each symbol until one
     * is not nullable, then `eps` if every symbol is (the `All` check reads
     * the FIRST sets again, from the cache).
     */
    method ComputeFirst(syms: seq<Symbol>, fuel: nat) returns (r: Option<set<Symbol>>)
      requires Valid()
      modifies this
      ensures Valid() && forall k :: k in old(cache) ==> k in cache && cache[k] == old(cache)[k]
      ensures r.Some? ==> FirstSeqIs(syntax.added, eps, syms, r.value)
      ensures FirstSeq(syntax.added, eps, syms, fuel).Some? ==> r.Some?
      decreases fuel, 3
    {
      ghost var ps := syntax.added;
      var firstSet: set<Symbol> := {};
      ghost var g: nat := 0;
      var broke := false;
      var i := 0;
      ProgressStart(ps, eps, syms);
      while i < |syms|
        invariant i <= |syms| && Valid() && syntax.added == ps && !broke
        invariant forall k :: k in old(cache) ==> k in cache && cache[k] == old(cache)[k]
        invariant forall j :: 0 <= j < i ==> KnownIn(cache, syms[j], true)
        invariant Progress(ps, eps, syms, i, g, firstSet)
        invariant FirstSeq(ps, eps, syms, fuel).Some? ==> FirstSeq(ps, eps, syms[i..], fuel).Some?
        decreases |syms| - i
      {
        ghost var c0 := cache;
        var sf := GetFirst(syms[i], fuel);
        KnownKept(c0, cache, syms, i);
        if FirstSeq(ps, eps, syms, fuel).Some? {
          SymbolDefined(ps, eps, syms, i, fuel);
        }
        if sf.None? {
          return None;
        }
        var a := sf.value;
        ghost var h: nat :| First(ps, eps, syms[i], h) == Some(a);
        ghost var g' := if g < h then h else g;
        SymbolNext(ps, eps, syms, i, g, h, g', firstSet, a, fuel);
        firstSet := firstSet + NonEps(a);
        g := g';
        if !Nullable(a) {
          broke := true;
          break;
        }
        KnownNext(cache, syms, i);
        i := i + 1;
      }
      var all := AllNullable(syms, i, fuel);
      if all {
        ProgressDone(ps, eps, syms, g, firstSet);
        firstSet := firstSet + {eps};
      } else {
        assert FirstSeq(ps, eps, syms, g) == Some(firstSet);
      }
      return Some(firstSet);
    }

    /**
     * `symbols.All(s => GetFirst(s) has eps)`, once the first loop of
     * `ComputeFirst` has computed the sets of `syms[..n]` (all nullable) and,
     * when `n < |syms|`, of `syms[n]` (not nullable).
     */
    method AllNullable(syms: seq<Symbol>, ghost n: nat, fuel: nat) returns (all: bool)
      requires Valid() && n <= |syms|
      requires forall j :: 0 <= j < n ==> Known(syms[j], true)
      requires n < |syms| ==> Known(syms[n], false)
      modifies this
      ensures Valid() && forall k :: k in old(cache) ==> k in cache && cache[k] == old(cache)[k]
      ensures all <==> n == |syms|
      decreases fuel, 2
    {
      all := true;
      var j := 0;
      while j < |syms| && all
        invariant j <= |syms| && Valid() && syntax.added == old(syntax.added)
        invariant forall k :: k in old(cache) ==> k in cache && cache[k] == old(cache)[k]
        invariant forall j :: 0 <= j < n ==> Known(syms[j], true)
        invariant n < |syms| ==> Known(syms[n], false)
        invariant all ==> j <= n
        invariant !all ==> n < |syms|
        decreases |syms| - j
      {
        assert Known(syms[j], j < n);
        var sf := GetFirst(syms[j], fuel);
        if !Nullable(sf.value) {
          all := false;
        }
        j := j + 1;
      }
    }
  }
}
