/**
 * What `ComputeClosure` (`LALR_1_Analyser.cs`) establishes about the items
 * of a state: for every item whose next symbol is a nonterminal `B`, and
 * every production `p` of `B` (looked up by name), the state holds an item
 * `(p, 0, la)` for every `la` in FIRST of the symbols after `B` followed by
 * the item's lookahead.
 */
module Closures {
  import opened Grammar
  import opened FirstSets
  import opened LrItems

  /** Some item of `items` is `p` with the dot at 0 and lookahead `la`. */
  ghost predicate Has(items: seq<LrItem>, p: Sentence, la: Symbol)
  {
    exists y :: y in items && y.sentence == p && y.dot == 0 && y.lookahead == la
  }

  /** `p` is present with every lookahead of `l`. */
  ghost predicate CoversOne(items: seq<LrItem>, p: Sentence, l: set<Symbol>)
  {
    forall la :: la in l ==> Has(items, p, la)
  }

  /** Every production of `prods` is present with every lookahead of `l`. */
  ghost predicate Covers(items: seq<LrItem>, prods: seq<Sentence>, l: set<Symbol>)
  {
    forall p :: p in prods ==> CoversOne(items, p, l)
  }

  /** The closure step for `x` has been taken in `items`. */
  ghost predicate Expanded(ps: seq<Sentence>, eps: Symbol, x: LrItem, items: seq<LrItem>)
  {
    NextSymbol(x).Some? && NextSymbol(x).value.kind == NonTerminal ==>
      forall l {:trigger FirstSeqIs(ps, eps, Beta(x), l)} ::
        FirstSeqIs(ps, eps, Beta(x), l) ==> Covers(items, WithLeft(ps, NextSymbol(x).value.name), l)
  }

  /** Every item of `items` has been expanded in `items`. */
  ghost predicate Closed(ps: seq<Sentence>, eps: Symbol, items: seq<LrItem>)
  {
    forall k :: 0 <= k < |items| ==> Expanded(ps, eps, items[k], items)
  }

  /** Every item of `items` is in `more`. */
  ghost predicate Within(items: seq<LrItem>, more: seq<LrItem>)
  {
    forall y :: y in items ==> y in more
  }

  /** A prefix lies within. */
  lemma PrefixWithin(items: seq<LrItem>, more: seq<LrItem>)
    requires items <= more
    ensures Within(items, more)
  {
    forall y | y in items ensures y in more {
      var k :| 0 <= k < |items| && items[k] == y;
      assert more[k] == y;
    }
  }

  /** Coverage survives adding items. */
  lemma CoversGrow(items: seq<LrItem>, more: seq<LrItem>, prods: seq<Sentence>, l: set<Symbol>)
    requires Within(items, more) && Covers(items, prods, l)
    ensures Covers(more, prods, l)
  {
    forall p, la | p in prods && la in l ensures Has(more, p, la) {
      assert CoversOne(items, p, l);
      var y :| y in items && y.sentence == p && y.dot == 0 && y.lookahead == la;
      assert y in more;
    }
  }

  /** An expansion survives adding items. */
  lemma ExpandedGrow(ps: seq<Sentence>, eps: Symbol, x: LrItem, items: seq<LrItem>, more: seq<LrItem>)
    requires Within(items, more) && Expanded(ps, eps, x, items)
    ensures Expanded(ps, eps, x, more)
  {
    if NextSymbol(x).Some? && NextSymbol(x).value.kind == NonTerminal {
      forall l | FirstSeqIs(ps, eps, Beta(x), l)
        ensures Covers(more, WithLeft(ps, NextSymbol(x).value.name), l)
      {
        CoversGrow(items, more, WithLeft(ps, NextSymbol(x).value.name), l);
      }
    }
  }

  /** All expansions of a set of items survive adding items. */
  lemma AllExpandedGrow(ps: seq<Sentence>, eps: Symbol, done: set<LrItem>, items: seq<LrItem>, more: seq<LrItem>)
    requires Within(items, more) && forall y :: y in done ==> Expanded(ps, eps, y, items)
    ensures forall y :: y in done ==> Expanded(ps, eps, y, more)
  {
    forall y | y in done ensures Expanded(ps, eps, y, more) {
      ExpandedGrow(ps, eps, y, items, more);
    }
  }

  /**
   * One more production: once `prods[i]` is present with the lookaheads
   * `las`, the FIRST set of `Beta(x)`, the first `i + 1` productions are
   * covered for that set, and there is no other.
   */
  lemma CoverStep(ps: seq<Sentence>, eps: Symbol, x: LrItem, prods: seq<Sentence>, i: nat,
                  items: seq<LrItem>, more: seq<LrItem>, las: set<Symbol>)
    requires i < |prods| && FirstSeqIs(ps, eps, Beta(x), las)
    requires forall l :: FirstSeqIs(ps, eps, Beta(x), l) ==> Covers(items, prods[..i], l)
    requires Within(items, more) && CoversOne(more, prods[i], las)
    ensures forall l :: FirstSeqIs(ps, eps, Beta(x), l) ==> Covers(more, prods[..i + 1], l)
  {
    forall l | FirstSeqIs(ps, eps, Beta(x), l) ensures Covers(more, prods[..i + 1], l) {
      FirstSeqUnique(ps, eps, Beta(x), l, las);
      CoversGrow(items, more, prods[..i], l);
      forall p | p in prods[..i + 1] ensures CoversOne(more, p, l) {
        if p != prods[i] {
          assert p in prods[..i];
        }
      }
    }
  }

  /** Items with the dot at 0, of productions of `ps`: what the closure adds. */
  ghost predicate Predicted(ps: seq<Sentence>, y: LrItem)
  {
    y.dot == 0 && y.sentence in ps
  }

  /** The dot of every item lies within its right-hand side. */
  ghost predicate AllDotted(items: seq<LrItem>)
  {
    forall k :: 0 <= k < |items| ==> Dotted(items[k])
  }
}
