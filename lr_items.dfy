/**
 * `LrItem` of the LALR(1) generator (`LALR_1_Analyser.cs`) and the pure
 * LINQ computations over item lists: the transition symbols of a state, the
 * advanced kernel for one symbol and the accept test of `UpdateActionTable`.
 *
 * `LrItem` does not override `Equals`, so a `HashSet<LrItem>` tells items
 * apart by object identity; `uid` is that identity. A state's `KernelItems`
 * is a sequence in insertion order.
 */
module LrItems {
  import opened Wrappers
  import opened Grammar

  /** `new LrItem(sentence, dot, lookahead)`, the object numbered `uid`. */
  datatype LrItem = LrItem(uid: nat, sentence: Sentence, dot: nat, lookahead: Symbol)

  /** `IsReduceItem`: the dot is at (or past) the end of the right-hand side. */
  predicate IsReduceItem(x: LrItem)
  {
    x.dot >= |x.sentence.right|
  }

  /** `NextSymbol`: the symbol after the dot, or `null` for a reduce item. */
  function NextSymbol(x: LrItem): (r: Option<Symbol>)
    ensures r.None? <==> IsReduceItem(x)
    ensures r.Some? ==> x.dot < |x.sentence.right| && r.value == x.sentence.right[x.dot]
  {
    if x.dot < |x.sentence.right| then Some(x.sentence.right[x.dot]) else None
  }

  /** The dot lies within the right-hand side. */
  predicate Dotted(x: LrItem)
  {
    x.dot <= |x.sentence.right|
  }

  /** `Skip(n)` on a list: what follows the first `n` elements, or nothing. */
  function Skip<T>(s: seq<T>, n: nat): (r: seq<T>)
    ensures n <= |s| ==> r == s[n..]
    ensures n >= |s| ==> r == []
  {
    if n <= |s| then s[n..] else []
  }

  /** `beta` of `ComputeLookahead`: the symbols after the next one, then the item's lookahead. */
  function Beta(x: LrItem): seq<Symbol>
  {
    Skip(x.sentence.right, x.dot + 1) + [x.lookahead]
  }

  /** Beta ends with the lookahead and holds what follows the next symbol, in order. */
  lemma BetaShape(x: LrItem)
    requires Dotted(x)
    ensures |Beta(x)| >= 1 && Beta(x)[|Beta(x)| - 1] == x.lookahead
    ensures IsReduceItem(x) || x.dot + 1 == |x.sentence.right| ==> Beta(x) == [x.lookahead]
    ensures !IsReduceItem(x) ==> |Beta(x)| == |x.sentence.right| - x.dot
    ensures !IsReduceItem(x) ==> forall k :: 0 <= k < |Beta(x)| - 1 ==> Beta(x)[k] == x.sentence.right[x.dot + 1 + k]
  {
  }

  /**
   * `transitionSymbols`: the next symbols of the items, without `null`,
   * each once, in the order of first occurrence (`Distinct` keeps it).
   */
  function TransitionSymbols(items: seq<LrItem>): (r: seq<Symbol>)
  {
    if items == [] then []
    else
      var n := |items| - 1;
      var front := TransitionSymbols(items[..n]);
      match NextSymbol(items[n])
      case None => front
      case Some(y) => if y in front then front else front + [y]
  }

  /** Each transition symbol once, and exactly the next symbols of the items. */
  lemma {:induction false} TransitionSymbolsSpec(items: seq<LrItem>)
    ensures forall i, j :: 0 <= i < j < |TransitionSymbols(items)| ==> TransitionSymbols(items)[i] != TransitionSymbols(items)[j]
    ensures forall y :: y in TransitionSymbols(items) <==> exists k :: 0 <= k < |items| && NextSymbol(items[k]) == Some(y)
  {
    if items != [] {
      var n := |items| - 1;
      TransitionSymbolsSpec(items[..n]);
      forall y | (exists k :: 0 <= k < n + 1 && NextSymbol(items[k]) == Some(y))
        ensures y in TransitionSymbols(items)
      {
        var k :| 0 <= k < n + 1 && NextSymbol(items[k]) == Some(y);
        if k < n {
          assert items[..n][k] == items[k];
        }
      }
      forall y | y in TransitionSymbols(items)
        ensures exists k :: 0 <= k < |items| && NextSymbol(items[k]) == Some(y)
      {
        if y in TransitionSymbols(items[..n]) {
          var k :| 0 <= k < n && NextSymbol(items[..n][k]) == Some(y);
          assert items[..n][k] == items[k];
        } else {
          assert NextSymbol(items[n]) == Some(y);
        }
      }
    }
  }

  /** The items whose next symbol is `symbol`, in order (the `Where` of `newKernel`). */
  function Matching(items: seq<LrItem>, symbol: Symbol): seq<LrItem>
  {
    if items == [] then []
    else
      var n := |items| - 1;
      Matching(items[..n], symbol) + if NextSymbol(items[n]) == Some(symbol) then [items[n]] else []
  }

  /** Exactly the items over `symbol` are kept. */
  lemma {:induction false} MatchingSpec(items: seq<LrItem>, symbol: Symbol)
    ensures forall x :: x in Matching(items, symbol) <==> x in items && NextSymbol(x) == Some(symbol)
  {
    if items != [] {
      var n := |items| - 1;
      MatchingSpec(items[..n], symbol);
      assert items == items[..n] + [items[n]];
    }
  }

  /** The new item for `x`: the dot one further, numbered `uid`. */
  function Moved(x: LrItem, uid: nat): LrItem
  {
    LrItem(uid, x.sentence, x.dot + 1, x.lookahead)
  }

  /**
   * `newKernel` for `symbol`: every item whose next symbol is `symbol`, in
   * order, as a new item with the dot one further, numbered from `next`.
   */
  function Advance(items: seq<LrItem>, symbol: Symbol, next: nat): seq<LrItem>
  {
    var m := Matching(items, symbol);
    seq(|m|, j requires 0 <= j < |m| => Moved(m[j], next + j))
  }

  /** The advanced items are numbered from `next` in order, and each moves a matching item over `symbol`. */
  lemma AdvanceSound(items: seq<LrItem>, symbol: Symbol, next: nat, j: nat)
    requires j < |Advance(items, symbol, next)|
    ensures Advance(items, symbol, next)[j].uid == next + j
    ensures Dotted(Advance(items, symbol, next)[j])
    ensures exists x :: x in items && NextSymbol(x) == Some(symbol) && Moved(x, next + j) == Advance(items, symbol, next)[j]
  {
    var m := Matching(items, symbol);
    MatchingSpec(items, symbol);
    assert m[j] in m;
    assert Advance(items, symbol, next)[j] == Moved(m[j], next + j);
  }

  /** Every item over `symbol` is advanced. */
  lemma AdvanceComplete(items: seq<LrItem>, symbol: Symbol, next: nat, x: LrItem)
    requires x in items && NextSymbol(x) == Some(symbol)
    ensures exists j :: 0 <= j < |Advance(items, symbol, next)| && Advance(items, symbol, next)[j] == Moved(x, next + j)
  {
    var m := Matching(items, symbol);
    MatchingSpec(items, symbol);
    var j :| 0 <= j < |m| && m[j] == x;
    assert Advance(items, symbol, next)[j] == Moved(x, next + j);
  }

  /**
   * The accept test of `UpdateActionTable`: some item of the target is a
   * reduce item whose left-hand symbol is `Syntax.StartSymbol` itself (an
   * identity comparison; a `null` start symbol equals nothing).
   */
  predicate Accepts(items: seq<LrItem>, start: Option<Symbol>)
  {
    start.Some? && exists k :: 0 <= k < |items| && IsReduceItem(items[k]) && items[k].sentence.left == start.value
  }
}
