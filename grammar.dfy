/**
 * The grammar model of the LALR(1) generator (`SyntaxRawData.cs`): symbols,
 * productions (`Sentence`) and the `Syntax` index of productions by the
 * name of their left-hand side.
 *
 * Symbols are C# objects compared by reference. Each symbol value carries
 * the identity of its object in `id`; ids are handed out by a counter in
 * `Statics`, so two symbol values are equal exactly when they describe the
 * same object. `Statics` also holds the other static state of these
 * classes: the terminal table, the production counter and the start
 * symbol.
 */
module Grammar {
  import opened Wrappers

  datatype Kind = Terminal | NonTerminal

  /**
   * A `TerminalSymbol` (with its `DataType` and `Data`) or a
   * `NonTerminalSymbol` (which has neither; both are "" here).
   */
  datatype Symbol = Symbol(id: nat, name: string, kind: Kind, dataType: string, data: string)

  /** A production `left -> right`, with its `ID`. */
  datatype Sentence = Sentence(id: nat, left: Symbol, right: seq<Symbol>)

  /** `TerminalSymbol.Any`, the default `data`. */
  const Any: string := ""

  /** The `Name` of a terminal. */
  function TerminalName(dataType: string, data: string): string
  {
    dataType + "," + data
  }

  /** The table entry for key `k` is the terminal made for it. */
  ghost predicate Interned(k: (string, string), s: Symbol)
  {
    s.kind == Terminal && s.name == TerminalName(k.0, k.1) && s.dataType == k.0 && s.data == k.1
  }

  /** The two distinguished symbols have one name each, whatever was interned before. */
  lemma DistinguishedNames()
    ensures TerminalName("EOI", Any) == "EOI," && TerminalName("Epsilon", Any) == "Epsilon,"
    ensures TerminalName("EOI", Any) != TerminalName("Epsilon", Any)
  {
    assert TerminalName("EOI", Any)[0] == 'E' && TerminalName("EOI", Any)[1] == 'O';
    assert TerminalName("Epsilon", Any)[1] == 'p';
  }

  /** Different keys give different terminal names when no type holds a comma. */
  lemma NameSeparates(t1: string, d1: string, t2: string, d2: string)
    requires ',' !in t1 && ',' !in t2
    requires TerminalName(t1, d1) == TerminalName(t2, d2)
    ensures t1 == t2 && d1 == d2
  {
    var n := TerminalName(t1, d1);
    CommaFirst(t1, d1, t2, d2);
    CommaFirst(t2, d2, t1, d1);
    assert t1 == n[..|t1|] && t2 == n[..|t2|];
    assert d1 == n[|t1| + 1..] && d2 == n[|t2| + 1..];
  }

  /** The first comma of a terminal name ends its type. */
  lemma CommaFirst(t1: string, d1: string, t2: string, d2: string)
    requires ',' !in t2
    requires TerminalName(t1, d1) == TerminalName(t2, d2)
    ensures |t2| <= |t1|
  {
    if |t1| < |t2| {
      CommaAt(t1, d1);
      assert false;
    }
  }

  lemma CommaAt(t: string, d: string)
    ensures |t| < |TerminalName(t, d)| && TerminalName(t, d)[|t|] == ','
  {
  }

  /**
   * The static state behind `TerminalSymbol`, `NonTerminalSymbol`,
   * `Sentence` and `Syntax`, plus the counter that gives every new symbol
   * object its identity.
   */
  class Statics {
    /** `TerminalSymbol.StaticTable`. */
    var table: map<(string, string), Symbol>
    /** The identity the next symbol object gets. */
    var nextObject: nat
    /** `Sentence.StaticID`. */
    var nextSentence: nat
    /** `Syntax.StartSymbol`. */
    var start: Option<Symbol>

    /** Every entry is the terminal made for its key, with its own identity. */
    ghost predicate Valid()
      reads this
    {
      (forall k :: k in table ==> Interned(k, table[k]) && table[k].id < nextObject) &&
      forall k1, k2 :: k1 in table && k2 in table && k1 != k2 ==> table[k1].id != table[k2].id
    }

    constructor ()
      ensures Valid() && table == map[] && nextSentence == 0 && start == None
    {
      table := map[];
      nextObject := 0;
      nextSentence := 0;
      start := None;
    }

    /**
     * `TerminalSymbol.Get(type, data)`: the object already in the table for
     * (type, data), or a new one named `type + "," + data`, stored there.
     */
    method TerminalGet(dataType: string, data: string) returns (s: Symbol)
      requires Valid()
      modifies this
      ensures Valid() && (dataType, data) in table && s == table[(dataType, data)]
      ensures Interned((dataType, data), s)
      ensures (dataType, data) in old(table) ==> s == old(table)[(dataType, data)] && table == old(table) && nextObject == old(nextObject)
      ensures (dataType, data) !in old(table) ==>
        s.id == old(nextObject) && table == old(table)[(dataType, data) := s] && nextObject == old(nextObject) + 1
      ensures nextSentence == old(nextSentence) && start == old(start)
    {
      if (dataType, data) in table {
        s := table[(dataType, data)];
        return;
      }
      s := Symbol(nextObject, TerminalName(dataType, data), Terminal, dataType, data);
      table := table[(dataType, data) := s];
      nextObject := nextObject + 1;
    }

    /** `NonTerminalSymbol.Get(name)`: a new object on every call. */
    method NonTerminalGet(name: string) returns (s: Symbol)
      modifies this
      ensures s == Symbol(old(nextObject), name, NonTerminal, "", "")
      ensures nextObject == old(nextObject) + 1
      ensures table == old(table) && nextSentence == old(nextSentence) && start == old(start)
    {
      s := Symbol(nextObject, name, NonTerminal, "", "");
      nextObject := nextObject + 1;
    }

    /**
     * `new Sentence(left, right...)`: the next production id, a new
     * nonterminal object named `left` and a copy of `right`.
     */
    method NewSentence(left: string, right: seq<Symbol>) returns (p: Sentence)
      requires Valid()
      modifies this
      ensures Valid()
      ensures p == Sentence(old(nextSentence), Symbol(old(nextObject), left, NonTerminal, "", ""), right)
      ensures nextSentence == old(nextSentence) + 1 && nextObject == old(nextObject) + 1
      ensures table == old(table) && start == old(start)
    {
      var id := nextSentence;
      nextSentence := nextSentence + 1;
      var l := NonTerminalGet(left);
      p := Sentence(id, l, right);
    }

    /** `Syntax.EndOfInputSymbol`: the interned terminal `EOI,`. */
    method EndOfInput() returns (s: Symbol)
      requires Valid()
      modifies this
      ensures Valid() && s.kind == Terminal && s.name == "EOI," && ("EOI", Any) in table && s == table[("EOI", Any)]
      ensures ("EOI", Any) in old(table) ==> s == old(table)[("EOI", Any)] && table == old(table)
      ensures nextSentence == old(nextSentence) && start == old(start)
    {
      DistinguishedNames();
      s := TerminalGet("EOI", Any);
    }

    /** `Syntax.EpsilonSymbol`: the interned terminal `Epsilon,`. */
    method Epsilon() returns (s: Symbol)
      requires Valid()
      modifies this
      ensures Valid() && s.kind == Terminal && s.name == "Epsilon," && ("Epsilon", Any) in table && s == table[("Epsilon", Any)]
      ensures ("Epsilon", Any) in old(table) ==> s == old(table)[("Epsilon", Any)] && table == old(table)
      ensures nextSentence == old(nextSentence) && start == old(start)
    {
      DistinguishedNames();
      s := TerminalGet("Epsilon", Any);
    }
  }

  /** The productions of `ps` whose left-hand side is named `name`, in order. */
  function WithLeft(ps: seq<Sentence>, name: string): seq<Sentence>
  {
    if ps == [] then []
    else
      var n := |ps| - 1;
      var front := WithLeft(ps[..n], name);
      if ps[n].left.name == name then front + [ps[n]] else front
  }

  /** Exactly the productions with that left-hand name are listed. */
  lemma {:induction false} WithLeftMembers(ps: seq<Sentence>, name: string)
    ensures forall p :: p in WithLeft(ps, name) <==> p in ps && p.left.name == name
  {
    if ps != [] {
      var n := |ps| - 1;
      WithLeftMembers(ps[..n], name);
      assert ps == ps[..n] + [ps[n]];
    }
  }

  /** `AddSentence` on the index: append `p` to the list under its left-hand name, creating it if needed. */
  function Added(index: map<string, seq<Sentence>>, p: Sentence): map<string, seq<Sentence>>
  {
    index[p.left.name := (if p.left.name in index then index[p.left.name] else []) + [p]]
  }

  /** The list under `name`, or none. */
  function Lookup(index: map<string, seq<Sentence>>, name: string): seq<Sentence>
  {
    if name in index then index[name] else []
  }

  /** Adding `p` to an index of `ps` gives the index of `ps + [p]`. */
  lemma AddedLists(index: map<string, seq<Sentence>>, ps: seq<Sentence>, p: Sentence)
    requires forall name {:trigger Lookup(index, name)} :: Lookup(index, name) == WithLeft(ps, name)
    ensures forall name {:trigger Lookup(Added(index, p), name)} :: Lookup(Added(index, p), name) == WithLeft(ps + [p], name)
  {
    forall name ensures Lookup(Added(index, p), name) == WithLeft(ps + [p], name) {
      assert Lookup(index, name) == WithLeft(ps, name);
      assert (ps + [p])[..|ps|] == ps;
    }
  }

  /**
   * `Syntax`: its name, the productions it was created with, and the index
   * by left-hand name, which `AddSentence` extends (`Sentences` does not
   * change). `added` records every production ever added, in order.
   */
  class Syntax {
    const name: string
    const sentences: seq<Sentence>
    var byLeft: map<string, seq<Sentence>>
    ghost var added: seq<Sentence>

    /** Under every name the index lists the added productions with that left-hand name, in order. */
    ghost predicate Valid()
      reads this
    {
      forall name {:trigger Lookup(byLeft, name)} :: Lookup(byLeft, name) == WithLeft(added, name)
    }

    /** The constructor: store `sentences` and add each of them, in order. */
    constructor (name: string, sentences: seq<Sentence>)
      ensures Valid() && this.name == name && this.sentences == sentences && added == sentences
    {
      this.name := name;
      this.sentences := sentences;
      byLeft := map[];
      added := [];
      new;
      for i := 0 to |sentences|
        invariant Valid() && added == sentences[..i]
      {
        AddSentence(sentences[i]);
        assert sentences[..i + 1][..i] == sentences[..i];
      }
      assert sentences[..|sentences|] == sentences;
    }

    /** `AddSentence`: append to the list under the production's left-hand name. */
    method AddSentence(p: Sentence)
      requires Valid()
      modifies this
      ensures Valid() && added == old(added) + [p]
      ensures byLeft == Added(old(byLeft), p)
    {
      AddedLists(byLeft, added, p);
      byLeft := Added(byLeft, p);
      added := added + [p];
    }

    /** `GetSentence`: the productions added under the symbol's `Name`, or none. */
    function GetSentence(symbol: Symbol): (r: seq<Sentence>)
      requires Valid()
      reads this
      ensures r == WithLeft(added, symbol.name)
    {
      Lookup(byLeft, symbol.name)
    }

    /** `SetStartSymbol`: the static start symbol becomes `symbol`; the last call wins. */
    method SetStartSymbol(st: Statics, symbol: Symbol)
      modifies st
      ensures st.start == Some(symbol)
      ensures st.table == old(st.table) && st.nextObject == old(st.nextObject) && st.nextSentence == old(st.nextSentence)
    {
      st.start := Some(symbol);
    }
  }
}
