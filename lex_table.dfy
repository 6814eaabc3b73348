/**
 * `LexTable`: for each lexical category the list of distinct words seen so
 * far, and the token stream `Rst` as (category, index into that list).
 */
module LexTables {

  /** `LexCategory`, numbered from 1 in the C# enum. */
  datatype LexCategory = Keyword | Identifier | Int | Float | String | CalculatorSign | Delimiters

  /** All seven categories. */
  const Categories: set<LexCategory> := {Keyword, Identifier, Int, Float, String, CalculatorSign, Delimiters}

  lemma AllCategories(c: LexCategory)
    ensures c in Categories
  {
  }

  /** `List<string>.IndexOf`: the first position holding `x`, or -1. */
  function IndexOf(xs: seq<string>, x: string): (r: int)
    ensures -1 <= r < |xs|
    ensures r == -1 <==> x !in xs
    ensures r >= 0 ==> xs[r] == x && forall j :: 0 <= j < r ==> xs[j] != x
  {
    if xs == [] then -1
    else if xs[0] == x then 0
    else
      var r := IndexOf(xs[1..], x);
      if r == -1 then -1 else r + 1
  }

  /** No word occurs twice in a list. */
  ghost predicate NoDuplicates(xs: seq<string>)
  {
    forall i, j :: 0 <= i < j < |xs| ==> xs[i] != xs[j]
  }

  /** The list after `StepNextResult` has looked `data` up in it. */
  function Recorded(xs: seq<string>, data: string): (r: seq<string>)
    ensures NoDuplicates(xs) ==> NoDuplicates(r)
    ensures data in r
    ensures xs <= r && |r| <= |xs| + 1
  {
    if IndexOf(xs, data) == -1 then xs + [data] else xs
  }

  /** Every category has a word list without repetitions, and every token names a word in it. */
  ghost predicate Consistent(words: map<LexCategory, seq<string>>, rst: seq<(LexCategory, nat)>)
  {
    words.Keys == Categories &&
    (forall c :: c in words ==> NoDuplicates(words[c])) &&
    forall k :: 0 <= k < |rst| ==> rst[k].0 in words && rst[k].1 < |words[rst[k].0]|
  }

  /** Recording a word keeps the table consistent, and the new token names that word. */
  lemma StepConsistent(words: map<LexCategory, seq<string>>, rst: seq<(LexCategory, nat)>, c: LexCategory, data: string)
    requires Consistent(words, rst) && c in words
    ensures var w := words[c := Recorded(words[c], data)];
            var i := IndexOf(w[c], data);
            i >= 0 && Consistent(w, rst + [(c, i)]) && w[c][i] == data
  {
    var w := words[c := Recorded(words[c], data)];
    var r := rst + [(c, IndexOf(w[c], data))];
    forall k | 0 <= k < |r| ensures r[k].0 in w && r[k].1 < |w[r[k].0]| {
      if k < |rst| {
        assert r[k] == rst[k];
      }
    }
  }

  class LexTable {
    var words: map<LexCategory, seq<string>>
    var rst: seq<(LexCategory, nat)>

    /** Every category has a word list without repetitions, and every token names a word in it. */
    ghost predicate Valid()
      reads this
    {
      Consistent(words, rst)
    }

    /** The initialisers of `Words` and `Rst`: seven empty lists and no tokens. */
    constructor ()
      ensures Valid()
      ensures forall c :: c in words && words[c] == []
      ensures rst == []
    {
      words := map[Keyword := [], Int := [], Float := [], String := [], Identifier := [],
                   Delimiters := [], CalculatorSign := []];
      rst := [];
      new;
      forall c ensures c in words && words[c] == [] {
        AllCategories(c);
      }
    }

    /** The indexer `this[category]`. */
    function Get(category: LexCategory): (r: seq<string>)
      requires Valid()
      reads this
      ensures category in words && r == words[category]
    {
      AllCategories(category);
      words[category]
    }

    /**
     * `StepNextResult`: find `data` in its category's list, appending it
     * when absent, and record the token (category, index).
     */
    method StepNextResult(category: LexCategory, data: string)
      requires Valid()
      modifies this
      ensures Valid()
      ensures words == old(words)[category := Recorded(old(words)[category], data)]
      ensures rst == old(rst) + [(category, IndexOf(words[category], data))]
      ensures words[rst[|rst| - 1].0][rst[|rst| - 1].1] == data
    {
      AllCategories(category);
      StepConsistent(words, rst, category, data);
      var list := words[category];
      var index := IndexOf(list, data);
      if index == -1 {
        list := list + [data];
        index := |list| - 1;
        NewWordAppended(words[category], data);
      }
      words := words[category := list];
      rst := rst + [(category, index)];
    }
  }

  /** In a list without repetitions the only position of a word is its first. */
  lemma WordIsFirst(xs: seq<string>, x: string, i: int)
    requires 0 <= i < |xs| && xs[i] == x && forall j :: 0 <= j < i ==> xs[j] != x
    ensures IndexOf(xs, x) == i
  {
  }

  /** A word already in the list keeps its first index: the list does not change. */
  lemma SeenWordReused(xs: seq<string>, data: string)
    requires data in xs
    ensures Recorded(xs, data) == xs
    ensures IndexOf(Recorded(xs, data), data) == IndexOf(xs, data)
  {
  }

  /** A new word goes to the end of the list. */
  lemma NewWordAppended(xs: seq<string>, data: string)
    requires data !in xs
    ensures Recorded(xs, data) == xs + [data]
    ensures IndexOf(Recorded(xs, data), data) == |xs|
  {
    var r := xs + [data];
    assert r[|xs|] == data;
    WordIsFirst(r, data, |xs|);
  }
}
