/**
 * The pattern language of the lexical engine: the abstract syntax tree that
 * the regex parser builds (EplisionNode, CharacterNode, ConcatNode,
 * AlternateNode, ClosureNode) and the set of strings each tree denotes.
 */
module RegexAst {

  /** One node kind per AST class of the pattern language. */
  datatype Regex =
    | Eps                          // `()`: matches the empty string only
    | Char(c: char)                // one literal character
    | Concat(left: Regex, right: Regex)
    | Alt(left: Regex, right: Regex)
    | Star(inner: Regex)           // Kleene closure `x*`

  /** `w` belongs to the language of `r`. */
  ghost predicate Matches(r: Regex, w: string)
    decreases r, |w|
  {
    match r
    case Eps => w == []
    case Char(c) => w == [c]
    case Concat(a, b) => exists k :: 0 <= k <= |w| && Matches(a, w[..k]) && Matches(b, w[k..])
    case Alt(a, b) => Matches(a, w) || Matches(b, w)
    case Star(a) =>
      w == [] || exists k :: 0 < k <= |w| && Matches(a, w[..k]) && Matches(Star(a), w[k..])
  }

  /** Concatenating a word of `a` with a word of `Star(a)` gives a word of `Star(a)`. */
  lemma StarCons(a: Regex, u: string, v: string)
    requires Matches(a, u) && Matches(Star(a), v)
    ensures Matches(Star(a), u + v)
  {
    if u != [] {
      var w := u + v;
      assert w[..|u|] == u && w[|u|..] == v;
    } else {
      assert u + v == v;
    }
  }

  /** Witness form of the Concat case: `u + v` is a word of `Concat(a, b)`. */
  lemma ConcatIntro(a: Regex, b: Regex, u: string, v: string)
    requires Matches(a, u) && Matches(b, v)
    ensures Matches(Concat(a, b), u + v)
  {
    var w := u + v;
    assert w[..|u|] == u && w[|u|..] == v;
  }
}
