/**
 * The recursive-descent pattern parser (RegexParser):
 *
 *   Expr   := Term ('|' Term)*
 *   Term   := Factor Factor*      (stops at end of input, ')' or '|')
 *   Factor := Atom '*'?
 *   Atom   := '(' ')' | '(' Expr ')' | any other character
 *
 * The functions below thread the position explicitly and give the meaning of
 * the class `RegexParser`, whose methods advance a `position` field as the
 * source does. The two exceptions of the source become `ParseError`s.
 */
module RegexParsing {
  import opened Wrappers
  import opened RegexAst

  /** The two exceptions the parser throws. */
  datatype ParseError =
    | UnexpectedEnd       // an atom was expected at end of input (NotSupportedException)
    | MissingCloseParen   // `(` Expr not followed by `)` (KeyNotFoundException)

  /** A parsed node and the position just after it. */
  datatype Parsed = Parsed(node: Regex, pos: nat)

  type ParseResult = Result<Parsed, ParseError>

  /** The character at `pos`, or None past the end (`char?` in the source). */
  function PeekAt(s: string, pos: nat): (r: Option<char>)
    ensures r.None? <==> pos >= |s|
    ensures r.Some? ==> r.value == s[pos]
  {
    if pos < |s| then Some(s[pos]) else None
  }

  /** True if the result parsed something and ended no earlier than `pos`. */
  predicate EndsAfter(r: ParseResult, s: string, pos: nat, strict: bool)
  {
    r.Success? ==> (if strict then pos < r.value.pos else pos <= r.value.pos) && r.value.pos <= |s|
  }

  // Ranks for the lexicographic termination measure (|s| - pos, rank).

  function ParseExprAt(s: string, pos: nat): (r: ParseResult)
    requires pos <= |s|
    ensures EndsAfter(r, s, pos, true)
    decreases |s| - pos, 4
  {
    match ParseTermAt(s, pos)
    case Failure(e) => Failure(e)
    case Success(t) => ExprTail(s, t.node, t.pos)
  }

  /** The `while (Peek() == '|')` loop of ParseExpression, with accumulator `acc`. */
  function ExprTail(s: string, acc: Regex, pos: nat): (r: ParseResult)
    requires pos <= |s|
    ensures EndsAfter(r, s, pos, false)
    decreases |s| - pos, 4
  {
    if pos < |s| && s[pos] == '|' then
      match ParseTermAt(s, pos + 1)
      case Failure(e) => Failure(e)
      case Success(t) => ExprTail(s, Alt(acc, t.node), t.pos)
    else
      Success(Parsed(acc, pos))
  }

  function ParseTermAt(s: string, pos: nat): (r: ParseResult)
    requires pos <= |s|
    ensures EndsAfter(r, s, pos, true)
    decreases |s| - pos, 3
  {
    match ParseFactorAt(s, pos)
    case Failure(e) => Failure(e)
    case Success(f) => TermTail(s, f.node, f.pos)
  }

  /** The loop of ParseTerm: more factors until end of input, `)` or `|`. */
  function TermTail(s: string, acc: Regex, pos: nat): (r: ParseResult)
    requires pos <= |s|
    ensures EndsAfter(r, s, pos, false)
    decreases |s| - pos, 3
  {
    if pos < |s| && s[pos] != ')' && s[pos] != '|' then
      match ParseFactorAt(s, pos)
      case Failure(e) => Failure(e)
      case Success(f) => TermTail(s, Concat(acc, f.node), f.pos)
    else
      Success(Parsed(acc, pos))
  }

  function ParseFactorAt(s: string, pos: nat): (r: ParseResult)
    requires pos <= |s|
    ensures EndsAfter(r, s, pos, true)
    decreases |s| - pos, 2
  {
    match ParseAtomAt(s, pos)
    case Failure(e) => Failure(e)
    case Success(a) =>
      if a.pos < |s| && s[a.pos] == '*' then Success(Parsed(Star(a.node), a.pos + 1))
      else Success(a)
  }

  /** ParseFactorInner. */
  function ParseAtomAt(s: string, pos: nat): (r: ParseResult)
    requires pos <= |s|
    ensures EndsAfter(r, s, pos, true)
    decreases |s| - pos, 1
  {
    if pos < |s| && s[pos] == '(' then
      if pos + 1 < |s| && s[pos + 1] == ')' then Success(Parsed(Eps, pos + 2))
      else
        match ParseExprAt(s, pos + 1)
        case Failure(e) => Failure(e)
        case Success(e) =>
          if e.pos == |s| || s[e.pos] != ')' then Failure(MissingCloseParen)
          else Success(Parsed(e.node, e.pos + 1))
    else if pos < |s| then Success(Parsed(Char(s[pos]), pos + 1))
    else Failure(UnexpectedEnd)
  }

  /**
   * What a parser method returned (`r`) and where it left the position (`pos`)
   * agree with the mathematical parse `spec`.
   */
  predicate Agrees(r: Result<Regex, ParseError>, pos: nat, spec: ParseResult)
  {
    match spec
    case Success(p) => r == Success(p.node) && pos == p.pos
    case Failure(e) => r == Failure(e)
  }

  /** The parser object of the source: the current pattern and a cursor into it. */
  class RegexParser {
    var input: string
    var position: nat

    constructor ()
      ensures input == "" && position == 0
    {
      input := "";
      position := 0;
    }

    /** Start parsing a new pattern (`_position = 0; _input = pair.Value`). */
    method Reset(pattern: string)
      modifies this
      ensures input == pattern && position == 0
    {
      position := 0;
      input := pattern;
    }

    method Peek() returns (r: Option<char>)
      ensures r.None? <==> position >= |input|
      ensures r.Some? ==> r.value == input[position]
    {
      r := if position < |input| then Some(input[position]) else None;
    }

    method Advance()
      modifies this
      ensures input == old(input) && position == old(position) + 1
    {
      position := position + 1;
    }

    method ParseExpression() returns (r: Result<Regex, ParseError>)
      requires position <= |input|
      modifies this
      ensures input == old(input)
      ensures Agrees(r, position, ParseExprAt(input, old(position)))
      decreases |input| - position, 4
    {
      var term := ParseTerm();
      if term.Failure? {
        return Failure(term.error);
      }
      var node := term.value;
      var c := Peek();
      while c == Some('|')
        invariant input == old(input) && old(position) <= position <= |input|
        invariant c == PeekAt(input, position)
        invariant ExprTail(input, node, position) == ParseExprAt(input, old(position))
        decreases |input| - position
      {
        Advance();
        var next := ParseTerm();
        if next.Failure? {
          return Failure(next.error);
        }
        node := Alt(node, next.value);
        c := Peek();
      }
      return Success(node);
    }

    method ParseTerm() returns (r: Result<Regex, ParseError>)
      requires position <= |input|
      modifies this
      ensures input == old(input)
      ensures Agrees(r, position, ParseTermAt(input, old(position)))
      decreases |input| - position, 3
    {
      var factor := ParseFactor();
      if factor.Failure? {
        return Failure(factor.error);
      }
      var node := factor.value;
      var c := Peek();
      while c.Some? && c.value != ')' && c.value != '|'
        invariant input == old(input) && old(position) <= position <= |input|
        invariant c == PeekAt(input, position)
        invariant TermTail(input, node, position) == ParseTermAt(input, old(position))
        decreases |input| - position
      {
        var next := ParseFactor();
        if next.Failure? {
          return Failure(next.error);
        }
        node := Concat(node, next.value);
        c := Peek();
      }
      return Success(node);
    }

    method ParseFactor() returns (r: Result<Regex, ParseError>)
      requires position <= |input|
      modifies this
      ensures input == old(input)
      ensures Agrees(r, position, ParseFactorAt(input, old(position)))
      decreases |input| - position, 2
    {
      var node := ParseFactorInner();
      if node.Failure? {
        return node;
      }
      var c := Peek();
      if c == Some('*') {
        Advance();
        return Success(Star(node.value));
      }
      return node;
    }

    method ParseFactorInner() returns (r: Result<Regex, ParseError>)
      requires position <= |input|
      modifies this
      ensures input == old(input)
      ensures Agrees(r, position, ParseAtomAt(input, old(position)))
      decreases |input| - position, 1
    {
      var c := Peek();
      if c == Some('(') {
        Advance();
        var d := Peek();
        if d == Some(')') {
          Advance();
          return Success(Eps);
        }
        var expr := ParseExpression();
        if expr.Failure? {
          return expr;
        }
        var e := Peek();
        if e != Some(')') {
          return Failure(MissingCloseParen);
        }
        Advance();
        return expr;
      }
      Advance();
      if c.None? {
        return Failure(UnexpectedEnd);
      }
      return Success(Char(c.value));
    }
  }

  // ---------------------------------------------------------------------------
  // Error cases and shape of the parse.

  /** An atom expected at end of input is an error: the empty pattern, a trailing
      `|` and a trailing `(` all fail this way. */
  lemma {:induction false} AtomAtEndFails(s: string)
    ensures ParseAtomAt(s, |s|) == Failure(UnexpectedEnd)
    ensures ParseFactorAt(s, |s|) == Failure(UnexpectedEnd)
    ensures ParseTermAt(s, |s|) == Failure(UnexpectedEnd)
    ensures ParseExprAt(s, |s|) == Failure(UnexpectedEnd)
  {
  }

  lemma ErrorExamples()
    ensures ParseExprAt("", 0) == Failure(UnexpectedEnd)
    ensures ParseExprAt("a|", 0) == Failure(UnexpectedEnd)
    ensures ParseExprAt("a(", 0) == Failure(UnexpectedEnd)
    ensures ParseExprAt("(a", 0) == Failure(MissingCloseParen)
  {
    AtomAtEndFails("");
    AtomAtEndFails("a|");
    AtomAtEndFails("a(");
    assert ParseTermAt("(a", 1) == Success(Parsed(Char('a'), 2));
  }

  lemma ShapeExamples()
    ensures ParseExprAt("()", 0) == Success(Parsed(Eps, 2))
    ensures ParseExprAt("a|b|c", 0) == Success(Parsed(Alt(Alt(Char('a'), Char('b')), Char('c')), 5))
    ensures ParseExprAt("abc", 0) == Success(Parsed(Concat(Concat(Char('a'), Char('b')), Char('c')), 3))
    ensures ParseExprAt("a**", 0) == Success(Parsed(Concat(Star(Char('a')), Char('*')), 3))
    ensures ParseExprAt("a)b", 0) == Success(Parsed(Char('a'), 1))
  {
    assert ParseTermAt("a|b|c", 4) == Success(Parsed(Char('c'), 5));
    assert ParseTermAt("a|b|c", 2) == Success(Parsed(Char('b'), 3));
    assert ParseTermAt("a|b|c", 0) == Success(Parsed(Char('a'), 1));
    assert TermTail("abc", Concat(Char('a'), Char('b')), 2) == Success(Parsed(Concat(Concat(Char('a'), Char('b')), Char('c')), 3));
    assert ParseFactorAt("a**", 0) == Success(Parsed(Star(Char('a')), 2));
    assert ParseFactorAt("a**", 2) == Success(Parsed(Char('*'), 3));
  }

  /** At atom position every character other than `(` is a literal, `|`, `)` and `*` included. */
  lemma AtomLiteral(s: string, pos: nat)
    requires pos < |s| && s[pos] != '('
    ensures ParseAtomAt(s, pos) == Success(Parsed(Char(s[pos]), pos + 1))
  {
  }

  // ---------------------------------------------------------------------------
  // A printer, and the round trip: parsing a printed tree gives the tree back.

  /** Characters that the parser treats specially somewhere. */
  predicate Plain(c: char)
  {
    c != '(' && c != ')' && c != '|' && c != '*'
  }

  predicate PlainChars(r: Regex)
  {
    match r
    case Eps => true
    case Char(c) => Plain(c)
    case Concat(a, b) => PlainChars(a) && PlainChars(b)
    case Alt(a, b) => PlainChars(a) && PlainChars(b)
    case Star(a) => PlainChars(a)
  }

  /** Prints `r` with every compound node in parentheses, so that each printed
      tree reads back as a single atom. */
  function Show(r: Regex): (x: string)
    ensures |x| > 0 && (x[0] == '(' || (r.Char? && x == [r.c]))
  {
    match r
    case Eps => "()"
    case Char(c) => [c]
    case Star(a) => "(" + Show(a) + "*)"
    case Concat(a, b) => "(" + Show(a) + Show(b) + ")"
    case Alt(a, b) => "(" + Show(a) + "|" + Show(b) + ")"
  }

  /** A printed plain tree starts with `(` or with a plain character. */
  lemma ShowStarts(r: Regex)
    requires PlainChars(r)
    ensures Show(r)[0] == '(' || Plain(Show(r)[0])
  {
  }

  /** `s` holds `x` at `pos`. */
  predicate At(s: string, pos: nat, x: string)
  {
    pos + |x| <= |s| && SameChars(s, pos, x)
  }

  /** Character by character (recursive, so that proofs unfold it only on demand). */
  predicate SameChars(s: string, pos: nat, x: string)
    decreases |x|
  {
    |x| == 0 || (pos < |s| && s[pos] == x[0] && SameChars(s, pos + 1, x[1..]))
  }

  lemma {:induction false} SplitAt(s: string, pos: nat, x: string, y: string)
    requires At(s, pos, x + y)
    ensures At(s, pos, x) && At(s, pos + |x|, y)
    ensures |y| > 0 ==> s[pos + |x|] == y[0]
    decreases |x|
  {
    if |x| > 0 {
      assert (x + y)[1..] == x[1..] + y;
      SplitAt(s, pos + 1, x[1..], y);
    } else {
      assert x + y == y;
    }
  }

  /** Every suffix of `s` sits where it starts. */
  lemma {:induction false} AtSuffix(s: string, k: nat)
    requires k <= |s|
    ensures At(s, k, s[k..])
    decreases |s| - k
  {
    if k < |s| {
      assert s[k..][1..] == s[k + 1..];
      AtSuffix(s, k + 1);
    }
  }

  // One-step facts about the parse functions, kept apart so that each proof
  // below unfolds the parser only once.

  lemma ExprTailStop(s: string, acc: Regex, p: nat)
    requires p <= |s| && (p < |s| ==> s[p] == ')')
    ensures ExprTail(s, acc, p) == Success(Parsed(acc, p))
  {
  }

  lemma TermTailStop(s: string, acc: Regex, p: nat)
    requires p <= |s| && (p < |s| ==> s[p] == ')' || s[p] == '|')
    ensures TermTail(s, acc, p) == Success(Parsed(acc, p))
  {
  }

  lemma TermTailFactor(s: string, acc: Regex, p: nat, b: Regex, q: nat)
    requires p < |s| && s[p] != ')' && s[p] != '|' && ParseFactorAt(s, p) == Success(Parsed(b, q))
    ensures TermTail(s, acc, p) == TermTail(s, Concat(acc, b), q)
  {
  }

  lemma ExprTailBar(s: string, acc: Regex, p: nat, b: Regex, q: nat)
    requires p < |s| && s[p] == '|' && ParseTermAt(s, p + 1) == Success(Parsed(b, q))
    ensures ExprTail(s, acc, p) == ExprTail(s, Alt(acc, b), q)
  {
  }

  /** An atom not followed by `*` is a whole factor. */
  lemma FactorOfAtom(s: string, pos: nat, r: Regex, q: nat)
    requires pos <= |s| && ParseAtomAt(s, pos) == Success(Parsed(r, q))
    requires q < |s| ==> s[q] != '*'
    ensures ParseFactorAt(s, pos) == Success(Parsed(r, q))
  {
  }

  /** An atom followed by `*` is a starred factor. */
  lemma FactorOfStar(s: string, pos: nat, r: Regex, q: nat)
    requires pos <= |s| && ParseAtomAt(s, pos) == Success(Parsed(r, q))
    requires q < |s| && s[q] == '*'
    ensures ParseFactorAt(s, pos) == Success(Parsed(Star(r), q + 1))
  {
  }

  /** A factor followed by a stop character is the whole expression. */
  lemma ExprOfFactor(s: string, pos: nat, r: Regex, q: nat)
    requires pos <= |s| && ParseFactorAt(s, pos) == Success(Parsed(r, q))
    requires q < |s| ==> s[q] == ')'
    ensures ParseExprAt(s, pos) == Success(Parsed(r, q))
  {
    TermTailStop(s, r, q);
    assert ParseTermAt(s, pos) == Success(Parsed(r, q));
    ExprTailStop(s, r, q);
  }

  /** `(` Expr `)`, when the Expr does not start with `)`. */
  lemma AtomOfGroup(s: string, pos: nat, r: Regex, q: nat)
    requires pos + 1 < |s| && s[pos] == '(' && s[pos + 1] != ')'
    requires ParseExprAt(s, pos + 1) == Success(Parsed(r, q)) && q < |s| && s[q] == ')'
    ensures ParseAtomAt(s, pos) == Success(Parsed(r, q + 1))
  {
  }

  // The three compound bodies, from the atoms they are made of.

  lemma StarBody(s: string, p: nat, a: Regex, q: nat)
    requires p <= |s| && ParseAtomAt(s, p) == Success(Parsed(a, q))
    requires q + 1 < |s| && s[q] == '*' && s[q + 1] == ')'
    ensures ParseExprAt(s, p) == Success(Parsed(Star(a), q + 1))
  {
    FactorOfStar(s, p, a, q);
    ExprOfFactor(s, p, Star(a), q + 1);
  }

  lemma ConcatBody(s: string, p: nat, a: Regex, q: nat, b: Regex, q2: nat)
    requires p <= |s| && ParseAtomAt(s, p) == Success(Parsed(a, q))
    requires q < |s| && s[q] != '*' && s[q] != ')' && s[q] != '|'
    requires ParseAtomAt(s, q) == Success(Parsed(b, q2)) && q2 < |s| && s[q2] == ')'
    ensures ParseExprAt(s, p) == Success(Parsed(Concat(a, b), q2))
  {
    FactorOfAtom(s, p, a, q);
    FactorOfAtom(s, q, b, q2);
    TermTailFactor(s, a, q, b, q2);
    TermTailStop(s, Concat(a, b), q2);
    assert ParseTermAt(s, p) == Success(Parsed(Concat(a, b), q2));
    ExprTailStop(s, Concat(a, b), q2);
  }

  lemma AltBody(s: string, p: nat, a: Regex, q: nat, b: Regex, q2: nat)
    requires p <= |s| && ParseAtomAt(s, p) == Success(Parsed(a, q))
    requires q < |s| && s[q] == '|'
    requires ParseAtomAt(s, q + 1) == Success(Parsed(b, q2)) && q2 < |s| && s[q2] == ')'
    ensures ParseExprAt(s, p) == Success(Parsed(Alt(a, b), q2))
  {
    FactorOfAtom(s, p, a, q);
    TermTailStop(s, a, q);
    assert ParseTermAt(s, p) == Success(Parsed(a, q));
    FactorOfAtom(s, q + 1, b, q2);
    TermTailStop(s, b, q2);
    assert ParseTermAt(s, q + 1) == Success(Parsed(b, q2));
    ExprTailBar(s, a, q, b, q2);
    ExprTailStop(s, Alt(a, b), q2);
  }

  /** Where the pieces of `(x)` sit when `s` holds it at `pos`. */
  lemma ParenLayout(s: string, pos: nat, x: string)
    requires At(s, pos, "(" + x + ")") && |x| > 0
    ensures pos < |s| && s[pos] == '(' && s[pos + 1] == x[0] && At(s, pos + 1, x)
    ensures pos + 1 + |x| < |s| && s[pos + 1 + |x|] == ')'
  {
    assert "(" + x + ")" == "(" + (x + ")");
    SplitAt(s, pos, "(", x + ")");
    SplitAt(s, pos + 1, x, ")");
    AtHead(s, pos + 1, x);
  }

  lemma AtHead(s: string, pos: nat, x: string)
    requires At(s, pos, x) && |x| > 0
    ensures s[pos] == x[0]
  {
  }

  /** Where the pieces of `xy` sit when `s` holds it at `pos`. */
  lemma PairLayout(s: string, pos: nat, x: string, y: string)
    requires At(s, pos, x + y) && |y| > 0
    ensures At(s, pos, x) && At(s, pos + |x|, y) && pos + |x| < |s| && s[pos + |x|] == y[0]
  {
    SplitAt(s, pos, x, y);
  }

  /** Parsing a printed tree as an atom gives back exactly that tree, whatever follows it. */
  lemma {:induction false} RoundTripAtom(r: Regex, s: string, pos: nat)
    requires PlainChars(r) && At(s, pos, Show(r))
    ensures ParseAtomAt(s, pos) == Success(Parsed(r, pos + |Show(r)|))
    decreases r, 1
  {
    match r
    case Eps =>
      SplitAt(s, pos, "(", ")");
    case Char(c) =>
      AtHead(s, pos, [c]);
    case Star(a) =>
      RoundTripStar(a, s, pos);
    case Concat(a, b) =>
      RoundTripConcat(a, b, s, pos);
    case Alt(a, b) =>
      RoundTripAlt(a, b, s, pos);
  }

  lemma {:induction false} RoundTripStar(a: Regex, s: string, pos: nat)
    requires PlainChars(a) && At(s, pos, Show(Star(a)))
    ensures ParseAtomAt(s, pos) == Success(Parsed(Star(a), pos + |Show(Star(a))|))
    decreases Star(a), 0
  {
    var x := Show(a);
    ShowStarts(a);
    StarLayout(s, pos, x);
    RoundTripAtom(a, s, pos + 1);
    StarGroup(s, pos, a, pos + 1 + |x|);
  }

  /** Where the pieces of `(x*)` sit when `s` holds it at `pos`. */
  lemma StarLayout(s: string, pos: nat, x: string)
    requires At(s, pos, "(" + x + "*)") && |x| > 0 && (x[0] == '(' || Plain(x[0]))
    ensures At(s, pos + 1, x) && pos + 2 + |x| < |s|
    ensures s[pos] == '(' && s[pos + 1] != ')' && s[pos + 1 + |x|] == '*' && s[pos + 2 + |x|] == ')'
  {
    assert "(" + x + "*)" == "(" + (x + "*") + ")";
    ParenLayout(s, pos, x + "*");
    PairLayout(s, pos + 1, x, "*");
  }

  /** `(` atom `*` `)` reads back as a starred atom. */
  lemma StarGroup(s: string, pos: nat, a: Regex, q: nat)
    requires pos + 1 < |s| && s[pos] == '(' && s[pos + 1] != ')'
    requires ParseAtomAt(s, pos + 1) == Success(Parsed(a, q))
    requires q + 1 < |s| && s[q] == '*' && s[q + 1] == ')'
    ensures ParseAtomAt(s, pos) == Success(Parsed(Star(a), q + 2))
  {
    StarBody(s, pos + 1, a, q);
    AtomOfGroup(s, pos, Star(a), q + 1);
  }

  lemma {:induction false} RoundTripConcat(a: Regex, b: Regex, s: string, pos: nat)
    requires PlainChars(a) && PlainChars(b) && At(s, pos, Show(Concat(a, b)))
    ensures ParseAtomAt(s, pos) == Success(Parsed(Concat(a, b), pos + |Show(Concat(a, b))|))
    decreases Concat(a, b), 0
  {
    var x, y := Show(a), Show(b);
    ShowStarts(a);
    ShowStarts(b);
    ConcatLayout(s, pos, x, y);
    RoundTripAtom(a, s, pos + 1);
    RoundTripAtom(b, s, pos + 1 + |x|);
    ConcatGroup(s, pos, a, pos + 1 + |x|, b, pos + 1 + |x| + |y|);
  }

  /** Where the pieces of `(xy)` sit when `s` holds it at `pos`. */
  lemma ConcatLayout(s: string, pos: nat, x: string, y: string)
    requires At(s, pos, "(" + x + y + ")")
    requires |x| > 0 && (x[0] == '(' || Plain(x[0])) && |y| > 0 && (y[0] == '(' || Plain(y[0]))
    ensures At(s, pos + 1, x) && At(s, pos + 1 + |x|, y) && pos + 1 + |x| + |y| < |s|
    ensures s[pos] == '(' && s[pos + 1] != ')'
    ensures s[pos + 1 + |x|] != '*' && s[pos + 1 + |x|] != ')' && s[pos + 1 + |x|] != '|'
    ensures s[pos + 1 + |x| + |y|] == ')'
  {
    assert "(" + x + y + ")" == "(" + (x + y) + ")";
    ParenLayout(s, pos, x + y);
    PairLayout(s, pos + 1, x, y);
  }

  /** `(` atom atom `)` reads back as their concatenation. */
  lemma ConcatGroup(s: string, pos: nat, a: Regex, q: nat, b: Regex, q2: nat)
    requires pos + 1 < |s| && s[pos] == '(' && s[pos + 1] != ')'
    requires ParseAtomAt(s, pos + 1) == Success(Parsed(a, q))
    requires q < |s| && s[q] != '*' && s[q] != ')' && s[q] != '|'
    requires ParseAtomAt(s, q) == Success(Parsed(b, q2)) && q2 < |s| && s[q2] == ')'
    ensures ParseAtomAt(s, pos) == Success(Parsed(Concat(a, b), q2 + 1))
  {
    ConcatBody(s, pos + 1, a, q, b, q2);
    AtomOfGroup(s, pos, Concat(a, b), q2);
  }

  lemma {:induction false} RoundTripAlt(a: Regex, b: Regex, s: string, pos: nat)
    requires PlainChars(a) && PlainChars(b) && At(s, pos, Show(Alt(a, b)))
    ensures ParseAtomAt(s, pos) == Success(Parsed(Alt(a, b), pos + |Show(Alt(a, b))|))
    decreases Alt(a, b), 0
  {
    var x, y := Show(a), Show(b);
    ShowStarts(a);
    AltLayout(s, pos, x, y);
    RoundTripAtom(a, s, pos + 1);
    RoundTripAtom(b, s, pos + 2 + |x|);
    AltGroup(s, pos, a, pos + 1 + |x|, b, pos + 2 + |x| + |y|);
  }

  /** Where the pieces of `(x|y)` sit when `s` holds it at `pos`. */
  lemma AltLayout(s: string, pos: nat, x: string, y: string)
    requires At(s, pos, "(" + x + "|" + y + ")") && |x| > 0 && (x[0] == '(' || Plain(x[0]))
    ensures At(s, pos + 1, x) && At(s, pos + 2 + |x|, y) && pos + 2 + |x| + |y| < |s|
    ensures s[pos] == '(' && s[pos + 1] != ')'
    ensures s[pos + 1 + |x|] == '|' && s[pos + 2 + |x| + |y|] == ')'
  {
    assert "(" + x + "|" + y + ")" == "(" + (x + ("|" + y)) + ")";
    ParenLayout(s, pos, x + ("|" + y));
    PairLayout(s, pos + 1, x, "|" + y);
    SplitAt(s, pos + 1 + |x|, "|", y);
  }

  /** `(` atom `|` atom `)` reads back as their alternation. */
  lemma AltGroup(s: string, pos: nat, a: Regex, q: nat, b: Regex, q2: nat)
    requires pos + 1 < |s| && s[pos] == '(' && s[pos + 1] != ')'
    requires ParseAtomAt(s, pos + 1) == Success(Parsed(a, q)) && q < |s| && s[q] == '|'
    requires ParseAtomAt(s, q + 1) == Success(Parsed(b, q2)) && q2 < |s| && s[q2] == ')'
    ensures ParseAtomAt(s, pos) == Success(Parsed(Alt(a, b), q2 + 1))
  {
    AltBody(s, pos + 1, a, q, b, q2);
    AtomOfGroup(s, pos, Alt(a, b), q2);
  }

  /** Parsing a printed tree gives back exactly that tree and consumes the whole text. */
  lemma ParseShowRoundTrip(r: Regex)
    requires PlainChars(r)
    ensures ParseExprAt(Show(r), 0) == Success(Parsed(r, |Show(r)|))
  {
    var s := Show(r);
    AtSuffix(s, 0);
    assert s[0..] == s;
    RoundTripAtom(r, s, 0);
    FactorOfAtom(s, 0, r, |s|);
    ExprOfFactor(s, 0, r, |s|);
  }

  /** There is no end-of-input check: after a complete pattern, an unmatched `)`
      stops the parse and whatever follows it is ignored. */
  lemma UnmatchedCloseIgnoresRest(r: Regex, junk: string)
    requires PlainChars(r)
    ensures ParseExprAt(Show(r) + ")" + junk, 0) == Success(Parsed(r, |Show(r)|))
  {
    var x := Show(r);
    var s := x + ")" + junk;
    assert s == x + (")" + junk);
    AtSuffix(s, 0);
    assert s[0..] == s;
    SplitAt(s, 0, x, ")" + junk);
    RoundTripAtom(r, s, 0);
    FactorOfAtom(s, 0, r, |x|);
    ExprOfFactor(s, 0, r, |x|);
  }
}
