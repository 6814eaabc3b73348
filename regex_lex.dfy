/**
 * `RegexParser.Parse`, `NfaToDfaConvertor.Convert` and `RegexLex.TryMatch`:
 * every category's pattern is parsed, built into the shared NFA arena,
 * determinised and minimised; a word is then matched against the
 * categories in order.
 *
 * The YAML file becomes an in-memory sequence of (category, pattern) pairs
 * in dictionary order, and the `Dictionary<string, DFA>` a sequence of
 * (category, automaton) pairs in insertion order.
 */
module RegexLexing {
  import opened Wrappers
  import opened Collections
  import opened RegexAst
  import opened RegexParsing
  import opened Nfa
  import ThompsonLanguage
  import SubsetConstruction
  import opened DfaGraph
  import opened Minimization

  /**
   * `NfaToDfaConvertor.Convert`: the subset automaton `sub` of the NFA,
   * with exactly its language and its nodes numbered in discovery order,
   * then `Minimal` of it. `order` is the breadth-first listing of `sub`,
   * `symbols` the enumeration of its alphabet that the refinement uses,
   * and `insertion` the enumeration of the NFA alphabet that the subset
   * construction inserts every node's transitions in. `parts` is the
   * refinement as written, and the result is obtained from its quotient by
   * the structural dedup, which leaves the quotient unchanged when no two
   * of its nodes share a dictionary key.
   */
  method Convert(g: Graph, start: nat, end: nat)
    returns (m: Dfa, ghost sub: Dfa, ghost parts: seq<Block>, ghost order: seq<nat>, ghost symbols: seq<char>, ghost insertion: seq<char>)
    requires WellFormed(g) && start < |g| && end < |g|
    ensures Converted(sub, parts, order, symbols, insertion, m)
    ensures forall w :: Accepts(sub, w) <==> ThompsonLanguage.Accepts(g, start, end, w)
  {
    var d, sets, ins := SubsetConstruction.SubsetConstruct(g, start, end);
    sub, insertion := d, ins;
    m, order, symbols, parts := Minimal(d, ins);
    assert Run(d.nodes, d.start, []) == Some(d.start);
  }

  /**
   * The facts `Convert` establishes about the subset automaton `sub`, the
   * listing `order`, the enumerations `symbols` and `insertion`, the final
   * partition `parts` and the result `m`.
   */
  ghost predicate Converted(sub: Dfa, parts: seq<Block>, order: seq<nat>, symbols: seq<char>, insertion: seq<char>, m: Dfa)
  {
    Valid(sub) && sub.start == 0 && ParentsFirst(sub.nodes) &&
    Distinct(insertion) && (forall k, c :: 0 <= k < |sub.nodes| && c in sub.nodes[k].trans ==> c in insertion) &&
    Lists(sub, order) && BreadthFirst(sub, order) && Distinct(symbols) &&
    (forall c :: c in symbols <==> exists x: nat :: x < |sub.nodes| && Reachable(sub, x) && c in sub.nodes[x].trans) &&
    Refined(sub, Initial(sub, order)) && Pending(Initial(sub, order), Initial(sub, order)) &&
    parts == Refine(sub, symbols, Initial(sub, order), Initial(sub, order)) &&
    Refined(sub, parts) && (forall x: nat :: x in Union(parts) <==> x < |sub.nodes| && Reachable(sub, x)) &&
    sub.start in Union(parts) && Shrunk(Quotient(sub, parts), m) &&
    (Distinguished(Quotient(sub, parts), insertion) ==> m == Quotient(sub, parts))
  }

  /**
   * What `Parse` keeps for one category: its AST, subset automaton, final
   * partition, breadth-first listing and the two alphabet enumerations.
   */
  datatype Built = Built(ast: Regex, sub: Dfa, parts: seq<Block>, order: seq<nat>, symbols: seq<char>, insertion: seq<char>)

  /** `m` is the automaton `Convert` makes for pattern AST `b.ast`, by way of the rest of `b`. */
  ghost predicate MadeFrom(b: Built, m: Dfa)
  {
    Converted(b.sub, b.parts, b.order, b.symbols, b.insertion, m) && forall w :: Accepts(b.sub, w) <==> Matches(b.ast, w)
  }

  /** The pattern parses to `ast` (ParseExpression from position 0; trailing text after a `)` is ignored). */
  predicate ParsesTo(pattern: string, ast: Regex)
  {
    ParseExprAt(pattern, 0).Success? && ParseExprAt(pattern, 0).value.node == ast
  }

  /** The first pattern from the list that does not parse, with its error. */
  function FirstError(patterns: seq<(string, string)>): (r: Option<ParseError>)
    ensures r.None? <==> forall i :: 0 <= i < |patterns| ==> ParseExprAt(patterns[i].1, 0).Success?
    ensures r.Some? ==> exists i :: 0 <= i < |patterns| && ParseExprAt(patterns[i].1, 0) == Failure(r.value) &&
                                    forall j :: 0 <= j < i ==> ParseExprAt(patterns[j].1, 0).Success?
  {
    if patterns == [] then None
    else
      match ParseExprAt(patterns[0].1, 0)
      case Failure(e) => Some(e)
      case Success(_) =>
        var rest := FirstError(patterns[1..]);
        assert forall i :: 1 <= i < |patterns| ==> patterns[i] == patterns[1..][i - 1];
        rest
  }

  /**
   * `RegexParser.Parse`: for each (category, pattern) in order, reset the
   * cursor, parse, build into the shared arena (the static `_nextID` keeps
   * growing) and convert. The first pattern that does not parse aborts with
   * its error; otherwise there is one automaton per category, in order.
   */
  method Parse(patterns: seq<(string, string)>) returns (r: Result<seq<(string, Dfa)>, ParseError>, ghost built: seq<Built>)
    requires forall i, j :: 0 <= i < j < |patterns| ==> patterns[i].0 != patterns[j].0
    ensures r.Failure? <==> FirstError(patterns).Some?
    ensures r.Failure? ==> r.error == FirstError(patterns).value
    ensures r.Success? ==> |r.value| == |patterns| == |built|
    ensures r.Success? ==> forall i :: 0 <= i < |patterns| ==>
      r.value[i].0 == patterns[i].0 && ParsesTo(patterns[i].1, built[i].ast) && MadeFrom(built[i], r.value[i].1)
  {
    var parser := new RegexParser();
    var arena := new NfaArena();
    assert WellFormed(arena.nodes);
    var ret: seq<(string, Dfa)> := [];
    built := [];
    for i := 0 to |patterns|
      invariant WellFormed(arena.nodes)
      invariant |ret| == i == |built|
      invariant forall k :: 0 <= k < i ==> ParseExprAt(patterns[k].1, 0).Success?
      invariant forall k :: 0 <= k < i ==>
        ret[k].0 == patterns[k].0 && ParsesTo(patterns[k].1, built[k].ast) && MadeFrom(built[k], ret[k].1)
    {
      parser.Reset(patterns[i].1);
      var ast := parser.ParseExpression();
      if ast.Failure? {
        FirstErrorAt(patterns, i);
        return Failure(ast.error), built;
      }
      ghost var before := arena.nodes;
      var start, end := arena.Build(ast.value);
      ThompsonWellFormed(ast.value, before);
      forall w ensures ThompsonLanguage.Accepts(arena.nodes, start, end, w) <==> Matches(ast.value, w) {
        ThompsonLanguage.ThompsonCorrect(ast.value, before, w);
      }
      var m, sub, parts, order, symbols, insertion := Convert(arena.nodes, start, end);
      ghost var b := Built(ast.value, sub, parts, order, symbols, insertion);
      assert MadeFrom(b, m);
      ParsedAppend(patterns, i, ret, built, m, b);
      ret := ret + [(patterns[i].0, m)];
      built := built + [b];
    }
    r := Success(ret);
    FirstErrorNone(patterns);
  }

  /** The loop invariant of `Parse` survives appending the next category's automaton. */
  lemma ParsedAppend(patterns: seq<(string, string)>, i: nat, ret: seq<(string, Dfa)>, built: seq<Built>, m: Dfa, b: Built)
    requires i < |patterns| && |ret| == i == |built|
    requires forall k :: 0 <= k < i ==>
      ret[k].0 == patterns[k].0 && ParsesTo(patterns[k].1, built[k].ast) && MadeFrom(built[k], ret[k].1)
    requires ParsesTo(patterns[i].1, b.ast) && MadeFrom(b, m)
    ensures forall k :: 0 <= k < i + 1 ==>
      (ret + [(patterns[i].0, m)])[k].0 == patterns[k].0 && ParsesTo(patterns[k].1, (built + [b])[k].ast) &&
      MadeFrom((built + [b])[k], (ret + [(patterns[i].0, m)])[k].1)
  {
    var ret', built' := ret + [(patterns[i].0, m)], built + [b];
    forall k | 0 <= k < i + 1
      ensures ret'[k].0 == patterns[k].0 && ParsesTo(patterns[k].1, built'[k].ast) && MadeFrom(built'[k], ret'[k].1)
    {
      if k < i {
        assert ret'[k] == ret[k] && built'[k] == built[k];
      } else {
        assert ret'[k] == (patterns[i].0, m) && built'[k] == b;
      }
    }
  }

  /** The first failing pattern decides the error. */
  lemma {:induction false} FirstErrorAt(patterns: seq<(string, string)>, i: nat)
    requires i < |patterns| && ParseExprAt(patterns[i].1, 0).Failure?
    requires forall k :: 0 <= k < i ==> ParseExprAt(patterns[k].1, 0).Success?
    ensures FirstError(patterns) == Some(ParseExprAt(patterns[i].1, 0).error)
  {
    if i > 0 {
      assert ParseExprAt(patterns[0].1, 0).Success?;
      var rest := patterns[1..];
      assert forall k :: 0 <= k < |rest| ==> rest[k] == patterns[k + 1];
      FirstErrorAt(rest, i - 1);
    }
  }

  lemma FirstErrorNone(patterns: seq<(string, string)>)
    requires forall k :: 0 <= k < |patterns| ==> ParseExprAt(patterns[k].1, 0).Success?
    ensures FirstError(patterns).None?
  {
  }

  /** The inner `foreach (var c in srcString)` of `TryMatch`: follow transitions, stop at a missing one. */
  method RunWord(d: Dfa, w: string) returns (r: Option<nat>)
    requires Valid(d)
    ensures r == Run(d.nodes, d.start, w)
  {
    var current: nat := d.start;
    var isbreak := false;
    var i := 0;
    while i < |w|
      invariant 0 <= i <= |w| && current < |d.nodes|
      invariant Run(d.nodes, d.start, w) == Run(d.nodes, current, w[i..])
    {
      if w[i] !in d.nodes[current].trans {
        isbreak := true;
        break;
      }
      assert w[i..][1..] == w[i + 1..];
      current := d.nodes[current].trans[w[i]];
      i := i + 1;
    }
    if isbreak {
      r := None;
    } else {
      assert w[i..] == [];
      r := Some(current);
    }
  }

  /** The index of the first category whose automaton accepts `w`. */
  ghost function FirstMatch(dfas: seq<(string, Dfa)>, w: string, k: nat): (r: Option<nat>)
    requires forall i :: 0 <= i < |dfas| ==> Valid(dfas[i].1)
    requires k <= |dfas|
    ensures r.Some? ==> k <= r.value < |dfas| && Accepts(dfas[r.value].1, w) &&
                        forall j :: k <= j < r.value ==> !Accepts(dfas[j].1, w)
    ensures r.None? ==> forall j :: k <= j < |dfas| ==> !Accepts(dfas[j].1, w)
    decreases |dfas| - k
  {
    if k == |dfas| then None
    else if Accepts(dfas[k].1, w) then Some(k)
    else FirstMatch(dfas, w, k + 1)
  }

  /**
   * `RegexLex.TryMatch`: true, with the category's name, for the first
   * category whose automaton consumes all of `src` and ends accepting;
   * false with `""` when there is none.
   */
  method TryMatch(dfas: seq<(string, Dfa)>, src: string) returns (ok: bool, kind: string)
    requires forall i :: 0 <= i < |dfas| ==> Valid(dfas[i].1)
    ensures ok <==> FirstMatch(dfas, src, 0).Some?
    ensures ok ==> kind == dfas[FirstMatch(dfas, src, 0).value].0
    ensures !ok ==> kind == ""
  {
    kind := "";
    for k := 0 to |dfas|
      invariant FirstMatch(dfas, src, 0) == FirstMatch(dfas, src, k)
    {
      var d := dfas[k].1;
      var r := RunWord(d, src);
      if r.Some? && d.nodes[r.value].accepting {
        kind := dfas[k].0;
        return true, kind;
      }
    }
    return false, kind;
  }

  /** Some category matches exactly when some automaton accepts the word; the match is the first such. */
  lemma TryMatchFirst(dfas: seq<(string, Dfa)>, src: string)
    requires forall i :: 0 <= i < |dfas| ==> Valid(dfas[i].1)
    ensures FirstMatch(dfas, src, 0).Some? <==> exists i :: 0 <= i < |dfas| && Accepts(dfas[i].1, src)
  {
    if FirstMatch(dfas, src, 0).None? {
      assert forall i :: 0 <= i < |dfas| ==> !Accepts(dfas[i].1, src);
    }
  }

  /** The empty word is accepted exactly by an automaton whose start node accepts. */
  lemma EmptyWordMatch(d: Dfa)
    requires Valid(d)
    ensures Accepts(d, "") <==> d.nodes[d.start].accepting
  {
    assert Run(d.nodes, d.start, "") == Some(d.start);
  }
}
