# TLARCCompiler front end, modelled in Dafny

This project models the two generators at the heart of TLARCCompiler, a
compiler front end written in C#, and proves properties of the model.

**The lexical engine.** Each lexical category is described by a small
pattern language. The recursive-descent `RegexParser` reads a pattern into an
AST (`Expr := Term ('|' Term)*`, `Term := Factor+`, `Factor := Atom '*'?`,
`Atom := '(' ')' | '(' Expr ')' | any other character`). `IASTNode.Build`
turns the AST into an NFA by Thompson's construction.
`NfaToDfaConvertor.Convert` determinises it: `EpsilonClosure`, `Move`,
`Alphabet` and the subset construction. It then minimises the result with
`Minimal`, which refines a partition by `SplitPrtition`, and
`BuildMinimizedDFA`, which builds the quotient and removes nodes that
`DFANodeComparer` deems equal (same hash code and `Equals`). `RegexLex.TryMatch` runs a whole word through
each category's automaton, in order. `LexTable` numbers the distinct words
of each category. `PreProcess.Process` strips `#` comments and turns
newlines into spaces.

**The LALR(1) table generator.** The grammar model consists of:
- interned terminals and non-interned nonterminals;
- productions (`Sentence`) numbered in creation order;
- the `Syntax` index of productions by left-hand name.

`LALR1Analyser.Generator` computes FIRST sets with a cache (`GetFirst`,
`ComputeFirst`) and closes item sets (`ComputeClosure`, `ComputeLookahead`).
It builds the states breadth-first and fills the ACTION and GOTO tables,
throwing on a conflict (`UpdateActionTable`, `UpdateGotoTable`). Finally it
merges states with equal signatures (`MergeStates`, `UpdateStateReferences`).

Where each transition goes is stated through the advanced kernel.
`Lalr.KernelOf(items, y)` is the list of entries of the kernel that `y` leads
to from `items`. `Lalr.Leads(ps, states, s, y, t)` holds when `t` is the state
`FindOrAdd` gives for that kernel:
- no earlier state has the kernel's signature;
- `t` either has it, or was made on the kernel, i.e. it starts with the
  kernel's entries and adds only predicted items.

`Lalr.TablesLead` says that every ACTION shift (or accept) and every GOTO entry
of the first `n` rows names such a state. `Lalr.Derived` says that every state
after the start state was made, by `Lalr.MadeFor`, for a transition of an
earlier state.

**How the model is built.**
- The NFA is an arena: a sequence of nodes whose index is the node's `ID`.
  Each node holds `map<char, set<nat>>` character edges and a `set<nat>` of
  epsilon edges. A DFA is a sequence of nodes with a start index.
- C# objects that are compared by reference carry an explicit identity:
  - symbols have an `id`;
  - every new `LrItem` gets a fresh `uid`.

  So `HashSet<LrItem>.Add` of a new item always succeeds, as in the source.
- Code that changes state is written as Dafny methods and classes:
  - `RegexParser` advances a `position` field;
  - `NfaArena` adds edges;
  - `Statics`, `Syntax`, `FirstCache`, `LexTable` and `Generator` update
    their fields.

  Every such method is proved equal to a pure function, or its new state is
  stated outright. The properties are lemmas about those functions.
- A `HashSet` or `Dictionary` enumeration is an arbitrary repetition-free
  order (`Collections.Enumerate`). A `Dictionary` keyed by the insertion of
  categories or groups is a sequence in insertion order.
- A `Dictionary<DFANode, DFANode>` built with `DFANode.Comparer` finds a
  stored key only when the hash codes are equal and `Equals` holds
  (`DfaGraph.SameKey`). The hash (`DfaGraph.Hash`) folds
  `h * 31 + symbol + target ID` over the transitions, wrapping at 32 bits.
  A node's transitions are enumerated in insertion order, which is the
  subset construction's enumeration of the alphabet for every node: the
  quotient copies its representative's transitions in that order, and the
  rewrite only overwrites values.
- The recursions and loops that need not terminate take a `fuel` bound and
  report `OutOfFuel`:
  - `GetFirst` has no cycle guard;
  - `ComputeClosure` never deduplicates items by value;
  - `FindExistingState` compares a kernel with states that are already closed.

## Model

| member | source | states |
|---|---|---|
| Collections.Enumerate | src/SyntaxAnalysis/LALR_1_Analyser.cs:264 | A `foreach` over a hash set visits every element exactly once, in some order. |
| RegexParsing.PeekAt | src/LexicalAnalysis/RegexLex.cs:207 | `Peek` gives no character exactly when the position is at or past the end, and otherwise the character there (copy at src/Utils/RegexLex.cs:51). |
| RegexParsing.ParseExprAt | src/LexicalAnalysis/RegexLex.cs:184-194 | `ParseExpression` as a function of the position. A success consumes at least one character and stops within the pattern. |
| RegexParsing.ExprTail | src/LexicalAnalysis/RegexLex.cs:187-192 | The `while (Peek() == '\|')` loop never moves the position back and stops within the pattern. |
| RegexParsing.ParseTermAt | src/LexicalAnalysis/RegexLex.cs:195-204 | `ParseTerm`: a success consumes at least one character and stops within the pattern. |
| RegexParsing.TermTail | src/LexicalAnalysis/RegexLex.cs:198-202 | The loop of `ParseTerm` never moves the position back and stops within the pattern. |
| RegexParsing.ParseFactorAt | src/LexicalAnalysis/RegexLex.cs:210-220 | `ParseFactor`: a success consumes at least one character and stops within the pattern. |
| RegexParsing.ParseAtomAt | src/LexicalAnalysis/RegexLex.cs:221-241 | `ParseFactorInner`: a success consumes at least one character and stops within the pattern. |
| RegexParsing.RegexParser.constructor | src/LexicalAnalysis/RegexLex.cs:166-167 | A new parser has input `""` and position 0. |
| RegexParsing.RegexParser.Reset | src/LexicalAnalysis/RegexLex.cs:178-179 | Before each pattern, the position is reset to 0 and the input becomes the pattern. |
| RegexParsing.RegexParser.Peek | src/LexicalAnalysis/RegexLex.cs:207 | No character exactly when the position is at or past the end; otherwise the character at the position. |
| RegexParsing.RegexParser.Advance | src/LexicalAnalysis/RegexLex.cs:208 | The position grows by exactly one and the input is unchanged (copy at src/Utils/RegexLex.cs:52). |
| RegexParsing.RegexParser.ParseExpression | src/LexicalAnalysis/RegexLex.cs:184-194 | The method gives the same tree or error, and leaves the same position, as `ParseExprAt` from the old position; the input is unchanged (copy at src/Utils/RegexLex.cs:28-38). |
| RegexParsing.RegexParser.ParseTerm | src/LexicalAnalysis/RegexLex.cs:195-204 | The method agrees with `ParseTermAt` on the result and the new position (copy at src/Utils/RegexLex.cs:39-49). |
| RegexParsing.RegexParser.ParseFactor | src/LexicalAnalysis/RegexLex.cs:210-220 | The method agrees with `ParseFactorAt` on the result and the new position (copy at src/Utils/RegexLex.cs:54-64). |
| RegexParsing.RegexParser.ParseFactorInner | src/LexicalAnalysis/RegexLex.cs:221-241 | The method agrees with `ParseAtomAt` on the result and the new position, both exceptions included (copy at src/Utils/RegexLex.cs:65-85). |
| RegexParsing.AtomAtEndFails | src/LexicalAnalysis/RegexLex.cs:236-239 | An atom, factor, term or expression expected at the end of the input fails with the end-of-input error. |
| RegexParsing.ErrorExamples | src/LexicalAnalysis/RegexLex.cs:232-239 | The empty pattern, `a\|` and `a(` fail at the end of input; `(a` fails for the missing `)`. |
| RegexParsing.ShapeExamples | src/LexicalAnalysis/RegexLex.cs:184-231 | Examples of the parse shape. `()` is epsilon. `a\|b\|c` and `abc` nest to the left. `a**` is a starred `a` followed by a literal `*`. `a)b` stops before the `)`. |
| RegexParsing.AtomLiteral | src/LexicalAnalysis/RegexLex.cs:236-239 | At atom position, every character other than `(` (including `\|`, `)` and `*`) is a literal one-character atom (copy at src/Utils/RegexLex.cs:80-83). |
| RegexParsing.FactorOfStar | src/LexicalAnalysis/RegexLex.cs:213-217 | An atom followed by `*` is a starred factor that consumes the `*`. |
| RegexParsing.AtomOfGroup | src/LexicalAnalysis/RegexLex.cs:225-235 | `(` Expr `)` parses to the inner expression and consumes the `)`. |
| RegexParsing.ParseShowRoundTrip | src/LexicalAnalysis/RegexLex.cs:184-241 | Parsing the fully parenthesised printing of any tree gives back exactly that tree and consumes the whole text. |
| RegexParsing.UnmatchedCloseIgnoresRest | src/LexicalAnalysis/RegexLex.cs:195-204 | There is no end-of-input check: after a complete pattern, a stray `)` ends the parse and whatever follows is ignored (src/Utils/RegexLex.cs:24, 28-48). |
| Nfa.AddTrans | src/LexicalAnalysis/RegexLex.cs:14-19 | `AddTransition` with set semantics. The target joins the edges on `c`, which are created empty when absent. No other symbol changes, and neither do the epsilon edges (copy at src/Utils/AutoMechine.cs:12-17). |
| Nfa.Thompson | src/LexicalAnalysis/RegexLex.cs:87-161 | Every build adds at least two nodes. Its start and end are different new nodes, and the end node has no outgoing edge. |
| Nfa.NfaArena.constructor | src/LexicalAnalysis/RegexLex.cs:9-10 | The arena starts with no nodes; the next `ID` is 0. |
| Nfa.NfaArena.NewNode | src/LexicalAnalysis/RegexLex.cs:9-12 | `new NFANode()` gets the next `ID` and no edges; no other node changes. |
| Nfa.NfaArena.AddTransition | src/LexicalAnalysis/RegexLex.cs:14-19 | Only node `from` changes, exactly as `AddTrans` says. |
| Nfa.NfaArena.AddEpsilonClosureTransition | src/LexicalAnalysis/RegexLex.cs:20 | Only node `from` changes: `to` joins its epsilon edges. |
| Nfa.NfaArena.Build | src/LexicalAnalysis/RegexLex.cs:82-85 | For every tree, the arena after `Build`, together with the returned (start, end), is `Thompson` of the old arena. |
| Nfa.NfaArena.BuildEpsilon | src/LexicalAnalysis/RegexLex.cs:87-96 | `EplisionNode.Build` equals the Thompson fragment of epsilon (copy at src/Utils/AbstractSyntexTree.cs:8-17). |
| Nfa.NfaArena.BuildCharacter | src/LexicalAnalysis/RegexLex.cs:97-107 | `CharacterNode.Build` equals the Thompson fragment of one character (copy at src/Utils/AbstractSyntexTree.cs:18-28). |
| Nfa.NfaArena.BuildConcat | src/LexicalAnalysis/RegexLex.cs:108-122 | `ConcatNode.Build` equals the Thompson fragment of the concatenation (copy at src/Utils/AbstractSyntexTree.cs:29-43). |
| Nfa.NfaArena.BuildAlternate | src/LexicalAnalysis/RegexLex.cs:123-142 | `AlternateNode.Build` equals the Thompson fragment of the alternation (copy at src/Utils/AbstractSyntexTree.cs:44-63). |
| Nfa.NfaArena.WireAlternate | src/LexicalAnalysis/RegexLex.cs:132-140 | The four epsilon edges around the two sub-fragments give the alternation's wiring. |
| Nfa.NfaArena.BuildClosure | src/LexicalAnalysis/RegexLex.cs:143-161 | `ClosureNode.Build` equals the Thompson fragment of the star (copy at src/Utils/AbstractSyntexTree.cs:64-82). |
| Nfa.NfaArena.WireClosure | src/LexicalAnalysis/RegexLex.cs:149-159 | The four epsilon edges around the inner fragment give the star's wiring. |
| Nfa.KeepsOld | src/LexicalAnalysis/RegexLex.cs:87-161 | A build only appends nodes. The earlier nodes keep their edges, or gain only the epsilon edges that join fragments. |
| Nfa.EpsilonShape | src/LexicalAnalysis/RegexLex.cs:87-96 | Two fresh nodes, with a single epsilon edge from start to end and no character edge (src/Utils/AbstractSyntexTree.cs:8-17). |
| Nfa.CharacterShape | src/LexicalAnalysis/RegexLex.cs:97-107 | Two fresh nodes, with exactly one transition, on `c`, from start to end (src/Utils/AbstractSyntexTree.cs:18-28). |
| Nfa.ConcatShape | src/LexicalAnalysis/RegexLex.cs:108-122 | The result is (left start, right end). The only change to the two sub-builds is the epsilon edge from left end to right start (src/Utils/AbstractSyntexTree.cs:29-43). |
| Nfa.AlternateShape | src/LexicalAnalysis/RegexLex.cs:123-142 | A fresh start with epsilon edges to both starts, and a fresh end reached by epsilon from both ends. Nothing else changes (src/Utils/AbstractSyntexTree.cs:44-63). |
| Nfa.ClosureShape | src/LexicalAnalysis/RegexLex.cs:143-161 | A fresh start and end, with edges start→inner start, start→end, inner end→inner start and inner end→end. Nothing else changes (src/Utils/AbstractSyntexTree.cs:64-82). |
| Nfa.ThompsonConfined | src/LexicalAnalysis/RegexLex.cs:87-161 | The edges of the nodes a build creates lead only to nodes of that build. |
| Nfa.ThompsonWellFormed | src/LexicalAnalysis/RegexLex.cs:87-161 | Building on a well-formed arena, where every edge names a node, leaves it well-formed. |
| ThompsonLanguage.Complete | src/LexicalAnalysis/RegexLex.cs:87-161 | Every word of the tree's language labels a run of the built NFA from its start to its end. |
| ThompsonLanguage.Sound | src/LexicalAnalysis/RegexLex.cs:87-161 | Every word that labels a run from start to end is in the tree's language. |
| ThompsonLanguage.ThompsonCorrect | src/LexicalAnalysis/RegexLex.cs:87-161 | The NFA that `Build` produces accepts a word if and only if the word is in the language of the AST. |
| NfaSets.ECloseLeast | src/LexicalAnalysis/RegexLex.cs:298-311 | The closure contains the set, is closed under epsilon edges, holds only nodes, and lies inside every epsilon-closed superset. |
| NfaSets.ECloseIdempotent | src/LexicalAnalysis/RegexLex.cs:298-311 | Closing twice is closing once. |
| NfaSets.ECloseIsReach | src/LexicalAnalysis/RegexLex.cs:298-311 | The epsilon closure is exactly the set of nodes reached on the empty word. |
| NfaSets.ReachCons | src/LexicalAnalysis/RegexLex.cs:267-268 | Reading `c` and then `w` from a set reaches what reading `w` from the closure's `c`-step reaches: the step `Convert` takes. |
| NfaSets.ReachableClosed | src/LexicalAnalysis/RegexLex.cs:313-337 | The nodes reachable from the start contain the start, are nodes of the arena, and no edge leaves them. |
| SubsetConstruction.SetEquals | src/LexicalAnalysis/RegexLex.cs:352-358 | `NFASetComparer.Equals` (equal counts and mutual containment) holds if and only if the sets are equal (copy at src/Utils/AutoMechine.cs:186-192). |
| SubsetConstruction.Lookup | src/LexicalAnalysis/RegexLex.cs:272 | `TryGetValue` with that comparer finds the index of the equal set, and finds nothing exactly when no set is equal. |
| SubsetConstruction.Move | src/LexicalAnalysis/RegexLex.cs:289-296 | The union of the `c`-successors of the nodes of the set (copy at src/Utils/AutoMechine.cs:123-130). |
| SubsetConstruction.EpsilonClosure | src/LexicalAnalysis/RegexLex.cs:298-311 | The stack loop returns the least epsilon-closed superset of its argument (copy at src/Utils/AutoMechine.cs:132-145). |
| SubsetConstruction.Alphabet | src/LexicalAnalysis/RegexLex.cs:313-337 | The depth-first search collects exactly the symbols on edges that leave nodes reachable from the start by any edges (copy at src/Utils/AutoMechine.cs:147-171). |
| SubsetConstruction.SubsetConstruct | src/LexicalAnalysis/RegexLex.cs:247-285 | One node per distinct set (compared by set equality), with the start's closure as node 0. Nodes are numbered in discovery order: every node after the first is a target of a node numbered before it, so every node is reachable from node 0. A node accepts if and only if its set holds the NFA end. The transition on `c` leads to the closure of the `c`-step, or is absent when that closure is empty. The automaton is deterministic and accepts exactly the language of the NFA. The alphabet enumeration it returns has no repetition and holds every symbol of every node. The model uses it as each node's insertion order, since the loop inserts transitions in that order (copy at src/Utils/AutoMechine.cs:81-119). |
| SubsetConstruction.KeysInAlphabet | src/LexicalAnalysis/RegexLex.cs:265-283 | A node has a transition only on a symbol that labels an edge of a reachable NFA node. |
| SubsetConstruction.SubsetRun | src/LexicalAnalysis/RegexLex.cs:260-284 | Running the subset automaton from node `k` tracks exactly the NFA nodes reached from `sets[k]`; a missing transition means nothing is reached. |
| SubsetConstruction.SubsetLanguage | src/LexicalAnalysis/RegexLex.cs:247-285 | The subset automaton accepts a word if and only if the NFA does. |
| DfaGraph.NodeEquals | src/LexicalAnalysis/RegexLex.cs:37-42 | `DFANodeComparer.Equals`: equal acceptance, equal symbol sets and equal target sets, the two sets compared separately (copy at src/Utils/AutoMechine.cs:35-40). |
| DfaGraph.NodeEqualsEquivalence | src/LexicalAnalysis/RegexLex.cs:37-42 | The comparer is reflexive, symmetric and transitive. |
| DfaGraph.NodeEqualsIgnoresPairing | src/LexicalAnalysis/RegexLex.cs:41 | Two nodes whose targets are swapped compare equal although their transition maps differ. |
| DfaGraph.Wrap | src/LexicalAnalysis/RegexLex.cs:46 | Unchecked 32-bit `int` arithmetic: the result lies in [-2^31, 2^31), differs from the exact value by a multiple of 2^32, and is the exact value when that fits. |
| DfaGraph.SameKeyEquivalence | src/LexicalAnalysis/RegexLex.cs:37-50 | A lookup in a dictionary built with `DFANode.Comparer` (equal `GetHashCode`, then `Equals`) is reflexive, symmetric and transitive, and implies `Equals`. |
| DfaGraph.HashFrom | src/LexicalAnalysis/RegexLex.cs:44-48 | Reference definition of the `GetHashCode` loop from a given value over the transitions in insertion order. Starting from a 32-bit `int`, the result stays a 32-bit `int` (unchecked arithmetic wraps). |
| DfaGraph.Hash | src/LexicalAnalysis/RegexLex.cs:42-49 | Reference definition of `DFANodeComparer.GetHashCode`: the result is always a 32-bit `int`. Its partners are `SameKeyEquivalence` and `SwappedTargetsKeptApart`. |
| DfaGraph.SwappedTargetsKeptApart | src/LexicalAnalysis/RegexLex.cs:41-48 | Two nodes with their targets on `a` and `b` swapped are `Equals`, but their hash codes differ in either insertion order, so the dictionary keeps them apart. |
| DfaGraph.Nodes | src/LexicalAnalysis/RegexLex.cs:58-79 | The breadth-first traversal yields the start first and every reachable node exactly once. Each later node is a target of a node yielded before it, and the listing is breadth-first: the positions of the nodes that first reach them never decrease along it (copy at src/Utils/AutoMechine.cs:56-77). |
| DfaGraph.DepthFirstNotBreadthFirst | src/LexicalAnalysis/RegexLex.cs:58-79 | On 0 -a-> 1, 0 -b-> 2, 1 -a-> 3, the depth-first listing 0, 1, 3, 2 is a discovery list but not breadth-first, while the queue's listing 0, 1, 2, 3 is. |
| DfaGraph.ParentsFirstLink | src/LexicalAnalysis/RegexLex.cs:270-281 | Linking a node on a symbol it has no transition on yet, to an old node or to the node just created, keeps the numbering in discovery order. |
| DfaGraph.ParentsFirstReachable | src/LexicalAnalysis/RegexLex.cs:252-281 | When nodes are numbered in discovery order from start 0, every node is reachable. |
| Minimization.DfaAlphabet | src/LexicalAnalysis/RegexLex.cs:340-348 | Exactly the symbols on the transitions of reachable nodes (copy at src/Utils/AutoMechine.cs:174-182). |
| Minimization.BlockIndex | src/LexicalAnalysis/RegexLex.cs:476 | `FirstOrDefault(x => x.Contains(t))` gives a block holding `t`, and gives nothing exactly when no block holds it. |
| Minimization.FindGroup | src/LexicalAnalysis/RegexLex.cs:479-485 | The first group whose key is the given block. A missing transition (a `null` key) matches no group. |
| Minimization.Largest | src/LexicalAnalysis/RegexLex.cs:494 | `OrderBy(x => -x.Count)` is stable, so its head is the first group of largest size. |
| Minimization.Without | src/LexicalAnalysis/RegexLex.cs:495-496 | `ExceptWith` keeps exactly the block's nodes outside the group, without repetitions. |
| Minimization.Split | src/LexicalAnalysis/RegexLex.cs:467-500 | Reference definition of `SplitPrtition` on one symbol: group by target block, then split off the largest group; the second piece is exactly the rest of the block. Its partners are `SplitPieces`, `SplitNoneIff`, `SplitSeparates` and `SplitPartition`. |
| Minimization.SplitPieces | src/LexicalAnalysis/RegexLex.cs:467-500 | A split returns two non-empty, disjoint pieces whose union is the block. The nodes of the first piece share one target block. |
| Minimization.SplitNoneIff | src/LexicalAnalysis/RegexLex.cs:492-499 | A block of two or more nodes is left whole if and only if all its nodes have a `c`-transition into the same block. |
| Minimization.SplitSeparates | src/LexicalAnalysis/RegexLex.cs:473-488 | Each node lacking a transition on the symbol is alone in its group. |
| Minimization.FirstSplit | src/LexicalAnalysis/RegexLex.cs:392-405 | Reference definition of the `foreach` over the alphabet: the split on the first symbol that splits the block. Its partners are `FirstSplitPieces` (the two pieces partition the block), `FirstSplitNone` and `RefinePartition`. |
| Minimization.FirstSplitNone | src/LexicalAnalysis/RegexLex.cs:392-405 | The `foreach` over the alphabet finds no split if and only if the block is uniform for every symbol. |
| Minimization.Remove | src/LexicalAnalysis/RegexLex.cs:397 | `List.Remove` drops one occurrence. |
| Minimization.ReplacePieces | src/LexicalAnalysis/RegexLex.cs:397-399 | Replacing a block by two pieces of it keeps a partition that separates acceptance, over the same nodes; every other block stays. |
| Minimization.Refine | src/LexicalAnalysis/RegexLex.cs:384-407 | The queue loop as written. The result is a disjoint cover of the same nodes in which every block is uniform in acceptance. |
| Minimization.RefineStep | src/LexicalAnalysis/RegexLex.cs:394-403 | After a split, the refinement goes on with a larger partition of the same nodes that still separates acceptance, and both pieces are queued. |
| Minimization.SplitPartition | src/LexicalAnalysis/RegexLex.cs:467-500 | The loop over the block and the `group` dictionary computes the function `Split` (copy at src/Utils/AutoMechine.cs:301-334). |
| Minimization.RefinePartition | src/LexicalAnalysis/RegexLex.cs:384-407 | The `while` loop over the queue, with the inner `foreach` over the symbols, computes the function `Refine` (copy at src/Utils/AutoMechine.cs:218-241). |
| Minimization.FilterSpec | src/LexicalAnalysis/RegexLex.cs:375-379 | The `accepting` and `noAccepting` sets keep exactly the listed nodes of the given acceptance. |
| Minimization.InitialRefined | src/LexicalAnalysis/RegexLex.cs:371-382 | The initial partition separates acceptance, has at most two blocks, none empty, and covers exactly the listed nodes. |
| Minimization.InitialPartition | src/LexicalAnalysis/RegexLex.cs:371-382 | The `foreach` over `dfa.Nodes` builds the initial partition (copy at src/Utils/AutoMechine.cs:205-216). |
| Minimization.AnyAccepting | src/LexicalAnalysis/RegexLex.cs:423 | A merged node accepts if and only if some member of its block accepts. |
| Minimization.Mapping | src/LexicalAnalysis/RegexLex.cs:426-427 | `nodeMapping` is defined exactly on the partitioned nodes, and sends each to the index of its block. |
| Minimization.Quotient | src/LexicalAnalysis/RegexLex.cs:418-439 | One node per block, with ids 0 to k-1 in partition order. Each node takes the transitions of its block's first node, sent through `nodeMapping`. |
| Minimization.MapTargets | src/LexicalAnalysis/RegexLex.cs:436-438 | Copying the transitions whose target `nodeMapping` knows. |
| Minimization.MapBlock | src/LexicalAnalysis/RegexLex.cs:426-427 | Each node of the block is mapped to the new node, and every other entry is kept. |
| Minimization.NewNodes | src/LexicalAnalysis/RegexLex.cs:418-430 | The first loop makes one node per block, without transitions, accepting if and only if the block has an accepting node, plus `nodeMapping` (copy at src/Utils/AutoMechine.cs:252-264). |
| Minimization.BuildQuotient | src/LexicalAnalysis/RegexLex.cs:418-439 | The first two loops of `BuildMinimizedDFA` build exactly `Quotient`. |
| Minimization.QuotientRun | src/LexicalAnalysis/RegexLex.cs:432-439 | The quotient's run from a block follows, block by block, the run from any member. One exists exactly when the other does. |
| Minimization.FirstEqual | src/LexicalAnalysis/RegexLex.cs:451 | The dictionary lookup with `DFANode.Comparer` finds the first listed node with the same hash code that is `Equals`, or reports that there is none. |
| Minimization.RepSpec | src/LexicalAnalysis/RegexLex.cs:448-455 | Every node's representative is listed, has the same hash code, is `Equals` to it, and is its own representative. Nodes with the same hash code that are `Equals` have the same representative. |
| Minimization.Representatives | src/LexicalAnalysis/RegexLex.cs:448-455 | `dict2` sends every listed node, and only those, to the first listed node with the same hash code that is `Equals` to it. |
| Minimization.Redirected | src/LexicalAnalysis/RegexLex.cs:456-458 | Reference definition of the rewrite: every listed node's targets mapped through `dict2`, other nodes kept, same size and start. Its partners are `Redirect` and `DistinguishedRound`. |
| Minimization.Redirect | src/LexicalAnalysis/RegexLex.cs:456-458 | The in-place rewrite of every listed node's transitions through `dict2` (copy at src/Utils/AutoMechine.cs:290-292). |
| Minimization.RoundShrinks | src/LexicalAnalysis/RegexLex.cs:442-462 | A dedup round keeps every node's acceptance and symbols, and the rewritten automaton reaches only nodes listed before. |
| Minimization.DedupRound | src/LexicalAnalysis/RegexLex.cs:444-459 | One round of the `do` loop: the automaton after the rewrite, and the new listing, which holds only previously listed nodes. |
| Minimization.DistinguishedRound | src/LexicalAnalysis/RegexLex.cs:448-458 | When no two nodes share a dictionary key, every listed node is its own representative and a round leaves the automaton unchanged. |
| Minimization.Dedup | src/LexicalAnalysis/RegexLex.cs:442-462 | The loop exits once the last round dropped no listed node. The result never reaches a node the quotient does not, and keeps acceptance and symbols. When no two nodes of the quotient share a dictionary key, the result is the quotient itself (copy at src/Utils/AutoMechine.cs:276-296). |
| Minimization.BuildMinimizedDFA | src/LexicalAnalysis/RegexLex.cs:411-465 | The quotient by the partition, then the dedup loop; what both steps promise, including that a quotient with no two nodes sharing a key comes out unchanged (copy at src/Utils/AutoMechine.cs:245-299). |
| Minimization.Minimal | src/LexicalAnalysis/RegexLex.cs:369-409 | The initial partition of the reachable nodes by acceptance, then the refinement as written over an enumeration of the alphabet. The node listing is the breadth-first one of `DFA.Nodes`. The final partition is a disjoint cover of exactly the reachable nodes, uniform in acceptance, and the result is built from it. When no two nodes of the quotient share a dictionary key, the result is that quotient (copy at src/Utils/AutoMechine.cs:203-243). |
| Minimization.QuotientLanguage | src/LexicalAnalysis/RegexLex.cs:418-439 | When the partition is a congruence, the quotient accepts exactly the words the automaton accepts. |
| Minimization.RefineStable | src/LexicalAnalysis/RegexLex.cs:384-407 | Corrected refinement: every block of the new partition is queued again after a split. The result is a partition of the same nodes that separates acceptance, and every block is stable. |
| Minimization.StableQuotientLanguage | src/LexicalAnalysis/RegexLex.cs:369-409 | With the corrected refinement, the quotient of the reachable part accepts exactly the words the automaton accepts. |
| Minimization.LassoRefine | src/LexicalAnalysis/RegexLex.cs:386-406 | On the lasso automaton, {0, 2, 5} is found stable first. {1, 3, 4} then splits into {1, 4} and {3}, and {0, 2, 5} is never examined again. |
| Minimization.LassoQuotientDiffers | src/LexicalAnalysis/RegexLex.cs:418-439 | The quotient by the final partition of the lasso accepts `aaaa`, which the lasso rejects. |
| Minimization.MinimalCounterexample | src/LexicalAnalysis/RegexLex.cs:369-465 | For every node listing and alphabet enumeration, `Minimal` as written ends with a partition that is not stable on the lasso. The quotient built from it accepts `aaaa`, which the lasso rejects, and for every insertion order no two of its nodes share a dictionary key, so the dedup returns that quotient unchanged. |
| Minimization.LassoQuotientDistinguished | src/LexicalAnalysis/RegexLex.cs:444-462 | No two nodes of the lasso's quotient are `Equals`, whatever the insertion order, so the dedup keeps all three. |
| RegexLexing.Convert | src/LexicalAnalysis/RegexLex.cs:247-287 | The subset automaton has exactly the NFA's language, and its nodes are numbered in discovery order. The subset construction's alphabet enumeration is passed to the dedup as the insertion order. The node listing is breadth-first. The final partition is exactly the refinement as written, from the initial partition over that listing, with the refinement's alphabet enumeration. It covers exactly the reachable nodes and separates acceptance. The result is the structurally shrunk quotient, and is the quotient itself when no two of its nodes share a dictionary key (copy at src/Utils/AutoMechine.cs:81-121). |
| RegexLexing.FirstError | src/LexicalAnalysis/RegexLex.cs:176-181 | No error if and only if every pattern parses. Otherwise, the error of the first pattern that does not parse. |
| RegexLexing.Parse | src/LexicalAnalysis/RegexLex.cs:169-183 | If some pattern does not parse, the error of the first one. Otherwise, exactly one automaton per category, in order, made by `Convert` from the pattern's AST with all of `Convert`'s facts, with the position reset for each pattern (copy at src/Utils/RegexLex.cs:13-27). |
| RegexLexing.RunWord | src/LexicalAnalysis/RegexLex.cs:535-546 | The inner `foreach` follows transitions from the start and stops at a missing one; the same as the functional run. |
| RegexLexing.FirstMatch | src/LexicalAnalysis/RegexLex.cs:533-552 | The index of the first category whose automaton accepts the word, or no index when none does. |
| RegexLexing.TryMatch | src/LexicalAnalysis/RegexLex.cs:530-554 | True, with the name of the first category whose automaton consumes the whole word and ends accepting. Otherwise false, with `type == ""` (copy at src/Utils/RegexLex.cs:116-140). |
| RegexLexing.TryMatchFirst | src/LexicalAnalysis/RegexLex.cs:530-554 | Some category matches if and only if some automaton accepts the word. |
| RegexLexing.EmptyWordMatch | src/LexicalAnalysis/RegexLex.cs:547 | The empty word matches exactly the automata whose start node accepts (src/Utils/RegexLex.cs:119-137). |
| Preprocessing.CommentEnd | src/PreProcess/PreProcess.cs:10-12 | The comment loop stops just past the first newline at or after `#`, or at the end of the input. |
| Preprocessing.Spaced | src/PreProcess/PreProcess.cs:13-17 | Each newline becomes one space and every other character stays. |
| Preprocessing.Process | src/PreProcess/PreProcess.cs:5-22 | Reference definition of `PreProcess.Process` from position `i`: a `#` skips through the next newline and the character after it is emitted unchecked, a newline is emitted as a space, and running off the end of the input fails; a successful output is never longer than the rest of the input. Its partners are `Run`, `ProcessShape`, `PlainText` and the comment lemmas. |
| Preprocessing.Run | src/PreProcess/PreProcess.cs:5-22 | The `for` loop with its inner `while` computes `Process`, including the out-of-range failure. |
| Preprocessing.ProcessShape | src/PreProcess/PreProcess.cs:13-19 | The output has no newline and is never longer than the input. |
| Preprocessing.PlainText | src/PreProcess/PreProcess.cs:13-19 | Without `#`, the output is the input with newlines turned into spaces and nothing else changed. |
| Preprocessing.Unchanged | src/PreProcess/PreProcess.cs:8-21 | Input with no `#` and no newline comes out unchanged. |
| Preprocessing.CommentDropped | src/PreProcess/PreProcess.cs:10-19 | A `#` drops everything through the next newline. The character after that is emitted without a check, even when it is another `#`. |
| Preprocessing.SecondCommentKept | src/PreProcess/PreProcess.cs:10-19 | Of two comment lines in a row, the second `#` and its text survive. |
| Preprocessing.CommentAtEnd | src/PreProcess/PreProcess.cs:11-13 | A comment that reaches the end of the input, or whose newline is the last character, indexes past the end: an error result. |
| LexTables.IndexOf | src/LexicalAnalysis/LexDescription.cs:32 | `List.IndexOf`: the first position holding the word, or -1 exactly when it is absent. |
| LexTables.Recorded | src/LexicalAnalysis/LexDescription.cs:32-37 | The list after the lookup holds the word, keeps its old entries as a prefix, grows by at most one and stays free of duplicates. |
| LexTables.StepConsistent | src/LexicalAnalysis/LexDescription.cs:30-39 | Recording a word keeps every list free of duplicates and every token's index valid, and the new token names the word (round trip). |
| LexTables.LexTable.constructor | src/LexicalAnalysis/LexDescription.cs:19-28 | All seven categories map to empty lists, and `Rst` is empty. |
| LexTables.LexTable.Get | src/LexicalAnalysis/LexDescription.cs:29 | The indexer returns the category's list. |
| LexTables.LexTable.StepNextResult | src/LexicalAnalysis/LexDescription.cs:30-39 | Only the category's list changes, as `Recorded` says. `Rst` grows by exactly the token (category, first index of the word). |
| LexTables.SeenWordReused | src/LexicalAnalysis/LexDescription.cs:32-37 | A word already present leaves the list unchanged and reuses its index. |
| LexTables.NewWordAppended | src/LexicalAnalysis/LexDescription.cs:33-36 | A new word goes to the end of the list, at index `Count - 1`. |
| LexTables.WordIsFirst | src/LexicalAnalysis/LexDescription.cs:32 | In a list without duplicates, the only position of a word is its first. |
| Grammar.DistinguishedNames | src/SyntaxAnalysis/SyntaxRawData.cs:84-85 | End of input and epsilon are named `EOI,` and `Epsilon,`, and the two names differ. |
| Grammar.NameSeparates | src/SyntaxAnalysis/SyntaxRawData.cs:33 | `type + "," + data` tells different keys apart when no type contains a comma. |
| Grammar.Statics.constructor | src/SyntaxAnalysis/SyntaxRawData.cs:23-44 | The static state starts with an empty terminal table, production id 0 and no start symbol. |
| Grammar.Statics.TerminalGet | src/SyntaxAnalysis/SyntaxRawData.cs:29-36 | A key already in the table gives back the same object, and nothing changes. Otherwise a new terminal named `type,data` is stored under the key. |
| Grammar.Statics.NonTerminalGet | src/SyntaxAnalysis/SyntaxRawData.cs:16-19 | Every call makes a new object with the given name and kind NonTerminal; nothing else changes. |
| Grammar.Statics.NewSentence | src/SyntaxAnalysis/SyntaxRawData.cs:41-47 | The next production id, a new left-hand nonterminal and an in-order copy of the right-hand side. Ids strictly increase. |
| Grammar.Statics.EndOfInput | src/SyntaxAnalysis/SyntaxRawData.cs:84 | The interned terminal `EOI,`, the same object on every access. |
| Grammar.Statics.Epsilon | src/SyntaxAnalysis/SyntaxRawData.cs:85 | The interned terminal `Epsilon,`, the same object on every access. |
| Grammar.WithLeftMembers | src/SyntaxAnalysis/SyntaxRawData.cs:77-80 | The index lists exactly the productions with that left-hand name. |
| Grammar.AddedLists | src/SyntaxAnalysis/SyntaxRawData.cs:67-75 | Adding a production to the index of a list gives the index of the list with the production appended. |
| Grammar.Syntax.constructor | src/SyntaxAnalysis/SyntaxRawData.cs:51-58 | `Sentences` keep the given order, and every sentence is indexed under its left-hand name, in order. |
| Grammar.Syntax.AddSentence | src/SyntaxAnalysis/SyntaxRawData.cs:67-75 | Appends to the list under the left-hand name and leaves `Sentences` unchanged. |
| Grammar.Syntax.GetSentence | src/SyntaxAnalysis/SyntaxRawData.cs:77-80 | The added productions whose left-hand `Name` is the symbol's name, or none. |
| Grammar.Syntax.SetStartSymbol | src/SyntaxAnalysis/SyntaxRawData.cs:61-65 | The static start symbol becomes the argument, so the last call wins; nothing else changes. |
| FirstSets.FirstUnique | src/SyntaxAnalysis/LALR_1_Analyser.cs:303-331 | A symbol has at most one FIRST set, whatever fuel is used. |
| FirstSets.TerminalFirst | src/SyntaxAnalysis/LALR_1_Analyser.cs:311-315 | The FIRST set of a terminal is the terminal alone. |
| FirstSets.EpsilonProduction | src/SyntaxAnalysis/LALR_1_Analyser.cs:319-322 | A nonterminal with an empty production has epsilon in its FIRST set. |
| FirstSets.NoProductions | src/SyntaxAnalysis/LALR_1_Analyser.cs:317 | A nonterminal without productions has the empty FIRST set. |
| FirstSets.AlternativeIncluded | src/SyntaxAnalysis/LALR_1_Analyser.cs:317-327 | Each production contributes: epsilon for an empty right-hand side, otherwise the FIRST set of the right-hand side. |
| FirstSets.AfterNullable | src/SyntaxAnalysis/LALR_1_Analyser.cs:303-331 | For `A -> B c` with `B -> ε`, the terminal `c` is in FIRST(A). |
| FirstSets.EmptySequenceFirst | src/SyntaxAnalysis/LALR_1_Analyser.cs:292-295 | FIRST of the empty sequence is {epsilon}. |
| FirstSets.SequenceNullable | src/SyntaxAnalysis/LALR_1_Analyser.cs:285-295 | Epsilon is in FIRST of a sequence if and only if every symbol of it is nullable. |
| FirstSets.SequenceIncludes | src/SyntaxAnalysis/LALR_1_Analyser.cs:280-289 | Left to right: the non-epsilon FIRST of every symbol whose predecessors are all nullable is in FIRST of the sequence. |
| FirstSets.SequenceOnly | src/SyntaxAnalysis/LALR_1_Analyser.cs:280-289 | Nothing else: a member is epsilon, or comes from a symbol whose predecessors are all nullable. |
| FirstSets.FirstCache.constructor | src/SyntaxAnalysis/LALR_1_Analyser.cs:301 | The cache starts empty. |
| FirstSets.FirstCache.GetFirst | src/SyntaxAnalysis/LALR_1_Analyser.cs:303-331 | A cached symbol gives its cached set. Any result is the symbol's FIRST set, and cached entries are never changed; the result is None only when the fuel cannot reach the set. |
| FirstSets.FirstCache.UnionOver | src/SyntaxAnalysis/LALR_1_Analyser.cs:317-327 | The loop over the productions unites their contributions into the reference set. |
| FirstSets.FirstCache.ComputeFirst | src/SyntaxAnalysis/LALR_1_Analyser.cs:277-298 | The result is FIRST of the sequence, and it exists whenever the reference definition reaches one within the fuel. |
| FirstSets.FirstCache.AllNullable | src/SyntaxAnalysis/LALR_1_Analyser.cs:292 | The `All` check reads the sets again and holds if and only if the first loop ran through every symbol. |
| LrItems.NextSymbol | src/SyntaxAnalysis/LALR_1_Analyser.cs:13-15 | No next symbol exactly for a reduce item (dot ≥ the length of the right-hand side); otherwise the symbol after the dot. |
| LrItems.Skip | src/SyntaxAnalysis/LALR_1_Analyser.cs:336 | LINQ `Skip(n)`: what follows the first `n` elements, or nothing. |
| LrItems.BetaShape | src/SyntaxAnalysis/LALR_1_Analyser.cs:333-340 | The lookahead sequence ends with the item's lookahead, after the symbols that follow the next symbol. |
| LrItems.TransitionSymbolsSpec | src/SyntaxAnalysis/LALR_1_Analyser.cs:202-205 | Each next symbol of the items, once each, and nothing else. |
| LrItems.MatchingSpec | src/SyntaxAnalysis/LALR_1_Analyser.cs:210-211 | Exactly the items whose next symbol is the given one are kept. |
| LrItems.AdvanceSound | src/SyntaxAnalysis/LALR_1_Analyser.cs:210-217 | Every advanced item is a new object (consecutive uids). Its dot moved over the symbol of a matching item, and stays within the right-hand side. |
| LrItems.AdvanceComplete | src/SyntaxAnalysis/LALR_1_Analyser.cs:210-217 | Every item over the symbol is advanced. |
| Signatures.Entries | src/SyntaxAnalysis/LALR_1_Analyser.cs:71 | One (sentence id, dot, lookahead name) entry per item, in order. |
| Signatures.SignatureSpec | src/SyntaxAnalysis/LALR_1_Analyser.cs:66-72 | A signature lists the item entries, each as often as it occurs, sorted by (sentence id, dot). |
| Signatures.SortStable | src/SyntaxAnalysis/LALR_1_Analyser.cs:69-70 | `OrderBy` then `ThenBy` is stable: entries with an equal key keep their order. |
| Signatures.SameSignature | src/SyntaxAnalysis/LALR_1_Analyser.cs:73-86 | Two item lists have equal signatures if and only if, for every (sentence id, dot), they list the same lookahead names in the same order. |
| Signatures.AdvanceEntries | src/SyntaxAnalysis/LALR_1_Analyser.cs:210-217 | The entries of an advanced kernel do not depend on the numbers its new items get. |
| Signatures.SortSorted | src/SyntaxAnalysis/LALR_1_Analyser.cs:69-70 | The sorted entries are ordered by (sentence id, dot) and are a permutation of the entries. |
| Grouping.GroupBySpec | src/SyntaxAnalysis/LALR_1_Analyser.cs:345-347 | `GroupBy`: groups of equal keys, one per distinct key, ordered by first occurrence, members ascending, every index in a group. |
| Grouping.GroupHead | src/SyntaxAnalysis/LALR_1_Analyser.cs:351 | The first member of a group is the first index with its key. |
| Grouping.GroupUnique | src/SyntaxAnalysis/LALR_1_Analyser.cs:349-352 | Every index lies in exactly one group, at a single place. |
| Merging.Sigs | src/SyntaxAnalysis/LALR_1_Analyser.cs:88-91 | The signatures of the states, in order. |
| Merging.AddMissingSpec | src/SyntaxAnalysis/LALR_1_Analyser.cs:354-357 | `KernelItems.Add` for each item keeps the old items first. The result holds exactly the items of both, each once. |
| Merging.RedirectAllRenames | src/SyntaxAnalysis/LALR_1_Analyser.cs:93-119 | Successive `UpdateStateReferences` calls with one-way pairs are one renaming of targets. |
| Merging.IndexPairsMembers | src/SyntaxAnalysis/LALR_1_Analyser.cs:349-359 | Every redirection takes a later member of a group to the group's first member. |
| Merging.IndexPairsComplete | src/SyntaxAnalysis/LALR_1_Analyser.cs:349-359 | Every later member of a group is redirected to the group's first member. |
| Merging.MergeRenames | src/SyntaxAnalysis/LALR_1_Analyser.cs:343-361 | When ids are indices, the merge renames each shift and goto target that is a later group member to the group's first state, and changes nothing else. |
| Merging.MergeTables | src/SyntaxAnalysis/LALR_1_Analyser.cs:343-361 | Entry by entry: a shift or goto into a later member now names the first state. No entry names a later member, and every other entry is unchanged. |
| Merging.MergedShape | src/SyntaxAnalysis/LALR_1_Analyser.cs:343-361 | The list keeps its length and every state its `Id` and items (as a prefix). A later member is unchanged, and the first state of each group holds the items of every member. |
| Merging.MergedClosed | src/SyntaxAnalysis/LALR_1_Analyser.cs:343-361 | States that are closed with dots in range stay so through the merge. |
| Lalr.RedirectShifts | src/SyntaxAnalysis/LALR_1_Analyser.cs:98-105 | The inner loop over one row sends every shift to the old state to the new one. |
| Lalr.RedirectTargets | src/SyntaxAnalysis/LALR_1_Analyser.cs:111-117 | The inner loop over one goto row sends every target equal to the old state to the new one. |
| Lalr.RedirectActionRows | src/SyntaxAnalysis/LALR_1_Analyser.cs:95-106 | The loop over the rows of `_actionTable`, in any order, rewrites every row. |
| Lalr.RedirectGotoRows | src/SyntaxAnalysis/LALR_1_Analyser.cs:108-118 | The loop over the rows of `_gotoTable`, in any order, rewrites every row. |
| Lalr.AddItems | src/SyntaxAnalysis/LALR_1_Analyser.cs:354-357 | The loop adding a member's items to the first state builds the `AddMissing` list. |
| Lalr.MergedTablesOk | src/SyntaxAnalysis/LALR_1_Analyser.cs:343-361 | After the merge, every state still has exactly the entries of its transition symbols, and every entry still names a state of the list. |
| Lalr.MergedOk | src/SyntaxAnalysis/LALR_1_Analyser.cs:343-361 | The merge keeps the state list as the construction leaves it: ids and closed item lists. |
| Lalr.IdsAreIndices | src/SyntaxAnalysis/LALR_1_Analyser.cs:189 | On a generator built from state 0, every state's `Id` equals its index (223). |
| Lalr.KernelLeads | src/SyntaxAnalysis/LALR_1_Analyser.cs:209-229 | What `FindOrAdd` gives for the advanced kernel, whatever numbers its items carry, is where the symbol leads. |
| Lalr.FoundLeads | src/SyntaxAnalysis/LALR_1_Analyser.cs:209-229 | The state found or made for the kernel of `cur` on `y` is where `y` leads, and the states stay derived. |
| Lalr.DerivedGrow | src/SyntaxAnalysis/LALR_1_Analyser.cs:221-228 | Appending the state made for a transition of a listed state keeps every state derived. |
| Lalr.TablesLeadGrow | src/SyntaxAnalysis/LALR_1_Analyser.cs:226 | Appending states keeps every entry leading where it did. |
| Lalr.ActionLeadStep | src/SyntaxAnalysis/LALR_1_Analyser.cs:231-234 | Installing Accept or `Shift(t)`, for the state `t` the symbol leads to, keeps every ACTION and GOTO entry leading. |
| Lalr.GotoLeadStep | src/SyntaxAnalysis/LALR_1_Analyser.cs:235-238 | Installing the goto `t`, for the state `t` the symbol leads to, keeps every entry leading. |
| Lalr.ConnectLeads | src/SyntaxAnalysis/LALR_1_Analyser.cs:231-239 | The entry `Connect` puts into an empty slot is Accept or `Shift(t)` (the goto `t`), and every entry still leads where its kernel does. |
| Lalr.FillingStart | src/SyntaxAnalysis/LALR_1_Analyser.cs:200-207 | A dequeued state with no row yet starts with an empty row, and the entries of the earlier rows lead where they should. |
| Lalr.FillingGrow | src/SyntaxAnalysis/LALR_1_Analyser.cs:221-228 | Appending a state keeps a half-filled row and the entries before it as they were. |
| Lalr.FillingDone | src/SyntaxAnalysis/LALR_1_Analyser.cs:207-240 | A row filled with every transition symbol of its state completes the tables up to it, with every entry leading where its kernel does. |
| Lalr.Generator.constructor | src/SyntaxAnalysis/LALR_1_Analyser.cs:58-62 | No states, empty tables and an empty FIRST cache. |
| Lalr.Generator.ComputeLookahead | src/SyntaxAnalysis/LALR_1_Analyser.cs:333-340 | FIRST of the symbols after the next one, followed by the lookahead. It exists whenever the reference definition reaches one within the fuel. |
| Lalr.Generator.AddLookaheads | src/SyntaxAnalysis/LALR_1_Analyser.cs:264-271 | A new item (p, 0, la) for every lookahead, appended and numbered in order; nothing else changes. |
| Lalr.Generator.ExpandItem | src/SyntaxAnalysis/LALR_1_Analyser.cs:259-272 | For an item before nonterminal `B`, every production of `B` is added with every lookahead of the item, after the kept items. |
| Lalr.Generator.ComputeClosure | src/SyntaxAnalysis/LALR_1_Analyser.cs:248-275 | Keeps the kernel as a prefix and adds only dot-0 items of grammar productions. The result is closed: every item before a nonterminal `B` has (p, 0, la) for each production p of `B` and each la in FIRST(rest ++ [lookahead]). |
| Lalr.Generator.FindExistingState | src/SyntaxAnalysis/LALR_1_Analyser.cs:73-86 | The first state whose items have the kernel's signature, or none when no state has it. |
| Lalr.Generator.UpdateActionTable | src/SyntaxAnalysis/LALR_1_Analyser.cs:120-152 | Throws, with the message data, exactly on an existing shift to another state or on a reduce, and then the table is unchanged. Otherwise it installs a shift into an empty slot, overwritten by Accept when the target holds a reduce item of the start symbol; no other entry changes. |
| Lalr.Generator.UpdateGotoTable | src/SyntaxAnalysis/LALR_1_Analyser.cs:153-179 | Throws exactly when the slot holds another state. Otherwise it fills the slot, which does nothing when the target is the same; no other entry changes. |
| Lalr.Generator.UpdateStateReferences | src/SyntaxAnalysis/LALR_1_Analyser.cs:93-119 | Every shift to, and every goto into, the old state now names the new one; nothing else changes. |
| Lalr.Generator.MergeMember | src/SyntaxAnalysis/LALR_1_Analyser.cs:354-358 | One later member: its items are added to the first state's items, then every reference to it names the first state; nothing else changes. |
| Lalr.Generator.MergeGroup | src/SyntaxAnalysis/LALR_1_Analyser.cs:351-359 | The first state absorbs the members' items in order, and the tables are redirected member by member. |
| Lalr.Generator.MergeStates | src/SyntaxAnalysis/LALR_1_Analyser.cs:343-361 | The states become `Merged` and the tables are redirected by the group pairs; with `MergeTables` and `MergedShape`, no entry names a later member. |
| Lalr.Generator.FindOrAdd | src/SyntaxAnalysis/LALR_1_Analyser.cs:219-229 | The first state with the kernel's signature, with nothing changed. Otherwise a new state with the next `Id`, holding the kernel followed by its closure. |
| Lalr.Generator.Connect | src/SyntaxAnalysis/LALR_1_Analyser.cs:231-239 | A terminal updates ACTION and a nonterminal GOTO, with exactly the entry the update installs (Accept, the kept shift or `Shift(target)`; the goto `target`) and nothing else; on a throw nothing changes. On a fresh generator the slot is empty, so no update throws. The row gains exactly that symbol, and when `target` is where the symbol leads every entry still leads where its kernel does. |
| Lalr.Generator.ExpandSymbol | src/SyntaxAnalysis/LALR_1_Analyser.cs:209-239 | Returns the state `t` that the advanced kernel leads to (`Leads`): the first state with the kernel's signature, or one newly made on the kernel. The state list only grows, stays closed with ids as indices, and stays derived. On a fresh generator the entry of the dequeued state on the symbol is Accept or `Shift(t)` for a terminal, and `t` for a nonterminal, and every entry leads where its kernel does. |
| Lalr.Generator.ExpandState | src/SyntaxAnalysis/LALR_1_Analyser.cs:202-240 | Every transition symbol of the dequeued state in turn; the states stay derived. On a fresh generator its rows end up with exactly its transition symbols, and every entry of the rows up to it names the state its advanced kernel leads to (`TablesLead`). |
| Lalr.Generator.Explore | src/SyntaxAnalysis/LALR_1_Analyser.cs:195-241 | The queue loop; every state after the first is made for a transition of an earlier one. On a fresh generator nothing throws, every state's rows hold exactly its transition symbols, and every entry names the state its advanced kernel leads to. |
| Lalr.Generator.Construct | src/SyntaxAnalysis/LALR_1_Analyser.cs:183-241 | The start state and the queue loop: the explored states begin with the item (first sentence, dot 0, end of input), are closed and derived from it. On a fresh generator the error can only be `OutOfFuel`, and the tables are complete with every entry leading where its kernel does. |
| Lalr.Generator.StartState | src/SyntaxAnalysis/LALR_1_Analyser.cs:183-192 | State `Id` 0: the new item (first sentence, dot 0, end of input) first, then its closure. |
| Lalr.Generator.BuildParsingTable | src/SyntaxAnalysis/LALR_1_Analyser.cs:180-245 | Fails with `NoSentence` exactly when the grammar has no sentence, changing nothing. Otherwise: the explored states start with the initial state, are closed, and each later one was made for a transition of an earlier one; the states and tables are those of `MergeStates`. On a fresh generator no update throws, the explored and merged tables are complete and name only listed states, and every explored entry names the state its advanced kernel leads to. |

## Left out

- `Lalr.Generator.BuildParsingTable`: conflict freedom and complete tables are proved only for a generator whose states and tables are empty beforehand. On a second call the source would throw or mix tables; the model states no more than the error kinds and the state invariants there.
- `Lalr.Generator.Explore`, `Lalr.Generator.ExpandState`, `Lalr.Generator.ExpandSymbol` and `Lalr.Generator.Connect`: the same guard, for the same reason.
- `Lalr.Generator.BuildParsingTable`: that every explored entry names the state its advanced kernel leads to is stated for the explored tables. For the merged tables the model states the renaming (`Merging.MergeTables`), not `Leads` again.
- `Lalr.Leads`: the state found for a kernel is characterised by its signature, not named as a function of the final state list. `FindExistingState` compares a kernel with closed states, so several states can be made on one kernel, and only the first state with the kernel's signature is determined.
- `Lalr.Generator.UpdateActionTable`: `Reduce` entries are never installed, so its `ShiftReduce` branch cannot throw in a real run; the model keeps the branch for callers in general.
- `FirstSets.FirstCache.GetFirst`: takes a fuel bound on the nesting of expansions and returns None when it runs out. The source recurses without end on a nonterminal that reaches itself through nullable prefixes.
- `Lalr.Generator.ComputeClosure`: takes a fuel bound on the number of dequeued items. Items are compared by reference, so left recursion through a dot-0 nonterminal would loop forever in the source.
- `Lalr.Generator.Explore`: takes a fuel bound on the number of dequeued states. `FindExistingState` compares an unclosed kernel with closed states, so a grammar such as `S → a S \| b` makes new states without end.
- `Minimization.Minimal`, `Minimization.BuildMinimizedDFA` and `Minimization.Dedup`: structural facts only, with no language equivalence. The refinement as written can leave a partition that is not a congruence (see Findings). `DFANodeComparer.Equals` compares symbol sets and target sets separately, so two nodes with the same hash code that are `Equals` can still behave differently, and the dedup would merge them.
- `RegexLexing.Parse` requires distinct category names: its input stands for the keys of the YAML dictionary.
- `NFASetComparer.GetHashCode`: not modelled. It folds the node IDs in sorted order, so sets that are `Equals` always hash alike, and a lookup is modelled by `Equals` alone (`DFANodeComparer.GetHashCode` is modelled by `DfaGraph.Hash`).
- `RegexParsing.PeekAt`, `RegexParsing.ParseAtomAt`, `RegexLexing.RunWord`, `RegexLexing.TryMatch`, `Preprocessing.Process`, `Preprocessing.Run` and `DfaGraph.Hash`: text is a sequence of Unicode scalar values (Dafny `char`), not of UTF-16 code units. A character outside the Basic Multilingual Plane is one symbol in the model but a surrogate pair in C#, so `🚀*` stars the whole character here and only its low surrogate in the source. Lone surrogates cannot be represented, and the hash adds the code point where C# adds the code unit.
- The order in which `HashSet` and `Dictionary` enumerate: modelled as an arbitrary repetition-free order (`Collections.Enumerate`) where it can matter, and as insertion order for dictionaries filled once.
- YAML parsing and file reading (`File.ReadAllText`, the deserializer) in `RegexParser`: the model takes an in-memory sequence of (category, pattern) pairs.
- Console output: `RegexLex.Test`, `LexTable.Echo` and `Main.cs`.
- `LexicalAnalizer.cs`: directory checks and fluent wiring. Its `Process` passes a string where `StepNextResult` expects a `LexCategory`, so it does not compile.
- The stubs `LALR1Analyser.Build`, `AddSyntaxes` and `CalculateFollowList`, which do nothing.
- Signature strings: modelled as the stably sorted sequence of (sentence id, dot, lookahead name) entries. The `:`/`\|` and `,`/`;` formats of the two signature functions are not modelled, and neither is the chance that a lookahead name holding a separator makes two different lists print alike.
- `Syntax.EndOfInputSymbol`, `Syntax.EpsilonSymbol` and `Syntax.StartSymbol` are read once when a generator is made and passed in as values.
- The duplicated Utils copies: mapped onto the same definitions. The copies clash at compile time, and `CharacterNode(string c)` in src/Utils/AbstractSyntexTree.cs does not type-check; it is modelled with `char`.

## Findings

| source | as written | input that shows it | evidently intended | confidence | as-written member | corrected member |
|---|---|---|---|---|---|---|
| src/LexicalAnalysis/RegexLex.cs:384-407 | A dequeued block that no symbol splits is dropped from the queue for good, even when a block its targets lie in is split later. | The pattern `()\|aa(aaa)*` gives the subset automaton 0 -a-> 1 -a-> 2 -a-> 3 -a-> 4 -a-> 5 -a-> 3, whose accepting nodes are 0, 2 and 5. Block {0, 2, 5} is found stable, then {1, 3, 4} splits into {1, 4} and {3}. The final partition {0, 2, 5}, {1, 4}, {3} makes a quotient that accepts `aaaa`, which the pattern does not match. No two of its three nodes are `Equals`, so the dedup returns it unchanged. The subset automaton of the pattern is written out by hand as `Minimization.Lasso`: the final partition, the quotient, the dedup and the `aaaa` runs are proved on it, the step from the pattern to it is not. | Re-examine after a split until every block is stable, so the quotient accepts the same language. | high (not executed) | Minimization.MinimalCounterexample | Minimization.RefineStable |
