/**
 * `LALR1Analyser.Generator` (`LALR_1_Analyser.cs`): the list of states, the
 * ACTION and GOTO tables, the closure of item sets, the breadth-first
 * construction of the states and the merge of states with equal
 * signatures.
 *
 * A state is a value (`LalrState`) holding its `Id` and its items: the
 * `KernelItems` hash set, into which `ComputeClosure` also writes the closure
 * items. A `HashSet<LrItem>` compares items by identity, and every
 * `new LrItem` is a new object; the model numbers items with `nextItem` and
 * lists a state's items in insertion order.
 *
 * The static members `Syntax.EndOfInputSymbol` and `Syntax.StartSymbol` are
 * read once, when the generator is made (`eoi`, `start`); the generator
 * changes neither.
 */
module Lalr {
  import opened Wrappers
  import opened Collections
  import opened Grammar
  import opened FirstSets
  import opened LrItems
  import opened Signatures
  import opened ParseTables
  import opened Grouping
  import opened Closures
  import opened Merging

  /** The row of state `s`, or an empty one. */
  function RowOf(t: ActionTable, s: nat): Row
  {
    if s in t then t[s] else map[]
  }

  function GotoRowOf(t: GotoTable, s: nat): GotoRow
  {
    if s in t then t[s] else map[]
  }

  /** The row with every shift to `o` sent to `n` (the inner loop of `UpdateStateReferences`). */
  method RedirectShifts(row: Row, o: nat, n: nat) returns (r: Row)
    ensures r == RedirectRow(row, o, n)
  {
    var keys := Enumerate(row.Keys);
    ghost var done: set<Symbol> := {};
    r := row;
    for i := 0 to |keys|
      invariant r.Keys == row.Keys && forall y :: y in keys[..i] ==> y in done
      invariant forall y :: y in r ==> r[y] == if y in done then RedirectAction(row[y], o, n) else row[y]
    {
      var y := keys[i];
      if r[y].Shift? && r[y].target == o {
        r := r[y := Shift(n)];
      }
      done := done + {y};
    }
    assert forall y :: y in row ==> y in done;
  }

  /** The goto row with every target `o` sent to `n`. */
  method RedirectTargets(row: GotoRow, o: nat, n: nat) returns (r: GotoRow)
    ensures r == RedirectGotoRow(row, o, n)
  {
    var keys := Enumerate(row.Keys);
    ghost var done: set<Symbol> := {};
    r := row;
    for i := 0 to |keys|
      invariant r.Keys == row.Keys && forall y :: y in keys[..i] ==> y in done
      invariant forall y :: y in r ==> r[y] == if y in done && row[y] == o then n else row[y]
    {
      var y := keys[i];
      if r[y] == o {
        r := r[y := n];
      }
      done := done + {y};
    }
    assert forall y :: y in row ==> y in done;
  }

  /** The first loop of `UpdateStateReferences`: each row of `_actionTable` in turn, in any order. */
  method RedirectActionRows(t: ActionTable, o: nat, n: nat) returns (r: ActionTable)
    ensures r == RedirectActions(t, o, n)
  {
    var rest := t.Keys;
    r := t;
    while rest != {}
      invariant rest <= t.Keys && r.Keys == t.Keys
      invariant forall s :: s in r ==> r[s] == if s in rest then t[s] else RedirectRow(t[s], o, n)
      decreases |rest|
    {
      var s :| s in rest;
      var row := RedirectShifts(r[s], o, n);
      r := r[s := row];
      rest := rest - {s};
    }
  }

  /** The second loop of `UpdateStateReferences`: each row of `_gotoTable` in turn, in any order. */
  method RedirectGotoRows(t: GotoTable, o: nat, n: nat) returns (r: GotoTable)
    ensures r == RedirectGotos(t, o, n)
  {
    var rest := t.Keys;
    r := t;
    while rest != {}
      invariant rest <= t.Keys && r.Keys == t.Keys
      invariant forall s :: s in r ==> r[s] == if s in rest then t[s] else RedirectGotoRow(t[s], o, n)
      decreases |rest|
    {
      var s :| s in rest;
      var row := RedirectTargets(r[s], o, n);
      r := r[s := row];
      rest := rest - {s};
    }
  }

  /** `mergedState.KernelItems.Add(item)` for each item of a later member, in order. */
  method AddItems(items: seq<LrItem>, more: seq<LrItem>) returns (r: seq<LrItem>)
    ensures r == AddMissing(items, more)
  {
    r := items;
    for j := 0 to |more|
      invariant r == AddMissing(items, more[..j])
    {
      assert more[..j + 1][..j] == more[..j];
      if more[j] !in r {
        r := r + [more[j]];
      }
    }
    assert more[..|more|] == more;
  }

  /**
   * The states from `lo` on, as the construction leaves them: state `lo` has
   * `Id` 0, every later state's `Id` is its index, and every item list is
   * closed with every dot within its right-hand side.
   */
  ghost predicate StatesOk(ps: seq<Sentence>, eps: Symbol, states: seq<LalrState>, lo: nat)
  {
    lo < |states| && states[lo].id == 0 &&
    (forall k :: lo < k < |states| ==> states[k].id == k) &&
    forall k :: lo <= k < |states| ==> Closed(ps, eps, states[k].items) && AllDotted(states[k].items)
  }

  /** A state's two rows hold exactly the terminals, and the nonterminals, of `syms`. */
  ghost predicate RowsMatch(row: Row, grow: GotoRow, syms: seq<Symbol>)
  {
    (forall y :: y in row <==> y in syms && y.kind == Terminal) &&
    (forall y :: y in grow <==> y in syms && y.kind == NonTerminal)
  }

  /** Each of the first `n` states has an entry for each of its transition symbols and no other. */
  ghost predicate Complete(states: seq<LalrState>, action: ActionTable, goto: GotoTable, n: nat)
  {
    n <= |states| &&
    forall s :: 0 <= s < n ==> RowsMatch(RowOf(action, s), GotoRowOf(goto, s), TransitionSymbols(states[s].items))
  }

  /** Only the first `n` states have rows, and every entry is an accept or names a state of the list. */
  ghost predicate TablesOk(action: ActionTable, goto: GotoTable, bound: nat, n: nat)
  {
    (forall s :: s in action ==> s < n) && (forall s :: s in goto ==> s < n) &&
    ShiftsBelow(action, bound) && GotosBelow(goto, bound)
  }

  /**
   * The entries of the kernel that `symbol` leads to from `items`. `Advance`
   * numbers the new items, and the entries do not depend on those numbers
   * (`AdvanceEntries`).
   */
  ghost function KernelOf(items: seq<LrItem>, symbol: Symbol): seq<Entry>
  {
    Entries(Advance(items, symbol, 0))
  }

  /** `items` starts with a kernel whose entries are `es`, and every later item is a dot-0 production item. */
  ghost predicate BuiltOn(ps: seq<Sentence>, items: seq<LrItem>, es: seq<Entry>)
  {
    |es| <= |items| && Entries(items[..|es|]) == es &&
    forall i :: |es| <= i < |items| ==> Predicted(ps, items[i])
  }

  /**
   * `Goto(s, y) = t` as the find-or-create step decides it: no state before
   * `t` has the signature of the kernel of `s` on `y`, and `t` either has
   * that signature or was made from that kernel.
   */
  ghost predicate Leads(ps: seq<Sentence>, states: seq<LalrState>, s: nat, y: Symbol, t: nat)
    requires s < |states|
  {
    var es := KernelOf(states[s].items, y);
    t < |states| && (Signature(states[t].items) == SortByKey(es) || BuiltOn(ps, states[t].items, es)) &&
    forall j :: 0 <= j < t ==> Signature(states[j].items) != SortByKey(es)
  }

  /** An ACTION entry of state `s` on `y`: a shift to the state `y` leads to, or `Accept` when that state accepts. */
  ghost predicate ActionLeads(ps: seq<Sentence>, start: Option<Symbol>, states: seq<LalrState>, s: nat, y: Symbol, a: Action)
    requires s < |states|
  {
    match a
    case Shift(t) => Leads(ps, states, s, y, t) && !Accepts(states[t].items, start)
    case Accept => exists t: nat :: Leads(ps, states, s, y, t) && Accepts(states[t].items, start)
    case _ => false
  }

  /** Every entry of the first `n` rows is the one the find-or-create step decides. */
  ghost predicate TablesLead(ps: seq<Sentence>, start: Option<Symbol>, states: seq<LalrState>, action: ActionTable, goto: GotoTable, n: nat)
  {
    n <= |states| &&
    (forall s, y {:trigger ActionLeads(ps, start, states, s, y, RowOf(action, s)[y])} ::
       0 <= s < n && y in RowOf(action, s) ==> ActionLeads(ps, start, states, s, y, RowOf(action, s)[y])) &&
    (forall s, y {:trigger Leads(ps, states, s, y, GotoRowOf(goto, s)[y])} ::
       0 <= s < n && y in GotoRowOf(goto, s) ==> Leads(ps, states, s, y, GotoRowOf(goto, s)[y]))
  }

  /** State `k` was made, for the transition symbol `y` of the earlier state `p`, from the advanced kernel. */
  ghost predicate MadeFor(ps: seq<Sentence>, states: seq<LalrState>, p: nat, y: Symbol, k: nat)
  {
    p < k < |states| && y in TransitionSymbols(states[p].items) &&
    BuiltOn(ps, states[k].items, KernelOf(states[p].items, y)) && Leads(ps, states, p, y, k)
  }

  /**
   * Where the states from `lo` on come from: after its first item, state
   * `lo` holds only dot-0 production items, and every later state was made
   * for a transition symbol of an earlier state.
   */
  ghost predicate Derived(ps: seq<Sentence>, states: seq<LalrState>, lo: nat)
  {
    lo < |states| && (forall i :: 1 <= i < |states[lo].items| ==> Predicted(ps, states[lo].items[i])) &&
    forall k :: lo < k < |states| ==> Descends(ps, states, lo, k)
  }

  /** State `k` was made for a transition symbol of a state from `lo` on. */
  ghost predicate Descends(ps: seq<Sentence>, states: seq<LalrState>, lo: nat, k: nat)
  {
    exists p: nat, y :: lo <= p && MadeFor(ps, states, p, y, k)
  }

  /** What `FindOrAdd` returns for the kernel of `cur` on `y` is where `y` leads. */
  lemma KernelLeads(ps: seq<Sentence>, states: seq<LalrState>, cur: nat, y: Symbol, n: nat, t: nat)
    requires cur < |states| && t < |states|
    requires var kernel := Advance(states[cur].items, y, n);
      (Signature(states[t].items) == Signature(kernel) ||
       (kernel <= states[t].items && forall k :: |kernel| <= k < |states[t].items| ==> Predicted(ps, states[t].items[k]))) &&
      forall j :: 0 <= j < t ==> Signature(states[j].items) != Signature(kernel)
    ensures Leads(ps, states, cur, y, t)
    ensures var kernel := Advance(states[cur].items, y, n);
      kernel <= states[t].items && (forall k :: |kernel| <= k < |states[t].items| ==> Predicted(ps, states[t].items[k])) ==>
      BuiltOn(ps, states[t].items, KernelOf(states[cur].items, y))
  {
    var kernel := Advance(states[cur].items, y, n);
    AdvanceEntries(states[cur].items, y, n, 0);
    assert Entries(kernel) == KernelOf(states[cur].items, y);
    if kernel <= states[t].items {
      assert states[t].items[..|kernel|] == kernel;
    }
  }

  /** Appending states keeps where `y` leads from `s`. */
  lemma LeadsGrow(ps: seq<Sentence>, states: seq<LalrState>, more: seq<LalrState>, s: nat, y: Symbol, t: nat)
    requires states <= more && s < |states| && Leads(ps, states, s, y, t)
    ensures Leads(ps, more, s, y, t)
  {
    assert more[s] == states[s] && more[t] == states[t];
    assert forall j :: 0 <= j < t ==> more[j] == states[j];
  }

  lemma ActionLeadsGrow(ps: seq<Sentence>, start: Option<Symbol>, states: seq<LalrState>, more: seq<LalrState>, s: nat, y: Symbol, a: Action)
    requires states <= more && s < |states| && ActionLeads(ps, start, states, s, y, a)
    ensures ActionLeads(ps, start, more, s, y, a)
  {
    if a.Shift? {
      var t := a.target;
      LeadsGrow(ps, states, more, s, y, t);
      assert more[t].items == states[t].items;
    } else if a.Accept? {
      AcceptLeadsGrow(ps, start, states, more, s, y);
    }
  }

  lemma AcceptLeadsGrow(ps: seq<Sentence>, start: Option<Symbol>, states: seq<LalrState>, more: seq<LalrState>, s: nat, y: Symbol)
    requires states <= more && s < |states|
    requires exists t: nat :: Leads(ps, states, s, y, t) && Accepts(states[t].items, start)
    ensures exists t: nat :: Leads(ps, more, s, y, t) && Accepts(more[t].items, start)
  {
    var t: nat :| Leads(ps, states, s, y, t) && Accepts(states[t].items, start);
    LeadsGrow(ps, states, more, s, y, t);
    assert more[t].items == states[t].items;
  }

  /** Appending states keeps every entry where it leads. */
  lemma TablesLeadGrow(ps: seq<Sentence>, start: Option<Symbol>, states: seq<LalrState>, more: seq<LalrState>,
                       action: ActionTable, goto: GotoTable, n: nat)
    requires states <= more && TablesLead(ps, start, states, action, goto, n)
    ensures TablesLead(ps, start, more, action, goto, n)
  {
    forall s, y | 0 <= s < n && y in RowOf(action, s) ensures ActionLeads(ps, start, more, s, y, RowOf(action, s)[y]) {
      ActionLeadsGrow(ps, start, states, more, s, y, RowOf(action, s)[y]);
    }
    forall s, y | 0 <= s < n && y in GotoRowOf(goto, s) ensures Leads(ps, more, s, y, GotoRowOf(goto, s)[y]) {
      LeadsGrow(ps, states, more, s, y, GotoRowOf(goto, s)[y]);
    }
  }

  /** A row with no entries yet: its state's entries all lead where they should. */
  lemma TablesLeadNext(ps: seq<Sentence>, start: Option<Symbol>, states: seq<LalrState>, action: ActionTable, goto: GotoTable, n: nat)
    requires n < |states| && TablesLead(ps, start, states, action, goto, n)
    requires n !in action && n !in goto
    ensures TablesLead(ps, start, states, action, goto, n + 1)
  {
  }

  /** The ACTION entry of `cur` on `y` that `UpdateActionTable` puts into an empty slot keeps every entry leading. */
  lemma ActionLeadStep(ps: seq<Sentence>, start: Option<Symbol>, states: seq<LalrState>, action: ActionTable, goto: GotoTable,
                       cur: nat, y: Symbol, t: nat)
    requires cur < |states| && TablesLead(ps, start, states, action, goto, cur + 1) && Leads(ps, states, cur, y, t)
    ensures TablesLead(ps, start, states, action[cur := RowOf(action, cur)[y := if Accepts(states[t].items, start) then Accept else Shift(t)]], goto, cur + 1)
  {
    var a := if Accepts(states[t].items, start) then Accept else Shift(t);
    var action' := action[cur := RowOf(action, cur)[y := a]];
    assert ActionLeads(ps, start, states, cur, y, a);
    forall s, z | 0 <= s < cur + 1 && z in RowOf(action', s)
      ensures ActionLeads(ps, start, states, s, z, RowOf(action', s)[z])
    {
      if s != cur || z != y {
        assert RowOf(action', s)[z] == RowOf(action, s)[z];
      }
    }
  }

  /** The GOTO entry of `cur` on `y` that `UpdateGotoTable` puts into an empty slot keeps every entry leading. */
  lemma GotoLeadStep(ps: seq<Sentence>, start: Option<Symbol>, states: seq<LalrState>, action: ActionTable, goto: GotoTable,
                     cur: nat, y: Symbol, t: nat)
    requires cur < |states| && TablesLead(ps, start, states, action, goto, cur + 1) && Leads(ps, states, cur, y, t)
    ensures TablesLead(ps, start, states, action, goto[cur := GotoRowOf(goto, cur)[y := t]], cur + 1)
  {
    var goto' := goto[cur := GotoRowOf(goto, cur)[y := t]];
    forall s, z | 0 <= s < cur + 1 && z in GotoRowOf(goto', s)
      ensures Leads(ps, states, s, z, GotoRowOf(goto', s)[z])
    {
      if s != cur || z != y {
        assert GotoRowOf(goto', s)[z] == GotoRowOf(goto, s)[z];
      }
    }
  }

  lemma MadeForGrow(ps: seq<Sentence>, states: seq<LalrState>, more: seq<LalrState>, p: nat, y: Symbol, k: nat)
    requires states <= more && MadeFor(ps, states, p, y, k)
    ensures MadeFor(ps, more, p, y, k)
  {
    LeadsGrow(ps, states, more, p, y, k);
    assert more[p] == states[p] && more[k] == states[k];
  }

  /** Appending the state made for `y` from `cur` keeps every state derived. */
  lemma DerivedGrow(ps: seq<Sentence>, states: seq<LalrState>, more: seq<LalrState>, lo: nat, cur: nat, y: Symbol)
    requires Derived(ps, states, lo) && lo <= cur < |states| && states <= more && |more| == |states| + 1
    requires MadeFor(ps, more, cur, y, |states|)
    ensures Derived(ps, more, lo)
  {
    assert more[lo] == states[lo];
    forall k | lo < k < |more| ensures Descends(ps, more, lo, k) {
      if k < |states| {
        assert Descends(ps, states, lo, k);
        var p: nat, z :| lo <= p && MadeFor(ps, states, p, z, k);
        MadeForGrow(ps, states, more, p, z, k);
        MadeForDescends(ps, more, lo, p, z, k);
      } else {
        assert k == |states|;
        MadeForDescends(ps, more, lo, cur, y, k);
      }
    }
  }

  lemma MadeForDescends(ps: seq<Sentence>, states: seq<LalrState>, lo: nat, p: nat, y: Symbol, k: nat)
    requires lo <= p && MadeFor(ps, states, p, y, k)
    ensures Descends(ps, states, lo, k)
  {
  }

  /** What `FindOrAdd` returns for the kernel of `cur` on `y` is where `y` leads, and the states stay derived. */
  lemma FoundLeads(ps: seq<Sentence>, before: seq<LalrState>, states: seq<LalrState>, lo: nat, cur: nat, y: Symbol,
                   n: nat, kernel: seq<LrItem>, t: nat)
    requires Derived(ps, before, lo) && lo <= cur < |before| && y in TransitionSymbols(before[cur].items)
    requires kernel == Advance(before[cur].items, y, n)
    requires before <= states && t <= |before| && t < |states|
    requires t < |before| ==> states == before && Signature(states[t].items) == Signature(kernel)
    requires t == |before| ==>
      |states| == t + 1 && kernel <= states[t].items &&
      forall k :: |kernel| <= k < |states[t].items| ==> Predicted(ps, states[t].items[k])
    requires forall j :: 0 <= j < t ==> Signature(states[j].items) != Signature(kernel)
    ensures Derived(ps, states, lo) && Leads(ps, states, cur, y, t)
  {
    assert states[cur] == before[cur];
    KernelLeads(ps, states, cur, y, n, t);
    if t == |before| {
      DerivedGrow(ps, before, states, lo, cur, y);
    }
  }

  /** The entry `Connect` installs into the empty slot of `cur` on `y` is the one `y` leads to. */
  lemma ConnectLeads(ps: seq<Sentence>, start: Option<Symbol>, states: seq<LalrState>, a0: ActionTable, g0: GotoTable,
                     action: ActionTable, goto: GotoTable, cur: nat, y: Symbol, t: nat)
    requires cur < |states| && TablesLead(ps, start, states, a0, g0, cur + 1) && Leads(ps, states, cur, y, t)
    requires y.kind == Terminal ==>
      goto == g0 && action == a0[cur := RowOf(a0, cur)[y := if Accepts(states[t].items, start) then Accept
                                                           else if y in RowOf(a0, cur) then RowOf(a0, cur)[y] else Shift(t)]]
    requires y.kind == NonTerminal ==> action == a0 && goto == g0[cur := GotoRowOf(g0, cur)[y := t]]
    requires y !in RowOf(a0, cur)
    ensures TablesLead(ps, start, states, action, goto, cur + 1)
    ensures y.kind == Terminal ==> RowOf(action, cur)[y] == if Accepts(states[t].items, start) then Accept else Shift(t)
    ensures y.kind == NonTerminal ==> GotoRowOf(goto, cur)[y] == t
  {
    if y.kind == Terminal {
      ActionLeadStep(ps, start, states, a0, g0, cur, y, t);
    } else {
      GotoLeadStep(ps, start, states, a0, g0, cur, y, t);
    }
  }

  /** An accept or a shift into the list, into the empty slot of `syms[j]` in row `cur`. */
  lemma ActionStep(action: ActionTable, goto: GotoTable, states: seq<LalrState>, cur: nat, syms: seq<Symbol>, j: nat, a: Action)
    requires j < |syms| && syms[j].kind == Terminal && syms[j] !in syms[..j]
    requires TablesOk(action, goto, |states|, cur + 1) && Complete(states, action, goto, cur)
    requires RowsMatch(RowOf(action, cur), GotoRowOf(goto, cur), syms[..j])
    requires (a.Shift? && a.target < |states|) || a.Accept?
    ensures var t := action[cur := RowOf(action, cur)[syms[j] := a]];
      TablesOk(t, goto, |states|, cur + 1) && Complete(states, t, goto, cur) &&
      RowsMatch(RowOf(t, cur), GotoRowOf(goto, cur), syms[..j + 1])
  {
    assert syms[..j + 1] == syms[..j] + [syms[j]];
  }

  /** A goto into the list, into the empty slot of `syms[j]` in row `cur`. */
  lemma GotoStep(action: ActionTable, goto: GotoTable, states: seq<LalrState>, cur: nat, syms: seq<Symbol>, j: nat, target: nat)
    requires j < |syms| && syms[j].kind == NonTerminal && syms[j] !in syms[..j]
    requires TablesOk(action, goto, |states|, cur + 1) && Complete(states, action, goto, cur)
    requires RowsMatch(RowOf(action, cur), GotoRowOf(goto, cur), syms[..j])
    requires target < |states|
    ensures var u := goto[cur := GotoRowOf(goto, cur)[syms[j] := target]];
      TablesOk(action, u, |states|, cur + 1) && Complete(states, action, u, cur) &&
      RowsMatch(RowOf(action, cur), GotoRowOf(u, cur), syms[..j + 1])
  {
    assert syms[..j + 1] == syms[..j] + [syms[j]];
  }

  /** Appending states keeps what holds of the first ones. */
  lemma StatesGrow(action: ActionTable, goto: GotoTable, states: seq<LalrState>, more: seq<LalrState>, n: nat, m: nat)
    requires states <= more && TablesOk(action, goto, |states|, n) && Complete(states, action, goto, m)
    ensures TablesOk(action, goto, |more|, n) && Complete(more, action, goto, m)
  {
    forall s | 0 <= s < m ensures more[s] == states[s] {
    }
  }

  /**
   * Row `cur` half filled: the rows before it are complete, row `cur` holds
   * exactly the symbols of `done`, every entry names a state of the list, and
   * every entry leads where its state's kernel does.
   */
  ghost predicate Filling(ps: seq<Sentence>, start: Option<Symbol>, states: seq<LalrState>, action: ActionTable, goto: GotoTable,
                          cur: nat, done: seq<Symbol>)
  {
    TablesOk(action, goto, |states|, cur + 1) && Complete(states, action, goto, cur) &&
    RowsMatch(RowOf(action, cur), GotoRowOf(goto, cur), done) && TablesLead(ps, start, states, action, goto, cur + 1)
  }

  /** A state with no row yet starts with an empty one. */
  lemma FillingStart(ps: seq<Sentence>, start: Option<Symbol>, states: seq<LalrState>, action: ActionTable, goto: GotoTable, cur: nat)
    requires cur < |states| && TablesOk(action, goto, |states|, cur) && Complete(states, action, goto, cur)
    requires TablesLead(ps, start, states, action, goto, cur)
    ensures Filling(ps, start, states, action, goto, cur, [])
  {
    TablesLeadNext(ps, start, states, action, goto, cur);
  }

  /** Appending states keeps a half-filled row half filled. */
  lemma FillingGrow(ps: seq<Sentence>, start: Option<Symbol>, states: seq<LalrState>, more: seq<LalrState>,
                    action: ActionTable, goto: GotoTable, cur: nat, done: seq<Symbol>)
    requires states <= more && Filling(ps, start, states, action, goto, cur, done)
    ensures Filling(ps, start, more, action, goto, cur, done)
  {
    StatesGrow(action, goto, states, more, cur + 1, cur);
    TablesLeadGrow(ps, start, states, more, action, goto, cur + 1);
  }

  /** A row filled with all transition symbols of its state is complete. */
  lemma FillingDone(ps: seq<Sentence>, start: Option<Symbol>, states: seq<LalrState>, action: ActionTable, goto: GotoTable, cur: nat)
    requires cur < |states| && Filling(ps, start, states, action, goto, cur, TransitionSymbols(states[cur].items))
    ensures TablesOk(action, goto, |states|, cur + 1) && Complete(states, action, goto, cur + 1)
    ensures TablesLead(ps, start, states, action, goto, cur + 1)
  {
  }

  /** The items of an advanced kernel are dotted. */
  lemma KernelDotted(items: seq<LrItem>, symbol: Symbol, next: nat)
    ensures forall k :: 0 <= k < |Advance(items, symbol, next)| ==> Dotted(Advance(items, symbol, next)[k])
  {
    forall k | 0 <= k < |Advance(items, symbol, next)| ensures Dotted(Advance(items, symbol, next)[k]) {
      AdvanceSound(items, symbol, next, k);
    }
  }

  /** The states stay as the construction leaves them when the found state is old or the new one is a closure. */
  lemma NewStateOk(ps: seq<Sentence>, eps: Symbol, before: seq<LalrState>, states: seq<LalrState>, lo: nat, kernel: seq<LrItem>, t: nat)
    requires StatesOk(ps, eps, before, lo) && before <= states && t <= |before| && t < |states|
    requires t < |before| ==> states == before
    requires t == |before| ==> (|states| == t + 1 && states[t].id == t && kernel <= states[t].items &&
      Closed(ps, eps, states[t].items) && forall k :: |kernel| <= k < |states[t].items| ==> Predicted(ps, states[t].items[k]))
    requires forall k :: 0 <= k < |kernel| ==> Dotted(kernel[k])
    ensures StatesOk(ps, eps, states, lo)
  {
    if t == |before| {
      forall k | 0 <= k < |states[t].items| ensures Dotted(states[t].items[k]) {
        if k < |kernel| {
          assert states[t].items[k] == kernel[k];
        }
      }
      forall k | lo <= k < t ensures states[k] == before[k] {
      }
    }
  }

  /**
   * After the merge, every state still has exactly the entries of its
   * transition symbols, every entry still names a state of the list, and no
   * entry names a state merged into an earlier one.
   */
  lemma MergedTablesOk(states: seq<LalrState>, t: ActionTable, u: GotoTable)
    requires forall k :: 0 <= k < |states| ==> states[k].id == k
    requires TablesOk(t, u, |states|, |states|) && Complete(states, t, u, |states|)
    ensures TablesOk(RedirectAll(t, Pairs(states)), RedirectAllGotos(u, Pairs(states)), |states|, |states|)
    ensures Complete(states, RedirectAll(t, Pairs(states)), RedirectAllGotos(u, Pairs(states)), |states|)
  {
    var sigs := Sigs(states);
    var ren := Reps(sigs);
    MergeRenames(states, t, u);
    forall k | k in ren ensures ren[k] < |states| {
      assert k in NonHeads(sigs);
      HeadIsHead(sigs, k);
    }
    RenameBelow(t, u, ren, |states|);
    RenamedKeys(states, t, u, ren);
  }

  /** Renaming targets keeps the symbols of every row, and so completeness. */
  lemma RenamedKeys(states: seq<LalrState>, t: ActionTable, u: GotoTable, ren: map<nat, nat>)
    requires Complete(states, t, u, |states|)
    ensures Complete(states, RenameActions(t, ren), RenameGotos(u, ren), |states|)
  {
    var r, ru := RenameActions(t, ren), RenameGotos(u, ren);
    forall s | 0 <= s < |states| ensures RowsMatch(RowOf(r, s), GotoRowOf(ru, s), TransitionSymbols(states[s].items)) {
      assert RowOf(r, s).Keys == RowOf(t, s).Keys;
      assert GotoRowOf(ru, s).Keys == GotoRowOf(u, s).Keys;
    }
  }

  /** The merge keeps the state list as the construction leaves it. */
  lemma MergedOk(ps: seq<Sentence>, eps: Symbol, states: seq<LalrState>, lo: nat)
    requires StatesOk(ps, eps, states, lo)
    ensures StatesOk(ps, eps, Merged(states), lo)
  {
    MergedShape(states);
    MergedClosed(ps, eps, states, lo);
  }

  /** Built from state 0 on, every state's `Id` is its index. */
  lemma IdsAreIndices(ps: seq<Sentence>, eps: Symbol, states: seq<LalrState>)
    requires StatesOk(ps, eps, states, 0)
    ensures forall k :: 0 <= k < |states| ==> states[k].id == k
  {
  }

  class Generator {
    const syntax: Syntax
    const first: FirstCache
    /** `Syntax.EndOfInputSymbol`. */
    const eoi: Symbol
    /** `Syntax.StartSymbol`. */
    const start: Option<Symbol>
    /** `_states`. */
    var states: seq<LalrState>
    /** `_actionTable`. */
    var action: ActionTable
    /** `_gotoTable`. */
    var goto: GotoTable
    /** The number of the next `LrItem` object. */
    var nextItem: nat

    ghost predicate Valid()
      reads this, first, syntax
    {
      first.syntax == syntax && first.Valid()
    }

    /** `new Generator(syntax)`: no states, empty tables and an empty FIRST cache. */
    constructor (syntax: Syntax, eoi: Symbol, eps: Symbol, start: Option<Symbol>)
      requires syntax.Valid()
      ensures Valid() && this.syntax == syntax && this.eoi == eoi && this.start == start
      ensures first.eps == eps && first.cache == map[] && fresh(first)
      ensures states == [] && action == map[] && goto == map[]
    {
      this.syntax := syntax;
      this.eoi := eoi;
      this.start := start;
      first := new FirstCache(syntax, eps);
      states := [];
      action := map[];
      goto := map[];
      nextItem := 0;
    }

    /** `ComputeLookahead(item)`: FIRST of the symbols after the next one, then the lookahead. */
    method ComputeLookahead(x: LrItem, fuel: nat) returns (r: Option<set<Symbol>>)
      requires Valid()
      modifies first
      ensures Valid()
      ensures r.Some? ==> FirstSeqIs(syntax.added, first.eps, Beta(x), r.value)
      ensures FirstSeq(syntax.added, first.eps, Beta(x), fuel).Some? ==> r.Some?
    {
      r := first.ComputeFirst(Beta(x), fuel);
    }

    /** The inner `foreach (var la in lookaheads)`: a new item `(p, 0, la)` for each lookahead, in enumeration order. */
    method AddLookaheads(p: Sentence, las: set<Symbol>, items: seq<LrItem>) returns (r: seq<LrItem>)
      modifies this
      ensures states == old(states) && action == old(action) && goto == old(goto)
      ensures nextItem == old(nextItem) + |las|
      ensures items <= r && |r| == |items| + |las|
      ensures forall k :: |items| <= k < |r| ==> r[k].uid == old(nextItem) + (k - |items|) && r[k].sentence == p && r[k].dot == 0 && r[k].lookahead in las
      ensures CoversOne(r, p, las)
    {
      var list := Enumerate(las);
      r := items;
      for j := 0 to |list|
        invariant |r| == |items| + j && nextItem == old(nextItem) + j && items <= r
        invariant forall k :: |items| <= k < |r| ==> r[k] == LrItem(old(nextItem) + (k - |items|), p, 0, list[k - |items|])
        invariant states == old(states) && action == old(action) && goto == old(goto)
      {
        r := r + [LrItem(nextItem, p, 0, list[j])];
        nextItem := nextItem + 1;
      }
      forall la | la in las ensures Has(r, p, la) {
        var j :| 0 <= j < |list| && list[j] == la;
        assert r[|items| + j] in r;
      }
    }

    /**
     * The body of `ComputeClosure` for an item `x` whose next symbol is the
     * nonterminal `b`: for every production of `b`, its lookaheads and a new
     * item per lookahead.
     */
    method ExpandItem(x: LrItem, b: Symbol, items: seq<LrItem>, fuel: nat) returns (r: Option<seq<LrItem>>)
      requires Valid()
      modifies this, first
      ensures Valid() && states == old(states) && action == old(action) && goto == old(goto)
      ensures nextItem >= old(nextItem)
      ensures r.Some? ==> items <= r.value
      ensures r.Some? ==> forall k :: |items| <= k < |r.value| ==> Predicted(syntax.added, r.value[k])
      ensures r.Some? ==> forall l :: FirstSeqIs(syntax.added, first.eps, Beta(x), l) ==> Covers(r.value, WithLeft(syntax.added, b.name), l)
    {
      ghost var ps := syntax.added;
      var prods := syntax.GetSentence(b);
      WithLeftMembers(ps, b.name);
      var cur := items;
      for i := 0 to |prods|
        invariant Valid() && states == old(states) && action == old(action) && goto == old(goto)
        invariant nextItem >= old(nextItem) && items <= cur
        invariant forall k :: |items| <= k < |cur| ==> Predicted(ps, cur[k])
        invariant forall l :: FirstSeqIs(ps, first.eps, Beta(x), l) ==> Covers(cur, prods[..i], l)
      {
        var las := ComputeLookahead(x, fuel);
        if las.None? {
          return None;
        }
        assert prods[i] in prods;
        var more := AddLookaheads(prods[i], las.value, cur);
        PrefixWithin(cur, more);
        CoverStep(ps, first.eps, x, prods, i, cur, more, las.value);
        cur := more;
      }
      assert prods[..|prods|] == prods;
      return Some(cur);
    }

    /**
     * `ComputeClosure(state)` on a state whose item list is `kernel`: a
     * queue of the items still to process (the items after the first `qi`),
     * the set of processed items, and for each item whose next symbol is a
     * nonterminal the new items of `ExpandItem`. `None` once `fuel` items
     * have been dequeued.
     */
    method ComputeClosure(kernel: seq<LrItem>, fuel: nat) returns (r: Option<seq<LrItem>>)
      requires Valid()
      modifies this, first
      ensures Valid() && states == old(states) && action == old(action) && goto == old(goto)
      ensures nextItem >= old(nextItem)
      ensures r.Some? ==> kernel <= r.value
      ensures r.Some? ==> forall k :: |kernel| <= k < |r.value| ==> Predicted(syntax.added, r.value[k])
      ensures r.Some? ==> Closed(syntax.added, first.eps, r.value)
    {
      ghost var ps := syntax.added;
      var items := kernel;
      var processed: set<LrItem> := {};
      var qi := 0;
      while qi < |items|
        invariant Valid() && states == old(states) && action == old(action) && goto == old(goto)
        invariant nextItem >= old(nextItem) && qi <= |items| && qi <= fuel && kernel <= items
        invariant forall k :: |kernel| <= k < |items| ==> Predicted(ps, items[k])
        invariant forall k :: 0 <= k < qi ==> items[k] in processed
        invariant forall y :: y in processed ==> Expanded(ps, first.eps, y, items)
        decreases fuel - qi
      {
        if qi == fuel {
          return None;
        }
        var x := items[qi];
        qi := qi + 1;
        if x in processed {
          continue;
        }
        var next := NextSymbol(x);
        if next.Some? && next.value.kind == NonTerminal {
          var more := ExpandItem(x, next.value, items, fuel);
          if more.None? {
            return None;
          }
          PrefixWithin(items, more.value);
          AllExpandedGrow(ps, first.eps, processed, items, more.value);
          items := more.value;
        }
        processed := processed + {x};
      }
      return Some(items);
    }

    /** `FindExistingState(kernel)`: the first state whose items have the signature of `kernel`. */
    method FindExistingState(kernel: seq<LrItem>) returns (r: Option<nat>)
      ensures r.Some? ==> r.value < |states| && Signature(states[r.value].items) == Signature(kernel)
      ensures r.Some? ==> forall j :: 0 <= j < r.value ==> Signature(states[j].items) != Signature(kernel)
      ensures r.None? ==> forall j :: 0 <= j < |states| ==> Signature(states[j].items) != Signature(kernel)
    {
      var sig := Signature(kernel);
      var i: nat := 0;
      while i < |states|
        invariant i <= |states|
        invariant forall j :: 0 <= j < i ==> Signature(states[j].items) != sig
      {
        var here := Signature(states[i].items);
        if here == sig {
          return Some(i);
        }
        i := i + 1;
      }
      return None;
    }

    /**
     * `UpdateActionTable(current, terminal, target)`: throws when the slot
     * holds a shift to another state or a reduce; otherwise a shift into an
     * empty slot, then `Accept` over it when the target has a reduce item of
     * the start symbol.
     */
    method UpdateActionTable(cur: nat, terminal: Symbol, target: LalrState) returns (err: Option<BuildError>)
      modifies this
      ensures states == old(states) && goto == old(goto) && nextItem == old(nextItem)
      ensures var row := RowOf(old(action), cur);
        err.Some? <==> terminal in row && ((row[terminal].Shift? && row[terminal].target != target.id) || row[terminal].Reduce?)
      ensures var row := RowOf(old(action), cur);
        err.Some? ==> err.value == if row[terminal].Shift? then ShiftShift(cur, terminal.name, row[terminal].target, target.id)
                                   else ShiftReduce(cur, terminal.name, row[terminal].sentence.id, target.id)
      ensures err.Some? ==> action == old(action)
      ensures var row := RowOf(old(action), cur);
        err.None? ==> action == old(action)[cur := row[terminal := if Accepts(target.items, start) then Accept
                                                                else if terminal in row then row[terminal] else Shift(target.id)]]
    {
      ghost var row := RowOf(action, cur);
      if cur !in action {
        action := action[cur := map[]];
      }
      var actions := action[cur];
      assert actions == row && action == old(action)[cur := row];
      if terminal in actions {
        var existing := actions[terminal];
        if existing.Shift? && existing.target != target.id {
          return Some(ShiftShift(cur, terminal.name, existing.target, target.id));
        } else if existing.Reduce? {
          return Some(ShiftReduce(cur, terminal.name, existing.sentence.id, target.id));
        }
        assert actions[terminal := existing] == actions;
      } else {
        actions := actions[terminal := Shift(target.id)];
        action := action[cur := actions];
      }
      assert action == old(action)[cur := row[terminal := actions[terminal]]];
      if Accepts(target.items, start) {
        actions := actions[terminal := Accept];
        action := action[cur := actions];
      }
      ghost var v := if Accepts(target.items, start) then Accept else if terminal in row then row[terminal] else Shift(target.id);
      assert actions[terminal] == v;
      assert actions == row[terminal := v];
      return None;
    }

    /** `UpdateGotoTable(current, nonTerminal, target)`: throws when the slot holds another state; fills an empty slot. */
    method UpdateGotoTable(cur: nat, nonTerminal: Symbol, target: nat) returns (err: Option<BuildError>)
      modifies this
      ensures states == old(states) && action == old(action) && nextItem == old(nextItem)
      ensures var row := GotoRowOf(old(goto), cur);
        err.Some? <==> nonTerminal in row && row[nonTerminal] != target
      ensures var row := GotoRowOf(old(goto), cur);
        err.Some? ==> err.value == GotoClash(cur, nonTerminal.name, row[nonTerminal], target)
      ensures err.Some? ==> goto == old(goto)
      ensures err.None? ==> goto == old(goto)[cur := GotoRowOf(old(goto), cur)[nonTerminal := target]]
    {
      if cur !in goto {
        goto := goto[cur := map[]];
      }
      var gotos := goto[cur];
      if nonTerminal in gotos {
        var existing := gotos[nonTerminal];
        if existing != target {
          return Some(GotoClash(cur, nonTerminal.name, existing, target));
        }
        assert gotos[nonTerminal := target] == gotos;
      } else {
        gotos := gotos[nonTerminal := target];
        goto := goto[cur := gotos];
      }
      return None;
    }

    /** `UpdateStateReferences(old, new)`: every shift to and every goto into state `o` now names `n`. */
    method UpdateStateReferences(o: nat, n: nat)
      modifies this
      ensures action == RedirectActions(old(action), o, n) && goto == RedirectGotos(old(goto), o, n)
      ensures states == old(states) && nextItem == old(nextItem)
    {
      action := RedirectActionRows(action, o, n);
      goto := RedirectGotoRows(goto, o, n);
    }
  
    /** One later member `m` of a group headed by `h`: its items into `h`, then its references redirected to `h`. */
    method MergeMember(h: nat, m: nat)
      requires h < |states| && m < |states| && h != m
      modifies this
      ensures states == old(states)[h := LalrState(old(states)[h].id, AddMissing(old(states)[h].items, old(states)[m].items))]
      ensures action == RedirectActions(old(action), old(states)[m].id, old(states)[h].id)
      ensures goto == RedirectGotos(old(goto), old(states)[m].id, old(states)[h].id)
      ensures nextItem == old(nextItem)
    {
      var items := AddItems(states[h].items, states[m].items);
      states := states[h := LalrState(states[h].id, items)];
      UpdateStateReferences(states[m].id, states[h].id);
    }

    /**
     * The body of `MergeStates` for one group: for each later member, its
     * items into the first state, then `UpdateStateReferences(member, first)`.
     */
    method MergeGroup(grp: seq<nat>, ghost s0: seq<LalrState>)
      requires grp != [] && |states| == |s0|
      requires forall a :: 0 <= a < |grp| ==> grp[a] < |states| && states[grp[a]] == s0[grp[a]]
      requires forall a :: 1 <= a < |grp| ==> grp[a] != grp[0]
      modifies this
      ensures states == old(states)[grp[0] := LalrState(s0[grp[0]].id, Absorb(s0[grp[0]].items, s0, grp[1..]))]
      ensures action == RedirectAll(old(action), IdsOf(s0, GroupPairs(grp)))
      ensures goto == RedirectAllGotos(old(goto), IdsOf(s0, GroupPairs(grp)))
      ensures nextItem == old(nextItem)
    {
      var h := grp[0];
      for j := 1 to |grp|
        invariant states == old(states)[h := LalrState(s0[h].id, Absorb(s0[h].items, s0, grp[1..j]))]
        invariant action == RedirectAll(old(action), IdsOf(s0, GroupPairs(grp)[..j - 1]))
        invariant goto == RedirectAllGotos(old(goto), IdsOf(s0, GroupPairs(grp)[..j - 1]))
        invariant nextItem == old(nextItem)
      {
        var m := grp[j];
        assert states[m] == s0[m] && states[m].id == Id(s0, m) && states[h].id == Id(s0, h);
        GroupStep(s0, grp, j, s0[h].items);
        RedirectSnoc(old(action), old(goto), IdsOf(s0, GroupPairs(grp)[..j - 1]), (Id(s0, m), Id(s0, h)));
        MergeMember(h, m);
      }
      assert GroupPairs(grp)[..|grp| - 1] == GroupPairs(grp);
      assert grp[1..|grp|] == grp[1..];
    }

    /** One pass of the `foreach` over the groups of `MergeStates`: group `i` is merged. */
    method MergeRound(ghost s0: seq<LalrState>, groups: seq<seq<nat>>, i: nat,
                      ghost a0: ActionTable, ghost g0: GotoTable)
      requires groups == GroupBy(Sigs(s0)) && i < |groups| && MergedUpTo(s0, i, states)
      requires action == RedirectAll(a0, IdsOf(s0, IndexPairs(groups[..i])))
      requires goto == RedirectAllGotos(g0, IdsOf(s0, IndexPairs(groups[..i])))
      modifies this
      ensures MergedUpTo(s0, i + 1, states)
      ensures action == RedirectAll(a0, IdsOf(s0, IndexPairs(groups[..i + 1])))
      ensures goto == RedirectAllGotos(g0, IdsOf(s0, IndexPairs(groups[..i + 1])))
      ensures nextItem == old(nextItem)
    {
      MergeStep(s0, i, states);
      PairsStep(s0, groups, i);
      RedirectAppend(a0, g0, IdsOf(s0, IndexPairs(groups[..i])), IdsOf(s0, GroupPairs(groups[i])));
      if |groups[i]| > 1 {
        MergeGroup(groups[i], s0);
      } else {
        assert IdsOf(s0, GroupPairs(groups[i])) == [];
      }
    }

    /**
     * `MergeStates`: group the states by signature, and merge every group of
     * more than one state into its first state.
     */
    method MergeStates()
      modifies this
      ensures states == Merged(old(states))
      ensures action == RedirectAll(old(action), Pairs(old(states)))
      ensures goto == RedirectAllGotos(old(goto), Pairs(old(states)))
      ensures nextItem == old(nextItem)
    {
      ghost var s0 := states;
      var groups := GroupBy(Sigs(states));
      for i := 0 to |groups|
        invariant MergedUpTo(s0, i, states)
        invariant action == RedirectAll(old(action), IdsOf(s0, IndexPairs(groups[..i])))
        invariant goto == RedirectAllGotos(old(goto), IdsOf(s0, IndexPairs(groups[..i])))
        invariant nextItem == old(nextItem)
      {
        MergeRound(s0, groups, i, old(action), old(goto));
      }
      MergeDone(s0, states);
      assert groups[..|groups|] == groups;
    }
  
    /**
     * The find-or-create step of `BuildParsingTable` for a new kernel: the
     * first state with the kernel's signature, or else a new state with the
     * next `Id`, holding the kernel and its closure, added to `_states` (and
     * so to the queue). `None` when the closure runs out of fuel.
     */
    method FindOrAdd(kernel: seq<LrItem>, fuel: nat) returns (t: Option<nat>)
      requires Valid()
      modifies this, first
      ensures Valid() && action == old(action) && goto == old(goto) && nextItem >= old(nextItem)
      ensures t.None? ==> states == old(states)
      ensures t.Some? ==> t.value <= |old(states)| && t.value < |states| && old(states) <= states
      ensures t.Some? ==> forall j :: 0 <= j < t.value ==> Signature(states[j].items) != Signature(kernel)
      ensures t.Some? && t.value < |old(states)| ==> states == old(states) && Signature(states[t.value].items) == Signature(kernel)
      ensures t.Some? && t.value == |old(states)| ==>
        |states| == t.value + 1 && states[t.value].id == t.value && kernel <= states[t.value].items &&
        Closed(syntax.added, first.eps, states[t.value].items) &&
        forall k :: |kernel| <= k < |states[t.value].items| ==> Predicted(syntax.added, states[t.value].items[k])
    {
      var existing := FindExistingState(kernel);
      if existing.Some? {
        return existing;
      }
      var closed := ComputeClosure(kernel, fuel);
      if closed.None? {
        return None;
      }
      states := states + [LalrState(|states|, closed.value)];
      return Some(|states| - 1);
    }
  

    /**
     * The ACTION (for a terminal) or GOTO (for a nonterminal) entry of state
     * `cur` for `symbol`, leading to `target`. When the row of `cur` holds
     * exactly the symbols before it in `syms`, none of them `symbol`, the
     * slot is empty and the update cannot throw.
     */
    method Connect(cur: nat, symbol: Symbol, target: LalrState, ghost fresh0: bool, ghost syms: seq<Symbol>, ghost j: nat)
        returns (err: Option<BuildError>)
      requires fresh0 ==> j < |syms| && syms[j] == symbol && symbol !in syms[..j] && target.id < |states| && states[target.id] == target
      requires fresh0 ==> cur < |states| && Filling(syntax.added, start, states, action, goto, cur, syms[..j])
      requires fresh0 ==> Leads(syntax.added, states, cur, symbol, target.id)
      modifies this
      ensures states == old(states) && nextItem == old(nextItem)
      ensures err != Some(NoSentence)
      ensures err.Some? ==> action == old(action) && goto == old(goto)
      ensures var row := RowOf(old(action), cur);
        err.None? && symbol.kind == Terminal ==>
          goto == old(goto) &&
          action == old(action)[cur := row[symbol := if Accepts(target.items, start) then Accept
                                                    else if symbol in row then row[symbol] else Shift(target.id)]]
      ensures err.None? && symbol.kind == NonTerminal ==>
          action == old(action) && goto == old(goto)[cur := GotoRowOf(old(goto), cur)[symbol := target.id]]
      ensures fresh0 ==> err.None? && Filling(syntax.added, start, states, action, goto, cur, syms[..j + 1])
      ensures fresh0 && symbol.kind == Terminal ==>
        RowOf(action, cur)[symbol] == if Accepts(target.items, start) then Accept else Shift(target.id)
      ensures fresh0 && symbol.kind == NonTerminal ==> GotoRowOf(goto, cur)[symbol] == target.id
    {
      ghost var a0, g0 := action, goto;
      if symbol.kind == Terminal {
        err := UpdateActionTable(cur, symbol, target);
        if fresh0 {
          ActionStep(a0, g0, states, cur, syms, j, if Accepts(target.items, start) then Accept else Shift(target.id));
        }
      } else {
        err := UpdateGotoTable(cur, symbol, target.id);
        if fresh0 {
          GotoStep(a0, g0, states, cur, syms, j, target.id);
        }
      }
      if fresh0 {
        ConnectLeads(syntax.added, start, states, a0, g0, action, goto, cur, symbol, target.id);
      }
    }

    /**
     * One transition symbol of state `cur`: the advanced kernel (new items),
     * the state `t` found or created for it, and the entry of `cur` on the
     * symbol, which names `t`.
     */
    method ExpandSymbol(cur: nat, lo: nat, fuel: nat, ghost fresh0: bool, syms: seq<Symbol>, j: nat)
        returns (err: Option<BuildError>, ghost t: nat)
      requires Valid() && lo <= cur < |states| && StatesOk(syntax.added, first.eps, states, lo) && Derived(syntax.added, states, lo)
      requires j < |syms| && syms[j] !in syms[..j] && syms[j] in TransitionSymbols(states[cur].items)
      requires fresh0 ==> lo == 0 && Filling(syntax.added, start, states, action, goto, cur, syms[..j])
      modifies this, first
      ensures Valid() && old(states) <= states && nextItem >= old(nextItem)
      ensures StatesOk(syntax.added, first.eps, states, lo) && Derived(syntax.added, states, lo)
      ensures err.None? ==> Leads(syntax.added, states, cur, syms[j], t)
      ensures err != Some(NoSentence)
      ensures fresh0 && err.Some? ==> err.value == OutOfFuel
      ensures fresh0 && err.None? ==> Filling(syntax.added, start, states, action, goto, cur, syms[..j + 1])
      ensures fresh0 && err.None? && syms[j].kind == Terminal ==>
        RowOf(action, cur)[syms[j]] == if Accepts(states[t].items, start) then Accept else Shift(t)
      ensures fresh0 && err.None? && syms[j].kind == NonTerminal ==> GotoRowOf(goto, cur)[syms[j]] == t
    {
      ghost var ps := syntax.added;
      t := 0;
      var current := states[cur];
      ghost var n0 := nextItem;
      var kernel := Advance(current.items, syms[j], nextItem);
      KernelDotted(current.items, syms[j], nextItem);
      nextItem := nextItem + |kernel|;
      ghost var before, a0, g0 := states, action, goto;
      var found := FindOrAdd(kernel, fuel);
      if found.None? {
        return Some(OutOfFuel), 0;
      }
      var k := found.value;
      t := k;
      NewStateOk(ps, first.eps, before, states, lo, kernel, t);
      FoundLeads(ps, before, states, lo, cur, syms[j], n0, kernel, t);
      var target := states[k];
      if fresh0 {
        FillingGrow(ps, start, before, states, a0, g0, cur, syms[..j]);
        assert current.id == cur && target.id == t;
      }
      err := Connect(current.id, syms[j], target, fresh0, syms, j);
    }

    /**
     * The body of the queue loop of `BuildParsingTable` for the dequeued
     * state `cur`: every transition symbol in turn. On a fresh generator the
     * row of `cur` is empty beforehand and each symbol occurs once, so no
     * update throws.
     */
    method ExpandState(cur: nat, lo: nat, fuel: nat, ghost fresh0: bool) returns (err: Option<BuildError>)
      requires Valid() && lo <= cur < |states| && StatesOk(syntax.added, first.eps, states, lo) && Derived(syntax.added, states, lo)
      requires fresh0 ==> lo == 0 && TablesOk(action, goto, |states|, cur) && Complete(states, action, goto, cur)
      requires fresh0 ==> TablesLead(syntax.added, start, states, action, goto, cur)
      modifies this, first
      ensures Valid() && old(states) <= states && nextItem >= old(nextItem)
      ensures StatesOk(syntax.added, first.eps, states, lo) && Derived(syntax.added, states, lo)
      ensures err != Some(NoSentence)
      ensures fresh0 && err.Some? ==> err.value == OutOfFuel
      ensures fresh0 && err.None? ==> TablesOk(action, goto, |states|, cur + 1) && Complete(states, action, goto, cur + 1)
      ensures fresh0 && err.None? ==> TablesLead(syntax.added, start, states, action, goto, cur + 1)
    {
      err := None;
      var symbols := TransitionSymbols(states[cur].items);
      TransitionSymbolsSpec(states[cur].items);
      ghost var current := states[cur];
      if fresh0 {
        FillingStart(syntax.added, start, states, action, goto, cur);
      }
      for j := 0 to |symbols|
        invariant Valid() && old(states) <= states && nextItem >= old(nextItem) && states[cur] == current && err.None?
        invariant StatesOk(syntax.added, first.eps, states, lo) && Derived(syntax.added, states, lo)
        invariant fresh0 ==> Filling(syntax.added, start, states, action, goto, cur, symbols[..j])
      {
        assert symbols[j] !in symbols[..j] && symbols[j] in TransitionSymbols(states[cur].items);
        ghost var t;
        err, t := ExpandSymbol(cur, lo, fuel, fresh0, symbols, j);
        if err.Some? {
          return;
        }
      }
      assert symbols[..|symbols|] == symbols;
      if fresh0 {
        FillingDone(syntax.added, start, states, action, goto, cur);
      }
    }

    /**
     * The queue loop of `BuildParsingTable`. Every state made from `lo` on is
     * appended to `_states` and enqueued at the same time, so the queue is
     * the states from `lo` on, dequeued in order: `qi` is the front. `fuel`
     * bounds the number of states dequeued.
     */
    method Explore(lo: nat, fuel: nat, ghost fresh0: bool) returns (err: Option<BuildError>)
      requires Valid() && StatesOk(syntax.added, first.eps, states, lo) && Derived(syntax.added, states, lo)
      requires fresh0 ==> lo == 0 && |states| == 1 && action == map[] && goto == map[]
      modifies this, first
      ensures Valid() && old(states) <= states && nextItem >= old(nextItem)
      ensures StatesOk(syntax.added, first.eps, states, lo) && Derived(syntax.added, states, lo)
      ensures err != Some(NoSentence)
      ensures fresh0 && err.Some? ==> err.value == OutOfFuel
      ensures fresh0 && err.None? ==> TablesOk(action, goto, |states|, |states|) && Complete(states, action, goto, |states|)
      ensures fresh0 && err.None? ==> TablesLead(syntax.added, start, states, action, goto, |states|)
    {
      var qi := lo;
      while qi < |states|
        invariant Valid() && old(states) <= states && nextItem >= old(nextItem)
        invariant lo <= qi <= |states| && qi - lo <= fuel
        invariant StatesOk(syntax.added, first.eps, states, lo) && Derived(syntax.added, states, lo)
        invariant fresh0 ==> TablesOk(action, goto, |states|, qi) && Complete(states, action, goto, qi)
        invariant fresh0 ==> TablesLead(syntax.added, start, states, action, goto, qi)
        decreases fuel - (qi - lo)
      {
        if qi - lo == fuel {
          return Some(OutOfFuel);
        }
        err := ExpandState(qi, lo, fuel, fresh0);
        if err.Some? {
          return;
        }
        qi := qi + 1;
      }
      return None;
    }

    /**
     * The first step of `BuildParsingTable`: a new item for the first
     * sentence with the dot at 0 and lookahead end of input, its closure,
     * and the state with `Id` 0 holding both, added to `_states`.
     */
    method StartState(fuel: nat) returns (err: Option<BuildError>)
      requires Valid() && |syntax.sentences| > 0
      modifies this, first
      ensures Valid() && action == old(action) && goto == old(goto)
      ensures err.Some? ==> err.value == OutOfFuel
      ensures err.None? ==> |states| == |old(states)| + 1 && old(states) <= states
      ensures err.None? ==> StatesOk(syntax.added, first.eps, states, |old(states)|) && Derived(syntax.added, states, |old(states)|)
      ensures err.None? ==> 0 < |states[|old(states)|].items| && states[|old(states)|].items[0] == LrItem(old(nextItem), syntax.sentences[0], 0, eoi)
    {
      var initial := LrItem(nextItem, syntax.sentences[0], 0, eoi);
      nextItem := nextItem + 1;
      var closed := ComputeClosure([initial], fuel);
      if closed.None? {
        return Some(OutOfFuel);
      }
      forall k | 0 <= k < |closed.value| ensures Dotted(closed.value[k]) {
        if k == 0 {
          assert closed.value[0] == initial;
        }
      }
      states := states + [LalrState(0, closed.value)];
      return None;
    }

    /**
     * The start state and the queue loop of `BuildParsingTable`, before the
     * states are merged: the states are derived from the start state, and on
     * a fresh generator every entry of the tables leads where the loop sends it.
     */
    method Construct(fuel: nat) returns (err: Option<BuildError>)
      requires Valid() && |syntax.sentences| > 0
      modifies this, first
      ensures Valid() && err != Some(NoSentence)
      ensures err.None? ==> |old(states)| < |states| && old(states) <= states
      ensures err.None? ==> StatesOk(syntax.added, first.eps, states, |old(states)|) && Derived(syntax.added, states, |old(states)|)
      ensures err.None? ==> 0 < |states[|old(states)|].items| && states[|old(states)|].items[0] == LrItem(old(nextItem), syntax.sentences[0], 0, eoi)
      ensures old(states) == [] && old(action) == map[] && old(goto) == map[] ==>
        (err.Some? ==> err.value == OutOfFuel) &&
        (err.None? ==> TablesOk(action, goto, |states|, |states|) && Complete(states, action, goto, |states|) &&
                       TablesLead(syntax.added, start, states, action, goto, |states|))
    {
      ghost var fresh0 := states == [] && action == map[] && goto == map[];
      var base := |states|;
      err := StartState(fuel);
      if err.Some? {
        return;
      }
      err := Explore(base, fuel, fresh0);
    }

    /**
     * `BuildParsingTable()`: the initial state (the first sentence, the dot
     * at 0, lookahead end of input, and its closure) with `Id` 0, the queue
     * loop, then `MergeStates`. On a fresh generator no table update throws;
     * the tables then have one entry per transition symbol of every explored
     * state, and after the merge every entry names the first state of its
     * signature group.
     */
    method BuildParsingTable(fuel: nat)
        returns (err: Option<BuildError>, ghost explored: seq<LalrState>, ghost exploredAction: ActionTable, ghost exploredGoto: GotoTable)
      requires Valid()
      modifies this, first
      ensures Valid()
      ensures |syntax.sentences| == 0 <==> err == Some(NoSentence)
      ensures err == Some(NoSentence) ==> states == old(states) && action == old(action) && goto == old(goto)
      ensures err.None? ==> |old(states)| < |explored| && old(states) <= explored
      ensures err.None? ==> StatesOk(syntax.added, first.eps, explored, |old(states)|) && Derived(syntax.added, explored, |old(states)|)
      ensures err.None? ==> (0 < |explored[|old(states)|].items| &&
        var x := explored[|old(states)|].items[0];
        x.sentence == syntax.sentences[0] && x.dot == 0 && x.lookahead == eoi)
      ensures err.None? ==> states == Merged(explored)
      ensures err.None? ==> action == RedirectAll(exploredAction, Pairs(explored)) && goto == RedirectAllGotos(exploredGoto, Pairs(explored))
      ensures err.None? ==> StatesOk(syntax.added, first.eps, states, |old(states)|)
      ensures old(states) == [] && old(action) == map[] && old(goto) == map[] ==>
        (err.Some? ==> err.value == NoSentence || err.value == OutOfFuel) &&
        (err.None? ==> TablesOk(exploredAction, exploredGoto, |explored|, |explored|) && Complete(explored, exploredAction, exploredGoto, |explored|) &&
                       TablesLead(syntax.added, start, explored, exploredAction, exploredGoto, |explored|) &&
                       TablesOk(action, goto, |states|, |states|) && Complete(explored, action, goto, |states|))
    {
      ghost var fresh0 := states == [] && action == map[] && goto == map[];
      explored, exploredAction, exploredGoto := states, action, goto;
      if |syntax.sentences| == 0 {
        err := Some(NoSentence);
        return;
      }
      var base := |states|;
      err := Construct(fuel);
      if err.Some? {
        return;
      }
      explored, exploredAction, exploredGoto := states, action, goto;
      MergedOk(syntax.added, first.eps, states, base);
      if fresh0 {
        IdsAreIndices(syntax.added, first.eps, states);
        MergedTablesOk(states, action, goto);
      }
      MergeStates();
    }
  }
}
