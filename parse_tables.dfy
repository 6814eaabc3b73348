/**
 * The tables of the LALR(1) generator (`LALR_1_Analyser.cs`): `ParseAction`,
 * the exceptions the generator throws, and the rewriting of state numbers
 * that `UpdateStateReferences` and `MergeStates` perform on the ACTION and
 * GOTO tables.
 */
module ParseTables {
  import opened Grammar

  /** `ParseAction` with its `ParseActionType`: the target of a shift, the sentence of a reduce. */
  datatype Action = Shift(target: nat) | Reduce(sentence: Sentence) | Accept | Error

  /**
   * The `InvalidOperationException`s of `UpdateActionTable` and
   * `UpdateGotoTable` (with the data of their messages), the exception of
   * `Sentences.First()` on a grammar without sentences, and running out of
   * the fuel that bounds the generator's loops.
   */
  datatype BuildError =
    | ShiftShift(state: nat, symbol: string, existing: nat, target: nat)
    | ShiftReduce(state: nat, symbol: string, sentence: nat, target: nat)
    | GotoClash(state: nat, symbol: string, existing: nat, target: nat)
    | NoSentence
    | OutOfFuel

  /** One state's row of `_actionTable`, and the tables. */
  type Row = map<Symbol, Action>
  type ActionTable = map<nat, Row>
  type GotoRow = map<Symbol, nat>
  type GotoTable = map<nat, GotoRow>

  /** The entries only shift or accept, and every shift stays below `bound`. */
  ghost predicate ShiftsBelow(t: ActionTable, bound: nat)
  {
    forall s, y :: s in t && y in t[s] ==> (t[s][y].Shift? && t[s][y].target < bound) || t[s][y].Accept?
  }

  /** Every goto stays below `bound`. */
  ghost predicate GotosBelow(t: GotoTable, bound: nat)
  {
    forall s, y :: s in t && y in t[s] ==> t[s][y] < bound
  }

  /** The action `UpdateStateReferences(o, n)` leaves in place of `a`. */
  function RedirectAction(a: Action, o: nat, n: nat): Action
  {
    if a.Shift? && a.target == o then Shift(n) else a
  }

  /** A row after `UpdateStateReferences(o, n)`. */
  function RedirectRow(row: Row, o: nat, n: nat): Row
  {
    map y | y in row :: RedirectAction(row[y], o, n)
  }

  /** `_actionTable` after `UpdateStateReferences(o, n)`. */
  function RedirectActions(t: ActionTable, o: nat, n: nat): ActionTable
  {
    map s | s in t :: RedirectRow(t[s], o, n)
  }

  /** A goto row after `UpdateStateReferences(o, n)`. */
  function RedirectGotoRow(row: GotoRow, o: nat, n: nat): GotoRow
  {
    map y | y in row :: if row[y] == o then n else row[y]
  }

  /** `_gotoTable` after `UpdateStateReferences(o, n)`. */
  function RedirectGotos(t: GotoTable, o: nat, n: nat): GotoTable
  {
    map s | s in t :: RedirectGotoRow(t[s], o, n)
  }

  /** A state number after renaming by `ren`. */
  function Renamed(t: nat, ren: map<nat, nat>): nat
  {
    if t in ren then ren[t] else t
  }

  /** An action after renaming its target by `ren`. */
  function RenameAction(a: Action, ren: map<nat, nat>): Action
  {
    if a.Shift? then Shift(Renamed(a.target, ren)) else a
  }

  function RenameRow(row: Row, ren: map<nat, nat>): Row
  {
    map y | y in row :: RenameAction(row[y], ren)
  }

  /** The ACTION table with every shift target renamed by `ren`; nothing else changes. */
  function RenameActions(t: ActionTable, ren: map<nat, nat>): ActionTable
  {
    map s | s in t :: RenameRow(t[s], ren)
  }

  function RenameGotoRow(row: GotoRow, ren: map<nat, nat>): GotoRow
  {
    map y | y in row :: Renamed(row[y], ren)
  }

  /** The GOTO table with every target renamed by `ren`. */
  function RenameGotos(t: GotoTable, ren: map<nat, nat>): GotoTable
  {
    map s | s in t :: RenameGotoRow(t[s], ren)
  }

  /** `ren` sends `o` nowhere yet, and nothing to `o`. */
  ghost predicate Fresh(ren: map<nat, nat>, o: nat)
  {
    o !in ren && forall t :: t in ren ==> ren[t] != o
  }

  /** Redirecting `o` to `n` after renaming by `ren` is renaming by `ren` extended with `o := n`. */
  lemma RedirectRenamed(t: ActionTable, ren: map<nat, nat>, o: nat, n: nat)
    requires Fresh(ren, o)
    ensures RedirectActions(RenameActions(t, ren), o, n) == RenameActions(t, ren[o := n])
  {
    forall s | s in t ensures RedirectRow(RenameRow(t[s], ren), o, n) == RenameRow(t[s], ren[o := n]) {
      RedirectRenamedRow(t[s], ren, o, n);
    }
  }

  lemma RedirectRenamedRow(row: Row, ren: map<nat, nat>, o: nat, n: nat)
    requires Fresh(ren, o)
    ensures RedirectRow(RenameRow(row, ren), o, n) == RenameRow(row, ren[o := n])
  {
    forall y | y in row ensures RedirectAction(RenameAction(row[y], ren), o, n) == RenameAction(row[y], ren[o := n]) {
      RedirectOne(row[y], ren, o, n);
    }
  }

  lemma RedirectOne(a: Action, ren: map<nat, nat>, o: nat, n: nat)
    requires Fresh(ren, o)
    ensures RedirectAction(RenameAction(a, ren), o, n) == RenameAction(a, ren[o := n])
  {
  }

  /** The same for the GOTO table. */
  lemma RedirectRenamedGotos(t: GotoTable, ren: map<nat, nat>, o: nat, n: nat)
    requires Fresh(ren, o)
    ensures RedirectGotos(RenameGotos(t, ren), o, n) == RenameGotos(t, ren[o := n])
  {
    forall s | s in t ensures RedirectGotoRow(RenameGotoRow(t[s], ren), o, n) == RenameGotoRow(t[s], ren[o := n]) {
      RedirectRenamedGotoRow(t[s], ren, o, n);
    }
  }

  lemma RedirectRenamedGotoRow(row: GotoRow, ren: map<nat, nat>, o: nat, n: nat)
    requires Fresh(ren, o)
    ensures RedirectGotoRow(RenameGotoRow(row, ren), o, n) == RenameGotoRow(row, ren[o := n])
  {
    forall y | y in row ensures RedirectGotoRow(RenameGotoRow(row, ren), o, n)[y] == RenameGotoRow(row, ren[o := n])[y] {
      assert Renamed(row[y], ren) == o <==> row[y] == o;
    }
  }

  /** Renaming by nothing changes nothing. */
  lemma RenameNothing(t: ActionTable, u: GotoTable)
    ensures RenameActions(t, map[]) == t && RenameGotos(u, map[]) == u
  {
    forall s | s in t ensures RenameRow(t[s], map[]) == t[s] {
      assert forall y :: y in t[s] ==> RenameAction(t[s][y], map[]) == t[s][y];
    }
    forall s | s in u ensures RenameGotoRow(u[s], map[]) == u[s] {
      assert forall y :: y in u[s] ==> Renamed(u[s][y], map[]) == u[s][y];
    }
  }

  /**
   * After renaming by `ren`, no target lies in `ren`'s domain, as long as
   * `ren` sends every state it renames to one it does not rename.
   */
  lemma RenamedAvoids(t: ActionTable, u: GotoTable, ren: map<nat, nat>)
    requires forall k :: k in ren ==> ren[k] !in ren
    ensures forall s, y :: s in RenameActions(t, ren) && y in RenameActions(t, ren)[s] && RenameActions(t, ren)[s][y].Shift? ==>
              RenameActions(t, ren)[s][y].target !in ren
    ensures forall s, y :: s in RenameGotos(u, ren) && y in RenameGotos(u, ren)[s] ==> RenameGotos(u, ren)[s][y] !in ren
  {
  }

  /** Renaming keeps the kinds of entries, and targets below `bound` when `ren` does. */
  lemma RenameBelow(t: ActionTable, u: GotoTable, ren: map<nat, nat>, bound: nat)
    requires ShiftsBelow(t, bound) && GotosBelow(u, bound)
    requires forall k :: k in ren ==> ren[k] < bound
    ensures ShiftsBelow(RenameActions(t, ren), bound) && GotosBelow(RenameGotos(u, ren), bound)
  {
  }
}
