/**
 * What `MergeStates` (`LALR_1_Analyser.cs`) does, as functions of the state
 * list before the merge: the states are grouped by signature (LINQ
 * `GroupBy`); the first state of every group receives, in member order, the
 * items of the later members it does not already hold (`HashSet.Add`), and
 * `UpdateStateReferences(member, first)` runs for every later member, in
 * order. The later members stay in the list.
 */
module Merging {
  import opened Collections
  import opened Grammar
  import opened LrItems
  import opened Signatures
  import opened ParseTables
  import opened Grouping
  import opened Closures

  /** `LalrState`: its `Id` and its items, in insertion order. */
  datatype LalrState = LalrState(id: nat, items: seq<LrItem>)

  /** The signatures of the states, in order (the keys of `GroupBy(GetStateSignature)`). */
  function Sigs(states: seq<LalrState>): (r: seq<seq<Entry>>)
    ensures |r| == |states| && forall k :: 0 <= k < |states| ==> r[k] == Signature(states[k].items)
  {
    if states == [] then [] else Sigs(states[..|states| - 1]) + [Signature(states[|states| - 1].items)]
  }

  /** The first state with the signature of state `k`: the state `k` is merged into. */
  function Head(sigs: seq<seq<Entry>>, k: nat): nat
    requires k < |sigs|
  {
    FirstWith(sigs, sigs[k])
  }

  /** The states that are merged into an earlier one. */
  ghost function NonHeads(sigs: seq<seq<Entry>>): set<nat>
  {
    set t | 0 <= t < |sigs| && Head(sigs, t) != t
  }

  /** Renaming every state of `s` to its head. */
  ghost function Renaming(sigs: seq<seq<Entry>>, s: set<nat>): map<nat, nat>
  {
    map t | t in s && t < |sigs| :: Head(sigs, t)
  }

  /** What `MergeStates` does to state numbers: each state after the first of its signature goes to the first. */
  ghost function Reps(sigs: seq<seq<Entry>>): map<nat, nat>
  {
    Renaming(sigs, NonHeads(sigs))
  }

  /** A head is its own head, so `Reps` sends every state it renames to one it does not rename. */
  lemma HeadIsHead(sigs: seq<seq<Entry>>, k: nat)
    requires k < |sigs|
    ensures Head(sigs, k) < |sigs| && Head(sigs, Head(sigs, k)) == Head(sigs, k)
    ensures Head(sigs, k) <= k
  {
    var h := Head(sigs, k);
    assert sigs[h] == sigs[k];
  }

  /** After the merge no shift and no goto names a state that was merged into another. */
  lemma RepsAvoid(t: ActionTable, u: GotoTable, sigs: seq<seq<Entry>>)
    ensures forall s, y :: s in RenameActions(t, Reps(sigs)) && y in RenameActions(t, Reps(sigs))[s] && RenameActions(t, Reps(sigs))[s][y].Shift? ==>
              RenameActions(t, Reps(sigs))[s][y].target !in NonHeads(sigs)
    ensures forall s, y :: s in RenameGotos(u, Reps(sigs)) && y in RenameGotos(u, Reps(sigs))[s] ==> RenameGotos(u, Reps(sigs))[s][y] !in NonHeads(sigs)
  {
    var ren := Reps(sigs);
    forall k | k in ren ensures ren[k] !in ren {
      HeadIsHead(sigs, k);
    }
    RenamedAvoids(t, u, ren);
  }


  /** `HashSet.Add` of each item of `more` in turn: an item not yet present is appended. */
  function AddMissing(items: seq<LrItem>, more: seq<LrItem>): seq<LrItem>
  {
    if more == [] then items
    else
      var r := AddMissing(items, more[..|more| - 1]);
      if more[|more| - 1] in r then r else r + [more[|more| - 1]]
  }

  /** The old items stay first; the result holds exactly the items of both, each once if `items` has no repeats. */
  lemma {:induction false} AddMissingSpec(items: seq<LrItem>, more: seq<LrItem>)
    ensures items <= AddMissing(items, more)
    ensures forall y :: y in AddMissing(items, more) <==> y in items || y in more
    ensures Distinct(items) ==> Distinct(AddMissing(items, more))
  {
    if more != [] {
      var n := |more| - 1;
      AddMissingSpec(items, more[..n]);
      assert more == more[..n] + [more[n]];
    }
  }

  /** The items of a group's first state once the items of `members` are added, in order. */
  function Absorb(items: seq<LrItem>, states: seq<LalrState>, members: seq<nat>): seq<LrItem>
  {
    if members == [] then items
    else
      var n := |members| - 1;
      AddMissing(Absorb(items, states, members[..n]), if members[n] < |states| then states[members[n]].items else [])
  }

  /** The state `k` after the merge: the first of its group absorbs the others; the rest are unchanged. */
  function MergedState(states: seq<LalrState>, g: seq<seq<nat>>, k: nat): LalrState
    requires k < |states|
  {
    var sigs := Sigs(states);
    var i := FindGroup(sigs, g, sigs[k]);
    if i < |g| && g[i] != [] && g[i][0] == k then LalrState(states[k].id, Absorb(states[k].items, states, g[i][1..]))
    else states[k]
  }

  /** `_states` after `MergeStates`. */
  function Merged(states: seq<LalrState>): seq<LalrState>
  {
    var g := GroupBy(Sigs(states));
    seq(|states|, k requires 0 <= k < |states| => MergedState(states, g, k))
  }

  /** The `Id` of state `k`. */
  function Id(states: seq<LalrState>, k: nat): nat
  {
    if k < |states| then states[k].id else 0
  }

  /** The (member, first) index pairs of one group, in member order. */
  function GroupPairs(grp: seq<nat>): seq<(nat, nat)>
  {
    if grp == [] then [] else seq(|grp| - 1, a requires 0 <= a < |grp| - 1 => (grp[a + 1], grp[0]))
  }

  /** The (member, first) index pairs of all groups, in group order. */
  function IndexPairs(g: seq<seq<nat>>): seq<(nat, nat)>
  {
    if g == [] then [] else IndexPairs(g[..|g| - 1]) + GroupPairs(g[|g| - 1])
  }

  /** Index pairs as `Id` pairs: the arguments of the `UpdateStateReferences` calls. */
  function IdsOf(states: seq<LalrState>, p: seq<(nat, nat)>): seq<(nat, nat)>
  {
    seq(|p|, j requires 0 <= j < |p| => (Id(states, p[j].0), Id(states, p[j].1)))
  }

  /** The `UpdateStateReferences(member, first)` calls of `MergeStates`, in order. */
  function Pairs(states: seq<LalrState>): seq<(nat, nat)>
  {
    IdsOf(states, IndexPairs(GroupBy(Sigs(states))))
  }

  /** `_actionTable` after `UpdateStateReferences(o, n)` for each pair `(o, n)` in turn. */
  function RedirectAll(t: ActionTable, ps: seq<(nat, nat)>): ActionTable
  {
    if ps == [] then t
    else
      var n := |ps| - 1;
      RedirectActions(RedirectAll(t, ps[..n]), ps[n].0, ps[n].1)
  }

  /** `_gotoTable` after `UpdateStateReferences(o, n)` for each pair `(o, n)` in turn. */
  function RedirectAllGotos(t: GotoTable, ps: seq<(nat, nat)>): GotoTable
  {
    if ps == [] then t
    else
      var n := |ps| - 1;
      RedirectGotos(RedirectAllGotos(t, ps[..n]), ps[n].0, ps[n].1)
  }

  /** The renaming the pairs spell out, a later pair overriding an earlier one. */
  function RenMap(ps: seq<(nat, nat)>): map<nat, nat>
  {
    if ps == [] then map[] else RenMap(ps[..|ps| - 1])[ps[|ps| - 1].0 := ps[|ps| - 1].1]
  }

  /** Every state is renamed at most once, and never to a state that is renamed. */
  ghost predicate OneWay(ps: seq<(nat, nat)>)
  {
    (forall i, j :: 0 <= i < j < |ps| ==> ps[i].0 != ps[j].0) &&
    forall i, j :: 0 <= i < |ps| && 0 <= j < |ps| ==> ps[i].0 != ps[j].1
  }

  /** The domain and values of `RenMap`. */
  lemma {:induction false} RenMapSpec(ps: seq<(nat, nat)>)
    ensures forall k :: k in RenMap(ps) <==> exists j :: 0 <= j < |ps| && ps[j].0 == k
    ensures forall k :: k in RenMap(ps) ==> exists j :: 0 <= j < |ps| && ps[j] == (k, RenMap(ps)[k])
  {
    if ps != [] {
      var n := |ps| - 1;
      RenMapSpec(ps[..n]);
      forall k | k in RenMap(ps) ensures exists j :: 0 <= j < |ps| && ps[j] == (k, RenMap(ps)[k]) {
        if k != ps[n].0 {
          var j :| 0 <= j < n && ps[..n][j] == (k, RenMap(ps[..n])[k]);
          assert ps[j] == (k, RenMap(ps)[k]);
        } else {
          assert ps[n] == (k, RenMap(ps)[k]);
        }
      }
      forall k | exists j :: 0 <= j < |ps| && ps[j].0 == k ensures k in RenMap(ps) {
        var j :| 0 <= j < |ps| && ps[j].0 == k;
        if j < n {
          assert ps[..n][j].0 == k;
        }
      }
    }
  }

  /** A prefix of one-way pairs is one-way, and the next source is fresh for the prefix's renaming. */
  lemma OneWayPrefix(ps: seq<(nat, nat)>)
    requires ps != [] && OneWay(ps)
    ensures OneWay(ps[..|ps| - 1]) && Fresh(RenMap(ps[..|ps| - 1]), ps[|ps| - 1].0)
  {
    var n := |ps| - 1;
    var q := ps[..n];
    assert forall j :: 0 <= j < n ==> q[j] == ps[j];
    RenMapSpec(q);
    var ren := RenMap(q);
    forall t | t in ren ensures ren[t] != ps[n].0 {
      var j :| 0 <= j < |q| && q[j] == (t, ren[t]);
      assert ps[j].1 == ren[t];
    }
  }

  /**
   * One-way redirections in turn are the one renaming they spell out: each
   * call of `UpdateStateReferences` only extends the renaming.
   */
  lemma {:induction false} RedirectAllRenames(t: ActionTable, u: GotoTable, ps: seq<(nat, nat)>)
    requires OneWay(ps)
    ensures RedirectAll(t, ps) == RenameActions(t, RenMap(ps))
    ensures RedirectAllGotos(u, ps) == RenameGotos(u, RenMap(ps))
  {
    if ps == [] {
      RenameNothing(t, u);
    } else {
      var n := |ps| - 1;
      OneWayPrefix(ps);
      RedirectAllRenames(t, u, ps[..n]);
      RedirectRenamed(t, RenMap(ps[..n]), ps[n].0, ps[n].1);
      RedirectRenamedGotos(u, RenMap(ps[..n]), ps[n].0, ps[n].1);
    }
  }

  /** `x` pairs a later member of a group of `h` with the group's first member. */
  ghost predicate PairOf(h: seq<seq<nat>>, x: (nat, nat))
  {
    exists i, a :: 0 <= i < |h| && 1 <= a < |h[i]| && x == (h[i][a], h[i][0])
  }

  /** Every pair is a later member of a group with the group's first member. */
  lemma {:induction false} IndexPairsMembers(h: seq<seq<nat>>)
    ensures forall j :: 0 <= j < |IndexPairs(h)| ==> PairOf(h, IndexPairs(h)[j])
  {
    if h != [] {
      var n := |h| - 1;
      var front := IndexPairs(h[..n]);
      var p := IndexPairs(h);
      assert p == front + GroupPairs(h[n]);
      IndexPairsMembers(h[..n]);
      forall j | 0 <= j < |p| ensures PairOf(h, p[j]) {
        if j < |front| {
          assert PairOf(h[..n], front[j]);
          var i, a :| 0 <= i < n && 1 <= a < |h[..n][i]| && front[j] == (h[..n][i][a], h[..n][i][0]);
          assert h[..n][i] == h[i];
          assert p[j] == (h[i][a], h[i][0]);
        } else {
          assert p[j] == (h[n][j - |front| + 1], h[n][0]);
        }
      }
    }
  }

  /** Every later member of a group is paired with the group's first member. */
  lemma {:induction false} IndexPairsComplete(h: seq<seq<nat>>, i: nat, a: nat)
    requires i < |h| && 1 <= a < |h[i]|
    ensures (h[i][a], h[i][0]) in IndexPairs(h)
  {
    var n := |h| - 1;
    if i < n {
      IndexPairsComplete(h[..n], i, a);
      assert h[..n][i] == h[i];
    } else {
      var front := IndexPairs(h[..n]);
      assert IndexPairs(h)[|front| + a - 1] == (h[i][a], h[i][0]);
    }
  }

  /** Concatenated one-way pairs stay one-way when neither side's sources meet the other side's. */
  lemma OneWayAppend(p: seq<(nat, nat)>, q: seq<(nat, nat)>)
    requires OneWay(p) && OneWay(q)
    requires forall i, j :: 0 <= i < |p| && 0 <= j < |q| ==> p[i].0 != q[j].0 && p[i].0 != q[j].1 && q[j].0 != p[i].1
    ensures OneWay(p + q)
  {
    var r := p + q;
    forall i, j | 0 <= i < |r| && 0 <= j < |r| ensures r[i].0 != r[j].1 {
      if i < |p| && j >= |p| {
        assert r[j] == q[j - |p|];
      } else if i >= |p| && j < |p| {
        assert r[i] == q[i - |p|];
      } else if i >= |p| {
        assert r[i] == q[i - |p|] && r[j] == q[j - |p|];
      }
    }
    forall i, j | 0 <= i < j < |r| ensures r[i].0 != r[j].0 {
      if i < |p| && j >= |p| {
        assert r[j] == q[j - |p|];
      } else if i >= |p| {
        assert r[i] == q[i - |p|] && r[j] == q[j - |p|];
      }
    }
  }

  /** The pairs of one ascending group are one-way. */
  lemma GroupPairsOneWay(grp: seq<nat>)
    requires forall a, b :: 0 <= a < b < |grp| ==> grp[a] < grp[b]
    ensures OneWay(GroupPairs(grp))
  {
  }

  /** The pairs of a grouping are one-way: a later member is in one group only and is never a first member. */
  lemma {:induction false} IndexPairsOneWay<K>(keys: seq<K>, g: seq<seq<nat>>, n: nat)
    requires Grouped(keys, g) && n <= |g|
    ensures OneWay(IndexPairs(g[..n]))
  {
    if n > 0 {
      IndexPairsOneWay(keys, g, n - 1);
      OneWayStep(keys, g, n);
    }
  }

  /** Adding the pairs of group `n - 1` keeps the pairs one-way. */
  lemma OneWayStep<K>(keys: seq<K>, g: seq<seq<nat>>, n: nat)
    requires Grouped(keys, g) && 0 < n <= |g| && OneWay(IndexPairs(g[..n - 1]))
    ensures OneWay(IndexPairs(g[..n]))
  {
    var front := IndexPairs(g[..n - 1]);
    var q := GroupPairs(g[n - 1]);
    IndexPairsSnoc(g, n);
    GroupPairsOneWay(g[n - 1]);
    PairsApart(keys, g, n, front, q);
    OneWayAppend(front, q);
  }

  /** The pairs of the first `n - 1` groups never meet those of group `n - 1`. */
  lemma PairsApart<K>(keys: seq<K>, g: seq<seq<nat>>, n: nat, front: seq<(nat, nat)>, q: seq<(nat, nat)>)
    requires Grouped(keys, g) && 0 < n <= |g|
    requires front == IndexPairs(g[..n - 1]) && q == GroupPairs(g[n - 1])
    ensures forall i, j :: 0 <= i < |front| && 0 <= j < |q| ==>
      front[i].0 != q[j].0 && front[i].0 != q[j].1 && q[j].0 != front[i].1
  {
    IndexPairsMembers(g[..n - 1]);
    forall i, j | 0 <= i < |front| && 0 <= j < |q|
      ensures front[i].0 != q[j].0 && front[i].0 != q[j].1 && q[j].0 != front[i].1
    {
      PairApart(keys, g, n, front[i], q, j);
    }
  }

  /** One pair of the first `n - 1` groups against the pairs of group `n - 1`. */
  lemma PairApart<K>(keys: seq<K>, g: seq<seq<nat>>, n: nat, x: (nat, nat), q: seq<(nat, nat)>, j: nat)
    requires Grouped(keys, g) && 0 < n <= |g| && PairOf(g[..n - 1], x)
    requires q == GroupPairs(g[n - 1]) && j < |q|
    ensures x.0 != q[j].0 && x.0 != q[j].1 && q[j].0 != x.1
  {
    var i1, a1 :| 0 <= i1 < n - 1 && 1 <= a1 < |g[..n - 1][i1]| && x == (g[..n - 1][i1][a1], g[..n - 1][i1][0]);
    assert g[..n - 1][i1] == g[i1];
    Apart(keys, g, i1, a1, n - 1, j + 1);
    Apart(keys, g, i1, a1, n - 1, 0);
    Apart(keys, g, i1, 0, n - 1, j + 1);
  }

  /** The pairs of the first `n` groups are those of the first `n - 1`, then those of group `n - 1`. */
  lemma IndexPairsSnoc(g: seq<seq<nat>>, n: nat)
    requires 0 < n <= |g|
    ensures IndexPairs(g[..n]) == IndexPairs(g[..n - 1]) + GroupPairs(g[n - 1])
  {
    var h := g[..n];
    assert h[..n - 1] == g[..n - 1];
  }

  /** Members of different groups differ. */
  lemma Apart<K>(keys: seq<K>, g: seq<seq<nat>>, i: nat, a: nat, j: nat, b: nat)
    requires Grouped(keys, g) && i < |g| && a < |g[i]| && j < |g| && b < |g[j]| && i != j
    ensures g[i][a] != g[j][b]
  {
    GroupUnique(keys, g, i, a, j, b);
  }

  /** The renaming spelled out by the pairs of a grouping of the signatures is `Reps`. */
  lemma RenMapIsReps(sigs: seq<seq<Entry>>, g: seq<seq<nat>>)
    requires Grouped(sigs, g)
    ensures OneWay(IndexPairs(g)) && RenMap(IndexPairs(g)) == Reps(sigs)
  {
    var p := IndexPairs(g);
    assert g[..|g|] == g;
    IndexPairsOneWay(sigs, g, |g|);
    var ren, reps := RenMap(p), Reps(sigs);
    forall k | k in ren ensures k in reps && ren[k] == reps[k] {
      RenamedMember(sigs, g, k);
    }
    forall k | k in reps ensures k in ren {
      MemberRenamed(sigs, g, k);
    }
  }

  /** A state the pairs rename is merged into the head of its signature. */
  lemma RenamedMember(sigs: seq<seq<Entry>>, g: seq<seq<nat>>, k: nat)
    requires Grouped(sigs, g) && k in RenMap(IndexPairs(g))
    ensures k in Reps(sigs) && RenMap(IndexPairs(g))[k] == Reps(sigs)[k]
  {
    var p := IndexPairs(g);
    RenMapSpec(p);
    IndexPairsMembers(g);
    var j :| 0 <= j < |p| && p[j] == (k, RenMap(p)[k]);
    assert PairOf(g, p[j]);
    var i, a :| 0 <= i < |g| && 1 <= a < |g[i]| && p[j] == (g[i][a], g[i][0]);
    NonHeadOf(sigs, g, i, a);
  }

  /** A later member of a group is merged into the group's first member. */
  lemma NonHeadOf(sigs: seq<seq<Entry>>, g: seq<seq<nat>>, i: nat, a: nat)
    requires Grouped(sigs, g) && i < |g| && 1 <= a < |g[i]|
    ensures g[i][a] in NonHeads(sigs) && g[i][a] in Reps(sigs) && Reps(sigs)[g[i][a]] == g[i][0]
  {
    GroupHead(sigs, g, i, a);
    assert g[i][0] < g[i][a] < |sigs|;
    assert Head(sigs, g[i][a]) == g[i][0];
  }

  /** A state merged into another is renamed by the pairs. */
  lemma MemberRenamed(sigs: seq<seq<Entry>>, g: seq<seq<nat>>, k: nat)
    requires Grouped(sigs, g) && k in Reps(sigs)
    ensures k in RenMap(IndexPairs(g))
  {
    var p := IndexPairs(g);
    assert k in NonHeads(sigs);
    assert Covered(g, k);
    var i, a :| 0 <= i < |g| && 0 <= a < |g[i]| && g[i][a] == k;
    GroupHead(sigs, g, i, a);
    IndexPairsComplete(g, i, a);
    var j :| 0 <= j < |p| && p[j] == (g[i][a], g[i][0]);
    RenMapSpec(p);
  }

  /**
   * When every state's `Id` is its index, the `UpdateStateReferences` calls
   * of `MergeStates` rename the target of every shift and every goto that
   * names a later member of a group to the group's first state, and change
   * nothing else.
   */
  lemma MergeRenames(states: seq<LalrState>, t: ActionTable, u: GotoTable)
    requires forall k :: 0 <= k < |states| ==> states[k].id == k
    ensures RedirectAll(t, Pairs(states)) == RenameActions(t, Reps(Sigs(states)))
    ensures RedirectAllGotos(u, Pairs(states)) == RenameGotos(u, Reps(Sigs(states)))
  {
    var sigs := Sigs(states);
    var g := GroupBy(sigs);
    GroupBySpec(sigs);
    var p := IndexPairs(g);
    IndexPairsMembers(g);
    forall j | 0 <= j < |p| ensures IdsOf(states, p)[j] == p[j] {
      assert PairOf(g, p[j]);
    }
    assert IdsOf(states, p) == p;
    RenMapIsReps(sigs, g);
    RedirectAllRenames(t, u, p);
  }

  /**
   * The tables after `MergeStates`, entry by entry: a shift or a goto into a
   * later member of a group now names the group's first state, nothing names
   * a later member any more, and every other entry is unchanged.
   */
  lemma MergeTables(states: seq<LalrState>, t: ActionTable, u: GotoTable)
    requires forall k :: 0 <= k < |states| ==> states[k].id == k
    ensures var r, sigs := RedirectAll(t, Pairs(states)), Sigs(states);
      r.Keys == t.Keys &&
      forall s :: s in t ==> (r[s].Keys == t[s].Keys &&
        forall y :: y in t[s] ==> r[s][y] == if t[s][y].Shift? && t[s][y].target in NonHeads(sigs) then Shift(Head(sigs, t[s][y].target)) else t[s][y])
    ensures var r, sigs := RedirectAllGotos(u, Pairs(states)), Sigs(states);
      r.Keys == u.Keys &&
      forall s :: s in u ==> (r[s].Keys == u[s].Keys &&
        forall y :: y in u[s] ==> r[s][y] == if u[s][y] in NonHeads(sigs) then Head(sigs, u[s][y]) else u[s][y])
    ensures forall s, y :: s in RedirectAll(t, Pairs(states)) && y in RedirectAll(t, Pairs(states))[s] && RedirectAll(t, Pairs(states))[s][y].Shift? ==>
              RedirectAll(t, Pairs(states))[s][y].target !in NonHeads(Sigs(states))
    ensures forall s, y :: s in RedirectAllGotos(u, Pairs(states)) && y in RedirectAllGotos(u, Pairs(states))[s] ==>
              RedirectAllGotos(u, Pairs(states))[s][y] !in NonHeads(Sigs(states))
  {
    MergeRenames(states, t, u);
    RepsAvoid(t, u, Sigs(states));
  }

  /** The group `FindGroup` finds for a member's key is the member's group. */
  lemma GroupOfMember<K>(keys: seq<K>, g: seq<seq<nat>>, i: nat, a: nat)
    requires Grouped(keys, g) && i < |g| && a < |g[i]|
    ensures FindGroup(keys, g, keys[g[i][a]]) == i
  {
    var k := keys[g[i][a]];
    FindGroupSpec(keys, g, k);
    var r := FindGroup(keys, g, k);
    if r < |g| {
      SameKey(keys, g, r, i);
    }
  }

  /** State `k` after the merge, by its place `g[i][a]` in the grouping. */
  lemma MergedAt(states: seq<LalrState>, k: nat) returns (i: nat, a: nat)
    requires k < |states|
    ensures var g := GroupBy(Sigs(states));
      i < |g| && a < |g[i]| && g[i][a] == k && Head(Sigs(states), k) == g[i][0] &&
      Merged(states)[k] == if a == 0 then LalrState(states[k].id, Absorb(states[k].items, states, g[i][1..])) else states[k]
  {
    var sigs := Sigs(states);
    var g := GroupBy(sigs);
    GroupBySpec(sigs);
    assert Covered(g, k);
    i, a :| 0 <= i < |g| && 0 <= a < |g[i]| && g[i][a] == k;
    GroupHead(sigs, g, i, a);
    GroupOfMember(sigs, g, i, a);
    MergedPlace(states, g, i, a);
  }

  /** The merged state at the place `g[i][a]` of the grouping, once its group is known to be `i`. */
  lemma MergedPlace(states: seq<LalrState>, g: seq<seq<nat>>, i: nat, a: nat)
    requires g == GroupBy(Sigs(states)) && Grouped(Sigs(states), g)
    requires i < |g| && a < |g[i]| && g[i][a] < |states|
    requires FindGroup(Sigs(states), g, Sigs(states)[g[i][a]]) == i
    ensures Merged(states)[g[i][a]] == if a == 0 then LalrState(states[g[i][a]].id, Absorb(states[g[i][a]].items, states, g[i][1..])) else states[g[i][a]]
  {
    var k := g[i][a];
    assert Merged(states)[k] == MergedState(states, g, k);
    GroupUnique(Sigs(states), g, i, 0, i, a);
  }

  /** `AddMissing` keeps what holds of every item of both its arguments. */
  lemma AddMissingClosed(ps: seq<Sentence>, eps: Symbol, items: seq<LrItem>, more: seq<LrItem>)
    requires Closed(ps, eps, items) && Closed(ps, eps, more) && AllDotted(items) && AllDotted(more)
    ensures Closed(ps, eps, AddMissing(items, more)) && AllDotted(AddMissing(items, more))
  {
    var r := AddMissing(items, more);
    AddMissingSpec(items, more);
    assert Within(items, r) && Within(more, r);
    forall k | 0 <= k < |r| ensures Expanded(ps, eps, r[k], r) && Dotted(r[k]) {
      var y := r[k];
      if y in items {
        var j :| 0 <= j < |items| && items[j] == y;
        ExpandedGrow(ps, eps, y, items, r);
      } else {
        var j :| 0 <= j < |more| && more[j] == y;
        ExpandedGrow(ps, eps, y, more, r);
      }
    }
  }

  /** Absorbing closed states into a closed state gives a closed state. */
  lemma {:induction false} AbsorbClosed(ps: seq<Sentence>, eps: Symbol, items: seq<LrItem>, states: seq<LalrState>, members: seq<nat>)
    requires Closed(ps, eps, items) && AllDotted(items)
    requires forall a :: 0 <= a < |members| && members[a] < |states| ==>
               Closed(ps, eps, states[members[a]].items) && AllDotted(states[members[a]].items)
    ensures Closed(ps, eps, Absorb(items, states, members)) && AllDotted(Absorb(items, states, members))
  {
    if members != [] {
      var n := |members| - 1;
      AbsorbClosed(ps, eps, items, states, members[..n]);
      AbsorbClosedStep(ps, eps, items, states, members);
    }
  }

  /** Absorbing one more closed state keeps the items closed. */
  lemma AbsorbClosedStep(ps: seq<Sentence>, eps: Symbol, items: seq<LrItem>, states: seq<LalrState>, members: seq<nat>)
    requires members != []
    requires var front := Absorb(items, states, members[..|members| - 1]); Closed(ps, eps, front) && AllDotted(front)
    requires members[|members| - 1] < |states| ==>
      Closed(ps, eps, states[members[|members| - 1]].items) && AllDotted(states[members[|members| - 1]].items)
    ensures Closed(ps, eps, Absorb(items, states, members)) && AllDotted(Absorb(items, states, members))
  {
    var n := |members| - 1;
    var more := if members[n] < |states| then states[members[n]].items else [];
    AddMissingClosed(ps, eps, Absorb(items, states, members[..n]), more);
  }

  /** Absorbing keeps the first state's items first, and holds every member's items. */
  lemma {:induction false} AbsorbWithin(items: seq<LrItem>, states: seq<LalrState>, members: seq<nat>)
    ensures items <= Absorb(items, states, members)
    ensures forall a :: 0 <= a < |members| && members[a] < |states| ==> Within(states[members[a]].items, Absorb(items, states, members))
  {
    if members != [] {
      var n := |members| - 1;
      var r := Absorb(items, states, members[..n]);
      AbsorbWithin(items, states, members[..n]);
      var more := if members[n] < |states| then states[members[n]].items else [];
      AddMissingSpec(r, more);
      forall a | 0 <= a < |members| && members[a] < |states| ensures Within(states[members[a]].items, Absorb(items, states, members)) {
        if a < n {
          assert members[..n][a] == members[a];
        }
      }
    }
  }

  /**
   * After the merge the list is as long, every state keeps its `Id` and its
   * items (as a prefix), a state merged into another is unchanged, and the
   * first state of each signature holds the items of every state with it.
   */
  lemma MergedShape(states: seq<LalrState>)
    ensures |Merged(states)| == |states|
    ensures forall k :: 0 <= k < |states| ==> Merged(states)[k].id == states[k].id && states[k].items <= Merged(states)[k].items
    ensures forall k :: 0 <= k < |states| && Head(Sigs(states), k) != k ==> Merged(states)[k] == states[k]
    ensures forall k :: 0 <= k < |states| ==> Head(Sigs(states), k) < |states| && Within(states[k].items, Merged(states)[Head(Sigs(states), k)].items)
  {
    forall k | 0 <= k < |states|
      ensures Merged(states)[k].id == states[k].id && states[k].items <= Merged(states)[k].items
      ensures Head(Sigs(states), k) != k ==> Merged(states)[k] == states[k]
      ensures Head(Sigs(states), k) < |states| && Within(states[k].items, Merged(states)[Head(Sigs(states), k)].items)
    {
      MergedOne(states, k);
    }
  }

  lemma MergedOne(states: seq<LalrState>, k: nat)
    requires k < |states|
    ensures Merged(states)[k].id == states[k].id && states[k].items <= Merged(states)[k].items
    ensures Head(Sigs(states), k) != k ==> Merged(states)[k] == states[k]
    ensures Head(Sigs(states), k) < |states| && Within(states[k].items, Merged(states)[Head(Sigs(states), k)].items)
  {
    var g := GroupBy(Sigs(states));
    var i, a := MergedAt(states, k);
    var h := g[i][0];
    var i', a' := MergedAt(states, h);
    GroupBySpec(Sigs(states));
    GroupUnique(Sigs(states), g, i, 0, i', a');
    AbsorbWithin(states[k].items, states, g[i][1..]);
    AbsorbWithin(states[h].items, states, g[i][1..]);
    if a > 0 {
      assert g[i][1..][a - 1] == k;
    } else {
      PrefixWithin(states[k].items, Merged(states)[k].items);
    }
  }

  /** States from `lo` on that are closed and dotted stay so through the merge. */
  lemma MergedClosed(ps: seq<Sentence>, eps: Symbol, states: seq<LalrState>, lo: nat)
    requires forall k :: lo <= k < |states| ==> Closed(ps, eps, states[k].items) && AllDotted(states[k].items)
    ensures forall k :: lo <= k < |states| ==> Closed(ps, eps, Merged(states)[k].items) && AllDotted(Merged(states)[k].items)
  {
    forall k | lo <= k < |states| ensures Closed(ps, eps, Merged(states)[k].items) && AllDotted(Merged(states)[k].items) {
      var g := GroupBy(Sigs(states));
      var i, a := MergedAt(states, k);
      if a == 0 {
        GroupBySpec(Sigs(states));
        forall b | 0 <= b < |g[i][1..]| && g[i][1..][b] < |states|
          ensures Closed(ps, eps, states[g[i][1..][b]].items) && AllDotted(states[g[i][1..][b]].items)
        {
          assert g[i][0] < g[i][b + 1];
        }
        AbsorbClosed(ps, eps, states[k].items, states, g[i][1..]);
      }
    }
  }

  /** The merge of the groups before `i` is done in `states`, and nothing else has changed. */
  ghost predicate MergedUpTo(s0: seq<LalrState>, i: nat, states: seq<LalrState>)
  {
    var sigs := Sigs(s0);
    |states| == |s0| &&
    forall k :: 0 <= k < |s0| ==> states[k] == if FindGroup(sigs, GroupBy(sigs), sigs[k]) < i then MergedState(s0, GroupBy(sigs), k) else s0[k]
  }

  /** The members of group `i` are still as they were, and merging the group moves on to `i + 1`. */
  lemma MergeStep(s0: seq<LalrState>, i: nat, states: seq<LalrState>)
    requires MergedUpTo(s0, i, states) && i < |GroupBy(Sigs(s0))|
    ensures var g := GroupBy(Sigs(s0));
      g[i] != [] && (forall a :: 0 <= a < |g[i]| ==> g[i][a] < |states| && states[g[i][a]] == s0[g[i][a]]) &&
      (forall a :: 1 <= a < |g[i]| ==> g[i][a] != g[i][0])
    ensures var g := GroupBy(Sigs(s0)); var h := g[i][0];
      MergedUpTo(s0, i + 1, if |g[i]| > 1 then states[h := LalrState(s0[h].id, Absorb(s0[h].items, s0, g[i][1..]))] else states)
  {
    MergeStepMembers(s0, i, states);
    var g := GroupBy(Sigs(s0));
    var h := g[i][0];
    MergeStepAll(s0, i, states, if |g[i]| > 1 then states[h := LalrState(s0[h].id, Absorb(s0[h].items, s0, g[i][1..]))] else states);
  }

  /** Merging group `i` moves `MergedUpTo` on to `i + 1`. */
  lemma MergeStepAll(s0: seq<LalrState>, i: nat, states: seq<LalrState>, next: seq<LalrState>)
    requires MergedUpTo(s0, i, states) && i < |GroupBy(Sigs(s0))|
    requires GroupBy(Sigs(s0))[i] != [] && GroupBy(Sigs(s0))[i][0] < |s0|
    requires var g := GroupBy(Sigs(s0)); var h := g[i][0];
      next == if |g[i]| > 1 then states[h := LalrState(s0[h].id, Absorb(s0[h].items, s0, g[i][1..]))] else states
    ensures MergedUpTo(s0, i + 1, next)
  {
    var sigs := Sigs(s0);
    var g := GroupBy(sigs);
    var h := g[i][0];
    forall k | 0 <= k < |s0|
      ensures next[k] == if FindGroup(sigs, g, sigs[k]) < i + 1 then MergedState(s0, g, k) else s0[k]
    {
      MergeStepOne(s0, i, states, k);
      assert next[k] == if k == h && |g[i]| > 1 then LalrState(s0[h].id, Absorb(s0[h].items, s0, g[i][1..])) else states[k];
    }
    assert |next| == |s0|;
  }

  lemma MergeStepMembers(s0: seq<LalrState>, i: nat, states: seq<LalrState>)
    requires MergedUpTo(s0, i, states) && i < |GroupBy(Sigs(s0))|
    ensures var g := GroupBy(Sigs(s0));
      g[i] != [] && g[i][0] < |s0| && (forall a :: 0 <= a < |g[i]| ==> g[i][a] < |states| && states[g[i][a]] == s0[g[i][a]]) &&
      (forall a :: 1 <= a < |g[i]| ==> g[i][a] != g[i][0])
  {
    var sigs := Sigs(s0);
    var g := GroupBy(sigs);
    GroupBySpec(sigs);
    forall a | 0 <= a < |g[i]| ensures g[i][a] < |states| && states[g[i][a]] == s0[g[i][a]] {
      GroupOfMember(sigs, g, i, a);
    }
  }

  lemma MergeStepOne(s0: seq<LalrState>, i: nat, states: seq<LalrState>, k: nat)
    requires MergedUpTo(s0, i, states) && i < |GroupBy(Sigs(s0))| && k < |s0|
    requires GroupBy(Sigs(s0))[i] != [] && GroupBy(Sigs(s0))[i][0] < |s0|
    ensures var sigs := Sigs(s0); var g := GroupBy(sigs); var h := g[i][0];
      (if k == h && |g[i]| > 1 then LalrState(s0[h].id, Absorb(s0[h].items, s0, g[i][1..])) else states[k]) ==
      if FindGroup(sigs, g, sigs[k]) < i + 1 then MergedState(s0, g, k) else s0[k]
  {
    var sigs := Sigs(s0);
    var g := GroupBy(sigs);
    var h := g[i][0];
    GroupBySpec(sigs);
    assert Covered(g, k);
    var j, a :| 0 <= j < |g| && 0 <= a < |g[j]| && g[j][a] == k;
    GroupOfMember(sigs, g, j, a);
    GroupUnique(sigs, g, i, 0, j, a);
    var after := if k == h && |g[i]| > 1 then LalrState(s0[h].id, Absorb(s0[h].items, s0, g[i][1..])) else states[k];
    MergeStepAt(s0, i, states[k], after, k, j);
  }

  /** One state through the merge of group `i`, given the group `j` it belongs to. */
  lemma MergeStepAt(s0: seq<LalrState>, i: nat, before: LalrState, after: LalrState, k: nat, j: nat)
    requires k < |s0|
    requires var sigs := Sigs(s0); var g := GroupBy(sigs);
      i < |g| && g[i] != [] && j < |g| && g[j] != [] && FindGroup(sigs, g, sigs[k]) == j && (k == g[i][0] ==> j == i) &&
      before == (if j < i then MergedState(s0, g, k) else s0[k]) &&
      after == if k == g[i][0] && |g[i]| > 1 then LalrState(s0[k].id, Absorb(s0[k].items, s0, g[i][1..])) else before
    ensures var sigs := Sigs(s0); var g := GroupBy(sigs);
      after == if j < i + 1 then MergedState(s0, g, k) else s0[k]
  {
    var g := GroupBy(Sigs(s0));
    if k == g[i][0] && |g[i]| == 1 {
      assert g[i][1..] == [];
    }
  }

  /** Once every group is merged, the states are `Merged(s0)`. */
  lemma MergeDone(s0: seq<LalrState>, states: seq<LalrState>)
    requires MergedUpTo(s0, |GroupBy(Sigs(s0))|, states)
    ensures states == Merged(s0)
  {
    var sigs := Sigs(s0);
    var g := GroupBy(sigs);
    GroupBySpec(sigs);
    forall k | 0 <= k < |s0| ensures states[k] == Merged(s0)[k] {
      assert Covered(g, k);
      var j, a :| 0 <= j < |g| && 0 <= a < |g[j]| && g[j][a] == k;
      GroupOfMember(sigs, g, j, a);
    }
  }

  /** Redirecting by one more pair. */
  lemma RedirectSnoc(t: ActionTable, u: GotoTable, ps: seq<(nat, nat)>, x: (nat, nat))
    ensures RedirectAll(t, ps + [x]) == RedirectActions(RedirectAll(t, ps), x.0, x.1)
    ensures RedirectAllGotos(u, ps + [x]) == RedirectGotos(RedirectAllGotos(u, ps), x.0, x.1)
  {
    assert (ps + [x])[..|ps|] == ps;
  }

  /** Redirecting by two lists of pairs in turn. */
  lemma {:induction false} RedirectAppend(t: ActionTable, u: GotoTable, ps: seq<(nat, nat)>, qs: seq<(nat, nat)>)
    ensures RedirectAll(t, ps + qs) == RedirectAll(RedirectAll(t, ps), qs)
    ensures RedirectAllGotos(u, ps + qs) == RedirectAllGotos(RedirectAllGotos(u, ps), qs)
  {
    if qs != [] {
      var n := |qs| - 1;
      RedirectAppend(t, u, ps, qs[..n]);
      assert ps + qs == (ps + qs[..n]) + [qs[n]];
      assert qs == qs[..n] + [qs[n]];
      RedirectSnoc(t, u, ps + qs[..n], qs[n]);
      RedirectSnoc(RedirectAll(t, ps), RedirectAllGotos(u, ps), qs[..n], qs[n]);
    } else {
      assert ps + qs == ps;
    }
  }

  /** The pairs of the groups before `i + 1` are those before `i`, then those of group `i`. */
  lemma PairsStep(s0: seq<LalrState>, g: seq<seq<nat>>, i: nat)
    requires i < |g|
    ensures IdsOf(s0, IndexPairs(g[..i + 1])) == IdsOf(s0, IndexPairs(g[..i])) + IdsOf(s0, GroupPairs(g[i]))
  {
    assert g[..i + 1][..i] == g[..i];
  }

  /** One more member of a group: its items absorbed, its pair appended. */
  lemma GroupStep(s0: seq<LalrState>, grp: seq<nat>, j: nat, items: seq<LrItem>)
    requires 1 <= j < |grp| && grp[j] < |s0|
    ensures Absorb(items, s0, grp[1..j + 1]) == AddMissing(Absorb(items, s0, grp[1..j]), s0[grp[j]].items)
    ensures IdsOf(s0, GroupPairs(grp)[..j]) == IdsOf(s0, GroupPairs(grp)[..j - 1]) + [(Id(s0, grp[j]), Id(s0, grp[0]))]
  {
    GroupAbsorbStep(s0, grp, j, items);
    GroupPairsStep(s0, grp, j);
  }

  lemma GroupAbsorbStep(s0: seq<LalrState>, grp: seq<nat>, j: nat, items: seq<LrItem>)
    requires 1 <= j < |grp| && grp[j] < |s0|
    ensures Absorb(items, s0, grp[1..j + 1]) == AddMissing(Absorb(items, s0, grp[1..j]), s0[grp[j]].items)
  {
    var m := grp[1..j + 1];
    assert m[..j - 1] == grp[1..j];
    assert m[j - 1] == grp[j];
  }

  lemma GroupPairsStep(s0: seq<LalrState>, grp: seq<nat>, j: nat)
    requires 1 <= j < |grp|
    ensures IdsOf(s0, GroupPairs(grp)[..j]) == IdsOf(s0, GroupPairs(grp)[..j - 1]) + [(Id(s0, grp[j]), Id(s0, grp[0]))]
  {
    var p := GroupPairs(grp);
    assert p[j - 1] == (grp[j], grp[0]);
    IdsOfSnoc(s0, p[..j - 1], p[j - 1]);
    assert p[..j - 1] + [p[j - 1]] == p[..j];
  }

  lemma IdsOfSnoc(states: seq<LalrState>, p: seq<(nat, nat)>, x: (nat, nat))
    ensures IdsOf(states, p + [x]) == IdsOf(states, p) + [(Id(states, x.0), Id(states, x.1))]
  {
    assert |IdsOf(states, p + [x])| == |p| + 1;
  }
}
