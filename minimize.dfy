/**
 * `NfaToDfaConvertor.Minimal`, `SplitPrtition`, `Alphabet(DFA)` and
 * `BuildMinimizedDFA`: partition refinement of the subset automaton and the
 * quotient built from the final partition.
 *
 * A `HashSet<DFANode>` of the refinement is a `Block`: the node indices in
 * enumeration order. These sets are filled once and afterwards only shrunk,
 * and the model takes their enumeration order to be insertion order. Blocks
 * are compared by value; in a partition no two blocks share a node, so value
 * equality coincides with the reference equality `List.Remove` and the
 * `group` dictionary use.
 */
module Minimization {
  import opened Wrappers
  import opened Collections
  import opened DfaGraph

  type Block = seq<nat>

  // ---------------------------------------------------------------------
  // Alphabet(DFA)

  /** The symbols on the transitions of the nodes listed in `xs`. */
  function KeysOf(d: Dfa, xs: seq<nat>): set<char>
  {
    set x, c | x in xs && x < |d.nodes| && c in d.nodes[x].trans :: c
  }

  /** `Alphabet(dfa)`: the symbols on the transitions of the reachable nodes. */
  method DfaAlphabet(d: Dfa) returns (alphabet: set<char>)
    requires Valid(d)
    ensures forall c :: c in alphabet <==> exists x: nat :: x < |d.nodes| && Reachable(d, x) && c in d.nodes[x].trans
  {
    var order := Nodes(d);
    alphabet := {};
    var i := 0;
    while i < |order|
      invariant 0 <= i <= |order|
      invariant alphabet == KeysOf(d, order[..i])
    {
      assert order[..i + 1] == order[..i] + [order[i]];
      alphabet := alphabet + d.nodes[order[i]].trans.Keys;
      i := i + 1;
    }
    assert order[..i] == order;
    forall c | c in alphabet ensures exists x: nat :: x < |d.nodes| && Reachable(d, x) && c in d.nodes[x].trans {
      var x :| x in order && x < |d.nodes| && c in d.nodes[x].trans;
    }
  }

  // ---------------------------------------------------------------------
  // Partitions

  /** The nodes of all blocks. */
  function Union(parts: seq<Block>): set<nat>
  {
    set i, x | 0 <= i < |parts| && x in parts[i] :: x
  }

  /** No node lies in two blocks. */
  ghost predicate Disjoint(parts: seq<Block>)
  {
    forall i, j, x :: 0 <= i < |parts| && 0 <= j < |parts| && x in parts[i] && x in parts[j] ==> i == j
  }

  /** `parts` is a partition: non-empty blocks without repetitions, no node in two blocks. */
  ghost predicate Partition(parts: seq<Block>)
  {
    (forall i :: 0 <= i < |parts| ==> parts[i] != [] && Distinct(parts[i])) && Disjoint(parts)
  }

  /** `FirstOrDefault(x => x.Contains(t))`: the first block holding `t`. */
  function BlockIndex(parts: seq<Block>, t: nat): (r: Option<nat>)
    ensures r.Some? ==> r.value < |parts| && t in parts[r.value]
    ensures r.None? <==> t !in Union(parts)
  {
    FindBlock(parts, t, 0)
  }

  function FindBlock(parts: seq<Block>, t: nat, k: nat): (r: Option<nat>)
    requires k <= |parts|
    ensures r.Some? ==> k <= r.value < |parts| && t in parts[r.value]
    ensures r.None? <==> forall i :: k <= i < |parts| ==> t !in parts[i]
    decreases |parts| - k
  {
    if k == |parts| then None
    else if t in parts[k] then Some(k)
    else FindBlock(parts, t, k + 1)
  }

  /** In a partition, the block of a node is the one block that holds it. */
  lemma BlockIndexUnique(parts: seq<Block>, t: nat, i: nat)
    requires Disjoint(parts) && i < |parts| && t in parts[i]
    ensures BlockIndex(parts, t) == Some(i)
  {
  }

  lemma PartsBound(parts: seq<Block>)
    requires Partition(parts)
    ensures |parts| <= |Union(parts)|
    decreases |parts|
  {
    if parts != [] {
      var n := |parts| - 1;
      var front := parts[..n];
      assert Partition(front);
      PartsBound(front);
      assert Union(parts) == Union(front) + Elems(parts[n]) by {
        forall x | x in Union(parts) ensures x in Union(front) + Elems(parts[n]) {
          var i :| 0 <= i < |parts| && x in parts[i];
          if i < n {
            assert x in front[i];
          }
        }
        forall x | x in Union(front) ensures x in Union(parts) {
          var i :| 0 <= i < |front| && x in front[i];
          assert x in parts[i];
        }
      }
      assert Union(front) * Elems(parts[n]) == {} by {
        forall x | x in Union(front) ensures x !in Elems(parts[n]) {
          var i :| 0 <= i < |front| && x in front[i];
          assert x in parts[i];
        }
      }
      assert parts[n][0] in Elems(parts[n]);
    }
  }

  // ---------------------------------------------------------------------
  // SplitPrtition

  /**
   * The group key of node `x` for symbol `c`: the block its `c`-target lies
   * in, or `None` when it has no `c`-transition (or, which cannot happen in
   * a cover of the reachable nodes, when the target is in no block). A
   * `None` key stands for the fresh set `[]` the source keys such a node
   * under, so it never matches another key.
   */
  function Key(d: Dfa, parts: seq<Block>, c: char, x: nat): Option<nat>
    requires x < |d.nodes|
  {
    if c in d.nodes[x].trans then BlockIndex(parts, d.nodes[x].trans[c]) else None
  }

  datatype Group = Group(key: Option<nat>, members: seq<nat>)

  /** The first group from `k` on whose key is `key`; a `None` key matches nothing. */
  function FindGroup(groups: seq<Group>, key: Option<nat>, k: nat): (r: Option<nat>)
    requires k <= |groups|
    ensures r.Some? ==> k <= r.value < |groups| && key.Some? && groups[r.value].key == key
    ensures r.None? ==> forall i :: k <= i < |groups| ==> key.None? || groups[i].key != key
    decreases |groups| - k
  {
    if k == |groups| then None
    else if key.Some? && groups[k].key == key then Some(k)
    else FindGroup(groups, key, k + 1)
  }

  /** Node `x`, with key `key`, joins the group of its key, or opens a new group at the end. */
  function Join(groups: seq<Group>, key: Option<nat>, x: nat): seq<Group>
  {
    match FindGroup(groups, key, 0)
    case Some(i) => groups[i := Group(key, groups[i].members + [x])]
    case None => groups + [Group(key, [x])]
  }

  /** The groups of the nodes `xs`, in the order the `group` dictionary receives them. */
  function Grouping(d: Dfa, parts: seq<Block>, c: char, xs: seq<nat>): seq<Group>
    requires forall x :: x in xs ==> x < |d.nodes|
    decreases |xs|
  {
    if xs == [] then []
    else
      var n := |xs| - 1;
      assert xs[n] in xs && forall x :: x in xs[..n] ==> x in xs;
      Join(Grouping(d, parts, c, xs[..n]), Key(d, parts, c, xs[n]), xs[n])
  }

  /** The index of the first largest group: `OrderBy(x => -x.Count)` is a stable sort. */
  function Largest(groups: seq<Group>): (m: nat)
    requires groups != []
    ensures m < |groups|
    ensures forall i :: 0 <= i < |groups| ==> |groups[i].members| <= |groups[m].members|
    ensures forall i :: 0 <= i < m ==> |groups[i].members| < |groups[m].members|
    decreases |groups|
  {
    if |groups| == 1 then 0
    else
      var n := |groups| - 1;
      var m := Largest(groups[..n]);
      if |groups[n].members| > |groups[m].members| then n else m
  }

  /** `k.ExceptWith(p)` on a copy of `block`: the nodes of `block` outside `p`, in block order. */
  function Without(block: Block, p: Block): (r: Block)
    ensures forall x :: x in r <==> x in block && x !in p
    ensures Distinct(block) ==> Distinct(r)
  {
    if block == [] then []
    else (if block[0] in p then [] else [block[0]]) + Without(block[1..], p)
  }

  /**
   * `SplitPrtition(block, c, parts)`: group the nodes of `block` by the
   * block of their `c`-target; with more than one group, split off the first
   * largest group.
   */
  function Split(d: Dfa, parts: seq<Block>, block: Block, c: char): (r: Option<(Block, Block)>)
    requires forall x :: x in block ==> x < |d.nodes|
    ensures r.Some? ==> forall x :: x in r.value.1 <==> x in block && x !in r.value.0
  {
    var groups := Grouping(d, parts, c, block);
    if |groups| > 1 then
      var p1 := groups[Largest(groups)].members;
      Some((p1, Without(block, p1)))
    else None
  }

  /** What the groups of the nodes `xs` are: their keys, their members, and how they cover `xs`. */
  ghost predicate Grouped(d: Dfa, parts: seq<Block>, c: char, xs: seq<nat>, groups: seq<Group>)
    requires forall x :: x in xs ==> x < |d.nodes|
  {
    GroupsOf(d, parts, c, xs, groups) && Keyed(groups) && GroupsDisjoint(groups) &&
    forall x :: x in xs ==> x in Union(Members(groups))
  }

  /** Each group is a non-empty list of distinct nodes of `xs` that share its key. */
  ghost predicate GroupsOf(d: Dfa, parts: seq<Block>, c: char, xs: seq<nat>, groups: seq<Group>)
    requires forall x :: x in xs ==> x < |d.nodes|
  {
    (forall i :: 0 <= i < |groups| ==> groups[i].members != [] && Distinct(groups[i].members)) &&
    (forall i, x :: 0 <= i < |groups| && x in groups[i].members ==> x in xs && Key(d, parts, c, x) == groups[i].key)
  }

  /** A `None` key holds one node, and no two groups share a `Some` key. */
  ghost predicate Keyed(groups: seq<Group>)
  {
    (forall i :: 0 <= i < |groups| && groups[i].key.None? ==> |groups[i].members| == 1) &&
    (forall i, j :: 0 <= i < j < |groups| && groups[i].key.Some? ==> groups[i].key != groups[j].key)
  }

  ghost predicate GroupsDisjoint(groups: seq<Group>)
  {
    forall i, j, x :: 0 <= i < |groups| && 0 <= j < |groups| && x in groups[i].members && x in groups[j].members ==> i == j
  }

  function Members(groups: seq<Group>): seq<Block>
  {
    seq(|groups|, i requires 0 <= i < |groups| => groups[i].members)
  }

  lemma JoinFound(d: Dfa, parts: seq<Block>, c: char, xs: seq<nat>, groups: seq<Group>, x: nat, i: nat)
    requires (forall y :: y in xs ==> y < |d.nodes|) && x < |d.nodes|
    requires Grouped(d, parts, c, xs, groups) && x !in xs
    requires FindGroup(groups, Key(d, parts, c, x), 0) == Some(i)
    ensures Grouped(d, parts, c, xs + [x], Join(groups, Key(d, parts, c, x), x))
  {
    var key := Key(d, parts, c, x);
    var g' := groups[i := Group(key, groups[i].members + [x])];
    assert Join(groups, key, x) == g';
    assert groups[i].key == key;
    ExtendedGroupsOf(d, parts, c, xs, groups, x, i);
    ExtendedKeyed(groups, x, i);
    ExtendedCovers(groups, g', xs, x, i);
  }

  /** Adding a new node `x` of the right key to group `i` keeps the groups well formed. */
  lemma ExtendedGroupsOf(d: Dfa, parts: seq<Block>, c: char, xs: seq<nat>, groups: seq<Group>, x: nat, i: nat)
    requires (forall y :: y in xs ==> y < |d.nodes|) && x < |d.nodes| && x !in xs && i < |groups|
    requires GroupsOf(d, parts, c, xs, groups) && groups[i].key == Key(d, parts, c, x)
    ensures GroupsOf(d, parts, c, xs + [x], groups[i := Group(groups[i].key, groups[i].members + [x])])
  {
    assert x !in groups[i].members;
  }

  /** Adding a node that is in no group to a group with a key keeps keys and disjointness. */
  lemma ExtendedKeyed(groups: seq<Group>, x: nat, i: nat)
    requires i < |groups| && groups[i].key.Some? && Keyed(groups) && GroupsDisjoint(groups)
    requires forall j :: 0 <= j < |groups| ==> x !in groups[j].members
    ensures var g' := groups[i := Group(groups[i].key, groups[i].members + [x])];
      Keyed(g') && GroupsDisjoint(g')
  {
  }

  /** Adding `x` to group `i` covers `x` and keeps covering the rest. */
  lemma ExtendedCovers(groups: seq<Group>, g': seq<Group>, xs: seq<nat>, x: nat, i: nat)
    requires i < |groups| && g' == groups[i := Group(groups[i].key, groups[i].members + [x])]
    requires forall y :: y in xs ==> y in Union(Members(groups))
    ensures forall y :: y in xs + [x] ==> y in Union(Members(g'))
  {
    forall y | y in xs + [x] ensures y in Union(Members(g')) {
      if y == x {
        assert x in Members(g')[i];
      } else {
        var j :| 0 <= j < |groups| && y in Members(groups)[j];
        assert y in Members(g')[j];
      }
    }
  }

  lemma JoinNew(d: Dfa, parts: seq<Block>, c: char, xs: seq<nat>, groups: seq<Group>, x: nat)
    requires (forall y :: y in xs ==> y < |d.nodes|) && x < |d.nodes|
    requires Grouped(d, parts, c, xs, groups) && x !in xs
    requires FindGroup(groups, Key(d, parts, c, x), 0).None?
    ensures Grouped(d, parts, c, xs + [x], Join(groups, Key(d, parts, c, x), x))
  {
    var key := Key(d, parts, c, x);
    var g' := groups + [Group(key, [x])];
    assert Join(groups, key, x) == g';
    AppendedGroupsOf(d, parts, c, xs, groups, x);
    AppendedKeyed(groups, key, x);
    AppendedCovers(groups, xs, key, x);
  }

  /** A new group holding only a new node `x`, with its key, keeps the groups well formed. */
  lemma AppendedGroupsOf(d: Dfa, parts: seq<Block>, c: char, xs: seq<nat>, groups: seq<Group>, x: nat)
    requires (forall y :: y in xs ==> y < |d.nodes|) && x < |d.nodes|
    requires GroupsOf(d, parts, c, xs, groups)
    ensures GroupsOf(d, parts, c, xs + [x], groups + [Group(Key(d, parts, c, x), [x])])
  {
  }

  /** A new group for a node in no group, with a key no group has, keeps keys and disjointness. */
  lemma AppendedKeyed(groups: seq<Group>, key: Option<nat>, x: nat)
    requires Keyed(groups) && GroupsDisjoint(groups)
    requires forall j :: 0 <= j < |groups| ==> x !in groups[j].members
    requires forall j :: 0 <= j < |groups| ==> key.None? || groups[j].key != key
    ensures Keyed(groups + [Group(key, [x])]) && GroupsDisjoint(groups + [Group(key, [x])])
  {
  }

  /** A new group holding `x` covers `x` and keeps covering the rest. */
  lemma AppendedCovers(groups: seq<Group>, xs: seq<nat>, key: Option<nat>, x: nat)
    requires forall y :: y in xs ==> y in Union(Members(groups))
    ensures forall y :: y in xs + [x] ==> y in Union(Members(groups + [Group(key, [x])]))
  {
    var g' := groups + [Group(key, [x])];
    forall y | y in xs + [x] ensures y in Union(Members(g')) {
      if y == x {
        assert x in Members(g')[|groups|];
      } else {
        var j :| 0 <= j < |groups| && y in Members(groups)[j];
        assert y in Members(g')[j];
      }
    }
  }

  lemma {:induction false} GroupingGrouped(d: Dfa, parts: seq<Block>, c: char, xs: seq<nat>)
    requires (forall x :: x in xs ==> x < |d.nodes|) && Distinct(xs)
    ensures Grouped(d, parts, c, xs, Grouping(d, parts, c, xs))
    decreases |xs|
  {
    if xs != [] {
      var n := |xs| - 1;
      var front := xs[..n];
      assert xs == front + [xs[n]];
      assert xs[n] in xs && forall x :: x in front ==> x in xs;
      assert Distinct(front);
      GroupingGrouped(d, parts, c, front);
      DistinctPrefix(xs, n);
      var groups := Grouping(d, parts, c, front);
      if FindGroup(groups, Key(d, parts, c, xs[n]), 0).Some? {
        JoinFound(d, parts, c, front, groups, xs[n], FindGroup(groups, Key(d, parts, c, xs[n]), 0).value);
      } else {
        JoinNew(d, parts, c, front, groups, xs[n]);
      }
    }
  }

  /** All nodes of `block` have a `c`-transition, and their targets lie in one block. */
  ghost predicate Uniform(d: Dfa, parts: seq<Block>, c: char, block: Block)
    requires forall x :: x in block ==> x < |d.nodes|
  {
    forall x, y :: x in block && y in block ==> Key(d, parts, c, x).Some? && Key(d, parts, c, x) == Key(d, parts, c, y)
  }

  /** `p1` and `p2` are non-empty, without repetitions or common nodes, and together hold `block`. */
  ghost predicate Pieces(block: Block, p1: Block, p2: Block)
  {
    p1 != [] && p2 != [] && Distinct(p1) && Distinct(p2) &&
    (forall x :: x in block <==> x in p1 || x in p2) &&
    (forall x :: x in p1 ==> x !in p2)
  }

  /**
   * A split returns two non-empty pieces without common nodes whose union
   * is the block; the first piece is a group, so its nodes share a key.
   */
  lemma SplitPieces(d: Dfa, parts: seq<Block>, block: Block, c: char, p1: Block, p2: Block)
    requires (forall x :: x in block ==> x < |d.nodes|) && Distinct(block)
    requires Split(d, parts, block, c) == Some((p1, p2))
    ensures Pieces(block, p1, p2)
    ensures forall x, y :: x in p1 && y in p1 ==> Key(d, parts, c, x) == Key(d, parts, c, y)
  {
    var groups := Grouping(d, parts, c, block);
    GroupingGrouped(d, parts, c, block);
    GroupedPieces(d, parts, c, block, groups, Largest(groups));
  }

  /** Any one of the groups of `block`, when there are two or more, and the rest of `block` are pieces of it. */
  lemma GroupedPieces(d: Dfa, parts: seq<Block>, c: char, block: Block, groups: seq<Group>, m: nat)
    requires (forall x :: x in block ==> x < |d.nodes|) && Distinct(block)
    requires Grouped(d, parts, c, block, groups) && |groups| > 1 && m < |groups|
    ensures Pieces(block, groups[m].members, Without(block, groups[m].members))
    ensures forall x, y :: x in groups[m].members && y in groups[m].members ==> Key(d, parts, c, x) == Key(d, parts, c, y)
  {
    assert GroupsOf(d, parts, c, block, groups) && GroupsDisjoint(groups);
    GroupPieces(block, groups, m);
    GroupSharesKey(d, parts, c, block, groups, m);
  }

  /** The members of one group share its key. */
  lemma GroupSharesKey(d: Dfa, parts: seq<Block>, c: char, xs: seq<nat>, groups: seq<Group>, m: nat)
    requires (forall x :: x in xs ==> x < |d.nodes|) && m < |groups|
    requires GroupsOf(d, parts, c, xs, groups)
    ensures forall x :: x in groups[m].members ==> x in xs
    ensures forall x, y :: x in groups[m].members && y in groups[m].members ==> Key(d, parts, c, x) == Key(d, parts, c, y)
  {
  }

  /** One of several disjoint non-empty groups within `block`, and the rest of `block`, are pieces of it. */
  lemma GroupPieces(block: Block, groups: seq<Group>, m: nat)
    requires Distinct(block) && |groups| > 1 && m < |groups|
    requires forall i :: 0 <= i < |groups| ==> groups[i].members != [] && Distinct(groups[i].members)
    requires forall i, x :: 0 <= i < |groups| && x in groups[i].members ==> x in block
    requires GroupsDisjoint(groups)
    ensures Pieces(block, groups[m].members, Without(block, groups[m].members))
  {
    var p1 := groups[m].members;
    var j := if m == 0 then 1 else 0;
    var y := groups[j].members[0];
    assert y in groups[j].members;
    assert y in Without(block, p1);
  }

  /** A block of two or more nodes is left whole exactly when it is uniform for `c`. */
  lemma SplitNoneIff(d: Dfa, parts: seq<Block>, block: Block, c: char)
    requires (forall x :: x in block ==> x < |d.nodes|) && Distinct(block) && |block| >= 2
    ensures Split(d, parts, block, c).None? <==> Uniform(d, parts, c, block)
  {
    var groups := Grouping(d, parts, c, block);
    GroupingGrouped(d, parts, c, block);
    if |groups| > 1 {
      var x, y := groups[0].members[0], groups[1].members[0];
      assert x in groups[0].members && y in groups[1].members;
      assert x in block && y in block;
      assert !(Key(d, parts, c, x).Some? && Key(d, parts, c, x) == Key(d, parts, c, y));
    }
    if |groups| <= 1 {
      assert block[0] in Union(Members(groups));
      forall x | x in block ensures x in groups[0].members {
        assert x in Union(Members(groups));
      }
      assert block[0] != block[1];
      TwoMembers(groups[0].members, block[0], block[1]);
    }
  }

  /** Nodes lacking a transition on `c` never share a group. */
  lemma SplitSeparates(d: Dfa, parts: seq<Block>, block: Block, c: char, x: nat, y: nat)
    requires (forall z :: z in block ==> z < |d.nodes|) && Distinct(block)
    requires x in block && y in block && x != y && c !in d.nodes[x].trans
    ensures forall i :: 0 <= i < |Grouping(d, parts, c, block)| ==>
      !(x in Grouping(d, parts, c, block)[i].members && y in Grouping(d, parts, c, block)[i].members)
  {
    var groups := Grouping(d, parts, c, block);
    GroupingGrouped(d, parts, c, block);
    forall i | 0 <= i < |groups| && x in groups[i].members ensures y !in groups[i].members {
      assert |groups[i].members| == 1;
    }
  }

  /** The split on the first symbol of `symbols` that splits `block` (the `foreach` with `break`). */
  function FirstSplit(d: Dfa, parts: seq<Block>, block: Block, symbols: seq<char>): Option<(Block, Block)>
    requires forall x :: x in block ==> x < |d.nodes|
    decreases |symbols|
  {
    if symbols == [] then None
    else
      var s := Split(d, parts, block, symbols[0]);
      if s.Some? then s else FirstSplit(d, parts, block, symbols[1..])
  }

  lemma {:induction false} FirstSplitPieces(d: Dfa, parts: seq<Block>, block: Block, symbols: seq<char>, p1: Block, p2: Block)
    requires (forall x :: x in block ==> x < |d.nodes|) && Distinct(block)
    requires FirstSplit(d, parts, block, symbols) == Some((p1, p2))
    ensures Pieces(block, p1, p2)
    decreases |symbols|
  {
    if Split(d, parts, block, symbols[0]).Some? {
      SplitPieces(d, parts, block, symbols[0], p1, p2);
    } else {
      FirstSplitPieces(d, parts, block, symbols[1..], p1, p2);
    }
  }

  /** A block of two or more nodes that no symbol splits is uniform for every symbol. */
  lemma {:induction false} FirstSplitNone(d: Dfa, parts: seq<Block>, block: Block, symbols: seq<char>)
    requires (forall x :: x in block ==> x < |d.nodes|) && Distinct(block) && |block| >= 2
    ensures FirstSplit(d, parts, block, symbols).None? <==> forall c :: c in symbols ==> Uniform(d, parts, c, block)
    decreases |symbols|
  {
    if symbols != [] {
      SplitNoneIff(d, parts, block, symbols[0]);
      FirstSplitNone(d, parts, block, symbols[1..]);
      assert forall c :: c in symbols <==> c == symbols[0] || c in symbols[1..];
    }
  }

  // ---------------------------------------------------------------------
  // The refinement loop of Minimal

  /** Every node of every block is a node of `d`. */
  ghost predicate InNodes(d: Dfa, parts: seq<Block>)
  {
    forall i, x :: 0 <= i < |parts| && x in parts[i] ==> x < |d.nodes|
  }

  /** A partition of nodes of `d` whose blocks agree on acceptance. */
  ghost predicate Refined(d: Dfa, parts: seq<Block>)
  {
    Partition(parts) && InNodes(d, parts) &&
    forall i, x, y :: 0 <= i < |parts| && x in parts[i] && y in parts[i] ==> d.nodes[x].accepting == d.nodes[y].accepting
  }

  /** The position of `b` in `parts`. */
  function IndexOf(parts: seq<Block>, b: Block): (i: nat)
    requires b in parts
    ensures i < |parts| && parts[i] == b
    ensures forall k :: 0 <= k < i ==> parts[k] != b
  {
    if parts[0] == b then 0 else 1 + IndexOf(parts[1..], b)
  }

  /** `List.Remove(b)`: drops the first occurrence of `b`. */
  function Remove(parts: seq<Block>, b: Block): (r: seq<Block>)
    requires b in parts
    ensures |r| == |parts| - 1
  {
    var i := IndexOf(parts, b);
    parts[..i] + parts[i + 1..]
  }

  /** `Remove(current)` followed by `Add(p1)` and `Add(p2)`. */
  function Replace(parts: seq<Block>, b: Block, p1: Block, p2: Block): seq<Block>
    requires b in parts
  {
    Remove(parts, b) + [p1, p2]
  }

  /** Replacing a block by two pieces of it keeps a refined partition with the same nodes. */
  lemma ReplacePieces(d: Dfa, parts: seq<Block>, b: Block, p1: Block, p2: Block)
    requires Refined(d, parts) && b in parts && Pieces(b, p1, p2)
    ensures Refined(d, Replace(parts, b, p1, p2))
    ensures Union(Replace(parts, b, p1, p2)) == Union(parts)
    ensures forall q :: q in parts && q != b ==> q in Replace(parts, b, p1, p2)
  {
    var i := IndexOf(parts, b);
    var r := Replace(parts, b, p1, p2);
    ReplaceLaidOut(parts, b, p1, p2);
    LaidOutRefined(d, parts, b, p1, p2, r, i);
    LaidOutUnion(parts, b, p1, p2, r, i);
    LaidOutKeeps(parts, b, p1, p2, r, i);
  }

  /**
   * Where each block of `r` comes from: the blocks before place `i` of
   * `parts`, the blocks after it, then `p1` and `p2`.
   */
  ghost predicate LaidOut(parts: seq<Block>, b: Block, p1: Block, p2: Block, r: seq<Block>, i: nat)
  {
    i < |parts| && parts[i] == b && |r| == |parts| + 1 &&
    (forall k :: 0 <= k < i ==> r[k] == parts[k]) &&
    (forall k :: i <= k < |parts| - 1 ==> r[k] == parts[k + 1]) &&
    r[|parts| - 1] == p1 && r[|parts|] == p2
  }

  lemma ReplaceLaidOut(parts: seq<Block>, b: Block, p1: Block, p2: Block)
    requires b in parts
    ensures LaidOut(parts, b, p1, p2, Replace(parts, b, p1, p2), IndexOf(parts, b))
  {
    var i := IndexOf(parts, b);
    var r := Replace(parts, b, p1, p2);
    assert Remove(parts, b) == parts[..i] + parts[i + 1..];
    assert r == parts[..i] + parts[i + 1..] + [p1, p2];
  }

  lemma LaidOutRefined(d: Dfa, parts: seq<Block>, b: Block, p1: Block, p2: Block, r: seq<Block>, i: nat)
    requires Refined(d, parts) && Pieces(b, p1, p2) && LaidOut(parts, b, p1, p2, r, i)
    ensures Refined(d, r)
  {
    var n := |parts| - 1;
    forall k, x | 0 <= k < |r| && x in r[k]
      ensures x in b <==> k >= n
      ensures k < i ==> x in parts[k]
      ensures i <= k < n ==> x in parts[k + 1]
    {
    }
    assert Partition(r);
  }

  lemma LaidOutUnion(parts: seq<Block>, b: Block, p1: Block, p2: Block, r: seq<Block>, i: nat)
    requires Pieces(b, p1, p2) && LaidOut(parts, b, p1, p2, r, i)
    ensures Union(r) == Union(parts)
  {
    var n := |parts| - 1;
    forall x | x in Union(parts) ensures x in Union(r) {
      var k :| 0 <= k < |parts| && x in parts[k];
      if k < i {
        assert x in r[k];
      } else if k == i {
        assert x in r[n] || x in r[n + 1];
      } else {
        assert x in r[k - 1];
      }
    }
    forall x | x in Union(r) ensures x in Union(parts) {
      var k :| 0 <= k < |r| && x in r[k];
      if k < i {
        assert x in parts[k];
      } else if k < n {
        assert x in parts[k + 1];
      } else {
        assert x in parts[i];
      }
    }
  }

  lemma LaidOutKeeps(parts: seq<Block>, b: Block, p1: Block, p2: Block, r: seq<Block>, i: nat)
    requires LaidOut(parts, b, p1, p2, r, i)
    ensures forall q :: q in parts && q != b ==> q in r
  {
    forall q | q in parts && q != b ensures q in r {
      var k :| 0 <= k < |parts| && parts[k] == q;
      if k < i {
        assert r[k] == q;
      } else {
        assert r[k - 1] == q;
      }
    }
  }

  /** The blocks still to be examined: blocks of the partition, each once. */
  ghost predicate Pending(parts: seq<Block>, queue: seq<Block>)
  {
    Distinct(queue) && forall b :: b in queue ==> b in parts
  }

  /**
   * The `while (partitionQueue.Count > 0)` loop of `Minimal`: dequeue a
   * block; skip it when it has at most one node; otherwise split it on the
   * first symbol that splits it, put both pieces in place of it and enqueue
   * them. A block found stable is not enqueued again.
   */
  function Refine(d: Dfa, symbols: seq<char>, parts: seq<Block>, queue: seq<Block>): (r: seq<Block>)
    requires Refined(d, parts) && Pending(parts, queue)
    ensures Refined(d, r) && Union(r) == Union(parts)
    decreases |Union(parts)| - |parts|, |queue|
  {
    if queue == [] then parts
    else
      var cur := queue[0];
      assert cur in parts && InNodes(d, [cur]);
      var s := if |cur| <= 1 then None else FirstSplit(d, parts, cur, symbols);
      if s.None? then
        Refine(d, symbols, parts, queue[1..])
      else
        var (p1, p2) := s.value;
        RefineStep(d, symbols, parts, queue, p1, p2);
        Refine(d, symbols, Replace(parts, cur, p1, p2), queue[1..] + [p1, p2])
  }

  /** After a split the refinement goes on with a larger partition of the same nodes. */
  lemma RefineStep(d: Dfa, symbols: seq<char>, parts: seq<Block>, queue: seq<Block>, p1: Block, p2: Block)
    requires Refined(d, parts) && Pending(parts, queue) && queue != [] && queue[0] in parts
    requires (forall x :: x in queue[0] ==> x < |d.nodes|) && FirstSplit(d, parts, queue[0], symbols) == Some((p1, p2))
    ensures Pieces(queue[0], p1, p2)
    ensures Refined(d, Replace(parts, queue[0], p1, p2)) && Union(Replace(parts, queue[0], p1, p2)) == Union(parts)
    ensures Pending(Replace(parts, queue[0], p1, p2), queue[1..] + [p1, p2])
    ensures 0 <= |Union(parts)| - |Replace(parts, queue[0], p1, p2)| < |Union(parts)| - |parts|
  {
    var cur := queue[0];
    var i := IndexOf(parts, cur);
    assert Distinct(cur);
    FirstSplitPieces(d, parts, cur, symbols, p1, p2);
    ReplacePieces(d, parts, cur, p1, p2);
    var r := Replace(parts, cur, p1, p2);
    PartsBound(r);
    forall b | b in queue[1..] ensures b != cur && b in parts && b != p1 && b != p2 {
      var k :| 1 <= k < |queue| && queue[k] == b;
      assert queue[0] != queue[k];
      var j := IndexOf(parts, b);
      assert j != i;
      assert p1[0] in cur && p2[0] in cur;
    }
    assert p1 != p2 by {
      assert p1[0] !in p2;
    }
    DistinctAppend(queue[1..], p1, p2);
  }

  /** `SplitPrtition(partition, symbol, all)`, with the `group` dictionary as a list of groups. */
  method SplitPartition(d: Dfa, parts: seq<Block>, block: Block, c: char) returns (r: Option<(Block, Block)>)
    requires forall x :: x in block ==> x < |d.nodes|
    ensures r == Split(d, parts, block, c)
  {
    var groups: seq<Group> := [];
    for i := 0 to |block|
      invariant forall x :: x in block[..i] ==> x in block
      invariant groups == Grouping(d, parts, c, block[..i])
    {
      var node := block[i];
      assert node in block;
      var target := Key(d, parts, c, node);
      var j := 0;
      while j < |groups| && !(target.Some? && groups[j].key == target)
        invariant 0 <= j <= |groups|
        invariant FindGroup(groups, target, j) == FindGroup(groups, target, 0)
      {
        j := j + 1;
      }
      assert block[..i + 1][..i] == block[..i];
      if j < |groups| {
        groups := groups[j := Group(target, groups[j].members + [node])];
      } else {
        groups := groups + [Group(target, [node])];
      }
    }
    assert block[..|block|] == block;
    if |groups| > 1 {
      var p1 := groups[Largest(groups)].members;
      r := Some((p1, Without(block, p1)));
    } else {
      r := None;
    }
  }

  /** The `while` loop of `Minimal` over the queue of blocks, with the `foreach` over the symbols. */
  method RefinePartition(d: Dfa, symbols: seq<char>, init: seq<Block>) returns (parts: seq<Block>)
    requires Refined(d, init) && Distinct(init)
    ensures parts == Refine(d, symbols, init, init)
  {
    parts := init;
    var queue := init;
    while queue != []
      invariant Refined(d, parts) && Pending(parts, queue)
      invariant Refine(d, symbols, parts, queue) == Refine(d, symbols, init, init)
      decreases |Union(parts)| - |parts|, |queue|
    {
      var current := queue[0];
      assert current in parts && InNodes(d, [current]);
      if |current| <= 1 {
        queue := queue[1..];
        continue;
      }
      var split: Option<(Block, Block)> := None;
      var j := 0;
      while split.None? && j < |symbols|
        invariant 0 <= j <= |symbols|
        invariant split.None? ==> FirstSplit(d, parts, current, symbols) == FirstSplit(d, parts, current, symbols[j..])
        invariant split.Some? ==> split == FirstSplit(d, parts, current, symbols)
      {
        split := SplitPartition(d, parts, current, symbols[j]);
        assert symbols[j..][1..] == symbols[j + 1..];
        j := j + 1;
      }
      if split.None? {
        queue := queue[1..];
      } else {
        var (p1, p2) := split.value;
        RefineStep(d, symbols, parts, queue, p1, p2);
        parts := Replace(parts, current, p1, p2);
        queue := queue[1..] + [p1, p2];
      }
    }
  }

  // ---------------------------------------------------------------------
  // The initial partition of Minimal

  /** The nodes of `xs` whose acceptance is `acc`, in order. */
  function Filter(d: Dfa, xs: seq<nat>, acc: bool): Block
    requires forall x :: x in xs ==> x < |d.nodes|
    decreases |xs|
  {
    if xs == [] then []
    else
      var n := |xs| - 1;
      assert xs[n] in xs && forall x :: x in xs[..n] ==> x in xs;
      var front := Filter(d, xs[..n], acc);
      if d.nodes[xs[n]].accepting == acc then front + [xs[n]] else front
  }

  /** `Filter` keeps exactly the nodes with acceptance `acc`, each once when `xs` lists it once. */
  lemma {:induction false} FilterSpec(d: Dfa, xs: seq<nat>, acc: bool)
    requires forall x :: x in xs ==> x < |d.nodes|
    ensures forall x :: x in Filter(d, xs, acc) <==> x in xs && d.nodes[x].accepting == acc
    ensures Distinct(xs) ==> Distinct(Filter(d, xs, acc))
    decreases |xs|
  {
    if xs != [] {
      var n := |xs| - 1;
      assert xs == xs[..n] + [xs[n]];
      assert xs[n] in xs && forall x :: x in xs[..n] ==> x in xs;
      FilterSpec(d, xs[..n], acc);
      if Distinct(xs) {
        assert Distinct(xs[..n]) && xs[n] !in xs[..n];
      }
    }
  }

  /** The accepting block, then the non-accepting block, each only when it is not empty. */
  function Initial(d: Dfa, order: seq<nat>): seq<Block>
    requires forall x :: x in order ==> x < |d.nodes|
  {
    var acc, non := Filter(d, order, true), Filter(d, order, false);
    (if acc != [] then [acc] else []) + (if non != [] then [non] else [])
  }

  /** The initial partition separates acceptance and covers exactly the listed nodes. */
  lemma InitialRefined(d: Dfa, order: seq<nat>)
    requires (forall x :: x in order ==> x < |d.nodes|) && Distinct(order)
    ensures Refined(d, Initial(d, order)) && Distinct(Initial(d, order))
    ensures forall x :: x in Union(Initial(d, order)) <==> x in order
    ensures |Initial(d, order)| <= 2
  {
    var acc, non := Filter(d, order, true), Filter(d, order, false);
    FilterSpec(d, order, true);
    FilterSpec(d, order, false);
    var init := Initial(d, order);
    if acc != [] && non != [] {
      assert init == [acc, non];
      assert acc != non by {
        assert acc[0] !in non;
      }
    }
    forall x | x in order ensures x in Union(init) {
      if d.nodes[x].accepting {
        assert x in init[0];
      } else {
        assert x in init[|init| - 1];
      }
    }
  }

  /** The `foreach` over `dfa.Nodes` that fills `accepting` and `noAccepting`. */
  method InitialPartition(d: Dfa, order: seq<nat>) returns (init: seq<Block>)
    requires forall x :: x in order ==> x < |d.nodes|
    ensures init == Initial(d, order)
  {
    var accepting, noAccepting := [], [];
    for i := 0 to |order|
      invariant forall x :: x in order[..i] ==> x in order
      invariant accepting == Filter(d, order[..i], true)
      invariant noAccepting == Filter(d, order[..i], false)
    {
      assert order[..i + 1][..i] == order[..i] && order[i] in order;
      if d.nodes[order[i]].accepting {
        accepting := accepting + [order[i]];
      } else {
        noAccepting := noAccepting + [order[i]];
      }
    }
    assert order[..|order|] == order;
    init := [];
    if |accepting| > 0 {
      init := init + [accepting];
    }
    if |noAccepting| > 0 {
      init := init + [noAccepting];
    }
  }

  // ---------------------------------------------------------------------
  // BuildMinimizedDFA: the quotient automaton

  /** `partition.Any(x => x.ISAcceptable)`. */
  function AnyAccepting(d: Dfa, b: Block): (r: bool)
    requires forall x :: x in b ==> x < |d.nodes|
    ensures r <==> exists x :: x in b && d.nodes[x].accepting
  {
    if b == [] then false
    else
      assert b[0] in b && forall x :: x in b[1..] ==> x in b;
      d.nodes[b[0]].accepting || AnyAccepting(d, b[1..])
  }

  /** The transitions of `trans` whose target `mapping` knows, redirected through `mapping`. */
  function MapThrough(trans: map<char, nat>, mapping: map<nat, nat>): map<char, nat>
  {
    map c | c in trans && trans[c] in mapping :: mapping[trans[c]]
  }

  /** `nodeMapping`: every node of a block is sent to the index of its block. */
  function Mapping(parts: seq<Block>): (m: map<nat, nat>)
    ensures forall x :: x in m <==> x in Union(parts)
    ensures forall x :: x in m ==> BlockIndex(parts, x) == Some(m[x])
  {
    map x | x in Union(parts) :: BlockIndex(parts, x).value
  }

  /**
   * The node made for block `i`: accepting iff some member is, with the
   * transitions of the block's first node mapped through `nodeMapping`.
   */
  function QuotientNode(d: Dfa, parts: seq<Block>, i: nat): DfaNode
    requires InNodes(d, parts) && i < |parts| && parts[i] != []
  {
    assert parts[i][0] in parts[i];
    DfaNode(AnyAccepting(d, parts[i]), MapThrough(d.nodes[parts[i][0]].trans, Mapping(parts)))
  }

  /** One node per block, numbered in partition order; the start is the block of the old start. */
  function Quotient(d: Dfa, parts: seq<Block>): (q: Dfa)
    requires Partition(parts) && InNodes(d, parts) && d.start in Union(parts)
    ensures Valid(q) && |q.nodes| == |parts|
    ensures forall i :: 0 <= i < |parts| ==> q.nodes[i] == QuotientNode(d, parts, i)
  {
    var q := Dfa(seq(|parts|, i requires 0 <= i < |parts| => QuotientNode(d, parts, i)), BlockIndex(parts, d.start).value);
    assert Closed(q.nodes) by {
      forall i, c | 0 <= i < |q.nodes| && c in q.nodes[i].trans ensures q.nodes[i].trans[c] < |q.nodes| {
        assert parts[i][0] in parts[i];
        var t := d.nodes[parts[i][0]].trans[c];
        assert BlockIndex(parts, t).Some?;
      }
    }
    q
  }

  /** `foreach (var trans in node.Transition)` copying each transition whose target `mapping` knows. */
  method MapTargets(trans: map<char, nat>, mapping: map<nat, nat>) returns (r: map<char, nat>)
    ensures r == MapThrough(trans, mapping)
  {
    r := map[];
    var rest := trans.Keys;
    while rest != {}
      invariant rest <= trans.Keys
      invariant forall c :: c in r <==> c in trans && c !in rest && trans[c] in mapping
      invariant forall c :: c in r ==> r[c] == mapping[trans[c]]
      decreases |rest|
    {
      var c :| c in rest;
      if trans[c] in mapping {
        r := r[c := mapping[trans[c]]];
      }
      rest := rest - {c};
    }
  }

  /** `foreach (var node in partition) nodeMapping[node] = newNode`. */
  method MapBlock(mapping: map<nat, nat>, b: Block, i: nat) returns (r: map<nat, nat>)
    ensures forall x :: x in r <==> x in mapping || x in b
    ensures forall x :: x in r ==> r[x] == if x in b then i else mapping[x]
  {
    r := mapping;
    for j := 0 to |b|
      invariant forall x :: x in r <==> x in mapping || x in b[..j]
      invariant forall x :: x in r ==> r[x] == if x in b[..j] then i else mapping[x]
    {
      assert b[..j + 1] == b[..j] + [b[j]];
      r := r[b[j] := i];
    }
    assert b[..|b|] == b;
  }

  lemma UnionSnoc(parts: seq<Block>, i: nat)
    requires i < |parts|
    ensures forall x :: x in Union(parts[..i + 1]) <==> x in Union(parts[..i]) || x in parts[i]
  {
    var front, next := parts[..i], parts[..i + 1];
    forall x | x in Union(next) ensures x in Union(front) || x in parts[i] {
      var k :| 0 <= k < |next| && x in next[k];
      if k < i {
        assert x in front[k];
      }
    }
    forall x | x in Union(front) ensures x in Union(next) {
      var k :| 0 <= k < |front| && x in front[k];
      assert x in next[k];
    }
    forall x | x in parts[i] ensures x in Union(next) {
      assert x in next[i];
    }
  }

  /** The first loop of `BuildMinimizedDFA`: a node per block, and `nodeMapping`. */
  method NewNodes(d: Dfa, parts: seq<Block>) returns (nodes: seq<DfaNode>, mapping: map<nat, nat>)
    requires Partition(parts) && InNodes(d, parts)
    ensures |nodes| == |parts|
    ensures forall k :: 0 <= k < |parts| ==> nodes[k] == DfaNode(AnyAccepting(d, parts[k]), map[])
    ensures forall x :: x in mapping <==> x in Union(parts)
    ensures forall x :: x in mapping ==> BlockIndex(parts, x) == Some(mapping[x])
  {
    mapping := map[];
    nodes := [];
    for i := 0 to |parts|
      invariant |nodes| == i
      invariant forall k :: 0 <= k < i ==> nodes[k] == DfaNode(AnyAccepting(d, parts[k]), map[])
      invariant forall x :: x in mapping <==> x in Union(parts[..i])
      invariant forall x :: x in mapping ==> BlockIndex(parts, x) == Some(mapping[x])
    {
      assert forall x :: x in parts[i] ==> x < |d.nodes|;
      nodes := nodes + [DfaNode(AnyAccepting(d, parts[i]), map[])];
      mapping := MapBlock(mapping, parts[i], i);
      UnionSnoc(parts, i);
      forall x | x in parts[i] ensures BlockIndex(parts, x) == Some(i) {
        BlockIndexUnique(parts, x, i);
      }
    }
    assert parts[..|parts|] == parts;
  }

  /**
   * The first two loops of `BuildMinimizedDFA`: a node per block with
   * `nodeMapping` sending each member to it, then each node's transitions
   * from its block's first node.
   */
  method BuildQuotient(d: Dfa, parts: seq<Block>) returns (q: Dfa)
    requires Partition(parts) && InNodes(d, parts) && d.start in Union(parts)
    ensures q == Quotient(d, parts)
  {
    var nodes, mapping := NewNodes(d, parts);
    MappingIs(parts, mapping);
    for i := 0 to |parts|
      invariant |nodes| == |parts|
      invariant forall k :: 0 <= k < i ==> nodes[k] == QuotientNode(d, parts, k)
      invariant forall k :: i <= k < |parts| ==> nodes[k] == DfaNode(AnyAccepting(d, parts[k]), map[])
    {
      assert parts[i][0] in parts[i];
      var trans := MapTargets(d.nodes[parts[i][0]].trans, mapping);
      nodes := nodes[i := nodes[i].(trans := trans)];
    }
    q := Dfa(nodes, mapping[d.start]);
    QuotientIs(d, parts, q);
  }

  /** A map with the keys and values of `Mapping(parts)` is that map. */
  lemma MappingIs(parts: seq<Block>, mapping: map<nat, nat>)
    requires forall x :: x in mapping <==> x in Union(parts)
    requires forall x :: x in mapping ==> BlockIndex(parts, x) == Some(mapping[x])
    ensures mapping == Mapping(parts)
  {
  }

  /** A DFA with the nodes of the quotient, started at the block of the start, is the quotient. */
  lemma QuotientIs(d: Dfa, parts: seq<Block>, q: Dfa)
    requires Partition(parts) && InNodes(d, parts) && d.start in Union(parts)
    requires |q.nodes| == |parts| && forall k :: 0 <= k < |parts| ==> q.nodes[k] == QuotientNode(d, parts, k)
    requires BlockIndex(parts, d.start) == Some(q.start)
    ensures q == Quotient(d, parts)
  {
    assert q.nodes == Quotient(d, parts).nodes;
  }

  // ---------------------------------------------------------------------
  // BuildMinimizedDFA: the dedup loop

  /** The listed nodes are within the arena. */
  ghost predicate Listed(q: Dfa, order: seq<nat>)
  {
    forall k :: 0 <= k < |order| ==> order[k] < |q.nodes|
  }

  /** The position of the first node of `keys` that `Comparer` deems equal to node `x`. */
  function FirstEqual(q: Dfa, insertion: seq<char>, keys: seq<nat>, x: nat): (r: Option<nat>)
    requires x < |q.nodes| && Listed(q, keys)
    ensures r.Some? ==> r.value < |keys| && SameKey(insertion, q.nodes[keys[r.value]], q.nodes[x])
    ensures r.None? ==> forall y :: y in keys ==> !SameKey(insertion, q.nodes[y], q.nodes[x])
  {
    if keys == [] then None
    else if SameKey(insertion, q.nodes[keys[0]], q.nodes[x]) then Some(0)
    else
      var r := FirstEqual(q, insertion, keys[1..], x);
      if r.Some? then Some(r.value + 1) else None
  }

  /** No equal node comes before the one `FirstEqual` finds. */
  lemma {:induction false} FirstEqualFirst(q: Dfa, insertion: seq<char>, keys: seq<nat>, x: nat, k: nat)
    requires x < |q.nodes| && Listed(q, keys) && k < |keys| && SameKey(insertion, q.nodes[keys[k]], q.nodes[x])
    ensures FirstEqual(q, insertion, keys, x).Some? && FirstEqual(q, insertion, keys, x).value <= k
  {
    if k > 0 && !SameKey(insertion, q.nodes[keys[0]], q.nodes[x]) {
      assert keys[1..][k - 1] == keys[k];
      FirstEqualFirst(q, insertion, keys[1..], x, k - 1);
    }
  }

  /** `dict2[x]`: the first listed node equal to `x`. */
  function Rep(q: Dfa, insertion: seq<char>, order: seq<nat>, x: nat): nat
    requires Listed(q, order) && x in order
  {
    SameKeyEquivalence(insertion, q.nodes[x], q.nodes[x], q.nodes[x]);
    var k :| 0 <= k < |order| && order[k] == x;
    FirstEqualFirst(q, insertion, order, x, k);
    order[FirstEqual(q, insertion, order, x).value]
  }

  /** Equal nodes have the same representative, an equal listed node that is its own representative. */
  lemma RepSpec(q: Dfa, insertion: seq<char>, order: seq<nat>, x: nat, y: nat)
    requires Listed(q, order) && x in order && y in order
    ensures Rep(q, insertion, order, x) in order && SameKey(insertion, q.nodes[Rep(q, insertion, order, x)], q.nodes[x])
    ensures Rep(q, insertion, order, Rep(q, insertion, order, x)) == Rep(q, insertion, order, x)
    ensures SameKey(insertion, q.nodes[x], q.nodes[y]) ==> Rep(q, insertion, order, x) == Rep(q, insertion, order, y)
  {
    RepIsKey(q, insertion, order, x);
    if SameKey(insertion, q.nodes[x], q.nodes[y]) {
      RepShared(q, insertion, order, x, y);
    }
  }

  /** The representative of `x` is a listed node of the same key, and its own representative. */
  lemma RepIsKey(q: Dfa, insertion: seq<char>, order: seq<nat>, x: nat)
    requires Listed(q, order) && x in order
    ensures Rep(q, insertion, order, x) in order && SameKey(insertion, q.nodes[Rep(q, insertion, order, x)], q.nodes[x])
    ensures Rep(q, insertion, order, Rep(q, insertion, order, x)) == Rep(q, insertion, order, x)
  {
    var i := FirstEqual(q, insertion, order, x).value;
    var r := order[i];
    assert r in order;
    var (nx, nr) := (q.nodes[x], q.nodes[r]);
    SameKeyEquivalence(insertion, nr, nr, nr);
    FirstEqualFirst(q, insertion, order, r, i);
    var j := FirstEqual(q, insertion, order, r).value;
    SameKeyEquivalence(insertion, q.nodes[order[j]], nr, nx);
    FirstEqualFirst(q, insertion, order, x, j);
  }

  /** Two listed nodes of the same key have the same representative. */
  lemma RepShared(q: Dfa, insertion: seq<char>, order: seq<nat>, x: nat, y: nat)
    requires Listed(q, order) && x in order && y in order
    requires SameKey(insertion, q.nodes[x], q.nodes[y])
    ensures Rep(q, insertion, order, x) == Rep(q, insertion, order, y)
  {
    var i := FirstEqual(q, insertion, order, x).value;
    var (nx, ny, nr) := (q.nodes[x], q.nodes[y], q.nodes[order[i]]);
    SameKeyEquivalence(insertion, nr, nx, ny);
    FirstEqualFirst(q, insertion, order, y, i);
    var k := FirstEqual(q, insertion, order, y).value;
    SameKeyEquivalence(insertion, q.nodes[order[k]], ny, nx);
    FirstEqualFirst(q, insertion, order, x, k);
  }

  /**
   * The state of the first loop of the dedup round after the first `i`
   * listed nodes: `keys` holds nodes that are their own representative,
   * among them the representative of every node met so far, and `dict2`
   * sends each node met so far to its representative.
   */
  ghost predicate Reps(q: Dfa, insertion: seq<char>, order: seq<nat>, i: nat, keys: seq<nat>, dict2: map<nat, nat>)
    requires Listed(q, order) && i <= |order|
  {
    (forall y :: y in keys ==> y in order && Rep(q, insertion, order, y) == y) &&
    (forall k :: 0 <= k < i ==> Rep(q, insertion, order, order[k]) in keys) &&
    (forall x :: x in dict2 ==> x in order) &&
    (forall k :: 0 <= k < i ==> order[k] in dict2 && dict2[order[k]] == Rep(q, insertion, order, order[k]))
  }

  /**
   * The first loop of the dedup round: `dict` keeps one node per class of
   * equal nodes, the first one met; `dict2` sends every listed node to it.
   */
  method Representatives(q: Dfa, insertion: seq<char>, order: seq<nat>) returns (dict2: map<nat, nat>)
    requires Listed(q, order)
    ensures forall x :: x in dict2 <==> x in order
    ensures forall x :: x in order ==> dict2[x] == Rep(q, insertion, order, x)
  {
    var keys: seq<nat> := [];
    dict2 := map[];
    for i := 0 to |order|
      invariant Reps(q, insertion, order, i, keys, dict2)
    {
      var x := order[i];
      RepsListed(q, insertion, order, i, keys, dict2);
      var found := FirstEqual(q, insertion, keys, x);
      if found.Some? {
        var k := keys[found.value];
        RepsFound(q, insertion, order, i, keys, dict2, k);
        dict2 := dict2[x := k];
      } else {
        RepsNew(q, insertion, order, i, keys, dict2);
        keys := keys + [x];
        dict2 := dict2[x := x];
      }
    }
  }

  lemma RepsListed(q: Dfa, insertion: seq<char>, order: seq<nat>, i: nat, keys: seq<nat>, dict2: map<nat, nat>)
    requires Listed(q, order) && i < |order| && Reps(q, insertion, order, i, keys, dict2)
    ensures Listed(q, keys) && order[i] < |q.nodes|
  {
    forall k | 0 <= k < |keys| ensures keys[k] < |q.nodes| {
      assert keys[k] in keys;
    }
  }

  lemma RepsFound(q: Dfa, insertion: seq<char>, order: seq<nat>, i: nat, keys: seq<nat>, dict2: map<nat, nat>, k: nat)
    requires Listed(q, order) && i < |order| && Reps(q, insertion, order, i, keys, dict2)
    requires k in keys && k < |q.nodes| && SameKey(insertion, q.nodes[k], q.nodes[order[i]])
    ensures Reps(q, insertion, order, i + 1, keys, dict2[order[i] := k])
  {
    var x := order[i];
    assert x in order && Rep(q, insertion, order, k) == k;
    RepSpec(q, insertion, order, k, x);
  }

  lemma RepsNew(q: Dfa, insertion: seq<char>, order: seq<nat>, i: nat, keys: seq<nat>, dict2: map<nat, nat>)
    requires Listed(q, order) && i < |order| && Reps(q, insertion, order, i, keys, dict2)
    requires forall y :: y in keys ==> y < |q.nodes| && !SameKey(insertion, q.nodes[y], q.nodes[order[i]])
    ensures Reps(q, insertion, order, i + 1, keys + [order[i]], dict2[order[i] := order[i]])
  {
    var x := order[i];
    assert x in order;
    RepSpec(q, insertion, order, x, x);
    var r := Rep(q, insertion, order, x);
    assert r !in keys;
    var k := RepFirst(q, insertion, order, i);
    assert k == i;
  }

  /** The representative of the `i`-th listed node is listed at position `k <= i`. */
  lemma RepFirst(q: Dfa, insertion: seq<char>, order: seq<nat>, i: nat) returns (k: nat)
    requires Listed(q, order) && i < |order|
    ensures k <= i && Rep(q, insertion, order, order[i]) == order[k]
  {
    var x := order[i];
    assert x in order;
    SameKeyEquivalence(insertion, q.nodes[x], q.nodes[x], q.nodes[x]);
    FirstEqualFirst(q, insertion, order, x, i);
    k := FirstEqual(q, insertion, order, x).value;
  }


  /** Every listed node sent to its representative. */
  ghost function RepMap(q: Dfa, insertion: seq<char>, order: seq<nat>): map<nat, nat>
    requires Listed(q, order)
  {
    map x | x in order :: Rep(q, insertion, order, x)
  }

  /** The automaton after the second loop of a dedup round: listed nodes' transitions redirected through `dict2`. */
  function Redirected(q: Dfa, order: seq<nat>, dict2: map<nat, nat>): (r: Dfa)
    ensures |r.nodes| == |q.nodes| && r.start == q.start
  {
    Dfa(seq(|q.nodes|, i requires 0 <= i < |q.nodes| =>
          if i in order then q.nodes[i].(trans := MapThrough(q.nodes[i].trans, dict2)) else q.nodes[i]),
        q.start)
  }

  /** `foreach (var node in nodeList) foreach (var i in node.Transition) node.Transition[i.Key] = dict2[i.Value]`. */
  method Redirect(q: Dfa, order: seq<nat>, dict2: map<nat, nat>) returns (r: Dfa)
    requires Listed(q, order) && Distinct(order)
    ensures r == Redirected(q, order, dict2)
  {
    var nodes := q.nodes;
    for i := 0 to |order|
      invariant |nodes| == |q.nodes|
      invariant forall k :: 0 <= k < |nodes| ==>
        nodes[k] == if k in order[..i] then q.nodes[k].(trans := MapThrough(q.nodes[k].trans, dict2)) else q.nodes[k]
    {
      var x := order[i];
      assert order[..i + 1] == order[..i] + [x];
      DistinctPrefix(order, i);
      var trans := MapTargets(nodes[x].trans, dict2);
      nodes := nodes[x := nodes[x].(trans := trans)];
    }
    assert order[..|order|] == order;
    r := Dfa(nodes, q.start);
  }

  /** `order` lists exactly the nodes reachable in `q`, without repetitions. */
  ghost predicate Lists(q: Dfa, order: seq<nat>)
    requires Valid(q)
  {
    Discovery(q, order) && forall x: nat :: x in order <==> x < |q.nodes| && Reachable(q, x)
  }

  /** Listed nodes have listed targets, and their representatives are listed too. */
  lemma ListedTargets(q: Dfa, insertion: seq<char>, order: seq<nat>)
    requires Valid(q) && Lists(q, order)
    ensures forall x, c :: x in order && c in q.nodes[x].trans ==>
      q.nodes[x].trans[c] in RepMap(q, insertion, order) && RepMap(q, insertion, order)[q.nodes[x].trans[c]] in order
  {
    forall x, c | x in order && c in q.nodes[x].trans
      ensures q.nodes[x].trans[c] in RepMap(q, insertion, order) && RepMap(q, insertion, order)[q.nodes[x].trans[c]] in order
    {
      ReachableTarget(q, x, c);
      RepSpec(q, insertion, order, q.nodes[x].trans[c], q.nodes[x].trans[c]);
    }
  }

  /** Redirecting transitions whose targets all have an image keeps their symbols and lands on the images. */
  lemma MapThroughTotal(trans: map<char, nat>, dict2: map<nat, nat>, s: set<nat>)
    requires forall c :: c in trans ==> trans[c] in dict2 && dict2[trans[c]] in s
    ensures MapThrough(trans, dict2).Keys == trans.Keys
    ensures forall c :: c in trans ==> MapThrough(trans, dict2)[c] in s
  {
  }

  /**
   * A dedup round keeps acceptance and the symbols of every node; the
   * rewritten automaton reaches only nodes the old one listed.
   */
  lemma RoundShrinks(q: Dfa, insertion: seq<char>, order: seq<nat>)
    requires Valid(q) && Lists(q, order)
    ensures Valid(Redirected(q, order, RepMap(q, insertion, order)))
    ensures forall i :: 0 <= i < |q.nodes| ==>
      Redirected(q, order, RepMap(q, insertion, order)).nodes[i].accepting == q.nodes[i].accepting &&
      Redirected(q, order, RepMap(q, insertion, order)).nodes[i].trans.Keys == q.nodes[i].trans.Keys
    ensures forall x: nat :: x < |q.nodes| && Reachable(Redirected(q, order, RepMap(q, insertion, order)), x) ==> x in order
  {
    var s := set x | x in order;
    RoundNodes(q, insertion, order, s);
    assert Run(q.nodes, q.start, []) == Some(q.start);
    ReachStaysIn(Redirected(q, order, RepMap(q, insertion, order)), s);
  }

  /** The rewrite keeps acceptance and symbols, and listed nodes lead to listed nodes. */
  lemma RoundNodes(q: Dfa, insertion: seq<char>, order: seq<nat>, s: set<nat>)
    requires Valid(q) && Lists(q, order) && s == set x | x in order
    ensures Closed(Redirected(q, order, RepMap(q, insertion, order)).nodes)
    ensures forall i :: 0 <= i < |q.nodes| ==>
      Redirected(q, order, RepMap(q, insertion, order)).nodes[i].accepting == q.nodes[i].accepting &&
      Redirected(q, order, RepMap(q, insertion, order)).nodes[i].trans.Keys == q.nodes[i].trans.Keys
    ensures forall x, c :: x in s && x < |q.nodes| && c in Redirected(q, order, RepMap(q, insertion, order)).nodes[x].trans ==>
      Redirected(q, order, RepMap(q, insertion, order)).nodes[x].trans[c] in s
  {
    var r := Redirected(q, order, RepMap(q, insertion, order));
    forall i | 0 <= i < |q.nodes|
      ensures r.nodes[i].accepting == q.nodes[i].accepting && r.nodes[i].trans.Keys == q.nodes[i].trans.Keys
      ensures i in s ==> forall c :: c in r.nodes[i].trans ==> r.nodes[i].trans[c] in s
      ensures forall c :: c in r.nodes[i].trans ==> r.nodes[i].trans[c] < |r.nodes|
    {
      RoundNode(q, insertion, order, s, i);
    }
  }

  /** The rewrite of one node. */
  lemma RoundNode(q: Dfa, insertion: seq<char>, order: seq<nat>, s: set<nat>, i: nat)
    requires Valid(q) && Lists(q, order) && s == (set x | x in order) && i < |q.nodes|
    ensures Redirected(q, order, RepMap(q, insertion, order)).nodes[i].accepting == q.nodes[i].accepting
    ensures Redirected(q, order, RepMap(q, insertion, order)).nodes[i].trans.Keys == q.nodes[i].trans.Keys
    ensures i in s ==> forall c :: c in Redirected(q, order, RepMap(q, insertion, order)).nodes[i].trans ==>
      Redirected(q, order, RepMap(q, insertion, order)).nodes[i].trans[c] in s
    ensures forall c :: c in Redirected(q, order, RepMap(q, insertion, order)).nodes[i].trans ==>
      Redirected(q, order, RepMap(q, insertion, order)).nodes[i].trans[c] < |q.nodes|
  {
    var dict2 := RepMap(q, insertion, order);
    var r := Redirected(q, order, dict2);
    if i in order {
      ListedTargets(q, insertion, order);
      MapThroughTotal(q.nodes[i].trans, dict2, s);
      assert r.nodes[i].trans == MapThrough(q.nodes[i].trans, dict2);
    } else {
      assert r.nodes[i] == q.nodes[i];
    }
  }

  /** Nothing outside a set closed under transitions is reachable from inside it. */
  lemma ReachStaysIn(r: Dfa, s: set<nat>)
    requires Valid(r) && r.start in s
    requires forall x, c :: x in s && x < |r.nodes| && c in r.nodes[x].trans ==> r.nodes[x].trans[c] in s
    ensures forall x: nat :: x < |r.nodes| && Reachable(r, x) ==> x in s
  {
    forall x: nat | x < |r.nodes| && Reachable(r, x) ensures x in s {
      var w :| Run(r.nodes, r.start, w) == Some(x);
      RunStaysIn(r.nodes, s, r.start, w);
    }
  }

  /** No two different nodes of `q` are one key of the dedup dictionary. */
  ghost predicate Distinguished(q: Dfa, insertion: seq<char>)
  {
    forall x, y :: 0 <= x < |q.nodes| && 0 <= y < |q.nodes| && x != y ==> !SameKey(insertion, q.nodes[x], q.nodes[y])
  }

  /** When no two nodes are one key, every listed node is its own representative and a round changes nothing. */
  lemma DistinguishedRound(q: Dfa, insertion: seq<char>, order: seq<nat>)
    requires Valid(q) && Lists(q, order) && Distinguished(q, insertion)
    ensures Redirected(q, order, RepMap(q, insertion, order)) == q
  {
    var dict2 := RepMap(q, insertion, order);
    ListedTargets(q, insertion, order);
    forall x | x in order ensures dict2[x] == x {
      RepSpec(q, insertion, order, x, x);
    }
    var r := Redirected(q, order, dict2);
    forall i | 0 <= i < |q.nodes| ensures r.nodes[i] == q.nodes[i] {
      if i in order {
        MapThroughIdentity(q.nodes[i].trans, dict2);
      }
    }
    assert r.nodes == q.nodes;
  }

  /** Redirecting through a map that fixes every target changes nothing. */
  lemma MapThroughIdentity(trans: map<char, nat>, dict2: map<nat, nat>)
    requires forall c :: c in trans ==> trans[c] in dict2 && dict2[trans[c]] == trans[c]
    ensures MapThrough(trans, dict2) == trans
  {
  }

  /** `m` came from `q` by dedup rounds: same start, acceptance and symbols, no new reachable node. */
  ghost predicate Shrunk(q: Dfa, m: Dfa)
    requires Valid(q)
  {
    Valid(m) && m.start == q.start && |m.nodes| == |q.nodes| &&
    (forall i :: 0 <= i < |q.nodes| ==>
      m.nodes[i].accepting == q.nodes[i].accepting && m.nodes[i].trans.Keys == q.nodes[i].trans.Keys) &&
    (forall x: nat :: x < |m.nodes| && Reachable(m, x) ==> Reachable(q, x))
  }

  /** One round of the dedup loop, with `newDFA.Nodes` listed afresh. */
  method DedupRound(ghost q: Dfa, insertion: seq<char>, m: Dfa, nodeList: seq<nat>) returns (next: Dfa, nextList: seq<nat>)
    requires Valid(q) && Shrunk(q, m) && Lists(m, nodeList)
    ensures next == Redirected(m, nodeList, RepMap(m, insertion, nodeList))
    ensures Shrunk(q, next) && Lists(next, nextList)
    ensures forall x :: x in nextList ==> x in nodeList
  {
    var dict2 := Representatives(m, insertion, nodeList);
    assert dict2 == RepMap(m, insertion, nodeList);
    next := Redirect(m, nodeList, dict2);
    ShrunkRound(q, insertion, m, nodeList);
    nextList := Nodes(next);
    ListedWithin(q, insertion, m, nodeList, nextList);
  }

  /** The nodes listed after a dedup round were listed before it. */
  lemma ListedWithin(q: Dfa, insertion: seq<char>, m: Dfa, nodeList: seq<nat>, nextList: seq<nat>)
    requires Valid(q) && Shrunk(q, m) && Lists(m, nodeList)
    requires Valid(Redirected(m, nodeList, RepMap(m, insertion, nodeList)))
    requires Lists(Redirected(m, nodeList, RepMap(m, insertion, nodeList)), nextList)
    ensures forall x :: x in nextList ==> x in nodeList
  {
    RoundShrinks(m, insertion, nodeList);
  }

  /** A dedup round keeps the automaton shrunk with respect to `q`. */
  lemma ShrunkRound(q: Dfa, insertion: seq<char>, m: Dfa, nodeList: seq<nat>)
    requires Valid(q) && Shrunk(q, m) && Lists(m, nodeList)
    ensures Shrunk(q, Redirected(m, nodeList, RepMap(m, insertion, nodeList)))
  {
    RoundShrinks(m, insertion, nodeList);
    var r := Redirected(m, nodeList, RepMap(m, insertion, nodeList));
    forall x: nat | x < |r.nodes| && Reachable(r, x) ensures Reachable(q, x) {
      assert x in nodeList;
      assert Reachable(m, x);
    }
  }

  /**
   * The `do { ... } while (true)` loop of `BuildMinimizedDFA`: list the
   * reachable nodes, send each to its first equal listed node, redirect the
   * listed nodes' transitions, and stop once every listed node is still
   * reachable. `prev` and `last` are the automaton and the list of the final
   * round.
   */
  method Dedup(q: Dfa, insertion: seq<char>) returns (m: Dfa, ghost prev: Dfa, ghost last: seq<nat>)
    requires Valid(q)
    ensures Shrunk(q, m)
    ensures Distinguished(q, insertion) ==> m == q
    ensures Valid(prev) && Lists(prev, last) && m == Redirected(prev, last, RepMap(prev, insertion, last))
    ensures forall x: nat :: x in last <==> x < |m.nodes| && Reachable(m, x)
  {
    m := q;
    var nodeList := Nodes(m);
    while true
      invariant Shrunk(q, m) && Lists(m, nodeList)
      invariant Distinguished(q, insertion) ==> m == q
      decreases |nodeList|
    {
      var next, nextList := DedupRound(q, insertion, m, nodeList);
      if Distinguished(q, insertion) {
        DistinguishedRound(m, insertion, nodeList);
      }
      if forall x :: x in nodeList ==> x in nextList {
        prev, last := m, nodeList;
        m := next;
        break;
      }
      var y :| y in nodeList && y !in nextList;
      DistinctShorter(nextList, nodeList, y);
      m, nodeList := next, nextList;
    }
  }

  /**
   * `BuildMinimizedDFA(dfa, partitions)`: the quotient `q` by the partition,
   * then the dedup loop; `prev` and `last` are those of its final round.
   */
  method BuildMinimizedDFA(d: Dfa, insertion: seq<char>, parts: seq<Block>) returns (m: Dfa, ghost q: Dfa, ghost prev: Dfa, ghost last: seq<nat>)
    requires Partition(parts) && InNodes(d, parts) && d.start in Union(parts)
    ensures q == Quotient(d, parts)
    ensures Shrunk(q, m) && (Distinguished(q, insertion) ==> m == q)
    ensures Valid(prev) && Lists(prev, last) && m == Redirected(prev, last, RepMap(prev, insertion, last))
    ensures forall x: nat :: x in last <==> x < |m.nodes| && Reachable(m, x)
  {
    var quotient := BuildQuotient(d, parts);
    q := quotient;
    m, prev, last := Dedup(quotient, insertion);
  }

  /**
   * `Minimal(dfa)`: the initial partition of the reachable nodes by
   * acceptance, the refinement over an enumeration `symbols` of the
   * alphabet, and the automaton built from the final partition `parts`.
   */
  method Minimal(d: Dfa, insertion: seq<char>) returns (m: Dfa, ghost order: seq<nat>, ghost symbols: seq<char>, ghost parts: seq<Block>)
    requires Valid(d)
    ensures Lists(d, order) && BreadthFirst(d, order) && Distinct(symbols)
    ensures forall c :: c in symbols <==> exists x: nat :: x < |d.nodes| && Reachable(d, x) && c in d.nodes[x].trans
    ensures Refined(d, Initial(d, order)) && Pending(Initial(d, order), Initial(d, order))
    ensures parts == Refine(d, symbols, Initial(d, order), Initial(d, order))
    ensures Refined(d, parts) && forall x: nat :: x in Union(parts) <==> x < |d.nodes| && Reachable(d, x)
    ensures Shrunk(Quotient(d, parts), m)
    ensures Distinguished(Quotient(d, parts), insertion) ==> m == Quotient(d, parts)
  {
    var nodes := Nodes(d);
    order := nodes;
    var init := InitialPartition(d, nodes);
    InitialRefined(d, nodes);
    var alphabet := DfaAlphabet(d);
    var syms := Enumerate(alphabet);
    symbols := syms;
    var partitions := RefinePartition(d, syms, init);
    parts := partitions;
    assert Run(d.nodes, d.start, []) == Some(d.start);
    ghost var q, prev, last;
    m, q, prev, last := BuildMinimizedDFA(d, insertion, partitions);
  }

  // ---------------------------------------------------------------------
  // A stable refinement, and the language of the quotient

  /** No symbol splits `b` any more. */
  ghost predicate Stable(d: Dfa, parts: seq<Block>, b: Block, symbols: seq<char>)
    requires forall x :: x in b ==> x < |d.nodes|
  {
    |b| <= 1 || FirstSplit(d, parts, b, symbols).None?
  }

  /** Every block outside the queue is stable. */
  ghost predicate StableOutside(d: Dfa, symbols: seq<char>, parts: seq<Block>, queue: seq<Block>)
    requires InNodes(d, parts)
  {
    forall i :: 0 <= i < |parts| && parts[i] !in queue ==> Stable(d, parts, parts[i], symbols)
  }

  /**
   * The refinement with every block of the new partition enqueued again
   * after a split, so that a block found stable is rechecked against the
   * smaller blocks its targets now lie in.
   */
  function RefineStable(d: Dfa, symbols: seq<char>, parts: seq<Block>, queue: seq<Block>): (r: seq<Block>)
    requires Refined(d, parts) && Pending(parts, queue) && StableOutside(d, symbols, parts, queue)
    ensures Refined(d, r) && Union(r) == Union(parts)
    ensures forall i :: 0 <= i < |r| ==> Stable(d, r, r[i], symbols)
    decreases |Union(parts)| - |parts|, |queue|
  {
    if queue == [] then parts
    else
      var cur := queue[0];
      assert cur in parts && InNodes(d, [cur]);
      var s := if |cur| <= 1 then None else FirstSplit(d, parts, cur, symbols);
      if s.None? then
        assert StableOutside(d, symbols, parts, queue[1..]) by {
          forall i | 0 <= i < |parts| && parts[i] !in queue[1..] ensures Stable(d, parts, parts[i], symbols) {
            if parts[i] != cur {
              assert parts[i] !in queue;
            }
          }
        }
        RefineStable(d, symbols, parts, queue[1..])
      else
        var (p1, p2) := s.value;
        RefineStep(d, symbols, parts, queue, p1, p2);
        var next := Replace(parts, cur, p1, p2);
        assert Distinct(next) by {
          PartitionDistinct(next);
        }
        RefineStable(d, symbols, next, next)
  }

  /** The blocks of a partition are different values. */
  lemma PartitionDistinct(parts: seq<Block>)
    requires Partition(parts)
    ensures Distinct(parts)
  {
    forall i, j | 0 <= i < j < |parts| ensures parts[i] != parts[j] {
      assert parts[i][0] in parts[i];
    }
  }

  /**
   * A refined partition that no symbol of `symbols` splits, whose nodes'
   * transitions stay inside it and use only symbols of `symbols`.
   */
  ghost predicate Congruence(d: Dfa, parts: seq<Block>, symbols: seq<char>)
  {
    Refined(d, parts) &&
    (forall i, x, c :: 0 <= i < |parts| && x in parts[i] && c in d.nodes[x].trans ==>
      c in symbols && d.nodes[x].trans[c] in Union(parts)) &&
    (forall i :: 0 <= i < |parts| ==> Stable(d, parts, parts[i], symbols))
  }

  /** The quotient node of block `i` has the transitions of its first node, sent to their blocks. */
  lemma QuotientTrans(d: Dfa, parts: seq<Block>, i: nat, c: char)
    requires Partition(parts) && InNodes(d, parts) && d.start in Union(parts) && i < |parts|
    ensures parts[i][0] < |d.nodes|
    ensures c in Quotient(d, parts).nodes[i].trans <==>
      c in d.nodes[parts[i][0]].trans && d.nodes[parts[i][0]].trans[c] in Union(parts)
    ensures c in Quotient(d, parts).nodes[i].trans ==>
      Some(Quotient(d, parts).nodes[i].trans[c]) == BlockIndex(parts, d.nodes[parts[i][0]].trans[c])
  {
    assert parts[i][0] in parts[i];
  }

  /** One step of the quotient follows one step of every member of the block. */
  lemma QuotientStep(d: Dfa, parts: seq<Block>, symbols: seq<char>, i: nat, x: nat, c: char)
    requires Congruence(d, parts, symbols) && d.start in Union(parts) && i < |parts| && x in parts[i]
    ensures c in Quotient(d, parts).nodes[i].trans <==> c in d.nodes[x].trans
    ensures c in d.nodes[x].trans ==> d.nodes[x].trans[c] in parts[Quotient(d, parts).nodes[i].trans[c]]
  {
    var b := parts[i];
    var r := b[0];
    assert r in b;
    QuotientTrans(d, parts, i, c);
    if |b| >= 2 && (c in d.nodes[x].trans || c in d.nodes[r].trans) {
      assert c in symbols && Distinct(b);
      FirstSplitNone(d, parts, b, symbols);
      assert Key(d, parts, c, x) == Key(d, parts, c, r) && Key(d, parts, c, x).Some?;
    } else if |b| < 2 {
      assert b == [r];
    }
  }

  /** The quotient's run from block `i` follows the run from any member `x`, block by block. */
  lemma {:induction false} QuotientRun(d: Dfa, parts: seq<Block>, symbols: seq<char>, i: nat, x: nat, w: string)
    requires Valid(d) && Congruence(d, parts, symbols) && d.start in Union(parts) && i < |parts| && x in parts[i]
    ensures x < |d.nodes|
    ensures Run(Quotient(d, parts).nodes, i, w).Some? <==> Run(d.nodes, x, w).Some?
    ensures Run(d.nodes, x, w).Some? ==> Run(d.nodes, x, w).value in parts[Run(Quotient(d, parts).nodes, i, w).value]
    decreases |w|
  {
    if w != [] {
      var q := Quotient(d, parts);
      QuotientStep(d, parts, symbols, i, x, w[0]);
      if w[0] in d.nodes[x].trans {
        QuotientRun(d, parts, symbols, q.nodes[i].trans[w[0]], d.nodes[x].trans[w[0]], w[1..]);
      }
    }
  }

  /** The quotient by a congruence accepts exactly the words the automaton accepts. */
  lemma QuotientLanguage(d: Dfa, parts: seq<Block>, symbols: seq<char>)
    requires Valid(d) && Congruence(d, parts, symbols) && d.start in Union(parts)
    ensures forall w :: Accepts(Quotient(d, parts), w) <==> Accepts(d, w)
  {
    var q := Quotient(d, parts);
    var i := BlockIndex(parts, d.start).value;
    forall w ensures Accepts(q, w) <==> Accepts(d, w) {
      QuotientRun(d, parts, symbols, i, d.start, w);
      if Run(d.nodes, d.start, w).Some? {
        var j, y := Run(q.nodes, i, w).value, Run(d.nodes, d.start, w).value;
        assert q.nodes[j].accepting == AnyAccepting(d, parts[j]);
      }
    }
  }

  /**
   * With the stable refinement in place of `Refine`, the quotient of the
   * reachable part accepts exactly the words the automaton accepts.
   */
  lemma StableQuotientLanguage(d: Dfa, order: seq<nat>, symbols: seq<char>)
    requires Valid(d) && Lists(d, order)
    requires forall c :: c in symbols <==> exists x: nat :: x < |d.nodes| && Reachable(d, x) && c in d.nodes[x].trans
    ensures Refined(d, Initial(d, order)) && Pending(Initial(d, order), Initial(d, order))
    ensures StableOutside(d, symbols, Initial(d, order), Initial(d, order))
    ensures d.start in Union(RefineStable(d, symbols, Initial(d, order), Initial(d, order)))
    ensures forall w ::
      Accepts(Quotient(d, RefineStable(d, symbols, Initial(d, order), Initial(d, order))), w) <==> Accepts(d, w)
  {
    InitialRefined(d, order);
    var init := Initial(d, order);
    var parts := RefineStable(d, symbols, init, init);
    assert order[0] == d.start;
    forall i, x, c | 0 <= i < |parts| && x in parts[i] && c in d.nodes[x].trans
      ensures c in symbols && d.nodes[x].trans[c] in Union(parts)
    {
      assert x in Union(parts);
      ReachableTarget(d, x, c);
    }
    assert Congruence(d, parts, symbols);
    QuotientLanguage(d, parts, symbols);
  }

  // ---------------------------------------------------------------------
  // A block found stable too early

  /**
   * A lasso on 'a': 0 → 1 → 2 → 3 → 4 → 5 → 3, accepting 0, 2 and 5; it
   * accepts the empty word and the words of 2, 5, 8, ... letters.
   */
  function Lasso(): Dfa
  {
    Dfa([DfaNode(true, map['a' := 1]), DfaNode(false, map['a' := 2]), DfaNode(true, map['a' := 3]),
         DfaNode(false, map['a' := 4]), DfaNode(false, map['a' := 5]), DfaNode(true, map['a' := 3])], 0)
  }

  /** Every node of the lasso is reachable, by a word of `a`s as long as its number. */
  lemma LassoReachable()
    ensures Valid(Lasso())
    ensures forall x: nat :: x < |Lasso().nodes| ==> Reachable(Lasso(), x)
  {
    var d := Lasso();
    assert Valid(d);
    var words := ["", "a", "aa", "aaa", "aaaa", "aaaaa"];
    forall x: nat | x < |d.nodes| ensures Reachable(d, x) {
      assert Run(d.nodes, 0, words[x]) == Some(x);
    }
  }

  /** `dfa.Nodes` of the lasso is 0, 1, ..., 5. */
  lemma LassoNodes()
    ensures Valid(Lasso()) && Lists(Lasso(), [0, 1, 2, 3, 4, 5])
  {
    var d := Lasso();
    var order := [0, 1, 2, 3, 4, 5];
    LassoReachable();
    forall k | 0 < k < |order| ensures FoundFrom(d, order, k) {
      var j := k - 1;
      assert d.nodes[order[j]].trans['a'] == order[k];
      assert order[k] in Targets(d.nodes[order[j]]);
    }
  }

  /** The alphabet of the lasso is {'a'}. */
  lemma LassoAlphabet()
    ensures forall c :: c in ['a'] <==> exists x: nat :: x < |Lasso().nodes| && Reachable(Lasso(), x) && c in Lasso().nodes[x].trans
  {
    var d := Lasso();
    LassoReachable();
    forall x: nat, c | x < |d.nodes| && c in d.nodes[x].trans ensures c == 'a' {
    }
    assert Reachable(d, 0) && 'a' in d.nodes[0].trans;
  }

  /** The acceptance pattern of the lasso's nodes. */
  ghost predicate LassoShape(d: Dfa)
  {
    |d.nodes| == 6 && d.nodes[0].accepting && !d.nodes[1].accepting && d.nodes[2].accepting &&
    !d.nodes[3].accepting && !d.nodes[4].accepting && d.nodes[5].accepting
  }

  /** The accepting and the non-accepting nodes of a DFA shaped like the lasso, in node order. */
  lemma LassoBlocks(d: Dfa)
    requires LassoShape(d)
    ensures Filter(d, [0, 1, 2, 3, 4, 5], true) == [0, 2, 5]
    ensures Filter(d, [0, 1, 2, 3, 4, 5], false) == [1, 3, 4]
  {
    var o := [0, 1, 2, 3, 4, 5];
    assert o[..5][..4] == o[..4] && o[..4][..3] == o[..3] && o[..3][..2] == o[..2] && o[..2][..1] == o[..1] && o[..6] == o;
    assert Filter(d, o[..1], true) == [0] && Filter(d, o[..1], false) == [];
    assert Filter(d, o[..2], true) == [0] && Filter(d, o[..2], false) == [1];
    assert Filter(d, o[..3], true) == [0, 2] && Filter(d, o[..3], false) == [1];
    assert Filter(d, o[..4], true) == [0, 2] && Filter(d, o[..4], false) == [1, 3];
    assert Filter(d, o[..5], true) == [0, 2] && Filter(d, o[..5], false) == [1, 3, 4];
  }

  /** The initial partition of the lasso: accepting {0, 2, 5}, non-accepting {1, 3, 4}. */
  lemma LassoInitial()
    ensures Initial(Lasso(), [0, 1, 2, 3, 4, 5]) == [[0, 2, 5], [1, 3, 4]]
    ensures Refined(Lasso(), [[0, 2, 5], [1, 3, 4]])
  {
    LassoBlocks(Lasso());
    InitialRefined(Lasso(), [0, 1, 2, 3, 4, 5]);
  }

  /** The groups of two nodes. */
  lemma GroupingPair(d: Dfa, parts: seq<Block>, c: char, x: nat, y: nat)
    requires x < |d.nodes| && y < |d.nodes| && Key(d, parts, c, x).Some?
    ensures Key(d, parts, c, y) == Key(d, parts, c, x) ==>
      Grouping(d, parts, c, [x, y]) == [Group(Key(d, parts, c, x), [x, y])]
    ensures Key(d, parts, c, y) != Key(d, parts, c, x) ==>
      Grouping(d, parts, c, [x, y]) == [Group(Key(d, parts, c, x), [x]), Group(Key(d, parts, c, y), [y])]
  {
    var kx, ky := Key(d, parts, c, x), Key(d, parts, c, y);
    assert [x, y][..1] == [x] && [x][..0] == [];
    assert Grouping(d, parts, c, [x]) == Join([], kx, x) == [Group(kx, [x])];
    assert Grouping(d, parts, c, [x, y]) == Join([Group(kx, [x])], ky, y);
    if ky == kx {
      assert FindGroup([Group(kx, [x])], ky, 0) == Some(0);
      assert [x] + [y] == [x, y];
      assert Join([Group(kx, [x])], ky, y) == [Group(kx, [x])][0 := Group(ky, [x] + [y])] == [Group(kx, [x, y])];
    } else {
      assert FindGroup([Group(kx, [x])], ky, 1) == None;
      assert FindGroup([Group(kx, [x])], ky, 0) == None;
    }
  }

  /** The groups of three nodes whose first and last share a key. */
  lemma GroupingTriple(d: Dfa, parts: seq<Block>, c: char, x: nat, y: nat, z: nat)
    requires x < |d.nodes| && y < |d.nodes| && z < |d.nodes| && Key(d, parts, c, x).Some?
    requires Key(d, parts, c, z) == Key(d, parts, c, x) && Key(d, parts, c, y).Some?
    ensures Key(d, parts, c, y) == Key(d, parts, c, x) ==>
      Grouping(d, parts, c, [x, y, z]) == [Group(Key(d, parts, c, x), [x, y, z])]
    ensures Key(d, parts, c, y) != Key(d, parts, c, x) ==>
      Grouping(d, parts, c, [x, y, z]) == [Group(Key(d, parts, c, x), [x, z]), Group(Key(d, parts, c, y), [y])]
  {
    var kx, ky := Key(d, parts, c, x), Key(d, parts, c, y);
    assert [x, y, z][..2] == [x, y];
    GroupingPair(d, parts, c, x, y);
    var g := Grouping(d, parts, c, [x, y]);
    assert Grouping(d, parts, c, [x, y, z]) == Join(g, kx, z);
    assert FindGroup(g, kx, 0) == Some(0);
    if ky == kx {
      assert [x, y] + [z] == [x, y, z];
    } else {
      assert [x] + [z] == [x, z];
    }
  }

  /** The groups of three nodes whose first two differ in key: at least two. */
  lemma GroupingTripleApart(d: Dfa, parts: seq<Block>, c: char, x: nat, y: nat, z: nat)
    requires x < |d.nodes| && y < |d.nodes| && z < |d.nodes| && Key(d, parts, c, x).Some?
    requires Key(d, parts, c, y) != Key(d, parts, c, x)
    ensures |Grouping(d, parts, c, [x, y, z])| >= 2
  {
    assert [x, y, z][..2] == [x, y];
    GroupingPair(d, parts, c, x, y);
  }

  /** The `a`-keys of the lasso's nodes in the initial partition. */
  lemma LassoKeysInitial()
    ensures Key(Lasso(), [[0, 2, 5], [1, 3, 4]], 'a', 0) == Some(1)
    ensures Key(Lasso(), [[0, 2, 5], [1, 3, 4]], 'a', 2) == Some(1)
    ensures Key(Lasso(), [[0, 2, 5], [1, 3, 4]], 'a', 5) == Some(1)
    ensures Key(Lasso(), [[0, 2, 5], [1, 3, 4]], 'a', 1) == Some(0)
    ensures Key(Lasso(), [[0, 2, 5], [1, 3, 4]], 'a', 3) == Some(1)
    ensures Key(Lasso(), [[0, 2, 5], [1, 3, 4]], 'a', 4) == Some(0)
  {
  }

  /** The `a`-keys of the lasso's nodes after the first split. */
  lemma LassoKeysSplit()
    ensures Key(Lasso(), [[0, 2, 5], [1, 4], [3]], 'a', 0) == Some(1)
    ensures Key(Lasso(), [[0, 2, 5], [1, 4], [3]], 'a', 2) == Some(2)
    ensures Key(Lasso(), [[0, 2, 5], [1, 4], [3]], 'a', 1) == Some(0)
    ensures Key(Lasso(), [[0, 2, 5], [1, 4], [3]], 'a', 4) == Some(0)
  {
  }

  /** {0, 2, 5} does not split on `a` in the initial partition of the lasso. */
  lemma LassoAcceptingStays()
    ensures FirstSplit(Lasso(), [[0, 2, 5], [1, 3, 4]], [0, 2, 5], ['a']).None?
  {
    LassoKeysInitial();
    GroupingTriple(Lasso(), [[0, 2, 5], [1, 3, 4]], 'a', 0, 2, 5);
  }

  /** {1, 3, 4} splits on `a` in the initial partition of the lasso into {1, 4} and {3}. */
  lemma LassoRejectingSplits()
    ensures FirstSplit(Lasso(), [[0, 2, 5], [1, 3, 4]], [1, 3, 4], ['a']) == Some(([1, 4], [3]))
  {
    LassoKeysInitial();
    GroupingTriple(Lasso(), [[0, 2, 5], [1, 3, 4]], 'a', 1, 3, 4);
    var g := [Group(Some(0), [1, 4]), Group(Some(1), [3])];
    assert Largest(g) == 0;
    assert Without([1, 3, 4], [1, 4]) == [3];
  }

  /** {1, 4} does not split on `a` in the partition {0, 2, 5}, {1, 4}, {3}, but {0, 2, 5} would. */
  lemma LassoSecondRound()
    ensures FirstSplit(Lasso(), [[0, 2, 5], [1, 4], [3]], [1, 4], ['a']).None?
    ensures !Stable(Lasso(), [[0, 2, 5], [1, 4], [3]], [0, 2, 5], ['a'])
  {
    LassoKeysSplit();
    GroupingPair(Lasso(), [[0, 2, 5], [1, 4], [3]], 'a', 1, 4);
    GroupingTripleApart(Lasso(), [[0, 2, 5], [1, 4], [3]], 'a', 0, 2, 5);
  }

  /** A dequeued block that does not split is dropped from the queue. */
  lemma RefineSkip(d: Dfa, symbols: seq<char>, parts: seq<Block>, queue: seq<Block>)
    requires Refined(d, parts) && Pending(parts, queue) && queue != [] && (forall x :: x in queue[0] ==> x < |d.nodes|)
    requires |queue[0]| <= 1 || FirstSplit(d, parts, queue[0], symbols).None?
    ensures Pending(parts, queue[1..])
    ensures Refine(d, symbols, parts, queue) == Refine(d, symbols, parts, queue[1..])
  {
  }

  /** A dequeued block that splits is replaced by its pieces, which are enqueued. */
  lemma RefineSplits(d: Dfa, symbols: seq<char>, parts: seq<Block>, queue: seq<Block>, p1: Block, p2: Block)
    requires Refined(d, parts) && Pending(parts, queue) && queue != [] && (forall x :: x in queue[0] ==> x < |d.nodes|)
    requires |queue[0]| > 1 && FirstSplit(d, parts, queue[0], symbols) == Some((p1, p2))
    ensures Refined(d, Replace(parts, queue[0], p1, p2)) && Pending(Replace(parts, queue[0], p1, p2), queue[1..] + [p1, p2])
    ensures Refine(d, symbols, parts, queue) == Refine(d, symbols, Replace(parts, queue[0], p1, p2), queue[1..] + [p1, p2])
  {
    assert queue[0] in parts;
    RefineStep(d, symbols, parts, queue, p1, p2);
  }

  /** The first round on the lasso: {0, 2, 5} does not split. */
  lemma LassoRoundOne()
    ensures Refined(Lasso(), [[0, 2, 5], [1, 3, 4]]) && Pending([[0, 2, 5], [1, 3, 4]], [[0, 2, 5], [1, 3, 4]])
    ensures Pending([[0, 2, 5], [1, 3, 4]], [[1, 3, 4]])
    ensures Refine(Lasso(), ['a'], [[0, 2, 5], [1, 3, 4]], [[0, 2, 5], [1, 3, 4]]) ==
            Refine(Lasso(), ['a'], [[0, 2, 5], [1, 3, 4]], [[1, 3, 4]])
  {
    var A: Block, N: Block := [0, 2, 5], [1, 3, 4];
    var p0: seq<Block> := [A, N];
    LassoInitial();
    assert A != N && Distinct(p0);
    LassoAcceptingStays();
    RefineSkip(Lasso(), ['a'], p0, p0);
    assert p0[1..] == [N];
  }

  /** The second round on the lasso: {1, 3, 4} splits into {1, 4} and {3}. */
  lemma LassoRoundTwo()
    requires Refined(Lasso(), [[0, 2, 5], [1, 3, 4]]) && Pending([[0, 2, 5], [1, 3, 4]], [[1, 3, 4]])
    ensures Refined(Lasso(), [[0, 2, 5], [1, 4], [3]]) && Pending([[0, 2, 5], [1, 4], [3]], [[1, 4], [3]])
    ensures Refine(Lasso(), ['a'], [[0, 2, 5], [1, 3, 4]], [[1, 3, 4]]) ==
            Refine(Lasso(), ['a'], [[0, 2, 5], [1, 4], [3]], [[1, 4], [3]])
  {
    var A: Block, N: Block, B: Block, C: Block := [0, 2, 5], [1, 3, 4], [1, 4], [3];
    var p0: seq<Block>, q1: seq<Block> := [A, N], [N];
    LassoRejectingSplits();
    RefineSplits(Lasso(), ['a'], p0, q1, B, C);
    ReplaceSecond(A, N, B, C);
    assert q1[1..] + [B, C] == [B, C];
  }

  /** Replacing the second of two different blocks. */
  lemma ReplaceSecond(a: Block, b: Block, p1: Block, p2: Block)
    requires a != b
    ensures Replace([a, b], b, p1, p2) == [a, p1, p2]
  {
    var parts := [a, b];
    assert IndexOf(parts, b) == 1;
    assert parts[..1] + parts[2..] == [a];
  }

  /** The last two rounds on the lasso: neither {1, 4} nor {3} splits. */
  lemma LassoRefineLast()
    requires Refined(Lasso(), [[0, 2, 5], [1, 4], [3]]) && Pending([[0, 2, 5], [1, 4], [3]], [[1, 4], [3]])
    ensures Refine(Lasso(), ['a'], [[0, 2, 5], [1, 4], [3]], [[1, 4], [3]]) == [[0, 2, 5], [1, 4], [3]]
  {
    var d, sym := Lasso(), ['a'];
    var B: Block, C: Block := [1, 4], [3];
    var p1: seq<Block> := [[0, 2, 5], B, C];
    var q2: seq<Block>, q3: seq<Block> := [B, C], [C];
    LassoSecondRound();
    RefineSkip(d, sym, p1, q2);
    assert q2[1..] == q3;
    RefineSkip(d, sym, p1, q3);
    assert q3[1..] == [];
  }

  /**
   * The refinement loop of `Minimal` on the lasso: {0, 2, 5} is examined
   * and found stable; {1, 3, 4} splits into {1, 4} and {3}, which are
   * examined and found stable; {0, 2, 5} is never examined again.
   */
  lemma LassoRefine()
    ensures Refined(Lasso(), [[0, 2, 5], [1, 3, 4]]) && Pending([[0, 2, 5], [1, 3, 4]], [[0, 2, 5], [1, 3, 4]])
    ensures Refine(Lasso(), ['a'], [[0, 2, 5], [1, 3, 4]], [[0, 2, 5], [1, 3, 4]]) == [[0, 2, 5], [1, 4], [3]]
  {
    LassoRoundOne();
    LassoRoundTwo();
    LassoRefineLast();
  }

  /** The lasso's final partition is a partition of its nodes. */
  lemma LassoPartition()
    ensures Partition([[0, 2, 5], [1, 4], [3]]) && InNodes(Lasso(), [[0, 2, 5], [1, 4], [3]])
    ensures 0 in Union([[0, 2, 5], [1, 4], [3]])
  {
    var p1: seq<Block> := [[0, 2, 5], [1, 4], [3]];
    assert 0 in p1[0];
  }

  /** `nodeMapping` for the lasso's final partition. */
  lemma LassoMapping()
    ensures var m := Mapping([[0, 2, 5], [1, 4], [3]]);
      0 in m && 2 in m && 5 in m && 1 in m && 4 in m && 3 in m &&
      m[0] == 0 && m[2] == 0 && m[5] == 0 && m[1] == 1 && m[4] == 1 && m[3] == 2
  {
    var p1: seq<Block> := [[0, 2, 5], [1, 4], [3]];
    LassoPartition();
    assert 0 in p1[0] && 2 in p1[0] && 5 in p1[0] && 1 in p1[1] && 4 in p1[1] && 3 in p1[2];
    LassoUnion();
    BlockIndexUnique(p1, 0, 0);
    BlockIndexUnique(p1, 2, 0);
    BlockIndexUnique(p1, 5, 0);
    BlockIndexUnique(p1, 1, 1);
    BlockIndexUnique(p1, 4, 1);
    BlockIndexUnique(p1, 3, 2);
  }

  /** The nodes of the lasso's final partition. */
  lemma LassoUnion()
    ensures Union([[0, 2, 5], [1, 4], [3]]) == {0, 1, 2, 3, 4, 5}
  {
    var p1: seq<Block> := [[0, 2, 5], [1, 4], [3]];
    assert 0 in p1[0] && 2 in p1[0] && 5 in p1[0] && 1 in p1[1] && 4 in p1[1] && 3 in p1[2];
    forall x | x in Union(p1) ensures x in {0, 1, 2, 3, 4, 5} {
      var i :| 0 <= i < |p1| && x in p1[i];
    }
  }

  /** Redirecting a single transition. */
  lemma MapThroughOne(c: char, t: nat, mapping: map<nat, nat>)
    requires t in mapping
    ensures MapThrough(map[c := t], mapping) == map[c := mapping[t]]
  {
  }

  /** The nodes made for the blocks {0, 2, 5} and {1, 4} of the lasso's final partition. */
  lemma LassoQuotientNodes()
    ensures InNodes(Lasso(), [[0, 2, 5], [1, 4], [3]])
    ensures QuotientNode(Lasso(), [[0, 2, 5], [1, 4], [3]], 0) == DfaNode(true, map['a' := 1])
    ensures QuotientNode(Lasso(), [[0, 2, 5], [1, 4], [3]], 1) == DfaNode(false, map['a' := 0])
    ensures QuotientNode(Lasso(), [[0, 2, 5], [1, 4], [3]], 2) == DfaNode(false, map['a' := 1])
  {
    LassoPartition();
    LassoMapping();
    LassoQuotientZero();
    LassoQuotientOne();
    LassoQuotientTwo();
  }

  /** The merged node of {0, 2, 5} accepts and goes to the merged node of {1, 4}. */
  lemma LassoQuotientZero()
    requires InNodes(Lasso(), [[0, 2, 5], [1, 4], [3]])
    requires var m := Mapping([[0, 2, 5], [1, 4], [3]]); 1 in m && 2 in m && m[1] == 1 && m[2] == 0
    ensures QuotientNode(Lasso(), [[0, 2, 5], [1, 4], [3]], 0) == DfaNode(true, map['a' := 1])
  {
    var d, p1 := Lasso(), [[0, 2, 5], [1, 4], [3]];
    MapThroughOne('a', 1, Mapping(p1));
    assert d.nodes[0].trans == map['a' := 1];
    assert 0 in p1[0] && d.nodes[0].accepting;
  }

  /** The merged node of {1, 4} rejects and goes to the merged node of {0, 2, 5}. */
  lemma LassoQuotientOne()
    requires InNodes(Lasso(), [[0, 2, 5], [1, 4], [3]])
    requires var m := Mapping([[0, 2, 5], [1, 4], [3]]); 1 in m && 2 in m && m[1] == 1 && m[2] == 0
    ensures QuotientNode(Lasso(), [[0, 2, 5], [1, 4], [3]], 1) == DfaNode(false, map['a' := 0])
  {
    var d, p1 := Lasso(), [[0, 2, 5], [1, 4], [3]];
    MapThroughOne('a', 2, Mapping(p1));
    assert d.nodes[1].trans == map['a' := 2];
    assert forall x :: x in p1[1] ==> x == 1 || x == 4;
  }

  /** The merged node of {3} rejects and goes to the merged node of {1, 4}. */
  lemma LassoQuotientTwo()
    requires InNodes(Lasso(), [[0, 2, 5], [1, 4], [3]])
    requires var m := Mapping([[0, 2, 5], [1, 4], [3]]); 4 in m && m[4] == 1
    ensures QuotientNode(Lasso(), [[0, 2, 5], [1, 4], [3]], 2) == DfaNode(false, map['a' := 1])
  {
    var d, p1 := Lasso(), [[0, 2, 5], [1, 4], [3]];
    MapThroughOne('a', 4, Mapping(p1));
    assert d.nodes[3].trans == map['a' := 4];
    assert forall x :: x in p1[2] ==> x == 3;
  }

  /**
   * No two nodes of the quotient of the lasso are `Equals`: only the node
   * of {0, 2, 5} accepts, and those of {1, 4} and {3} go to different
   * nodes. So, whatever the hash codes, the dedup of `BuildMinimizedDFA`
   * leaves this quotient as it is.
   */
  lemma LassoQuotientDistinguished(insertion: seq<char>)
    ensures Partition([[0, 2, 5], [1, 4], [3]]) && InNodes(Lasso(), [[0, 2, 5], [1, 4], [3]]) && 0 in Union([[0, 2, 5], [1, 4], [3]])
    ensures Distinguished(Quotient(Lasso(), [[0, 2, 5], [1, 4], [3]]), insertion)
  {
    LassoPartition();
    LassoQuotientNodes();
    LassoUnion();
    var q := Quotient(Lasso(), [[0, 2, 5], [1, 4], [3]]);
    ThreeNodesDistinguished(q, insertion);
  }

  /** The three nodes of the lasso's quotient differ in acceptance or in their targets. */
  lemma ThreeNodesDistinguished(q: Dfa, insertion: seq<char>)
    requires |q.nodes| == 3
    requires q.nodes[0] == DfaNode(true, map['a' := 1])
    requires q.nodes[1] == DfaNode(false, map['a' := 0])
    requires q.nodes[2] == DfaNode(false, map['a' := 1])
    ensures Distinguished(q, insertion)
  {
    assert 0 in Targets(q.nodes[1]) && 0 !in Targets(q.nodes[2]) by {
      assert q.nodes[1].trans['a'] == 0 && q.nodes[2].trans.Values == {1};
    }
  }

  /** The lasso rejects `aaaa`: it ends in node 4. */
  lemma LassoRejects()
    ensures Valid(Lasso()) && !Accepts(Lasso(), "aaaa")
  {
    LassoReachable();
    assert Run(Lasso().nodes, 0, "aaaa") == Some(4);
  }

  /**
   * The automaton built from the lasso's final partition accepts `aaaa`
   * (block {0, 2, 5}, then {1, 4}, and back, twice) while the lasso does
   * not (node 4 is not accepting).
   */
  lemma LassoQuotientDiffers()
    ensures Partition([[0, 2, 5], [1, 4], [3]]) && InNodes(Lasso(), [[0, 2, 5], [1, 4], [3]])
    ensures 0 in Union([[0, 2, 5], [1, 4], [3]])
    ensures Accepts(Quotient(Lasso(), [[0, 2, 5], [1, 4], [3]]), "aaaa")
    ensures Valid(Lasso()) && !Accepts(Lasso(), "aaaa")
  {
    var d, p1 := Lasso(), [[0, 2, 5], [1, 4], [3]];
    LassoPartition();
    LassoQuotientNodes();
    LassoRejects();
    var q := Quotient(d, p1);
    assert q.nodes[0] == DfaNode(true, map['a' := 1]) && q.nodes[1] == DfaNode(false, map['a' := 0]);
    assert q.start == 0 by {
      BlockIndexUnique(p1, 0, 0);
    }
    assert Run(q.nodes, 0, "aaaa") == Some(0);
  }

  /** Each of the lasso's first five nodes leads to the next one only. */
  lemma LassoTargets(j: nat)
    requires j < 5
    ensures Targets(Lasso().nodes[j]) == {j + 1}
  {
    var m := Lasso().nodes[j].trans;
    assert m == map['a' := j + 1];
    assert m.Values == {j + 1} by {
      assert m['a'] == j + 1;
    }
  }

  /** The lasso's nodes can be discovered in one order only: a node's first target is the next node. */
  lemma {:induction false} LassoOrderPrefix(order: seq<nat>, k: nat)
    requires Valid(Lasso()) && Discovery(Lasso(), order) && k < |order| && |order| <= 6
    ensures forall i :: 0 <= i <= k ==> order[i] == i
  {
    var d := Lasso();
    if k > 0 {
      LassoOrderPrefix(order, k - 1);
      assert FoundFrom(d, order, k);
      var j :| 0 <= j < k && order[k] in Targets(d.nodes[order[j]]);
      assert order[j] == j;
      LassoTargets(j);
      assert order[k] == j + 1;
      DistinctAt(order, j + 1, k);
    }
  }

  /** A listing of the lasso's reachable nodes has six entries. */
  lemma LassoOrderLength(order: seq<nat>)
    requires Valid(Lasso()) && Lists(Lasso(), order)
    ensures |order| == 6
  {
    LassoReachable();
    assert Elems(order) == Below(6) by {
      forall x: nat | x < 6 ensures x in order {
      }
    }
    DistinctCard(order);
  }

  /** Every listing of the lasso's reachable nodes is 0, 1, ..., 5. */
  lemma LassoOrderUnique(order: seq<nat>)
    requires Valid(Lasso()) && Lists(Lasso(), order)
    ensures order == [0, 1, 2, 3, 4, 5]
  {
    LassoOrderLength(order);
    LassoOrderPrefix(order, 5);
    IdentityPrefix(order);
  }

  /** Six entries, each its own position. */
  lemma IdentityPrefix(order: seq<nat>)
    requires |order| == 6 && forall i :: 0 <= i <= 5 ==> order[i] == i
    ensures order == [0, 1, 2, 3, 4, 5]
  {
  }

  /** Two entries of a repetition-free sequence differ. */
  lemma DistinctAt<T>(xs: seq<T>, i: nat, j: nat)
    requires Distinct(xs) && j < |xs|
    ensures i < j ==> xs[i] != xs[j]
  {
  }

  /** A repetition-free sequence holding exactly the symbol `a` is `[a]`. */
  lemma OnlySymbol(symbols: seq<char>, a: char)
    requires Distinct(symbols) && forall c :: c in symbols <==> c == a
    ensures symbols == [a]
  {
    assert a in symbols;
    forall i | 0 <= i < |symbols| ensures symbols[i] == a {
      assert symbols[i] in symbols;
    }
    FirstTwoDiffer(symbols);
  }

  /** The first two entries of a repetition-free sequence differ. */
  lemma FirstTwoDiffer<T>(xs: seq<T>)
    requires Distinct(xs)
    ensures |xs| >= 2 ==> xs[0] != xs[1]
  {
  }

  /**
   * `Minimal` as written is wrong. On the lasso, whatever node listing and
   * alphabet enumeration it uses (there is one of each), the refinement
   * ends with the partition {0, 2, 5}, {1, 4}, {3}: block {0, 2, 5} is not
   * stable, and the quotient by the partition accepts `aaaa`, which the
   * lasso rejects. No two nodes of that quotient share a dictionary key, so
   * by the contract of `Minimal` the dedup returns it unchanged.
   */
  lemma MinimalCounterexample(order: seq<nat>, symbols: seq<char>)
    requires Valid(Lasso()) && Lists(Lasso(), order) && Distinct(symbols)
    requires forall c :: c in symbols <==> exists x: nat :: x < |Lasso().nodes| && Reachable(Lasso(), x) && c in Lasso().nodes[x].trans
    ensures Refined(Lasso(), Initial(Lasso(), order)) && Pending(Initial(Lasso(), order), Initial(Lasso(), order))
    ensures Refine(Lasso(), symbols, Initial(Lasso(), order), Initial(Lasso(), order)) == [[0, 2, 5], [1, 4], [3]]
    ensures Partition([[0, 2, 5], [1, 4], [3]]) && InNodes(Lasso(), [[0, 2, 5], [1, 4], [3]])
    ensures 0 in Union([[0, 2, 5], [1, 4], [3]])
    ensures Accepts(Quotient(Lasso(), [[0, 2, 5], [1, 4], [3]]), "aaaa") && !Accepts(Lasso(), "aaaa")
    ensures !Stable(Lasso(), [[0, 2, 5], [1, 4], [3]], [0, 2, 5], symbols)
    ensures forall insertion :: Distinguished(Quotient(Lasso(), [[0, 2, 5], [1, 4], [3]]), insertion)
  {
    LassoOrderUnique(order);
    LassoAlphabet();
    OnlySymbol(symbols, 'a');
    LassoInitial();
    LassoRefine();
    LassoQuotientDiffers();
    LassoSecondRound();
    forall insertion ensures Distinguished(Quotient(Lasso(), [[0, 2, 5], [1, 4], [3]]), insertion) {
      LassoQuotientDistinguished(insertion);
    }
  }
}
