/**
 * LINQ's `GroupBy` over a sequence of keys, as used by `MergeStates`: the
 * indices of equal keys, one group per distinct key, the groups in the order
 * in which their keys first occur and each group's members in ascending
 * order.
 */
module Grouping {

  /** The first group whose first member has key `k`, or `|g|` when there is none. */
  function FindGroup<K(==)>(keys: seq<K>, g: seq<seq<nat>>, k: K): nat
  {
    if g == [] then 0
    else if g[0] != [] && g[0][0] < |keys| && keys[g[0][0]] == k then 0
    else 1 + FindGroup(keys, g[1..], k)
  }

  /** `keys.Select((k, i) => i).GroupBy(i => keys[i])`. */
  function GroupBy<K(==)>(keys: seq<K>): seq<seq<nat>>
  {
    if keys == [] then []
    else
      var n := |keys| - 1;
      var g := GroupBy(keys[..n]);
      var i := FindGroup(keys, g, keys[n]);
      if i < |g| then g[i := g[i] + [n]] else g + [[n]]
  }

  /** The first index holding `k` (`|keys|` when none does). */
  function FirstWith<K(==)>(keys: seq<K>, k: K): (r: nat)
    ensures r <= |keys| && (r < |keys| ==> keys[r] == k)
    ensures forall j :: 0 <= j < r ==> keys[j] != k
  {
    if keys == [] then 0
    else if keys[0] == k then 0
    else 1 + FirstWith(keys[1..], k)
  }

  /** The groups are non-empty and hold indices of `keys` with the key of their first member. */
  ghost predicate Members<K>(keys: seq<K>, g: seq<seq<nat>>)
  {
    (forall i :: 0 <= i < |g| ==> g[i] != [] && g[i][0] < |keys|) &&
    forall i, a :: 0 <= i < |g| && 0 <= a < |g[i]| ==> g[i][a] < |keys| && keys[g[i][a]] == keys[g[i][0]]
  }

  /** The members of each group ascend, and the groups ascend by first member. */
  ghost predicate Ordered(g: seq<seq<nat>>)
  {
    (forall i, a, b :: 0 <= i < |g| && 0 <= a < b < |g[i]| ==> g[i][a] < g[i][b]) &&
    forall i, j :: 0 <= i < j < |g| && g[i] != [] && g[j] != [] ==> g[i][0] < g[j][0]
  }

  /** Different groups have different keys. */
  ghost predicate Separated<K>(keys: seq<K>, g: seq<seq<nat>>)
    requires Members(keys, g)
  {
    forall i, j :: 0 <= i < j < |g| ==> keys[g[i][0]] != keys[g[j][0]]
  }

  /** Index `t` occurs in some group. */
  ghost predicate Covered(g: seq<seq<nat>>, t: nat)
  {
    exists i, a :: 0 <= i < |g| && 0 <= a < |g[i]| && g[i][a] == t
  }

  /** A grouping of `keys`: every index is in a group, with equal keys, ordered and separated. */
  ghost predicate Grouped<K>(keys: seq<K>, g: seq<seq<nat>>)
  {
    Members(keys, g) && Ordered(g) && Separated(keys, g) &&
    forall t :: 0 <= t < |keys| ==> Covered(g, t)
  }

  /** `FindGroup` finds the group of key `k`, if any. */
  lemma {:induction false} FindGroupSpec<K>(keys: seq<K>, g: seq<seq<nat>>, k: K)
    requires Members(keys, g)
    ensures FindGroup(keys, g, k) <= |g|
    ensures FindGroup(keys, g, k) < |g| ==> keys[g[FindGroup(keys, g, k)][0]] == k
    ensures FindGroup(keys, g, k) == |g| ==> forall i :: 0 <= i < |g| ==> keys[g[i][0]] != k
    decreases |g|
  {
    if g != [] && !(keys[g[0][0]] == k) {
      var h := g[1..];
      assert Members(keys, h) by {
        forall i, a | 0 <= i < |h| && 0 <= a < |h[i]|
          ensures h[i][a] < |keys| && keys[h[i][a]] == keys[h[i][0]]
        {
          assert h[i] == g[i + 1];
        }
      }
      FindGroupSpec(keys, h, k);
      forall i | 0 <= i < |g| ensures keys[g[i][0]] != k || FindGroup(keys, g, k) < |g| {
        if i > 0 {
          assert g[i] == h[i - 1];
        }
      }
    }
  }

  /** A grouping of a prefix is still made of indices with their keys in the whole sequence. */
  lemma PrefixMembers<K>(keys: seq<K>, n: nat, g: seq<seq<nat>>)
    requires n <= |keys| && Members(keys[..n], g)
    ensures Members(keys, g)
    ensures forall i, a :: 0 <= i < |g| && 0 <= a < |g[i]| ==> g[i][a] < n
  {
    forall i, a | 0 <= i < |g| && 0 <= a < |g[i]|
      ensures g[i][a] < n && keys[g[i][a]] == keys[g[i][0]]
    {
      assert keys[..n][g[i][a]] == keys[..n][g[i][0]];
    }
  }

  /** `GroupBy` is a grouping. */
  lemma {:induction false} GroupBySpec<K>(keys: seq<K>)
    ensures Grouped(keys, GroupBy(keys))
  {
    if keys != [] {
      var n := |keys| - 1;
      var g := GroupBy(keys[..n]);
      GroupBySpec(keys[..n]);
      PrefixMembers(keys, n, g);
      FindGroupSpec(keys, g, keys[n]);
      SeparatedPrefix(keys, n, g);
      var i := FindGroup(keys, g, keys[n]);
      if i < |g| {
        JoinGroup(keys, g, i);
      } else {
        NewGroup(keys, g);
      }
    }
  }

  /** The key test of a prefix's grouping carries over to the whole sequence. */
  lemma SeparatedPrefix<K>(keys: seq<K>, n: nat, g: seq<seq<nat>>)
    requires n < |keys| && Grouped(keys[..n], g) && Members(keys, g)
    ensures Separated(keys, g)
    ensures forall t :: 0 <= t < n ==> Covered(g, t)
  {
    forall i, j | 0 <= i < j < |g| ensures keys[g[i][0]] != keys[g[j][0]] {
      assert keys[..n][g[i][0]] != keys[..n][g[j][0]];
    }
  }

  /** The last index joins the group `i` of its key. */
  lemma JoinGroup<K>(keys: seq<K>, g: seq<seq<nat>>, i: nat)
    requires keys != [] && i < |g|
    requires Members(keys, g) && Ordered(g) && Separated(keys, g)
    requires forall j, a :: 0 <= j < |g| && 0 <= a < |g[j]| ==> g[j][a] < |keys| - 1
    requires forall t :: 0 <= t < |keys| - 1 ==> Covered(g, t)
    requires keys[g[i][0]] == keys[|keys| - 1]
    ensures Grouped(keys, g[i := g[i] + [|keys| - 1]])
  {
    var n := |keys| - 1;
    var h := g[i := g[i] + [n]];
    assert forall j :: 0 <= j < |h| && j != i ==> h[j] == g[j];
    assert h[i][0] == g[i][0];
    forall t | 0 <= t < |keys| ensures Covered(h, t) {
      if t == n {
        assert h[i][|g[i]|] == n;
      } else {
        assert Covered(g, t);
        var j, a :| 0 <= j < |g| && 0 <= a < |g[j]| && g[j][a] == t;
        assert h[j][a] == t;
      }
    }
  }

  /** The last index starts a new group. */
  lemma NewGroup<K>(keys: seq<K>, g: seq<seq<nat>>)
    requires keys != []
    requires Members(keys, g) && Ordered(g) && Separated(keys, g)
    requires forall j, a :: 0 <= j < |g| && 0 <= a < |g[j]| ==> g[j][a] < |keys| - 1
    requires forall t :: 0 <= t < |keys| - 1 ==> Covered(g, t)
    requires forall j :: 0 <= j < |g| ==> keys[g[j][0]] != keys[|keys| - 1]
    ensures Grouped(keys, g + [[|keys| - 1]])
  {
    var n := |keys| - 1;
    var h := g + [[n]];
    assert forall j :: 0 <= j < |g| ==> h[j] == g[j];
    forall t | 0 <= t < |keys| ensures Covered(h, t) {
      if t == n {
        assert h[|g|][0] == n;
      } else {
        assert Covered(g, t);
        var j, a :| 0 <= j < |g| && 0 <= a < |g[j]| && g[j][a] == t;
        assert h[j][a] == t;
      }
    }
  }

  /** In a grouping, the first member of every group is the first index with its key. */
  lemma GroupHead<K>(keys: seq<K>, g: seq<seq<nat>>, i: nat, a: nat)
    requires Grouped(keys, g) && i < |g| && a < |g[i]|
    ensures FirstWith(keys, keys[g[i][a]]) == g[i][0]
  {
    var k := keys[g[i][0]];
    var f := FirstWith(keys, k);
    assert f <= g[i][0] < |keys|;
    assert Covered(g, f);
    var j, b :| 0 <= j < |g| && 0 <= b < |g[j]| && g[j][b] == f;
    SameKey(keys, g, i, j);
    assert g[j][0] <= g[j][b];
  }

  /** Groups with the same key are the same group. */
  lemma SameKey<K>(keys: seq<K>, g: seq<seq<nat>>, i: nat, j: nat)
    requires Grouped(keys, g) && i < |g| && j < |g|
    requires keys[g[i][0]] == keys[g[j][0]]
    ensures i == j
  {
  }

  /** Every index lies in exactly one group, at a single place. */
  lemma GroupUnique<K>(keys: seq<K>, g: seq<seq<nat>>, i: nat, a: nat, j: nat, b: nat)
    requires Grouped(keys, g) && i < |g| && a < |g[i]| && j < |g| && b < |g[j]|
    ensures g[i][a] == g[j][b] ==> i == j && a == b
  {
    if g[i][a] == g[j][b] {
      assert keys[g[i][0]] == keys[g[j][0]];
      SameKey(keys, g, i, j);
    }
  }
}
