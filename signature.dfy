/**
 * `GetKernelSignature` and `GetStateSignature`: the items of a state as
 * (sentence id, dot, lookahead name) triples, ordered by sentence id and
 * then dot with LINQ's stable `OrderBy(..).ThenBy(..)`. The two C# methods
 * differ only in the separators of the string they join the triples
 * into. The model compares the triple sequences instead of the strings.
 * This is an abstraction: a terminal's name is `type + "," + data`, so a
 * name can hold a separator, and two different sequences could print as
 * the same string, which the model does not capture.
 */
module Signatures {
  import opened LrItems

  /** One item's part of a signature. */
  type Entry = (nat, nat, string)

  /** The sort key: sentence id, then dot. */
  function Key(e: Entry): (int, int)
  {
    (e.0, e.1)
  }

  /** `OrderBy(sentence id).ThenBy(dot)` order. */
  predicate KeyLe(a: Entry, b: Entry)
  {
    a.0 < b.0 || (a.0 == b.0 && a.1 <= b.1)
  }

  function EntryOf(x: LrItem): Entry
  {
    (x.sentence.id, x.dot, x.lookahead.name)
  }

  function Entries(items: seq<LrItem>): (r: seq<Entry>)
    ensures |r| == |items| && forall k :: 0 <= k < |items| ==> r[k] == EntryOf(items[k])
  {
    if items == [] then [] else Entries(items[..|items| - 1]) + [EntryOf(items[|items| - 1])]
  }

  /** Insert `e` after every element whose key is not larger: stable insertion. */
  function Insert(s: seq<Entry>, e: Entry): seq<Entry>
    decreases |s|
  {
    if s == [] then [e]
    else if KeyLe(s[|s| - 1], e) then s + [e]
    else Insert(s[..|s| - 1], e) + [s[|s| - 1]]
  }

  /** A stable sort by `Key`: insertion of each element in turn. */
  function SortByKey(xs: seq<Entry>): seq<Entry>
  {
    if xs == [] then [] else Insert(SortByKey(xs[..|xs| - 1]), xs[|xs| - 1])
  }

  /** The signature of an item list. */
  function Signature(items: seq<LrItem>): seq<Entry>
  {
    SortByKey(Entries(items))
  }

  ghost predicate Sorted(s: seq<Entry>)
  {
    forall i, j :: 0 <= i < j < |s| ==> KeyLe(s[i], s[j])
  }

  /** The entries with key `k`, in order. */
  function WithKey(s: seq<Entry>, k: (int, int)): seq<Entry>
  {
    if s == [] then []
    else WithKey(s[..|s| - 1], k) + if Key(s[|s| - 1]) == k then [s[|s| - 1]] else []
  }

  lemma {:induction false} WithKeyAppend(s: seq<Entry>, t: seq<Entry>, k: (int, int))
    ensures WithKey(s + t, k) == WithKey(s, k) + WithKey(t, k)
    decreases |t|
  {
    if t == [] {
      assert s + t == s;
    } else {
      var n := |t| - 1;
      assert (s + t)[..|s + t| - 1] == s + t[..n];
      WithKeyAppend(s, t[..n], k);
    }
  }

  lemma WithKeyOne(e: Entry, k: (int, int))
    ensures WithKey([e], k) == if Key(e) == k then [e] else []
  {
    assert [e][..0] == [];
  }

  /** Inserting into a sorted sequence keeps it sorted. */
  lemma {:induction false} InsertSorted(s: seq<Entry>, e: Entry)
    requires Sorted(s)
    ensures Sorted(Insert(s, e))
    decreases |s|
  {
    if s != [] {
      var n := |s| - 1;
      var last := s[n];
      if KeyLe(last, e) {
        SortedSnoc(s, e);
      } else {
        InsertSorted(s[..n], e);
        var t := Insert(s[..n], e);
        InsertPermutes(s[..n], e);
        forall x | x in t ensures KeyLe(x, last) {
          assert x in multiset(t);
          if x != e {
            assert x in multiset(s[..n]);
          }
        }
        SortedSnoc(t, last);
      }
    }
  }

  /** Inserting adds exactly `e`. */
  lemma {:induction false} InsertPermutes(s: seq<Entry>, e: Entry)
    ensures multiset(Insert(s, e)) == multiset(s) + multiset{e}
    decreases |s|
  {
    if s != [] {
      var n := |s| - 1;
      assert s == s[..n] + [s[n]];
      if !KeyLe(s[n], e) {
        InsertPermutes(s[..n], e);
      }
    }
  }

  /** An entry not below any entry of a sorted sequence may follow it. */
  lemma SortedSnoc(t: seq<Entry>, e: Entry)
    requires Sorted(t)
    requires (forall x :: x in t ==> KeyLe(x, e)) || (t != [] && KeyLe(t[|t| - 1], e))
    ensures Sorted(t + [e])
  {
    var u := t + [e];
    forall i, j | 0 <= i < j < |u| ensures KeyLe(u[i], u[j]) {
      if j == |t| {
        assert u[i] == t[i] && t[i] in t;
        if t != [] && KeyLe(t[|t| - 1], e) && i < |t| - 1 {
          assert KeyLe(t[i], t[|t| - 1]);
        }
      } else {
        assert u[i] == t[i] && u[j] == t[j];
      }
    }
  }

  /** Inserting keeps, key by key, the order: `e` comes after the entries with its key. */
  lemma {:induction false} InsertStable(s: seq<Entry>, e: Entry, k: (int, int))
    ensures WithKey(Insert(s, e), k) == WithKey(s, k) + WithKey([e], k)
    decreases |s|
  {
    if s == [] {
      assert [] + [e] == [e];
    } else {
      var n := |s| - 1;
      var last := s[n];
      if KeyLe(last, e) {
        WithKeyAppend(s, [e], k);
      } else {
        InsertStable(s[..n], e, k);
        WithKeyAppend(Insert(s[..n], e), [last], k);
        WithKeyOne(last, k);
        WithKeyOne(e, k);
        assert Key(last) != Key(e);
      }
    }
  }

  /** The signature's order: sorted by key, and a permutation of the entries. */
  lemma SortSorted(xs: seq<Entry>)
    ensures Sorted(SortByKey(xs))
    ensures multiset(SortByKey(xs)) == multiset(xs)
  {
    SortOrdered(xs);
    SortPermutes(xs);
  }

  lemma {:induction false} SortOrdered(xs: seq<Entry>)
    ensures Sorted(SortByKey(xs))
  {
    if xs != [] {
      var n := |xs| - 1;
      SortOrdered(xs[..n]);
      InsertSorted(SortByKey(xs[..n]), xs[n]);
    }
  }

  lemma {:induction false} SortPermutes(xs: seq<Entry>)
    ensures multiset(SortByKey(xs)) == multiset(xs)
  {
    if xs != [] {
      var n := |xs| - 1;
      var rest := SortByKey(xs[..n]);
      calc {
        multiset(SortByKey(xs));
        multiset(Insert(rest, xs[n]));
        { InsertPermutes(rest, xs[n]); }
        multiset(rest) + multiset{xs[n]};
        { SortPermutes(xs[..n]); }
        multiset(xs[..n]) + multiset{xs[n]};
        multiset(xs[..n] + [xs[n]]);
        { assert xs[..n] + [xs[n]] == xs; }
        multiset(xs);
      }
    }
  }

  /** The sort is stable: entries with equal keys keep their order. */
  lemma {:induction false} SortStable(xs: seq<Entry>, k: (int, int))
    ensures WithKey(SortByKey(xs), k) == WithKey(xs, k)
  {
    if xs != [] {
      var n := |xs| - 1;
      SortStable(xs[..n], k);
      InsertStable(SortByKey(xs[..n]), xs[n], k);
      WithKeyOne(xs[n], k);
    }
  }

  /** A sorted sequence is determined by its entries key by key. */
  lemma {:induction false} SortedUnique(s: seq<Entry>, t: seq<Entry>)
    requires Sorted(s) && Sorted(t)
    requires forall k :: WithKey(s, k) == WithKey(t, k)
    ensures s == t
    decreases |s| + |t|
  {
    if s == [] || t == [] {
      if s != [] {
        EmptyKeys(t, s);
      } else if t != [] {
        EmptyKeys(s, t);
      }
    } else {
      SameLast(s, t);
      var s', t' := s[..|s| - 1], t[..|t| - 1];
      forall k ensures WithKey(s', k) == WithKey(t', k) {
        DropLast(s, t, k);
      }
      SortedPrefix(s);
      SortedPrefix(t);
      SortedUnique(s', t');
      Snoc(s);
      Snoc(t);
    }
  }

  /** Sorted sequences that agree key by key end with the same entry. */
  lemma SameLast(s: seq<Entry>, t: seq<Entry>)
    requires Sorted(s) && Sorted(t) && s != [] && t != []
    requires forall k :: WithKey(s, k) == WithKey(t, k)
    ensures s[|s| - 1] == t[|t| - 1]
  {
    var a, b := s[|s| - 1], t[|t| - 1];
    LastOfKey(s, Key(a));
    LastOfKey(t, Key(b));
    KeyedMember(t, Key(a), WithKey(s, Key(a)));
    KeyedMember(s, Key(b), WithKey(t, Key(b)));
    var i :| 0 <= i < |t| && Key(t[i]) == Key(a);
    var j :| 0 <= j < |s| && Key(s[j]) == Key(b);
    assert t[i].0 == a.0 && t[i].1 == a.1;
    assert s[j].0 == b.0 && s[j].1 == b.1;
    if i < |t| - 1 {
      assert KeyLe(t[i], t[|t| - 1]);
    }
    if j < |s| - 1 {
      assert KeyLe(s[j], s[|s| - 1]);
    }
    assert KeyLe(a, b) && KeyLe(b, a);
    assert Key(a) == Key(b);
    var w := WithKey(s, Key(a));
    assert w == WithKey(t, Key(b));
    assert a == w[|w| - 1] == b;
  }

  lemma Snoc(s: seq<Entry>)
    requires s != []
    ensures s == s[..|s| - 1] + [s[|s| - 1]]
  {
  }

  /** Equal entries of key `k`, and equal last entries: equal entries of key `k` without them. */
  lemma DropLast(s: seq<Entry>, t: seq<Entry>, k: (int, int))
    requires s != [] && t != [] && s[|s| - 1] == t[|t| - 1] && WithKey(s, k) == WithKey(t, k)
    ensures WithKey(s[..|s| - 1], k) == WithKey(t[..|t| - 1], k)
  {
    var a := s[|s| - 1];
    var x, y := WithKey(s[..|s| - 1], k), WithKey(t[..|t| - 1], k);
    var tail: seq<Entry> := if Key(a) == k then [a] else [];
    assert WithKey(s, k) == x + tail;
    assert WithKey(t, k) == y + tail;
    assert x == (x + tail)[..|x|] && y == (y + tail)[..|y|];
  }

  lemma SortedPrefix(s: seq<Entry>)
    requires Sorted(s) && s != []
    ensures Sorted(s[..|s| - 1])
  {
  }

  /** The empty sequence differs from a non-empty one in the entries of some key. */
  lemma EmptyKeys(s: seq<Entry>, t: seq<Entry>)
    requires s == [] && t != []
    ensures exists k :: WithKey(s, k) != WithKey(t, k)
  {
    var e := t[|t| - 1];
    assert WithKey(t, Key(e)) == WithKey(t[..|t| - 1], Key(e)) + [e];
  }

  /** The last entry with the largest key ends the entries of that key. */
  lemma LastOfKey(s: seq<Entry>, k: (int, int))
    requires s != [] && Key(s[|s| - 1]) == k
    ensures WithKey(s, k) != [] && WithKey(s, k)[|WithKey(s, k)| - 1] == s[|s| - 1]
  {
  }

  /** Every entry of `WithKey(s, k)` is an entry of `s` with key `k`. */
  lemma {:induction false} KeyedMember(s: seq<Entry>, k: (int, int), w: seq<Entry>)
    requires w == WithKey(s, k) && w != []
    ensures exists i :: 0 <= i < |s| && Key(s[i]) == k
  {
    var n := |s| - 1;
    if Key(s[n]) != k {
      KeyedMember(s[..n], k, w);
      var i :| 0 <= i < n && Key(s[..n][i]) == k;
      assert s[i] == s[..n][i];
    }
  }

  /**
   * Two item lists have the same signature exactly when, for every
   * (sentence id, dot), they list the same lookahead names in the same order.
   */
  lemma SameSignature(a: seq<LrItem>, b: seq<LrItem>)
    ensures Signature(a) == Signature(b) <==> forall k :: WithKey(Entries(a), k) == WithKey(Entries(b), k)
  {
    assert Signature(a) == SortByKey(Entries(a)) && Signature(b) == SortByKey(Entries(b));
    SameSorted(Entries(a), Entries(b));
  }

  /** Stably sorted sequences are equal exactly when the inputs agree key by key. */
  lemma SameSorted(xs: seq<Entry>, ys: seq<Entry>)
    ensures SortByKey(xs) == SortByKey(ys) <==> forall k :: WithKey(xs, k) == WithKey(ys, k)
  {
    StableForAllKeys(xs);
    StableForAllKeys(ys);
    if forall k :: WithKey(xs, k) == WithKey(ys, k) {
      SortSorted(xs);
      SortSorted(ys);
      forall k ensures WithKey(SortByKey(xs), k) == WithKey(SortByKey(ys), k) {
        assert WithKey(SortByKey(xs), k) == WithKey(xs, k);
        assert WithKey(SortByKey(ys), k) == WithKey(ys, k);
        assert WithKey(xs, k) == WithKey(ys, k);
      }
      SortedUnique(SortByKey(xs), SortByKey(ys));
    } else {
      var k :| WithKey(xs, k) != WithKey(ys, k);
      assert WithKey(SortByKey(xs), k) == WithKey(xs, k);
      assert WithKey(SortByKey(ys), k) == WithKey(ys, k);
    }
  }

  lemma StableForAllKeys(xs: seq<Entry>)
    ensures forall k :: WithKey(SortByKey(xs), k) == WithKey(xs, k)
  {
    forall k ensures WithKey(SortByKey(xs), k) == WithKey(xs, k) {
      SortStable(xs, k);
    }
  }

  /** A signature lists the item entries, each as often as it occurs, sorted by key. */
  lemma SignatureSpec(items: seq<LrItem>)
    ensures Sorted(Signature(items))
    ensures multiset(Signature(items)) == multiset(Entries(items))
  {
    SortSorted(Entries(items));
  }

  /** The entries of an advanced kernel do not depend on the numbers `Advance` gives its items. */
  lemma AdvanceEntries(items: seq<LrItem>, symbol: Grammar.Symbol, n: nat, m: nat)
    ensures Entries(Advance(items, symbol, n)) == Entries(Advance(items, symbol, m))
  {
    var a, b := Advance(items, symbol, n), Advance(items, symbol, m);
    assert forall k :: 0 <= k < |a| ==> EntryOf(a[k]) == EntryOf(b[k]);
  }
}
