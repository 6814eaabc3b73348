/**
 * Sequences without repetitions, and the enumeration of a hash set:
 * .NET does not specify the order in which a `HashSet<T>` (or the value
 * collection of a `Dictionary`) yields its elements, so the model picks an
 * arbitrary order and proves every property for all orders.
 */
module Collections {

  /** No element occurs twice in `xs`. */
  ghost predicate Distinct<T>(xs: seq<T>)
  {
    forall i, j :: 0 <= i < j < |xs| ==> xs[i] != xs[j]
  }

  /** The elements of `xs`, as a set. */
  function Elems<T>(xs: seq<T>): set<T>
  {
    set x | x in xs
  }

  /** An enumeration of `s` in an unspecified order: every element exactly once. */
  method Enumerate<T>(s: set<T>) returns (xs: seq<T>)
    ensures Distinct(xs) && |xs| == |s|
    ensures forall x :: x in xs <==> x in s
  {
    xs := [];
    var rest := s;
    while rest != {}
      invariant Distinct(xs) && |xs| + |rest| == |s|
      invariant forall x :: x in s <==> x in xs || x in rest
      invariant forall x :: x in xs ==> x !in rest
      decreases |rest|
    {
      var x :| x in rest;
      xs := xs + [x];
      rest := rest - {x};
    }
  }

  /** The numbers below `n`. */
  function Below(n: nat): (s: set<nat>)
    ensures forall i: nat :: i in s <==> i < n
    ensures |s| == n
  {
    if n == 0 then {} else Below(n - 1) + {n - 1}
  }

  lemma ElemsSnoc<T>(xs: seq<T>, i: nat)
    requires i < |xs|
    ensures Elems(xs[..i + 1]) == Elems(xs[..i]) + {xs[i]}
  {
    assert xs[..i + 1] == xs[..i] + [xs[i]];
  }

  /** A bigger subset of `Below(n)` leaves fewer numbers out, strictly fewer when it is bigger. */
  lemma SubsetBelow(a: set<nat>, b: set<nat>, n: nat)
    requires a <= b && forall x :: x in b ==> x < n
    ensures |Below(n) - b| <= |Below(n) - a|
    ensures a != b ==> |Below(n) - b| < |Below(n) - a|
  {
    var A, B := Below(n) - a, Below(n) - b;
    assert B <= A;
    assert A == B + (b - a);
    assert B * (b - a) == {};
    if a != b {
      assert b - a != {} by {
        if b - a == {} {
          forall x | x in b ensures x in a {
            assert x !in b - a;
          }
        }
      }
    }
  }

  /** Every element of `s` is below `n`. */
  ghost predicate Bounded(s: set<nat>, n: nat)
  {
    forall x :: x in s ==> x < n
  }

  /** All sets of numbers below `n`. */
  ghost function Subsets(n: nat): (p: set<set<nat>>)
    ensures forall s :: s in p <==> Bounded(s, n)
  {
    if n == 0 then
      assert forall s :: Bounded(s, 0) ==> s == {} by {
        forall s | Bounded(s, 0) ensures s == {} {
          assert forall x :: x !in s;
        }
      }
      {{}}
    else
      var q, top: nat := Subsets(n - 1), n - 1;
      var p: set<set<nat>> := q + set s | s in q :: s + {top};
      assert forall s :: Bounded(s, n) ==> s in p by {
        forall s | Bounded(s, n) ensures s in p {
          if top in s {
            assert s - {top} in q;
            assert s == (s - {top}) + {top};
          } else {
            assert s in q;
          }
        }
      }
      p
  }

  /** Adding an element of `u` not yet in `a` leaves fewer elements of `u` outside. */
  lemma FewerLeft<T>(u: set<T>, a: set<T>, x: T)
    requires x in u && x !in a
    ensures |u - (a + {x})| < |u - a|
  {
    assert u - a == (u - (a + {x})) + {x};
  }

  lemma PrefixSnoc<T>(xs: seq<T>, i: nat)
    requires i < |xs|
    ensures forall x :: x in xs[..i + 1] <==> x in xs[..i] || x == xs[i]
  {
    assert xs[..i + 1] == xs[..i] + [xs[i]];
  }

  lemma DistinctPrefix<T>(xs: seq<T>, i: nat)
    requires Distinct(xs) && i < |xs|
    ensures xs[i] !in xs[..i]
  {
  }

  /** A proper subset is smaller. */
  lemma ProperSubsetCard<T>(a: set<T>, b: set<T>)
    requires a <= b && a != b
    ensures |a| < |b|
  {
    assert !(b <= a);
    var x :| x in b && x !in a;
    assert x in b - a;
    assert b == a + (b - a);
    assert a * (b - a) == {};
  }

  /** A set of numbers below `n` has at most `n` elements. */
  lemma BoundedCard(s: set<nat>, n: nat)
    requires forall x :: x in s ==> x < n
    ensures |s| <= n
  {
    if s != Below(n) {
      ProperSubsetCard(s, Below(n));
    }
  }

  /** A sequence holding two different values has at least two elements. */
  lemma TwoMembers<T>(xs: seq<T>, a: T, b: T)
    requires a in xs && b in xs && a != b
    ensures |xs| >= 2
  {
  }

  /** Appending two new, different values keeps a sequence free of repetitions. */
  lemma DistinctAppend<T>(xs: seq<T>, a: T, b: T)
    requires Distinct(xs) && a !in xs && b !in xs && a != b
    ensures Distinct(xs + [a, b])
  {
    var q := xs + [a, b];
    forall i, j | 0 <= i < j < |q| ensures q[i] != q[j] {
      if j < |xs| {
        assert q[i] == xs[i] && q[j] == xs[j];
      } else if i < |xs| {
        assert q[i] in xs;
      }
    }
  }

  /** A sequence without repetitions has as many elements as its set. */
  lemma {:induction false} DistinctCard<T>(xs: seq<T>)
    requires Distinct(xs)
    ensures |Elems(xs)| == |xs|
  {
    if xs != [] {
      var n := |xs| - 1;
      assert Distinct(xs[..n]);
      DistinctCard(xs[..n]);
      ElemsSnoc(xs, n);
      assert xs[..n + 1] == xs;
      DistinctPrefix(xs, n);
    }
  }

  /** A repetition-free sequence whose values all occur in a longer-valued one is shorter. */
  lemma DistinctShorter<T>(a: seq<T>, b: seq<T>, y: T)
    requires Distinct(a) && Distinct(b) && (forall x :: x in a ==> x in b) && y in b && y !in a
    ensures |a| < |b|
  {
    DistinctCard(a);
    DistinctCard(b);
    assert Elems(a) <= Elems(b) && y in Elems(b) - Elems(a);
    ProperSubsetCard(Elems(a), Elems(b));
  }
}
