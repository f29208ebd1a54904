/** Python list comprehensions with a condition, and iteration over a Python set. */
module Collections {
  import opened Text

  /** `[x for x in xs if p(x)]`: the elements of `xs` that satisfy `p`, in their order. */
  function Filter<T(==,!new)>(p: T -> bool, xs: seq<T>): (r: seq<T>)
    ensures |r| <= |xs|
    ensures forall x :: x in r <==> x in xs && p(x)
    ensures forall x :: x in r ==> p(x)
  {
    if xs == [] then [] else (if p(xs[0]) then [xs[0]] else []) + Filter(p, xs[1..])
  }

  /** Filtering a concatenation filters each part and keeps them in order; with the
      one-element case this pins down the order of the result completely. */
  lemma {:induction false} FilterConcat<T(!new)>(p: T -> bool, a: seq<T>, b: seq<T>)
    ensures Filter(p, a + b) == Filter(p, a) + Filter(p, b)
  {
    if a == [] {
      assert a + b == b;
    } else {
      assert (a + b)[0] == a[0] && (a + b)[1..] == a[1..] + b;
      FilterConcat(p, a[1..], b);
    }
  }

  /** Filtering twice with the same condition is filtering once. */
  lemma {:induction false} FilterIdempotent<T(!new)>(p: T -> bool, xs: seq<T>)
    ensures Filter(p, Filter(p, xs)) == Filter(p, xs)
  {
    if xs != [] {
      FilterIdempotent(p, xs[1..]);
      var r := Filter(p, xs);
      if p(xs[0]) {
        assert r[0] == xs[0] && r[1..] == Filter(p, xs[1..]);
      } else {
        assert r == Filter(p, xs[1..]);
      }
    }
  }

  /** A one-element list is kept or dropped as a whole. */
  lemma FilterSingleton<T(!new)>(p: T -> bool, x: T)
    ensures Filter(p, [x]) == if p(x) then [x] else []
  {
    assert [x][1..] == [];
  }

  /** Two filters can be applied in either order. */
  lemma {:induction false} FilterCommute<T(!new)>(p: T -> bool, q: T -> bool, xs: seq<T>)
    ensures Filter(p, Filter(q, xs)) == Filter(q, Filter(p, xs))
  {
    if xs != [] {
      var x, rest := xs[0], xs[1..];
      assert xs == [x] + rest;
      FilterCommute(p, q, rest);
      FilterConcat(q, [x], rest);
      FilterConcat(p, [x], rest);
      FilterSingleton(p, x);
      FilterSingleton(q, x);
      FilterConcat(p, Filter(q, [x]), Filter(q, rest));
      FilterConcat(q, Filter(p, [x]), Filter(p, rest));
      if p(x) && q(x) {
        FilterSingleton(p, x);
      }
    }
  }

  /** Filtering a list without duplicates gives a list without duplicates. */
  lemma {:induction false} FilterNoDup<T(!new)>(p: T -> bool, xs: seq<T>)
    ensures NoDup(xs) ==> NoDup(Filter(p, xs))
  {
    if xs != [] && NoDup(xs) {
      FilterNoDup(p, xs[1..]);
      var rest := Filter(p, xs[1..]);
      assert xs[0] !in xs[1..];
      assert xs[0] !in rest;
    }
  }

  /** A loop that appends `f(x)` for every `x` of `xs` in turn builds this list. */
  function FlatMap<T, U>(f: T -> seq<U>, xs: seq<T>): seq<U> {
    if xs == [] then [] else FlatMap(f, xs[..|xs| - 1]) + f(xs[|xs| - 1])
  }

  /** One more pass of the loop appends `f` of the next element. */
  lemma FlatMapStep<T, U>(f: T -> seq<U>, xs: seq<T>, i: nat)
    requires i < |xs|
    ensures FlatMap(f, xs[..i + 1]) == FlatMap(f, xs[..i]) + f(xs[i])
  {
    assert xs[..i + 1][..i] == xs[..i];
  }

  /** An element is in the result exactly when one of the steps appended it. */
  lemma {:induction false} FlatMapMembers<T, U>(f: T -> seq<U>, xs: seq<T>, y: U)
    ensures y in FlatMap(f, xs) <==> exists i :: 0 <= i < |xs| && y in f(xs[i])
  {
    if xs != [] {
      var n := |xs| - 1;
      var init := xs[..n];
      FlatMapMembers(f, init, y);
      if y in FlatMap(f, init) {
        var i :| 0 <= i < |init| && y in f(init[i]);
        assert xs[i] == init[i];
      }
      if exists i :: 0 <= i < |xs| && y in f(xs[i]) {
        var i :| 0 <= i < |xs| && y in f(xs[i]);
        if i < n {
          assert init[i] == xs[i];
        }
      }
    }
  }

  /** A filter that every element passes returns its input unchanged. */
  lemma {:induction false} FilterKeepsAll<T(!new)>(p: T -> bool, xs: seq<T>)
    requires forall k :: 0 <= k < |xs| ==> p(xs[k])
    ensures Filter(p, xs) == xs
  {
    if xs != [] {
      FilterKeepsAll(p, xs[1..]);
    }
  }

  /** `xs` lists every element of `s` exactly once, in some order. */
  ghost predicate Enumerates<T(!new)>(xs: seq<T>, s: set<T>) {
    NoDup(xs) && forall x :: x in xs <==> x in s
  }

  /** `set(xs)` of an enumeration of `s` is `s`. */
  lemma EnumeratedSet<T(!new)>(xs: seq<T>, s: set<T>)
    requires Enumerates(xs, s)
    ensures (set x | x in xs) == s
  {
  }

  /** Iterating over a Python set (as `list(set(...))` and a comprehension over a set do):
      the order is unspecified, so each step picks any element not yet visited. */
  method Enumerate<T(==,!new)>(s: set<T>) returns (xs: seq<T>)
    ensures Enumerates(xs, s)
    ensures |xs| == |s|
  {
    xs := [];
    var rest := s;
    while rest != {}
      invariant rest <= s
      invariant NoDup(xs)
      invariant forall x :: x in xs <==> x in s && x !in rest
      invariant |xs| + |rest| == |s|
      decreases rest
    {
      var x :| x in rest;
      xs := xs + [x];
      rest := rest - {x};
    }
  }

  /** The union of `f(x)` over the elements `x` of `xs`. */
  ghost function UnionOver<T, U>(f: T -> set<U>, xs: seq<T>): set<U> {
    if xs == [] then {} else UnionOver(f, xs[..|xs| - 1]) + f(xs[|xs| - 1])
  }

  /** Extending the list by one element adds that element's set. */
  lemma UnionOverSnoc<T, U>(f: T -> set<U>, xs: seq<T>, x: T)
    ensures UnionOver(f, xs + [x]) == UnionOver(f, xs) + f(x)
  {
    assert (xs + [x])[..|xs|] == xs;
  }

  /** An element is in the union exactly when it is in the set of one of the elements. */
  lemma {:induction false} UnionOverMembers<T, U>(f: T -> set<U>, xs: seq<T>, y: U)
    ensures y in UnionOver(f, xs) <==> exists i :: 0 <= i < |xs| && y in f(xs[i])
  {
    if xs != [] {
      var n := |xs| - 1;
      var init := xs[..n];
      UnionOverMembers(f, init, y);
      if y in UnionOver(f, init) {
        var i :| 0 <= i < |init| && y in f(init[i]);
        assert xs[i] == init[i];
      }
      if exists i :: 0 <= i < |xs| && y in f(xs[i]) {
        var i :| 0 <= i < |xs| && y in f(xs[i]);
        if i < n {
          assert init[i] == xs[i];
        }
      }
    }
  }
}
