/** Order-preserving filtering of sequences, the one list primitive the
    screen's handlers are built from (`Array.prototype.filter`), with the
    properties the handlers rely on. */
module Sequences {

  /** `a` can be obtained from `b` by deleting elements: the elements of `a`
      occur in `b` in the same relative order. */
  predicate Subseq<T(==,!new)>(a: seq<T>, b: seq<T>)
    decreases |b|
  {
    a == [] || (b != [] && ((a[0] == b[0] && Subseq(a[1..], b[1..])) || Subseq(a, b[1..])))
  }

  /** `r` is what filtering `xs` by `keep` must produce: every element that
      passes `keep` with its full multiplicity, nothing else, in the original
      order. */
  ghost predicate IsFilterOf<T(!new)>(r: seq<T>, xs: seq<T>, keep: T -> bool)
  {
    && (forall x :: multiset(r)[x] == if keep(x) then multiset(xs)[x] else 0)
    && Subseq(r, xs)
  }

  /** No element occurs twice. */
  predicate NoDup<T(==,!new)>(xs: seq<T>)
  {
    xs == [] || (xs[0] !in xs[1..] && NoDup(xs[1..]))
  }

  /** The elements of `xs` that satisfy `keep`, in order. */
  function Filter<T(==,!new)>(xs: seq<T>, keep: T -> bool): (r: seq<T>)
    ensures |r| <= |xs|
    ensures forall x :: x in r <==> x in xs && keep(x)
  {
    if xs == [] then []
    else
      var rest := Filter(xs[1..], keep);
      if keep(xs[0]) then [xs[0]] + rest else rest
  }

  /** Filter meets its specification: full multiplicity for what passes,
      nothing for what does not, original order. */
  lemma {:induction false} FilterMeetsSpec<T(!new)>(xs: seq<T>, keep: T -> bool)
    ensures IsFilterOf(Filter(xs, keep), xs, keep)
    decreases |xs|
  {
    if xs != [] {
      var rest := Filter(xs[1..], keep);
      FilterMeetsSpec(xs[1..], keep);
      assert xs == [xs[0]] + xs[1..];
      if keep(xs[0]) {
        assert ([xs[0]] + rest)[1..] == rest;
      }
    }
  }

  lemma {:induction false} FilterConcat<T(!new)>(a: seq<T>, b: seq<T>, keep: T -> bool)
    ensures Filter(a + b, keep) == Filter(a, keep) + Filter(b, keep)
    decreases |a|
  {
    if a == [] {
      assert a + b == b;
    } else {
      assert (a + b)[0] == a[0];
      assert (a + b)[1..] == a[1..] + b;
      FilterConcat(a[1..], b, keep);
    }
  }

  /** When every element passes, filtering changes nothing. */
  lemma {:induction false} FilterKeepsAll<T(!new)>(xs: seq<T>, keep: T -> bool)
    requires forall x :: x in xs ==> keep(x)
    ensures Filter(xs, keep) == xs
    decreases |xs|
  {
    if xs != [] {
      assert forall x :: x in xs[1..] ==> x in xs;
      FilterKeepsAll(xs[1..], keep);
    }
  }

  /** Filtering twice by the same predicate is filtering once. */
  lemma {:induction false} FilterIdempotent<T(!new)>(xs: seq<T>, keep: T -> bool)
    ensures Filter(Filter(xs, keep), keep) == Filter(xs, keep)
  {
    FilterKeepsAll(Filter(xs, keep), keep);
  }

  /** Filtering cannot introduce duplicates. */
  lemma {:induction false} FilterNoDup<T(!new)>(xs: seq<T>, keep: T -> bool)
    requires NoDup(xs)
    ensures NoDup(Filter(xs, keep))
    decreases |xs|
  {
    if xs != [] {
      FilterNoDup(xs[1..], keep);
      var rest := Filter(xs[1..], keep);
      if keep(xs[0]) {
        assert ([xs[0]] + rest)[1..] == rest;
      }
    }
  }

  /** Appending an element that is not yet present keeps a list duplicate-free. */
  lemma {:induction false} AppendNoDup<T(!new)>(xs: seq<T>, y: T)
    requires NoDup(xs) && y !in xs
    ensures NoDup(xs + [y])
    decreases |xs|
  {
    if xs != [] {
      assert (xs + [y])[1..] == xs[1..] + [y];
      AppendNoDup(xs[1..], y);
    } else {
      assert ([] + [y])[1..] == [];
    }
  }

  /** The recursive definition of NoDup agrees with the index-wise one. */
  lemma {:induction false} NoDupDistinct<T(!new)>(xs: seq<T>, i: int, j: int)
    requires NoDup(xs)
    requires 0 <= i < j < |xs|
    ensures xs[i] != xs[j]
    decreases |xs|
  {
    if i == 0 {
      assert xs[j] == xs[1..][j - 1];
    } else {
      NoDupDistinct(xs[1..], i - 1, j - 1);
    }
  }

  /** A subsequence holds no more copies of anything than the sequence it is taken from. */
  lemma {:induction false} SubseqMultiset<T(!new)>(a: seq<T>, b: seq<T>)
    requires Subseq(a, b)
    ensures multiset(a) <= multiset(b)
    decreases |b|
  {
    if a != [] {
      assert b == [b[0]] + b[1..];
      if a[0] == b[0] && Subseq(a[1..], b[1..]) {
        SubseqMultiset(a[1..], b[1..]);
        assert a == [a[0]] + a[1..];
      } else {
        SubseqMultiset(a, b[1..]);
      }
    }
  }

  /** IsFilterOf pins the result down completely: Filter is its only solution. */
  lemma {:induction false} FilterUnique<T(!new)>(r: seq<T>, xs: seq<T>, keep: T -> bool)
    requires IsFilterOf(r, xs, keep)
    ensures r == Filter(xs, keep)
    decreases |xs|
  {
    if xs == [] {
      assert r == [];
    } else {
      var x0 := xs[0];
      assert xs == [x0] + xs[1..];
      if r != [] {
        assert r == [r[0]] + r[1..];
      }
      if keep(x0) {
        assert multiset(r)[x0] == multiset(xs)[x0] > 0;
        assert r != [];
        if r[0] == x0 && Subseq(r[1..], xs[1..]) {
          assert IsFilterOf(r[1..], xs[1..], keep) by {
            forall x ensures multiset(r[1..])[x] == if keep(x) then multiset(xs[1..])[x] else 0 {
              assert multiset(r)[x] == multiset(r[1..])[x] + (if x == x0 then 1 else 0);
              assert multiset(xs)[x] == multiset(xs[1..])[x] + (if x == x0 then 1 else 0);
            }
          }
          FilterUnique(r[1..], xs[1..], keep);
        } else {
          SubseqMultiset(r, xs[1..]);
          assert false;
        }
      } else {
        assert multiset(r)[x0] == 0;
        assert x0 !in r;
        assert Subseq(r, xs[1..]);
        assert IsFilterOf(r, xs[1..], keep) by {
          forall x ensures multiset(r)[x] == if keep(x) then multiset(xs[1..])[x] else 0 {
            assert multiset(xs)[x] == multiset(xs[1..])[x] + (if x == x0 then 1 else 0);
          }
        }
        FilterUnique(r, xs[1..], keep);
      }
    }
  }
}
