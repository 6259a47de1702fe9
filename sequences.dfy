/** Generic facts about sequences: concatenating a sequence of sequences,
    concatenating what each element contributes, keeping the elements that
    pass a test, and being a subsequence. */
module Sequences {

  /** Concatenation of a sequence of sequences. */
  function Flatten<T>(xss: seq<seq<T>>): seq<T>
  {
    if |xss| == 0 then [] else xss[0] + Flatten(xss[1..])
  }

  lemma {:induction false} FlattenConcat<T>(a: seq<seq<T>>, b: seq<seq<T>>)
    ensures Flatten(a + b) == Flatten(a) + Flatten(b)
    decreases |a|
  {
    if |a| == 0 {
      assert a + b == b;
    } else {
      assert (a + b)[1..] == a[1..] + b;
      FlattenConcat(a[1..], b);
    }
  }

  /** Every element of every inner sequence is an element of the flattening. */
  lemma {:induction false} FlattenMember<T>(xss: seq<seq<T>>, i: int, j: int)
    requires 0 <= i < |xss| && 0 <= j < |xss[i]|
    ensures xss[i][j] in Flatten(xss)
    decreases i
  {
    if i > 0 {
      FlattenMember(xss[1..], i - 1, j);
    }
  }

  lemma FlattenNonEmptyGroups<T>(groups: seq<seq<T>>)
    requires |groups| != 0
    requires forall i :: 0 <= i < |groups| ==> |groups[i]| != 0
    ensures |Flatten(groups)| >= |groups[0]| > 0
    ensures Flatten(groups)[..|groups[0]|] == groups[0]
    ensures Flatten(groups)[|groups[0]|..] == Flatten(groups[1..])
  {
  }

  /** The concatenation of `f` applied to each element of `xs`, in order. */
  function FlatMap<T, U>(xs: seq<T>, f: T -> seq<U>): seq<U>
  {
    if |xs| == 0 then [] else FlatMap(xs[..|xs| - 1], f) + f(xs[|xs| - 1])
  }

  lemma {:induction false} FlatMapConcat<T, U>(a: seq<T>, b: seq<T>, f: T -> seq<U>)
    ensures FlatMap(a + b, f) == FlatMap(a, f) + FlatMap(b, f)
    decreases |b|
  {
    if |b| == 0 {
      assert a + b == a;
    } else {
      var ab := a + b;
      var init := b[..|b| - 1];
      assert ab[..|ab| - 1] == a + init;
      assert ab[|ab| - 1] == b[|b| - 1];
      FlatMapConcat(a, init, f);
    }
  }

  /** The elements of `xs` that pass `keep`, in their original order. */
  function Filter<T>(xs: seq<T>, keep: T -> bool): seq<T>
  {
    if |xs| == 0 then []
    else (if keep(xs[0]) then [xs[0]] else []) + Filter(xs[1..], keep)
  }

  /** `a` is `b` with some elements dropped. */
  ghost predicate IsSubsequence<T>(a: seq<T>, b: seq<T>)
    decreases |b|
  {
    if |a| == 0 then true
    else if |b| == 0 then false
    else (a[0] == b[0] && IsSubsequence(a[1..], b[1..])) || IsSubsequence(a, b[1..])
  }

  /** Every element kept passes the test, every element that passes it is
      kept, and nothing is added. */
  lemma {:induction false} FilterKept<T>(xs: seq<T>, keep: T -> bool)
    ensures |Filter(xs, keep)| <= |xs|
    ensures forall k :: 0 <= k < |Filter(xs, keep)| ==> keep(Filter(xs, keep)[k])
    ensures forall k :: 0 <= k < |xs| && keep(xs[k]) ==> xs[k] in Filter(xs, keep)
    decreases |xs|
  {
    if |xs| != 0 {
      var rest := xs[1..];
      FilterKept(rest, keep);
      forall k | 0 <= k < |xs| && keep(xs[k]) ensures xs[k] in Filter(xs, keep) {
        if k > 0 { assert xs[k] == rest[k - 1]; }
      }
    }
  }

  /** Filtering keeps every passing element as often as it occurs and drops
      every other one: as multisets, the result is the passing part of the
      input. */
  lemma {:induction false} FilterCount<T>(xs: seq<T>, keep: T -> bool)
    ensures forall x :: multiset(Filter(xs, keep))[x] == if keep(x) then multiset(xs)[x] else 0
    decreases |xs|
  {
    if |xs| != 0 {
      var rest := xs[1..];
      FilterCount(rest, keep);
      assert xs == [xs[0]] + rest;
      var head := if keep(xs[0]) then [xs[0]] else [];
      assert Filter(xs, keep) == head + Filter(rest, keep);
      assert multiset(Filter(xs, keep)) == multiset(head) + multiset(Filter(rest, keep));
      assert multiset(xs) == multiset([xs[0]]) + multiset(rest);
    }
  }

  /** Filtering keeps order: the result is a subsequence of the input. */
  lemma {:induction false} FilterSubsequence<T>(xs: seq<T>, keep: T -> bool)
    ensures IsSubsequence(Filter(xs, keep), xs)
    decreases |xs|
  {
    if |xs| != 0 {
      FilterSubsequence(xs[1..], keep);
      var r := Filter(xs, keep);
      if keep(xs[0]) {
        assert r[0] == xs[0] && r[1..] == Filter(xs[1..], keep);
      } else {
        assert r == Filter(xs[1..], keep);
      }
    }
  }

  /** Filtering is applied element by element. */
  lemma {:induction false} FilterConcat<T>(a: seq<T>, b: seq<T>, keep: T -> bool)
    ensures Filter(a + b, keep) == Filter(a, keep) + Filter(b, keep)
    decreases |a|
  {
    if |a| == 0 {
      assert a + b == b;
    } else {
      var ab := a + b;
      assert ab[0] == a[0];
      assert ab[1..] == a[1..] + b;
      FilterConcat(a[1..], b, keep);
      var head := if keep(a[0]) then [a[0]] else [];
      assert Filter(ab, keep) == head + Filter(a[1..] + b, keep);
      assert Filter(a, keep) == head + Filter(a[1..], keep);
    }
  }

  lemma {:induction false} FilterAll<T>(xs: seq<T>, keep: T -> bool)
    requires forall k :: 0 <= k < |xs| ==> keep(xs[k])
    ensures Filter(xs, keep) == xs
    decreases |xs|
  {
    if |xs| != 0 {
      FilterAll(xs[1..], keep);
    }
  }

  lemma {:induction false} FilterNone<T>(xs: seq<T>, keep: T -> bool)
    requires forall k :: 0 <= k < |xs| ==> !keep(xs[k])
    ensures |Filter(xs, keep)| == 0
    decreases |xs|
  {
    if |xs| != 0 {
      FilterNone(xs[1..], keep);
    }
  }

  /** When exactly one element fails the test, the result is the input
      without it. */
  lemma {:induction false} FilterDropOne<T>(xs: seq<T>, k: nat, keep: T -> bool)
    requires k < |xs|
    requires forall j :: 0 <= j < |xs| ==> (keep(xs[j]) <==> j != k)
    ensures Filter(xs, keep) == xs[..k] + xs[k + 1..]
    decreases k
  {
    var rest := xs[1..];
    forall j | 0 <= j < |rest| ensures keep(rest[j]) <==> j != k - 1 {
      assert rest[j] == xs[j + 1];
    }
    if k == 0 {
      FilterAll(rest, keep);
    } else {
      FilterDropOne(rest, k - 1, keep);
      assert xs[..k] == [xs[0]] + rest[..k - 1];
      assert xs[k + 1..] == rest[k..];
    }
  }
}
