/** Cutting a sequence into consecutive groups, each closed by an element that
    satisfies `closes`; the last group may be left open. This is the shape of
    the warning segmenter, stated once for any element type and closing test. */
module Segments {
  import opened Sequences

  /** The length of the first group: up to and including the first closing
      element, or everything when none closes. */
  function ChunkLength<T>(xs: seq<T>, closes: T -> bool): (n: nat)
    requires |xs| != 0
    ensures 1 <= n <= |xs|
    ensures forall j :: 0 <= j < n - 1 ==> !closes(xs[j])
    ensures n == |xs| || closes(xs[n - 1])
  {
    if |xs| == 1 || closes(xs[0]) then 1 else 1 + ChunkLength(xs[1..], closes)
  }

  /** The groups of `xs`, cut after every closing element. */
  function Segment<T>(xs: seq<T>, closes: T -> bool): seq<seq<T>>
    decreases |xs|
  {
    if |xs| == 0 then []
    else
      var n := ChunkLength(xs, closes);
      [xs[..n]] + Segment(xs[n..], closes)
  }

  /** What it means for `groups` to cut `xs`: the groups are non-empty and
      concatenate back to `xs`, a closing element can only be the last of its
      group, and every group but the last ends with one. */
  ghost predicate IsSegmentation<T>(groups: seq<seq<T>>, xs: seq<T>, closes: T -> bool)
  {
    && Flatten(groups) == xs
    && (forall i :: 0 <= i < |groups| ==> |groups[i]| != 0)
    && (forall i, j :: 0 <= i < |groups| && 0 <= j < |groups[i]| - 1 ==> !closes(groups[i][j]))
    && (forall i :: 0 <= i < |groups| - 1 ==> closes(groups[i][|groups[i]| - 1]))
  }

  lemma {:induction false} SegmentIsSegmentation<T>(xs: seq<T>, closes: T -> bool)
    ensures IsSegmentation(Segment(xs, closes), xs, closes)
    decreases |xs|
  {
    if |xs| != 0 {
      var n := ChunkLength(xs, closes);
      var rest := Segment(xs[n..], closes);
      var groups := [xs[..n]] + rest;
      SegmentIsSegmentation(xs[n..], closes);
      assert groups[1..] == rest;
      assert xs[..n] + xs[n..] == xs;
      if |rest| != 0 {
        assert |xs[n..]| != 0;
        assert closes(groups[0][|groups[0]| - 1]);
      }
    }
  }

  /** There is only one way to cut a sequence. */
  lemma {:induction false} SegmentationUnique<T>(g1: seq<seq<T>>, g2: seq<seq<T>>, xs: seq<T>, closes: T -> bool)
    requires IsSegmentation(g1, xs, closes) && IsSegmentation(g2, xs, closes)
    ensures g1 == g2
    decreases |xs|
  {
    if |g1| != 0 {
      FlattenNonEmptyGroups(g1);
    }
    if |g2| != 0 {
      FlattenNonEmptyGroups(g2);
    }
    if |xs| != 0 {
      var a, b := g1[0], g2[0];
      assert |a| == |b|;
      assert a == xs[..|a|] == b;
      var rest := xs[|a|..];
      assert IsSegmentation(g1[1..], rest, closes) by {
        forall i | 0 <= i < |g1| - 2 ensures closes(g1[1..][i][|g1[1..][i]| - 1]) {
          assert g1[1..][i] == g1[i + 1];
        }
      }
      assert IsSegmentation(g2[1..], rest, closes) by {
        forall i | 0 <= i < |g2| - 2 ensures closes(g2[1..][i][|g2[1..][i]| - 1]) {
          assert g2[1..][i] == g2[i + 1];
        }
      }
      SegmentationUnique(g1[1..], g2[1..], rest, closes);
      assert g1 == [a] + g1[1..];
      assert g2 == [b] + g2[1..];
    }
  }

  /** Appending after a closing element does not move the end of the first group. */
  lemma {:induction false} ChunkLengthConcat<T>(a: seq<T>, b: seq<T>, closes: T -> bool)
    requires |a| != 0 && closes(a[|a| - 1])
    ensures ChunkLength(a + b, closes) == ChunkLength(a, closes)
    decreases |a|
  {
    if |a| > 1 && !closes(a[0]) {
      assert (a + b)[1..] == a[1..] + b;
      ChunkLengthConcat(a[1..], b, closes);
    }
  }

  /** Cutting distributes over concatenation when the first part is empty or
      ends with a closing element. */
  lemma {:induction false} SegmentConcat<T>(a: seq<T>, b: seq<T>, closes: T -> bool)
    requires |a| == 0 || closes(a[|a| - 1])
    ensures Segment(a + b, closes) == Segment(a, closes) + Segment(b, closes)
    decreases |a|
  {
    if |a| == 0 {
      assert a + b == b;
    } else {
      var n := ChunkLength(a, closes);
      ChunkLengthConcat(a, b, closes);
      var ab := a + b;
      assert ab[..n] == a[..n];
      assert ab[n..] == a[n..] + b;
      SegmentConcat(a[n..], b, closes);
    }
  }

  /** A run with no closing element before its last is a single group. */
  lemma SegmentSingle<T>(group: seq<T>, closes: T -> bool)
    requires |group| != 0
    requires forall j :: 0 <= j < |group| - 1 ==> !closes(group[j])
    ensures Segment(group, closes) == [group]
  {
    var n := ChunkLength(group, closes);
    assert n == |group|;
    assert group[..n] == group;
    assert group[n..] == [];
  }

  lemma SegmentEmptyIff<T>(xs: seq<T>, closes: T -> bool)
    ensures |Segment(xs, closes)| == 0 <==> |xs| == 0
  {
  }
}
