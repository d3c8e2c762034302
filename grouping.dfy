/**
 * Adjacent deduplication as `[k for k, _ in itertools.groupby(xs)]` performs it:
 * every run of equal neighbours collapses to its first element; equal elements
 * that are not neighbours are all kept.
 */
module Grouping {

  function Dedup<T(==)>(xs: seq<T>): (r: seq<T>)
    ensures |r| <= |xs|
    ensures r == [] <==> xs == []
    ensures xs != [] ==> r[0] == xs[0]
  {
    if |xs| <= 1 then xs
    else if xs[0] == xs[1] then Dedup(xs[1..])
    else [xs[0]] + Dedup(xs[1..])
  }

  /** `sub` is `xs` with some elements left out and the rest in their order. */
  predicate IsSubsequence<T(==)>(sub: seq<T>, xs: seq<T>)
    decreases |xs|
  {
    sub == [] ||
    (xs != [] &&
      ((sub[0] == xs[0] && IsSubsequence(sub[1..], xs[1..])) || IsSubsequence(sub, xs[1..])))
  }

  predicate NoAdjacentDuplicates<T(==)>(xs: seq<T>)
  {
    forall i :: 0 <= i < |xs| - 1 ==> xs[i] != xs[i + 1]
  }

  lemma {:induction false} DedupIsSubsequence<T>(xs: seq<T>)
    ensures IsSubsequence(Dedup(xs), xs)
  {
    if |xs| == 1 {
      assert IsSubsequence(xs[1..], xs[1..]);
    } else if |xs| > 1 {
      DedupIsSubsequence(xs[1..]);
      if xs[0] != xs[1] {
        assert ([xs[0]] + Dedup(xs[1..]))[1..] == Dedup(xs[1..]);
      }
    }
  }

  lemma {:induction false} DedupHasNoAdjacentDuplicates<T>(xs: seq<T>)
    ensures NoAdjacentDuplicates(Dedup(xs))
  {
    if |xs| > 1 {
      DedupHasNoAdjacentDuplicates(xs[1..]);
      if xs[0] != xs[1] {
        var r := [xs[0]] + Dedup(xs[1..]);
        assert r[1] == xs[1];
        assert forall i :: 1 <= i < |r| ==> r[i] == Dedup(xs[1..])[i - 1];
      }
    }
  }

  /** Nothing is lost: every value of the input still occurs in the result. */
  lemma {:induction false} DedupKeepsValues<T>(xs: seq<T>, x: T)
    ensures x in Dedup(xs) <==> x in xs
  {
    if |xs| > 1 {
      DedupKeepsValues(xs[1..], x);
      assert xs == [xs[0]] + xs[1..];
      assert xs[1] in xs[1..];
    }
  }

  /** A sequence without equal neighbours is left as it is. */
  lemma {:induction false} DedupOfNoAdjacentDuplicates<T>(xs: seq<T>)
    requires NoAdjacentDuplicates(xs)
    ensures Dedup(xs) == xs
  {
    if |xs| > 1 {
      assert xs[0] != xs[1];
      assert NoAdjacentDuplicates(xs[1..]) by {
        forall i | 0 <= i < |xs[1..]| - 1 ensures xs[1..][i] != xs[1..][i + 1] {
          assert xs[1..][i] == xs[i + 1] && xs[1..][i + 1] == xs[i + 2];
        }
      }
      DedupOfNoAdjacentDuplicates(xs[1..]);
      assert xs == [xs[0]] + xs[1..];
    }
  }

  lemma DedupIdempotent<T>(xs: seq<T>)
    ensures Dedup(Dedup(xs)) == Dedup(xs)
  {
    DedupHasNoAdjacentDuplicates(xs);
    DedupOfNoAdjacentDuplicates(Dedup(xs));
  }

  /** `[X, X, Y, X]` becomes `[X, Y, X]`: the non-adjacent repeat of X survives. */
  lemma DedupKeepsNonAdjacentRepeat<T>(x: T, y: T)
    requires x != y
    ensures Dedup([x, x, y, x]) == [x, y, x]
  {
    assert [x, x, y, x][1..] == [x, y, x];
    assert [x, y, x][1..] == [y, x];
    assert [y, x][1..] == [x];
    assert Dedup([y, x]) == [y, x];
    assert Dedup([x, y, x]) == [x, y, x];
  }
}
