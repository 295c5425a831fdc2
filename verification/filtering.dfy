/** Order-preserving filtering of sequences (JavaScript's `Array.prototype.filter`) and the
    facts about it that the tab views and the removal rely on. */
module Filtering {

  /** The elements of `xs` that satisfy `keep`, in their original order. */
  function Filter<T>(xs: seq<T>, keep: T -> bool): (r: seq<T>)
    ensures |r| <= |xs|
    ensures forall i :: 0 <= i < |r| ==> keep(r[i])
    decreases |xs|
  {
    if xs == [] then []
    else (if keep(xs[0]) then [xs[0]] else []) + Filter(xs[1..], keep)
  }

  /** No element occurs twice in `xs`. */
  predicate Distinct<T(==)>(xs: seq<T>)
  {
    forall i, j :: 0 <= i < j < |xs| ==> xs[i] != xs[j]
  }

  /** `ys` is obtained from `xs` by deleting elements (so it keeps their relative order).
      Matching the first element of `ys` as early as possible decides the relation exactly. */
  predicate IsSubseq<T(==)>(ys: seq<T>, xs: seq<T>)
    decreases |xs|
  {
    if ys == [] then true
    else if xs == [] then false
    else if ys[0] == xs[0] then IsSubseq(ys[1..], xs[1..])
    else IsSubseq(ys, xs[1..])
  }

  /** Every sequence is a subsequence of itself. */
  lemma {:induction false} SubseqOfItself<T>(xs: seq<T>)
    ensures IsSubseq(xs, xs)
    decreases |xs|
  {
    if xs != [] {
      SubseqOfItself(xs[1..]);
    }
  }

  /** A subsequence is never longer than the sequence it comes from. */
  lemma {:induction false} SubseqNoLonger<T>(ys: seq<T>, xs: seq<T>)
    requires IsSubseq(ys, xs)
    ensures |ys| <= |xs|
    decreases |xs|
  {
    if ys != [] && xs != [] {
      if ys[0] == xs[0] {
        SubseqNoLonger(ys[1..], xs[1..]);
      } else {
        SubseqNoLonger(ys, xs[1..]);
      }
    }
  }

  /** An element survives the filter exactly when it occurs in `xs` and satisfies `keep`. */
  lemma {:induction false} FilterMembers<T>(xs: seq<T>, keep: T -> bool)
    ensures forall x :: x in Filter(xs, keep) <==> x in xs && keep(x)
    decreases |xs|
  {
    if xs != [] {
      FilterMembers(xs[1..], keep);
      assert xs == [xs[0]] + xs[1..];
    }
  }

  /** The filter keeps the original order: its result is a subsequence of `xs`. */
  lemma {:induction false} FilterIsSubseq<T>(xs: seq<T>, keep: T -> bool)
    ensures IsSubseq(Filter(xs, keep), xs)
    decreases |xs|
  {
    if xs != [] {
      var rest := Filter(xs[1..], keep);
      FilterIsSubseq(xs[1..], keep);
      if keep(xs[0]) {
        assert Filter(xs, keep) == [xs[0]] + rest;
        assert ([xs[0]] + rest)[1..] == rest;
      } else {
        assert Filter(xs, keep) == rest;
        if rest != [] {
          assert keep(rest[0]);
        }
      }
    }
  }

  /** No subsequence made only of kept elements is longer than the filter's result. */
  lemma {:induction false} FilterIsLongest<T>(ys: seq<T>, xs: seq<T>, keep: T -> bool)
    requires IsSubseq(ys, xs)
    requires forall i :: 0 <= i < |ys| ==> keep(ys[i])
    ensures |ys| <= |Filter(xs, keep)|
    decreases |xs|
  {
    if ys != [] && xs != [] {
      if ys[0] == xs[0] {
        FilterIsLongest(ys[1..], xs[1..], keep);
      } else {
        FilterIsLongest(ys, xs[1..], keep);
      }
    }
  }

  /** The filter's result is the only longest subsequence made of kept elements: together with
      `FilterIsSubseq` and `FilterIsLongest` this characterises `Filter` without its body. */
  lemma {:induction false} FilterIsUnique<T>(ys: seq<T>, xs: seq<T>, keep: T -> bool)
    requires IsSubseq(ys, xs)
    requires forall i :: 0 <= i < |ys| ==> keep(ys[i])
    requires |ys| == |Filter(xs, keep)|
    ensures ys == Filter(xs, keep)
    decreases |xs|
  {
    if xs != [] && ys != [] {
      var rest := Filter(xs[1..], keep);
      if ys[0] == xs[0] {
        assert Filter(xs, keep) == [xs[0]] + rest;
        FilterIsUnique(ys[1..], xs[1..], keep);
        assert ys == [ys[0]] + ys[1..];
      } else {
        FilterIsLongest(ys, xs[1..], keep);
        if !keep(xs[0]) {
          FilterIsUnique(ys, xs[1..], keep);
        }
      }
    }
  }

  /** Filtering with a condition every element meets returns the sequence itself. */
  lemma {:induction false} FilterKeepsAll<T>(xs: seq<T>, keep: T -> bool)
    requires forall i :: 0 <= i < |xs| ==> keep(xs[i])
    ensures Filter(xs, keep) == xs
    decreases |xs|
  {
    if xs != [] {
      assert forall i :: 0 <= i < |xs[1..]| ==> xs[1..][i] == xs[i + 1];
      FilterKeepsAll(xs[1..], keep);
      assert xs == [xs[0]] + xs[1..];
    }
  }

  /** Two conditions of which each element meets exactly one split `xs` into two filters that
      together hold every element once. */
  lemma {:induction false} FilterSplit<T>(xs: seq<T>, keep: T -> bool, other: T -> bool)
    requires forall i :: 0 <= i < |xs| ==> (keep(xs[i]) <==> !other(xs[i]))
    ensures |Filter(xs, keep)| + |Filter(xs, other)| == |xs|
    ensures multiset(Filter(xs, keep)) + multiset(Filter(xs, other)) == multiset(xs)
    decreases |xs|
  {
    if xs != [] {
      var x, tail := xs[0], xs[1..];
      assert forall i :: 0 <= i < |tail| ==> tail[i] == xs[i + 1];
      FilterSplit(tail, keep, other);
      var a, b := Filter(tail, keep), Filter(tail, other);
      if keep(x) {
        assert Filter(xs, keep) == [x] + a && Filter(xs, other) == b;
        assert multiset([x] + a) == multiset([x]) + multiset(a);
      } else {
        assert Filter(xs, keep) == a && Filter(xs, other) == [x] + b;
        assert multiset([x] + b) == multiset([x]) + multiset(b);
      }
      assert xs == [x] + tail;
      assert multiset(xs) == multiset([x]) + multiset(tail);
    }
  }

  /** Filtering never duplicates an element. */
  lemma {:induction false} FilterDistinct<T>(xs: seq<T>, keep: T -> bool)
    requires Distinct(xs)
    ensures Distinct(Filter(xs, keep))
    decreases |xs|
  {
    if xs != [] {
      var tail := xs[1..];
      assert Distinct(tail) by {
        forall i, j | 0 <= i < j < |tail| ensures tail[i] != tail[j] {
          assert tail[i] == xs[i + 1] && tail[j] == xs[j + 1];
        }
      }
      FilterDistinct(tail, keep);
      FilterMembers(tail, keep);
      var rest := Filter(tail, keep);
      if keep(xs[0]) {
        assert xs[0] !in tail by {
          forall k | 0 <= k < |tail| ensures tail[k] != xs[0] {
            assert tail[k] == xs[k + 1];
          }
        }
        var r := [xs[0]] + rest;
        assert Filter(xs, keep) == r;
        forall i, j | 0 <= i < j < |r| ensures r[i] != r[j] {
          assert r[j] == rest[j - 1];
          if i == 0 {
            assert rest[j - 1] in rest;
          } else {
            assert r[i] == rest[i - 1];
          }
        }
      }
    }
  }
}
