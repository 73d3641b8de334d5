/** Order-preservation vocabulary for the passes that erase elements from a vector. */
module Sequences {

  /** `xs` is obtained from `ys` by deleting elements, keeping the order of the rest. */
  predicate IsSubsequence<T(==)>(xs: seq<T>, ys: seq<T>)
    decreases |ys|
  {
    if xs == [] then true
    else if ys == [] then false
    else if xs[0] == ys[0] then IsSubsequence(xs[1..], ys[1..])
    else IsSubsequence(xs, ys[1..])
  }

  /** Putting an extra element in front of the original keeps a subsequence... */
  lemma {:induction false} SubsequenceSkip<T>(xs: seq<T>, y: T, ys: seq<T>)
    requires IsSubsequence(xs, ys)
    ensures IsSubsequence(xs, [y] + ys)
    decreases |ys|, 1
  {
    assert ([y] + ys)[1..] == ys;
    if xs != [] && xs[0] == y {
      SubsequenceTail(xs, ys);
    }
  }

  /** ...and a subsequence stays one after its first element is dropped. */
  lemma {:induction false} SubsequenceTail<T>(xs: seq<T>, ys: seq<T>)
    requires xs != [] && IsSubsequence(xs, ys)
    ensures IsSubsequence(xs[1..], ys)
    decreases |ys|, 0
  {
    assert ys != [];
    if xs[0] == ys[0] {
      SubsequenceSkip(xs[1..], ys[0], ys[1..]);
      assert [ys[0]] + ys[1..] == ys;
    } else {
      SubsequenceTail(xs, ys[1..]);
      SubsequenceSkip(xs[1..], ys[0], ys[1..]);
      assert [ys[0]] + ys[1..] == ys;
    }
  }

  /** Keeping the head on both sides keeps the relation. */
  lemma SubsequenceCons<T>(x: T, xs: seq<T>, ys: seq<T>)
    requires IsSubsequence(xs, ys)
    ensures IsSubsequence([x] + xs, [x] + ys)
  {
    assert ([x] + xs)[1..] == xs;
    assert ([x] + ys)[1..] == ys;
  }

  /** A subsequence is never longer, and every element of it occurs in the original. */
  lemma {:induction false} SubsequenceBasics<T>(xs: seq<T>, ys: seq<T>)
    requires IsSubsequence(xs, ys)
    ensures |xs| <= |ys|
    ensures forall x | x in xs :: x in ys
    decreases |ys|
  {
    if xs != [] {
      assert ys != [];
      if xs[0] == ys[0] {
        SubsequenceBasics(xs[1..], ys[1..]);
        forall x | x in xs ensures x in ys {
          if x != xs[0] { assert x in xs[1..]; }
        }
      } else {
        SubsequenceBasics(xs, ys[1..]);
      }
    }
  }

  /** Stepping past one element of two sequences with equal suffixes. */
  lemma DropStep<T>(xs: seq<T>, ys: seq<T>, i: nat, n: nat)
    requires i < |xs| && n <= |ys| && xs[i..] == ys[n..]
    ensures n < |ys| && ys[n] == xs[i] && ys[n + 1..] == xs[i + 1..]
  {
    assert xs[i..][0] == xs[i] && xs[i..][1..] == xs[i + 1..];
  }

  /** Growing a prefix by one element. */
  lemma TakeStep<T>(xs: seq<T>, n: nat)
    requires n < |xs|
    ensures xs[..n + 1] == xs[..n] + [xs[n]]
  {
  }

  /** Erasing the element at `i` keeps the prefix and shifts the suffix. */
  lemma EraseAt<T>(xs: seq<T>, i: nat)
    requires i < |xs|
    ensures (xs[..i] + xs[i + 1..])[..i] == xs[..i]
    ensures (xs[..i] + xs[i + 1..])[i..] == xs[i + 1..]
  {
  }

  /** Sum of a sequence of integers, used for accumulated damage. */
  function Sum(ds: seq<int>): int
  {
    if ds == [] then 0 else ds[0] + Sum(ds[1..])
  }
}

/** An optional value, for searches that may find nothing. */
module Options {
  datatype Option<T> = None | Some(value: T)
}
