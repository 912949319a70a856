/** Array operations of JavaScript used by the modelled code, on sequences. */
module Seqs {

  /** `xs.indexOf(x)`: the first position of `x`, or -1 when it does not occur. */
  function IndexOf<T(==)>(xs: seq<T>, x: T): (i: int)
    ensures -1 <= i < |xs|
    ensures i == -1 <==> x !in xs
    ensures 0 <= i ==> xs[i] == x && x !in xs[..i]
  {
    if |xs| == 0 then -1
    else if xs[0] == x then 0
    else
      var j := IndexOf(xs[1..], x);
      assert xs[1..][..if j < 0 then 0 else j] == xs[1..if j < 0 then 1 else j + 1];
      if j == -1 then -1 else j + 1
  }

  /** The start position `Array.prototype.splice` uses for `start` on an array of length `len`. */
  function SpliceStart(len: nat, start: int): (k: nat)
    ensures k <= len
    ensures 0 <= start <= len ==> k == start
    ensures start < 0 && -start <= len ==> k == len + start
    ensures start < -(len as int) ==> k == 0
    ensures start > len ==> k == len
  {
    if start < 0 then (if len + start < 0 then 0 else len + start)
    else if start > len then len
    else start
  }

  /** `xs` without the element at position `i` (a one-element `splice(i, 1)`). */
  function RemoveAt<T>(xs: seq<T>, i: nat): (r: seq<T>)
    requires i < |xs|
    ensures |r| == |xs| - 1
    ensures forall k :: 0 <= k < i ==> r[k] == xs[k]
    ensures forall k :: i <= k < |r| ==> r[k] == xs[k + 1]
  {
    xs[..i] + xs[i + 1..]
  }

  /** `xs` with `x` inserted before position `i` (a `splice(i, 0, x)`). */
  function InsertAt<T>(xs: seq<T>, i: nat, x: T): (r: seq<T>)
    requires i <= |xs|
    ensures |r| == |xs| + 1
    ensures r[i] == x
    ensures forall k :: 0 <= k < i ==> r[k] == xs[k]
    ensures forall k :: i < k < |r| ==> r[k] == xs[k - 1]
  {
    xs[..i] + [x] + xs[i..]
  }

  /** A sequence is its prefix up to `i` followed by the rest. */
  lemma SplitAt<T>(xs: seq<T>, i: nat)
    requires i <= |xs|
    ensures xs[..i] + xs[i..] == xs
  {
  }

  /** Inserting is concatenating around the new element. */
  lemma InsertAtConcat<T>(xs: seq<T>, i: nat, x: T)
    requires i <= |xs|
    ensures InsertAt(xs, i, x) == xs[..i] + ([x] + xs[i..])
  {
  }

  /** Removing what was just inserted gives the original back. */
  lemma RemoveInsert<T>(xs: seq<T>, i: nat, x: T)
    requires i <= |xs|
    ensures RemoveAt(InsertAt(xs, i, x), i) == xs
  {
  }

  /** Inserting the removed element where it was gives the original back. */
  lemma InsertRemove<T>(xs: seq<T>, i: nat)
    requires i < |xs|
    ensures InsertAt(RemoveAt(xs, i), i, xs[i]) == xs
  {
  }

  lemma MultisetInsertAt<T>(xs: seq<T>, i: nat, x: T)
    requires i <= |xs|
    ensures multiset(InsertAt(xs, i, x)) == multiset(xs) + multiset{x}
  {
    assert xs == xs[..i] + xs[i..];
  }

  lemma MultisetRemoveAt<T>(xs: seq<T>, i: nat)
    requires i < |xs|
    ensures multiset(RemoveAt(xs, i)) + multiset{xs[i]} == multiset(xs)
  {
    assert xs == xs[..i] + [xs[i]] + xs[i + 1..];
  }

  /** No element occurs twice. */
  predicate Distinct<T(==)>(xs: seq<T>) {
    forall i, j :: 0 <= i < j < |xs| ==> xs[i] != xs[j]
  }

  /** `xs.filter(y => y !== x)`. */
  function Without<T(==)>(xs: seq<T>, x: T): (r: seq<T>)
    ensures x !in r
    ensures forall i :: 0 <= i < |r| ==> r[i] in xs && r[i] != x
    ensures forall i :: 0 <= i < |xs| && xs[i] != x ==> xs[i] in r
    ensures |r| <= |xs|
  {
    if |xs| == 0 then []
    else if xs[0] == x then Without(xs[1..], x)
    else [xs[0]] + Without(xs[1..], x)
  }

  /** The tail of a duplicate-free sequence is duplicate-free and does not hold the head. */
  lemma DistinctTail<T>(xs: seq<T>)
    requires |xs| > 0 && Distinct(xs)
    ensures Distinct(xs[1..])
    ensures xs[0] !in xs[1..]
  {
    var t := xs[1..];
    forall i, j | 0 <= i < j < |t| ensures t[i] != t[j] {
      assert t[i] == xs[i + 1] && t[j] == xs[j + 1];
    }
    forall k | 0 <= k < |t| ensures t[k] != xs[0] {
      assert t[k] == xs[k + 1];
    }
  }

  /** Removing past the head of a sequence removes from its tail. */
  lemma RemoveAtBehindHead<T>(h: T, t: seq<T>, j: nat)
    requires j < |t|
    ensures RemoveAt([h] + t, j + 1) == [h] + RemoveAt(t, j)
  {
    assert ([h] + t)[..j + 1] == [h] + t[..j];
    assert ([h] + t)[j + 2..] == t[j + 1..];
  }

  /** In a sequence without duplicates, removing the element found by `indexOf` is the same
      as filtering that element out: the other elements keep their relative order. */
  lemma {:induction false} RemoveIndexOfIsWithout<T>(xs: seq<T>, x: T)
    requires Distinct(xs)
    requires x in xs
    ensures RemoveAt(xs, IndexOf(xs, x)) == Without(xs, x)
  {
    DistinctTail(xs);
    var t := xs[1..];
    assert xs == [xs[0]] + t;
    if xs[0] == x {
      WithoutAbsent(t, x);
      assert RemoveAt(xs, 0) == t;
    } else {
      RemoveIndexOfIsWithout(t, x);
      RemoveAtBehindHead(xs[0], t, IndexOf(t, x));
    }
  }

  /** Filtering out an element that does not occur changes nothing. */
  lemma {:induction false} WithoutAbsent<T>(xs: seq<T>, x: T)
    requires x !in xs
    ensures Without(xs, x) == xs
  {
    if |xs| > 0 {
      assert x !in xs[1..];
      WithoutAbsent(xs[1..], x);
    }
  }

  /** Two sequences with the same multiset hold the same elements. */
  lemma SameElements<T>(a: seq<T>, b: seq<T>, x: T)
    requires multiset(a) == multiset(b)
    ensures x in a <==> x in b
  {
    assert x in a <==> x in multiset(a);
    assert x in b <==> x in multiset(b);
  }

  /** A permutation of a duplicate-free sequence is duplicate-free. */
  lemma PermutationKeepsDistinct<T>(a: seq<T>, b: seq<T>)
    requires multiset(a) == multiset(b) && Distinct(a)
    ensures Distinct(b)
  {
    forall i, j | 0 <= i < j < |b| ensures b[i] != b[j] {
      MultiplicityInDistinct(a, b[i]);
      RepeatedMultiplicity(b, i, j);
    }
  }

  /** An element at two positions occurs at least twice. */
  lemma RepeatedMultiplicity<T>(b: seq<T>, i: nat, j: nat)
    requires i < j < |b|
    ensures b[i] == b[j] ==> multiset(b)[b[i]] >= 2
  {
    var x := b[i];
    assert b == b[..i] + [x] + b[i + 1..j] + [b[j]] + b[j + 1..];
  }

  /** An element of a duplicate-free sequence occurs at most once. */
  lemma {:induction false} MultiplicityInDistinct<T>(a: seq<T>, x: T)
    requires Distinct(a)
    ensures multiset(a)[x] <= 1
  {
    if |a| > 0 {
      DistinctTail(a);
      MultiplicityInDistinct(a[1..], x);
      assert a == [a[0]] + a[1..];
    }
  }
}
