/** The JavaScript array operations the extension relies on, over Dafny sequences. */
module Seqs {

  /** `xs.filter(p)`: the elements of `xs` that satisfy `p`, in their original order. */
  function Filter<T(==)>(p: T -> bool, xs: seq<T>): (r: seq<T>)
    ensures |r| <= |xs|
    ensures forall i :: 0 <= i < |r| ==> r[i] in xs && p(r[i])
    ensures forall i :: 0 <= i < |xs| && p(xs[i]) ==> xs[i] in r
  {
    if |xs| == 0 then [] else (if p(xs[0]) then [xs[0]] else []) + Filter(p, xs[1..])
  }

  /** A filter every element passes keeps the whole sequence. */
  lemma {:induction false} FilterKeepsAll<T>(p: T -> bool, xs: seq<T>)
    requires forall i :: 0 <= i < |xs| ==> p(xs[i])
    ensures Filter(p, xs) == xs
  {
    if |xs| > 0 {
      FilterKeepsAll(p, xs[1..]);
      assert [xs[0]] + xs[1..] == xs;
    }
  }

  /** Filtering distributes over concatenation, which is what "keeps the input order" means. */
  lemma {:induction false} FilterConcat<T>(p: T -> bool, a: seq<T>, b: seq<T>)
    ensures Filter(p, a + b) == Filter(p, a) + Filter(p, b)
  {
    if |a| == 0 {
      assert a + b == b;
    } else {
      assert (a + b)[1..] == a[1..] + b;
      FilterConcat(p, a[1..], b);
    }
  }

  /** Every pair of elements, taken in order, is related by `before`. */
  ghost predicate Ordered<T>(before: (T, T) -> bool, xs: seq<T>) {
    forall i, j :: 0 <= i < j < |xs| ==> before(xs[i], xs[j])
  }

  /** Filtering keeps the relative order of the elements it keeps. */
  lemma {:induction false} FilterOrdered<T>(p: T -> bool, before: (T, T) -> bool, xs: seq<T>)
    requires Ordered(before, xs)
    ensures Ordered(before, Filter(p, xs))
  {
    if |xs| > 0 {
      var tail := xs[1..];
      OrderedTail(before, xs);
      FilterOrdered(p, before, tail);
      var rest := Filter(p, tail);
      if p(xs[0]) {
        assert Filter(p, xs) == [xs[0]] + rest;
        forall y | y in rest ensures before(xs[0], y) {
          HeadBefore(before, xs, y);
        }
        OrderedCons(before, xs[0], rest);
      }
    }
  }

  lemma OrderedCons<T>(before: (T, T) -> bool, x: T, rest: seq<T>)
    requires Ordered(before, rest) && forall y :: y in rest ==> before(x, y)
    ensures Ordered(before, [x] + rest)
  {
    var r := [x] + rest;
    forall i, j | 0 <= i < j < |r| ensures before(r[i], r[j]) {
      assert r[j] == rest[j - 1];
      if i > 0 {
        assert r[i] == rest[i - 1];
      }
    }
  }

  lemma OrderedTail<T>(before: (T, T) -> bool, xs: seq<T>)
    requires Ordered(before, xs) && |xs| > 0
    ensures Ordered(before, xs[1..])
  {
    var tail := xs[1..];
    forall i, j | 0 <= i < j < |tail| ensures before(tail[i], tail[j]) {
      assert tail[i] == xs[i + 1] && tail[j] == xs[j + 1];
    }
  }

  lemma HeadBefore<T>(before: (T, T) -> bool, xs: seq<T>, y: T)
    requires Ordered(before, xs) && |xs| > 0 && y in xs[1..]
    ensures before(xs[0], y)
  {
    var k :| 0 <= k < |xs| - 1 && xs[1..][k] == y;
    assert xs[k + 1] == y;
  }

  /** The position of the first occurrence of `x` in `xs`. */
  function FirstIndex<T(==)>(xs: seq<T>, x: T): (k: nat)
    requires x in xs
    ensures k < |xs| && xs[k] == x && x !in xs[..k]
  {
    if xs[0] == x then 0 else 1 + FirstIndex(xs[1..], x)
  }

  /** A sequence without repeated elements. */
  predicate Distinct<T(==)>(xs: seq<T>) {
    forall i, j :: 0 <= i < j < |xs| ==> xs[i] != xs[j]
  }

  /** `Array.from(new Set(xs))`: the elements of `xs` without repetitions, kept at their first occurrence. */
  function Dedup<T(==)>(xs: seq<T>): (r: seq<T>)
  {
    if |xs| == 0 then []
    else
      var d := Dedup(xs[..|xs| - 1]);
      if xs[|xs| - 1] in d then d else d + [xs[|xs| - 1]]
  }

  lemma {:induction false} FirstIndexOfPrefix<T>(xs: seq<T>, n: nat, x: T)
    requires n <= |xs| && x in xs[..n]
    ensures FirstIndex(xs, x) == FirstIndex(xs[..n], x)
  {
    var k := FirstIndex(xs[..n], x);
    assert xs[..n][..k] == xs[..k];
  }

  /** De-duplication keeps exactly the elements of `xs`, once each, in first-occurrence order. */
  lemma {:induction false} DedupSpec<T>(xs: seq<T>)
    ensures Distinct(Dedup(xs))
    ensures forall x :: x in Dedup(xs) ==> x in xs
    ensures forall x :: x in xs ==> x in Dedup(xs)
    ensures forall i, j :: 0 <= i < j < |Dedup(xs)| ==>
              FirstIndex(xs, Dedup(xs)[i]) < FirstIndex(xs, Dedup(xs)[j])
  {
    if |xs| > 0 {
      var n := |xs| - 1;
      var init := xs[..n];
      var last := xs[n];
      assert xs == init + [last];
      DedupSpec(init);
      var d := Dedup(init);
      forall x | x in d ensures x in init && FirstIndex(xs, x) == FirstIndex(init, x) < n {
        assert x in init;
        FirstIndexOfPrefix(xs, n, x);
      }
      if last !in d {
        var r := d + [last];
        assert last !in init;
        assert FirstIndex(xs, last) == n;
        forall i, j | 0 <= i < j < |r| ensures FirstIndex(xs, r[i]) < FirstIndex(xs, r[j]) {
          if j == |d| {
            assert r[i] == d[i] && r[i] in d;
          } else {
            assert r[i] == d[i] && r[j] == d[j];
          }
        }
      }
    }
  }
}
