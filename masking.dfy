/**
 * Column-wise tables and boolean-mask indexing, as numpy does it:
 * `xs[mask]` keeps, in order, the entries of `xs` whose mask entry is true.
 */
module Masking {

  /** `xs[mask]` for a boolean mask of the same length. */
  function Compress<T>(xs: seq<T>, mask: seq<bool>): (r: seq<T>)
    requires |mask| == |xs|
    ensures |r| <= |xs|
    ensures forall k :: 0 <= k < |r| ==> r[k] in xs
    decreases |xs|
  {
    if xs == [] then []
    else (if mask[0] then [xs[0]] else []) + Compress(xs[1..], mask[1..])
  }

  /** Applies `f` to every entry: one column derived from another. */
  function Column<T, U>(xs: seq<T>, f: T -> U): (r: seq<U>) {
    seq(|xs|, i requires 0 <= i < |xs| => f(xs[i]))
  }

  /** `a` is obtained from `b` by deleting entries, keeping the order of the rest. */
  predicate IsSubsequence<T(==)>(a: seq<T>, b: seq<T>)
    decreases |b|
  {
    if b == [] then a == []
    else (a != [] && a[0] == b[0] && IsSubsequence(a[1..], b[1..])) || IsSubsequence(a, b[1..])
  }

  /** `idx` lists positions below `n` in strictly increasing order. */
  ghost predicate IncreasingPositions(idx: seq<int>, n: int) {
    && (forall k :: 0 <= k < |idx| ==> 0 <= idx[k] < n)
    && (forall j, k :: 0 <= j < k < |idx| ==> idx[j] < idx[k])
  }

  /**
   * Boolean-mask indexing keeps exactly the masked-in positions, in increasing order:
   * the k-th kept entry is `xs[idx[k]]`, and position `i` is kept iff `mask[i]`.
   */
  lemma {:induction false} CompressIndexing<T>(xs: seq<T>, mask: seq<bool>) returns (idx: seq<int>)
    requires |mask| == |xs|
    ensures IncreasingPositions(idx, |xs|)
    ensures |idx| == |Compress(xs, mask)|
    ensures forall k :: 0 <= k < |idx| ==> Compress(xs, mask)[k] == xs[idx[k]]
    ensures forall i :: 0 <= i < |xs| ==> (mask[i] <==> i in idx)
    decreases |xs|
  {
    if xs == [] {
      idx := [];
    } else {
      var tail := CompressIndexing(xs[1..], mask[1..]);
      idx := ConsIndexing(xs[0], xs[1..], mask[0], mask[1..], Compress(xs[1..], mask[1..]), tail);
      assert [xs[0]] + xs[1..] == xs;
      assert [mask[0]] + mask[1..] == mask;
    }
  }

  /** One inductive step of CompressIndexing: a row in front of an indexed tail. */
  lemma ConsIndexing<T>(x: T, xs: seq<T>, m: bool, mask: seq<bool>, rest: seq<T>, tail: seq<int>)
    returns (idx: seq<int>)
    requires |mask| == |xs| && |tail| == |rest|
    requires IncreasingPositions(tail, |xs|)
    requires forall k :: 0 <= k < |tail| ==> rest[k] == xs[tail[k]]
    requires forall i :: 0 <= i < |xs| ==> (mask[i] <==> i in tail)
    ensures IncreasingPositions(idx, |xs| + 1)
    ensures |idx| == |(if m then [x] else []) + rest|
    ensures forall k :: 0 <= k < |idx| ==> ((if m then [x] else []) + rest)[k] == ([x] + xs)[idx[k]]
    ensures forall i :: 0 <= i < |xs| + 1 ==> (([m] + mask)[i] <==> i in idx)
  {
    var shifted := Shift(tail);
    ShiftFacts(tail, |xs|);
    var head: seq<T> := if m then [x] else [];
    idx := if m then [0] + shifted else shifted;
    forall k | 0 <= k < |idx|
      ensures (head + rest)[k] == ([x] + xs)[idx[k]]
    {
      if m && k == 0 {
      } else {
        var j := if m then k - 1 else k;
        assert idx[k] == tail[j] + 1;
        assert (head + rest)[k] == rest[j];
      }
    }
    forall i | 0 <= i < |xs| + 1
      ensures ([m] + mask)[i] <==> i in idx
    {
      if i > 0 {
        assert ([m] + mask)[i] == mask[i - 1];
        assert i in idx <==> i in shifted;
      }
    }
  }

  /** Every position moved one place to the right. */
  function Shift(idx: seq<int>): (r: seq<int>) {
    seq(|idx|, k requires 0 <= k < |idx| => idx[k] + 1)
  }

  lemma ShiftFacts(idx: seq<int>, n: int)
    requires IncreasingPositions(idx, n)
    ensures IncreasingPositions(Shift(idx), n + 1)
    ensures forall k :: 0 <= k < |idx| ==> 0 < Shift(idx)[k]
    ensures forall i :: 1 <= i ==> (i in Shift(idx) <==> i - 1 in idx)
  {
    var s := Shift(idx);
    forall i | 1 <= i
      ensures i in s <==> i - 1 in idx
    {
      if i - 1 in idx {
        var k :| 0 <= k < |idx| && idx[k] == i - 1;
        assert s[k] == i;
      }
      if i in s {
        var k :| 0 <= k < |s| && s[k] == i;
        assert idx[k] == i - 1;
      }
    }
  }

  /** Deriving a column commutes with masking it: `f(xs)[mask] == f(xs[mask])`. */
  lemma {:induction false} CompressColumn<T, U>(xs: seq<T>, mask: seq<bool>, f: T -> U)
    requires |mask| == |xs|
    ensures Compress(Column(xs, f), mask) == Column(Compress(xs, mask), f)
    decreases |xs|
  {
    if xs != [] {
      CompressColumn(xs[1..], mask[1..], f);
      assert Column(xs, f)[1..] == Column(xs[1..], f);
      var head: seq<T> := if mask[0] then [xs[0]] else [];
      ColumnAppend(head, Compress(xs[1..], mask[1..]), f);
    }
  }

  lemma ColumnAppend<T, U>(a: seq<T>, b: seq<T>, f: T -> U)
    ensures Column(a + b, f) == Column(a, f) + Column(b, f)
  {
  }
}
