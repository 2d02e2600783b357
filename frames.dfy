/**
 * Rows of a time-indexed price frame and the index operations the engine uses:
 * the sortedness test behind `is_monotonic_increasing` and `sort_index`.
 */
module Frames {

  /** One OHLCV bar; `time` is the bar's opening time in whole minutes. */
  datatype Bar = Bar(time: int, open: real, high: real, low: real, close: real, volume: real)

  function BarTime(b: Bar): int { b.time }

  /** The frame's index is monotonically increasing (equal neighbours allowed). */
  predicate SortedBy<T>(s: seq<T>, key: T -> int) {
    forall i, j :: 0 <= i < j < |s| ==> key(s[i]) <= key(s[j])
  }

  /** Inserts `x` into an already sorted sequence, after every row with the same key. */
  function Insert<T(==)>(x: T, s: seq<T>, key: T -> int): (r: seq<T>)
    requires SortedBy(s, key)
    ensures |r| == |s| + 1
    ensures multiset(r) == multiset(s) + multiset{x}
    ensures r[0] == x || (|s| > 0 && r[0] == s[0])
    ensures SortedBy(r, key)
  {
    if |s| == 0 then [x]
    else if key(x) < key(s[0]) then [x] + s
    else
      var rest := Insert(x, s[1..], key);
      assert s == [s[0]] + s[1..];
      assert key(s[0]) <= key(rest[0]);
      [s[0]] + rest
  }

  /** `sort_index`: a sorted permutation of the rows (stable insertion sort). */
  function SortBy<T(==)>(s: seq<T>, key: T -> int): (r: seq<T>)
    ensures |r| == |s|
    ensures multiset(r) == multiset(s)
    ensures SortedBy(r, key)
  {
    if |s| == 0 then []
    else
      assert s == [s[0]] + s[1..];
      Insert(s[0], SortBy(s[1..], key), key)
  }

  /** `xs` is `ys` with some elements left out and the others kept in their order. */
  predicate Subsequence<T(==)>(xs: seq<T>, ys: seq<T>)
    decreases |ys|
  {
    if |xs| == 0 then true
    else if |ys| == 0 then false
    else if xs[|xs| - 1] == ys[|ys| - 1] then Subsequence(xs[..|xs| - 1], ys[..|ys| - 1])
    else Subsequence(xs, ys[..|ys| - 1])
  }

  /** Keeping a new last element on both sides keeps a subsequence. */
  lemma SubsequenceSnocBoth<T>(xs: seq<T>, ys: seq<T>, y: T)
    requires Subsequence(xs, ys)
    ensures Subsequence(xs + [y], ys + [y])
  {
    assert (xs + [y])[..|xs|] == xs;
    assert (ys + [y])[..|ys|] == ys;
  }

  /** Leaving out the last element of the shorter side keeps a subsequence. */
  lemma {:induction false} SubsequenceDropLast<T>(xs: seq<T>, ys: seq<T>)
    requires |xs| > 0 && Subsequence(xs, ys)
    ensures Subsequence(xs[..|xs| - 1], ys)
  {
    var xs' := xs[..|xs| - 1];
    var ys' := ys[..|ys| - 1];
    if xs[|xs| - 1] != ys[|ys| - 1] {
      SubsequenceDropLast(xs, ys');
    }
    // Now Subsequence(xs', ys') holds in both cases.
    if |xs'| > 0 && xs'[|xs'| - 1] == ys[|ys| - 1] {
      SubsequenceDropLast(xs', ys');
    }
  }

  /** Leaving out a new last element of the longer side keeps a subsequence. */
  lemma {:induction false} SubsequenceSnoc<T>(xs: seq<T>, ys: seq<T>, y: T)
    requires Subsequence(xs, ys)
    ensures Subsequence(xs, ys + [y])
  {
    assert (ys + [y])[..|ys|] == ys;
    if |xs| > 0 && xs[|xs| - 1] == y {
      SubsequenceDropLast(xs, ys);
    }
  }

  /** Every element of a subsequence occurs in the longer sequence. */
  lemma {:induction false} SubsequenceMembers<T>(xs: seq<T>, ys: seq<T>)
    requires Subsequence(xs, ys)
    ensures forall i :: 0 <= i < |xs| ==> xs[i] in ys
  {
    if |xs| > 0 {
      var ys' := ys[..|ys| - 1];
      if xs[|xs| - 1] == ys[|ys| - 1] {
        SubsequenceMembers(xs[..|xs| - 1], ys');
        forall i | 0 <= i < |xs| ensures xs[i] in ys {
          if i < |xs| - 1 {
            assert xs[i] == xs[..|xs| - 1][i];
            assert xs[i] in ys';
          }
        }
      } else {
        SubsequenceMembers(xs, ys');
      }
    }
  }
}
