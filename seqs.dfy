/** Order-preserving filtering of sequences and the subsequence relation.
    Both the title sanitizer (a character filter) and the item loop (which
    skips items without content) are filters in this sense. */
module Seqs {

  /** `a` can be obtained from `b` by deleting elements, keeping the order. */
  predicate IsSubsequence<T(==)>(a: seq<T>, b: seq<T>)
    decreases |b|
  {
    a == [] ||
    (b != [] && ((a[0] == b[0] && IsSubsequence(a[1..], b[1..])) || IsSubsequence(a, b[1..])))
  }

  /** The elements of `s` that satisfy `keep`, in their original order: the
      meaning of a Python generator `x for x in s if keep(x)`.
      With `FilterCounts`, its contract characterises the result completely:
      a subsequence made only of kept elements that holds every kept element
      of `s` as often as `s` does can only be the one that picks all kept
      positions. */
  function Filter<T(==, !new)>(keep: T -> bool, s: seq<T>): (r: seq<T>)
    ensures forall i :: 0 <= i < |r| ==> keep(r[i])
    ensures IsSubsequence(r, s)
  {
    if s == [] then []
    else if keep(s[0]) then [s[0]] + Filter(keep, s[1..]) else Filter(keep, s[1..])
  }

  /** The filter holds every kept element of `s` exactly as often as `s`
      does. With the contract of Filter this characterises the result
      completely: a subsequence made only of kept elements that holds every
      kept element as often as `s` can only be the one that picks all kept
      positions. */
  lemma {:induction false} FilterCounts<T(!new)>(keep: T -> bool, s: seq<T>, x: T)
    requires keep(x)
    ensures multiset(Filter(keep, s))[x] == multiset(s)[x]
  {
    if s != [] {
      assert s == [s[0]] + s[1..];
      FilterCounts(keep, s[1..], x);
    }
  }

  /** Filtering distributes over concatenation. */
  lemma {:induction false} FilterAppend<T(!new)>(keep: T -> bool, a: seq<T>, b: seq<T>)
    ensures Filter(keep, a + b) == Filter(keep, a) + Filter(keep, b)
  {
    if a == [] {
      assert a + b == b;
    } else {
      var ab := a + b;
      assert ab[0] == a[0] && ab[1..] == a[1..] + b;
      FilterAppend(keep, a[1..], b);
      if keep(a[0]) {
        calc {
          Filter(keep, ab);
          [a[0]] + Filter(keep, a[1..] + b);
          [a[0]] + (Filter(keep, a[1..]) + Filter(keep, b));
        }
      }
    }
  }

  /** A sequence all of whose elements are kept is its own filter. */
  lemma {:induction false} FilterKeepsAll<T(!new)>(keep: T -> bool, s: seq<T>)
    requires forall i :: 0 <= i < |s| ==> keep(s[i])
    ensures Filter(keep, s) == s
  {
    if s != [] {
      FilterKeepsAll(keep, s[1..]);
    }
  }

  /** A property every element of `s` has, every element of its filter has. */
  lemma {:induction false} FilterPreserves<T(!new)>(keep: T -> bool, p: T -> bool, s: seq<T>)
    requires forall i :: 0 <= i < |s| ==> p(s[i])
    ensures forall i :: 0 <= i < |Filter(keep, s)| ==> p(Filter(keep, s)[i])
  {
    if s != [] {
      FilterPreserves(keep, p, s[1..]);
    }
  }

  /** Prepending an element to the longer sequence keeps a subsequence. */
  lemma SubsequenceCons<T>(a: seq<T>, x: T, b: seq<T>)
    requires IsSubsequence(a, b)
    ensures IsSubsequence(a, [x] + b)
  {
    assert ([x] + b)[1..] == b;
  }

  /** Dropping the first element of a subsequence keeps a subsequence. */
  lemma {:induction false} SubsequenceDropFirst<T>(a: seq<T>, b: seq<T>)
    requires a != [] && IsSubsequence(a, b)
    ensures IsSubsequence(a[1..], b)
    decreases |b|
  {
    assert b == [b[0]] + b[1..];
    if a[0] == b[0] && IsSubsequence(a[1..], b[1..]) {
      SubsequenceCons(a[1..], b[0], b[1..]);
    } else {
      SubsequenceDropFirst(a, b[1..]);
      SubsequenceCons(a[1..], b[0], b[1..]);
    }
  }

  /** Dropping the last element of a subsequence keeps a subsequence. */
  lemma {:induction false} SubsequenceDropLast<T>(a: seq<T>, b: seq<T>)
    requires a != [] && IsSubsequence(a, b)
    ensures IsSubsequence(a[..|a| - 1], b)
    decreases |b|
  {
    if |a| == 1 {
      assert a[..|a| - 1] == [];
    } else if a[0] == b[0] && IsSubsequence(a[1..], b[1..]) {
      SubsequenceDropLast(a[1..], b[1..]);
      assert a[..|a| - 1][1..] == a[1..][..|a[1..]| - 1];
    } else {
      SubsequenceDropLast(a, b[1..]);
    }
  }

  /** Every suffix of a subsequence is a subsequence. */
  lemma {:induction false} SubsequenceSuffix<T>(a: seq<T>, b: seq<T>, i: nat)
    requires i <= |a| && IsSubsequence(a, b)
    ensures IsSubsequence(a[i..], b)
  {
    if i > 0 {
      SubsequenceSuffix(a, b, i - 1);
      assert a[i..] == a[i - 1..][1..];
      SubsequenceDropFirst(a[i - 1..], b);
    }
  }

  /** Every prefix of a subsequence is a subsequence. */
  lemma {:induction false} SubsequencePrefix<T>(a: seq<T>, b: seq<T>, n: nat)
    requires n <= |a| && IsSubsequence(a, b)
    ensures IsSubsequence(a[..n], b)
    decreases |a| - n
  {
    if n < |a| {
      SubsequencePrefix(a, b, n + 1);
      assert a[..n] == a[..n + 1][..n];
      SubsequenceDropLast(a[..n + 1], b);
    } else {
      assert a[..n] == a;
    }
  }

  /** Every slice of a subsequence is a subsequence. */
  lemma SubsequenceSlice<T>(a: seq<T>, b: seq<T>, i: nat, j: nat)
    requires i <= j <= |a| && IsSubsequence(a, b)
    ensures IsSubsequence(a[i..j], b)
  {
    SubsequenceSuffix(a, b, i);
    SubsequencePrefix(a[i..], b, j - i);
    assert a[i..][..j - i] == a[i..j];
  }
}
