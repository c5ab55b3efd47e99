/**
 Small generic building blocks shared by the rest of the model: an optional
 value, order-preserving filtering and flattening of sequences.
 */
module Common {

  /** A value that may be absent; stands for Python's `None` or a value. */
  datatype Option<+T> = None | Some(value: T)

  /** The elements of `xs` that satisfy `p`, in their original order
      (a list comprehension `[x for x in xs if p(x)]`). */
  function Filter<T(!new)>(xs: seq<T>, p: T -> bool): (r: seq<T>)
    ensures |r| <= |xs|
    ensures forall x :: x in r <==> x in xs && p(x)
  {
    if xs == [] then []
    else (if p(xs[0]) then [xs[0]] else []) + Filter(xs[1..], p)
  }

  /** `a` is obtained from `b` by deleting some elements (order kept). */
  ghost predicate IsSubsequence<T>(a: seq<T>, b: seq<T>)
    decreases |b|
  {
    if a == [] then true
    else if b == [] then false
    else if a[0] == b[0] then IsSubsequence(a[1..], b[1..])
    else IsSubsequence(a, b[1..])
  }

  /** Filtering keeps the order of what it keeps. */
  lemma {:induction false} FilterIsSubsequence<T(!new)>(xs: seq<T>, p: T -> bool)
    ensures IsSubsequence(Filter(xs, p), xs)
    decreases |xs|
  {
    if xs != [] {
      FilterIsSubsequence(xs[1..], p);
      var r := Filter(xs, p);
      if p(xs[0]) {
        assert r[0] == xs[0] && r[1..] == Filter(xs[1..], p);
      } else {
        assert r == Filter(xs[1..], p);
        SubsequenceSkip(r, xs);
      }
    }
  }

  /** A subsequence of the tail is a subsequence of the whole. */
  lemma {:induction false} SubsequenceSkip<T>(a: seq<T>, b: seq<T>)
    requires b != []
    requires IsSubsequence(a, b[1..])
    ensures IsSubsequence(a, b)
    decreases |b|, 0
  {
    if a != [] && a[0] == b[0] {
      // a[1..] is a subsequence of b[1..] because a is (drop its head)
      SubsequenceTail(a, b[1..]);
    }
  }

  /** Dropping the head of a subsequence keeps it a subsequence. */
  lemma {:induction false} SubsequenceTail<T>(a: seq<T>, b: seq<T>)
    requires a != []
    requires IsSubsequence(a, b)
    ensures IsSubsequence(a[1..], b)
    decreases |b|, 1
  {
    if a[0] != b[0] {
      SubsequenceTail(a, b[1..]);
    }
    SubsequenceSkip(a[1..], b);
  }

  /** Filtering twice is filtering once by the conjunction of both tests. */
  lemma {:induction false} FilterFilter<T(!new)>(xs: seq<T>, p: T -> bool, q: T -> bool, both: T -> bool)
    requires forall x :: both(x) == (p(x) && q(x))
    ensures Filter(Filter(xs, p), q) == Filter(xs, both)
    decreases |xs|
  {
    if xs != [] {
      FilterFilter(xs[1..], p, q, both);
      FilterAppend((if p(xs[0]) then [xs[0]] else []), Filter(xs[1..], p), q);
    }
  }

  /** Filtering distributes over concatenation. */
  lemma {:induction false} FilterAppend<T(!new)>(a: seq<T>, b: seq<T>, p: T -> bool)
    ensures Filter(a + b, p) == Filter(a, p) + Filter(b, p)
    decreases |a|
  {
    if a == [] {
      assert a + b == b;
    } else {
      assert (a + b)[1..] == a[1..] + b;
      FilterAppend(a[1..], b, p);
    }
  }

  /** Filtering by a test every element passes changes nothing. */
  lemma {:induction false} FilterAll<T(!new)>(xs: seq<T>, p: T -> bool)
    requires forall x :: x in xs ==> p(x)
    ensures Filter(xs, p) == xs
    decreases |xs|
  {
    if xs != [] {
      FilterAll(xs[1..], p);
      assert xs == [xs[0]] + xs[1..];
    }
  }

  /** Filters by two tests that agree everywhere are the same. */
  lemma {:induction false} FilterSame<T(!new)>(xs: seq<T>, p: T -> bool, q: T -> bool)
    requires forall x :: p(x) == q(x)
    ensures Filter(xs, p) == Filter(xs, q)
    decreases |xs|
  {
    if xs != [] {
      FilterSame(xs[1..], p, q);
    }
  }

  /** Concatenation of a sequence of sequences. */
  function Flatten<T>(xss: seq<seq<T>>): (r: seq<T>)
    ensures xss == [] ==> r == []
  {
    if xss == [] then [] else xss[0] + Flatten(xss[1..])
  }

  lemma {:induction false} FlattenAppend<T>(a: seq<seq<T>>, b: seq<seq<T>>)
    ensures Flatten(a + b) == Flatten(a) + Flatten(b)
    decreases |a|
  {
    if a == [] {
      assert a + b == b;
    } else {
      assert (a + b)[1..] == a[1..] + b;
      FlattenAppend(a[1..], b);
    }
  }

  /** The index of the first element satisfying `p`, or `|xs|` when none
      does (a `for` loop that returns at its first hit). */
  function FirstWhere<T>(xs: seq<T>, p: T -> bool): (k: nat)
    ensures k <= |xs|
    ensures k < |xs| ==> p(xs[k])
    ensures forall j :: 0 <= j < k ==> !p(xs[j])
  {
    if xs == [] then 0
    else if p(xs[0]) then 0
    else
      var k := FirstWhere(xs[1..], p);
      assert forall j :: 1 <= j <= k ==> xs[j] == xs[1..][j - 1];
      1 + k
  }

  /** Searching a concatenation searches the left part first. */
  lemma {:induction false} FirstWhereAppend<T>(a: seq<T>, b: seq<T>, p: T -> bool)
    ensures FirstWhere(a + b, p) == if FirstWhere(a, p) < |a| then FirstWhere(a, p) else |a| + FirstWhere(b, p)
    decreases |a|
  {
    if a == [] {
      assert a + b == b;
    } else {
      assert (a + b)[0] == a[0] && (a + b)[1..] == a[1..] + b;
      FirstWhereAppend(a[1..], b, p);
    }
  }

  /** An element satisfying `p` with none before it is the first. */
  lemma FirstWhereIs<T>(xs: seq<T>, p: T -> bool, i: nat)
    requires i < |xs| && p(xs[i])
    requires forall j :: 0 <= j < i ==> !p(xs[j])
    ensures FirstWhere(xs, p) == i
  {
  }

  /** Without an element satisfying `p` the search runs to the end. */
  lemma FirstWhereNone<T>(xs: seq<T>, p: T -> bool)
    requires forall j :: 0 <= j < |xs| ==> !p(xs[j])
    ensures FirstWhere(xs, p) == |xs|
  {
  }
}
