/**
 Python's ordering of strings (by code point, a proper prefix first) and
 `sorted(set(xs))`, the sorted list of the distinct elements.
 */
module Order {

  /** Python's `a < b` on strings. */
  predicate Less(a: string, b: string)
    decreases |a|
  {
    if a == [] then b != []
    else b != [] && (a[0] < b[0] || (a[0] == b[0] && Less(a[1..], b[1..])))
  }

  lemma {:induction false} LessIrreflexive(a: string)
    ensures !Less(a, a)
    decreases |a|
  {
    if a != [] {
      LessIrreflexive(a[1..]);
    }
  }

  lemma {:induction false} LessTransitive(a: string, b: string, c: string)
    requires Less(a, b) && Less(b, c)
    ensures Less(a, c)
    decreases |a|
  {
    if a != [] && a[0] == b[0] && b[0] == c[0] {
      LessTransitive(a[1..], b[1..], c[1..]);
    }
  }

  lemma {:induction false} LessTotal(a: string, b: string)
    requires a != b
    ensures Less(a, b) || Less(b, a)
    decreases |a|
  {
    if a != [] && b != [] && a[0] == b[0] {
      assert a[1..] != b[1..] by {
        assert a == [a[0]] + a[1..] && b == [b[0]] + b[1..];
      }
      LessTotal(a[1..], b[1..]);
    }
  }

  /** Increasing without repetition. */
  predicate StrictlySorted(xs: seq<string>)
  {
    forall i, j :: 0 <= i < j < |xs| ==> Less(xs[i], xs[j])
  }

  /** Puts `x` into its place in a strictly sorted list, unless it is there already. */
  function Insert(x: string, xs: seq<string>): (r: seq<string>)
    requires StrictlySorted(xs)
    ensures StrictlySorted(r)
    ensures forall y :: y in r <==> y == x || y in xs
    decreases |xs|
  {
    if xs == [] then [x]
    else if x == xs[0] then xs
    else if Less(x, xs[0]) then
      InsertFront(x, xs);
      [x] + xs
    else
      var rest := Insert(x, xs[1..]);
      InsertBehind(x, xs, rest);
      [xs[0]] + rest
  }

  lemma InsertFront(x: string, xs: seq<string>)
    requires StrictlySorted(xs) && xs != [] && Less(x, xs[0])
    ensures StrictlySorted([x] + xs)
  {
    forall j | 1 <= j < |xs|
      ensures Less(x, xs[j])
    {
      LessTransitive(x, xs[0], xs[j]);
    }
  }

  lemma InsertBehind(x: string, xs: seq<string>, rest: seq<string>)
    requires StrictlySorted(xs) && xs != [] && x != xs[0] && !Less(x, xs[0])
    requires StrictlySorted(rest)
    requires forall y :: y in rest <==> y == x || y in xs[1..]
    ensures StrictlySorted([xs[0]] + rest)
  {
    LessTotal(x, xs[0]);
    forall j | 0 <= j < |rest|
      ensures Less(xs[0], rest[j])
    {
      if rest[j] != x {
        assert rest[j] in xs[1..];
      }
    }
  }

  /** `sorted(set(xs))`. */
  function SortedUnique(xs: seq<string>): (r: seq<string>)
    ensures StrictlySorted(r)
    ensures forall y :: y in r <==> y in xs
  {
    if xs == [] then [] else Insert(xs[0], SortedUnique(xs[1..]))
  }

  /** A strictly sorted list is fixed by its elements: whatever order the
      elements were collected in, `sorted(set(xs))` is the same list. */
  lemma {:induction false} SortedByElements(a: seq<string>, b: seq<string>)
    requires StrictlySorted(a) && StrictlySorted(b)
    requires forall y :: y in a <==> y in b
    ensures a == b
    decreases |a|
  {
    if b != [] {
      assert b[0] in a;
    }
    if a != [] {
      assert a[0] in b;
      if a[0] != b[0] {
        var i :| 0 <= i < |b| && b[i] == a[0];
        var j :| 0 <= j < |a| && a[j] == b[0];
        LessTransitive(a[0], b[0], a[0]);
        LessIrreflexive(a[0]);
      }
      forall y
        ensures y in a[1..] <==> y in b[1..]
      {
        if y in a[1..] {
          assert y in b;
          var k :| 1 <= k < |a| && a[k] == y;
          LessIrreflexive(a[0]);
          var m :| 0 <= m < |b| && b[m] == y;
          assert m != 0;
        }
        if y in b[1..] {
          assert y in a;
          var k :| 1 <= k < |b| && b[k] == y;
          LessIrreflexive(b[0]);
          var m :| 0 <= m < |a| && a[m] == y;
          assert m != 0;
        }
      }
      SortedByElements(a[1..], b[1..]);
      assert a == [a[0]] + a[1..] && b == [b[0]] + b[1..];
    }
  }

  /** Sorting the distinct elements does not depend on their order or repetitions. */
  lemma SortedUniqueBySet(xs: seq<string>, ys: seq<string>)
    requires forall y :: y in xs <==> y in ys
    ensures SortedUnique(xs) == SortedUnique(ys)
  {
    SortedByElements(SortedUnique(xs), SortedUnique(ys));
  }
}
