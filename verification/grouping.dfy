/**
 Grouping a sequence by a string key, the two ways the GUI does it: into a
 dictionary of lists (`voice_by_scene`) and into a list of groups in the
 order their keys first appear (the insertion order of `scene_groups`,
 which is what the voice panel walks). Both are folds over the input from
 left to right, as the source loops are; the lemmas relate them to
 filtering by key.
 */
module Grouping {
  import opened Common

  /** The test "has key `k`". */
  function KeyIs<T>(key: T -> string, k: string): T -> bool
  {
    x => key(x) == k
  }

  /** `d[k] = d.get(k, []) + [x]` for each `x` in turn. */
  function GroupMap<T>(xs: seq<T>, key: T -> string): map<string, seq<T>>
    decreases |xs|
  {
    if xs == [] then map[]
    else
      var m := GroupMap(xs[..|xs| - 1], key);
      var x := xs[|xs| - 1];
      var k := key(x);
      m[k := (if k in m then m[k] else []) + [x]]
  }

  /** Filtering a single element. */
  lemma FilterOne<T(!new)>(x: T, p: T -> bool)
    ensures Filter([x], p) == if p(x) then [x] else []
  {
    assert [x][1..] == [];
  }

  /** The dictionary holds exactly the keys that occur, and under each key
      the elements with that key, in their original order. */
  lemma {:induction false} GroupMapIsFilter<T(!new)>(xs: seq<T>, key: T -> string)
    ensures forall k :: k in GroupMap(xs, key) <==> Filter(xs, KeyIs(key, k)) != []
    ensures forall k :: k in GroupMap(xs, key) ==> GroupMap(xs, key)[k] == Filter(xs, KeyIs(key, k))
    decreases |xs|
  {
    if xs != [] {
      var p := xs[..|xs| - 1];
      var x := xs[|xs| - 1];
      assert xs == p + [x];
      GroupMapIsFilter(p, key);
      forall k
        ensures Filter(xs, KeyIs(key, k)) == Filter(p, KeyIs(key, k)) + (if key(x) == k then [x] else [])
      {
        FilterAppend(p, [x], KeyIs(key, k));
        FilterOne(x, KeyIs(key, k));
      }
    }
  }

  /** The key of each element, in order. */
  function KeysOf<T>(xs: seq<T>, key: T -> string): (r: seq<string>)
    ensures |r| == |xs|
    ensures forall i :: 0 <= i < |xs| ==> r[i] == key(xs[i])
  {
    seq(|xs|, i requires 0 <= i < |xs| => key(xs[i]))
  }

  /** A key occurs in the list of keys exactly when some element has it. */
  lemma KeysOfMembers<T>(xs: seq<T>, key: T -> string)
    ensures forall k :: k in KeysOf(xs, key) <==> exists x :: x in xs && key(x) == k
  {
    var ks := KeysOf(xs, key);
    forall k | k in ks
      ensures exists x :: x in xs && key(x) == k
    {
      var i :| 0 <= i < |ks| && ks[i] == k;
      assert xs[i] in xs;
    }
  }

  /** A group: a key and the elements filed under it. */
  datatype Group<T> = Group(key: string, members: seq<T>)

  /** Where the group of `k` is, or `|gs|` when there is none. */
  function KeyIndex<T>(gs: seq<Group<T>>, k: string): (n: nat)
    ensures n <= |gs|
    ensures n < |gs| ==> gs[n].key == k
    ensures forall i :: 0 <= i < n ==> gs[i].key != k
  {
    FirstWithKey(gs, (g: Group<T>) => g.key, k)
  }

  /** Files `x` under key `k`: appended to the group of `k`, or a new group
      at the end when `k` has none yet. */
  function AddTo<T>(gs: seq<Group<T>>, k: string, x: T): (r: seq<Group<T>>)
  {
    var n := KeyIndex(gs, k);
    if n < |gs| then gs[n := Group(k, gs[n].members + [x])] else gs + [Group(k, [x])]
  }

  /** Only the keys of the groups decide where a key's group is. */
  lemma {:induction false} KeyIndexByKeys<T>(gs: seq<Group<T>>, hs: seq<Group<T>>, k: string)
    requires |gs| == |hs|
    requires forall i :: 0 <= i < |gs| ==> gs[i].key == hs[i].key
    ensures KeyIndex(gs, k) == KeyIndex(hs, k)
  {
  }

  /** A new group at the end is found only for its own key. */
  lemma KeyIndexSnoc<T>(gs: seq<Group<T>>, g: Group<T>, k: string)
    ensures KeyIndex(gs + [g], k) ==
      if KeyIndex(gs, k) < |gs| then KeyIndex(gs, k)
      else if g.key == k then |gs| else |gs| + 1
  {
    FirstWithKeySnoc(gs, g, (g: Group<T>) => g.key, k);
  }

  /** `for x in xs: groups.setdefault(key(x), []).append(x)`, keeping the
      groups in the order their keys were first met. */
  function Groups<T>(xs: seq<T>, key: T -> string): seq<Group<T>>
    decreases |xs|
  {
    if xs == [] then []
    else AddTo(Groups(xs[..|xs| - 1], key), key(xs[|xs| - 1]), xs[|xs| - 1])
  }

  /** The index of the first element with key `k`, or `|xs|` when there is none. */
  function FirstWithKey<T>(xs: seq<T>, key: T -> string, k: string): nat
  {
    FirstWhere(xs, KeyIs(key, k))
  }

  /** Extending the input leaves earlier first occurrences where they were. */
  lemma FirstWithKeySnoc<T>(xs: seq<T>, x: T, key: T -> string, k: string)
    ensures FirstWithKey(xs + [x], key, k) ==
      if FirstWithKey(xs, key, k) < |xs| then FirstWithKey(xs, key, k)
      else if key(x) == k then |xs| else |xs| + 1
  {
    FirstWhereAppend(xs, [x], KeyIs(key, k));
    assert [x][1..] == [];
  }

  /** A key has a group exactly when some element has it. */
  lemma FilterEmptyIffNoKey<T(!new)>(xs: seq<T>, key: T -> string, k: string)
    ensures Filter(xs, KeyIs(key, k)) == [] <==> FirstWithKey(xs, key, k) == |xs|
  {
    var n := FirstWithKey(xs, key, k);
    if n < |xs| {
      assert xs[n] in Filter(xs, KeyIs(key, k));
    }
  }

  /** No key has two groups. */
  ghost predicate DistinctKeys<T>(gs: seq<Group<T>>)
  {
    forall i, j :: 0 <= i < j < |gs| ==> gs[i].key != gs[j].key
  }

  /** Each group holds exactly the elements with its key, in order. */
  ghost predicate MembersByKey<T(!new)>(xs: seq<T>, key: T -> string, gs: seq<Group<T>>)
  {
    forall i :: 0 <= i < |gs| ==> gs[i].members == Filter(xs, KeyIs(key, gs[i].key))
  }

  /** A key has a group exactly when some element has that key. */
  ghost predicate KeysPresent<T>(xs: seq<T>, key: T -> string, gs: seq<Group<T>>)
  {
    forall k :: KeyIndex(gs, k) < |gs| <==> FirstWithKey(xs, key, k) < |xs|
  }

  /** The groups come in the order their keys first occur. */
  ghost predicate FirstAppearanceOrder<T>(xs: seq<T>, key: T -> string, gs: seq<Group<T>>)
  {
    forall i, j :: 0 <= i < j < |gs| ==>
      FirstWithKey(xs, key, gs[i].key) < FirstWithKey(xs, key, gs[j].key)
  }

  /** The ordered groups: one per key that occurs, no key twice, each holding
      exactly the elements with its key in their original order, and ordered
      by where their keys first occur. */
  ghost predicate GroupedInOrder<T(!new)>(xs: seq<T>, key: T -> string, gs: seq<Group<T>>)
  {
    DistinctKeys(gs) && MembersByKey(xs, key, gs) && KeysPresent(xs, key, gs)
    && FirstAppearanceOrder(xs, key, gs)
  }

  lemma {:induction false} GroupsInOrder<T(!new)>(xs: seq<T>, key: T -> string)
    ensures GroupedInOrder(xs, key, Groups(xs, key))
    decreases |xs|
  {
    if xs != [] {
      var p := xs[..|xs| - 1];
      var x := xs[|xs| - 1];
      assert xs == p + [x];
      GroupsInOrder(p, key);
      var gs := Groups(p, key);
      if KeyIndex(gs, key(x)) < |gs| {
        StepOldKey(p, x, key, gs);
      } else {
        StepNewKey(p, x, key, gs);
      }
    }
  }

  /** One more element changes only the filter of its own key. */
  lemma StepFilter<T(!new)>(p: seq<T>, x: T, key: T -> string, c: string)
    ensures Filter(p + [x], KeyIs(key, c)) == Filter(p, KeyIs(key, c)) + (if key(x) == c then [x] else [])
  {
    FilterAppend(p, [x], KeyIs(key, c));
    FilterOne(x, KeyIs(key, c));
  }

  /** An element whose key already has a group joins that group. */
  lemma StepOldKey<T(!new)>(p: seq<T>, x: T, key: T -> string, gs: seq<Group<T>>)
    requires GroupedInOrder(p, key, gs)
    requires KeyIndex(gs, key(x)) < |gs|
    ensures GroupedInOrder(p + [x], key, AddTo(gs, key(x), x))
  {
    OldKeyMembers(p, x, key, gs);
    OldKeyPresent(p, x, key, gs);
    OldKeyOrder(p, x, key, gs);
  }

  lemma OldKeyMembers<T(!new)>(p: seq<T>, x: T, key: T -> string, gs: seq<Group<T>>)
    requires DistinctKeys(gs) && MembersByKey(p, key, gs)
    requires KeyIndex(gs, key(x)) < |gs|
    ensures DistinctKeys(AddTo(gs, key(x), x))
    ensures MembersByKey(p + [x], key, AddTo(gs, key(x), x))
  {
    var k := key(x);
    var n := KeyIndex(gs, k);
    var r := AddTo(gs, k, x);
    assert forall i :: 0 <= i < |gs| ==> r[i].key == gs[i].key;
    forall i | 0 <= i < |r|
      ensures r[i].members == Filter(p + [x], KeyIs(key, r[i].key))
    {
      StepFilter(p, x, key, gs[i].key);
      if i != n {
        assert r[i] == gs[i] && gs[i].key != k;
      }
    }
  }

  lemma OldKeyPresent<T>(p: seq<T>, x: T, key: T -> string, gs: seq<Group<T>>)
    requires KeysPresent(p, key, gs)
    requires KeyIndex(gs, key(x)) < |gs|
    ensures KeysPresent(p + [x], key, AddTo(gs, key(x), x))
  {
    var r := AddTo(gs, key(x), x);
    assert FirstWithKey(p, key, key(x)) < |p|;
    forall c
      ensures KeyIndex(r, c) < |r| <==> FirstWithKey(p + [x], key, c) < |p + [x]|
    {
      KeyIndexByKeys(r, gs, c);
      FirstWithKeySnoc(p, x, key, c);
    }
  }

  lemma OldKeyOrder<T>(p: seq<T>, x: T, key: T -> string, gs: seq<Group<T>>)
    requires KeysPresent(p, key, gs) && FirstAppearanceOrder(p, key, gs)
    requires KeyIndex(gs, key(x)) < |gs|
    ensures FirstAppearanceOrder(p + [x], key, AddTo(gs, key(x), x))
  {
    var r := AddTo(gs, key(x), x);
    forall i | 0 <= i < |r|
      ensures FirstWithKey(p + [x], key, r[i].key) == FirstWithKey(p, key, gs[i].key)
    {
      assert r[i].key == gs[i].key;
      KeyIndexAtMost(gs, i);
      FirstWithKeySnoc(p, x, key, gs[i].key);
    }
  }

  /** The key of a group is found at that group or before it. */
  lemma KeyIndexAtMost<T>(gs: seq<Group<T>>, i: nat)
    requires i < |gs|
    ensures KeyIndex(gs, gs[i].key) <= i
  {
  }

  /** An element with a new key opens a group at the end. */
  lemma StepNewKey<T(!new)>(p: seq<T>, x: T, key: T -> string, gs: seq<Group<T>>)
    requires GroupedInOrder(p, key, gs)
    requires KeyIndex(gs, key(x)) == |gs|
    ensures GroupedInOrder(p + [x], key, AddTo(gs, key(x), x))
  {
    assert FirstWithKey(p, key, key(x)) == |p|;
    NewKeyMembers(p, x, key, gs);
    NewKeyPresent(p, x, key, gs);
    NewKeyOrder(p, x, key, gs);
  }

  lemma NewKeyMembers<T(!new)>(p: seq<T>, x: T, key: T -> string, gs: seq<Group<T>>)
    requires DistinctKeys(gs) && MembersByKey(p, key, gs)
    requires KeyIndex(gs, key(x)) == |gs| && FirstWithKey(p, key, key(x)) == |p|
    ensures DistinctKeys(AddTo(gs, key(x), x))
    ensures MembersByKey(p + [x], key, AddTo(gs, key(x), x))
  {
    var k := key(x);
    var r := AddTo(gs, k, x);
    assert r == gs + [Group(k, [x])];
    forall i | 0 <= i < |r|
      ensures r[i].members == Filter(p + [x], KeyIs(key, r[i].key))
    {
      StepFilter(p, x, key, r[i].key);
      if i == |gs| {
        FilterEmptyIffNoKey(p, key, k);
      } else {
        assert r[i] == gs[i];
      }
    }
  }

  lemma NewKeyPresent<T>(p: seq<T>, x: T, key: T -> string, gs: seq<Group<T>>)
    requires KeysPresent(p, key, gs)
    requires KeyIndex(gs, key(x)) == |gs|
    ensures KeysPresent(p + [x], key, AddTo(gs, key(x), x))
  {
    var g := Group(key(x), [x]);
    var r := AddTo(gs, key(x), x);
    assert r == gs + [g];
    forall c
      ensures KeyIndex(r, c) < |r| <==> FirstWithKey(p + [x], key, c) < |p + [x]|
    {
      KeyIndexSnoc(gs, g, c);
      FirstWithKeySnoc(p, x, key, c);
    }
  }

  lemma NewKeyOrder<T>(p: seq<T>, x: T, key: T -> string, gs: seq<Group<T>>)
    requires KeysPresent(p, key, gs) && FirstAppearanceOrder(p, key, gs)
    requires KeyIndex(gs, key(x)) == |gs| && FirstWithKey(p, key, key(x)) == |p|
    ensures FirstAppearanceOrder(p + [x], key, AddTo(gs, key(x), x))
  {
    var r := AddTo(gs, key(x), x);
    assert r == gs + [Group(key(x), [x])];
    forall i | 0 <= i < |r|
      ensures FirstWithKey(p + [x], key, r[i].key) == if i < |gs| then FirstWithKey(p, key, gs[i].key) else |p|
    {
      if i < |gs| {
        assert r[i] == gs[i];
        KeyIndexAtMost(gs, i);
      }
      FirstWithKeySnoc(p, x, key, r[i].key);
    }
  }

  /** Every element lands in the group of its key, and in no other. */
  lemma ExactlyOneGroup<T(!new)>(xs: seq<T>, key: T -> string, x: T, i: nat)
    requires x in xs
    requires i < |Groups(xs, key)|
    ensures x in Groups(xs, key)[i].members <==> Groups(xs, key)[i].key == key(x)
    ensures KeyIndex(Groups(xs, key), key(x)) < |Groups(xs, key)|
  {
    GroupsInOrder(xs, key);
    var n := FirstWithKey(xs, key, key(x));
    assert x in Filter(xs, KeyIs(key, key(x)));
    FilterEmptyIffNoKey(xs, key, key(x));
  }
}
