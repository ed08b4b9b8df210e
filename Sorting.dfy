/** WHERE and ORDER BY over table rows: a filter that keeps exactly the rows a
    predicate accepts, and an insertion sort on an integer key (a start or a
    creation timestamp), descending or ascending. */
module Sorting {

  /** `x` may come before `y` in an ORDER BY key DESC (or ASC) result. */
  predicate InOrder<T>(key: T -> int, desc: bool, x: T, y: T)
  {
    if desc then key(x) >= key(y) else key(x) <= key(y)
  }

  ghost predicate SortedBy<T>(s: seq<T>, key: T -> int, desc: bool)
  {
    forall i, j :: 0 <= i < j < |s| ==> InOrder(key, desc, s[i], s[j])
  }

  /** The rows of `s` that satisfy `p`, in table order: each row occurs in the
      result as often as in `s` when it satisfies `p`, and not at all otherwise. */
  function Filter<T(!new)>(s: seq<T>, p: T -> bool): (r: seq<T>)
    ensures |r| <= |s|
    ensures forall x :: multiset(r)[x] == if p(x) then multiset(s)[x] else 0
    ensures forall x :: x in r <==> x in s && p(x)
  {
    if s == [] then []
    else
      assert s == [s[0]] + s[1..];
      var rest := Filter(s[1..], p);
      if p(s[0]) then [s[0]] + rest else rest
  }

  /** `key` strictly increases along `s` (table rows in id order). */
  ghost predicate StrictlyIncreasing<T>(s: seq<T>, key: T -> int)
  {
    forall i, j :: 0 <= i < j < |s| ==> key(s[i]) < key(s[j])
  }

  /** Filtering keeps the table order: a strictly increasing key (the id) stays
      strictly increasing. */
  lemma {:induction false} FilterKeepsIncreasing<T(!new)>(s: seq<T>, p: T -> bool, key: T -> int)
    requires StrictlyIncreasing(s, key)
    ensures StrictlyIncreasing(Filter(s, p), key)
  {
    if s != [] {
      var rest := Filter(s[1..], p);
      FilterKeepsIncreasing(s[1..], p, key);
      if p(s[0]) {
        forall j | 0 <= j < |rest| ensures key(s[0]) < key(rest[j]) {
          HeadBelowTail(s, key, rest[j]);
        }
        assert Filter(s, p) == [s[0]] + rest;
      }
    }
  }

  /** In a strictly increasing list the first row's key is below that of
      every later row. */
  lemma HeadBelowTail<T>(s: seq<T>, key: T -> int, y: T)
    requires StrictlyIncreasing(s, key)
    requires s != [] && y in s[1..]
    ensures key(s[0]) < key(y)
  {
    var k :| 0 <= k < |s[1..]| && s[1..][k] == y;
    assert s[k + 1] == y;
  }

  /** Places `x` into the sorted list `s`, before the first row it may precede. */
  function Insert<T>(x: T, s: seq<T>, key: T -> int, desc: bool): (r: seq<T>)
    requires SortedBy(s, key, desc)
    ensures SortedBy(r, key, desc)
    ensures multiset(r) == multiset(s) + multiset{x}
  {
    if s == [] then [x]
    else if InOrder(key, desc, x, s[0]) then
      assert SortedBy([x] + s, key, desc) by {
        forall k | 0 <= k < |s| ensures InOrder(key, desc, x, s[k]) {
          assert k == 0 || InOrder(key, desc, s[0], s[k]);
        }
      }
      [x] + s
    else
      assert s == [s[0]] + s[1..];
      var tail := Insert(x, s[1..], key, desc);
      assert SortedBy([s[0]] + tail, key, desc) by {
        forall j | 0 <= j < |tail| ensures InOrder(key, desc, s[0], tail[j]) {
          assert tail[j] in multiset(tail);
          assert tail[j] == x || tail[j] in multiset(s[1..]);
          if tail[j] != x {
            var k :| 0 <= k < |s[1..]| && s[1..][k] == tail[j];
            assert s[k + 1] == tail[j];
          }
        }
      }
      [s[0]] + tail
  }

  /** The rows of `s` reordered by `key` (descending when `desc`): sorted and a
      permutation of `s`. Rows with equal keys keep no promised order. */
  function Sort<T>(s: seq<T>, key: T -> int, desc: bool): (r: seq<T>)
    ensures SortedBy(r, key, desc)
    ensures multiset(r) == multiset(s)
    ensures |r| == |s|
  {
    if s == [] then []
    else
      assert s == [s[0]] + s[1..];
      Insert(s[0], Sort(s[1..], key, desc), key, desc)
  }
}
