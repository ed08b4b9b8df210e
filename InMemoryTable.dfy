/** What the two in-memory repositories share: a stream over the values of a
    hash map, filtered and collected into a list. The iteration order of a
    hash map is not specified, so the scan takes the keys in whatever order
    it picks. */
module InMemoryTable {
  /** `map.values().stream().filter(p).collect(toList())`: every value of
      `m` that satisfies `p`, each key's value once. */
  method CollectValues<T(==)>(m: map<int, T>, p: T -> bool) returns (r: seq<T>, ghost keys: seq<int>)
    ensures |keys| == |r|
    ensures forall i :: 0 <= i < |r| ==> keys[i] in m && m[keys[i]] == r[i] && p(r[i])
    ensures forall i, j :: 0 <= i < j < |keys| ==> keys[i] != keys[j]
    ensures forall k :: k in m && p(m[k]) ==> k in keys
    ensures forall x :: x in r ==> x in m.Values && p(x)
  {
    var todo := m.Keys;
    r := [];
    keys := [];
    while todo != {}
      invariant todo <= m.Keys
      invariant |keys| == |r|
      invariant forall i :: 0 <= i < |r| ==> keys[i] in m && keys[i] !in todo && m[keys[i]] == r[i] && p(r[i])
      invariant forall i, j :: 0 <= i < j < |keys| ==> keys[i] != keys[j]
      invariant forall q :: q in m && q !in todo && p(m[q]) ==> q in keys
      decreases |todo|
    {
      assert exists q :: q in todo by {
        if forall q :: q !in todo {
          assert false;
        }
      }
      var k :| k in todo;
      if p(m[k]) {
        r := r + [m[k]];
        keys := keys + [k];
      }
      todo := todo - {k};
    }
  }

  /** The collected list holds exactly the matching values. */
  lemma CollectedExactly<T>(m: map<int, T>, p: T -> bool, r: seq<T>, keys: seq<int>)
    requires |keys| == |r|
    requires forall i :: 0 <= i < |r| ==> keys[i] in m && m[keys[i]] == r[i] && p(r[i])
    requires forall k :: k in m && p(m[k]) ==> k in keys
    ensures forall x :: x in r <==> x in m.Values && p(x)
  {
    forall x | x in m.Values && p(x) ensures x in r {
      assert exists key :: key in m && m[key] == x by {
        if forall key :: key in m ==> m[key] != x {
          assert false;
        }
      }
      var key :| key in m && m[key] == x;
      var i :| 0 <= i < |keys| && keys[i] == key;
      assert r[i] == x;
    }
  }
}
