/** The in-memory user repository of the first revision: a hash map from id
    to user and a counter that hands out ids. */
module InMemoryUserRepository {
  import opened Common
  import opened Domain
  import opened InMemoryTable

  class UserRepository {
    var users: map<int, User>
    var id: int

    /** Every user is stored under its own id. */
    ghost predicate Keyed()
      reads this
    {
      forall k :: k in users ==> users[k].id == k
    }

    /** Every key was handed out by the counter, so the next id is free. */
    ghost predicate Issued()
      reads this
    {
      id >= 0 && forall k :: k in users ==> 1 <= k <= id
    }

    constructor ()
      ensures users == map[] && id == 0
      ensures Keyed() && Issued()
    {
      users := map[];
      id := 0;
    }

    /** tempGenerateId: `++id`. */
    method GenerateId() returns (next: int)
      modifies this
      ensures id == old(id) + 1 && next == id
      ensures users == old(users)
    {
      id := id + 1;
      next := id;
    }

    /** create: the user gets the next id and is stored under the counter's
        new value. The counter only grows, so an id freed by delete is never
        handed out again. */
    method Create(user: User) returns (stored: User)
      requires Keyed()
      modifies this
      ensures stored == user.(id := old(id) + 1)
      ensures id == old(id) + 1
      ensures users == old(users)[id := stored]
      ensures Keyed()
      ensures old(Issued()) ==> Issued() && forall k :: k in old(users) ==> k < stored.id
    {
      var next := GenerateId();
      stored := user.(id := next);
      users := users[id := stored];
    }

    /** update: stores the user under its own id; every other entry is
        unchanged. */
    method Update(user: User) returns (stored: User)
      requires Keyed()
      modifies this
      ensures stored == user
      ensures users == old(users)[user.id := user] && id == old(id)
      ensures Keyed()
      ensures old(Issued()) && 1 <= user.id <= id ==> Issued()
    {
      users := users[user.id := user];
      stored := user;
    }

    /** getAll: a list of every stored user, each once, as many as the map
        holds. */
    method GetAll() returns (r: seq<User>)
      requires Keyed()
      ensures forall u :: u in r <==> u in users.Values
      ensures |r| == |users|
      ensures forall i, j :: 0 <= i < j < |r| ==> r[i].id != r[j].id
    {
      ghost var keys;
      r, keys := CollectValues(users, (u: User) => true);
      CollectedExactly(users, (u: User) => true, r, keys);
      KeysCoverMap(users, keys);
    }

    /** getById: some stored user whose id is `userId`, or none. */
    function GetById(userId: int): (r: Option<User>)
      reads this
      requires Keyed()
      ensures r.Some? <==> exists k :: k in users && users[k].id == userId
      ensures r.Some? ==> r.value in users.Values && r.value.id == userId
    {
      if userId in users then Some(users[userId]) else None
    }

    /** delete: removes the key; an absent id is a no-op. */
    method Delete(userId: int)
      requires Keyed()
      modifies this
      ensures users == old(users) - {userId} && id == old(id)
      ensures userId !in old(users) ==> users == old(users)
      ensures Keyed()
      ensures old(Issued()) ==> Issued()
    {
      users := users - {userId};
    }
  }

  /** A list of distinct keys that holds every key of a map is as long as the
      map. */
  lemma KeysCoverMap(m: map<int, User>, keys: seq<int>)
    requires forall i :: 0 <= i < |keys| ==> keys[i] in m
    requires forall i, j :: 0 <= i < j < |keys| ==> keys[i] != keys[j]
    requires forall k :: k in m ==> k in keys
    ensures |keys| == |m|
  {
    var s := set i | 0 <= i < |keys| :: keys[i];
    assert s == m.Keys by {
      forall k | k in m ensures k in s {
        var i :| 0 <= i < |keys| && keys[i] == k;
      }
    }
    DistinctSeqSize(keys);
    assert |m.Keys| == |m|;
  }

  /** A sequence without repeats has as many elements as the set of them. */
  lemma {:induction false} DistinctSeqSize(keys: seq<int>)
    requires forall i, j :: 0 <= i < j < |keys| ==> keys[i] != keys[j]
    ensures |set i | 0 <= i < |keys| :: keys[i]| == |keys|
  {
    if keys != [] {
      var rest := keys[1..];
      DistinctSeqSize(rest);
      var s := set i | 0 <= i < |keys| :: keys[i];
      var t := set i | 0 <= i < |rest| :: rest[i];
      assert s == {keys[0]} + t by {
        forall x | x in s ensures x in {keys[0]} + t {
          var i :| 0 <= i < |keys| && keys[i] == x;
          if i > 0 {
            assert rest[i - 1] == x;
          }
        }
      }
      assert keys[0] !in t;
    }
  }

  /** After delete the user is no longer found and every other user still
      is, with the same record. */
  method DeleteThenGet(repo: UserRepository, userId: int, other: int)
    requires repo.Keyed() && other != userId
    modifies repo
    ensures repo.Keyed()
    ensures repo.GetById(userId).None?
    ensures repo.GetById(other) == old(repo.GetById(other))
  {
    repo.Delete(userId);
  }
}
