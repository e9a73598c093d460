/**
 * The in-memory user store of the first version: a hash map from id to user, changed in
 * place. Ids are allocated as the largest key plus one.
 */
module UserStorage {
  import opened Common
  import opened Domain

  /** Some element of a non-empty set. */
  lemma ElementOf<W>(s: set<W>) returns (x: W)
    requires s != {}
    ensures x in s
  {
    x :| x in s;
  }

  /** getNextId: one more than the largest key, or 1 when there is none. */
  method NextId(keys: set<int>) returns (id: int)
    ensures forall k :: k in keys ==> k < id
    ensures keys == {} ==> id == 1
    ensures keys != {} ==> id - 1 in keys
  {
    var rest := keys;
    var max := 0;
    var seen := false;
    while rest != {}
      invariant rest <= keys
      invariant seen <==> rest != keys
      invariant !seen ==> max == 0
      invariant forall k :: k in keys && k !in rest ==> k <= max
      invariant seen ==> max in keys
      decreases |rest|
    {
      ghost var some := ElementOf(rest);
      var k :| k in rest;
      if !seen || k > max {
        max := k;
      }
      seen := true;
      rest := rest - {k};
    }
    id := max + 1;
  }

  /** The stored users for `ids`, in the order of `ids`, unknown ids skipped. */
  function Present(users: map<int, User>, ids: seq<int>): (r: seq<User>)
    ensures |r| <= |ids|
  {
    if ids == [] then []
    else
      var last := ids[|ids| - 1];
      Present(users, ids[..|ids| - 1]) + (if last in users then [users[last]] else [])
  }

  /** Asking for two lists of ids one after the other gives the two answers one after the other. */
  lemma {:induction false} PresentDistributes(users: map<int, User>, a: seq<int>, b: seq<int>)
    ensures Present(users, a + b) == Present(users, a) + Present(users, b)
    decreases |b|
  {
    if b == [] {
      assert a + b == a;
    } else {
      var b' := b[..|b| - 1];
      assert (a + b)[..|a + b| - 1] == a + b';
      PresentDistributes(users, a, b');
    }
  }

  /** A user is in the answer exactly when one of the ids is its key. */
  lemma {:induction false} PresentMembers(users: map<int, User>, ids: seq<int>)
    ensures forall u :: u in Present(users, ids) <==> exists i :: 0 <= i < |ids| && ids[i] in users && users[ids[i]] == u
  {
    if ids != [] {
      var front := ids[..|ids| - 1];
      PresentMembers(users, front);
      forall u | u in Present(users, ids)
        ensures exists i :: 0 <= i < |ids| && ids[i] in users && users[ids[i]] == u
      {
        if u in Present(users, front) {
          var i :| 0 <= i < |front| && front[i] in users && users[front[i]] == u;
          assert ids[i] == front[i];
        } else {
          assert ids[|ids| - 1] in users && users[ids[|ids| - 1]] == u;
        }
      }
      forall u, i | 0 <= i < |ids| && ids[i] in users && users[ids[i]] == u
        ensures u in Present(users, ids)
      {
        if i < |front| {
          assert front[i] == ids[i];
        }
      }
    }
  }

  class InMemoryUserStorage {
    var users: map<int, User>

    /** Every user is stored under its own id. */
    ghost predicate Valid()
      reads this
    {
      forall id :: id in users ==> users[id].id == id
    }

    constructor ()
      ensures Valid() && users == map[]
    {
      users := map[];
    }

    /** findAll(ids): the stored users for the ids, in their order, unknown ids skipped. */
    method FindAllByIds(ids: seq<int>) returns (r: seq<User>)
      ensures r == Present(users, ids)
    {
      r := [];
      for i := 0 to |ids|
        invariant r == Present(users, ids[..i])
      {
        assert ids[..i + 1][..i] == ids[..i];
        var id := ids[i];
        if id in users {
          r := r + [users[id]];
        }
      }
      assert ids[..|ids|] == ids;
    }

    /** create: the user is stored under a fresh id, one more than the largest. */
    method Create(u: User) returns (r: User)
      requires Valid()
      modifies this
      ensures r == u.(id := r.id)
      ensures r.id !in old(users) && forall k :: k in old(users) ==> k < r.id
      ensures old(users) == map[] ==> r.id == 1
      ensures old(users) != map[] ==> r.id - 1 in old(users)
      ensures users == old(users)[r.id := r]
      ensures |users| == |old(users)| + 1
      ensures Valid()
    {
      var id := NextId(users.Keys);
      r := u.(id := id);
      users := users[id := r];
    }

    /** update: an existing user gets both fields of the argument, even missing ones; an unknown id gives NotFound. */
    method Update(u: User) returns (r: Result<User>)
      requires Valid()
      modifies this
      ensures u.id in old(users) ==> r == Ok(u) && users == old(users)[u.id := u]
      ensures u.id !in old(users) ==> r == Err(NotFound) && users == old(users)
      ensures Valid()
    {
      if u.id in users {
        var cur := users[u.id];
        var updated := cur.(name := u.name, email := u.email);
        users := users[u.id := updated];
        r := Ok(updated);
      } else {
        r := Err(NotFound);
      }
    }

    /** findUserById: the user stored under the id, or NotFound. */
    function FindUserById(userId: int): (r: Result<User>)
      reads this
      ensures r.Ok? <==> userId in users
      ensures r.Ok? ==> r.value == users[userId]
      ensures r.Err? ==> r.error == NotFound
      ensures Valid() ==> (r.Ok? <==> exists k :: k in users && users[k].id == userId)
    {
      if userId in users then Ok(users[userId]) else Err(NotFound)
    }

    /** removeUserById: only that key goes. */
    method RemoveUserById(userId: int)
      requires Valid()
      modifies this
      ensures users == old(users) - {userId}
      ensures Valid()
    {
      users := users - {userId};
    }

    /** removeAllUsers: the map becomes empty. */
    method RemoveAllUsers()
      modifies this
      ensures users == map[]
      ensures Valid()
    {
      users := map[];
    }
  }
}
