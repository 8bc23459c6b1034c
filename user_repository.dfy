/**
 * The user store behind the UserRepository interface
 * (user/repository/repository_interface.go), as the in-memory table that
 * user/use_case/auth_service_test.go uses for it: users by id, and the next
 * id to hand out, starting at 1.
 */
module Repository {
  import opened Wrappers

  /** A stored user (user/models/user.go); the id is the unsigned integer the code uses. */
  datatype User = User(id: nat, email: string, passwordHash: string)

  ghost predicate HasEmail(store: map<nat, User>, email: string)
  {
    exists id :: id in store && store[id].email == email
  }

  /** No two stored users share an e-mail address. */
  ghost predicate UniqueEmails(store: map<nat, User>)
  {
    forall i, j :: i in store && j in store && store[i].email == store[j].email ==> i == j
  }

  class UserRepository {
    var store: map<nat, User>
    var next: nat

    /** Every stored user sits under its own id, and every id is below the next one. */
    ghost predicate Valid()
      reads this
    {
      next >= 1 && forall id :: id in store ==> 1 <= id < next && store[id].id == id
    }

    constructor ()
      ensures Valid() && store == map[] && next == 1
    {
      store := map[];
      next := 1;
    }

    /**
     * Stores a copy of `u` under the next id and hands that id back, as Create
     * writes it into the caller's user through the pointer.
     */
    method Create(u: User) returns (created: User)
      requires Valid()
      modifies this
      ensures Valid()
      ensures created == u.(id := old(next))
      ensures store == old(store)[old(next) := created] && next == old(next) + 1
    {
      created := u.(id := next);
      store := store[next := created];
      next := next + 1;
    }

    /** A stored user with this e-mail address, if there is one. */
    method GetByEmail(email: string) returns (found: Option<User>)
      requires Valid()
      ensures found.Some? ==> found.value.id in store && store[found.value.id] == found.value
                              && found.value.email == email
      ensures found.None? <==> !HasEmail(store, email)
    {
      var ids := store.Keys;
      while ids != {}
        invariant ids <= store.Keys
        invariant forall id :: id in store && id !in ids ==> store[id].email != email
        decreases ids
      {
        var id :| id in ids;
        if store[id].email == email {
          return Some(store[id]);
        }
        ids := ids - {id};
      }
      return None;
    }
  }
}
