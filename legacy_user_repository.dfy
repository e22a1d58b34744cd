/** The in-memory user store of the older application
    (src/main/java/ru/practicum/shareit/user/UserRepository.java): a hash map
    from id to user plus a counter that issues ids 1, 2, 3, ... A Java map
    accepts a null key, so keys are optional ids. */
module LegacyUserRepository {

  import opened Common

  /** A stored user; the id is null until the store issues one. */
  datatype User = User(id: Option<nat>, name: string, email: string)

  /** Some stored user has exactly this email. */
  predicate EmailUsed(users: map<Option<nat>, User>, email: string) {
    exists k | k in users :: users[k].email == email
  }

  /** checkEmail: the loop over every stored user, failing with
      DuplicatedData at the first one whose email equals the given one. */
  method CheckEmail(users: map<Option<nat>, User>, email: string) returns (r: Outcome)
    ensures r.Fail? <==> EmailUsed(users, email)
    ensures r.Fail? ==> r.error == DuplicatedData
  {
    var rest := users.Keys;
    while rest != {}
      invariant rest <= users.Keys
      invariant forall k | k in users.Keys - rest :: users[k].email != email
      decreases |rest|
    {
      var k :| k in rest;
      if users[k].email == email {
        return Fail(DuplicatedData);
      }
      rest := rest - {k};
    }
    return Pass;
  }

  /** UserRepository: the map `users` and the counter `id`. */
  class UserRepository {
    var id: nat
    var users: map<Option<nat>, User>

    /** Every user is stored under its own id and the counter starts at 1. */
    ghost predicate Valid()
      reads this
    {
      && 1 <= id
      && forall k | k in users :: users[k].id == k
    }

    /** Every key is an id the counter has already issued, so the next one
        is fresh. updateUser can break this by storing under an id that was
        never issued; the services never do. */
    ghost predicate Issued()
      reads this
    {
      forall k | k in users :: k.Some? && k.value < id
    }

    constructor()
      ensures Valid() && Issued()
      ensures id == 1 && users == map[]
    {
      id := 1;
      users := map[];
    }

    /** createUser: the email check comes before the id is drawn, so a
        duplicate leaves both the map and the counter as they were;
        otherwise the user is stored under the next id and nothing else
        changes. */
    method CreateUser(user: User) returns (r: Result<User>)
      requires Valid()
      modifies this
      ensures Valid()
      ensures old(Issued()) ==> Issued()
      ensures EmailUsed(old(users), user.email) ==>
                r == Err(DuplicatedData) && users == old(users) && id == old(id)
      ensures !EmailUsed(old(users), user.email) ==>
                && r == Ok(user.(id := Some(old(id))))
                && users == old(users)[Some(old(id)) := r.value]
                && id == old(id) + 1
      ensures old(Issued()) ==> Some(old(id)) !in old(users)
    {
      var c := CheckEmail(users, user.email);
      if c.Fail? {
        return Err(c.error);
      }
      var stored := user.(id := Some(id));
      users := users[stored.id := stored];
      id := id + 1;
      r := Ok(stored);
    }

    /** updateUser(newUser, dto): when the DTO carries an email, the new
        record's email must not be stored yet (under any id, its own
        included); then the record is put under its id, whether or not that
        id was stored, and no other entry changes. */
    method UpdateUser(newUser: User, dtoEmail: Option<string>) returns (r: Result<User>)
      requires Valid()
      modifies this
      ensures Valid()
      ensures id == old(id)
      ensures old(Issued()) && newUser.id.Some? && newUser.id.value < id ==> Issued()
      ensures dtoEmail.Some? && EmailUsed(old(users), newUser.email) ==>
                r == Err(DuplicatedData) && users == old(users)
      ensures !(dtoEmail.Some? && EmailUsed(old(users), newUser.email)) ==>
                r == Ok(newUser) && users == old(users)[newUser.id := newUser]
    {
      if dtoEmail.Some? {
        var c := CheckEmail(users, newUser.email);
        if c.Fail? {
          return Err(c.error);
        }
      }
      users := users[newUser.id := newUser];
      r := Ok(newUser);
    }

    /** getUserById: the stored user, or NotFound. */
    function GetUserById(id: Option<nat>): (r: Result<User>)
      reads this
      ensures r.Ok? <==> id in users
      ensures r.Ok? ==> r.value == users[id]
      ensures r.Err? ==> r.error == NotFound
    {
      if id in users then Ok(users[id]) else Err(NotFound)
    }

    /** deleteUser: NotFound for an absent id; otherwise exactly that key is
        removed. The counter is untouched, so the id is never issued again. */
    method DeleteUser(id: Option<nat>) returns (r: Outcome)
      requires Valid()
      modifies this
      ensures Valid()
      ensures this.id == old(this.id)
      ensures old(Issued()) ==> Issued()
      ensures id !in old(users) ==> r == Fail(NotFound) && users == old(users)
      ensures id in old(users) ==> r == Pass && users == old(users) - {id}
      ensures GetUserById(id) == Err(NotFound)
    {
      if id !in users {
        return Fail(NotFound);
      }
      users := users - {id};
      r := Pass;
    }
  }
}
