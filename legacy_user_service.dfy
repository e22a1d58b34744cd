/** The user service of the older application
    (src/main/java/ru/practicum/shareit/user/UserServiceImpl.java) over the
    in-memory store. getUserById of the store hands out the stored object
    itself, so every setter the service calls on it changes the store at
    once; the model writes the store at each setter. */
module LegacyUserService {

  import opened Common
  import opened LegacyUserRepository

  /** The user after updateUser's first setter: the name changes only when
      the DTO's name is present and not blank. */
  function Renamed(u: User, name: Option<string>): (v: User)
    ensures v.id == u.id && v.email == u.email
    ensures Present(name) ==> v.name == name.value
    ensures !Present(name) ==> v.name == u.name
  {
    if Present(name) then u.(name := name.value) else u
  }

  /** The user after both setters of a successful update. */
  function Patched(u: User, name: Option<string>, email: Option<string>): (v: User)
    ensures v.id == u.id
    ensures v.name == Renamed(u, name).name
    ensures Present(email) ==> v.email == email.value
    ensures !Present(email) ==> v.email == u.email
  {
    var named := Renamed(u, name);
    if Present(email) then named.(email := email.value) else named
  }

  /** UserServiceImpl over a UserRepository. */
  class UserService {
    const repository: UserRepository

    /** The store is consistent, and every key is an id the store issued:
        the service only ever stores users under such ids. */
    ghost predicate Valid()
      reads this, repository
    {
      repository.Valid() && repository.Issued()
    }

    constructor(repository: UserRepository)
      requires repository.Valid() && repository.Issued()
      ensures Valid()
      ensures this.repository == repository
    {
      this.repository := repository;
    }

    /** createUser: the service's own email check, then the store's
        createUser (whose check then passes); a duplicate changes nothing. */
    method CreateUser(name: string, email: string) returns (r: Result<User>)
      requires Valid()
      modifies repository
      ensures Valid()
      ensures EmailUsed(old(repository.users), email) ==>
                && r == Err(DuplicatedData)
                && repository.users == old(repository.users) && repository.id == old(repository.id)
      ensures !EmailUsed(old(repository.users), email) ==>
                && r == Ok(User(Some(old(repository.id)), name, email))
                && Some(old(repository.id)) !in old(repository.users)
                && repository.users == old(repository.users)[Some(old(repository.id)) := r.value]
                && repository.id == old(repository.id) + 1
    {
      var user := User(None, name, email);
      var c := CheckEmail(repository.users, email);
      if c.Fail? {
        return Err(c.error);
      }
      r := repository.CreateUser(user);
    }

    /** updateUser: Validation for a null id, NotFound for an unknown one.
        The new name is stored before the email is checked, so a duplicate
        email fails with DuplicatedData but leaves the new name in place.
        The check counts every stored user, so an unchanged email is a
        duplicate too. */
    method UpdateUser(userId: Option<nat>, name: Option<string>, email: Option<string>) returns (r: Result<User>)
      requires Valid()
      modifies repository
      ensures Valid()
      ensures repository.id == old(repository.id)
      ensures userId.None? ==> r == Err(Validation) && repository.users == old(repository.users)
      ensures userId.Some? && userId !in old(repository.users) ==>
                r == Err(NotFound) && repository.users == old(repository.users)
      ensures userId.Some? && userId in old(repository.users) ==>
                var u := old(repository.users)[userId];
                if Present(email) && EmailUsed(old(repository.users), email.value) then
                  && r == Err(DuplicatedData)
                  && repository.users == old(repository.users)[userId := Renamed(u, name)]
                else
                  && r == Ok(Patched(u, name, email))
                  && repository.users == old(repository.users)[userId := Patched(u, name, email)]
      ensures (userId in old(repository.users) && email == Some(old(repository.users)[userId].email)
               && !IsBlank(email.value)) ==> r == Err(DuplicatedData)
    {
      if userId.None? {
        return Err(Validation);
      }
      var found := repository.GetUserById(userId);
      if found.Err? {
        return Err(found.error);
      }
      var user := found.value;
      assert user.id == userId;
      if Present(name) {
        user := user.(name := name.value);
        repository.users := repository.users[userId := user];
      }
      if Present(email) {
        // the name change above touched no email
        assert EmailUsed(repository.users, email.value) <==> EmailUsed(old(repository.users), email.value) by {
          if EmailUsed(old(repository.users), email.value) {
            var k :| k in old(repository.users) && old(repository.users)[k].email == email.value;
            assert repository.users[k].email == email.value;
          }
        }
        var c := CheckEmail(repository.users, email.value);
        if c.Fail? {
          return Err(c.error);
        }
        user := user.(email := email.value);
        repository.users := repository.users[userId := user];
      }
      // userRepository.updateUser(user): the record is put back under its id
      repository.users := repository.users[user.id := user];
      r := Ok(user);
    }

    /** getUserById: Validation for a null id, then the store's lookup. */
    function GetUserById(id: Option<nat>): (r: Result<User>)
      reads this, repository
      ensures id.None? ==> r == Err(Validation)
      ensures id.Some? ==> r == repository.GetUserById(id)
      ensures r.Ok? ==> id in repository.users && r.value == repository.users[id]
    {
      if id.None? then Err(Validation) else repository.GetUserById(id)
    }

    /** deleteUser: Validation for a null id, then the store's deleteUser. */
    method DeleteUser(id: Option<nat>) returns (r: Outcome)
      requires Valid()
      modifies repository
      ensures Valid()
      ensures repository.id == old(repository.id)
      ensures id.None? ==> r == Fail(Validation) && repository.users == old(repository.users)
      ensures id.Some? && id !in old(repository.users) ==> r == Fail(NotFound) && repository.users == old(repository.users)
      ensures id.Some? && id in old(repository.users) ==> r == Pass && repository.users == old(repository.users) - {id}
      ensures id.Some? ==> GetUserById(id) == Err(NotFound)
    {
      if id.None? {
        return Fail(Validation);
      }
      r := repository.DeleteUser(id);
    }
  }
}
