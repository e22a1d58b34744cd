/** The user service of the server application
    (server/src/main/java/ru/practicum/shareit/user/UserServiceImpl.java) over
    the user table. The table assigns ids from an identity counter that
    never goes back, so an id is never issued twice, even after a delete. */
module ServerUserService {

  import opened Common
  import opened Entities

  /** The UserDto of an update: either field may be missing. */
  datatype UserPatch = UserPatch(name: Option<string>, email: Option<string>)

  /** userRepository.existsByEmail. */
  predicate EmailTaken(users: map<nat, User>, email: string) {
    exists k | k in users :: users[k].email == email
  }

  /** No two stored users share an email. */
  predicate EmailsUnique(users: map<nat, User>) {
    forall j, k | j in users && k in users && j != k :: users[j].email != users[k].email
  }

  /** getUserById: null id -> Validation; no such user -> NotFound. */
  function GetUser(users: map<nat, User>, id: Option<nat>): (r: Result<User>)
    ensures id.None? ==> r == Err(Validation)
    ensures id.Some? ==> (r.Ok? <==> id.value in users)
    ensures id.Some? && id.value !in users ==> r == Err(NotFound)
    ensures r.Ok? ==> r.value == users[id.value]
  {
    if id.None? then Err(Validation)
    else if id.value in users then Ok(users[id.value])
    else Err(NotFound)
  }

  /** The setters updateUser applies to its copy of the user: a field of the
      patch replaces the stored one only when it is present and not blank;
      the id is never touched. */
  function Patch(u: User, patch: UserPatch): (p: User)
    ensures p.id == u.id
    ensures Present(patch.name) ==> p.name == patch.name.value
    ensures !Present(patch.name) ==> p.name == u.name
    ensures Present(patch.email) ==> p.email == patch.email.value
    ensures !Present(patch.email) ==> p.email == u.email
  {
    var named := if Present(patch.name) then u.(name := patch.name.value) else u;
    if Present(patch.email) then named.(email := patch.email.value) else named
  }

  /** What updateUser saves and returns: the patched user, unless the id is
      null or unknown, or a present email is already stored for any user,
      the one being updated included. */
  function Update(users: map<nat, User>, id: Option<nat>, patch: UserPatch): (r: Result<User>)
    ensures id.None? ==> r == Err(Validation)
    ensures id.Some? && id.value !in users ==> r == Err(NotFound)
    ensures id.Some? && id.value in users && Present(patch.email) && EmailTaken(users, patch.email.value)
            ==> r == Err(DuplicatedData)
    ensures r.Ok? <==> id.Some? && id.value in users && !(Present(patch.email) && EmailTaken(users, patch.email.value))
    ensures r.Ok? ==> r.value == Patch(users[id.value], patch)
  {
    match GetUser(users, id)
    case Err(e) => Err(e)
    case Ok(u) =>
      if Present(patch.email) && EmailTaken(users, patch.email.value) then Err(DuplicatedData)
      else Ok(Patch(u, patch))
  }

  /** A user cannot "change" their email to the one they already have: the
      uniqueness check counts their own record. */
  lemma OwnEmailRejected(users: map<nat, User>, id: nat, name: Option<string>)
    requires id in users && !IsBlank(users[id].email)
    ensures Update(users, Some(id), UserPatch(name, Some(users[id].email))) == Err(DuplicatedData)
  {
    assert users[id].email == users[id].email;
  }

  /** Saving an update keeps emails unique and keeps every user under its
      own id. */
  lemma UpdateKeepsEmailsUnique(users: map<nat, User>, id: nat, patch: UserPatch)
    requires EmailsUnique(users)
    requires forall k | k in users :: users[k].id == k
    requires Update(users, Some(id), patch).Ok?
    ensures EmailsUnique(users[id := Update(users, Some(id), patch).value])
    ensures Update(users, Some(id), patch).value.id == id
  {
    var u := Update(users, Some(id), patch).value;
    var updated := users[id := u];
    forall j, k | j in updated && k in updated && j != k
      ensures updated[j].email != updated[k].email
    {
      if j == id || k == id {
        var other := if j == id then k else j;
        if Present(patch.email) {
          assert !EmailTaken(users, patch.email.value);
          assert users[other].email != patch.email.value;
        }
      }
    }
  }

  /** UserServiceImpl over the user table. */
  class UserService {
    var users: map<nat, User>
    /** The next id the identity column issues. */
    var nextId: nat

    ghost predicate Valid()
      reads this
    {
      && 1 <= nextId
      && (forall k | k in users :: users[k].id == k && 1 <= k < nextId)
      && EmailsUnique(users)
    }

    constructor()
      ensures Valid()
      ensures users == map[] && nextId == 1
    {
      users := map[];
      nextId := 1;
    }

    /** createUser: DuplicatedData when the email is stored already;
        otherwise stores exactly one new user under a fresh id. */
    method CreateUser(name: string, email: string) returns (r: Result<User>)
      requires Valid()
      modifies this
      ensures Valid()
      ensures EmailTaken(old(users), email) ==> r == Err(DuplicatedData) && users == old(users) && nextId == old(nextId)
      ensures !EmailTaken(old(users), email) ==>
                && r == Ok(User(old(nextId), name, email))
                && old(nextId) !in old(users)
                && users == old(users)[old(nextId) := User(old(nextId), name, email)]
                && nextId == old(nextId) + 1
    {
      if EmailTaken(users, email) {
        r := Err(DuplicatedData);
        return;
      }
      var user := User(nextId, name, email);
      assert nextId !in users;
      users := users[nextId := user];
      nextId := nextId + 1;
      r := Ok(user);
    }

    /** updateUser: saves Update's result under the user's id; on any
        failure nothing is saved, since the service patches a copy. */
    method UpdateUser(id: Option<nat>, patch: UserPatch) returns (r: Result<User>)
      requires Valid()
      modifies this
      ensures Valid()
      ensures r == Update(old(users), id, patch)
      ensures nextId == old(nextId)
      ensures r.Err? ==> users == old(users)
      ensures r.Ok? ==> users == old(users)[id.value := r.value]
    {
      r := Update(users, id, patch);
      if r.Ok? {
        UpdateKeepsEmailsUnique(users, id.value, patch);
        users := users[id.value := r.value];
      }
    }

    /** getUserById. */
    function GetUserById(id: Option<nat>): (r: Result<User>)
      reads this
      ensures id.None? ==> r == Err(Validation)
      ensures id.Some? && id.value !in users ==> r == Err(NotFound)
      ensures r.Ok? ==> id.Some? && id.value in users && r.value == users[id.value]
    {
      GetUser(users, id)
    }

    /** deleteUser: the lookup of getUserById, then the removal of exactly
        that user; afterwards the id is unknown. */
    method DeleteUser(id: Option<nat>) returns (r: Outcome)
      requires Valid()
      modifies this
      ensures Valid()
      ensures nextId == old(nextId)
      ensures GetUser(old(users), id).Err? ==> r == Fail(GetUser(old(users), id).error) && users == old(users)
      ensures GetUser(old(users), id).Ok? ==> r == Pass && users == old(users) - {id.value}
      ensures r == Pass ==> GetUserById(id) == Err(NotFound)
    {
      match GetUser(users, id)
      case Err(e) =>
        r := Fail(e);
      case Ok(_) =>
        users := users - {id.value};
        r := Pass;
    }
  }
}
