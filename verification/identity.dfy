/**
 The user registry (the `User` table) and the identity handlers: register,
 login, profile read and profile update, with the public user view.
 Password hashing is a function supplied by the caller and password
 checking a predicate supplied by the caller; token issuance is not part of
 this model, so a handler that would return a token returns the user view.
 */
module Identity {
  import opened Common

  /** A stored password hash. */
  type Hash = string

  /** A user row. The `created_at` timestamp is not modelled. */
  datatype User = User(
    email: string,
    passwordHash: Hash,
    firstName: Option<string>,
    lastName: Option<string>,
    phone: Option<string>,
    isAdmin: bool)

  /** The user table, keyed by user id. */
  type Users = map<UserId, User>

  /** `User.to_dict`: every column except the password hash. */
  datatype UserView = UserView(
    id: UserId,
    email: string,
    firstName: Option<string>,
    lastName: Option<string>,
    phone: Option<string>,
    isAdmin: bool)

  function View(id: UserId, u: User): (r: UserView)
    ensures r.id == id && r.email == u.email && r.isAdmin == u.isAdmin
    ensures r.firstName == u.firstName && r.lastName == u.lastName && r.phone == u.phone
  {
    UserView(id, u.email, u.firstName, u.lastName, u.phone, u.isAdmin)
  }

  /** No two users share an email (the column is declared unique). */
  predicate UniqueEmails(users: Users)
  {
    forall i, j :: i in users && j in users && i != j ==> users[i].email != users[j].email
  }

  /** Some user has email `e`. */
  predicate EmailTaken(users: Users, e: string)
  {
    exists id :: id in users && users[id].email == e
  }

  /** The ids of the users whose email is `e`. */
  function WithEmail(users: Users, e: string): set<UserId>
  {
    set id | id in users && users[id].email == e
  }

  /** `User.query.filter_by(email=e).first()`: the first user, in id order,
      with email `e`, if any. */
  function FindByEmail(users: Users, e: string): (r: Option<UserId>)
    ensures r.None? <==> !EmailTaken(users, e)
    ensures r.Some? ==> r.value in users && users[r.value].email == e
    ensures r.Some? ==> forall id :: id in users && users[id].email == e ==> r.value <= id
  {
    var ids := WithEmail(users, e);
    assert forall id :: id in users && users[id].email == e ==> id in ids;
    if ids == {} then
      None
    else
      var m := Least(ids);
      assert m in users && users[m].email == e;
      Some(m)
  }

  /** The outcome of an identity request and the table after it. */
  datatype Reply = Reply(result: Result<UserView>, after: Users)

  /** The body of `POST /auth/register`: each field is absent when the JSON
      key is missing or null. */
  datatype RegisterRequest = RegisterRequest(
    email: Option<string>,
    password: Option<string>,
    firstName: Option<string>,
    lastName: Option<string>,
    phone: Option<string>)

  /** The row a successful registration stores. */
  function NewUser(req: RegisterRequest, hash: string -> Hash): User
    requires req.email.Some? && req.password.Some?
  {
    User(req.email.value, hash(req.password.value), req.firstName, req.lastName, req.phone, false)
  }

  /** `POST /auth/register`, hashing the password with `hash`. */
  function Register(users: Users, req: RegisterRequest, hash: string -> Hash): (r: Reply)
    ensures r.result == Err(Validation) <==> FalsyString(req.email) || FalsyString(req.password)
    ensures r.result == Err(Conflict) <==>
              !FalsyString(req.email) && !FalsyString(req.password) && EmailTaken(users, req.email.value)
    ensures r.result.Ok? <==>
              !FalsyString(req.email) && !FalsyString(req.password) && !EmailTaken(users, req.email.value)
    ensures r.result.Err? ==> r.after == users
    ensures r.result.Ok? ==>
              var id := r.result.value.id;
              id !in users && r.after == users[id := NewUser(req, hash)] &&
              r.result.value == View(id, NewUser(req, hash))
  {
    if FalsyString(req.email) || FalsyString(req.password) then
      Reply(Err(Validation), users)
    else if FindByEmail(users, req.email.value).Some? then
      Reply(Err(Conflict), users)
    else
      var id := NextId(users);
      var u := NewUser(req, hash);
      Reply(Ok(View(id, u)), users[id := u])
  }

  /** `POST /auth/login`, checking the password against the stored hash with `verify`.
      An unknown email and a wrong password give the same error. */
  function Login(users: Users, email: Option<string>, password: Option<string>,
                 verify: (Hash, string) -> bool): (r: Result<UserView>)
    ensures r == Err(Validation) <==> FalsyString(email) || FalsyString(password)
    ensures r == Err(Auth) <==>
              !FalsyString(email) && !FalsyString(password) &&
              (!EmailTaken(users, email.value) ||
               !verify(users[FindByEmail(users, email.value).value].passwordHash, password.value))
    ensures r.Ok? <==>
              !FalsyString(email) && !FalsyString(password) && EmailTaken(users, email.value) &&
              verify(users[FindByEmail(users, email.value).value].passwordHash, password.value)
    ensures r.Ok? ==> r.value.id == FindByEmail(users, email.value).value
    ensures r.Ok? ==> r.value.id in users && r.value == View(r.value.id, users[r.value.id]) &&
                      r.value.email == email.value &&
                      verify(users[r.value.id].passwordHash, password.value)
  {
    if FalsyString(email) || FalsyString(password) then
      Err(Validation)
    else
      match FindByEmail(users, email.value)
      case None => Err(Auth)
      case Some(id) =>
        if !verify(users[id].passwordHash, password.value) then Err(Auth)
        else Ok(View(id, users[id]))
  }

  /** `GET /auth/profile` for the authenticated user `id`. */
  function GetProfile(users: Users, id: UserId): (r: Result<UserView>)
    ensures r.Ok? <==> id in users
    ensures r.Ok? ==> r.value == View(id, users[id])
    ensures r.Err? ==> r.error == NotFound
  {
    if id in users then Ok(View(id, users[id])) else Err(NotFound)
  }

  /** One field of a profile patch: the JSON key is absent, or present with
      a value that may be null. */
  datatype Field = Keep | Set(value: Option<string>)

  /** The fields `PUT /auth/profile` reads; any other key of the body is ignored. */
  datatype ProfilePatch = ProfilePatch(firstName: Field, lastName: Field, phone: Field)

  function Patched(current: Option<string>, f: Field): Option<string>
  {
    match f
    case Keep => current
    case Set(v) => v
  }

  /** `PUT /auth/profile` for the authenticated user `id`. */
  function UpdateProfile(users: Users, id: UserId, patch: ProfilePatch): (r: Reply)
    ensures r.result.Ok? <==> id in users
    ensures r.result.Err? ==> r.result.error == NotFound && r.after == users
    ensures r.after.Keys == users.Keys
    ensures forall j :: j in users && j != id ==> r.after[j] == users[j]
    ensures id in users ==>
              var before := users[id];
              var now := r.after[id];
              && now.email == before.email
              && now.passwordHash == before.passwordHash
              && now.isAdmin == before.isAdmin
              && (patch.firstName.Keep? ==> now.firstName == before.firstName)
              && (patch.firstName.Set? ==> now.firstName == patch.firstName.value)
              && (patch.lastName.Keep? ==> now.lastName == before.lastName)
              && (patch.lastName.Set? ==> now.lastName == patch.lastName.value)
              && (patch.phone.Keep? ==> now.phone == before.phone)
              && (patch.phone.Set? ==> now.phone == patch.phone.value)
              && r.result == Ok(View(id, now))
  {
    if id !in users then
      Reply(Err(NotFound), users)
    else
      var u := users[id];
      var u' := u.(firstName := Patched(u.firstName, patch.firstName),
                   lastName := Patched(u.lastName, patch.lastName),
                   phone := Patched(u.phone, patch.phone));
      Reply(Ok(View(id, u')), users[id := u'])
  }
}
