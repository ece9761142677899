/**
 What the identity handlers promise: unique emails across registrations
 and profile updates, the register/profile and register/login round trips,
 indistinguishable login failures, and a public view that never depends on
 the password hash.
 */
module IdentityLaws {
  import opened Common
  import opened Identity

  /** The public view carries no trace of the password hash: two users that
      differ only in their hash have the same view. */
  lemma ViewIgnoresHash(id: UserId, u: User, h: Hash)
    ensures View(id, u.(passwordHash := h)) == View(id, u)
  {
  }

  /** Under unique emails, an email names at most one user. */
  lemma UniqueEmailsAtMostOne(users: Users, e: string)
    requires UniqueEmails(users)
    ensures |WithEmail(users, e)| <= 1
  {
    var ids := WithEmail(users, e);
    if ids != {} {
      var x := Least(ids);
      assert forall y :: y in ids ==> y == x;
      assert forall y :: y in ids <==> y in {x};
      assert ids == {x};
    }
  }

  /** Registration keeps emails unique. */
  lemma RegisterPreservesUniqueEmails(users: Users, req: RegisterRequest, hash: string -> Hash)
    requires UniqueEmails(users)
    ensures UniqueEmails(Register(users, req, hash).after)
  {
    var r := Register(users, req, hash);
    if r.result.Ok? {
      var id := r.result.value.id;
      assert forall j :: j in users ==> users[j].email != req.email.value;
      assert r.after == users[id := NewUser(req, hash)];
    }
  }

  /** Registering an email that is already registered fails with a conflict,
      leaves the registry unchanged, and (under unique emails) exactly one
      user holds that email. */
  lemma RegisterTwiceConflicts(users: Users, req: RegisterRequest, again: RegisterRequest, hash: string -> Hash)
    requires UniqueEmails(users)
    requires Register(users, req, hash).result.Ok?
    requires again.email == req.email && !FalsyString(again.password)
    ensures var first := Register(users, req, hash).after;
            Register(first, again, hash) == Reply(Err(Conflict), first)
    ensures |WithEmail(Register(users, req, hash).after, req.email.value)| == 1
  {
    var first := Register(users, req, hash);
    var id := first.result.value.id;
    assert first.after[id].email == req.email.value;
    assert EmailTaken(first.after, req.email.value);
    RegisterPreservesUniqueEmails(users, req, hash);
    UniqueEmailsAtMostOne(first.after, req.email.value);
    assert id in WithEmail(first.after, req.email.value);
  }

  /** Register, then read the profile of the new id: the same view comes
      back, with the registered email. */
  lemma RegisterThenProfile(users: Users, req: RegisterRequest, hash: string -> Hash)
    requires Register(users, req, hash).result.Ok?
    ensures var r := Register(users, req, hash);
            GetProfile(r.after, r.result.value.id) == r.result &&
            r.result.value.email == req.email.value
  {
  }

  /** Register, then log in with the same email and password: when the
      password checks against its own hash, the login finds the new user. */
  lemma RegisterThenLogin(users: Users, req: RegisterRequest, hash: string -> Hash, verify: (Hash, string) -> bool)
    requires Register(users, req, hash).result.Ok?
    requires verify(hash(req.password.value), req.password.value)
    ensures var r := Register(users, req, hash);
            Login(r.after, req.email, req.password, verify) == r.result
  {
    var r := Register(users, req, hash);
    var id := r.result.value.id;
    var e := req.email.value;
    assert forall j :: j in users ==> users[j].email != e;
    assert r.after[id].email == e;
    assert FindByEmail(r.after, e) == Some(id);
  }

  /** An unknown email and a known email with a wrong password get the same answer. */
  lemma LoginFailuresIndistinguishable(users: Users, unknown: string, known: string,
                                       p1: string, p2: string, verify: (Hash, string) -> bool)
    requires unknown != "" && known != "" && p1 != "" && p2 != ""
    requires !EmailTaken(users, unknown)
    requires FindByEmail(users, known).Some?
    requires !verify(users[FindByEmail(users, known).value].passwordHash, p2)
    ensures Login(users, Some(unknown), Some(p1), verify) == Login(users, Some(known), Some(p2), verify)
    ensures Login(users, Some(unknown), Some(p1), verify) == Err(Auth)
  {
  }

  /** A profile update keeps emails unique: it never touches an email. */
  lemma UpdateProfilePreservesUniqueEmails(users: Users, id: UserId, patch: ProfilePatch)
    requires UniqueEmails(users)
    ensures UniqueEmails(UpdateProfile(users, id, patch).after)
  {
    var after := UpdateProfile(users, id, patch).after;
    assert forall j :: j in after ==> j in users && after[j].email == users[j].email;
  }

  /** Applying the same patch twice is applying it once. */
  lemma UpdateProfileIdempotent(users: Users, id: UserId, patch: ProfilePatch)
    ensures var once := UpdateProfile(users, id, patch);
            UpdateProfile(once.after, id, patch) == once
  {
    if id in users {
      var once := UpdateProfile(users, id, patch).after;
      assert once[id := once[id]] == once;
    }
  }

  /** The profile read after an update shows what the update answered. */
  lemma UpdateThenProfile(users: Users, id: UserId, patch: ProfilePatch)
    ensures var r := UpdateProfile(users, id, patch);
            GetProfile(r.after, id) == r.result
  {
  }

  /** A request that changes the user table. */
  datatype Request =
    | RegisterUser(req: RegisterRequest)
    | EditProfile(caller: UserId, patch: ProfilePatch)

  /** The user table after serving `requests` in order. */
  function Run(users: Users, hash: string -> Hash, requests: seq<Request>): Users
    decreases |requests|
  {
    if requests == [] then users
    else
      var next := match requests[0]
        case RegisterUser(req) => Register(users, req, hash).after
        case EditProfile(caller, patch) => UpdateProfile(users, caller, patch).after;
      Run(next, hash, requests[1..])
  }

  /** Serving any sequence of registrations and profile updates keeps
      emails unique. */
  lemma {:induction false} RunPreservesUniqueEmails(users: Users, hash: string -> Hash, requests: seq<Request>)
    requires UniqueEmails(users)
    ensures UniqueEmails(Run(users, hash, requests))
    decreases |requests|
  {
    if requests != [] {
      match requests[0]
      case RegisterUser(req) =>
        RegisterPreservesUniqueEmails(users, req, hash);
        RunPreservesUniqueEmails(Register(users, req, hash).after, hash, requests[1..]);
      case EditProfile(caller, patch) =>
        UpdateProfilePreservesUniqueEmails(users, caller, patch);
        RunPreservesUniqueEmails(UpdateProfile(users, caller, patch).after, hash, requests[1..]);
    }
  }
}
