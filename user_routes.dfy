/** The user routes of routes/userRoutes.js: signup, login, profile and
    password change over the user collection.

    Users are never deleted, so the collection is a sequence and a user's id
    is its position; `findOne` returns the first match in insertion order.
    The user model's password hashing is an arbitrary function `hash`:
    stored passwords are digests, and a candidate matches when its digest is
    the stored one. */
module UserRoutes {
  import opened Common
  import opened Jwt

  type Digest = string

  /** A stored user; `password` holds the digest, never the password. */
  datatype User = User(name: string, email: string, mobile: string, password: Digest, role: string)

  /** A user as the routes show it: everything but the password. The signup
      reply has no mobile number. */
  datatype PublicUser = PublicUser(id: UserId, name: string, email: string,
                                   mobile: Option<string>, role: string)

  /** The body of the signup and login replies. */
  datatype Session = Session(token: Token, user: PublicUser)

  datatype SignupRequest = SignupRequest(name: Option<string>, email: Option<string>,
                                         mobile: Option<string>, password: Option<string>,
                                         role: Option<string>)
  datatype LoginRequest = LoginRequest(email: Option<string>, password: Option<string>)
  datatype PasswordChange = PasswordChange(currentPassword: Option<string>, newPassword: Option<string>)

  /** The role a user gets when signup names none. */
  const DefaultRole := "customer"
  const MinPasswordLength := 6

  const FieldsRequiredMessage := "All fields are required"
  const ShortPasswordMessage := "Password must be at least 6 characters"
  const EmailTakenMessage := "User already exists with this email"
  const AdminExistsMessage := "Admin user already exists"
  const LoginFieldsMessage := "Email and password are required"
  const BadCredentialsMessage := "Invalid email or password"
  const UserNotFoundMessage := "User not found"
  const PasswordsRequiredMessage := "Both current and new passwords are required"
  const ShortNewPasswordMessage := "New password must be at least 6 characters"
  const WrongPasswordMessage := "Invalid current password"
  const PasswordUpdatedMessage := "Password updated successfully"

  const BadCredentials := Failure(StatusUnauthorized, BadCredentialsMessage)
  const UserNotFound := Failure(StatusNotFound, UserNotFoundMessage)

  /** comparePassword: the candidate's digest is the stored one. */
  predicate PasswordMatches(hash: string -> Digest, u: User, candidate: string) {
    hash(candidate) == u.password
  }

  /** `User.findOne({ email })`: the first user with that email. */
  function FindByEmail(users: seq<User>, email: string): (r: Option<UserId>)
    ensures r.Some? ==> r.value < |users| && users[r.value].email == email
    ensures r.Some? ==> forall j :: 0 <= j < r.value ==> users[j].email != email
    ensures r.None? ==> forall j :: 0 <= j < |users| ==> users[j].email != email
  {
    if users == [] then None
    else if users[0].email == email then Some(0)
    else
      match FindByEmail(users[1..], email)
      case None => None
      case Some(k) => Some(k + 1)
  }

  /** `User.findOne({ role: 'admin' })` finds someone. */
  predicate HasAdmin(users: seq<User>) {
    exists i :: 0 <= i < |users| && users[i].role == AdminRole
  }

  ghost predicate AtMostOneAdmin(users: seq<User>) {
    forall i, j :: 0 <= i < j < |users| ==> users[i].role != AdminRole || users[j].role != AdminRole
  }

  ghost predicate EmailsUnique(users: seq<User>) {
    forall i, j :: 0 <= i < j < |users| ==> users[i].email != users[j].email
  }

  // ----- Signup -----

  /** `!name || !email || !mobile || !password`. */
  predicate MissingSignupField(req: SignupRequest) {
    !Present(req.name) || !Present(req.email) || !Present(req.mobile) || !Present(req.password)
  }

  /** The checks of the signup handler, in order: all four fields, the
      password length, a fresh email, and for a request asking for the
      admin role, no admin yet. A request that passes them all is saved. */
  function SignupRejection(users: seq<User>, req: SignupRequest): (f: Option<Failure>)
    ensures f.Some? ==> f.value.status == StatusBadRequest
    ensures MissingSignupField(req) ==> f == Some(Failure(StatusBadRequest, FieldsRequiredMessage))
    ensures !MissingSignupField(req) && |req.password.value| < MinPasswordLength ==>
      f == Some(Failure(StatusBadRequest, ShortPasswordMessage))
    ensures !MissingSignupField(req) && |req.password.value| >= MinPasswordLength
            && FindByEmail(users, req.email.value).Some? ==>
      f == Some(Failure(StatusBadRequest, EmailTakenMessage))
    ensures !MissingSignupField(req) && |req.password.value| >= MinPasswordLength
            && FindByEmail(users, req.email.value).None?
            && req.role == Some(AdminRole) && HasAdmin(users) ==>
      f == Some(Failure(StatusBadRequest, AdminExistsMessage))
    ensures f.None? <==>
      && !MissingSignupField(req)
      && |req.password.value| >= MinPasswordLength
      && (forall i :: 0 <= i < |users| ==> users[i].email != req.email.value)
      && (req.role == Some(AdminRole) ==> forall i :: 0 <= i < |users| ==> users[i].role != AdminRole)
  {
    if MissingSignupField(req) then Some(Failure(StatusBadRequest, FieldsRequiredMessage))
    else if |req.password.value| < MinPasswordLength then Some(Failure(StatusBadRequest, ShortPasswordMessage))
    else if FindByEmail(users, req.email.value).Some? then Some(Failure(StatusBadRequest, EmailTakenMessage))
    else if req.role == Some(AdminRole) && HasAdmin(users) then Some(Failure(StatusBadRequest, AdminExistsMessage))
    else None
  }

  /** Once an admin exists, a second signup asking for the admin role fails,
      whatever else it carries. */
  lemma SecondAdminRefused(users: seq<User>, req: SignupRequest)
    requires HasAdmin(users) && req.role == Some(AdminRole)
    ensures SignupRejection(users, req).Some?
  {
  }

  /** `new User({ name, email, mobile, password, role })` once saved: the
      password stored as its digest, the default role when none was asked for. */
  function NewUser(req: SignupRequest, hash: string -> Digest): User
    requires !MissingSignupField(req)
  {
    User(req.name.value, req.email.value, req.mobile.value, hash(req.password.value),
         req.role.GetOr(DefaultRole))
  }

  /** A signup that passes its checks keeps emails unique and admins single. */
  lemma {:induction false} SignupKeepsInvariants(users: seq<User>, req: SignupRequest, hash: string -> Digest)
    requires SignupRejection(users, req).None?
    ensures EmailsUnique(users) ==> EmailsUnique(users + [NewUser(req, hash)])
    ensures AtMostOneAdmin(users) ==> AtMostOneAdmin(users + [NewUser(req, hash)])
  {
    var next := users + [NewUser(req, hash)];
    assert forall i :: 0 <= i < |users| ==> next[i] == users[i];
  }

  /** The first user with an email absent so far is the one just appended. */
  lemma {:induction false} FindAppended(users: seq<User>, u: User)
    requires FindByEmail(users, u.email).None?
    ensures FindByEmail(users + [u], u.email) == Some(|users|)
  {
    if users != [] {
      assert (users + [u])[1..] == users[1..] + [u];
      FindAppended(users[1..], u);
    }
  }

  /** The first user with some email is the same after another user's
      password changes. */
  lemma {:induction false} FindIgnoresPassword(users: seq<User>, id: nat, d: Digest, email: string)
    requires id < |users|
    ensures FindByEmail(users[id := users[id].(password := d)], email) == FindByEmail(users, email)
  {
    if users != [] && id > 0 {
      assert users[id := users[id].(password := d)][1..] == users[1..][id - 1 := users[id].(password := d)];
      FindIgnoresPassword(users[1..], id - 1, d, email);
    }
  }

  /** With unique emails, a user's email finds that user. */
  lemma FindOwnEmail(users: seq<User>, id: nat)
    requires EmailsUnique(users) && id < |users|
    ensures FindByEmail(users, users[id].email) == Some(id)
  {
  }

  // ----- Login and profile -----

  /** The login reply: 400 without both fields, the same 401 for an unknown
      email and for a wrong password, else a session for the first user
      with that email whose token carries its id and role. */
  function Login(users: seq<User>, hash: string -> Digest, req: LoginRequest, now: int): (r: Reply<Session>)
    ensures !Present(req.email) || !Present(req.password) ==>
      r == Error(Failure(StatusBadRequest, LoginFieldsMessage))
    ensures r.Error? ==> r.failure == Failure(StatusBadRequest, LoginFieldsMessage) || r.failure == BadCredentials
    ensures Present(req.email) && Present(req.password) && !r.Ok? ==> r == Error(BadCredentials)
    ensures r.Ok? <==>
      && Present(req.email) && Present(req.password)
      && FindByEmail(users, req.email.value).Some?
      && PasswordMatches(hash, users[FindByEmail(users, req.email.value).value], req.password.value)
    ensures r.Ok? ==>
      var id := FindByEmail(users, req.email.value).value;
      && r.status == StatusOk
      && r.value.token == GenerateToken(Claims(id, users[id].role), now)
      && r.value.user == PublicUser(id, users[id].name, users[id].email, Some(users[id].mobile), users[id].role)
  {
    if !Present(req.email) || !Present(req.password) then
      Error(Failure(StatusBadRequest, LoginFieldsMessage))
    else
      match FindByEmail(users, req.email.value)
      case None => Error(BadCredentials)
      case Some(id) =>
        var u := users[id];
        if !PasswordMatches(hash, u, req.password.value) then Error(BadCredentials)
        else
          Ok(StatusOk, Session(GenerateToken(Claims(id, u.role), now),
                               PublicUser(id, u.name, u.email, Some(u.mobile), u.role)))
  }

  /** An unknown email and a wrong password get the identical reply, so the
      reply does not tell which of the two was wrong. */
  lemma LoginFailuresIndistinguishable(users: seq<User>, hash: string -> Digest,
                                       unknown: LoginRequest, wrong: LoginRequest, now: int)
    requires Present(unknown.email) && Present(unknown.password)
    requires FindByEmail(users, unknown.email.value).None?
    requires Present(wrong.email) && Present(wrong.password)
    requires FindByEmail(users, wrong.email.value).Some?
    requires !PasswordMatches(hash, users[FindByEmail(users, wrong.email.value).value], wrong.password.value)
    ensures Login(users, hash, unknown, now) == Login(users, hash, wrong, now) == Error(BadCredentials)
  {
  }

  /** `GET /profile`: the caller's record without its password, or 404. */
  function Profile(users: seq<User>, id: UserId): (r: Reply<PublicUser>)
    ensures r.Ok? <==> id < |users|
    ensures r.Error? ==> r.failure == UserNotFound
    ensures r.Ok? ==> r.status == StatusOk && r.value.id == id && r.value.name == users[id].name
                      && r.value.email == users[id].email && r.value.mobile == Some(users[id].mobile)
                      && r.value.role == users[id].role
  {
    if id < |users| then
      var u := users[id];
      Ok(StatusOk, PublicUser(id, u.name, u.email, Some(u.mobile), u.role))
    else Error(UserNotFound)
  }

  /** The profile shows nothing of the password: two tables that differ
      only in one password give the same profile. */
  lemma ProfileIgnoresPassword(users: seq<User>, id: UserId, who: UserId, d: Digest)
    requires id < |users|
    ensures Profile(users[id := users[id].(password := d)], who) == Profile(users, who)
  {
  }

  // ----- Password change -----

  /** The checks of the password change, in order: both fields, the new
      password's length, the caller's record, the current password. */
  function PasswordChangeRejection(users: seq<User>, hash: string -> Digest,
                                   id: UserId, req: PasswordChange): (f: Option<Failure>)
    ensures !Present(req.currentPassword) || !Present(req.newPassword) ==>
      f == Some(Failure(StatusBadRequest, PasswordsRequiredMessage))
    ensures Present(req.currentPassword) && Present(req.newPassword)
            && |req.newPassword.value| < MinPasswordLength ==>
      f == Some(Failure(StatusBadRequest, ShortNewPasswordMessage))
    ensures Present(req.currentPassword) && Present(req.newPassword)
            && |req.newPassword.value| >= MinPasswordLength && id >= |users| ==>
      f == Some(UserNotFound)
    ensures f.None? <==>
      && Present(req.currentPassword) && Present(req.newPassword)
      && |req.newPassword.value| >= MinPasswordLength
      && id < |users| && PasswordMatches(hash, users[id], req.currentPassword.value)
    ensures f.Some? && id < |users| && Present(req.currentPassword) && Present(req.newPassword)
            && |req.newPassword.value| >= MinPasswordLength ==>
      f == Some(Failure(StatusUnauthorized, WrongPasswordMessage))
  {
    if !Present(req.currentPassword) || !Present(req.newPassword) then
      Some(Failure(StatusBadRequest, PasswordsRequiredMessage))
    else if |req.newPassword.value| < MinPasswordLength then
      Some(Failure(StatusBadRequest, ShortNewPasswordMessage))
    else if id >= |users| then Some(UserNotFound)
    else if !PasswordMatches(hash, users[id], req.currentPassword.value) then
      Some(Failure(StatusUnauthorized, WrongPasswordMessage))
    else None
  }

  /** The user collection. */
  class UserStore {
    var users: seq<User>
    /** The user model's password hashing. */
    const hash: string -> Digest

    constructor (hash: string -> Digest)
      ensures users == [] && this.hash == hash
    {
      users := [];
      this.hash := hash;
    }

    /** `POST /signup`: on success exactly one user is appended and the
        reply carries a token for its id and role, and the user without
        password or mobile. */
    method Signup(req: SignupRequest, now: int) returns (r: Reply<Session>)
      modifies this
      ensures SignupRejection(old(users), req).Some? ==>
        r == Error(SignupRejection(old(users), req).value) && users == old(users)
      ensures SignupRejection(old(users), req).None? ==>
        var u := NewUser(req, hash);
        var id := |old(users)|;
        && users == old(users) + [u]
        && r == Ok(StatusCreated, Session(GenerateToken(Claims(id, u.role), now),
                                          PublicUser(id, u.name, u.email, None, u.role)))
      ensures r.Ok? && req.role.Some? ==> r.value.token.payload.role == req.role.value
      ensures r.Ok? && req.role == Some(AdminRole) ==> HasAdmin(users)
      ensures EmailsUnique(old(users)) ==> EmailsUnique(users)
      ensures AtMostOneAdmin(old(users)) ==> AtMostOneAdmin(users)
    {
      var rejected := SignupRejection(users, req);
      if rejected.Some? {
        return Error(rejected.value);
      }
      SignupKeepsInvariants(users, req, hash);
      var u := NewUser(req, hash);
      var id := |users|;
      users := users + [u];
      assert users[id] == u;
      r := Ok(StatusCreated, Session(GenerateToken(Claims(id, u.role), now),
                                     PublicUser(id, u.name, u.email, None, u.role)));
    }

    /** `PUT /profile/password`: on success only the caller's stored digest
        changes, to the digest of the new password. */
    method ChangePassword(id: UserId, req: PasswordChange) returns (r: Reply<string>)
      modifies this
      ensures PasswordChangeRejection(old(users), hash, id, req).Some? ==>
        r == Error(PasswordChangeRejection(old(users), hash, id, req).value) && users == old(users)
      ensures PasswordChangeRejection(old(users), hash, id, req).None? ==>
        && users == old(users)[id := old(users)[id].(password := hash(req.newPassword.value))]
        && r == Ok(StatusOk, PasswordUpdatedMessage)
      ensures |users| == |old(users)|
      ensures forall i :: 0 <= i < |users| ==> Profile(users, i) == Profile(old(users), i)
    {
      var rejected := PasswordChangeRejection(users, hash, id, req);
      if rejected.Some? {
        return Error(rejected.value);
      }
      forall i | 0 <= i < |users|
        ensures Profile(users[id := users[id].(password := hash(req.newPassword.value))], i) == Profile(users, i)
      {
        ProfileIgnoresPassword(users, id, i, hash(req.newPassword.value));
      }
      users := users[id := users[id].(password := hash(req.newPassword.value))];
      r := Ok(StatusOk, PasswordUpdatedMessage);
    }
  }

  // ----- Round trips -----

  /** Signing up and then logging in with the same email and password opens
      a session for the new user, with its id and role in the token. */
  lemma SignupThenLogin(users: seq<User>, hash: string -> Digest, req: SignupRequest, now: int)
    requires SignupRejection(users, req).None?
    ensures var u := NewUser(req, hash);
      Login(users + [u], hash, LoginRequest(req.email, req.password), now)
      == Ok(StatusOk, Session(GenerateToken(Claims(|users|, u.role), now),
                              PublicUser(|users|, u.name, u.email, Some(u.mobile), u.role)))
  {
    FindAppended(users, NewUser(req, hash));
  }

  /** After a password change, the new password logs the user in and the
      old one no longer does (unless both have the same digest). */
  lemma {:induction false} ChangeThenLogin(users: seq<User>, hash: string -> Digest, id: UserId,
                                           req: PasswordChange, now: int)
    requires EmailsUnique(users) && id < |users| && users[id].email != ""
    requires PasswordChangeRejection(users, hash, id, req).None?
    ensures var after := users[id := users[id].(password := hash(req.newPassword.value))];
      && Login(after, hash, LoginRequest(Some(users[id].email), req.newPassword), now).Ok?
      && Login(after, hash, LoginRequest(Some(users[id].email), req.newPassword), now).value.user.id == id
      && (hash(req.currentPassword.value) != hash(req.newPassword.value) ==>
          Login(after, hash, LoginRequest(Some(users[id].email), req.currentPassword), now)
          == Error(BadCredentials))
  {
    var after := users[id := users[id].(password := hash(req.newPassword.value))];
    FindOwnEmail(users, id);
    FindIgnoresPassword(users, id, hash(req.newPassword.value), users[id].email);
    assert FindByEmail(after, users[id].email) == Some(id);
    assert after[id].password == hash(req.newPassword.value);
  }
}
