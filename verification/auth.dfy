/** The authentication router: input validation, bearer-token extraction,
    the token-to-identity decision of `authenticateToken`, the role check
    attached to the identity, and the register / login / logout / update
    routes built on them.

    `jwt.verify` (HS256 only, maximum age one hour) is an oracle
    `verify: string -> Verified`; `jwt.sign` is represented by the token it
    produced, passed in as `token`.
 */
module Auth {
  import opened Common
  import opened Text
  import opened Sessions
  import Users
  import Throttle
  import Metrics

  const FieldsRequired: Failure := Failure(400, "All fields are required")
  const AuthRequired: Failure := Failure(401, "Authentication required")
  const InvalidToken: Failure := Failure(401, "Invalid token")
  const SessionExpired: Failure := Failure(401, "Session expired")
  const Unauthorized: Failure := Failure(403, "Unauthorized")
  const RegistrationFailed: Failure := Failure(400, "Registration failed")
  const UpdateFailed: Failure := Failure(400, "Update failed")

  /** The class `[<>'"]` stripped from names. */
  const Markup: set<char> := {'<', '>', '\'', '"'}

  // ---------------------------------------------------------------------------
  // validateInput

  /** The `name`, `email` and `password` fields of a request body. */
  datatype Body = Body(name: Option<string>, email: Option<string>, password: Option<string>)

  /** A body that passed validation, with the name already sanitised. */
  datatype Credentials = Credentials(name: string, email: string, password: string)

  /** `validateInput`: all three fields present, then the e-mail pattern, then
      the password length; on success the name loses every `<`, `>`, `'`, `"`. */
  function ValidateInput(b: Body): (r: Result<Credentials>)
    ensures r == Err(FieldsRequired) <==> !(Truthy(b.name) && Truthy(b.email) && Truthy(b.password))
    ensures r == Err(Users.BadEmail) <==>
      Truthy(b.name) && Truthy(b.email) && Truthy(b.password) && !IsEmail(b.email.value)
    ensures r == Err(Users.ShortPassword) <==>
      && Truthy(b.name) && Truthy(b.email) && Truthy(b.password) && IsEmail(b.email.value)
      && |b.password.value| < Users.MinPasswordLength
    ensures r.Ok? ==> && r.value.email == b.email.value && r.value.password == b.password.value
                      && IsEmail(r.value.email) && |r.value.password| >= Users.MinPasswordLength
                      && r.value.name == RemoveAll(b.name.value, Markup)
    ensures r.Ok? ==> forall i :: 0 <= i < |r.value.name| ==> r.value.name[i] !in Markup
  {
    if !(Truthy(b.name) && Truthy(b.email) && Truthy(b.password)) then Err(FieldsRequired)
    else if !IsEmail(b.email.value) then Err(Users.BadEmail)
    else if |b.password.value| < Users.MinPasswordLength then Err(Users.ShortPassword)
    else Ok(Credentials(RemoveAll(b.name.value, Markup), b.email.value, b.password.value))
  }

  /** Validating an already validated body changes nothing more. */
  lemma ValidateInputIdempotent(b: Body)
    requires ValidateInput(b).Ok?
    ensures var c := ValidateInput(b).value;
      ValidateInput(Body(Some(c.name), Some(c.email), Some(c.password))) == Ok(c)
      || (c.name == "" && ValidateInput(Body(Some(c.name), Some(c.email), Some(c.password))) == Err(FieldsRequired))
  {
    var c := ValidateInput(b).value;
    RemoveAllIdempotent(b.name.value, Markup);
  }

  // ---------------------------------------------------------------------------
  // readAuthToken

  /** `readAuthToken(req)`: the second space-separated word of the
      Authorization header, whatever the first word is. */
  function ReadAuthToken(header: Option<string>): (r: Option<string>)
    ensures !Truthy(header) ==> r == None
    ensures Truthy(header) ==> (r.Some? <==> Count(header.value, ' ') >= 1)
    ensures r.Some? ==> ' ' !in r.value
  {
    if !Truthy(header) then None else Segment(header.value, ' ', 1)
  }

  /** `Bearer <token>` (or any other first word) yields the token. */
  lemma BearerToken(scheme: string, token: string, more: seq<string>)
    requires ' ' !in scheme && ' ' !in token
    requires forall i :: 0 <= i < |more| ==> ' ' !in more[i]
    ensures ReadAuthToken(Some(Join([scheme, token] + more, ' '))) == Some(token)
  {
    var parts := [scheme, token] + more;
    SepFreeConcat([scheme, token], more, ' ');
    SegmentOfJoin(parts, ' ', 1);
  }

  // ---------------------------------------------------------------------------
  // authenticateToken

  /** One entry of the `roles` claim. */
  datatype ClaimRole = ClaimRole(role: string, objectId: Option<int>)

  /** The decoded payload's `id`, `email` and `roles` claims. */
  datatype Claims = Claims(id: Option<int>, email: Option<string>, roles: Option<seq<ClaimRole>>)

  /** What `jwt.verify` does with a token: throw, or return the payload. */
  datatype Verified = VerifyFailed | Decoded(claims: Claims)

  /** `{ role, objectId }` of `req.user.roles`. */
  datatype RoleRef = RoleRef(role: string, objectId: int)

  /** `req.user`. */
  datatype Identity = Identity(id: int, email: string, roles: seq<RoleRef>)

  /** The decision of `authenticateToken`: a terminal failure, or `next()`
      with `req.user` set. */
  datatype AuthOutcome = Deny(failure: Failure) | Allow(user: Identity)

  /** The claims check: `id`, `email` and `roles` must all be truthy. */
  predicate ClaimsPresent(c: Claims) {
    c.id.Some? && c.id.value != 0 && Truthy(c.email) && c.roles.Some?
  }

  /** A role of `req.user`: a falsy `objectId` becomes 0. */
  function SanitizeRole(r: ClaimRole): (rr: RoleRef)
    ensures rr.role == r.role
    ensures rr.objectId == 0 <==> r.objectId.None? || r.objectId.value == 0
    ensures r.objectId.Some? ==> rr.objectId == r.objectId.value
  {
    RoleRef(r.role, r.objectId.GetOr(0))
  }

  function IdentityOf(c: Claims): (u: Identity)
    requires ClaimsPresent(c)
    ensures u.id == c.id.value && u.email == c.email.value
    ensures |u.roles| == |c.roles.value|
    ensures forall k :: 0 <= k < |u.roles| ==> u.roles[k] == SanitizeRole(c.roles.value[k])
  {
    var rs := c.roles.value;
    Identity(c.id.value, c.email.value, seq(|rs|, k requires 0 <= k < |rs| => SanitizeRole(rs[k])))
  }

  /** `authenticateToken` as written. The session check passes the promise
      `DB.isLoggedIn(token)` without awaiting it; a promise is truthy, so the
      "Session expired" branch is never taken and the session table is not
      consulted. */
  function Authenticate(header: Option<string>, verify: string -> Verified): (r: AuthOutcome)
    ensures r == Deny(AuthRequired) <==> !Truthy(ReadAuthToken(header))
    ensures r == Deny(InvalidToken) <==>
      && Truthy(ReadAuthToken(header))
      && (verify(ReadAuthToken(header).value).VerifyFailed?
          || !ClaimsPresent(verify(ReadAuthToken(header).value).claims))
    ensures r.Deny? ==> r.failure == AuthRequired || r.failure == InvalidToken
    ensures r.Allow? ==> && Truthy(ReadAuthToken(header))
                         && verify(ReadAuthToken(header).value).Decoded?
                         && ClaimsPresent(verify(ReadAuthToken(header).value).claims)
                         && r.user == IdentityOf(verify(ReadAuthToken(header).value).claims)
  {
    var token := ReadAuthToken(header);
    if !Truthy(token) then Deny(AuthRequired)
    else
      match verify(token.value)
      case VerifyFailed => Deny(InvalidToken)
      case Decoded(c) =>
        if !ClaimsPresent(c) then Deny(InvalidToken)
        else Allow(IdentityOf(c))
  }

  /** `authenticateToken` with the session lookup awaited: a token whose
      signature has no row in the `auth` table is refused. */
  function AuthenticateChecked(header: Option<string>, verify: string -> Verified, table: AuthTable): (r: AuthOutcome)
    ensures r.Allow? ==> Truthy(ReadAuthToken(header)) && IsLoggedIn(table, ReadAuthToken(header).value)
    ensures r == Deny(SessionExpired) <==>
      Authenticate(header, verify).Allow? && !IsLoggedIn(table, ReadAuthToken(header).value)
    ensures r.Allow? ==> r == Authenticate(header, verify)
    ensures Authenticate(header, verify).Deny? ==> r == Authenticate(header, verify)
  {
    var r := Authenticate(header, verify);
    if r.Allow? && !IsLoggedIn(table, ReadAuthToken(header).value) then Deny(SessionExpired) else r
  }

  /** Which session check the authenticated routes run: the code as written,
      where `DB.isLoggedIn` is not awaited, or the check with the lookup
      awaited. */
  datatype SessionCheck = NotAwaited | Awaited

  /** `authenticateToken` under the given session check. */
  function AuthenticateWith(check: SessionCheck, header: Option<string>, verify: string -> Verified,
                            table: AuthTable): AuthOutcome
  {
    match check
    case NotAwaited => Authenticate(header, verify)
    case Awaited => AuthenticateChecked(header, verify, table)
  }

  /** A token that was logged out but still verifies is accepted by the
      code as written, and refused once the lookup is awaited. */
  lemma RevokedTokenStillAccepted(table: AuthTable, userId: int, token: string, verify: string -> Verified)
    requires token != "" && ' ' !in token
    requires verify(token).Decoded? && ClaimsPresent(verify(token).claims)
    ensures var header := Some(Join(["Bearer", token], ' '));
      var revoked := LogoutUser(LoginUser(table, userId, token), token);
      && Authenticate(header, verify).Allow?
      && AuthenticateChecked(header, verify, revoked) == Deny(SessionExpired)
  {
    BearerToken("Bearer", token, []);
  }

  /** Every step of the verify/claims stage fails with one and the same
      response, so the caller cannot tell which step failed. */
  lemma InvalidTokenIsUniform(header: Option<string>, verify: string -> Verified)
    requires Truthy(ReadAuthToken(header))
    requires verify(ReadAuthToken(header).value).VerifyFailed?
          || !ClaimsPresent(verify(ReadAuthToken(header).value).claims)
    ensures Authenticate(header, verify) == Deny(Failure(401, "Invalid token"))
  {
  }

  // ---------------------------------------------------------------------------
  // role checks

  /** `req.user.isRole(role)`: whether some role of the identity has that name. */
  function HasRole(roles: seq<RoleRef>, role: string): (b: bool)
    ensures b <==> exists i :: 0 <= i < |roles| && roles[i].role == role
  {
    if |roles| == 0 then false
    else if roles[0].role == role then true
    else
      var b := HasRole(roles[1..], role);
      assert b ==> exists i :: 0 <= i < |roles| && roles[i].role == role by {
        if b {
          var i :| 0 <= i < |roles[1..]| && roles[1..][i].role == role;
          assert roles[i + 1].role == role;
        }
      }
      b
  }

  predicate IsRole(u: Identity, role: string) {
    HasRole(u.roles, role)
  }

  /** The objectId of a role never affects the check. */
  lemma IsRoleIgnoresObjectId(u: Identity, i: int, objectId: int, role: string)
    requires 0 <= i < |u.roles|
    ensures IsRole(u, role) == IsRole(u.(roles := u.roles[i := RoleRef(u.roles[i].role, objectId)]), role)
  {
    var u' := u.(roles := u.roles[i := RoleRef(u.roles[i].role, objectId)]);
    if IsRole(u, role) {
      var j :| 0 <= j < |u.roles| && u.roles[j].role == role;
      assert u'.roles[j].role == role;
    }
    if IsRole(u', role) {
      var j :| 0 <= j < |u'.roles| && u'.roles[j].role == role;
      assert u.roles[j].role == role;
    }
  }

  /** The rule of `PUT /:userId`: the caller is the target, or an Admin. */
  predicate SelfOrAdmin(u: Identity, targetId: int) {
    u.id == targetId || IsRole(u, Users.Admin)
  }

  // ---------------------------------------------------------------------------
  // routes

  /** Body of a successful register or login: the user and its token. */
  datatype Session<U> = Session(user: U, token: string)

  /** `POST /api/auth` (register): validation, then `addUser` with the single
      role Diner, then `setAuth`. Every `addUser` error reads as
      "Registration failed". */
  function Register(store: Users.Store, table: AuthTable, body: Body, franchises: map<string, int>,
                    hashed: string, token: string)
    : (r: (Users.Store, AuthTable, Result<Session<Users.AddedUser>>))
    ensures ValidateInput(body).Err? ==> r == (store, table, Err(ValidateInput(body).failure))
    ensures ValidateInput(body).Ok? && Users.EmailTaken(store, body.email.value)
      ==> r == (store, table, Err(RegistrationFailed))
    ensures r.2.Err? ==> r.1 == table
    ensures r.2.Ok? ==> && !Users.EmailTaken(store, body.email.value)
                        && r.2.value.token == token
                        && r.2.value.user.roles == [Users.RoleRequest(Users.Diner, None)]
                        && r.2.value.user.id == store.nextId
                        && r.1 == LoginUser(table, store.nextId, token)
                        && IsLoggedIn(r.1, token)
    ensures ValidateInput(body).Ok? && !Users.EmailTaken(store, body.email.value) ==>
      && r.2.Ok?
      && r.0.users == store.users + [Users.UserRec(store.nextId, ValidateInput(body).value.name, body.email.value, hashed)]
      && r.0.roleRows == store.roleRows + [Users.RoleRow(store.nextId, Users.Diner, 0)]
      && r.0.nextId == store.nextId + 1
  {
    match ValidateInput(body)
    case Err(f) => (store, table, Err(f))
    case Ok(c) =>
      var added := Users.AddUser(store, Users.NewUser(c.name, c.email, c.password,
                                   Users.RoleList([Users.RoleRequest(Users.Diner, None)])), franchises, hashed);
      Users.AddSingleDiner(store, c.name, c.email, c.password, franchises, hashed);
      match added.1
      case Err(_) => (added.0, table, Err(RegistrationFailed))
      case Ok(u) => (added.0, LoginUser(table, u.id, token), Ok(Session(u, token)))
  }

  /** `PUT /api/auth` (login): validation, then `getUser`; any error of
      `getUser`, the throttle's 429 included, is answered 401
      "Invalid credentials". Each validated attempt is counted once. */
  function Login(t: Throttle.Throttle, store: Users.Store, table: AuthTable, m: Metrics.State, body: Body,
                 compare: (string, string) -> bool, token: string)
    : (r: (Throttle.Throttle, AuthTable, Metrics.State, Result<Session<Users.PublicUser>>))
    ensures ValidateInput(body).Err? ==> r == (t, table, m, Err(ValidateInput(body).failure))
    ensures ValidateInput(body).Ok? ==>
      var got := Users.GetUser(t, store, body.email.value, body.password.value, compare);
      && r.0 == got.0
      && (got.1.Err? ==> r.3 == Err(Users.InvalidCredentials) && r.1 == table)
      && (got.1.Ok? ==> r.3 == Ok(Session(got.1.value, token)) && r.1 == LoginUser(table, got.1.value.id, token))
      && r.2.auth == Metrics.Record(m.auth, got.1.Ok?)
    ensures r.3.Ok? ==> IsLoggedIn(r.1, token) && r.3.value.user.id in r.2.active.ids
    ensures Metrics.Consistent(m) ==> Metrics.Consistent(r.2)
  {
    match ValidateInput(body)
    case Err(f) => (t, table, m, Err(f))
    case Ok(c) =>
      var got := Users.GetUser(t, store, c.email, c.password, compare);
      match got.1
      case Err(_) => (got.0, table, Metrics.IncrementAuthenticationCount(m, false), Err(Users.InvalidCredentials))
      case Ok(u) =>
        var m' := Metrics.TrackActivity(Metrics.IncrementAuthenticationCount(m, true), u.id, true);
        (got.0, LoginUser(table, u.id, token), m', Ok(Session(u, token)))
  }

  /** A throttled login is indistinguishable from a wrong password. */
  lemma ThrottledLoginLooksLikeBadPassword(t: Throttle.Throttle, store: Users.Store, table: AuthTable,
                                           m: Metrics.State, body: Body, compare: (string, string) -> bool,
                                           token: string)
    requires ValidateInput(body).Ok?
    requires Throttle.Attempts(t, body.email.value) >= Throttle.MaxAttempts
    ensures Login(t, store, table, m, body, compare, token).3 == Err(Failure(401, "Invalid credentials"))
    ensures Login(t, store, table, m, body, compare, token).0 == t
  {
  }

  /** A fresh registration logs in at once with the same body, provided
      bcrypt accepts the password against the hash stored for it; the new
      user holds exactly the one Diner role, and both tokens are live. */
  lemma RegisterThenLogin(t: Throttle.Throttle, store: Users.Store, table: AuthTable, m: Metrics.State,
                          body: Body, franchises: map<string, int>, hashed: string, token: string,
                          token2: string, compare: (string, string) -> bool)
    requires ValidateInput(body).Ok? && !Users.EmailTaken(store, body.email.value)
    requires Users.Valid(store)
    requires compare(body.password.value, hashed)
    requires Throttle.Attempts(t, body.email.value) < Throttle.MaxAttempts
    ensures var reg := Register(store, table, body, franchises, hashed, token);
      var login := Login(t, reg.0, reg.1, m, body, compare, token2);
      && login.3.Ok?
      && login.3.value.user.id == store.nextId
      && login.3.value.user.email == body.email.value
      && login.3.value.user.roles == [Users.UserRole(Users.Diner, None)]
      && IsLoggedIn(login.1, token) && IsLoggedIn(login.1, token2)
  {
    var c := ValidateInput(body).value;
    var rec := Users.UserRec(store.nextId, c.name, c.email, hashed);
    Users.AddedDinerLogsIn(t, store, rec, c.password, compare);
  }

  /** `DELETE /api/auth` (logout): after authentication under `check` the
      user is marked inactive and the token's session row is deleted. */
  function Logout(check: SessionCheck, table: AuthTable, m: Metrics.State, header: Option<string>,
                  verify: string -> Verified)
    : (r: (AuthTable, Metrics.State, Result<string>))
    ensures AuthenticateWith(check, header, verify, table).Deny? ==>
      r == (table, m, Err(AuthenticateWith(check, header, verify, table).failure))
    ensures AuthenticateWith(check, header, verify, table).Allow? ==>
      && r.2 == Ok("logout successful")
      && r.1 == m.(active := Metrics.TrackUserActivity(m.active, AuthenticateWith(check, header, verify, table).user.id, false))
      && r.0 == LogoutUser(table, ReadAuthToken(header).value)
      && !IsLoggedIn(r.0, ReadAuthToken(header).value)
  {
    match AuthenticateWith(check, header, verify, table)
    case Deny(f) => (table, m, Err(f))
    case Allow(u) =>
      var m' := Metrics.TrackActivity(m, u.id, false);
      (LogoutUser(table, ReadAuthToken(header).value), m', Ok("logout successful"))
  }

  /** With the session lookup awaited, a logged-out header is refused with
      "Session expired" for as long as its token still verifies, by logout
      itself as by every other authenticated route. */
  lemma LogoutRevokes(table: AuthTable, m: Metrics.State, header: Option<string>, verify: string -> Verified)
    requires AuthenticateChecked(header, verify, table).Allow?
    ensures var after := Logout(Awaited, table, m, header, verify);
      && AuthenticateChecked(header, verify, after.0) == Deny(SessionExpired)
      && Logout(Awaited, after.0, after.1, header, verify).2 == Err(SessionExpired)
  {
  }

  /** As written, logging out revokes nothing: the same header logs out
      again successfully, and no authenticated route's answer depends on
      the session table at all. */
  lemma LogoutKeepsTokenUsable(table: AuthTable, m: Metrics.State, header: Option<string>, verify: string -> Verified)
    requires Authenticate(header, verify).Allow?
    ensures var after := Logout(NotAwaited, table, m, header, verify);
      && !IsLoggedIn(after.0, ReadAuthToken(header).value)
      && AuthenticateWith(NotAwaited, header, verify, after.0) == AuthenticateWith(NotAwaited, header, verify, table)
      && Logout(NotAwaited, after.0, after.1, header, verify).2 == Ok("logout successful")
  {
  }

  /** `PUT /api/auth/:userId`: authentication under `check`, validation, the
      self-or-Admin rule, then `updateUser` with the body's e-mail and
      password; an `updateUser` error reads as "Update failed". */
  function UpdateRoute(check: SessionCheck, t: Throttle.Throttle, store: Users.Store, table: AuthTable,
                       header: Option<string>, verify: string -> Verified,
                       targetId: int, body: Body, hashed: string, compare: (string, string) -> bool)
    : (r: (Throttle.Throttle, Users.Store, Result<Users.PublicUser>))
    ensures AuthenticateWith(check, header, verify, table).Deny? ==>
      r == (t, store, Err(AuthenticateWith(check, header, verify, table).failure))
    ensures AuthenticateWith(check, header, verify, table).Allow? && ValidateInput(body).Err?
      ==> r == (t, store, Err(ValidateInput(body).failure))
    ensures r.2 == Err(Unauthorized) <==>
      && AuthenticateWith(check, header, verify, table).Allow? && ValidateInput(body).Ok?
      && !SelfOrAdmin(AuthenticateWith(check, header, verify, table).user, targetId)
    ensures r.2 == Err(Unauthorized) ==> r.0 == t && r.1 == store
    ensures r.1 != store ==> AuthenticateWith(check, header, verify, table).Allow?
                             && SelfOrAdmin(AuthenticateWith(check, header, verify, table).user, targetId)
    ensures && AuthenticateWith(check, header, verify, table).Allow? && ValidateInput(body).Ok?
            && SelfOrAdmin(AuthenticateWith(check, header, verify, table).user, targetId) ==>
      var upd := Users.UpdateUser(t, store, targetId, body.email.value, body.password.value, hashed, compare);
      && r.0 == upd.0 && r.1 == upd.1
      && r.1.users == Users.SetFields(store.users, targetId, body.email.value, Some(hashed))
      && (upd.2.Ok? ==> r.2 == upd.2)
      && (upd.2.Err? ==> r.2 == Err(UpdateFailed))
    ensures r.2.Err? ==> r.2.failure.status != 500 && r.2.failure.status != 429
  {
    match AuthenticateWith(check, header, verify, table)
    case Deny(f) => (t, store, Err(f))
    case Allow(u) =>
      match ValidateInput(body)
      case Err(f) => (t, store, Err(f))
      case Ok(c) =>
        if !SelfOrAdmin(u, targetId) then (t, store, Err(Unauthorized))
        else
          var upd := Users.UpdateUser(t, store, targetId, c.email, c.password, hashed, compare);
          match upd.2
          case Err(_) => (upd.0, upd.1, Err(UpdateFailed))
          case Ok(user) => (upd.0, upd.1, Ok(user))
  }

  /** A caller may always update their own profile, and a caller without
      Admin may update no one else's. */
  lemma UpdateAuthorization(u: Identity, targetId: int)
    ensures SelfOrAdmin(u, u.id)
    ensures targetId != u.id && (forall i :: 0 <= i < |u.roles| ==> u.roles[i].role != Users.Admin)
      ==> !SelfOrAdmin(u, targetId)
  {
  }
}
