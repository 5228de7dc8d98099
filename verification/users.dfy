/** The user part of `DB`: registration (`addUser`), credential check
    (`getUser`), profile update (`updateUser`) and the pagination offset.

    The `user` and `userRole` tables are sequences of rows in insertion
    order; bcrypt is an oracle: `hashed` stands for the digest `bcrypt.hash`
    produced and `compare(plain, digest)` for `bcrypt.compare`.
 */
module Users {
  import opened Common
  import opened Text
  import Throttle

  const Diner: string := "diner"
  const Admin: string := "admin"
  const Franchisee: string := "franchisee"

  /** `this.validRoles`. */
  const ValidRoles: set<string> := {Diner, Admin, Franchisee}

  const EmailExists: Failure := Failure(400, "Email already exists")
  const RolesRequired: Failure := Failure(400, "At least one role is required")
  const AdminForbidden: Failure := Failure(403, "Unauthorized role assignment")
  const InvalidRole: Failure := Failure(400, "Invalid role")
  /** `getID` throws a plain `Error`, which the service answers with 500. */
  const NoIdFound: Failure := Failure(500, "No ID found")
  const InvalidCredentials: Failure := Failure(401, "Invalid credentials")
  const BadEmail: Failure := Failure(400, "Invalid email format")
  const ShortPassword: Failure := Failure(400, "Password must be at least 8 characters")

  /** Minimum password length of `updateUser` and of the input validation. */
  const MinPasswordLength: int := 8

  datatype UserRec = UserRec(id: int, name: string, email: string, passwordHash: string)
  datatype RoleRow = RoleRow(userId: int, role: string, objectId: int)
  datatype Store = Store(users: seq<UserRec>, roleRows: seq<RoleRow>, nextId: int)

  /** One entry of the `roles` array of a registration: `{ role, object }`, where `object` names a franchise. */
  datatype RoleRequest = RoleRequest(role: string, objectName: Option<string>)

  /** The `roles` field: falsy, some value that is not an array, or an array. */
  datatype RolesField = NoRoles | NotAnArray | RoleList(items: seq<RoleRequest>)

  datatype NewUser = NewUser(name: string, email: string, password: string, roles: RolesField)

  /** What `addUser` returns: the request with its id and without a password. */
  datatype AddedUser = AddedUser(id: int, name: string, email: string, roles: seq<RoleRequest>)

  /** A role as `getUser` reports it: `objectId` 0 reads as `undefined`. */
  datatype UserRole = UserRole(role: string, objectId: Option<int>)

  /** What `getUser` returns: the user row without its password, with roles. */
  datatype PublicUser = PublicUser(id: int, name: string, email: string, roles: seq<UserRole>)

  predicate EmailTaken(store: Store, email: string) {
    exists i :: 0 <= i < |store.users| && store.users[i].email == email
  }

  predicate RequestsRole(rs: seq<RoleRequest>, role: string) {
    exists i :: 0 <= i < |rs| && rs[i].role == role
  }

  predicate AllRolesValid(rs: seq<RoleRequest>) {
    forall i :: 0 <= i < |rs| ==> rs[i].role in ValidRoles
  }

  /** The franchise row a Franchisee request names, if `getID` finds one. */
  predicate FranchiseFound(req: RoleRequest, franchises: map<string, int>) {
    req.objectName.Some? && req.objectName.value in franchises
  }

  /** Every Franchisee request names a franchise that `getID` finds. */
  predicate FranchisesKnown(rs: seq<RoleRequest>, franchises: map<string, int>) {
    forall i :: 0 <= i < |rs| && rs[i].role == Franchisee ==> FranchiseFound(rs[i], franchises)
  }

  /** Auto-increment ids: every user row and every role row refers to an id
      below the counter. */
  ghost predicate Valid(store: Store) {
    && (forall i :: 0 <= i < |store.users| ==> store.users[i].id < store.nextId)
    && (forall i :: 0 <= i < |store.roleRows| ==> store.roleRows[i].userId < store.nextId)
  }

  /** The `userRole` row inserted for one request. */
  ghost predicate RowFits(row: RoleRow, userId: int, req: RoleRequest, franchises: map<string, int>) {
    && row.userId == userId
    && row.role == req.role
    && (req.role != Franchisee ==> row.objectId == 0)
    && (req.role == Franchisee ==> FranchiseFound(req, franchises) && row.objectId == franchises[req.objectName.value])
  }

  /** The role loop of `addUser`: one row per request, in order, until a
      Franchisee request names no known franchise. The flag is true when all
      rows were written. */
  function BuildRoleRows(userId: int, rs: seq<RoleRequest>, franchises: map<string, int>): (r: (seq<RoleRow>, bool))
    ensures |r.0| <= |rs|
    ensures forall i :: 0 <= i < |r.0| ==> RowFits(r.0[i], userId, rs[i], franchises)
    ensures r.1 <==> |r.0| == |rs|
    ensures !r.1 ==> rs[|r.0|].role == Franchisee && !FranchiseFound(rs[|r.0|], franchises)
  {
    if |rs| == 0 then ([], true)
    else
      var req := rs[0];
      if req.role == Franchisee && !FranchiseFound(req, franchises) then ([], false)
      else
        var objectId := if req.role == Franchisee then franchises[req.objectName.value] else 0;
        var rest := BuildRoleRows(userId, rs[1..], franchises);
        ([RoleRow(userId, req.role, objectId)] + rest.0, rest.1)
  }

  /** The role loop writes every row exactly when every Franchisee request
      names a known franchise. */
  lemma BuildRoleRowsComplete(userId: int, rs: seq<RoleRequest>, franchises: map<string, int>)
    ensures BuildRoleRows(userId, rs, franchises).1 <==> FranchisesKnown(rs, franchises)
  {
    var r := BuildRoleRows(userId, rs, franchises);
    if r.1 {
      forall i | 0 <= i < |rs| && rs[i].role == Franchisee
        ensures FranchiseFound(rs[i], franchises)
      {
        assert RowFits(r.0[i], userId, rs[i], franchises);
      }
    }
  }

  /** `addUser(user)`: four checks in a fixed order, none of which writes;
      then the user row and one role row per requested role. */
  function AddUser(store: Store, u: NewUser, franchises: map<string, int>, hashed: string): (r: (Store, Result<AddedUser>))
    ensures EmailTaken(store, u.email) ==> r == (store, Err(EmailExists))
    ensures !EmailTaken(store, u.email) && (!u.roles.RoleList? || |u.roles.items| == 0)
      ==> r == (store, Err(RolesRequired))
    ensures !EmailTaken(store, u.email) && u.roles.RoleList? && RequestsRole(u.roles.items, Admin)
      ==> r == (store, Err(AdminForbidden))
    ensures && !EmailTaken(store, u.email) && u.roles.RoleList? && |u.roles.items| > 0
            && !RequestsRole(u.roles.items, Admin) && !AllRolesValid(u.roles.items)
      ==> r == (store, Err(InvalidRole))
    ensures && !EmailTaken(store, u.email) && u.roles.RoleList? && |u.roles.items| > 0
            && !RequestsRole(u.roles.items, Admin) && AllRolesValid(u.roles.items)
      ==> (r.1.Ok? <==> FranchisesKnown(u.roles.items, franchises))
    ensures r.1.Err? && r.1.failure != NoIdFound ==> r.0 == store
    ensures r.1 == Err(NoIdFound) ==>
      && r.0.users == store.users + [UserRec(store.nextId, u.name, u.email, hashed)]
      && r.0.nextId == store.nextId + 1
      && |store.roleRows| <= |r.0.roleRows| && r.0.roleRows[..|store.roleRows|] == store.roleRows
    ensures r.1.Ok? ==> && u.roles.RoleList?
                        && r.1.value == AddedUser(store.nextId, u.name, u.email, u.roles.items)
                        && r.0.users == store.users + [UserRec(store.nextId, u.name, u.email, hashed)]
                        && r.0.nextId == store.nextId + 1
                        && |r.0.roleRows| == |store.roleRows| + |u.roles.items|
                        && r.0.roleRows[..|store.roleRows|] == store.roleRows
                        && forall i :: 0 <= i < |u.roles.items| ==>
                             RowFits(r.0.roleRows[|store.roleRows| + i], store.nextId, u.roles.items[i], franchises)
  {
    if EmailTaken(store, u.email) then (store, Err(EmailExists))
    else if !u.roles.RoleList? || |u.roles.items| == 0 then (store, Err(RolesRequired))
    else if RequestsRole(u.roles.items, Admin) then (store, Err(AdminForbidden))
    else if !AllRolesValid(u.roles.items) then (store, Err(InvalidRole))
    else
      var id := store.nextId;
      var built := BuildRoleRows(id, u.roles.items, franchises);
      BuildRoleRowsComplete(id, u.roles.items, franchises);
      var store' := Store(store.users + [UserRec(id, u.name, u.email, hashed)], store.roleRows + built.0, id + 1);
      assert store'.roleRows[..|store.roleRows|] == store.roleRows;
      if built.1 then (store', Ok(AddedUser(id, u.name, u.email, u.roles.items)))
      else (store', Err(NoIdFound))
  }

  /** `addUser` keeps every id below the auto-increment counter, whether it
      succeeds, fails before writing, or stops at an unknown franchise. */
  lemma AddUserKeepsValid(store: Store, u: NewUser, franchises: map<string, int>, hashed: string)
    requires Valid(store)
    ensures Valid(AddUser(store, u, franchises, hashed).0)
  {
    var r := AddUser(store, u, franchises, hashed);
    if r.0 != store {
      var built := BuildRoleRows(store.nextId, u.roles.items, franchises);
      assert r.0.roleRows == store.roleRows + built.0;
      forall i | 0 <= i < |built.0|
        ensures built.0[i].userId == store.nextId
      {
        assert RowFits(built.0[i], store.nextId, u.roles.items[i], franchises);
      }
    }
  }

  /** Registering with the single Diner role and a fresh e-mail always
      succeeds: one user row and one Diner row with `objectId` 0. */
  lemma AddSingleDiner(store: Store, name: string, email: string, password: string,
                       franchises: map<string, int>, hashed: string)
    ensures !EmailTaken(store, email) ==>
      AddUser(store, NewUser(name, email, password, RoleList([RoleRequest(Diner, None)])), franchises, hashed)
         == (Store(store.users + [UserRec(store.nextId, name, email, hashed)],
                   store.roleRows + [RoleRow(store.nextId, Diner, 0)], store.nextId + 1),
             Ok(AddedUser(store.nextId, name, email, [RoleRequest(Diner, None)])))
  {
    var rs := [RoleRequest(Diner, None)];
    assert !RequestsRole(rs, Admin);
    assert rs[0].role != Franchisee && rs[1..] == [];
    assert BuildRoleRows(store.nextId, rs[1..], franchises) == ([], true);
    assert [RoleRow(store.nextId, Diner, 0)] + [] == [RoleRow(store.nextId, Diner, 0)];
    assert BuildRoleRows(store.nextId, rs, franchises) == ([RoleRow(store.nextId, Diner, 0)], true);
  }

  /** An Admin role can never be obtained through `addUser`. */
  lemma AddUserNeverGrantsAdmin(store: Store, u: NewUser, franchises: map<string, int>, hashed: string)
    requires forall i :: 0 <= i < |store.roleRows| ==> store.roleRows[i].role != Admin
    ensures forall i :: 0 <= i < |AddUser(store, u, franchises, hashed).0.roleRows| ==>
      AddUser(store, u, franchises, hashed).0.roleRows[i].role != Admin
  {
    var r := AddUser(store, u, franchises, hashed);
    if r.0 != store {
      var built := BuildRoleRows(store.nextId, u.roles.items, franchises);
      assert r.0.roleRows == store.roleRows + built.0;
      forall i | 0 <= i < |built.0|
        ensures built.0[i].role != Admin
      {
        assert RowFits(built.0[i], store.nextId, u.roles.items[i], franchises);
      }
    }
  }

  /** Index of the first user row with this e-mail (`userResult[0]`), or `|users|`. */
  function FirstWithEmail(users: seq<UserRec>, email: string): (i: nat)
    ensures i <= |users|
    ensures i < |users| ==> users[i].email == email
    ensures forall k :: 0 <= k < i ==> users[k].email != email
  {
    if |users| == 0 then 0
    else if users[0].email == email then 0
    else 1 + FirstWithEmail(users[1..], email)
  }

  /** The `userRole` rows of one user, in table order. */
  function RowsOf(rows: seq<RoleRow>, userId: int): (r: seq<RoleRow>)
    ensures forall k :: 0 <= k < |r| ==> r[k].userId == userId
  {
    if |rows| == 0 then []
    else
      var rest := RowsOf(rows[1..], userId);
      if rows[0].userId == userId then [rows[0]] + rest else rest
  }

  /** The selected rows are exactly that user's rows, with multiplicity. */
  lemma {:induction false} RowsOfCounts(rows: seq<RoleRow>, userId: int)
    ensures forall row :: multiset(RowsOf(rows, userId))[row] == if row.userId == userId then multiset(rows)[row] else 0
    decreases |rows|
  {
    if |rows| > 0 {
      RowsOfCounts(rows[1..], userId);
      assert rows == [rows[0]] + rows[1..];
    }
  }

  /** Selecting one user's rows distributes over appending rows. */
  lemma {:induction false} RowsOfAppend(a: seq<RoleRow>, b: seq<RoleRow>, userId: int)
    ensures RowsOf(a + b, userId) == RowsOf(a, userId) + RowsOf(b, userId)
    decreases |a|
  {
    if |a| == 0 {
      assert a + b == b;
    } else {
      var head := if a[0].userId == userId then [a[0]] else [];
      assert (a + b)[0] == a[0] && (a + b)[1..] == a[1..] + b;
      assert RowsOf(a + b, userId) == head + RowsOf(a[1..] + b, userId);
      assert RowsOf(a, userId) == head + RowsOf(a[1..], userId);
      RowsOfAppend(a[1..], b, userId);
      assert head + (RowsOf(a[1..], userId) + RowsOf(b, userId))
          == (head + RowsOf(a[1..], userId)) + RowsOf(b, userId);
    }
  }

  /** An id above every row's user id selects no rows. */
  lemma {:induction false} NoRowsOfFresh(rows: seq<RoleRow>, userId: int)
    requires forall i :: 0 <= i < |rows| ==> rows[i].userId < userId
    ensures RowsOf(rows, userId) == []
    decreases |rows|
  {
    if |rows| > 0 {
      NoRowsOfFresh(rows[1..], userId);
    }
  }

  /** A role row as `getUser` reports it: an `objectId` of 0 becomes absent. */
  function ReportRole(row: RoleRow): (r: UserRole)
    ensures r.role == row.role
    ensures r.objectId.None? <==> row.objectId == 0
    ensures r.objectId.Some? ==> r.objectId.value == row.objectId
  {
    UserRole(row.role, if row.objectId == 0 then None else Some(row.objectId))
  }

  /** `getUser(email, password)`: the throttle first, then the credential
      check; only a successful check deletes the e-mail's counter. */
  function GetUser(t: Throttle.Throttle, store: Store, email: string, password: string,
                   compare: (string, string) -> bool): (r: (Throttle.Throttle, Result<PublicUser>))
    ensures Throttle.Attempts(t, email) >= Throttle.MaxAttempts ==> r == (t, Err(Throttle.TooMany))
    ensures Throttle.Attempts(t, email) < Throttle.MaxAttempts && r.1.Err?
      ==> r.1.failure == InvalidCredentials && r.0 == Throttle.Check(t, email).0
    ensures r.1.Ok? <==> && Throttle.Attempts(t, email) < Throttle.MaxAttempts
                         && EmailTaken(store, email)
                         && compare(password, store.users[FirstWithEmail(store.users, email)].passwordHash)
    ensures r.1.Ok? ==> && email !in r.0.counts
                        && r.0 == Throttle.Reset(Throttle.Check(t, email).0, email)
                        && r.1.value.email == email
                        && r.1.value.id == store.users[FirstWithEmail(store.users, email)].id
                        && |r.1.value.roles| == |RowsOf(store.roleRows, r.1.value.id)|
                        && forall k :: 0 <= k < |r.1.value.roles| ==>
                             r.1.value.roles[k] == ReportRole(RowsOf(store.roleRows, r.1.value.id)[k])
  {
    var checked := Throttle.Check(t, email);
    if checked.1.Some? then (t, Err(checked.1.value))
    else
      var i := FirstWithEmail(store.users, email);
      if i == |store.users| || !compare(password, store.users[i].passwordHash) then
        (checked.0, Err(InvalidCredentials))
      else
        var u := store.users[i];
        var rows := RowsOf(store.roleRows, u.id);
        var roles := seq(|rows|, k requires 0 <= k < |rows| => ReportRole(rows[k]));
        (Throttle.Reset(checked.0, email), Ok(PublicUser(u.id, u.name, u.email, roles)))
  }

  /** The `UPDATE user SET … WHERE id = ?` statement on the user rows. */
  function SetFields(users: seq<UserRec>, userId: int, email: string, hash: Option<string>): (r: seq<UserRec>)
    ensures |r| == |users|
    ensures forall i :: 0 <= i < |users| && users[i].id != userId ==> r[i] == users[i]
    ensures forall i :: 0 <= i < |users| && users[i].id == userId ==>
      && r[i].id == userId && r[i].name == users[i].name
      && r[i].email == (if email != "" then email else users[i].email)
      && r[i].passwordHash == hash.GetOr(users[i].passwordHash)
  {
    seq(|users|, i requires 0 <= i < |users| =>
      var u := users[i];
      if u.id != userId then u
      else UserRec(u.id, u.name, if email != "" then email else u.email, hash.GetOr(u.passwordHash)))
  }

  /** `updateUser(userId, email, password)`: the present fields are
      validated (e-mail first) and written, then the user is read back
      through `getUser(email, password)`. An empty string counts as absent. */
  function UpdateUser(t: Throttle.Throttle, store: Store, userId: int, email: string, password: string,
                      hashed: string, compare: (string, string) -> bool)
    : (r: (Throttle.Throttle, Store, Result<PublicUser>))
    ensures email != "" && !IsEmail(email) ==> r == (t, store, Err(BadEmail))
    ensures (email == "" || IsEmail(email)) && password != "" && |password| < MinPasswordLength
      ==> r == (t, store, Err(ShortPassword))
    ensures email == "" && password == "" ==> r.1 == store
    ensures (email == "" || IsEmail(email)) && (password == "" || |password| >= MinPasswordLength) ==>
      r.1.users == SetFields(store.users, userId, email, if password != "" then Some(hashed) else None)
    ensures r.1.nextId == store.nextId && r.1.roleRows == store.roleRows && |r.1.users| == |store.users|
    ensures forall i :: 0 <= i < |store.users| && store.users[i].id != userId ==> r.1.users[i] == store.users[i]
    ensures r.2 != Err(BadEmail) && r.2 != Err(ShortPassword) ==> (r.0, r.2) == GetUser(t, r.1, email, password, compare)
  {
    if email != "" && !IsEmail(email) then (t, store, Err(BadEmail))
    else if password != "" && |password| < MinPasswordLength then (t, store, Err(ShortPassword))
    else
      var written := SetFields(store.users, userId, email, if password != "" then Some(hashed) else None);
      var store' := if email == "" && password == "" then store else store.(users := written);
      assert email == "" && password == "" ==> written == store.users;
      var read := GetUser(t, store', email, password, compare);
      (read.0, store', read.1)
  }

  /** After an update that passes both checks, the target logs in with the
      new e-mail and password (provided bcrypt accepts the password against
      its new hash and no other user holds that e-mail), and its row holds
      both. */
  lemma UpdateThenGetUser(t: Throttle.Throttle, store: Store, j: nat, email: string, password: string,
                          hashed: string, compare: (string, string) -> bool)
    requires j < |store.users|
    requires IsEmail(email) && |password| >= MinPasswordLength
    requires forall k :: 0 <= k < |store.users| && store.users[k].id != store.users[j].id ==> store.users[k].email != email
    requires compare(password, hashed)
    requires Throttle.Attempts(t, email) < Throttle.MaxAttempts
    ensures var r := UpdateUser(t, store, store.users[j].id, email, password, hashed, compare);
      && r.1.users[j].email == email && r.1.users[j].passwordHash == hashed
      && r.2.Ok? && r.2.value.id == store.users[j].id && r.2.value.email == email
  {
    var userId := store.users[j].id;
    var r := UpdateUser(t, store, userId, email, password, hashed, compare);
    var users' := SetFields(store.users, userId, email, Some(hashed));
    assert r.1.users == users';
    assert users'[j].email == email;
    var i := FirstWithEmail(users', email);
    assert i < |users'|;
    assert users'[i].id == userId && users'[i].passwordHash == hashed;
  }

  /** A user just added with a fresh e-mail and the one Diner role passes
      `getUser` with a password bcrypt accepts against the stored hash. */
  lemma AddedDinerLogsIn(t: Throttle.Throttle, store: Store, rec: UserRec, password: string,
                         compare: (string, string) -> bool)
    requires Valid(store) && !EmailTaken(store, rec.email) && rec.id == store.nextId
    requires compare(password, rec.passwordHash)
    requires Throttle.Attempts(t, rec.email) < Throttle.MaxAttempts
    ensures var store' := Store(store.users + [rec], store.roleRows + [RoleRow(rec.id, Diner, 0)], store.nextId + 1);
      GetUser(t, store', rec.email, password, compare).1 == Ok(PublicUser(rec.id, rec.name, rec.email, [UserRole(Diner, None)]))
  {
    var row := RoleRow(rec.id, Diner, 0);
    var users' := store.users + [rec];
    assert users'[|store.users|] == rec;
    assert FirstWithEmail(users', rec.email) == |store.users| by {
      var i := FirstWithEmail(users', rec.email);
      if i < |store.users| {
        assert false;
      }
    }
    var store' := Store(users', store.roleRows + [row], store.nextId + 1);
    RowsOfAppend(store.roleRows, [row], rec.id);
    NoRowsOfFresh(store.roleRows, rec.id);
    assert RowsOf([row], rec.id) == [row];
    var r := GetUser(t, store', rec.email, password, compare);
    assert r.1.Ok?;
    assert |r.1.value.roles| == 1 && r.1.value.roles[0] == ReportRole(row);
    assert r.1.value.roles == [UserRole(Diner, None)];
    assert r.1.value == PublicUser(rec.id, rec.name, rec.email, [UserRole(Diner, None)]);
  }

  /** `getOffset(page, perPage)`, with an absent page read as page 1. */
  function GetOffset(page: Option<int>, perPage: int): (offset: int)
    ensures perPage > 0 ==> offset % perPage == 0 && offset / perPage == page.GetOr(1) - 1
    ensures page.None? ==> offset == 0
  {
    var p := page.GetOr(1);
    var offset := (p - 1) * perPage;
    assert perPage > 0 ==> offset / perPage == p - 1 && offset % perPage == 0 by {
      if perPage > 0 {
        LemmaExactDivision(p - 1, perPage);
      }
    }
    offset
  }

  lemma LemmaExactDivision(q: int, n: int)
    requires n > 0
    ensures (q * n) / n == q && (q * n) % n == 0
  {
    var m := q * n;
    var d, r := m / n, m % n;
    assert m == d * n + r && 0 <= r < n;
    assert (q - d) * n == r;
    MultipleBounds(q - d, n);
  }

  lemma MultipleBounds(x: int, n: int)
    requires n > 0
    ensures x >= 1 ==> x * n >= n
    ensures x <= -1 ==> x * n <= -n
  {
  }

  /** Consecutive pages are adjacent windows of `perPage` rows. */
  lemma PagesAreAdjacent(page: int, perPage: int)
    ensures GetOffset(Some(page + 1), perPage) == GetOffset(Some(page), perPage) + perPage
    ensures GetOffset(Some(1), perPage) == 0
  {
    assert page * perPage == (page - 1) * perPage + perPage;
  }
}
