/** User administration and self-service: the user list and its status
    filter, viewing, editing and deleting a user, editing one's own profile
    and changing one's password. */
module Users {
  import opened Values
  import opened Text
  import opened Models
  import opened Errors
  import opened Database
  import opened Inventory

  /** The database's unique constraints on `username` and `email`. */
  predicate UsersDistinct(users: map<nat, User>) {
    forall j, k :: j in users && k in users && j != k ==>
      users[j].username != users[k].username && users[j].email != users[k].email
  }

  lemma UsersKeyedWrite(m: map<nat, User>, next: nat, k: nat, u: User)
    requires UsersKeyed(m, next) && k in m && u.id == k
    ensures UsersKeyed(m[k := u], next)
  {
  }

  // ---- get_users ----

  /** The `is_active` filter the `status` arguments ask for: `active` alone
      keeps active users, `inactive` alone inactive ones; both, or neither of
      the two words, filter nothing. */
  function StatusChoice(values: seq<string>): Option<bool> {
    if "active" in values && "inactive" !in values then Some(true)
    else if "inactive" in values && "active" !in values then Some(false)
    else None
  }

  /** The loop over the `status` arguments that sets the two flags. */
  method StatusFilter(values: seq<string>) returns (f: Option<bool>)
    ensures f == StatusChoice(values)
  {
    var activeFilter, inactiveFilter := false, false;
    var i := 0;
    while i < |values|
      invariant 0 <= i <= |values|
      invariant activeFilter <==> "active" in values[..i]
      invariant inactiveFilter <==> "inactive" in values[..i]
    {
      assert values[..i + 1] == values[..i] + [values[i]];
      if values[i] == "active" {
        activeFilter := true;
      } else if values[i] == "inactive" {
        inactiveFilter := true;
      }
      i := i + 1;
    }
    assert values[..i] == values;
    if activeFilter && inactiveFilter {
      f := None;
    } else if activeFilter {
      f := Some(true);
    } else if inactiveFilter {
      f := Some(false);
    } else {
      f := None;
    }
  }

  /** The list's filters: a non-empty `search` text must occur in the
      username or the email, a non-empty `role` must match, and the status
      choice must match `is_active`. */
  predicate UserListed(u: User, search: string, role: string, active: Option<bool>) {
    && (search == [] || Contains(u.username, search) || Contains(u.email, search))
    && (role == [] || u.role == role)
    && (active.None? || u.isActive == active.value)
  }

  /** The users the list selects, before paging. */
  method GetUsers(db: Db, search: string, role: string, status: seq<string>) returns (ids: set<nat>)
    ensures ids == set k | k in db.users && UserListed(db.users[k], search, role, StatusChoice(status))
  {
    var active := StatusFilter(status);
    ids := set k | k in db.users && UserListed(db.users[k], search, role, active);
  }

  /** Asking for both statuses lists active and inactive users alike. */
  lemma BothStatusesFilterNothing(status: seq<string>, u: User, search: string, role: string)
    requires "active" in status && "inactive" in status
    ensures UserListed(u, search, role, StatusChoice(status)) == UserListed(u.(isActive := !u.isActive), search, role, StatusChoice(status))
  {
  }

  /** An unrecognised status word is ignored. */
  lemma UnknownStatusIgnored(status: seq<string>, w: string)
    requires w != "active" && w != "inactive"
    ensures StatusChoice(status + [w]) == StatusChoice(status)
  {
    assert "active" in status + [w] <==> "active" in status;
    assert "inactive" in status + [w] <==> "inactive" in status;
  }

  // ---- get_user and update_user: who may see and edit a record ----

  /** The checks both handlers start with: the caller's own row is read
      (a missing one makes `current_user.role` fail), a non-administrator
      may only address themselves, and the target must exist. */
  function AccessRefusal(users: map<nat, User>, actor: nat, userId: nat): (e: Option<Error>)
    ensures e.None? <==> actor in users && (IsAdmin(users[actor]) || actor == userId) && userId in users
    ensures actor in users && !IsAdmin(users[actor]) && actor != userId ==> e == Some(Forbidden)
  {
    if actor !in users then Some(InternalError)
    else if !IsAdmin(users[actor]) && actor != userId then Some(Forbidden)
    else if userId !in users then Some(NotFound)
    else None
  }

  /** Returns user `userId` to `actor`. */
  method GetUser(db: Db, actor: nat, userId: nat) returns (res: Result<User>)
    ensures res.Err? <==> AccessRefusal(db.users, actor, userId).Some?
    ensures res.Err? ==> res.error == AccessRefusal(db.users, actor, userId).value
    ensures res.Ok? ==> userId in db.users && res.value == db.users[userId]
  {
    var e := AccessRefusal(db.users, actor, userId);
    if e.Some? {
      return Err(e.value);
    }
    return Ok(db.users[userId]);
  }

  /** The request fields of `update_user`, each absent (`None`) or present. */
  datatype UserEdit = UserEdit(
    username: Option<string>,
    email: Option<string>,
    role: Option<string>,
    isActive: Option<bool>)

  /** Another user than `id` already has the username (or email) `v`. */
  predicate UsernameInUse(users: map<nat, User>, id: nat, v: string) {
    exists k :: k in users && k != id && users[k].username == v
  }

  predicate EmailInUse(users: map<nat, User>, id: nat, v: string) {
    exists k :: k in users && k != id && users[k].email == v
  }

  /** A present username or email that differs from the current one and
      belongs to another user refuses the edit. */
  function UpdateUserRefusal(users: map<nat, User>, actor: nat, userId: nat, e: UserEdit): (err: Option<Error>)
    ensures err.None? <==>
      && AccessRefusal(users, actor, userId).None?
      && !(e.username.Some? && e.username.value != users[userId].username && UsernameInUse(users, userId, e.username.value))
      && !(e.email.Some? && e.email.value != users[userId].email && EmailInUse(users, userId, e.email.value))
  {
    var access := AccessRefusal(users, actor, userId);
    if access.Some? then access
    else
      var u := users[userId];
      if e.username.Some? && e.username.value != u.username && UsernameInUse(users, userId, e.username.value) then Some(UsernameTaken)
      else if e.email.Some? && e.email.value != u.email && EmailInUse(users, userId, e.email.value) then Some(EmailTaken)
      else None
  }

  /** The user after an accepted edit: username and email as sent; role and
      active flag as sent only when the caller is an administrator. The
      active flag is decided after the role is written, and an administrator
      editing their own record edits the very row the check reads: having
      just given up the administrator role, they no longer change the flag.
      `ownRecord` says that the caller edits their own record. */
  function EditedUser(u: User, e: UserEdit, byAdmin: bool, ownRecord: bool): (n: User)
    ensures n.id == u.id && n.passwordHash == u.passwordHash && n.createdAt == u.createdAt
    ensures n.username == GetOr(e.username, u.username) && n.email == GetOr(e.email, u.email)
    ensures !byAdmin ==> n.role == u.role && n.isActive == u.isActive
    ensures byAdmin ==> n.role == GetOr(e.role, u.role)
    ensures byAdmin && (!ownRecord || IsAdmin(n)) ==> n.isActive == GetOr(e.isActive, u.isActive)
    ensures ownRecord && !IsAdmin(n) ==> n.isActive == u.isActive
  {
    var role := if byAdmin then GetOr(e.role, u.role) else u.role;
    var stillAdmin := if ownRecord then role == AdminRole else byAdmin;
    u.(username := GetOr(e.username, u.username),
       email := GetOr(e.email, u.email),
       role := role,
       isActive := if byAdmin && stillAdmin then GetOr(e.isActive, u.isActive) else u.isActive)
  }

  /** An administrator who demotes themselves in the same request that
      deactivates them stays active: the demotion decides the second check. */
  lemma SelfDemotionKeepsActive(u: User, e: UserEdit)
    requires IsAdmin(u) && e.role.Some? && e.role.value != AdminRole
    ensures !IsAdmin(EditedUser(u, e, true, true))
    ensures EditedUser(u, e, true, true).isActive == u.isActive
  {
  }

  /** Replacing one user by a row whose username and email no other user has
      keeps them unique. */
  lemma RewriteKeepsDistinct(users: map<nat, User>, id: nat, n: User)
    requires UsersDistinct(users) && id in users
    requires n.username == users[id].username || !UsernameInUse(users, id, n.username)
    requires n.email == users[id].email || !EmailInUse(users, id, n.email)
    ensures UsersDistinct(users[id := n])
  {
    var after := users[id := n];
    forall j, k | j in after && k in after && j != k
      ensures after[j].username != after[k].username && after[j].email != after[k].email
    {
      if j == id {
        assert after[k] == users[k];
      } else if k == id {
        assert after[j] == users[j];
      }
    }
  }

  /** Edits user `userId` on behalf of `actor`. */
  method UpdateUser(db: Db, actor: nat, userId: nat, e: UserEdit) returns (res: Result<User>)
    requires db.Valid()
    modifies db`users
    ensures db.Valid()
    ensures res.Err? <==> UpdateUserRefusal(old(db.users), actor, userId, e).Some?
    ensures res.Err? ==>
      && res.error == UpdateUserRefusal(old(db.users), actor, userId, e).value
      && db.users == old(db.users)
    ensures res.Ok? ==>
      && res.value == EditedUser(old(db.users)[userId], e, IsAdmin(old(db.users)[actor]), actor == userId)
      && db.users == old(db.users)[userId := res.value]
    ensures UsersDistinct(old(db.users)) ==> UsersDistinct(db.users)
  {
    var err := UpdateUserRefusal(db.users, actor, userId, e);
    if err.Some? {
      return Err(err.value);
    }
    var n := EditedUser(db.users[userId], e, IsAdmin(db.users[actor]), actor == userId);
    if UsersDistinct(db.users) {
      RewriteKeepsDistinct(db.users, userId, n);
    }
    UsersKeyedWrite(db.users, db.nextUserId, userId, n);
    db.users := db.users[userId := n];
    return Ok(n);
  }

  /** A non-administrator can change neither their role nor their active
      flag, whatever the request says. */
  lemma NoSelfPromotion(users: map<nat, User>, actor: nat, e: UserEdit)
    requires actor in users && !IsAdmin(users[actor])
    requires UpdateUserRefusal(users, actor, actor, e).None?
    ensures !IsAdmin(EditedUser(users[actor], e, IsAdmin(users[actor]), true))
    ensures EditedUser(users[actor], e, IsAdmin(users[actor]), true).isActive == users[actor].isActive
  {
  }

  // ---- delete_user ----

  /** A loan of `user` in status borrowed. */
  function BorrowedBy(user: nat): BorrowRecord -> bool {
    (r: BorrowRecord) => r.userId == user && r.status == Borrowed
  }

  /** The checks of `delete_user` after the administrator decorator: not
      oneself, an existing user, and no loan in status borrowed. */
  function DeleteUserRefusal(users: map<nat, User>, loans: map<nat, BorrowRecord>, actor: nat, userId: nat): (e: Option<Error>)
    ensures e.None? <==> actor != userId && userId in users && Count(loans, BorrowedBy(userId)) == 0
  {
    if actor == userId then Some(CannotDeleteSelf)
    else if userId !in users then Some(NotFound)
    else if Count(loans, BorrowedBy(userId)) > 0 then Some(HasUnreturnedBooks)
    else None
  }

  /** Only a loan in status borrowed blocks the deletion; an overdue or a
      returned one does not. */
  lemma DeleteBlockedIff(users: map<nat, User>, loans: map<nat, BorrowRecord>, actor: nat, userId: nat)
    requires actor != userId && userId in users
    ensures DeleteUserRefusal(users, loans, actor, userId) == Some(HasUnreturnedBooks)
        <==> exists k :: k in loans && loans[k].userId == userId && loans[k].status == Borrowed
  {
    CountZeroIff(loans, BorrowedBy(userId));
  }

  /** Deletes user `userId`. */
  method DeleteUser(db: Db, actor: nat, userId: nat) returns (res: Result<User>)
    requires db.Valid()
    modifies db`users
    ensures db.Valid()
    ensures res.Err? <==> DeleteUserRefusal(old(db.users), db.loans, actor, userId).Some?
    ensures res.Err? ==>
      && res.error == DeleteUserRefusal(old(db.users), db.loans, actor, userId).value
      && db.users == old(db.users)
    ensures res.Ok? ==> res.value == old(db.users)[userId] && db.users == old(db.users) - {userId}
  {
    var err := DeleteUserRefusal(db.users, db.loans, actor, userId);
    if err.Some? {
      return Err(err.value);
    }
    var u := db.users[userId];
    db.users := db.users - {userId};
    return Ok(u);
  }

  // ---- update_profile ----

  /** Anyone at all, the caller included, already having the new username or
      email refuses the edit (the new value differs from the caller's own). */
  function ProfileRefusal(users: map<nat, User>, actor: nat, username: Option<string>, email: Option<string>): (e: Option<Error>)
    ensures e.None? <==>
      && actor in users
      && !(username.Some? && username.value != users[actor].username && UsernameInUse(users, actor, username.value))
      && !(email.Some? && email.value != users[actor].email && EmailInUse(users, actor, email.value))
  {
    if actor !in users then Some(NotFound)
    else
      var u := users[actor];
      if username.Some? && username.value != u.username && (exists k :: k in users && users[k].username == username.value) then Some(UsernameTaken)
      else if email.Some? && email.value != u.email && (exists k :: k in users && users[k].email == email.value) then Some(EmailTaken)
      else None
  }

  /** Changes the caller's own username and email. */
  method UpdateProfile(db: Db, actor: nat, username: Option<string>, email: Option<string>) returns (res: Result<User>)
    requires db.Valid()
    modifies db`users
    ensures db.Valid()
    ensures res.Err? <==> ProfileRefusal(old(db.users), actor, username, email).Some?
    ensures res.Err? ==>
      && res.error == ProfileRefusal(old(db.users), actor, username, email).value
      && db.users == old(db.users)
    ensures res.Ok? ==>
      && res.value == old(db.users)[actor].(username := GetOr(username, old(db.users)[actor].username),
                                            email := GetOr(email, old(db.users)[actor].email))
      && db.users == old(db.users)[actor := res.value]
    ensures UsersDistinct(old(db.users)) ==> UsersDistinct(db.users)
  {
    var err := ProfileRefusal(db.users, actor, username, email);
    if err.Some? {
      return Err(err.value);
    }
    var u := db.users[actor];
    var n := u.(username := GetOr(username, u.username), email := GetOr(email, u.email));
    if UsersDistinct(db.users) {
      RewriteKeepsDistinct(db.users, actor, n);
    }
    UsersKeyedWrite(db.users, db.nextUserId, actor, n);
    db.users := db.users[actor := n];
    return Ok(n);
  }

  /** The profile edit is the administrator's edit restricted to username
      and email: whenever both accept, they store the same row. */
  lemma ProfileIsRestrictedEdit(users: map<nat, User>, actor: nat, username: Option<string>, email: Option<string>)
    requires actor in users
    ensures ProfileRefusal(users, actor, username, email).None?
        <==> UpdateUserRefusal(users, actor, actor, UserEdit(username, email, None, None)).None?
    ensures EditedUser(users[actor], UserEdit(username, email, None, None), IsAdmin(users[actor]), true)
         == users[actor].(username := GetOr(username, users[actor].username), email := GetOr(email, users[actor].email))
  {
  }

  // ---- change_password ----

  /** The checks of `change_password`: both fields present and non-empty, and
      the current password matching the stored hash under `check`. */
  function PasswordRefusal(users: map<nat, User>, actor: nat, current: Option<string>, newPw: Option<string>,
                           check: (string, string) -> bool): (e: Option<Error>)
    ensures e.None? <==> actor in users && TruthyStr(current) && TruthyStr(newPw) && check(users[actor].passwordHash, current.value)
    ensures actor in users && !TruthyStr(current) ==> e == Some(MissingField("current_password"))
  {
    if actor !in users then Some(NotFound)
    else if !TruthyStr(current) then Some(MissingField("current_password"))
    else if !TruthyStr(newPw) then Some(MissingField("new_password"))
    else if !check(users[actor].passwordHash, current.value) then Some(WrongPassword)
    else None
  }

  /** Replaces the caller's password hash by `hash` of the new password;
      `hash` and `check` stand for the password hashing library. */
  method ChangePassword(db: Db, actor: nat, current: Option<string>, newPw: Option<string>,
                        hash: string -> string, check: (string, string) -> bool) returns (res: Result<User>)
    requires db.Valid()
    modifies db`users
    ensures db.Valid()
    ensures res.Err? <==> PasswordRefusal(old(db.users), actor, current, newPw, check).Some?
    ensures res.Err? ==>
      && res.error == PasswordRefusal(old(db.users), actor, current, newPw, check).value
      && db.users == old(db.users)
    ensures res.Ok? ==>
      && res.value == old(db.users)[actor].(passwordHash := hash(newPw.value))
      && db.users == old(db.users)[actor := res.value]
    ensures UsersDistinct(old(db.users)) ==> UsersDistinct(db.users)
  {
    var err := PasswordRefusal(db.users, actor, current, newPw, check);
    if err.Some? {
      return Err(err.value);
    }
    var n := db.users[actor].(passwordHash := hash(newPw.value));
    if UsersDistinct(db.users) {
      RewriteKeepsDistinct(db.users, actor, n);
    }
    UsersKeyedWrite(db.users, db.nextUserId, actor, n);
    db.users := db.users[actor := n];
    return Ok(n);
  }

  /** With a hashing library whose check accepts each password against its
      own hash, the new password is accepted afterwards, and a second change
      must present it. */
  lemma NewPasswordAccepted(users: map<nat, User>, actor: nat, current: Option<string>, newPw: Option<string>,
                            hash: string -> string, check: (string, string) -> bool, again: string)
    requires forall p :: check(hash(p), p)
    requires PasswordRefusal(users, actor, current, newPw, check).None?
    requires TruthyStr(Some(again))
    ensures PasswordRefusal(users[actor := users[actor].(passwordHash := hash(newPw.value))], actor, newPw, Some(again), check).None?
  {
  }
}
