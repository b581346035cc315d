/** Registration and login. The token each of them issues carries the user's
    id as text; issuing it is the JWT library's business and is reduced here
    to that identity text. */
module Auth {
  import opened Values
  import opened Models
  import opened Errors
  import opened Database
  import opened Identity
  import opened Users

  /** What a successful registration or login answers with. */
  datatype Session = Session(user: User, identity: string)

  // ---- register ----

  /** The checks of `register`: all three fields non-empty, then the
      username, then the email, not yet registered by anyone. */
  function RegisterRefusal(users: map<nat, User>, username: Option<string>, email: Option<string>, password: Option<string>): (e: Option<Error>)
    ensures e.None? <==>
      && TruthyStr(username) && TruthyStr(email) && TruthyStr(password)
      && (forall k :: k in users ==> users[k].username != username.value)
      && (forall k :: k in users ==> users[k].email != email.value)
  {
    if !TruthyStr(username) || !TruthyStr(email) || !TruthyStr(password) then Some(MissingField("username, email, password"))
    else if exists k :: k in users && users[k].username == username.value then Some(UsernameTaken)
    else if exists k :: k in users && users[k].email == email.value then Some(EmailTaken)
    else None
  }

  /** Registers a user with the role the request names (`user` when it names
      none), active, with `hash` of the password. */
  method Register(db: Db, username: Option<string>, email: Option<string>, password: Option<string>, role: Option<string>,
                  now: int, hash: string -> string) returns (res: Result<Session>)
    requires db.Valid()
    modifies db`users, db`nextUserId
    ensures db.Valid()
    ensures res.Err? <==> RegisterRefusal(old(db.users), username, email, password).Some?
    ensures res.Err? ==>
      && res.error == RegisterRefusal(old(db.users), username, email, password).value
      && db.users == old(db.users) && db.nextUserId == old(db.nextUserId)
    ensures res.Ok? ==>
      var u := res.value.user;
      && u == User(old(db.nextUserId), username.value, email.value, hash(password.value), GetOr(role, DefaultRole), now, true)
      && u.id !in old(db.users)
      && db.users == old(db.users)[u.id := u]
      && db.nextUserId == old(db.nextUserId) + 1
      && res.value.identity == Str(u.id)
    ensures UsersDistinct(old(db.users)) ==> UsersDistinct(db.users)
  {
    var err := RegisterRefusal(db.users, username, email, password);
    if err.Some? {
      return Err(err.value);
    }
    var u := User(db.nextUserId, username.value, email.value, hash(password.value), GetOr(role, DefaultRole), now, true);
    db.users := db.users[u.id := u];
    db.nextUserId := db.nextUserId + 1;
    return Ok(Session(u, Str(u.id)));
  }

  /** The role is the caller's to choose: anyone can register as an
      administrator. */
  lemma SelfRegisteredAdmin(users: map<nat, User>, next: nat, username: string, email: string, pw: string, now: int, hash: string -> string)
    ensures IsAdmin(User(next, username, email, hash(pw), GetOr(Some(AdminRole), DefaultRole), now, true))
    ensures !IsAdmin(User(next, username, email, hash(pw), GetOr(None, DefaultRole), now, true))
  {
  }

  // ---- login ----

  /** The login text names a user by username or by email. */
  predicate Names(u: User, login: string) {
    u.username == login || u.email == login
  }

  /** The `.first()` row of the login query, taken as the lowest id in
      `[i, bound)` that the login text names. */
  function FirstNamed(users: map<nat, User>, login: string, i: nat, bound: nat): (r: Option<nat>)
    ensures r.Some? ==> i <= r.value < bound && r.value in users && Names(users[r.value], login)
    ensures r.Some? ==> forall j :: i <= j < r.value && j in users ==> !Names(users[j], login)
    ensures r.None? ==> forall j :: i <= j < bound && j in users ==> !Names(users[j], login)
    decreases bound - i
  {
    if i >= bound then None
    else if i in users && Names(users[i], login) then Some(i)
    else FirstNamed(users, login, i + 1, bound)
  }

  /** `k` is the row `.first()` gives: the lowest id below `next` that the
      login text names. */
  predicate IsFirstNamed(users: map<nat, User>, login: string, next: nat, k: nat) {
    && k < next && k in users && Names(users[k], login)
    && forall j :: j in users && j < k ==> !Names(users[j], login)
  }

  /** `FirstNamed` finds exactly that row. */
  lemma FirstNamedUnique(users: map<nat, User>, login: string, next: nat)
    ensures forall k: nat :: IsFirstNamed(users, login, next, k) <==> FirstNamed(users, login, 0, next) == Some(k)
  {
  }

  /** The checks of `login`: both fields non-empty; then an unknown login
      and a wrong password are the same refusal; then the account must be
      active. */
  function LoginRefusal(users: map<nat, User>, next: nat, login: Option<string>, password: Option<string>,
                        check: (string, string) -> bool): (e: Option<Error>)
    ensures !TruthyStr(login) || !TruthyStr(password) ==> e == Some(MissingField("login, password"))
    ensures e.None? <==>
      && TruthyStr(login) && TruthyStr(password)
      && exists k :: IsFirstNamed(users, login.value, next, k)
                     && check(users[k].passwordHash, password.value) && users[k].isActive
    ensures e == Some(InvalidCredentials) <==>
      && TruthyStr(login) && TruthyStr(password)
      && !exists k :: IsFirstNamed(users, login.value, next, k) && check(users[k].passwordHash, password.value)
    ensures e.Some? ==> e.value in {MissingField("login, password"), InvalidCredentials, AccountDisabled}
  {
    if !TruthyStr(login) || !TruthyStr(password) then Some(MissingField("login, password"))
    else
      var found := FirstNamed(users, login.value, 0, next);
      FirstNamedUnique(users, login.value, next);
      if found.None? || !check(users[found.value].passwordHash, password.value) then Some(InvalidCredentials)
      else if !users[found.value].isActive then Some(AccountDisabled)
      else None
  }

  /** Logs in: finds the first user the login text names and checks the
      password with `check`. */
  method Login(db: Db, login: Option<string>, password: Option<string>, check: (string, string) -> bool)
    returns (res: Result<Session>)
    requires db.Valid()
    ensures res.Err? <==> LoginRefusal(db.users, db.nextUserId, login, password, check).Some?
    ensures res.Err? ==> res.error == LoginRefusal(db.users, db.nextUserId, login, password, check).value
    ensures res.Ok? ==>
      && res.value.user.id in db.users && res.value.user == db.users[res.value.user.id]
      && Names(res.value.user, login.value) && res.value.user.isActive
      && check(res.value.user.passwordHash, password.value)
      && (forall j :: j in db.users && j < res.value.user.id ==> !Names(db.users[j], login.value))
      && res.value.identity == Str(res.value.user.id)
  {
    var err := LoginRefusal(db.users, db.nextUserId, login, password, check);
    if err.Some? {
      return Err(err.value);
    }
    var k := FirstNamed(db.users, login.value, 0, db.nextUserId).value;
    var u := db.users[k];
    return Ok(Session(u, Str(k)));
  }

  /** The first named user in the whole table: every key lies below the id
      counter, so no user is missed. */
  lemma FirstNamedCoversTable(users: map<nat, User>, next: nat, login: string)
    requires UsersKeyed(users, next)
    ensures FirstNamed(users, login, 0, next).None? <==> forall k :: k in users ==> !Names(users[k], login)
  {
  }

  /** An unknown login and a wrong password get the same answer. */
  lemma UnknownLikeWrongPassword(users: map<nat, User>, next: nat, login: string, password: string, check: (string, string) -> bool)
    requires |login| > 0 && |password| > 0
    requires forall k :: k in users ==> !Names(users[k], login)
    ensures LoginRefusal(users, next, Some(login), Some(password), check) == Some(InvalidCredentials)
  {
  }

  /** A disabled account is reported only to a caller who knows its
      password. */
  lemma DisabledOnlyAfterPassword(users: map<nat, User>, next: nat, login: Option<string>, password: Option<string>,
                                  check: (string, string) -> bool)
    requires LoginRefusal(users, next, login, password, check) == Some(AccountDisabled)
    ensures var k := FirstNamed(users, login.value, 0, next).value;
      check(users[k].passwordHash, password.value) && !users[k].isActive
  {
  }

  /** Register then log in: with a hashing library whose check accepts each
      password against its own hash, the new user logs in by username as
      long as no older account has that text as its email. */
  lemma RegisteredCanLogIn(users: map<nat, User>, next: nat, username: string, email: string, password: string,
                           role: Option<string>, now: int, hash: string -> string, check: (string, string) -> bool)
    requires UsersKeyed(users, next)
    requires forall p :: check(hash(p), p)
    requires RegisterRefusal(users, Some(username), Some(email), Some(password)).None?
    requires forall k :: k in users ==> users[k].email != username
    ensures
      var u := User(next, username, email, hash(password), GetOr(role, DefaultRole), now, true);
      && LoginRefusal(users[next := u], next + 1, Some(username), Some(password), check).None?
      && FirstNamed(users[next := u], username, 0, next + 1) == Some(next)
  {
    var u := User(next, username, email, hash(password), GetOr(role, DefaultRole), now, true);
    var after := users[next := u];
    assert forall j :: 0 <= j < next && j in after ==> !Names(after[j], username);
    assert next in after && Names(after[next], username);
  }
}
