/** Registration and profile update: the email (and, on update only, username) uniqueness rules. */
module UserEndpoints {
  import opened Http
  import opened Records

  datatype UserCreate = UserCreate(username: string, email: string, password: string)

  /** A profile update; an absent field is left as it is. */
  datatype UserUpdate = UserUpdate(username: Option<string>, email: Option<string>)

  predicate EmailRegistered(users: map<Uuid, User>, email: string)
  {
    exists id :: id in users && users[id].email == email
  }

  predicate UsernameTakenByOther(users: map<Uuid, User>, current: Uuid, username: string)
  {
    exists id :: id in users && id != current && users[id].username == username
  }

  predicate EmailTakenByOther(users: map<Uuid, User>, current: Uuid, email: string)
  {
    exists id :: id in users && id != current && users[id].email == email
  }

  /**
   * `create_user`: refuse an email some user already has; otherwise add the user under
   * the fresh id the database generates, with the hash the password hasher produced.
   * The username is not checked.
   */
  function CreateUser(db: Db, req: UserCreate, newId: Uuid, passwordHash: string): (r: Result<(Db, Uuid)>)
    requires newId !in db.users
    ensures r.Err? <==> EmailRegistered(db.users, req.email)
    ensures r.Err? ==> r.error == HttpError(BAD_REQUEST, "Email already registered")
    ensures r.Ok? ==>
      var db' := r.value.0;
      && r.value.1 == newId
      && db'.users.Keys == db.users.Keys + {newId}
      && db'.users[newId] == User(req.username, req.email, passwordHash)
      && (forall id :: id in db.users ==> db'.users[id] == db.users[id])
      && db'.categories == db.categories && db'.documents == db.documents && db'.files == db.files
    ensures r.Ok? && EmailsUnique(db.users) ==> EmailsUnique(r.value.0.users)
  {
    if EmailRegistered(db.users, req.email) then
      Err(HttpError(BAD_REQUEST, "Email already registered"))
    else
      Ok((db.(users := db.users[newId := User(req.username, req.email, passwordHash)]), newId))
  }

  /**
   * `update_user_me`: the username, then the email, each only when given and each refused
   * when another user holds it. A refusal aborts the transaction, so nothing changes.
   */
  function UpdateUserMe(db: Db, current: Uuid, upd: UserUpdate): (r: Result<(Db, User)>)
    requires current in db.users
    ensures var usernameClash := upd.username.Some? && UsernameTakenByOther(db.users, current, upd.username.value);
      var emailClash := upd.email.Some? && EmailTakenByOther(db.users, current, upd.email.value);
      && (r.Err? <==> usernameClash || emailClash)
      && (usernameClash ==> r.error == HttpError(BAD_REQUEST, "Username already taken"))
      && (!usernameClash && emailClash ==> r.error == HttpError(BAD_REQUEST, "Email already taken"))
    ensures r.Ok? ==>
      var (db', u) := r.value;
      var before := db.users[current];
      && u.username == (if upd.username.Some? then upd.username.value else before.username)
      && u.email == (if upd.email.Some? then upd.email.value else before.email)
      && u.passwordHash == before.passwordHash
      && db'.users.Keys == db.users.Keys && db'.users[current] == u
      && (forall id :: id in db.users && id != current ==> db'.users[id] == db.users[id])
      && db'.categories == db.categories && db'.documents == db.documents && db'.files == db.files
    ensures r.Ok? && EmailsUnique(db.users) ==> EmailsUnique(r.value.0.users)
    ensures r.Ok? && UsernamesUnique(db.users) ==> UsernamesUnique(r.value.0.users)
  {
    var me := db.users[current];
    if upd.username.Some? && UsernameTakenByOther(db.users, current, upd.username.value) then
      Err(HttpError(BAD_REQUEST, "Username already taken"))
    else
      var me := if upd.username.Some? then me.(username := upd.username.value) else me;
      if upd.email.Some? && EmailTakenByOther(db.users, current, upd.email.value) then
        Err(HttpError(BAD_REQUEST, "Email already taken"))
      else
        var me := if upd.email.Some? then me.(email := upd.email.value) else me;
        Ok((db.(users := db.users[current := me]), me))
  }

  /**
   * Registration does not check usernames: a new account may take a username an
   * existing account already has, so username uniqueness is not an invariant.
   */
  lemma CreateUserAllowsDuplicateUsername(db: Db, req: UserCreate, newId: Uuid, passwordHash: string, holder: Uuid)
    requires newId !in db.users
    requires !EmailRegistered(db.users, req.email)
    requires holder in db.users && db.users[holder].username == req.username
    ensures CreateUser(db, req, newId, passwordHash).Ok?
    ensures !UsernamesUnique(CreateUser(db, req, newId, passwordHash).value.0.users)
  {
    var users' := CreateUser(db, req, newId, passwordHash).value.0.users;
    assert holder != newId && users'[holder].username == users'[newId].username;
  }
}
