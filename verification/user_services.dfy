/** The repository the user services call through `unit_of_work.user`
    (`get`, `update`, `delete`, `check_username_exists`), given in-memory
    meaning over the `users` table. */
module UserStore {
  import opened Wrappers
  import opened Models
  import Seqs

  /** `get(user_id)`: the user with that id, or None. */
  function Find(users: seq<User>, id: Id): (r: Option<User>)
    ensures r.None? <==> forall j :: 0 <= j < |users| ==> users[j].userId != id
    ensures r.Some? ==> r.value in users && r.value.userId == id
  {
    Seqs.FindFirst(users, (x: User) => x.userId == id)
  }

  /** `check_username_exists(username)`: the user with that name, or None. */
  function FindByUsername(users: seq<User>, username: string): (r: Option<User>)
    ensures r.None? <==> forall j :: 0 <= j < |users| ==> users[j].username != username
    ensures r.Some? ==> r.value in users && r.value.username == username
  {
    Seqs.FindFirst(users, (x: User) => x.username == username)
  }

  /** `setattr(user, key, value)` for each keyword argument. The role column
      accepts the role's string value. */
  function ApplyKwargs(user: User, kw: map<string, string>): (r: User)
    ensures r.userId == user.userId && r.password == user.password
    ensures r.username == (if "username" in kw then kw["username"] else user.username)
    ensures "role" in kw && RoleOfValue(kw["role"]).Some? ==> r.role.Value() == kw["role"]
    ensures !("role" in kw && RoleOfValue(kw["role"]).Some?) ==> r.role == user.role
  {
    var username := if "username" in kw then kw["username"] else user.username;
    var role := if "role" in kw then RoleOfValue(kw["role"]).GetOr(user.role) else user.role;
    User(user.userId, username, user.password, role)
  }

  /** `update(user_id, **kwargs)`: applies the arguments to that user and
      returns the updated row; nothing changes when the id is absent. */
  function Update(users: seq<User>, id: Id, kw: map<string, string>): (r: (seq<User>, Option<User>))
    ensures |r.0| == |users|
    ensures r.1.None? <==> Find(users, id).None?
    ensures r.1.None? ==> r.0 == users
    ensures r.1.Some? ==>
      exists i :: 0 <= i < |users| && users[i] == Find(users, id).value
                && r.1.value == ApplyKwargs(users[i], kw) && r.0[i] == r.1.value
                && forall j :: 0 <= j < |users| && j != i ==> r.0[j] == users[j]
  {
    match Seqs.FirstIndex(users, (x: User) => x.userId == id)
    case None => (users, None)
    case Some(i) =>
      var updated := ApplyKwargs(users[i], kw);
      (users[i := updated], Some(updated))
  }

  /** The ids of the questions a user created. */
  function CreatedBy(mcqs: seq<Mcq>, id: Id): set<Id>
  {
    set m | m in mcqs && m.createdBy == Some(id) :: m.mcqId
  }

  /** The ids of a user's histories. */
  function HistoriesOf(histories: seq<UserHistory>, id: Id): set<Id>
  {
    set h | h in histories && h.userId == id :: h.historyId
  }

  /** The database refuses the cascading delete of a user at commit: a
      `user_history_details` row refers to one of the user's histories or to a
      question the user created, and those foreign keys have no cascade. */
  predicate DeleteRefused(db: Db, id: Id)
  {
    exists i :: 0 <= i < |db.details| &&
      (db.details[i].historyId in HistoriesOf(db.histories, id) || db.details[i].mcqId in CreatedBy(db.mcqs, id))
  }

  /** `delete(user_id)`: whether a user was removed, and the database after.
      `session.delete` of the user cascades (`cascade="all, delete-orphan"`)
      to the questions it created, to its submissions and to its histories;
      each deleted question cascades in turn to the submissions answering
      it. */
  function Delete(db: Db, id: Id): (r: (bool, Db))
    ensures r.0 <==> Find(db.users, id).Some?
    ensures !r.0 ==> r.1 == db
    ensures r.0 ==> multiset(r.1.users) == multiset(db.users) - multiset{Find(db.users, id).value}
    ensures r.0 ==> forall m :: multiset(r.1.mcqs)[m] == if m.createdBy == Some(id) then 0 else multiset(db.mcqs)[m]
    ensures r.0 ==> forall s :: multiset(r.1.submissions)[s] ==
                                 if s.userId == id || s.mcqId in CreatedBy(db.mcqs, id) then 0 else multiset(db.submissions)[s]
    ensures r.0 ==> forall h :: multiset(r.1.histories)[h] == if h.userId == id then 0 else multiset(db.histories)[h]
    ensures r.1.details == db.details
  {
    match Seqs.FirstIndex(db.users, (x: User) => x.userId == id)
    case None => (false, db)
    case Some(i) =>
      Seqs.RemoveAtMultiset(db.users, i);
      var created := CreatedBy(db.mcqs, id);
      (true, db.(users := Seqs.RemoveAt(db.users, i),
                 mcqs := Seqs.Filter(db.mcqs, (m: Mcq) => m.createdBy != Some(id)),
                 submissions := Seqs.Filter(db.submissions, (s: UserSubmission) => !(s.userId == id || s.mcqId in created)),
                 histories := Seqs.Filter(db.histories, (h: UserHistory) => h.userId != id)))
  }

  /** After a delete, no question, submission or history refers to the
      deleted user, and no submission answers a question the cascade
      removed. */
  lemma DeleteLeavesNoOrphans(db: Db, id: Id)
    requires Delete(db, id).0
    ensures var d := Delete(db, id).1;
            && (forall m :: m in d.mcqs ==> m.createdBy != Some(id))
            && (forall s :: s in d.submissions ==> s.userId != id && s.mcqId !in CreatedBy(db.mcqs, id))
            && (forall h :: h in d.histories ==> h.userId != id)
  {
    var d := Delete(db, id).1;
    forall m | m in d.mcqs ensures m.createdBy != Some(id) {
      assert multiset(d.mcqs)[m] > 0;
    }
    forall s | s in d.submissions ensures s.userId != id && s.mcqId !in CreatedBy(db.mcqs, id) {
      assert multiset(d.submissions)[s] > 0;
    }
    forall h | h in d.histories ensures h.userId != id {
      assert multiset(d.histories)[h] > 0;
    }
  }
}

/** The user services (`app/services/user_services.py`): admin-only user
    administration with distinct error codes, registration, and login. */
module UserServices {
  import opened Wrappers
  import opened Models
  import opened UnitOfWork
  import UserStore
  import UserRepository

  const IncorrectCredentials := "Incorrect username or password"

  /** The admin gate shared by `get`, `get_all`, `update` and `delete`. */
  function Forbidden(): Failure
  {
    HttpError(401, AdminRequired)
  }

  /** `get`: an admin reads one user; a missing user is a 404. */
  function Get(u: Uow, caller: UserOutput, userId: Id): (r: (Uow, Result<UserOutput, Failure>))
    ensures caller.role != RoleAdmin ==> r == (u, Err(Forbidden()))
    ensures caller.role == RoleAdmin ==>
      r.1 == match UserStore.Find(u.committed.users, userId)
             case None => Err(HttpError(404, UserNotFound))
             case Some(x) => Ok(ToOutput(x))
    ensures r.0.committed == u.committed
  {
    if caller.role != RoleAdmin then (u, Err(Forbidden()))
    else
      var e := Enter(u);
      match UserStore.Find(Pending(e).users, userId)
      case None => Leave(e, Err(HttpError(404, UserNotFound)))
      case Some(x) => Leave(e, Ok(ToOutput(x)))
  }

  /** `add`'s input: `UserRegisterInput`. */
  datatype Registration = Registration(username: string, password: string, role: Role)

  /** `add`: hashes the password and inserts the user through the
      repository; the repository's `ValueError` becomes a rollback and a 400
      carrying the same message. `hash` stands for the password hasher. */
  function Add(u: Uow, reg: Registration, hash: string -> string, freshId: Id): (r: (Uow, Result<Id, Failure>))
    ensures r.1.Err? <==> UserRepository.Conflicts(u.committed.users, reg.username, freshId)
    ensures r.1.Err? ==> r.1.error == HttpError(400, UserRepository.UsernameExists) && r.0.committed == u.committed
    ensures r.1.Ok? ==> r.1.value == freshId
    ensures r.1.Ok? ==>
      r.0.committed == u.committed.(users := u.committed.users + [User(freshId, reg.username, hash(reg.password), reg.role)])
    ensures Valid(u) ==> Valid(r.0)
  {
    var e := Enter(u);
    var (v, res) := UserRepository.Add(e, reg.username, hash(reg.password), Some(reg.role), freshId);
    match res
    case Ok(user) => Leave(v, Ok(user.userId))
    case Err(f) =>
      var message := if f.ValueError? then f.message else "";
      Leave(Rollback(v), Err(HttpError(400, message)))
  }

  /** The transaction trail of `add`: a duplicate is rolled back three times
      (by the repository, by the service, and on exit), a success committed
      twice (by the repository and on exit); the session is closed once. */
  lemma AddTrail(u: Uow, reg: Registration, hash: string -> string, freshId: Id)
    ensures var r := Add(u, reg, hash, freshId);
            var n := u.nextSession;
            r.0.log == u.log + if r.1.Ok? then [Acquired(n), Committed(n), Committed(n), Closed(n)]
                                else [Acquired(n), RolledBack(n), RolledBack(n), RolledBack(n), Closed(n)]
  {
  }

  /** `get_all`: an admin lists every user. */
  function GetAll(u: Uow, caller: UserOutput): (r: (Uow, Result<seq<UserOutput>, Failure>))
    ensures caller.role != RoleAdmin ==> r == (u, Err(Forbidden()))
    ensures caller.role == RoleAdmin ==> r.1.Ok? && |r.1.value| == |u.committed.users|
    ensures r.1.Ok? ==> forall i :: 0 <= i < |r.1.value| ==> r.1.value[i] == ToOutput(u.committed.users[i])
    ensures r.0.committed == u.committed
  {
    if caller.role != RoleAdmin then (u, Err(Forbidden()))
    else
      var e := Enter(u);
      var users := Pending(e).users;
      Leave(e, Ok(seq(|users|, i requires 0 <= i < |users| => ToOutput(users[i]))))
  }

  /** `UserUpdate`: the optional fields of an update request. */
  datatype UserUpdate = UserUpdate(username: Option<string>, role: Option<Role>)

  /** `model_dump(exclude_none=True)` with roles replaced by their value:
      the keyword arguments `update` passes on. */
  function UpdateKwargs(upd: UserUpdate): (r: map<string, string>)
    ensures "username" in r <==> upd.username.Some?
    ensures "role" in r <==> upd.role.Some?
    ensures r.Keys <= {"username", "role"}
    ensures upd.username.Some? ==> r["username"] == upd.username.value
    ensures upd.role.Some? ==> r["role"] == upd.role.value.Value()
  {
    var m := if upd.username.Some? then map["username" := upd.username.value] else map[];
    if upd.role.Some? then m["role" := upd.role.value.Value()] else m
  }

  /** The keyword arguments set exactly the fields the request supplied:
      converting a role to its value loses nothing. */
  lemma UpdateKwargsApply(user: User, upd: UserUpdate)
    ensures var r := UserStore.ApplyKwargs(user, UpdateKwargs(upd));
            && r.userId == user.userId && r.password == user.password
            && r.username == (if upd.username.Some? then upd.username.value else user.username)
            && r.role == (if upd.role.Some? then upd.role.value else user.role)
  {
    if upd.role.Some? {
      var role := upd.role.value;
      assert RoleOfValue(role.Value()) == Some(role) by {
        match role
        case RoleAdmin =>
        case RoleUser =>
      }
    }
  }

  /** `update`: an admin changes the supplied fields of an existing user; a
      missing user is a 404 and nothing changes. */
  function Update(u: Uow, caller: UserOutput, userId: Id, upd: UserUpdate): (r: (Uow, Result<User, Failure>))
    ensures caller.role != RoleAdmin ==> r == (u, Err(Forbidden()))
    ensures caller.role == RoleAdmin ==> (r.1.Ok? <==> UserStore.Find(u.committed.users, userId).Some?)
    ensures caller.role == RoleAdmin && r.1.Err? ==> r.1.error == HttpError(404, UserNotFound)
    ensures r.1.Err? ==> r.0.committed == u.committed
    ensures r.1.Ok? ==> UserStore.Find(u.committed.users, userId).Some?
    ensures r.1.Ok? ==>
      r.1.value == UserStore.ApplyKwargs(UserStore.Find(u.committed.users, userId).value, UpdateKwargs(upd))
    ensures r.1.Ok? ==>
      r.0.committed == u.committed.(users := UserStore.Update(u.committed.users, userId, UpdateKwargs(upd)).0)
  {
    if caller.role != RoleAdmin then (u, Err(Forbidden()))
    else
      var e := Enter(u);
      var users := Pending(e).users;
      match UserStore.Find(users, userId)
      case None => Leave(e, Err(HttpError(404, UserNotFound)))
      case Some(_) =>
        var (users', updated) := UserStore.Update(users, userId, UpdateKwargs(upd));
        Leave(WithPending(e, Pending(e).(users := users')), Ok(updated.value))
  }

  /** `delete`: an admin removes an existing user, with everything the
      cascade removes alongside; when the repository reports nothing deleted
      the answer is a 404, and when a history detail still refers to a row
      the cascade removes the commit raises `IntegrityError`; either way
      nothing changes. */
  function Delete(u: Uow, caller: UserOutput, userId: Id): (r: (Uow, Result<(), Failure>))
    ensures caller.role != RoleAdmin ==> r == (u, Err(Forbidden()))
    ensures caller.role == RoleAdmin ==>
      (r.1.Ok? <==> UserStore.Find(u.committed.users, userId).Some? && !UserStore.DeleteRefused(u.committed, userId))
    ensures caller.role == RoleAdmin && UserStore.Find(u.committed.users, userId).None? ==>
      r.1 == Err(HttpError(404, UserNotFound))
    ensures (caller.role == RoleAdmin && UserStore.Find(u.committed.users, userId).Some?
             && UserStore.DeleteRefused(u.committed, userId)) ==> r.1 == Err(IntegrityError)
    ensures r.1.Err? ==> r.0.committed == u.committed
    ensures r.1.Ok? ==> UserStore.Find(u.committed.users, userId).Some?
    ensures r.1.Ok? ==>
      multiset(r.0.committed.users) == multiset(u.committed.users) - multiset{UserStore.Find(u.committed.users, userId).value}
    ensures r.1.Ok? ==> r.0.committed == UserStore.Delete(u.committed, userId).1
    ensures r.1.Ok? ==> && (forall m :: m in r.0.committed.mcqs ==> m.createdBy != Some(userId))
                        && (forall s :: s in r.0.committed.submissions ==> s.userId != userId)
                        && (forall h :: h in r.0.committed.histories ==> h.userId != userId)
  {
    if caller.role != RoleAdmin then (u, Err(Forbidden()))
    else
      var e := Enter(u);
      var (deleted, db) := UserStore.Delete(Pending(e), userId);
      if !deleted then Leave(e, Err(HttpError(404, UserNotFound)))
      else if UserStore.DeleteRefused(Pending(e), userId) then Leave(e, Err(IntegrityError))
      else
        UserStore.DeleteLeavesNoOrphans(Pending(e), userId);
        Leave(WithPending(e, db), Ok(()))
  }

  /** A concrete case: a user with one history that a detail row still
      refers to cannot be deleted, and nothing changes. */
  lemma DetailBlocksDelete()
    ensures var root := User(7, "root", "hash", RoleUser);
            var h := UserHistory(3, 7, 4.0, 80.0, 5, 0);
            var d := HistoryDetail(9, 3, 1, "a", true);
            var u := Fresh(UserFlavour, Db([root], [], [], [h], [d]));
            var admin := UserOutput(1, "admin", RoleAdmin);
            && Delete(u, admin, 7).1 == Err(IntegrityError)
            && Delete(u, admin, 7).0.committed == u.committed
  {
    var root := User(7, "root", "hash", RoleUser);
    var h := UserHistory(3, 7, 4.0, 80.0, 5, 0);
    var d := HistoryDetail(9, 3, 1, "a", true);
    var db := Db([root], [], [], [h], [d]);
    assert UserStore.Find(db.users, 7).Some? by { assert db.users[0].userId == 7; }
    assert 3 in UserStore.HistoriesOf(db.histories, 7) by { assert h in db.histories; }
    assert db.details[0].historyId == 3;
  }

  /** `check_user_access`: no user, or a password the verifier rejects, is a
      refusal. `verify` stands for the password verifier. */
  function CheckUserAccess(user: Option<User>, password: string, verify: (string, string) -> bool): (r: bool)
    ensures r <==> user.Some? && verify(password, user.value.password)
  {
    if user.None? then false
    else if !verify(password, user.value.password) then false
    else true
  }

  /** `login`'s input. */
  datatype Credentials = Credentials(username: string, password: string)

  /** `login`: a 401 exactly when the access check fails; otherwise the
      identity that goes into the access token. */
  function Login(u: Uow, creds: Credentials, verify: (string, string) -> bool): (r: (Uow, Result<UserOutput, Failure>))
    ensures r.1.Err? <==> !CheckUserAccess(UserStore.FindByUsername(u.committed.users, creds.username), creds.password, verify)
    ensures r.1.Err? ==> r.1.error == HttpError(401, IncorrectCredentials)
    ensures r.1.Ok? ==> exists i :: 0 <= i < |u.committed.users| && u.committed.users[i].username == creds.username
                                  && verify(creds.password, u.committed.users[i].password)
                                  && r.1.value == ToOutput(u.committed.users[i])
    ensures r.0.committed == u.committed
  {
    var e := Enter(u);
    var user := UserStore.FindByUsername(Pending(e).users, creds.username);
    if !CheckUserAccess(user, creds.password, verify) then Leave(e, Err(HttpError(401, IncorrectCredentials)))
    else Leave(e, Ok(ToOutput(user.value)))
  }

  /** The role gate comes before any session: a non-admin caller of any
      administration operation gets 401 and the unit of work is untouched,
      whatever the target. */
  lemma NonAdminTouchesNothing(u: Uow, caller: UserOutput, userId: Id, upd: UserUpdate)
    requires caller.role != RoleAdmin
    ensures Get(u, caller, userId) == (u, Err(HttpError(401, AdminRequired)))
    ensures GetAll(u, caller) == (u, Err(HttpError(401, AdminRequired)))
    ensures Update(u, caller, userId, upd) == (u, Err(HttpError(401, AdminRequired)))
    ensures Delete(u, caller, userId) == (u, Err(HttpError(401, AdminRequired)))
  {
  }
}
