/** `UserRepository` (`app/repositories/user_repository.py`): `add` inserts
    and commits through the unit of work's session, relying on the unique
    constraints of `users`; the other methods are stubs. */
module UserRepository {
  import opened Wrappers
  import opened Models
  import opened UnitOfWork

  const UsernameExists := "Username already exists"

  /** No two users share a username. */
  predicate UniqueUsernames(users: seq<User>)
  {
    forall i, j :: 0 <= i < j < |users| ==> users[i].username != users[j].username
  }

  /** Inserting this row would violate a unique constraint of `users`
      (the username, or the primary key). */
  predicate Conflicts(users: seq<User>, username: string, id: Id)
  {
    exists i :: 0 <= i < |users| && (users[i].username == username || users[i].userId == id)
  }

  /** `add(username, password, role)`: on success the new user is committed
      and returned; on a constraint violation the session is rolled back and
      `ValueError("Username already exists")` is raised. A missing role
      (`None` here) is `UserRole.USER`. */
  function Add(u: Uow, username: string, password: string, role: Option<Role>, freshId: Id): (r: (Uow, Result<User, Failure>))
    requires u.session.Some?
    ensures r.0.session.Some? && r.0.session.value.id == u.session.value.id
    ensures r.1.Ok? <==> !Conflicts(Pending(u).users, username, freshId)
    ensures r.1.Ok? ==> && r.1.value.userId == freshId && r.1.value.username == username
                        && r.1.value.password == password
                        && r.1.value.role == (if role.Some? then role.value else RoleUser)
    ensures r.1.Ok? ==> r.0.committed == Pending(u).(users := Pending(u).users + [r.1.value])
    ensures r.1.Ok? ==> r.0.log == u.log + [Committed(u.session.value.id)]
    ensures r.1.Err? ==> r.1.error == ValueError(UsernameExists)
    ensures r.1.Err? ==> r.0.committed == u.committed && Pending(r.0) == u.committed
    ensures r.1.Err? ==> r.0.log == u.log + [RolledBack(u.session.value.id)]
    ensures r.0.nextSession == u.nextSession && r.0.flavour == u.flavour
    ensures Valid(u) ==> Valid(r.0)
  {
    var newUser := User(freshId, username, password, role.GetOr(RoleUser));
    var db := Pending(u);
    if Conflicts(db.users, username, freshId) then
      (Rollback(u), Err(ValueError(UsernameExists)))
    else
      (Commit(WithPending(u, db.(users := db.users + [newUser]))), Ok(newUser))
  }

  /** `add` keeps usernames unique: a committed insert never duplicates one. */
  lemma AddKeepsUsernamesUnique(u: Uow, username: string, password: string, role: Option<Role>, freshId: Id)
    requires u.session.Some? && UniqueUsernames(Pending(u).users)
    ensures var r := Add(u, username, password, role, freshId);
            r.1.Ok? ==> UniqueUsernames(r.0.committed.users)
  {
    var r := Add(u, username, password, role, freshId);
    if r.1.Ok? {
      var users := r.0.committed.users;
      var old_ := Pending(u).users;
      forall i, j | 0 <= i < j < |users| ensures users[i].username != users[j].username {
        if j == |old_| {
          assert users[i] == old_[i];
          assert !(old_[i].username == username || old_[i].userId == freshId);
        } else {
          assert users[i] == old_[i] && users[j] == old_[j];
        }
      }
    }
  }

  /** `get_one`, `get_all`, `update`, `delete`: stubs returning None with no
      effect on the unit of work. */
  function GetOne(u: Uow, id: Id): (r: (Uow, Option<User>))
    ensures r.0 == u && r.1.None?
  {
    (u, None)
  }

  function GetAll(u: Uow): (r: (Uow, Option<seq<User>>))
    ensures r.0 == u && r.1.None?
  {
    (u, None)
  }

  function Update(u: Uow, id: Id): (r: (Uow, Option<User>))
    ensures r.0 == u && r.1.None?
  {
    (u, None)
  }

  function Delete(u: Uow, id: Id): (r: (Uow, Option<bool>))
    ensures r.0 == u && r.1.None?
  {
    (u, None)
  }
}
