/** `BaseUnitOfWork` and its subclasses (`app/services/unit_of_work.py`) as a
    transaction state machine. A session is a working copy of the database
    that becomes the committed state only on commit; every session action is
    recorded in an event log so that commit/rollback/close ordering can be
    stated. */
module UnitOfWork {
  import opened Wrappers
  import opened Models

  /** What happened to which session. */
  datatype Event =
    | Acquired(session: nat)
    | Committed(session: nat)
    | RolledBack(session: nat)
    | Closed(session: nat)

  /** The repositories a unit of work can expose. */
  datatype Repo = UserRepo | McqRepo | HistoryRepo | SubmissionRepo | HistoryDetailsRepo

  /** `BaseUnitOfWork` or one of its subclasses; it decides what `__enter__` binds. */
  datatype Flavour = BaseFlavour | UserFlavour | SubmissionFlavour | McqFlavour | HistoryFlavour

  /** The repositories each subclass's `__enter__` creates. */
  function Binds(f: Flavour): set<Repo>
  {
    match f
    case BaseFlavour => {}
    case UserFlavour => {UserRepo}
    case SubmissionFlavour => {McqRepo, HistoryRepo, SubmissionRepo, HistoryDetailsRepo}
    case McqFlavour => {McqRepo, SubmissionRepo}
    case HistoryFlavour => {HistoryRepo}
  }

  /** A session from the factory: its identity and its uncommitted view. */
  datatype Session = Session(id: nat, pending: Db)

  /** A unit of work. `session` stays set after close, as the attribute does
      in the source; `bound` maps each bound repository to its session. */
  datatype Uow = Uow(
    flavour: Flavour,
    committed: Db,
    session: Option<Session>,
    bound: map<Repo, nat>,
    nextSession: nat,
    log: seq<Event>)

  /** Every session named so far came from the factory before `nextSession`. */
  predicate Valid(u: Uow)
  {
    && (forall i :: 0 <= i < |u.log| ==> u.log[i].session < u.nextSession)
    && (u.session.Some? ==> u.session.value.id < u.nextSession)
  }

  /** A unit of work as constructed: no session yet. */
  function Fresh(f: Flavour, db: Db): (r: Uow)
    ensures Valid(r) && r.session.None? && r.log == [] && r.committed == db
  {
    Uow(f, db, None, map[], 0, [])
  }

  /** `__enter__`: acquire a new session from the factory and bind the
      subclass's repositories to it. */
  function Enter(u: Uow): (r: Uow)
    ensures r.session.Some? && r.session.value.pending == u.committed
    ensures r.session.value.id == u.nextSession && r.nextSession == u.nextSession + 1
    ensures r.committed == u.committed && r.flavour == u.flavour
    ensures r.log == u.log + [Acquired(r.session.value.id)]
    ensures Valid(u) ==> Valid(r)
    ensures Valid(u) ==> forall i :: 0 <= i < |u.log| ==> u.log[i].session != r.session.value.id
    ensures r.bound.Keys == Binds(u.flavour)
    ensures forall rp :: rp in r.bound ==> r.bound[rp] == r.session.value.id
  {
    var id := u.nextSession;
    Uow(u.flavour, u.committed, Some(Session(id, u.committed)),
        map rp | rp in Binds(u.flavour) :: id, id + 1, u.log + [Acquired(id)])
  }

  /** The current session's view of the database. */
  function Pending(u: Uow): Db
    requires u.session.Some?
  {
    u.session.value.pending
  }

  /** The current session after the repositories changed its view. */
  function WithPending(u: Uow, db: Db): (r: Uow)
    requires u.session.Some?
    ensures r.session.Some? && Pending(r) == db && r.session.value.id == u.session.value.id
    ensures r.committed == u.committed && r.log == u.log && r.nextSession == u.nextSession
    ensures Valid(u) ==> Valid(r)
  {
    u.(session := Some(Session(u.session.value.id, db)))
  }

  /** `commit`: the session's view becomes the committed state. */
  function Commit(u: Uow): (r: Uow)
    requires u.session.Some?
    ensures r.committed == Pending(u)
    ensures r.session == u.session && r.nextSession == u.nextSession
    ensures r.log == u.log + [Committed(u.session.value.id)]
    ensures Valid(u) ==> Valid(r)
  {
    u.(committed := Pending(u), log := u.log + [Committed(u.session.value.id)])
  }

  /** `rollback`: the session's uncommitted changes are discarded. */
  function Rollback(u: Uow): (r: Uow)
    requires u.session.Some?
    ensures r.committed == u.committed
    ensures r.session.Some? && r.session.value.id == u.session.value.id && Pending(r) == u.committed
    ensures r.nextSession == u.nextSession
    ensures r.log == u.log + [RolledBack(u.session.value.id)]
    ensures Valid(u) ==> Valid(r)
  {
    var id := u.session.value.id;
    u.(session := Some(Session(id, u.committed)), log := u.log + [RolledBack(id)])
  }

  /** `session.close()`: releases the session; whatever it had not committed
      is dropped. A closed session can be used again (it begins anew). */
  function Close(u: Uow): (r: Uow)
    requires u.session.Some?
    ensures r.committed == u.committed
    ensures r.session.Some? && r.session.value.id == u.session.value.id && Pending(r) == u.committed
    ensures r.nextSession == u.nextSession
    ensures r.log == u.log + [Closed(u.session.value.id)]
    ensures Valid(u) ==> Valid(r)
  {
    var id := u.session.value.id;
    u.(session := Some(Session(id, u.committed)), log := u.log + [Closed(id)])
  }

  /** `__exit__`: commit when the block finished normally, roll back when it
      raised, and close the session on both paths. */
  function Exit(u: Uow, raised: bool): (r: Uow)
    requires u.session.Some?
    ensures r.committed == if raised then u.committed else Pending(u)
    ensures r.log == u.log + [if raised then RolledBack(u.session.value.id) else Committed(u.session.value.id),
                              Closed(u.session.value.id)]
    ensures r.session.Some? && r.session.value.id == u.session.value.id && Pending(r) == r.committed
    ensures r.nextSession == u.nextSession && r.flavour == u.flavour
    ensures Valid(u) ==> Valid(r)
  {
    Close(if raised then Rollback(u) else Commit(u))
  }

  /** Leaving a `with` block whose body produced `outcome`: `__exit__`
      returns None, so a raised failure reaches the caller unchanged and a
      normal result is returned as is. */
  function Leave<T>(u: Uow, outcome: Result<T, Failure>): (r: (Uow, Result<T, Failure>))
    requires u.session.Some?
    ensures r.1 == outcome
    ensures r.0.committed == if outcome.Err? then u.committed else Pending(u)
    ensures r.0.log == u.log + [if outcome.Err? then RolledBack(u.session.value.id) else Committed(u.session.value.id),
                                Closed(u.session.value.id)]
    ensures r.0.session.Some? && r.0.session.value.id == u.session.value.id
    ensures r.0.nextSession == u.nextSession && r.0.flavour == u.flavour
    ensures Valid(u) ==> Valid(r.0)
  {
    (Exit(u, outcome.Err?), outcome)
  }

  /** A whole `with unit_of_work:` block whose body leaves the session's view
      at `db` and yields `outcome`: the block is all-or-nothing, it touches
      exactly one fresh session, and it never commits and rolls back the same
      session. */
  lemma WithBlock<T>(u: Uow, db: Db, outcome: Result<T, Failure>)
    requires Valid(u)
    ensures var e := Enter(u);
            var r := Leave(WithPending(e, db), outcome);
            var s := e.session.value.id;
            && r.1 == outcome
            && r.0.committed == (if outcome.Ok? then db else u.committed)
            && r.0.log == u.log + [Acquired(s), if outcome.Ok? then Committed(s) else RolledBack(s), Closed(s)]
            && (forall i :: 0 <= i < |u.log| ==> u.log[i].session != s)
            && Valid(r.0)
  {
  }
}
