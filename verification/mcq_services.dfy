/** The question services (`app/services/mcq_services.py`): listing the known
    question types and creating a question, which only an admin may do and
    only for a type that already exists. */
module McqServices {
  import opened Wrappers
  import opened Models
  import opened UnitOfWork
  import McqRepository

  const InvalidType := "Invalid mcq type input."

  /** `MCQCreate`: the fields of a new question. */
  datatype McqCreate = McqCreate(
    mcqType: string,
    question: string,
    options: Options,
    correctAnswer: Letter,
    createdBy: Id)

  /** The row built from the request, with the id the database assigns. */
  function NewRow(mcq: McqCreate, freshId: Id): Mcq
  {
    Mcq(freshId, mcq.mcqType, mcq.question, mcq.options, mcq.correctAnswer, Some(mcq.createdBy))
  }

  /** The flush of the new row fails: the question text is taken (unique
      constraint `uq_mcqs_question`), the primary key is, or `created_by` names no
      user (foreign key `mcqs.created_by` to `users.user_id`). */
  predicate FlushFails(db: Db, mcq: McqCreate, freshId: Id)
  {
    || (exists i :: 0 <= i < |db.mcqs| && (db.mcqs[i].question == mcq.question || db.mcqs[i].mcqId == freshId))
    || (forall j :: 0 <= j < |db.users| ==> db.users[j].userId != mcq.createdBy)
  }

  /** `fetch_mcq_types`: a `with` block of its own on the unit of work, which
      returns exactly what the repository's `get_mcq_types` lists. */
  function FetchMcqTypes(u: Uow): (r: (Uow, seq<string>))
    ensures r.1 == McqRepository.GetMcqTypes(u.committed.mcqs)
    ensures r.0.committed == u.committed
    ensures r.0.log == u.log + [Acquired(u.nextSession), Committed(u.nextSession), Closed(u.nextSession)]
    ensures r.0.session.Some? && r.0.session.value.id == u.nextSession && Pending(r.0) == u.committed
    ensures r.0.nextSession == u.nextSession + 1
    ensures Valid(u) ==> Valid(r.0)
  {
    var e := Enter(u);
    var types := McqRepository.GetMcqTypes(Pending(e).mcqs);
    (Leave(e, Ok(types)).0, types)
  }

  /** The rest of `add_mcq` once the type check has been decided: reject an
      unknown type, otherwise stage and flush the new row, then leave the
      `with` block. */
  function Insert(u: Uow, mcq: McqCreate, freshId: Id, typeKnown: bool): (r: (Uow, Result<Mcq, Failure>))
    requires u.session.Some?
  {
    if !typeKnown then Leave(u, Err(HttpError(400, InvalidType)))
    else
      var db := Pending(u);
      if FlushFails(db, mcq, freshId) then Leave(u, Err(IntegrityError))
      else
        var row := NewRow(mcq, freshId);
        Leave(WithPending(u, db.(mcqs := db.mcqs + [row])), Ok(row))
  }

  /** `add_mcq`, with the type check read as intended (is the new type one of
      the listed type names). The role check comes first and happens before
      the unit of work is entered. The call to `fetch_mcq_types` re-enters
      the same unit of work, which replaces its session; the insert then
      goes through that second session. */
  function AddMcq(u: Uow, mcq: McqCreate, caller: UserOutput, freshId: Id): (r: (Uow, Result<Mcq, Failure>))
    ensures caller.role != RoleAdmin ==> r == (u, Err(HttpError(403, AdminRequired)))
    ensures caller.role == RoleAdmin && mcq.mcqType !in McqRepository.TypesOf(u.committed.mcqs) ==>
      r.1 == Err(HttpError(400, InvalidType))
    ensures (caller.role == RoleAdmin && mcq.mcqType in McqRepository.TypesOf(u.committed.mcqs)
             && FlushFails(u.committed, mcq, freshId)) ==> r.1 == Err(IntegrityError)
    ensures r.1.Ok? <==> && caller.role == RoleAdmin
                         && mcq.mcqType in McqRepository.TypesOf(u.committed.mcqs)
                         && !FlushFails(u.committed, mcq, freshId)
    ensures r.1.Ok? ==> && r.1.value.mcqId == freshId && r.1.value.mcqType == mcq.mcqType
                        && r.1.value.question == mcq.question && r.1.value.options == mcq.options
                        && r.1.value.correctAnswer == mcq.correctAnswer
                        && r.1.value.createdBy == Some(mcq.createdBy)
    ensures r.1.Ok? ==> r.0.committed == u.committed.(mcqs := u.committed.mcqs + [r.1.value])
    ensures r.1.Err? ==> r.0.committed == u.committed
    ensures Valid(u) ==> Valid(r.0)
  {
    if caller.role != RoleAdmin then (u, Err(HttpError(403, AdminRequired)))
    else
      var entered := Enter(u);
      var (fetched, types) := FetchMcqTypes(entered);
      Insert(fetched, mcq, freshId, mcq.mcqType in types)
  }

  /** The re-entry of `fetch_mcq_types`: the session acquired by `add_mcq`'s
      own `with` block is never committed, rolled back or closed; both the
      inner and the outer exit act on the second session. */
  lemma AddMcqSwapsSession(u: Uow, mcq: McqCreate, caller: UserOutput, freshId: Id)
    requires Valid(u) && caller.role == RoleAdmin
    ensures var r := AddMcq(u, mcq, caller, freshId);
            var n := u.nextSession;
            r.0.log == u.log + [Acquired(n), Acquired(n + 1), Committed(n + 1), Closed(n + 1),
                                if r.1.Ok? then Committed(n + 1) else RolledBack(n + 1), Closed(n + 1)]
  {
  }

  /** An element of a Python list as far as `in` is concerned: a string, or a
      one-column result row (which compares equal only to a row). */
  datatype PyItem = PyText(text: string) | PyRow(column: string)

  /** `x in items` on a Python list: some element equals `x`. */
  predicate PyIn(x: PyItem, items: seq<PyItem>)
  {
    exists i :: 0 <= i < |items| && items[i] == x
  }

  /** `fetch_mcq_types` as written: the result rows of `get_mcq_types`. */
  function FetchMcqTypeRows(u: Uow): (r: (Uow, seq<PyItem>))
    ensures r.0 == FetchMcqTypes(u).0
    ensures |r.1| == |FetchMcqTypes(u).1|
    ensures forall i :: 0 <= i < |r.1| ==> r.1[i] == PyRow(FetchMcqTypes(u).1[i])
  {
    var e := Enter(u);
    var rows := McqRepository.GetMcqTypeRows(Pending(e).mcqs);
    var items := seq(|rows|, i requires 0 <= i < |rows| => PyRow(rows[i].mcqType));
    (Leave(e, Ok(rows)).0, items)
  }

  /** `add_mcq` as written: `mcq.type not in existing_types` tests a string
      against one-column rows. */
  function AddMcqAsWritten(u: Uow, mcq: McqCreate, caller: UserOutput, freshId: Id): (r: (Uow, Result<Mcq, Failure>))
    ensures caller.role != RoleAdmin ==> r == (u, Err(HttpError(403, AdminRequired)))
  {
    if caller.role != RoleAdmin then (u, Err(HttpError(403, AdminRequired)))
    else
      var entered := Enter(u);
      var (fetched, rows) := FetchMcqTypeRows(entered);
      Insert(fetched, mcq, freshId, PyIn(PyText(mcq.mcqType), rows))
  }

  /** As written, no string is ever found among the rows, so every admin
      request is rejected as an invalid type and nothing is stored. */
  lemma AsWrittenRejectsEveryType(u: Uow, mcq: McqCreate, caller: UserOutput, freshId: Id)
    requires caller.role == RoleAdmin
    ensures AddMcqAsWritten(u, mcq, caller, freshId).1 == Err(HttpError(400, InvalidType))
    ensures AddMcqAsWritten(u, mcq, caller, freshId).0.committed == u.committed
  {
    var (fetched, rows) := FetchMcqTypeRows(Enter(u));
    assert !PyIn(PyText(mcq.mcqType), rows);
  }

  /** A concrete case: with one "python" question and its author stored, that
      author adding a second "python" question is refused as written and
      accepted as intended. */
  lemma AsWrittenRefusesKnownType()
    ensures var stored := Mcq(1, "python", "What is a list?", Options("a", "b", "c", "d"), A, Some(7));
            var root := User(7, "root", "hash", RoleAdmin);
            var u := Fresh(McqFlavour, Db([root], [stored], [], [], []));
            var mcq := McqCreate("python", "What is a tuple?", Options("a", "b", "c", "d"), B, 7);
            var admin := UserOutput(7, "root", RoleAdmin);
            && AddMcqAsWritten(u, mcq, admin, 2).1 == Err(HttpError(400, InvalidType))
            && AddMcq(u, mcq, admin, 2).1.Ok?
  {
    var stored := Mcq(1, "python", "What is a list?", Options("a", "b", "c", "d"), A, Some(7));
    var root := User(7, "root", "hash", RoleAdmin);
    var u := Fresh(McqFlavour, Db([root], [stored], [], [], []));
    var mcq := McqCreate("python", "What is a tuple?", Options("a", "b", "c", "d"), B, 7);
    var admin := UserOutput(7, "root", RoleAdmin);
    AsWrittenRejectsEveryType(u, mcq, admin, 2);
    assert stored in u.committed.mcqs;
    assert "python" in McqRepository.TypesOf(u.committed.mcqs);
    assert !FlushFails(u.committed, mcq, 2) by {
      assert |u.committed.mcqs| == 1 && u.committed.mcqs[0] == stored;
      assert u.committed.users[0].userId == 7;
    }
  }
}
