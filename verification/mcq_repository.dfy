/** `McqRepository` (`app/repositories/mcq_repository.py`) over the `mcqs`
    table held as a sequence of rows.
    The methods are given the meaning of their bodies; as written the
    class subscripts the non-generic `BaseRepository` and cannot be loaded. */
module McqRepository {
  import opened Wrappers
  import opened Models
  import Seqs

  /** Primary keys are unique. */
  predicate UniqueIds(mcqs: seq<Mcq>)
  {
    forall i, j :: 0 <= i < j < |mcqs| ==> mcqs[i].mcqId != mcqs[j].mcqId
  }

  /** The set of types present in the table. */
  function TypesOf(mcqs: seq<Mcq>): set<string>
  {
    set m | m in mcqs :: m.mcqType
  }

  /** Position of the row `get` would return. */
  function Locate(mcqs: seq<Mcq>, id: Id): (r: Option<nat>)
    ensures r.Some? ==> r.value < |mcqs| && mcqs[r.value].mcqId == id
    ensures r.Some? ==> forall j :: 0 <= j < r.value ==> mcqs[j].mcqId != id
    ensures r.None? <==> forall j :: 0 <= j < |mcqs| ==> mcqs[j].mcqId != id
  {
    Seqs.FirstIndex(mcqs, (m: Mcq) => m.mcqId == id)
  }

  /** `get`: the question with that id, or None. */
  function Get(mcqs: seq<Mcq>, id: Id): (r: Option<Mcq>)
    ensures r.Some? ==> r.value in mcqs && r.value.mcqId == id
    ensures r.None? <==> forall j :: 0 <= j < |mcqs| ==> mcqs[j].mcqId != id
  {
    match Locate(mcqs, id)
    case None => None
    case Some(i) => Some(mcqs[i])
  }

  /** With unique ids, `get` returns the one row carrying the id. */
  lemma GetUnique(mcqs: seq<Mcq>, i: nat)
    requires UniqueIds(mcqs) && i < |mcqs|
    ensures Get(mcqs, mcqs[i].mcqId) == Some(mcqs[i])
  {
  }

  /** Python truthiness of an optional text argument. */
  predicate Truthy(s: Option<string>)
  {
    s.Some? && s.value != ""
  }

  /** `get_all(type_)`: the questions of type `type_`, or every question when
      `type_` is falsy. */
  function GetAll(mcqs: seq<Mcq>, typeFilter: Option<string>): (r: seq<Mcq>)
    ensures !Truthy(typeFilter) ==> r == mcqs
    ensures Truthy(typeFilter) ==>
      forall m :: multiset(r)[m] == if m.mcqType == typeFilter.value then multiset(mcqs)[m] else 0
  {
    if Truthy(typeFilter) then Seqs.Filter(mcqs, (m: Mcq) => m.mcqType == typeFilter.value)
    else mcqs
  }

  /** Membership form of the type filter. */
  lemma GetAllMembers(mcqs: seq<Mcq>, t: string, m: Mcq)
    requires t != ""
    ensures m in GetAll(mcqs, Some(t)) <==> m in mcqs && m.mcqType == t
  {
    Seqs.FilterMembership(mcqs, (x: Mcq) => x.mcqType == t, m);
  }

  /** `add`: the new row is staged in the session. */
  function Add(mcqs: seq<Mcq>, mcq: Mcq): (r: seq<Mcq>)
    ensures |r| == |mcqs| + 1 && r[..|mcqs|] == mcqs && r[|mcqs|] == mcq
  {
    mcqs + [mcq]
  }

  /** After `add`, `get` finds the new question when its id was free, and
      every other lookup is unchanged. */
  lemma AddThenGet(mcqs: seq<Mcq>, mcq: Mcq, id: Id)
    requires Get(mcqs, mcq.mcqId).None?
    ensures Get(Add(mcqs, mcq), id) == if id == mcq.mcqId then Some(mcq) else Get(mcqs, id)
  {
    var r := Add(mcqs, mcq);
    assert forall j :: 0 <= j < |mcqs| ==> r[j] == mcqs[j];
    if id == mcq.mcqId {
      assert Locate(r, id) == Some(|mcqs|);
    } else {
      assert forall j :: |mcqs| <= j < |r| ==> r[j].mcqId != id;
      match Locate(mcqs, id)
      case None =>
        assert Locate(r, id).None?;
      case Some(i) =>
        assert Locate(r, id) == Some(i);
    }
  }

  /** The keyword arguments `update` may receive: each present field is set. */
  datatype McqPatch = McqPatch(
    mcqType: Option<string>,
    question: Option<string>,
    options: Option<Options>,
    correctAnswer: Option<Letter>,
    createdBy: Option<Option<Id>>)

  /** One row after `setattr` for every supplied field. */
  function Patched(m: Mcq, p: McqPatch): (r: Mcq)
    ensures r.mcqId == m.mcqId
    ensures r.mcqType == (if p.mcqType.Some? then p.mcqType.value else m.mcqType)
    ensures r.question == (if p.question.Some? then p.question.value else m.question)
    ensures r.options == (if p.options.Some? then p.options.value else m.options)
    ensures r.correctAnswer == (if p.correctAnswer.Some? then p.correctAnswer.value else m.correctAnswer)
    ensures r.createdBy == (if p.createdBy.Some? then p.createdBy.value else m.createdBy)
  {
    Mcq(m.mcqId, p.mcqType.GetOr(m.mcqType), p.question.GetOr(m.question),
        p.options.GetOr(m.options), p.correctAnswer.GetOr(m.correctAnswer),
        p.createdBy.GetOr(m.createdBy))
  }

  /** `update`: nothing happens when the id is absent; otherwise only the
      supplied fields of that one row change. */
  function Update(mcqs: seq<Mcq>, id: Id, p: McqPatch): (r: seq<Mcq>)
    ensures |r| == |mcqs|
    ensures Get(mcqs, id).None? ==> r == mcqs
    ensures Locate(mcqs, id).Some? ==>
      var i := Locate(mcqs, id).value;
      r[i] == Patched(mcqs[i], p) && forall j :: 0 <= j < |r| && j != i ==> r[j] == mcqs[j]
  {
    match Locate(mcqs, id)
    case None => mcqs
    case Some(i) => mcqs[i := Patched(mcqs[i], p)]
  }

  /** An update keeps the ids unique and a later `get` sees the patched row. */
  lemma UpdateThenGet(mcqs: seq<Mcq>, id: Id, p: McqPatch)
    requires UniqueIds(mcqs)
    ensures UniqueIds(Update(mcqs, id, p))
    ensures Get(Update(mcqs, id, p), id) == match Get(mcqs, id)
                                            case None => None
                                            case Some(m) => Some(Patched(m, p))
  {
    var r := Update(mcqs, id, p);
    match Locate(mcqs, id)
    case None =>
    case Some(i) =>
      assert forall j :: 0 <= j < |r| ==> r[j].mcqId == mcqs[j].mcqId;
      GetUnique(r, i);
  }

  /** `delete`: False and no change when the id is absent. Otherwise True:
      `session.delete` removes the looked-up row, and the relationship's
      `cascade="all, delete-orphan"` removes the submissions that answer that
      question. */
  function Delete(db: Db, id: Id): (r: (bool, Db))
    ensures r.0 <==> Get(db.mcqs, id).Some?
    ensures !r.0 ==> r.1 == db
    ensures r.0 ==> |r.1.mcqs| == |db.mcqs| - 1
    ensures r.0 ==> multiset(r.1.mcqs) == multiset(db.mcqs) - multiset{Get(db.mcqs, id).value}
    ensures r.0 ==> forall s :: multiset(r.1.submissions)[s] == if s.mcqId == id then 0 else multiset(db.submissions)[s]
    ensures r.1.users == db.users && r.1.histories == db.histories && r.1.details == db.details
  {
    match Locate(db.mcqs, id)
    case None => (false, db)
    case Some(i) =>
      Seqs.RemoveAtMultiset(db.mcqs, i);
      var subs := Seqs.Filter(db.submissions, (s: UserSubmission) => s.mcqId != id);
      (true, db.(mcqs := Seqs.RemoveAt(db.mcqs, i), submissions := subs))
  }

  /** Removing the row at position `i` from a table with unique ids: that
      row's id is gone and every other lookup is unchanged. */
  lemma RemoveThenGet(mcqs: seq<Mcq>, i: nat, other: Id)
    requires UniqueIds(mcqs) && i < |mcqs|
    ensures UniqueIds(Seqs.RemoveAt(mcqs, i))
    ensures Get(Seqs.RemoveAt(mcqs, i), mcqs[i].mcqId).None?
    ensures other != mcqs[i].mcqId ==> Get(Seqs.RemoveAt(mcqs, i), other) == Get(mcqs, other)
  {
    var r := Seqs.RemoveAt(mcqs, i);
    assert forall j :: 0 <= j < |r| ==> r[j] == mcqs[if j < i then j else j + 1];
    if other != mcqs[i].mcqId {
      match Locate(mcqs, other)
      case None =>
      case Some(k) =>
        var k' := if k < i then k else k - 1;
        assert r[k'] == mcqs[k];
        GetUnique(r, k');
        GetUnique(mcqs, k);
    }
  }

  /** With unique ids a deleted question is gone for good and no other
      question is affected. */
  lemma DeleteThenGet(db: Db, id: Id, other: Id)
    requires UniqueIds(db.mcqs)
    ensures UniqueIds(Delete(db, id).1.mcqs)
    ensures Get(Delete(db, id).1.mcqs, id).None?
    ensures other != id ==> Get(Delete(db, id).1.mcqs, other) == Get(db.mcqs, other)
  {
    match Locate(db.mcqs, id)
    case None =>
    case Some(i) =>
      assert Delete(db, id).1.mcqs == Seqs.RemoveAt(db.mcqs, i);
      RemoveThenGet(db.mcqs, i, other);
  }

  /** After a delete no submission is left answering the deleted question. */
  lemma DeleteLeavesNoOrphans(db: Db, id: Id)
    ensures Delete(db, id).0 ==> forall s :: s in Delete(db, id).1.submissions ==> s.mcqId != id
  {
    var (deleted, d) := Delete(db, id);
    if deleted {
      forall s | s in d.submissions ensures s.mcqId != id {
        assert multiset(d.submissions)[s] > 0;
      }
    }
  }

  /** `get_mcq_types`, read as the list of type names it is meant to be:
      each type present in the table once, in order of first appearance. */
  function GetMcqTypes(mcqs: seq<Mcq>): (r: seq<string>)
    ensures Seqs.NoDuplicates(r)
    ensures forall t :: t in r <==> t in TypesOf(mcqs)
  {
    if |mcqs| == 0 then []
    else
      var init := mcqs[..|mcqs| - 1];
      var last := mcqs[|mcqs| - 1];
      var rest := GetMcqTypes(init);
      assert mcqs == init + [last];
      assert TypesOf(mcqs) == TypesOf(init) + {last.mcqType};
      if last.mcqType in rest then rest else rest + [last.mcqType]
  }

  /** A result row of `session.query(distinct(MCQ.type)).all()`: a one-column
      tuple, not a string. */
  datatype TypeRow = TypeRow(mcqType: string)

  /** `get_mcq_types` as written: one one-column row per distinct type. */
  function GetMcqTypeRows(mcqs: seq<Mcq>): (r: seq<TypeRow>)
    ensures Seqs.NoDuplicates(r)
    ensures forall t :: TypeRow(t) in r <==> t in TypesOf(mcqs)
  {
    var types := GetMcqTypes(mcqs);
    var r := seq(|types|, i requires 0 <= i < |types| => TypeRow(types[i]));
    assert forall t :: TypeRow(t) in r <==> t in types by {
      forall t ensures TypeRow(t) in r <==> t in types {
        if TypeRow(t) in r {
          var i :| 0 <= i < |r| && r[i] == TypeRow(t);
          assert types[i] == t;
        }
        if t in types {
          var i :| 0 <= i < |types| && types[i] == t;
          assert r[i] == TypeRow(t);
        }
      }
    }
    r
  }
}
