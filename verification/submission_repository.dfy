/** `SubmissionRepository` (`app/repositories/submission_repository.py`) over
    the `user_submissions` table held as a sequence of rows.
    The methods are given the meaning of their bodies; as written the
    class subscripts the non-generic `BaseRepository` and cannot be loaded. */
module SubmissionRepository {
  import opened Models
  import Wrappers
  import Seqs

  /** `get`: the list of submissions carrying that id (`.all()`, not
      `.first()`), so a missing id yields an empty list, never None. */
  function Get(subs: seq<UserSubmission>, submissionId: Id): (r: seq<UserSubmission>)
    ensures forall s :: multiset(r)[s] == if s.submissionId == submissionId then multiset(subs)[s] else 0
    ensures r == [] <==> forall j :: 0 <= j < |subs| ==> subs[j].submissionId != submissionId
  {
    var r := Seqs.Filter(subs, (s: UserSubmission) => s.submissionId == submissionId);
    assert r == [] <==> forall j :: 0 <= j < |subs| ==> subs[j].submissionId != submissionId by {
      if r == [] {
        forall j | 0 <= j < |subs| ensures subs[j].submissionId != submissionId {
          assert multiset(subs)[subs[j]] > 0;
          assert multiset(r)[subs[j]] == 0;
        }
      } else {
        assert multiset(r)[r[0]] > 0;
        assert r[0] in subs;
      }
    }
    r
  }

  /** `get_all(user_id)`: that user's submissions, or all of them when no
      user is given. */
  function GetAll(subs: seq<UserSubmission>, userId: Wrappers.Option<Id>): (r: seq<UserSubmission>)
    ensures userId.None? ==> r == subs
    ensures userId.Some? ==>
      forall s :: multiset(r)[s] == if s.userId == userId.value then multiset(subs)[s] else 0
  {
    match userId
    case None => subs
    case Some(u) => Seqs.Filter(subs, (s: UserSubmission) => s.userId == u)
  }

  /** `add`: the new submission is staged after the existing ones. */
  function Add(subs: seq<UserSubmission>, s: UserSubmission): (r: seq<UserSubmission>)
    ensures |r| == |subs| + 1 && r[..|subs|] == subs && r[|subs|] == s
  {
    subs + [s]
  }

  /** After `add`, the submission is listed for its user only. */
  lemma AddThenGetAll(subs: seq<UserSubmission>, s: UserSubmission, u: Id)
    ensures GetAll(Add(subs, s), Wrappers.Some(u)) == GetAll(subs, Wrappers.Some(u)) + (if s.userId == u then [s] else [])
  {
    Seqs.FilterAppendOne(subs, s, (x: UserSubmission) => x.userId == u);
  }

  /** After `add`, `get` on the new submission's id finds it last. */
  lemma AddThenGet(subs: seq<UserSubmission>, s: UserSubmission)
    ensures Get(Add(subs, s), s.submissionId) == Get(subs, s.submissionId) + [s]
  {
    Seqs.FilterAppendOne(subs, s, (x: UserSubmission) => x.submissionId == s.submissionId);
  }
}
