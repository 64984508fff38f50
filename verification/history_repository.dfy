/** `HistoryRepository` (`app/repositories/history_repository.py`) over the
    `user_history` table held as a sequence of rows, including the tolerant
    `sort_by`/`order` handling of `get_all`.
    The methods are given the meaning of their bodies; as written the
    class subscripts the non-generic `BaseRepository` and cannot be loaded. */
module HistoryRepository {
  import opened Wrappers
  import opened Models
  import Seqs

  /** `get`: the history with that id, or None. */
  function Get(hs: seq<UserHistory>, id: Id): (r: Option<UserHistory>)
    ensures r.Some? ==> r.value in hs && r.value.historyId == id
    ensures r.None? <==> forall j :: 0 <= j < |hs| ==> hs[j].historyId != id
  {
    Seqs.FindFirst(hs, (h: UserHistory) => h.historyId == id)
  }

  /** The mapped columns of `UserHistory`: the attribute names `sort_by`
      can name. */
  datatype Column = HistoryIdCol | UserIdCol | TotalScoreCol | PercentageCol | TotalAttemptsCol | AttemptedAtCol

  /** The attribute name of a column. */
  function ColumnName(c: Column): string
  {
    match c
    case HistoryIdCol => "history_id"
    case UserIdCol => "user_id"
    case TotalScoreCol => "total_score"
    case PercentageCol => "percentage"
    case TotalAttemptsCol => "total_attempts"
    case AttemptedAtCol => "attempted_at"
  }

  /** The column an attribute name denotes, or None for an unknown name. */
  function ColumnOf(name: string): (r: Option<Column>)
    ensures r.Some? <==> name in {"history_id", "user_id", "total_score", "percentage", "total_attempts", "attempted_at"}
    ensures r.Some? ==> ColumnName(r.value) == name
    ensures forall c :: ColumnName(c) == name ==> r == Some(c)
  {
    if name == "history_id" then Some(HistoryIdCol)
    else if name == "user_id" then Some(UserIdCol)
    else if name == "total_score" then Some(TotalScoreCol)
    else if name == "percentage" then Some(PercentageCol)
    else if name == "total_attempts" then Some(TotalAttemptsCol)
    else if name == "attempted_at" then Some(AttemptedAtCol)
    else None
  }

  /** The value a row holds in a column, on one ordered scale. */
  function Key(h: UserHistory, c: Column): real
  {
    match c
    case HistoryIdCol => h.historyId as real
    case UserIdCol => h.userId as real
    case TotalScoreCol => h.totalScore
    case PercentageCol => h.percentage
    case TotalAttemptsCol => h.totalAttempts as real
    case AttemptedAtCol => h.attemptedAt as real
  }

  /** `a` may precede `b` in an `ORDER BY c` (ascending) or `ORDER BY c DESC`. */
  predicate InOrder(a: UserHistory, b: UserHistory, c: Column, descending: bool)
  {
    if descending then Key(b, c) <= Key(a, c) else Key(a, c) <= Key(b, c)
  }

  /** Every pair of rows is in the requested order (ties in any order, as
      SQL leaves them). */
  predicate Sorted(hs: seq<UserHistory>, c: Column, descending: bool)
  {
    forall i, j :: 0 <= i < j < |hs| ==> InOrder(hs[i], hs[j], c, descending)
  }

  /** Lower-casing of one character (ASCII letters). */
  function LowerChar(ch: char): char
  {
    if 'A' <= ch <= 'Z' then (ch as int - 'A' as int + 'a' as int) as char else ch
  }

  /** `str.lower()` on ASCII text. */
  function Lower(s: string): (r: string)
    ensures |r| == |s| && forall i :: 0 <= i < |s| ==> r[i] == LowerChar(s[i])
  {
    seq(|s|, i requires 0 <= i < |s| => LowerChar(s[i]))
  }

  /** The `order` argument asks for descending order. */
  predicate IsDescending(order: string)
  {
    Lower(order) == "desc"
  }

  /** An order means descending exactly when it is "desc" in some
      capitalisation. */
  lemma DescendingExactly(order: string)
    ensures IsDescending(order) <==>
      |order| == 4 && order[0] in "dD" && order[1] in "eE" && order[2] in "sS" && order[3] in "cC"
  {
    var l := Lower(order);
    if |order| == 4 {
      assert l == "desc" <==> l[0] == 'd' && l[1] == 'e' && l[2] == 's' && l[3] == 'c';
    }
  }

  /** Examples: "desc", "DESC" and "Desc" mean descending; "asc", the
      default, "descending" and the empty string mean ascending. */
  lemma DescendingWords()
    ensures IsDescending("desc") && IsDescending("DESC") && IsDescending("Desc")
    ensures !IsDescending("asc") && !IsDescending("descending") && !IsDescending("")
  {
    assert Lower("DESC") == "desc";
    assert Lower("Desc") == "desc";
    assert Lower("desc") == "desc";
    assert |Lower("descending")| != |"desc"|;
    assert Lower("asc")[0] == 'a';
  }

  /** In an ordered sequence the first row may precede every row. */
  lemma HeadFirst(hs: seq<UserHistory>, c: Column, descending: bool)
    requires Sorted(hs, c, descending) && |hs| > 0
    ensures forall y :: y in hs ==> InOrder(hs[0], y, c, descending)
  {
    forall y | y in hs ensures InOrder(hs[0], y, c, descending) {
      var k :| 0 <= k < |hs| && hs[k] == y;
      if k > 0 { assert InOrder(hs[0], hs[k], c, descending); }
    }
  }

  /** A row that may precede every row of an ordered sequence can be put in
      front of it. */
  lemma PrependSorted(a: UserHistory, hs: seq<UserHistory>, c: Column, descending: bool)
    requires Sorted(hs, c, descending)
    requires forall y :: y in hs ==> InOrder(a, y, c, descending)
    ensures Sorted([a] + hs, c, descending)
  {
    var r := [a] + hs;
    forall i, j | 0 <= i < j < |r| ensures InOrder(r[i], r[j], c, descending) {
      assert r[j] == hs[j - 1] && r[j] in hs;
      if i > 0 { assert r[i] == hs[i - 1]; }
    }
  }

  /** Insert one row into an ordered sequence. */
  function Insert(x: UserHistory, hs: seq<UserHistory>, c: Column, descending: bool): (r: seq<UserHistory>)
    requires Sorted(hs, c, descending)
    ensures Sorted(r, c, descending)
    ensures multiset(r) == multiset(hs) + multiset{x}
  {
    if |hs| == 0 then [x]
    else
      HeadFirst(hs, c, descending);
      if InOrder(x, hs[0], c, descending) then
        PrependSorted(x, hs, c, descending);
        [x] + hs
      else
        var rest := Insert(x, hs[1..], c, descending);
        assert hs == [hs[0]] + hs[1..];
        assert forall y :: y in rest ==> InOrder(hs[0], y, c, descending) by {
          forall y | y in rest ensures InOrder(hs[0], y, c, descending) {
            assert multiset(rest)[y] > 0;
            if y != x { assert y in hs; }
          }
        }
        PrependSorted(hs[0], rest, c, descending);
        [hs[0]] + rest
  }

  /** `ORDER BY c` / `ORDER BY c DESC`: an ordered permutation of the rows. */
  function SortBy(hs: seq<UserHistory>, c: Column, descending: bool): (r: seq<UserHistory>)
    ensures Sorted(r, c, descending)
    ensures multiset(r) == multiset(hs)
  {
    if |hs| == 0 then []
    else
      assert hs == [hs[0]] + hs[1..];
      Insert(hs[0], SortBy(hs[1..], c, descending), c, descending)
  }

  /** The histories `get_all` considers: those of `userId`, or all of them
      when no user is given. */
  function Owned(hs: seq<UserHistory>, userId: Option<Id>): (r: seq<UserHistory>)
    ensures userId.None? ==> r == hs
    ensures userId.Some? ==>
      forall h :: multiset(r)[h] == if h.userId == userId.value then multiset(hs)[h] else 0
  {
    match userId
    case None => hs
    case Some(u) => Seqs.Filter(hs, (h: UserHistory) => h.userId == u)
  }

  /** `get_all(user_id, sort_by, order)`. */
  function GetAll(hs: seq<UserHistory>, userId: Option<Id>, sortBy: Option<string>, order: string): (r: seq<UserHistory>)
    ensures multiset(r) == multiset(Owned(hs, userId))
    ensures userId.Some? ==> forall i :: 0 <= i < |r| ==> r[i].userId == userId.value
    ensures sortBy.Some? && ColumnOf(sortBy.value).Some? ==>
      Sorted(r, ColumnOf(sortBy.value).value, IsDescending(order))
    ensures sortBy.None? || ColumnOf(sortBy.value).None? ==> r == Owned(hs, userId)
  {
    var rows := Owned(hs, userId);
    var r := if sortBy.Some? && ColumnOf(sortBy.value).Some?
             then SortBy(rows, ColumnOf(sortBy.value).value, IsDescending(order))
             else rows;
    assert userId.Some? ==> forall i :: 0 <= i < |r| ==> r[i].userId == userId.value by {
      if userId.Some? {
        forall i | 0 <= i < |r| ensures r[i].userId == userId.value {
          assert multiset(r)[r[i]] > 0;
        }
      }
    }
    r
  }

  /** A user's listing contains each of that user's histories, as many times
      as the table does, whatever the sort. */
  lemma GetAllComplete(hs: seq<UserHistory>, u: Id, sortBy: Option<string>, order: string, h: UserHistory)
    requires h in hs && h.userId == u
    ensures h in GetAll(hs, Some(u), sortBy, order)
  {
    assert multiset(hs)[h] > 0;
    assert multiset(GetAll(hs, Some(u), sortBy, order))[h] > 0;
  }

  /** `add`: the new history is staged; the rest of the table is unchanged,
      and it shows up last in its owner's unsorted listing. */
  function Add(hs: seq<UserHistory>, h: UserHistory): (r: seq<UserHistory>)
    ensures |r| == |hs| + 1 && r[..|hs|] == hs && r[|hs|] == h
  {
    hs + [h]
  }

  lemma AddThenGetAll(hs: seq<UserHistory>, h: UserHistory, u: Id)
    ensures GetAll(Add(hs, h), Some(u), None, "asc") ==
            GetAll(hs, Some(u), None, "asc") + (if h.userId == u then [h] else [])
  {
    Seqs.FilterAppendOne(hs, h, (x: UserHistory) => x.userId == u);
  }

  /** The keyword arguments `update` may receive. */
  datatype HistoryPatch = HistoryPatch(
    userId: Option<Id>,
    totalScore: Option<real>,
    percentage: Option<real>,
    totalAttempts: Option<int>,
    attemptedAt: Option<Timestamp>)

  predicate IsEmptyPatch(p: HistoryPatch)
  {
    p.userId.None? && p.totalScore.None? && p.percentage.None? && p.totalAttempts.None? && p.attemptedAt.None?
  }

  /** One row after `setattr` for every supplied field. */
  function Patched(h: UserHistory, p: HistoryPatch): (r: UserHistory)
    ensures r.historyId == h.historyId
    ensures r.userId == (if p.userId.Some? then p.userId.value else h.userId)
    ensures r.totalScore == (if p.totalScore.Some? then p.totalScore.value else h.totalScore)
    ensures r.percentage == (if p.percentage.Some? then p.percentage.value else h.percentage)
    ensures r.totalAttempts == (if p.totalAttempts.Some? then p.totalAttempts.value else h.totalAttempts)
    ensures r.attemptedAt == (if p.attemptedAt.Some? then p.attemptedAt.value else h.attemptedAt)
  {
    UserHistory(h.historyId, p.userId.GetOr(h.userId), p.totalScore.GetOr(h.totalScore),
                p.percentage.GetOr(h.percentage), p.totalAttempts.GetOr(h.totalAttempts),
                p.attemptedAt.GetOr(h.attemptedAt))
  }

  /** `update`: sets only the supplied fields of the target history. On a
      missing id the first `setattr` lands on None and raises, unless there
      is nothing to set. */
  function Update(hs: seq<UserHistory>, id: Id, p: HistoryPatch): (r: Result<seq<UserHistory>, Failure>)
    ensures r.Err? <==> Get(hs, id).None? && !IsEmptyPatch(p)
    ensures r.Err? ==> r.error == AttributeError
    ensures r.Ok? && Get(hs, id).None? ==> r.value == hs
    ensures r.Ok? ==> |r.value| == |hs|
    ensures r.Ok? && Get(hs, id).Some? ==>
      exists i :: 0 <= i < |hs| && hs[i] == Get(hs, id).value
                && r.value[i] == Patched(hs[i], p)
                && forall j :: 0 <= j < |hs| && j != i ==> r.value[j] == hs[j]
  {
    match Seqs.FirstIndex(hs, (h: UserHistory) => h.historyId == id)
    case None => if IsEmptyPatch(p) then Ok(hs) else Err(AttributeError)
    case Some(i) => Ok(hs[i := Patched(hs[i], p)])
  }
}
