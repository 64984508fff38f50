/** `HistoryDetailsRepository` (`app/repositories/history_details_repository.py`)
    over the `user_history_details` table held as a sequence of rows.
    The methods are given the meaning of their bodies; as written the
    class subscripts the non-generic `BaseRepository` and cannot be loaded. */
module HistoryDetailsRepository {
  import opened Wrappers
  import opened Models
  import Seqs

  /** `get(x)`: despite its parameter name, it looks up by owning history:
      the first detail whose `history_id` is `x`, or None. */
  function Get(ds: seq<HistoryDetail>, historyId: Id): (r: Option<HistoryDetail>)
    ensures r.None? <==> forall j :: 0 <= j < |ds| ==> ds[j].historyId != historyId
    ensures r.Some? ==> r.value in ds && r.value.historyId == historyId
  {
    Seqs.FindFirst(ds, (d: HistoryDetail) => d.historyId == historyId)
  }

  /** `get_all(history_id)`: the details of that history, or every detail
      when no history is given. */
  function GetAll(ds: seq<HistoryDetail>, historyId: Option<Id>): (r: seq<HistoryDetail>)
    ensures historyId.None? ==> r == ds
    ensures historyId.Some? ==>
      forall d :: multiset(r)[d] == if d.historyId == historyId.value then multiset(ds)[d] else 0
  {
    match historyId
    case None => ds
    case Some(h) => Seqs.Filter(ds, (d: HistoryDetail) => d.historyId == h)
  }

  /** `get(x)` is the first row of `get_all(x)`: both filter on the owning
      history, and `get` keys on `history_id`, not on `detail_id`. */
  lemma GetIsFirstOfGetAll(ds: seq<HistoryDetail>, historyId: Id)
    ensures Get(ds, historyId) ==
      if GetAll(ds, Some(historyId)) == [] then None else Some(GetAll(ds, Some(historyId))[0])
  {
    Seqs.FindFirstIsHeadOfFilter(ds, (d: HistoryDetail) => d.historyId == historyId);
  }

  /** `add`: the new detail is staged after the existing ones. */
  function Add(ds: seq<HistoryDetail>, d: HistoryDetail): (r: seq<HistoryDetail>)
    ensures |r| == |ds| + 1 && r[..|ds|] == ds && r[|ds|] == d
  {
    ds + [d]
  }

  /** After `add`, the new detail is listed with its history and every other
      history's listing is unchanged. */
  lemma AddThenGetAll(ds: seq<HistoryDetail>, d: HistoryDetail, h: Id)
    ensures GetAll(Add(ds, d), Some(h)) == GetAll(ds, Some(h)) + (if d.historyId == h then [d] else [])
  {
    Seqs.FilterAppendOne(ds, d, (x: HistoryDetail) => x.historyId == h);
  }
}
