/**
 * IssueRepository.GetInActiveIssuesAsync: a second repository class whose inactive-issue
 * query repeats the same inline four-clause filter.
 */
module IssueRepository {
  import opened Wrappers
  import opened SystemTypes
  import opened Issues
  import opened Queryable
  import EfCoreIssueRepository

  /** The store filtered by this class's own inline inactivity lambda. */
  function GetInActiveIssues(store: seq<Issue>, now: DateTime): (r: Result<seq<Issue>, Exception>)
    reads store
    ensures r.Success? <==> FromDays(30) <= now
    ensures r.Success? ==> |r.value| <= |store|
    ensures r.Success? ==> forall k :: 0 <= k < |r.value| ==>
      r.value[k] in store && !r.value[k].IsClosed && r.value[k].AssignedUserId.None?
  {
    var daysAgo30 :- Subtract(now, FromDays(30));
    Success(Where(store, (i: IssueState) =>
      && !i.IsClosed
      && i.AssignedUserId.None?
      && i.CreationTime < daysAgo30
      && (i.LastCommentTime.None? || i.LastCommentTime.value < daysAgo30)))
  }

  /** Both repository classes return the same issues, in the same order, for the same store and now. */
  lemma SameAsEfCoreIssueRepository(store: seq<Issue>, now: DateTime)
    ensures GetInActiveIssues(store, now) == EfCoreIssueRepository.GetInActiveIssues(store, now)
  {
  }
}
