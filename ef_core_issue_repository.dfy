/**
 * EfCoreIssueRepository.GetInActiveIssuesAsync: the inactive issues of the store, with the
 * four clauses written out inline rather than taken from the inactivity specification.
 */
module EfCoreIssueRepository {
  import opened Wrappers
  import opened SystemTypes
  import opened Issues
  import opened Queryable
  import Specifications

  /** The store filtered by the inline inactivity lambda, with the clock reading as `now`. */
  function GetInActiveIssues(store: seq<Issue>, now: DateTime): (r: Result<seq<Issue>, Exception>)
    reads store
    ensures r.Success? <==> FromDays(30) <= now
    ensures r.Success? ==> |r.value| <= |store|
    ensures r.Success? ==> forall k :: 0 <= k < |r.value| ==>
      && r.value[k] in store
      && !r.value[k].IsClosed
      && r.value[k].AssignedUserId.None?
      && r.value[k].CreationTime + FromDays(30) < now
      && (r.value[k].LastCommentTime.None? || r.value[k].LastCommentTime.value + FromDays(30) < now)
    ensures r.Success? ==> forall k :: 0 <= k < |store| ==>
      (&& !store[k].IsClosed
       && store[k].AssignedUserId.None?
       && store[k].CreationTime + FromDays(30) < now
       && (store[k].LastCommentTime.None? || store[k].LastCommentTime.value + FromDays(30) < now))
      ==> store[k] in r.value
  {
    var daysAgo30 :- Subtract(now, FromDays(30));
    Success(Where(store, (i: IssueState) =>
      && !i.IsClosed
      && i.AssignedUserId.None?
      && i.CreationTime < daysAgo30
      && (i.LastCommentTime.None? || i.LastCommentTime.value < daysAgo30)))
  }

  /** For the same now, the repository's filter selects what the inactivity specification selects. */
  lemma {:induction false} CoincidesWithSpecification(store: seq<Issue>, now: DateTime)
    ensures var spec := Specifications.ToExpression(Specifications.InActiveIssue, now);
      && (GetInActiveIssues(store, now).Success? <==> spec.Success?)
      && (spec.Success? ==> GetInActiveIssues(store, now).value == Where(store, spec.value))
  {
    var spec := Specifications.ToExpression(Specifications.InActiveIssue, now);
    if spec.Success? {
      var daysAgo30 := Subtract(now, FromDays(30)).value;
      WhereCongruent(store,
        (i: IssueState) =>
          && !i.IsClosed
          && i.AssignedUserId.None?
          && i.CreationTime < daysAgo30
          && (i.LastCommentTime.None? || i.LastCommentTime.value < daysAgo30),
        spec.value);
    }
  }
}
