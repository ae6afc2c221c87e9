/** UserIssueService.GetOpenIssueCountAsync: how many issues are open and assigned to a user. */
module UserIssueService {
  import opened Wrappers
  import opened SystemTypes
  import opened Issues
  import opened Queryable
  import OpenIssueSpecification

  /** The number of store issues that satisfy the open-issues-of-user specification. */
  function GetOpenIssueCount(store: seq<Issue>, userId: Guid): (count: nat)
    reads store
    ensures count <= |store|
    ensures store == [] ==> count == 0
  {
    |Where(store, OpenIssueSpecification.ToExpression(userId))|
  }

  /** The count is the number of store positions holding an open issue of the user. */
  lemma CountsOpenIssuesOfUser(store: seq<Issue>, userId: Guid)
    ensures GetOpenIssueCount(store, userId)
         == |set k: nat | k < |store| && !store[k].IsClosed && store[k].AssignedUserId == Some(userId)|
  {
    var p := OpenIssueSpecification.ToExpression(userId);
    WhereCountsMatchingPositions(store, p);
    assert MatchingPositions(store, p)
        == set k: nat | k < |store| && !store[k].IsClosed && store[k].AssignedUserId == Some(userId);
  }

  /** Storing one more issue raises the count by one exactly when that issue is open and the user's. */
  lemma AppendOne(store: seq<Issue>, i: Issue, userId: Guid)
    ensures GetOpenIssueCount(store + [i], userId)
         == GetOpenIssueCount(store, userId) + (if !i.IsClosed && i.AssignedUserId == Some(userId) then 1 else 0)
  {
    WhereAppend(store, i, OpenIssueSpecification.ToExpression(userId));
  }

  /** Closed issues never contribute: counting over the open issues alone gives the same count. */
  lemma ClosedIssuesDoNotCount(store: seq<Issue>, userId: Guid)
    ensures GetOpenIssueCount(store, userId)
         == GetOpenIssueCount(Where(store, (s: IssueState) => !s.IsClosed), userId)
  {
    WhereNarrowing(store, (s: IssueState) => !s.IsClosed, OpenIssueSpecification.ToExpression(userId));
  }
}
