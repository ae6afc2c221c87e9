/** The open-issues-of-user rule: an issue is open and assigned to the given user. */
module OpenIssueSpecification {
  import opened Wrappers
  import opened SystemTypes
  import opened Issues
  import InActiveIssueSpecification

  /** new OpenIssuesOfUserSpecification(userId).ToExpression(). */
  function ToExpression(userId: Guid): IssueState -> bool {
    (i: IssueState) => !i.IsClosed && i.AssignedUserId == Some(userId)
  }

  /** The rule holds exactly of the open issues assigned to the given user. */
  lemma HoldsIffOpenAndAssignedTo(userId: Guid, i: IssueState)
    ensures ToExpression(userId)(i) <==> !i.IsClosed && i.AssignedUserId.Some? && i.AssignedUserId.value == userId
  {
  }

  /** Closed issues, unassigned issues and issues of other users never satisfy the rule. */
  lemma ExcludedIssues(userId: Guid, i: IssueState)
    ensures i.IsClosed ==> !ToExpression(userId)(i)
    ensures i.AssignedUserId.None? ==> !ToExpression(userId)(i)
    ensures i.AssignedUserId.Some? && i.AssignedUserId.value != userId ==> !ToExpression(userId)(i)
  {
  }

  /** An issue of the user is never inactive, since inactivity requires no assignee. */
  lemma DisjointFromInActive(userId: Guid, i: IssueState, now: DateTime)
    requires ToExpression(userId)(i)
    ensures !InActiveIssueSpecification.InActiveAt(i, now)
  {
  }
}
