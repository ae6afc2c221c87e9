/**
 * Specifications as data: each concrete specification is a variant, and `And` combines
 * two into one whose expression is the conjunction of theirs. Building the expression of
 * a specification that contains the inactivity rule reads the clock, passed in as `now`.
 */
module Specifications {
  import opened Wrappers
  import opened SystemTypes
  import opened Issues
  import InActiveIssueSpecification
  import MileStoneSpecification
  import OpenIssueSpecification

  datatype Specification =
    | InActiveIssue
    | MileStone(MileStoneId: Guid)
    | OpenIssuesOfUser(UserId: Guid)
    | And(Left: Specification, Right: Specification)

  /** Whether building the expression reads the clock. */
  predicate ReadsClock(spec: Specification) {
    match spec
    case InActiveIssue => true
    case MileStone(_) => false
    case OpenIssuesOfUser(_) => false
    case And(left, right) => ReadsClock(left) || ReadsClock(right)
  }

  /** The expression of a specification; it fails only when the inactivity cutoff cannot be formed. */
  function ToExpression(spec: Specification, now: DateTime): (r: Result<IssueState -> bool, Exception>)
    ensures r.Failure? <==> ReadsClock(spec) && now < InActiveIssueSpecification.InActivityPeriod
    ensures r.Failure? ==> r.error == ArgumentOutOfRange
  {
    match spec
    case InActiveIssue => InActiveIssueSpecification.ToExpression(now)
    case MileStone(mileStoneId) => Success(MileStoneSpecification.ToExpression(mileStoneId))
    case OpenIssuesOfUser(userId) => Success(OpenIssueSpecification.ToExpression(userId))
    case And(left, right) =>
      var l :- ToExpression(left, now);
      var r :- ToExpression(right, now);
      Success((i: IssueState) => l(i) && r(i))
  }

  /** `i` satisfies `spec` at `now`: its expression can be built and holds of `i`. */
  predicate IsSatisfiedBy(spec: Specification, now: DateTime, i: IssueState) {
    var r := ToExpression(spec, now);
    r.Success? && r.value(i)
  }

  /** `And` is logical conjunction. */
  lemma AndIsConjunction(left: Specification, right: Specification, now: DateTime, i: IssueState)
    ensures IsSatisfiedBy(And(left, right), now, i) <==> IsSatisfiedBy(left, now, i) && IsSatisfiedBy(right, now, i)
  {
  }

  /** `And` is commutative in result. */
  lemma AndIsCommutative(left: Specification, right: Specification, now: DateTime, i: IssueState)
    ensures IsSatisfiedBy(And(left, right), now, i) == IsSatisfiedBy(And(right, left), now, i)
  {
  }

  /** The inactivity variant is the inactivity rule. */
  lemma InActiveIssueIsInActivity(now: DateTime, i: IssueState)
    ensures IsSatisfiedBy(InActiveIssue, now, i) == InActiveIssueSpecification.InActiveAt(i, now)
  {
  }

  /** A milestone variant stores its id and holds exactly of the issues in that milestone. */
  lemma MileStoneIsMileStoneEquality(mileStoneId: Guid, now: DateTime, i: IssueState)
    ensures MileStone(mileStoneId).MileStoneId == mileStoneId
    ensures IsSatisfiedBy(MileStone(mileStoneId), now, i) <==> i.MileStoneId == mileStoneId
  {
  }

  /** An open-issues variant stores its user id and holds exactly of that user's open issues. */
  lemma OpenIssuesOfUserIsOpenAndAssigned(userId: Guid, now: DateTime, i: IssueState)
    ensures OpenIssuesOfUser(userId).UserId == userId
    ensures IsSatisfiedBy(OpenIssuesOfUser(userId), now, i) <==> !i.IsClosed && i.AssignedUserId == Some(userId)
  {
  }
}
