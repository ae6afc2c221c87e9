/**
 * The inactivity rule: an issue is inactive when it is open, assigned to nobody, was
 * created more than 30 days before now and has had no comment in those 30 days.
 * "Now" is read once, when the expression is built, and fixes the cutoff `daysAgo30`.
 */
module InActiveIssueSpecification {
  import opened Wrappers
  import opened SystemTypes
  import opened Issues

  /** TimeSpan.FromDays(30). */
  const InActivityPeriod: TimeSpan := FromDays(30)

  /** now.Subtract(TimeSpan.FromDays(30)), which throws within 30 days of DateTime.MinValue. */
  function DaysAgo30(now: DateTime): (r: Result<DateTime, Exception>)
    ensures r.Success? <==> InActivityPeriod <= now
    ensures r.Success? ==> r.value + InActivityPeriod == now && r.value < now
    ensures r.Failure? ==> r.error == ArgumentOutOfRange
  {
    Subtract(now, InActivityPeriod)
  }

  /** The four clauses of the rule, against the cutoff `daysAgo30`. */
  predicate IsInActive(i: IssueState, daysAgo30: DateTime) {
    && !i.IsClosed
    && i.AssignedUserId.None?
    && i.CreationTime < daysAgo30
    && (i.LastCommentTime.None? || i.LastCommentTime.value < daysAgo30)
  }

  /** InActiveIssueSpecification.ToExpression(), with the clock reading passed in as `now`. */
  function ToExpression(now: DateTime): (r: Result<IssueState -> bool, Exception>)
    ensures r.Success? <==> InActivityPeriod <= now
  {
    var daysAgo30 :- DaysAgo30(now);
    Success((i: IssueState) => IsInActive(i, daysAgo30))
  }

  /** `i` is inactive at `now`: the expression can be built and holds of `i`. */
  predicate InActiveAt(i: IssueState, now: DateTime) {
    var r := ToExpression(now);
    r.Success? && r.value(i)
  }

  /** The rule is the conjunction of its four clauses, with the cutoff exactly now minus 30 days. */
  lemma InActiveAtIffFourClauses(i: IssueState, now: DateTime)
    ensures InActiveAt(i, now) <==>
      && InActivityPeriod <= now
      && !i.IsClosed
      && i.AssignedUserId.None?
      && i.CreationTime + InActivityPeriod < now
      && (i.LastCommentTime.None? || i.LastCommentTime.value + InActivityPeriod < now)
  {
  }

  /** A closed issue is never inactive. */
  lemma ClosedIsNeverInActive(i: IssueState, now: DateTime)
    requires i.IsClosed
    ensures !InActiveAt(i, now)
  {
  }

  /** An issue assigned to a user is never inactive. */
  lemma AssignedIsNeverInActive(i: IssueState, now: DateTime)
    requires i.AssignedUserId.Some?
    ensures !InActiveAt(i, now)
  {
  }

  /** The creation cutoff is strict: an issue created exactly 30 days ago is not inactive. */
  lemma CreatedAtCutoffIsNotInActive(i: IssueState, now: DateTime)
    requires i.CreationTime + InActivityPeriod == now
    ensures !InActiveAt(i, now)
  {
  }

  /**
   * The comment clause: with no last comment the rule reduces to its first three clauses;
   * a last comment at or after the cutoff makes the issue active.
   */
  lemma CommentClause(i: IssueState, now: DateTime)
    ensures i.LastCommentTime.None? ==>
      (InActiveAt(i, now) <==>
        InActivityPeriod <= now && !i.IsClosed && i.AssignedUserId.None?
        && i.CreationTime + InActivityPeriod < now)
    ensures i.LastCommentTime.Some? && now <= i.LastCommentTime.value + InActivityPeriod ==>
      !InActiveAt(i, now)
  {
  }

  /** Inactivity persists as time passes: an inactive issue is still inactive later. */
  lemma InActiveIsMonotoneInNow(i: IssueState, now: DateTime, later: DateTime)
    requires now <= later
    requires InActiveAt(i, now)
    ensures InActiveAt(i, later)
  {
  }

  /**
   * An open, unassigned issue created 45 days ago without comments is inactive; the same
   * issue with a comment made 10 days ago is not.
   */
  lemma StaleIssueExample(i: IssueState, now: DateTime, commented: DateTime)
    requires !i.IsClosed && i.AssignedUserId.None? && i.LastCommentTime.None?
    requires i.CreationTime + FromDays(45) == now
    requires commented + FromDays(10) == now
    ensures InActiveAt(i, now)
    ensures !InActiveAt(i.(LastCommentTime := Some(commented)), now)
  {
  }
}
