/** The milestone rule: an issue belongs to the milestone whose id it records. */
module MileStoneSpecification {
  import opened SystemTypes
  import opened Issues

  /** new MileStoneSpecification(mileStoneId).ToExpression(). */
  function ToExpression(mileStoneId: Guid): IssueState -> bool {
    (i: IssueState) => i.MileStoneId == mileStoneId
  }

  /** The rule holds exactly of the issues recording the id the specification was built with. */
  lemma HoldsIffSameMileStone(mileStoneId: Guid, i: IssueState)
    ensures ToExpression(mileStoneId)(i) <==> i.MileStoneId == mileStoneId
  {
  }

  /** No issue is in two different milestones. */
  lemma DistinctMileStonesAreDisjoint(m1: Guid, m2: Guid, i: IssueState)
    requires m1 != m2
    ensures !(ToExpression(m1)(i) && ToExpression(m2)(i))
  {
  }

  /** The rule reads only the milestone: closed state, assignee and timestamps do not matter. */
  lemma DependsOnlyOnMileStone(mileStoneId: Guid, i: IssueState, j: IssueState)
    requires i.MileStoneId == j.MileStoneId
    ensures ToExpression(mileStoneId)(i) == ToExpression(mileStoneId)(j)
  {
  }
}
