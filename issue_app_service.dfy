/**
 * IssueAppService: listing issues (a sort default, a four-way choice of filter and a title
 * count) and updating an issue's text and assignee.
 */
module IssueAppService {
  import opened Wrappers
  import opened SystemTypes
  import opened Issues
  import opened Queryable
  import opened Specifications
  import InActiveIssueSpecification

  /** GetIssueListDto, with the paging and sorting properties of its base request type. */
  class GetIssueListDto {
    var SkipCount: int
    var MaxResultCount: int
    var Sorting: NullableString
    var Filter: NullableString
    var ShowInActiveIssues: Option<bool>
    var MileStoneId: Guid
  }

  /** UpdateIssueDto. */
  datatype UpdateIssueDto = UpdateIssueDto(
    Title: NullableString,
    Text: NullableString,
    AssignedUserId: Option<Guid>)

  /** PagedResultDto: the total count and the listed issues. */
  datatype PagedResult = PagedResult(TotalCount: nat, Items: seq<Issue>)

  /** GetPagedListAsync(skipCount, maxResultCount, sorting): paging done by the framework. */
  type PagedListQuery = (int, int, NullableString) -> seq<Issue>

  /** nameof(Issue.Title), the sort key used when none is given. */
  const DefaultSortKey: string := "Title"

  /** The sort key GetListAsync leaves in its input: a blank one becomes "Title". */
  function EffectiveSorting(sorting: NullableString): (r: NullableString)
    ensures !IsNullOrWhiteSpace(r)
    ensures !IsNullOrWhiteSpace(sorting) ==> r == sorting
    ensures IsNullOrWhiteSpace(sorting) ==> r == Some(DefaultSortKey)
  {
    assert !IsWhiteSpace(DefaultSortKey[0]);
    if IsNullOrWhiteSpace(sorting) then Some(DefaultSortKey) else sorting
  }

  /** Applying the default twice is applying it once. */
  lemma EffectiveSortingIsIdempotent(sorting: NullableString)
    ensures EffectiveSorting(EffectiveSorting(sorting)) == EffectiveSorting(sorting)
  {
  }

  /** The four branches of GetListAsync. */
  datatype ListBranch = InActiveInMileStone | InMileStone | InActiveOnly | PagedList

  /** The branch the if/else chain takes; each branch has one exact condition. */
  function SelectBranch(showInActiveIssues: Option<bool>, mileStoneId: Guid): (b: ListBranch)
    ensures b == InActiveInMileStone <==> showInActiveIssues == Some(true) && mileStoneId != Empty
    ensures b == InMileStone <==> showInActiveIssues == Some(false) && mileStoneId != Empty
    ensures b == InActiveOnly <==> showInActiveIssues == Some(true) && mileStoneId == Empty
    ensures b == PagedList <==>
      showInActiveIssues.None? || (showInActiveIssues == Some(false) && mileStoneId == Empty)
  {
    if showInActiveIssues.Some? && showInActiveIssues.value == true && mileStoneId != Empty then
      InActiveInMileStone
    else if showInActiveIssues.Some? && showInActiveIssues.value == false && mileStoneId != Empty then
      InMileStone
    else if showInActiveIssues.Some? && showInActiveIssues.value == true then
      InActiveOnly
    else
      PagedList
  }

  /** The specification a filtering branch applies to the store; none for the paged list. */
  function BranchSpecification(b: ListBranch, mileStoneId: Guid): (r: Option<Specification>)
    ensures r.None? <==> b == PagedList
    ensures r.Some? ==> (ReadsClock(r.value) <==> b in {InActiveInMileStone, InActiveOnly})
    ensures r.Some? && b != InActiveOnly ==>
      forall now, i :: IsSatisfiedBy(r.value, now, i) ==> i.MileStoneId == mileStoneId
  {
    match b
    case InActiveInMileStone =>
      InActiveInMileStoneIsInMileStone(mileStoneId);
      Some(And(InActiveIssue, MileStone(mileStoneId)))
    case InMileStone => Some(MileStone(mileStoneId))
    case InActiveOnly => Some(InActiveIssue)
    case PagedList => None
  }

  /** The issues GetListAsync lists: the store filtered by the branch's specification, or the paged list. */
  function SelectIssues(store: seq<Issue>, now: DateTime, showInActiveIssues: Option<bool>,
                        mileStoneId: Guid, pagedList: seq<Issue>): (r: Result<seq<Issue>, Exception>)
    reads store
    ensures SelectBranch(showInActiveIssues, mileStoneId) == PagedList ==> r == Success(pagedList)
    ensures SelectBranch(showInActiveIssues, mileStoneId) == InMileStone ==>
      && r.Success?
      && (forall k :: 0 <= k < |r.value| ==> r.value[k] in store && r.value[k].MileStoneId == mileStoneId)
      && (forall k :: 0 <= k < |store| && store[k].MileStoneId == mileStoneId ==> store[k] in r.value)
    ensures SelectBranch(showInActiveIssues, mileStoneId) in {InActiveInMileStone, InActiveOnly} ==>
      (r.Success? <==> InActiveIssueSpecification.InActivityPeriod <= now)
    ensures SelectBranch(showInActiveIssues, mileStoneId) == InActiveInMileStone && r.Success? ==>
      && (forall k :: 0 <= k < |r.value| ==>
            && r.value[k] in store
            && InActiveIssueSpecification.InActiveAt(r.value[k].State(), now)
            && r.value[k].MileStoneId == mileStoneId)
      && (forall k :: 0 <= k < |store| ==>
            InActiveIssueSpecification.InActiveAt(store[k].State(), now) && store[k].MileStoneId == mileStoneId
            ==> store[k] in r.value)
    ensures SelectBranch(showInActiveIssues, mileStoneId) == InActiveOnly && r.Success? ==>
      && (forall k :: 0 <= k < |r.value| ==>
            r.value[k] in store && InActiveIssueSpecification.InActiveAt(r.value[k].State(), now))
      && (forall k :: 0 <= k < |store| ==>
            InActiveIssueSpecification.InActiveAt(store[k].State(), now) ==> store[k] in r.value)
    ensures SelectBranch(showInActiveIssues, mileStoneId) != PagedList && r.Success? ==> |r.value| <= |store|
  {
    match BranchSpecification(SelectBranch(showInActiveIssues, mileStoneId), mileStoneId)
    case None => Success(pagedList)
    case Some(spec) =>
      InActiveInMileStoneExpression(now, mileStoneId);
      var expression :- ToExpression(spec, now);
      Success(Where(store, expression))
  }

  /** The expression of the first branch is inactivity at `now` together with milestone equality. */
  lemma InActiveInMileStoneExpression(now: DateTime, mileStoneId: Guid)
    ensures var r := ToExpression(And(InActiveIssue, MileStone(mileStoneId)), now);
      r.Success? ==> forall s :: r.value(s) == (InActiveIssueSpecification.InActiveAt(s, now) && s.MileStoneId == mileStoneId)
  {
  }

  /** Every issue satisfying the first branch's specification is in its milestone, whatever `now` is. */
  lemma InActiveInMileStoneIsInMileStone(mileStoneId: Guid)
    ensures forall now, i :: IsSatisfiedBy(And(InActiveIssue, MileStone(mileStoneId)), now, i) ==> i.MileStoneId == mileStoneId
  {
    forall now, i | IsSatisfiedBy(And(InActiveIssue, MileStone(mileStoneId)), now, i)
      ensures i.MileStoneId == mileStoneId
    {
      AndIsConjunction(InActiveIssue, MileStone(mileStoneId), now, i);
      MileStoneIsMileStoneEquality(mileStoneId, now, i);
    }
  }

  /** Whether an issue's title contains the filter, as the store evaluates it: a null title never does. */
  predicate TitleContains(title: NullableString, filter: NullableString) {
    title.Some? && filter.Some? && Contains(title.value, filter.value)
  }

  /** The total count of GetListAsync: issues whose title contains a non-blank filter, else all issues. */
  function TotalCount(store: seq<Issue>, filter: NullableString): (n: nat)
    reads store
    ensures n <= |store|
    ensures IsNullOrWhiteSpace(filter) ==> n == |store|
  {
    |WhereIf(store, !IsNullOrWhiteSpace(filter), TitleFilter(filter))|
  }

  /** The lambda `issue => issue.Title.Contains(filter)`. */
  function TitleFilter(filter: NullableString): Expression {
    (i: IssueState) => TitleContains(i.Title, filter)
  }

  /** The positions of the store whose title contains `filter`. */
  ghost function TitleMatchPositions(store: seq<Issue>, filter: string): set<nat>
    reads store
  {
    set k: nat | k < |store| && store[k].Title.Some? && Contains(store[k].Title.value, filter)
  }

  /** With a non-blank filter, the total count is the number of store positions whose title contains it. */
  lemma TotalCountCountsTitleMatches(store: seq<Issue>, filter: NullableString)
    requires !IsNullOrWhiteSpace(filter)
    ensures TotalCount(store, filter) == |TitleMatchPositions(store, filter.value)|
  {
    var p := TitleFilter(filter);
    assert TotalCount(store, filter) == |Where(store, p)|;
    WhereCountsMatchingPositions(store, p);
    assert MatchingPositions(store, p) == TitleMatchPositions(store, filter.value);
  }

  /**
   * GetListAsync: defaults the sort key in the input object, lists the issues of the branch
   * its flags select and counts the issues matching the title filter, whatever the branch.
   */
  method GetListAsync(input: GetIssueListDto, store: seq<Issue>, now: DateTime, getPagedList: PagedListQuery)
    returns (result: Result<PagedResult, Exception>)
    modifies input`Sorting
    ensures input.Sorting == EffectiveSorting(old(input.Sorting))
    ensures var issues := SelectIssues(store, now, input.ShowInActiveIssues, input.MileStoneId,
                                       getPagedList(input.SkipCount, input.MaxResultCount, input.Sorting));
      result == if issues.Failure? then Failure(issues.error)
                else Success(PagedResult(TotalCount(store, input.Filter), issues.value))
  {
    if IsNullOrWhiteSpace(input.Sorting) {
      input.Sorting := Some(DefaultSortKey);
    }

    var issues: seq<Issue> := [];
    if input.ShowInActiveIssues.Some? && input.ShowInActiveIssues.value == true && input.MileStoneId != Empty {
      var expression := ToExpression(And(InActiveIssue, MileStone(input.MileStoneId)), now);
      if expression.Failure? {
        return Failure(expression.error);
      }
      issues := Where(store, expression.value);
    } else if input.ShowInActiveIssues.Some? && input.ShowInActiveIssues.value == false && input.MileStoneId != Empty {
      var expression := ToExpression(MileStone(input.MileStoneId), now);
      issues := Where(store, expression.value);
    } else if input.ShowInActiveIssues.Some? && input.ShowInActiveIssues.value == true {
      var expression := ToExpression(InActiveIssue, now);
      if expression.Failure? {
        return Failure(expression.error);
      }
      issues := Where(store, expression.value);
    } else {
      issues := getPagedList(input.SkipCount, input.MaxResultCount, input.Sorting);
    }

    var totalCount := TotalCount(store, input.Filter);
    result := Success(PagedResult(totalCount, issues));
  }

  /** The state UpdateAsync leaves: SetTitle applied to input.Text, then Text and AssignedUserId copied. */
  function UpdatedState(s: IssueState, input: UpdateIssueDto, setTitle: IssueEffect): (r: IssueState)
    ensures r.Text == input.Text && r.AssignedUserId == input.AssignedUserId
  {
    setTitle(s, input.Text).(Text := input.Text, AssignedUserId := input.AssignedUserId)
  }

  /** The input's Title is never read: two inputs differing only in Title update alike. */
  lemma UpdateIgnoresInputTitle(s: IssueState, input: UpdateIssueDto, title: NullableString, setTitle: IssueEffect)
    ensures UpdatedState(s, input.(Title := title), setTitle) == UpdatedState(s, input, setTitle)
  {
  }

  /** UpdateAsync on the loaded issue: SetTitle(input.Text), then the Text and AssignedUserId assignments. */
  method UpdateAsync(issue: Issue, input: UpdateIssueDto, setTitle: IssueEffect)
    modifies issue
    ensures issue.State() == UpdatedState(old(issue.State()), input, setTitle)
  {
    issue.SetTitle(input.Text, setTitle);
    issue.Text := input.Text;
    issue.AssignedUserId := input.AssignedUserId;
  }
}
