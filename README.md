# Issue selection rules of the IssueTracking application

This Dafny project models the issue-selection core of a small issue tracker. It covers:

- the **Issue** aggregate, with its properties and constructor defaults;
- the three **specifications** that select issues (inactive issues, issues of a milestone,
  open issues of a user) and their `And` combination;
- the **inactive-issue query** that both repository classes implement with an inline filter;
- the **open-issue count** of a user;
- the **issue list** of the application service: a sort-key default, a four-way choice
  of filter and a title-filtered total count. It also covers the **update** of an issue's
  text and assignee.

## How the model is built

- `Issues.Issue` is a class with one field per property. These are the properties of
  `Issue.cs`, plus `IsLocked`, `CreationTime`, `LastCommentTime` and `MileStoneId`
  (taken from `IssueDto`), plus the entity `Id`. `State()` is the snapshot of the fields
  that the predicates are evaluated on.
- The issue store is a `seq<Issue>`. `Queryable.Where` is LINQ's `Where`: it keeps, in
  store order, the issues whose state satisfies an expression. The store order stands in
  for the database's, which a query without `OrderBy` does not define. Membership is by object identity.
- A specification is a variant of `Specifications.Specification`. `ToExpression` turns it
  into a predicate over issue states, and `And` is conjunction.
- The clock is a parameter. `now` stands for the single `DateTime.Now` reading taken when
  the inactivity expression (or the repository query) is built.
- `DateTime` is a tick count in `[0, DateTime.MaxValue.Ticks]`. `TimeSpan` is a signed tick
  count. `now.Subtract(30 days)` fails with `ArgumentOutOfRange` for the first 30 days of
  the calendar, as `DateTime.Subtract` throws there. This failure propagates through every
  query that uses the inactivity rule.
- `Guid` is a 128-bit number, and `Guid.Empty` is 0. Nullable values and strings are `Option`s.
- `string.IsNullOrWhiteSpace` uses the character set of `char.IsWhiteSpace`.
- `string.Contains` is an ordinal substring test.

Things the code does that readers should know about:

- `UpdateAsync` passes `input.Text`, not `input.Title`, to `SetTitle`. So `UpdateAsync`
  itself never reads the input's `Title` (`UpdateIgnoresInputTitle`), although its caller
  must still supply a non-blank one, because `UpdateIssueDto.Title` is `[Required]`.
  The model keeps this as written.
- `UserIssueService` calls `GetIssuesAsync(specification)`, which the repository interface
  shown does not declare. The model reads it as the store filtered by the specification.
- `SetTitle` is called but no file defines it. The model leaves its effect on the issue to
  a caller-supplied function and invents no guard for it.
- The title filter of the total count is evaluated by the database. A null title therefore
  never matches, where in-memory C# would throw.

## Model

| member | source | states |
|---|---|---|
| `SystemTypes.Subtract` | IssueTracking/src/IssueTracking.Domain/Issues/InActiveIssueSpecification.cs:11 | the result is the instant minus the span, and the call fails with ArgumentOutOfRange exactly when that leaves the DateTime range |
| `SystemTypes.FromDays` | IssueTracking/src/IssueTracking.Domain/Issues/InActiveIssueSpecification.cs:11 | a span of whole days is that many days of ticks, positive for a positive count |
| `SystemTypes.IsNullOrWhiteSpace` | IssueTracking/src/IssueTracking.Application/IssueAppService.cs:48 | a string is blank iff it is null or each of its characters is a `char.IsWhiteSpace` character; EffectiveSorting and TotalCount state what the two calls do with it |
| `SystemTypes.ContainsIffOccursAt` | IssueTracking/src/IssueTracking.Application/IssueAppService.cs:75 | `Contains(s, v)` holds iff `v` is a prefix of some suffix of `s` |
| `SystemTypes.Contains` | IssueTracking/src/IssueTracking.Application/IssueAppService.cs:75 | the ordinal substring test; its meaning is stated by ContainsIffOccursAt |
| `Issues.Issue.constructor` | IssueTracking/src/IssueTracking.Domain/Issues/Issue.cs:11-22 | a new issue has every property at its default: open, unlocked, unassigned, no close reason, null labels, an empty comment list, milestone Guid.Empty |
| `Issues.Issue.SetTitle` | IssueTracking/src/IssueTracking.Application/IssueAppService.cs:91 | the issue's new state is the given effect applied to its old state and the argument |
| `Queryable.Where` | IssueTracking/src/IssueTracking.EntityFrameworkCore/Issues/EfCoreIssueRepository.cs:23-37 | every result is a store issue satisfying the predicate; every satisfying store issue is in the result; the result is no longer than the store |
| `Queryable.WhereIf` | IssueTracking/src/IssueTracking.Application/IssueAppService.cs:75 | with a false condition the store is returned whole, with a true one it is filtered |
| `Queryable.WhereCountsMatchingPositions` | IssueTracking/src/IssueTracking.Domain/Issues/UserIssueService.cs:20 | the length of a filtered store equals the number of store positions whose issue satisfies the predicate |
| `Queryable.WhereAppend` | IssueTracking/src/IssueTracking.Domain/Issues/UserIssueService.cs:20 | filtering a store with one issue appended gives the old result, followed by that issue when it matches |
| `Queryable.WhereConjunction` | IssueTracking/src/IssueTracking.Application/IssueAppService.cs:56-58 | filtering by a conjunction equals filtering by one conjunct and then the other |
| `InActiveIssueSpecification.DaysAgo30` | IssueTracking/src/IssueTracking.Domain/Issues/InActiveIssueSpecification.cs:11 | the cutoff is exactly now minus 30 days and lies before now; it fails iff now is less than 30 days after DateTime.MinValue |
| `InActiveIssueSpecification.IsInActive` | IssueTracking/src/IssueTracking.Domain/Issues/InActiveIssueSpecification.cs:13-21 | the four clauses of the lambda against a given cutoff; its meaning at a clock reading is stated by InActiveAtIffFourClauses, ClosedIsNeverInActive, AssignedIsNeverInActive, CreatedAtCutoffIsNotInActive and CommentClause |
| `InActiveIssueSpecification.ToExpression` | IssueTracking/src/IssueTracking.Domain/Issues/InActiveIssueSpecification.cs:9-22 | building the expression succeeds iff the cutoff can be formed |
| `InActiveIssueSpecification.InActiveAtIffFourClauses` | IssueTracking/src/IssueTracking.Domain/Issues/InActiveIssueSpecification.cs:13-21 | inactive iff not closed, no assignee, created strictly before now minus 30 days, and no last comment or one strictly before that cutoff |
| `InActiveIssueSpecification.ClosedIsNeverInActive` | IssueTracking/src/IssueTracking.Domain/Issues/InActiveIssueSpecification.cs:15 | a closed issue is never inactive |
| `InActiveIssueSpecification.AssignedIsNeverInActive` | IssueTracking/src/IssueTracking.Domain/Issues/InActiveIssueSpecification.cs:17 | an issue with an assigned user is never inactive |
| `InActiveIssueSpecification.CreatedAtCutoffIsNotInActive` | IssueTracking/src/IssueTracking.Domain/Issues/InActiveIssueSpecification.cs:11-19 | the comparison is strict: an issue created exactly 30 days before now is not inactive |
| `InActiveIssueSpecification.CommentClause` | IssueTracking/src/IssueTracking.Domain/Issues/InActiveIssueSpecification.cs:21 | with no last comment, inactivity is decided by the other three clauses; a last comment at or after the cutoff makes the issue active |
| `InActiveIssueSpecification.InActiveIsMonotoneInNow` | IssueTracking/src/IssueTracking.Domain/Issues/InActiveIssueSpecification.cs:11-21 | an issue inactive at some instant is inactive at every later instant |
| `InActiveIssueSpecification.StaleIssueExample` | IssueTracking/src/IssueTracking.Domain/Issues/InActiveIssueSpecification.cs:13-21 | an open, unassigned, uncommented issue created 45 days ago is inactive; with a comment from 10 days ago it is not |
| `MileStoneSpecification.ToExpression` | IssueTracking/src/IssueTracking.Domain/Issues/MileStoneSpecification.cs:16-19 | the milestone rule as a predicate over issue states; its meaning is stated by HoldsIffSameMileStone, DistinctMileStonesAreDisjoint and DependsOnlyOnMileStone |
| `MileStoneSpecification.HoldsIffSameMileStone` | IssueTracking/src/IssueTracking.Domain/Issues/MileStoneSpecification.cs:18 | the rule holds iff the issue's milestone equals the id the specification was built with |
| `MileStoneSpecification.DistinctMileStonesAreDisjoint` | IssueTracking/src/IssueTracking.Domain/Issues/MileStoneSpecification.cs:18 | no issue satisfies the specifications of two different milestones |
| `MileStoneSpecification.DependsOnlyOnMileStone` | IssueTracking/src/IssueTracking.Domain/Issues/MileStoneSpecification.cs:18 | two issues with the same milestone get the same answer, whatever their other properties |
| `OpenIssueSpecification.ToExpression` | IssueTracking/src/IssueTracking.Domain/Issues/OpenIssueSpecification.cs:16-19 | the open-issues-of-user rule as a predicate over issue states; its meaning is stated by HoldsIffOpenAndAssignedTo, ExcludedIssues and DisjointFromInActive |
| `OpenIssueSpecification.HoldsIffOpenAndAssignedTo` | IssueTracking/src/IssueTracking.Domain/Issues/OpenIssueSpecification.cs:18 | the rule holds iff the issue is open and assigned to the given user |
| `OpenIssueSpecification.ExcludedIssues` | IssueTracking/src/IssueTracking.Domain/Issues/OpenIssueSpecification.cs:18 | closed issues, unassigned issues and issues of another user never satisfy the rule |
| `OpenIssueSpecification.DisjointFromInActive` | IssueTracking/src/IssueTracking.Domain/Issues/OpenIssueSpecification.cs:18 | an open issue of a user is never inactive |
| `Specifications.ToExpression` | IssueTracking/src/IssueTracking.Application/IssueAppService.cs:56-58 | building a (combined) expression fails iff it contains the inactivity rule and the cutoff cannot be formed |
| `Specifications.IsSatisfiedBy` | IssueTracking/src/IssueTracking.Application/IssueAppService.cs:56-58 | an issue satisfies a specification at a clock reading iff its expression can be built and holds of the issue; its meaning per variant is stated by AndIsConjunction, AndIsCommutative, InActiveIssueIsInActivity, MileStoneIsMileStoneEquality and OpenIssuesOfUserIsOpenAndAssigned |
| `Specifications.AndIsConjunction` | IssueTracking/src/IssueTracking.Application/IssueAppService.cs:57-58 | an `And` specification holds iff both operands hold |
| `Specifications.AndIsCommutative` | IssueTracking/src/IssueTracking.Application/IssueAppService.cs:57-58 | swapping the operands of `And` does not change the result |
| `Specifications.InActiveIssueIsInActivity` | IssueTracking/src/IssueTracking.Domain/Issues/InActiveIssueSpecification.cs:7-22 | the inactivity variant holds exactly of the inactive issues |
| `Specifications.MileStoneIsMileStoneEquality` | IssueTracking/src/IssueTracking.Domain/Issues/MileStoneSpecification.cs:9-19 | the milestone variant keeps the id it was built with and holds exactly of the issues in that milestone |
| `Specifications.OpenIssuesOfUserIsOpenAndAssigned` | IssueTracking/src/IssueTracking.Domain/Issues/OpenIssueSpecification.cs:9-19 | the open-issues variant keeps the user id it was built with and holds exactly of that user's open issues |
| `EfCoreIssueRepository.GetInActiveIssues` | IssueTracking/src/IssueTracking.EntityFrameworkCore/Issues/EfCoreIssueRepository.cs:18-38 | fails iff 30 days cannot be subtracted from now; otherwise an issue is returned iff it is in the store and meets the four clauses; every result is open and unassigned; no more results than store issues |
| `EfCoreIssueRepository.CoincidesWithSpecification` | IssueTracking/src/IssueTracking.EntityFrameworkCore/Issues/EfCoreIssueRepository.cs:21-35 | for the same now, the repository query returns exactly what filtering the store by the inactivity specification returns |
| `IssueRepository.GetInActiveIssues` | IssueTracking/src/IssueTracking.EntityFrameworkCore/Issues/IssueRepository.cs:19-38 | fails iff 30 days cannot be subtracted from now; otherwise returns only store issues, each open and unassigned, at most as many as the store holds |
| `IssueRepository.SameAsEfCoreIssueRepository` | IssueTracking/src/IssueTracking.EntityFrameworkCore/Issues/IssueRepository.cs:19-38 | for the same store and now, both repository classes return the same issues (in the model's store order, which the program does not define) |
| `UserIssueService.GetOpenIssueCount` | IssueTracking/src/IssueTracking.Domain/Issues/UserIssueService.cs:18-21 | the count is at most the store size and 0 for an empty store |
| `UserIssueService.CountsOpenIssuesOfUser` | IssueTracking/src/IssueTracking.Domain/Issues/UserIssueService.cs:20 | the count equals the number of store positions holding an open issue assigned to the user |
| `UserIssueService.AppendOne` | IssueTracking/src/IssueTracking.Domain/Issues/UserIssueService.cs:20 | storing one more issue raises the count by 1 if it is open and assigned to the user, by 0 otherwise |
| `UserIssueService.ClosedIssuesDoNotCount` | IssueTracking/src/IssueTracking.Domain/Issues/UserIssueService.cs:20 | dropping every closed issue from the store leaves the count unchanged |
| `IssueAppService.EffectiveSorting` | IssueTracking/src/IssueTracking.Application/IssueAppService.cs:48-51 | a null or white-space sort key becomes "Title"; any other key is kept; the result is never blank |
| `IssueAppService.EffectiveSortingIsIdempotent` | IssueTracking/src/IssueTracking.Application/IssueAppService.cs:48-51 | applying the default a second time changes nothing |
| `IssueAppService.SelectBranch` | IssueTracking/src/IssueTracking.Application/IssueAppService.cs:54-73 | each of the four branches is taken exactly under its own condition on ShowInActiveIssues and MileStoneId; a null flag, or false with an empty milestone, takes the paged list |
| `IssueAppService.BranchSpecification` | IssueTracking/src/IssueTracking.Application/IssueAppService.cs:56-68 | the paged-list branch, and only it, applies no specification; a branch's specification reads the clock iff the branch shows inactive issues; every issue satisfying the specification of a milestone branch is in that milestone |
| `IssueAppService.SelectIssues` | IssueTracking/src/IssueTracking.Application/IssueAppService.cs:53-73 | true with a milestone lists exactly the store issues that are inactive and in it; false with a milestone lists exactly those in it; true without one lists exactly the inactive ones; otherwise the paged list; the inactive branches fail iff the cutoff cannot be formed |
| `IssueAppService.InActiveInMileStoneExpression` | IssueTracking/src/IssueTracking.Application/IssueAppService.cs:56-58 | the combined expression of the first branch is inactivity at now together with milestone equality |
| `IssueAppService.TitleContains` | IssueTracking/src/IssueTracking.Application/IssueAppService.cs:75 | the title test of the count's lambda: a null title never matches; its meaning is stated by TotalCountCountsTitleMatches and ContainsIffOccursAt |
| `IssueAppService.TitleFilter` | IssueTracking/src/IssueTracking.Application/IssueAppService.cs:75 | the lambda `issue => issue.Title.Contains(input.Filter)` as an expression over issue states; its meaning is stated by TotalCountCountsTitleMatches and ContainsIffOccursAt |
| `IssueAppService.TotalCount` | IssueTracking/src/IssueTracking.Application/IssueAppService.cs:75 | with a blank filter the total is the store size, and it never exceeds the store size |
| `IssueAppService.TotalCountCountsTitleMatches` | IssueTracking/src/IssueTracking.Application/IssueAppService.cs:75 | with a non-blank filter the total is the number of store issues whose title contains the filter |
| `IssueAppService.GetListAsync` | IssueTracking/src/IssueTracking.Application/IssueAppService.cs:46-80 | the input's sort key is replaced by its default and nothing else in it changes; the result carries the branch's issues and a total count that does not depend on the branch; a failed cutoff fails the call after the sort key was already replaced |
| `IssueAppService.UpdatedState` | IssueTracking/src/IssueTracking.Application/IssueAppService.cs:91-93 | after the update, Text and AssignedUserId equal the input's |
| `IssueAppService.UpdateIgnoresInputTitle` | IssueTracking/src/IssueTracking.Application/IssueAppService.cs:91 | SetTitle receives input.Text, so two validated inputs that differ only in Title update an issue alike |
| `IssueAppService.UpdateAsync` | IssueTracking/src/IssueTracking.Application/IssueAppService.cs:87-96 | the issue's new state is SetTitle(input.Text) applied to the old state, then Text and AssignedUserId set from the input |

## Left out

- Issue lifecycle operations (`Close`, `ReOpen`, `Lock`, `Unlock`, `SetTitle`, `AddComment`, `IsInActive`, `SetMileStoneId`, `AssignToAsync`): the application service and the data seeder call them, but no modelled file defines them. Only `SetTitle` is needed, by `UpdateAsync`, and it is an uninterpreted effect.
- The `Specification<T>` base class and its `And` are library code. `And` is modelled as conjunction only, and always over the same clock reading.
- `GetPagedListAsync` (paging and sorting by a dynamic key) is library behaviour. Its result is a caller-supplied function of skip count, page size and sort key.
- `CreateAsync`, `GetAsync`, `DeleteAsync`, `CreateCommentAsync`, `CloseAsync`, `ReOpenAsync`, `LockAsync`, `UnlockAsync` and `AssingToAsync` of the application service either call the undefined lifecycle operations or only forward to the repository.
- Loading the issue by id in `UpdateAsync`, and saving it afterwards, are persistence. `UpdateAsync` takes the loaded issue.
- EF Core persistence, `IncludeDetails`, async tasks and the object mapping to `IssueDto`: these are framework plumbing. Results are the issue entities themselves.
- The older `Issues/IssueAppService.cs`, the Blazor pages, permissions, modules, startup and data seeding are UI and wiring outside the selection rules.
- Reading the wall clock: `now` is a parameter.
- `TotalCount`: database collation is not modelled. Under a case-insensitive collation the store's `Contains` would match more titles than the ordinal test does.
- `Issues.Issue.constructor`: the entity's framework-managed properties (concurrency stamp, extra properties) are not modelled. `Labels` and `Comments` are nullable sequence values, so aliasing of the collection objects is not captured.
- Property setters: assigning one auto-property is a Dafny field assignment, which changes no other field. `UpdateAsync`'s postcondition relies on this. No separate member states it.
- `IssueLabel` is not part of this model. A label is represented by its identifier.
- `SystemTypes.FromDays`: only whole numbers of days are modelled, and `TimeSpan` is an unbounded integer rather than a 64-bit tick count; `TimeSpan.FromDays` throws `OverflowException` above 10675199 days, which the model does not. The code calls it only with 30.
- `Issues.Issue.SetTitle`: its effect is assumed to return normally. If the real `SetTitle` threw, `UpdateAsync` would stop before setting Text and AssignedUserId; the contracts of `UpdateAsync` and `UpdatedState` cover only the normal return.
- `IssueAppService.GetListAsync`: `GetPagedListAsync` is assumed to return normally. A sort key that names no property would make it throw in the paged-list branch; the model's paged list is always a value.
- `UserIssueService.GetOpenIssueCount`, `IssueAppService.TotalCount`: counts are unbounded `nat`s, where `List.Count` and `CountAsync` are 32-bit `int`s. A store of more than 2147483647 matching issues is not modelled.
- `IssueAppService.UpdateAsync`: the `[Required]` validation of `UpdateIssueDto.Title` is framework behaviour that runs before the method; the model assumes validated input and does not represent the rejection of a null or blank Title.
- `Queryable.Where`: the database returns the rows of a query without `OrderBy` in no defined order. The model fixes the store's order, so an equality of result sequences in the model (`WhereAppend`, `SameAsEfCoreIssueRepository`, `CoincidesWithSpecification`) corresponds to equal multisets of issues in the program.
