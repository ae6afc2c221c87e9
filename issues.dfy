/**
 * The Issue aggregate and the values it holds: its comments, labels and close reason.
 * Issue's properties are public auto-properties, so the class exposes them as fields;
 * `State()` is the snapshot of those fields that the selection rules are evaluated on.
 */
module Issues {
  import opened Wrappers
  import opened SystemTypes

  /** Why an issue was closed. */
  datatype IssueCloseReason = DueDatePassed | Irrelevant | Solved | OutOfScope | NoBandWith

  /** A comment on an issue: its entity id plus the four properties of the Comment entity. */
  datatype Comment = Comment(
    Id: Guid,
    Text: NullableString,
    CreationTime: DateTime,
    IssueId: Guid,
    UserId: Guid)

  /** IssueLabel is not part of this model; a label is represented by its identifier alone. */
  datatype IssueLabel = IssueLabel(Id: Guid)

  /** The value of every property of an Issue at one moment. */
  datatype IssueState = IssueState(
    Id: Guid,
    RepositoryId: Guid,
    Title: NullableString,
    Text: NullableString,
    AssignedUserId: Option<Guid>,
    IsClosed: bool,
    CloseReason: Option<IssueCloseReason>,
    Labels: Option<seq<IssueLabel>>,
    Comments: Option<seq<Comment>>,
    IsLocked: bool,
    CreationTime: DateTime,
    LastCommentTime: Option<DateTime>,
    MileStoneId: Guid)

  /**
   * What the parameterless constructor leaves behind: every property at its C# default
   * (Guid.Empty, null, false, default(DateTime)) except Comments, which it sets to a new,
   * empty collection. Labels and Comments are settable collections, so either may be null.
   */
  const NewIssueState: IssueState := IssueState(
    Id := Empty,
    RepositoryId := Empty,
    Title := None,
    Text := None,
    AssignedUserId := None,
    IsClosed := false,
    CloseReason := None,
    Labels := None,
    Comments := Some([]),
    IsLocked := false,
    CreationTime := 0,
    LastCommentTime := None,
    MileStoneId := Empty)

  /** The effect of an Issue operation that no modelled file defines, supplied by the caller. */
  type IssueEffect = (IssueState, NullableString) -> IssueState

  class Issue {
    var Id: Guid
    var RepositoryId: Guid
    var Title: NullableString
    var Text: NullableString
    var AssignedUserId: Option<Guid>
    var IsClosed: bool
    var CloseReason: Option<IssueCloseReason>
    var Labels: Option<seq<IssueLabel>>
    var Comments: Option<seq<Comment>>
    var IsLocked: bool
    var CreationTime: DateTime
    var LastCommentTime: Option<DateTime>
    var MileStoneId: Guid

    /** The current value of every property. */
    function State(): IssueState
      reads this
    {
      IssueState(Id, RepositoryId, Title, Text, AssignedUserId, IsClosed, CloseReason,
                 Labels, Comments, IsLocked, CreationTime, LastCommentTime, MileStoneId)
    }

    /** A new issue is open, unassigned, has no close reason and an empty (non-null) comment list. */
    constructor ()
      ensures State() == NewIssueState
      ensures Comments == Some([]) && !IsClosed && CloseReason.None? && AssignedUserId.None?
    {
      Id := Empty;
      RepositoryId := Empty;
      Title := None;
      Text := None;
      AssignedUserId := None;
      IsClosed := false;
      CloseReason := None;
      Labels := None;
      Comments := Some([]);
      IsLocked := false;
      CreationTime := 0;
      LastCommentTime := None;
      MileStoneId := Empty;
    }

    /**
     * SetTitle(title). Its body is not part of this model, so its effect on the issue is
     * the caller-supplied `effect`, applied to the current state and the argument.
     */
    method SetTitle(title: NullableString, effect: IssueEffect)
      modifies this
      ensures State() == effect(old(State()), title)
    {
      var s := effect(State(), title);
      Id := s.Id;
      RepositoryId := s.RepositoryId;
      Title := s.Title;
      Text := s.Text;
      AssignedUserId := s.AssignedUserId;
      IsClosed := s.IsClosed;
      CloseReason := s.CloseReason;
      Labels := s.Labels;
      Comments := s.Comments;
      IsLocked := s.IsLocked;
      CreationTime := s.CreationTime;
      LastCommentTime := s.LastCommentTime;
      MileStoneId := s.MileStoneId;
      assert State() == s;
    }
  }
}
