/** The task document schema: required fields, the status and priority
    enumerations with their defaults, and comments. `Validate` is what
    constructing and saving a document does with the values it is given. */
module TaskSchema {
  import opened Common

  datatype Status = Backlog | ToDo | InProgress | Done

  datatype Priority = Low | Medium | High | Urgent

  const DefaultStatus: Status := Backlog

  const DefaultPriority: Priority := Urgent

  function StatusName(s: Status): string {
    match s
    case Backlog => "Backlog"
    case ToDo => "ToDo"
    case InProgress => "InProgress"
    case Done => "Done"
  }

  /** The `enum` check on `status`: only the four names are accepted. */
  function ParseStatus(name: string): (r: Option<Status>)
    ensures r.Some? ==> StatusName(r.value) == name
    ensures (exists s :: StatusName(s) == name) ==> r.Some?
  {
    if name == "Backlog" then Some(Backlog)
    else if name == "ToDo" then Some(ToDo)
    else if name == "InProgress" then Some(InProgress)
    else if name == "Done" then Some(Done)
    else None
  }

  function PriorityName(p: Priority): string {
    match p
    case Low => "Low"
    case Medium => "Medium"
    case High => "High"
    case Urgent => "Urgent"
  }

  /** The `enum` check on `priority`. */
  function ParsePriority(name: string): (r: Option<Priority>)
    ensures r.Some? ==> PriorityName(r.value) == name
    ensures (exists p :: PriorityName(p) == name) ==> r.Some?
  {
    if name == "Low" then Some(Low)
    else if name == "Medium" then Some(Medium)
    else if name == "High" then Some(High)
    else if name == "Urgent" then Some(Urgent)
    else None
  }

  datatype Comment = Comment(user: Option<UserId>, message: string, createdAt: Time)

  /** A task document that passed validation. */
  datatype Task = Task(title: string, description: Option<string>, status: Status, priority: Priority,
                       dueDate: Option<Time>, workspace: GroupId, owner: UserId,
                       assignedTo: Option<UserId>, comments: seq<Comment>)

  /** The values handed to the document constructor; `None` is an absent key. */
  datatype CommentDraft = CommentDraft(user: Option<UserId>, message: Option<string>, createdAt: Option<Time>)

  datatype Draft = Draft(title: Option<string>, description: Option<string>, status: Option<string>,
                         priority: Option<string>, dueDate: Option<Time>, workspace: Option<GroupId>,
                         owner: Option<UserId>, assignedTo: Option<UserId>, comments: seq<CommentDraft>)

  /** What a validated task always satisfies: a required string is non-empty. */
  ghost predicate WellFormed(t: Task) {
    t.title != "" && forall i :: 0 <= i < |t.comments| ==> t.comments[i].message != ""
  }

  /** An absent enum value takes the default; a present one must be a member. */
  predicate StatusAccepted(s: Option<string>) { s.None? || ParseStatus(s.value).Some? }

  predicate PriorityAccepted(p: Option<string>) { p.None? || ParsePriority(p.value).Some? }

  predicate Acceptable(d: Draft) {
    && Truthy(d.title)
    && StatusAccepted(d.status)
    && PriorityAccepted(d.priority)
    && d.workspace.Some?
    && d.owner.Some?
    && forall i :: 0 <= i < |d.comments| ==> Truthy(d.comments[i].message)
  }

  function ValidateComment(c: CommentDraft, now: Time): Comment
    requires Truthy(c.message)
  {
    Comment(c.user, c.message.value, if c.createdAt.Some? then c.createdAt.value else now)
  }

  /** Builds and validates a task document. `now` is the clock reading the
      comment `createdAt` default uses. */
  function Validate(d: Draft, now: Time): (r: Result<Task>)
    ensures r.Ok? <==> Acceptable(d)
    ensures r.Err? ==> r.error == ValidationFailed
    ensures r.Ok? ==> WellFormed(r.value)
    ensures r.Ok? ==> r.value.status == (if d.status.None? then DefaultStatus else ParseStatus(d.status.value).value)
    ensures r.Ok? ==> r.value.priority == (if d.priority.None? then DefaultPriority else ParsePriority(d.priority.value).value)
    ensures r.Ok? ==> Some(r.value.title) == d.title && Some(r.value.workspace) == d.workspace
                      && Some(r.value.owner) == d.owner && r.value.assignedTo == d.assignedTo
                      && r.value.description == d.description && r.value.dueDate == d.dueDate
                      && |r.value.comments| == |d.comments|
    ensures r.Ok? ==> forall i :: 0 <= i < |d.comments| ==>
                        r.value.comments[i] == Comment(d.comments[i].user, d.comments[i].message.value,
                                                       if d.comments[i].createdAt.Some? then d.comments[i].createdAt.value else now)
  {
    if !Acceptable(d) then Err(ValidationFailed)
    else
      Ok(Task(d.title.value, d.description,
              if d.status.None? then DefaultStatus else ParseStatus(d.status.value).value,
              if d.priority.None? then DefaultPriority else ParsePriority(d.priority.value).value,
              d.dueDate, d.workspace.value, d.owner.value, d.assignedTo,
              seq(|d.comments|, i requires 0 <= i < |d.comments| => ValidateComment(d.comments[i], now))))
  }

  /** The constructor values that describe an existing task. */
  function ToDraft(t: Task): Draft {
    Draft(Some(t.title), t.description, Some(StatusName(t.status)), Some(PriorityName(t.priority)),
          t.dueDate, Some(t.workspace), Some(t.owner), t.assignedTo,
          seq(|t.comments|, i requires 0 <= i < |t.comments| =>
                CommentDraft(t.comments[i].user, Some(t.comments[i].message), Some(t.comments[i].createdAt))))
  }

  /** Every well-formed task is reproduced exactly by validating its own values. */
  lemma ValidateRoundTrip(t: Task, now: Time)
    requires WellFormed(t)
    ensures Validate(ToDraft(t), now) == Ok(t)
  {
    var d := ToDraft(t);
    assert ParseStatus(StatusName(t.status)) == Some(t.status);
    assert ParsePriority(PriorityName(t.priority)) == Some(t.priority);
    assert Acceptable(d);
    var r := Validate(d, now).value;
    assert r.comments == t.comments;
  }

  /** The status the task controller defaults to is not one the schema accepts. */
  lemma PendingIsNotAStatus()
    ensures !StatusAccepted(Some("Pending"))
  {
  }
}
