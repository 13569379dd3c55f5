/** The task controller, with its own field names (`project`, `creator`) and
    its own defaults. The authenticated caller is a plain id; projects are
    the membership groups. */
module TaskController {
  import opened Common
  import opened Seqs
  import opened Sorting
  import Membership
  import TaskSchema

  type Attachment = string

  datatype Task = Task(id: TaskId, title: string, description: Option<string>, status: string,
                       project: GroupId, creator: UserId, assignedTo: Option<UserId>,
                       attachments: Option<seq<Attachment>>, comments: Option<seq<TaskSchema.Comment>>,
                       createdAt: Time)

  /** The request-body fields `createTask` and `updateTask` read; `None` is an absent key. */
  datatype Fields = Fields(title: Option<string>, description: Option<string>, status: Option<string>,
                           assignedTo: Option<UserId>, attachments: Option<seq<Attachment>>,
                           comments: Option<seq<TaskSchema.Comment>>)

  datatype Store = Store(tasks: seq<Task>, projects: Membership.Groups)

  /** The status a task gets when none is supplied. */
  const DefaultStatus: string := "Pending"

  function TaskCreatedAt(t: Task): Time { t.createdAt }

  /** `Task.findById(id)`. */
  function FindTask(ts: seq<Task>, id: TaskId): (r: Option<Task>)
    ensures r.None? <==> forall i :: 0 <= i < |ts| ==> ts[i].id != id
    ensures r.Some? ==> r.value in ts && r.value.id == id
    ensures r.Some? ==> exists i :: 0 <= i < |ts| && ts[i] == r.value && forall j :: 0 <= j < i ==> ts[j].id != id
  {
    FindFirst(ts, (t: Task) => t.id == id)
  }

  /** `createTask`: title and project id first, then the project, then
      membership; the store assigns the fresh `id` and the time `now`. */
  function CreateTask(s: Store, caller: UserId, projectId: Option<GroupId>, f: Fields, id: TaskId, now: Time)
    : (r: Result<(Store, Task)>)
    requires forall i :: 0 <= i < |s.tasks| ==> s.tasks[i].id != id
    ensures r == Err(TitleAndProjectIdRequired) <==> !Truthy(f.title) || projectId.None?
    ensures r == Err(ProjectNotFound) <==> Truthy(f.title) && projectId.Some? && projectId.value !in s.projects
    ensures r == Err(NotProjectMember)
            <==> Truthy(f.title) && projectId.Some? && projectId.value in s.projects
                 && !Membership.ListsMember(s.projects, projectId.value, caller)
    ensures r.Ok? <==> Truthy(f.title) && projectId.Some? && Membership.ListsMember(s.projects, projectId.value, caller)
    ensures r.Ok? ==> var (s', t) := r.value;
              && s'.projects == s.projects && s'.tasks == s.tasks + [t]
              && Membership.ListsMember(s.projects, t.project, caller)
              && Some(t.project) == projectId && t.creator == caller && t.id == id && t.createdAt == now
              && Some(t.title) == f.title && t.title != ""
              && t.status == (if Truthy(f.status) then f.status.value else DefaultStatus)
              && t.description == f.description && t.assignedTo == f.assignedTo
              && t.attachments == f.attachments && t.comments == f.comments
  {
    if !Truthy(f.title) || projectId.None? then Err(TitleAndProjectIdRequired)
    else if projectId.value !in s.projects then Err(ProjectNotFound)
    else if !Membership.ListsMember(s.projects, projectId.value, caller) then Err(NotProjectMember)
    else
      var t := Task(id, f.title.value, f.description,
                    if Truthy(f.status) then f.status.value else DefaultStatus,
                    projectId.value, caller, f.assignedTo, f.attachments, f.comments, now);
      Ok((s.(tasks := s.tasks + [t]), t))
  }

  /** `getTasksByProject`: members only; the project's tasks, newest first. */
  function GetTasksByProject(s: Store, caller: UserId, pid: GroupId): (r: Result<seq<Task>>)
    ensures r == Err(ProjectNotFound) <==> pid !in s.projects
    ensures r == Err(NotProjectMember) <==> pid in s.projects && !Membership.ListsMember(s.projects, pid, caller)
    ensures r.Ok? <==> Membership.ListsMember(s.projects, pid, caller)
    ensures r.Ok? ==> SortedDesc(r.value, TaskCreatedAt)
    ensures r.Ok? ==> forall t :: multiset(r.value)[t] == if t.project == pid then multiset(s.tasks)[t] else 0
  {
    if pid !in s.projects then Err(ProjectNotFound)
    else if !Membership.ListsMember(s.projects, pid, caller) then Err(NotProjectMember)
    else Ok(SortDesc(Filter(s.tasks, (t: Task) => t.project == pid), TaskCreatedAt))
  }

  /** `getTaskById`: unknown task, then missing project, then non-member. */
  function GetTaskById(s: Store, caller: UserId, tid: TaskId): (r: Result<Task>)
    ensures r == Err(TaskNotFound) <==> FindTask(s.tasks, tid).None?
    ensures r == Err(AssociatedProjectNotFound)
            <==> FindTask(s.tasks, tid).Some? && FindTask(s.tasks, tid).value.project !in s.projects
    ensures r == Err(NotProjectMember)
            <==> FindTask(s.tasks, tid).Some? && FindTask(s.tasks, tid).value.project in s.projects
                 && !Membership.ListsMember(s.projects, FindTask(s.tasks, tid).value.project, caller)
    ensures r.Ok? <==> FindTask(s.tasks, tid).Some? && Membership.ListsMember(s.projects, FindTask(s.tasks, tid).value.project, caller)
    ensures r.Ok? ==> r.value in s.tasks && r.value.id == tid
  {
    var found := FindTask(s.tasks, tid);
    if found.None? then Err(TaskNotFound)
    else if found.value.project !in s.projects then Err(AssociatedProjectNotFound)
    else if !Membership.ListsMember(s.projects, found.value.project, caller) then Err(NotProjectMember)
    else Ok(found.value)
  }

  /** The permission `updateTask` and `deleteTask` share: the creator, or a
      member of the task's project. */
  predicate MayModify(projects: Membership.Groups, t: Task, u: UserId) {
    t.creator == u || Membership.ListsMember(projects, t.project, u)
  }

  /** The update: a field is replaced only by a truthy value. Strings are
      truthy when non-empty; ids and arrays (even empty ones) when present. */
  function Merge(t: Task, f: Fields): (r: Task)
    ensures r.id == t.id && r.project == t.project && r.creator == t.creator && r.createdAt == t.createdAt
    ensures Truthy(f.title) ==> Some(r.title) == f.title
    ensures !Truthy(f.title) ==> r.title == t.title
    ensures Truthy(f.status) ==> Some(r.status) == f.status
    ensures !Truthy(f.status) ==> r.status == t.status
    ensures r.description == if Truthy(f.description) then f.description else t.description
    ensures r.assignedTo == if f.assignedTo.Some? then f.assignedTo else t.assignedTo
    ensures r.attachments == if f.attachments.Some? then f.attachments else t.attachments
    ensures r.comments == if f.comments.Some? then f.comments else t.comments
  {
    t.(title := if Truthy(f.title) then f.title.value else t.title,
       description := if Truthy(f.description) then f.description else t.description,
       status := if Truthy(f.status) then f.status.value else t.status,
       assignedTo := if f.assignedTo.Some? then f.assignedTo else t.assignedTo,
       attachments := if f.attachments.Some? then f.attachments else t.attachments,
       comments := if f.comments.Some? then f.comments else t.comments)
  }

  /** No field in the request is truthy: nothing changes. */
  predicate NothingTruthy(f: Fields) {
    !Truthy(f.title) && !Truthy(f.description) && !Truthy(f.status)
    && f.assignedTo.None? && f.attachments.None? && f.comments.None?
  }

  lemma MergeWithoutTruthyFieldsIsIdentity(t: Task, f: Fields)
    requires NothingTruthy(f)
    ensures Merge(t, f) == t
  {
  }

  /** Applying the same update twice is applying it once. */
  lemma MergeIdempotent(t: Task, f: Fields)
    ensures Merge(Merge(t, f), f) == Merge(t, f)
  {
  }

  /** `updateTask`: unknown task, missing project, then the permission; the
      merged task replaces the stored one in place. */
  function UpdateTask(s: Store, caller: UserId, tid: TaskId, f: Fields): (r: Result<(Store, Task)>)
    ensures r == Err(TaskNotFound) <==> FindTask(s.tasks, tid).None?
    ensures r == Err(AssociatedProjectNotFound)
            <==> FindTask(s.tasks, tid).Some? && FindTask(s.tasks, tid).value.project !in s.projects
    ensures r == Err(NotAllowedToUpdate)
            <==> FindTask(s.tasks, tid).Some? && FindTask(s.tasks, tid).value.project in s.projects
                 && !MayModify(s.projects, FindTask(s.tasks, tid).value, caller)
    ensures r.Ok? ==> var (s', t) := r.value;
              && FindTask(s.tasks, tid).Some?
              && t == Merge(FindTask(s.tasks, tid).value, f)
              && s'.projects == s.projects
              && |s'.tasks| == |s.tasks|
              && forall i :: 0 <= i < |s.tasks| ==> s'.tasks[i] == if s.tasks[i].id == tid then t else s.tasks[i]
  {
    var found := FindTask(s.tasks, tid);
    if found.None? then Err(TaskNotFound)
    else if found.value.project !in s.projects then Err(AssociatedProjectNotFound)
    else if !MayModify(s.projects, found.value, caller) then Err(NotAllowedToUpdate)
    else
      var t := Merge(found.value, f);
      Ok((s.(tasks := ReplaceWhere(s.tasks, (x: Task) => x.id == tid, t)), t))
  }

  /** `deleteTask`: the same checks as the update; then the task is removed
      and every other task kept. */
  function DeleteTask(s: Store, caller: UserId, tid: TaskId): (r: Result<Store>)
    ensures r == Err(TaskNotFound) <==> FindTask(s.tasks, tid).None?
    ensures r == Err(AssociatedProjectNotFound)
            <==> FindTask(s.tasks, tid).Some? && FindTask(s.tasks, tid).value.project !in s.projects
    ensures r == Err(NotAllowedToDelete)
            <==> FindTask(s.tasks, tid).Some? && FindTask(s.tasks, tid).value.project in s.projects
                 && !MayModify(s.projects, FindTask(s.tasks, tid).value, caller)
    ensures r.Ok? ==> r.value.projects == s.projects
    ensures r.Ok? ==> forall t :: multiset(r.value.tasks)[t] == if t.id == tid then 0 else multiset(s.tasks)[t]
  {
    var found := FindTask(s.tasks, tid);
    if found.None? then Err(TaskNotFound)
    else if found.value.project !in s.projects then Err(AssociatedProjectNotFound)
    else if !MayModify(s.projects, found.value, caller) then Err(NotAllowedToDelete)
    else Ok(s.(tasks := Filter(s.tasks, (x: Task) => x.id != tid)))
  }

  /** Update and delete are permitted to exactly the same callers, and both
      exactly when the caller created the task or belongs to its project. */
  lemma UpdateAndDeleteSharePermission(s: Store, caller: UserId, tid: TaskId, f: Fields)
    ensures UpdateTask(s, caller, tid, f).Ok? <==> DeleteTask(s, caller, tid).Ok?
    ensures DeleteTask(s, caller, tid).Ok?
            <==> FindTask(s.tasks, tid).Some? && FindTask(s.tasks, tid).value.project in s.projects
                 && MayModify(s.projects, FindTask(s.tasks, tid).value, caller)
  {
  }

  /** Whoever may read a task may also change it; the converse fails for a
      creator who is not a member of the task's project. */
  lemma ReadImpliesModify(s: Store, caller: UserId, tid: TaskId, f: Fields)
    ensures GetTaskById(s, caller, tid).Ok? ==> UpdateTask(s, caller, tid, f).Ok?
    ensures (FindTask(s.tasks, tid).Some? && FindTask(s.tasks, tid).value.project in s.projects
             && FindTask(s.tasks, tid).value.creator == caller
             && !Membership.ListsMember(s.projects, FindTask(s.tasks, tid).value.project, caller))
            ==> UpdateTask(s, caller, tid, f).Ok? && GetTaskById(s, caller, tid) == Err(NotProjectMember)
  {
  }

  /** After a successful update, looking the task up again finds the merged task. */
  lemma UpdatedTaskIsFound(s: Store, caller: UserId, tid: TaskId, f: Fields)
    requires UpdateTask(s, caller, tid, f).Ok?
    ensures FindTask(UpdateTask(s, caller, tid, f).value.0.tasks, tid)
            == Some(Merge(FindTask(s.tasks, tid).value, f))
  {
    var (s', t) := UpdateTask(s, caller, tid, f).value;
    var before := FindTask(s.tasks, tid).value;
    var i :| 0 <= i < |s.tasks| && s.tasks[i] == before && forall j :: 0 <= j < i ==> s.tasks[j].id != tid;
    assert s'.tasks[i] == t;
    var r := FindTask(s'.tasks, tid);
    assert r.Some?;
    var k :| 0 <= k < |s'.tasks| && s'.tasks[k] == r.value && r.value.id == tid
             && forall j :: 0 <= j < k ==> s'.tasks[j].id != tid;
    assert k == i;
  }

  /** A task created by a member is listed, among its project's tasks, to
      every member of that project. */
  lemma CreatedTaskIsListed(s: Store, caller: UserId, projectId: Option<GroupId>, f: Fields, id: TaskId,
                            now: Time, reader: UserId)
    requires forall i :: 0 <= i < |s.tasks| ==> s.tasks[i].id != id
    requires CreateTask(s, caller, projectId, f, id, now).Ok?
    requires Membership.ListsMember(s.projects, projectId.value, reader)
    ensures var (s', t) := CreateTask(s, caller, projectId, f, id, now).value;
            GetTasksByProject(s', reader, t.project).Ok? && t in GetTasksByProject(s', reader, t.project).value
  {
    var (s', t) := CreateTask(s, caller, projectId, f, id, now).value;
    var r := GetTasksByProject(s', reader, t.project).value;
    assert t in s'.tasks;
    assert multiset(r)[t] == multiset(s'.tasks)[t] > 0;
  }
}
