/** The task service, with its own field name (`projectId`): every check is
    membership of the task's project, and an update assigns every supplied
    field. The caller is a plain id; projects are the membership groups. */
module TaskService {
  import opened Common
  import opened Seqs
  import Membership

  datatype Task = Task(id: TaskId, projectId: GroupId, title: string, description: Option<string>,
                       status: Option<string>, priority: Option<string>, dueDate: Option<Time>,
                       assignedTo: Option<UserId>)

  /** The `taskData` / `updatedData` object; `None` is an absent key and
      `Some(v)` a present one, whatever `v` is. */
  datatype Input = Input(projectId: Option<GroupId>, title: Option<string>, description: Option<string>,
                         status: Option<string>, priority: Option<string>, dueDate: Option<Time>,
                         assignedTo: Option<UserId>)

  datatype Store = Store(tasks: seq<Task>, projects: Membership.Groups)

  /** `Task.findById(id)` on the service's task documents: the same
      first-match lookup as `TaskController.FindTask`, over this layer's own
      task shape (`projectId` instead of `project`). */
  function FindTask(ts: seq<Task>, id: TaskId): (r: Option<Task>)
    ensures r.None? <==> forall i :: 0 <= i < |ts| ==> ts[i].id != id
    ensures r.Some? ==> r.value in ts && r.value.id == id
    ensures r.Some? ==> exists i :: 0 <= i < |ts| && ts[i] == r.value && forall j :: 0 <= j < i ==> ts[j].id != id
  {
    FindFirst(ts, (t: Task) => t.id == id)
  }

  /** `getTasksForProject`: unknown project, then non-member; otherwise the
      tasks whose `projectId` matches, in store order. */
  function GetTasksForProject(s: Store, caller: UserId, pid: GroupId): (r: Result<seq<Task>>)
    ensures r == Err(ProjectNotFound) <==> pid !in s.projects
    ensures r == Err(AccessDenied) <==> pid in s.projects && caller !in s.projects[pid].members
    ensures r.Ok? <==> Membership.ListsMember(s.projects, pid, caller)
    ensures r.Ok? ==> forall t :: multiset(r.value)[t] == if t.projectId == pid then multiset(s.tasks)[t] else 0
  {
    if pid !in s.projects then Err(ProjectNotFound)
    else if caller !in s.projects[pid].members then Err(AccessDenied)
    else Ok(Filter(s.tasks, (t: Task) => t.projectId == pid))
  }

  /** `getTaskByIdAndValidateAccess`: unknown task; then one error for a
      missing project and for a non-member alike. */
  function GetTaskByIdAndValidateAccess(s: Store, caller: UserId, tid: TaskId): (r: Result<Task>)
    ensures r == Err(TaskNotFound) <==> FindTask(s.tasks, tid).None?
    ensures r == Err(AccessDenied)
            <==> FindTask(s.tasks, tid).Some? && !Membership.ListsMember(s.projects, FindTask(s.tasks, tid).value.projectId, caller)
    ensures r.Ok? ==> r.value in s.tasks && r.value.id == tid && Membership.ListsMember(s.projects, r.value.projectId, caller)
  {
    var found := FindTask(s.tasks, tid);
    if found.None? then Err(TaskNotFound)
    else if !Membership.ListsMember(s.projects, found.value.projectId, caller) then Err(AccessDenied)
    else Ok(found.value)
  }

  /** `createTask`: title and project first, then access; the new task
      carries exactly the supplied fields. The store assigns the fresh `id`. */
  function CreateTask(s: Store, caller: UserId, d: Input, id: TaskId): (r: Result<(Store, Task)>)
    requires forall i :: 0 <= i < |s.tasks| ==> s.tasks[i].id != id
    ensures r == Err(TitleAndProjectRequired) <==> !Truthy(d.title) || d.projectId.None?
    ensures r == Err(AccessDenied) <==> Truthy(d.title) && d.projectId.Some? && !Membership.ListsMember(s.projects, d.projectId.value, caller)
    ensures r.Ok? <==> Truthy(d.title) && d.projectId.Some? && Membership.ListsMember(s.projects, d.projectId.value, caller)
    ensures r.Ok? ==> var (s', t) := r.value;
              && s'.projects == s.projects && s'.tasks == s.tasks + [t]
              && Membership.ListsMember(s.projects, t.projectId, caller)
              && t.id == id && Some(t.projectId) == d.projectId && Some(t.title) == d.title
              && t.description == d.description && t.status == d.status && t.priority == d.priority
              && t.dueDate == d.dueDate && t.assignedTo == d.assignedTo
  {
    if !Truthy(d.title) || d.projectId.None? then Err(TitleAndProjectRequired)
    else if !Membership.ListsMember(s.projects, d.projectId.value, caller) then Err(AccessDenied)
    else
      var t := Task(id, d.projectId.value, d.title.value, d.description, d.status, d.priority, d.dueDate, d.assignedTo);
      Ok((s.(tasks := s.tasks + [t]), t))
  }

  /** `Object.assign(task, updatedData)`: every present key overwrites, falsy
      or not; absent keys keep their value. */
  function Assign(t: Task, d: Input): (r: Task)
    ensures r.id == t.id
    ensures d.projectId.Some? ==> r.projectId == d.projectId.value
    ensures d.projectId.None? ==> r.projectId == t.projectId
    ensures d.title.Some? ==> r.title == d.title.value
    ensures d.title.None? ==> r.title == t.title
    ensures r.description == if d.description.Some? then d.description else t.description
    ensures r.status == if d.status.Some? then d.status else t.status
    ensures r.priority == if d.priority.Some? then d.priority else t.priority
    ensures r.dueDate == if d.dueDate.Some? then d.dueDate else t.dueDate
    ensures r.assignedTo == if d.assignedTo.Some? then d.assignedTo else t.assignedTo
  {
    Task(t.id,
         if d.projectId.Some? then d.projectId.value else t.projectId,
         if d.title.Some? then d.title.value else t.title,
         if d.description.Some? then d.description else t.description,
         if d.status.Some? then d.status else t.status,
         if d.priority.Some? then d.priority else t.priority,
         if d.dueDate.Some? then d.dueDate else t.dueDate,
         if d.assignedTo.Some? then d.assignedTo else t.assignedTo)
  }

  const NoKeys: Input := Input(None, None, None, None, None, None, None)

  lemma AssignNothingIsIdentity(t: Task)
    ensures Assign(t, NoKeys) == t
  {
  }

  lemma AssignIdempotent(t: Task, d: Input)
    ensures Assign(Assign(t, d), d) == Assign(t, d)
  {
  }

  /** Unlike the controller's merge, an empty title is written. */
  lemma AssignWritesEmptyTitle(t: Task)
    ensures Assign(t, NoKeys.(title := Some(""))).title == ""
  {
  }

  /** `updateTask`: unknown task, then access; the assigned task replaces
      the stored one in place. */
  function UpdateTask(s: Store, caller: UserId, tid: TaskId, d: Input): (r: Result<(Store, Task)>)
    ensures r == Err(TaskNotFound) <==> FindTask(s.tasks, tid).None?
    ensures r == Err(AccessDenied)
            <==> FindTask(s.tasks, tid).Some? && !Membership.ListsMember(s.projects, FindTask(s.tasks, tid).value.projectId, caller)
    ensures r.Ok? ==> var (s', t) := r.value;
              && FindTask(s.tasks, tid).Some?
              && t == Assign(FindTask(s.tasks, tid).value, d)
              && s'.projects == s.projects
              && |s'.tasks| == |s.tasks|
              && forall i :: 0 <= i < |s.tasks| ==> s'.tasks[i] == if s.tasks[i].id == tid then t else s.tasks[i]
  {
    var found := FindTask(s.tasks, tid);
    if found.None? then Err(TaskNotFound)
    else if !Membership.ListsMember(s.projects, found.value.projectId, caller) then Err(AccessDenied)
    else
      var t := Assign(found.value, d);
      Ok((s.(tasks := ReplaceWhere(s.tasks, (x: Task) => x.id == tid, t)), t))
  }

  /** `deleteTask`: unknown task, then access; only that task is removed. */
  function DeleteTask(s: Store, caller: UserId, tid: TaskId): (r: Result<Store>)
    ensures r == Err(TaskNotFound) <==> FindTask(s.tasks, tid).None?
    ensures r == Err(AccessDenied)
            <==> FindTask(s.tasks, tid).Some? && !Membership.ListsMember(s.projects, FindTask(s.tasks, tid).value.projectId, caller)
    ensures r.Ok? ==> r.value.projects == s.projects
    ensures r.Ok? ==> forall t :: multiset(r.value.tasks)[t] == if t.id == tid then 0 else multiset(s.tasks)[t]
  {
    var found := FindTask(s.tasks, tid);
    if found.None? then Err(TaskNotFound)
    else if !Membership.ListsMember(s.projects, found.value.projectId, caller) then Err(AccessDenied)
    else Ok(s.(tasks := Filter(s.tasks, (x: Task) => x.id != tid)))
  }

  /** Reading, updating and deleting a task are all granted by the same
      test: membership of the task's project. */
  lemma OneAccessRule(s: Store, caller: UserId, tid: TaskId, d: Input)
    ensures GetTaskByIdAndValidateAccess(s, caller, tid).Ok? <==> UpdateTask(s, caller, tid, d).Ok?
    ensures UpdateTask(s, caller, tid, d).Ok? <==> DeleteTask(s, caller, tid).Ok?
    ensures DeleteTask(s, caller, tid).Ok?
            <==> FindTask(s.tasks, tid).Some? && Membership.ListsMember(s.projects, FindTask(s.tasks, tid).value.projectId, caller)
  {
  }

  /** A task created by a member is listed for its project. */
  lemma CreatedTaskIsListed(s: Store, caller: UserId, d: Input, id: TaskId)
    requires forall i :: 0 <= i < |s.tasks| ==> s.tasks[i].id != id
    requires CreateTask(s, caller, d, id).Ok?
    ensures var (s', t) := CreateTask(s, caller, d, id).value;
            GetTasksForProject(s', caller, t.projectId).Ok? && t in GetTasksForProject(s', caller, t.projectId).value
  {
    var (s', t) := CreateTask(s, caller, d, id).value;
    var r := GetTasksForProject(s', caller, t.projectId).value;
    assert t in s'.tasks;
    assert multiset(r)[t] == multiset(s'.tasks)[t] > 0;
  }
}
