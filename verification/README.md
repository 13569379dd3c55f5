# Messaging, membership and tasks of the ManagmentTools back office

This project models three parts of the back office's Express/Mongoose server
in Dafny:

- **Direct messages and the contact list.** Users send each other messages.
  A user's contact list has one entry per counterpart that still has a user
  record. Each entry carries the latest message exchanged with that
  counterpart, and the list is ordered newest first. Both the message service
  and the message controller are modelled. They share the queries and the
  fold. The controller's `getMessages` (controllers/MessageController.js:18-29)
  is the same query as `Messaging.Involving`, and its `createMessage`
  (controllers/MessageController.js:129-151) is the same creation as
  `Messaging.CreateMessage`. The controller adds the message lookup, the
  sender-only deletion and two failure paths of its own.
- **Workspaces and projects.** Both are groups with a name, an optional
  description, an owner and a member list. Their services apply identical
  rules: list the groups a user belongs to, fetch one for a member, create
  with the creator as owner and sole member, let the owner add an existing
  user once, and let the owner delete. One `Membership` module stands for
  both.
- **Tasks, in three layers that disagree.**
  - The task controller links a task to its project through `project` and
    `creator`. Its default status is `"Pending"`, and an update keeps a field
    unless the new value is truthy.
  - The task service links a task through `projectId` and lets only project
    members in. Its update copies every supplied key, falsy values included.
  - The task schema has enumerations for status and priority, with defaults,
    required fields and comments.

  Each layer is modelled with its own field names. The lemmas state where the
  layers differ.

The database is a value. A `Store` holds the collections as sequences in
natural (insertion) order, and a group collection is a map keyed by id. Ids
are naturals and timestamps are integers. The ids and clocks the database
supplies are parameters, and a fresh id is a precondition. Every `Error` the
code throws itself becomes an `Err` constructor of `Common.Error`, so each of
those error paths is a value with its own contract. Ids are compared by
value. The message service compares a stored sender with its `userId` argument
as strings (services/MessageService.js:29), so `userId` is taken to be the
id's string form. The controller's `userId` is already that form, since it
is read from the decoded token (controllers/MessageController.js:32-33) and
compared the same way (controllers/MessageController.js:44). Ids are always
well-formed; the database's cast failure on a malformed id is not modelled
(see "Left out"). Mongo's `.sort` is modelled as a stable sort.
Elements with equal keys keep their store order (`Sorting.SortDescStable`), which is one of the orders
Mongo may return; the lemma `Messaging.FoldOrderIndependent` shows the result
does not depend on that choice when timestamps do not tie.

JavaScript truthiness is modelled explicitly:

- A string field is truthy when present and non-empty.
- An id or an array field is truthy whenever it is present. An empty array
  counts as present.

Files:

| file | module | models |
|---|---|---|
| common.dfy | `Common` | ids, `Option`/`Result`, the error messages, users, truthiness |
| seqs.dfy | `Seqs` | filter, first match, replace-where, with their multiset facts |
| sorting.dfy | `Sorting` | stable descending/ascending sort by an integer key |
| messaging.dfy | `Messaging` | the message service: queries, contact fold, contact list, creation |
| message_controller.dfy | `MessageController` | the controller's variants and `deleteMessage` |
| membership.dfy | `Membership` | the workspace and project services |
| task_schema.dfy | `TaskSchema` | the task document schema and its validation |
| task_controller.dfy | `TaskController` | the task controller |
| task_service.dfy | `TaskService` | the task service |

Behaviour the code fixes that one might expect otherwise:

- **Deletion is physical.** A deleted message or task is removed from the
  collection; nothing is kept or marked as deleted.
- **Unresolved contacts are dropped.** A counterpart with no user record gets
  no contact entry, because the user query simply does not return it.
- **The controller's contact list can fail.** It dereferences the sender and
  receiver details of every contact, and those are looked up by user id. If
  the caller has no user record and the contact list is not empty, the
  dereference throws and the request fails. The service returns the
  (undefined) details instead and never fails. The model keeps both
  behaviours: `MessageController.GetContacts` and `Messaging.Contacts`.
  When the route is reached through the authentication middleware
  (routes/messages.js:36), that middleware has already answered 404 for a
  caller with no user record (middlewares/auth.js:14-15). So the modelled
  failure happens only if the record disappears between the middleware and
  the controller, or if the controller is called without the middleware.
- **The member check on a fetched group needs a live user.** It runs over a
  populated member array, and population drops references to deleted users.
  So the caller must be listed and must still exist as a user
  (`Membership.IsListedUser`). The task controller and task service check the
  unpopulated array, so listing is enough there. Both use one predicate for
  it (`Membership.ListsMember`).
- **The three task layers use three field vocabularies.** The schema in
  `models/Task.js` declares `workspace` and `owner`. The controller writes
  `project` and `creator`, and the service writes `projectId`. The model keeps
  each layer's vocabulary and does not reconcile them (see "Left out").
- **The controller's default status is not an accepted status.** The default
  `"Pending"` is not in the schema's enumeration
  (`TaskSchema.PendingIsNotAStatus`).

## Model

| member | source | states |
|---|---|---|
| Messaging.Involving | services/MessageService.js:10-14 | the messages returned are exactly those the user sent or received, each as often as it is stored |
| Messaging.Counterpart | services/MessageService.js:29 | the contact key is the receiver when the user sent the message and the sender when the user received it; either way the message is between the user and that key |
| Messaging.Fold | services/MessageService.js:26-39 | the map built by the loop has one key per counterpart of the fetched messages and no other |
| Messaging.FirstLatestUnique | services/MessageService.js:31 | per counterpart, at most one message is the first of greatest timestamp, so the message the fold keeps is well defined |
| Messaging.FoldKeepsFirstLatest | services/MessageService.js:31-38 | for the first message that carries a counterpart's greatest timestamp, the map's entry for that counterpart is taken from exactly that message: only a strictly newer message replaces an entry, so a later tie never does |
| Messaging.FoldEntryIsLatest | services/MessageService.js:31-38 | every counterpart's entry comes from one of its messages, and no message with that counterpart is newer than the entry |
| Messaging.TieKeepsFirst | controllers/MessageController.js:46 | of two messages with the same counterpart and timestamp, the one visited first stays in the map |
| Messaging.FoldKeysOrderIndependent | services/MessageService.js:23-39 | the set of counterparts does not depend on the order in which the messages are visited |
| Messaging.FoldOrderIndependent | services/MessageService.js:23-39 | without timestamp ties, the whole map does not depend on the visiting order, so the unspecified order of equal sort keys cannot change it |
| Messaging.ContactsFrom | services/MessageService.js:41-66 | a contact is produced exactly for each user whose id is a key of the map, and it merges that user's record with the key's entry; no keys means no contacts |
| Messaging.ContactsFromDistinct | services/MessageService.js:41-42 | users with distinct ids yield contacts with distinct ids |
| Messaging.Fetched | services/MessageService.js:23-24 | the fetched messages are the stored messages involving the user, each as often as it is stored, sorted by creation time newest first |
| Messaging.FoldKeysAreCounterparts | services/MessageService.js:23-39 | folding the user's fetched messages, in whatever order they arrive, yields one key per counterpart of the user in the store |
| Messaging.Latest | services/MessageService.js:23-39 | the map's keys are exactly the user's counterparts in the store |
| Messaging.Contacts | services/MessageService.js:22-69 | the contact list is sorted by latest-message time, newest first, and holds exactly the merged contacts; a user with no messages gets an empty list |
| Messaging.ContactsDistinct | services/MessageService.js:41-66 | when user ids are unique, no counterpart appears twice in the contact list |
| Messaging.ContactsAreTheUserCounterparts | services/MessageService.js:22-69 | someone appears in the contact list exactly when they are a user and have exchanged a message with the caller |
| Messaging.ContactHoldsLatestMessage | services/MessageService.js:50-66 | each contact carries the user's own record and the body and time of a message exchanged with them, and no exchanged message is newer |
| Messaging.NewestSentMessageIsLatestContact | services/MessageService.js:22-69 | the sender's contact list shows the receiver of the newest stored message with that message's body and time |
| Messaging.Conversation | services/MessageService.js:78-88 | the conversation holds exactly the messages between the two users, oldest first |
| Messaging.ConversationWithinMessages | services/MessageService.js:78-88 | every message of a conversation is in both participants' message lists |
| Messaging.CreateMessage | services/MessageService.js:98-112 | creation fails with the not-found error exactly when the sender or the receiver is not a user; on success one message from the caller to the receiver, with the given body, is appended and nothing else changes |
| Messaging.CreatedMessageIsLatestContact | services/MessageService.js:98-112 | a message created after every stored one becomes the sender's latest exchange with the receiver |
| MessageController.FindMessage | controllers/MessageController.js:158 | the lookup finds nothing exactly when no message has the id; otherwise it returns a stored message with that id |
| MessageController.GetContacts | controllers/MessageController.js:31-102 | the controller fails exactly when the contact list is non-empty and the caller has no user record; otherwise it returns the service's list |
| MessageController.GetContactsAgreesWithService | controllers/MessageController.js:64-95 | a caller who is a user gets the same contact list from the controller as from the service |
| MessageController.GetConversation | controllers/MessageController.js:105-127 | a missing other-user id is refused; otherwise the result holds every stored message between the two users exactly as often as it is stored, and nothing else, oldest first |
| MessageController.DeleteMessage | controllers/MessageController.js:153-168 | an unknown id and a caller who is not the sender each fail with their own error, and deletion succeeds exactly otherwise; the messages with that id are removed and all others kept |
| MessageController.DeleteRemovesExactlyThatMessage | controllers/MessageController.js:158-163 | with unique ids, a successful deletion removes exactly the one message, sent by the caller, and keeps the order of the rest |
| Membership.GroupsFor | services/WorkspaceService.js:9-13 | the listing holds exactly the groups whose members include the user, unchanged |
| Membership.FindAsMember | services/projectService.js:21-32 | an unknown id fails first, then a caller who is not a listed live member; otherwise the group is returned |
| Membership.Create | services/WorkspaceService.js:40-53 | a missing or empty name is refused; otherwise the new group has the caller as owner and sole member, is valid, and is the only change |
| Membership.AddMember | services/projectService.js:62-76 | the unknown-group, not-owner, unknown-user and already-member errors arise in that order, each exactly in its case, and the call succeeds exactly when all four checks pass; the member is then appended once and validity is kept |
| Membership.Delete | services/WorkspaceService.js:84-90 | an unknown group and a caller who is not the owner each fail with their own error, and the owner's deletion of an existing group always succeeds, removing exactly that group |
| Membership.OperationsPreserveValidity | services/projectService.js:40-90 | creation, member addition and deletion keep every group's owner a member and its member list free of duplicates |
| Membership.FindAgreesWithListing | services/projectService.js:9-32 | the member check passes exactly for groups in the user's listing, provided the user still exists |
| Membership.CreatorCanFind | services/projectService.js:40-53 | the creator of a group passes the member check on it |
| Membership.AddedMemberCanFind | services/WorkspaceService.js:62-76 | an added member passes the member check, and every earlier member still does |
| Membership.DeletedIsNotFound | services/WorkspaceService.js:84-90 | after deletion the group is unknown to everybody |
| TaskSchema.ParseStatus | models/Task.js:6-10 | exactly the four status names are accepted, each to its own value |
| TaskSchema.ParsePriority | models/Task.js:11-15 | exactly the four priority names are accepted, each to its own value |
| TaskSchema.Validate | models/Task.js:3-38 | a document is accepted exactly when its title and comment messages are present and non-empty, its enum values are members, and its workspace and owner are set; absent status and priority take Backlog and Urgent; title, description, due date, workspace, owner and assignee are kept as given; each comment keeps its user and message, and an absent comment `createdAt` takes the current time |
| TaskSchema.ValidateRoundTrip | models/Task.js:3-38 | validating the values of any well-formed task reproduces that task |
| TaskSchema.PendingIsNotAStatus | models/Task.js:8 | "Pending" is not one of the accepted statuses |
| TaskController.FindTask | controllers/TaskController.js:114 | the lookup finds nothing exactly when no task has the id; otherwise it returns the first stored task with the id |
| TaskController.CreateTask | controllers/TaskController.js:20-53 | the missing-title-or-project, unknown-project and not-a-member errors arise in that order, each exactly in its case, and a member with a non-empty title and a project id always gets the task; it has the caller as creator, the status "Pending" when none is truthy, and is appended |
| TaskController.GetTasksByProject | controllers/TaskController.js:56-78 | only members of an existing project are served; they get exactly that project's tasks, newest first |
| TaskController.GetTaskById | controllers/TaskController.js:81-103 | the unknown-task, unknown-project and not-a-member errors arise in that order, each exactly in its case; otherwise the stored task is returned |
| TaskController.Merge | controllers/TaskController.js:126-131 | a string field is replaced only by a non-empty value, a reference or list field by any present value, and identity, project, creator and creation time never change |
| TaskController.MergeWithoutTruthyFieldsIsIdentity | controllers/TaskController.js:126-131 | a request with no truthy field leaves the task as it was |
| TaskController.MergeIdempotent | controllers/TaskController.js:126-131 | applying the same update twice equals applying it once |
| TaskController.UpdateTask | controllers/TaskController.js:107-138 | the unknown-task, unknown-project and not-allowed errors arise in that order; the creator or a project member may update, and the merged task replaces the stored one in place |
| TaskController.DeleteTask | controllers/TaskController.js:141-163 | the same checks as the update; on success the tasks with that id are removed and all others kept |
| TaskController.UpdateAndDeleteSharePermission | controllers/TaskController.js:120-123 | exactly the same callers may update and delete a task: its creator or a member of its existing project |
| TaskController.ReadImpliesModify | controllers/TaskController.js:95-97 | whoever may read a task may change it, while a creator who is not a project member may change it but not read it |
| TaskController.UpdatedTaskIsFound | controllers/TaskController.js:114-133 | after an update, looking the task up finds the merged task |
| TaskController.CreatedTaskIsListed | controllers/TaskController.js:20-78 | a task created by a member is listed, among its project's tasks, to every member of that project |
| TaskService.FindTask | services/taskService.js:47 | the lookup finds nothing exactly when no task has the id; otherwise it returns the first stored task with the id |
| TaskService.GetTasksForProject | services/taskService.js:7-13 | an unknown project and a non-member each fail with their own error; a member gets exactly that project's tasks |
| TaskService.GetTaskByIdAndValidateAccess | services/taskService.js:18-26 | an unknown task fails first; a missing project and a non-member share one error; otherwise the stored task is returned |
| TaskService.CreateTask | services/taskService.js:31-41 | a missing title or project is refused, then a caller without access, and creation succeeds exactly when neither applies; the new task carries exactly the supplied fields and is appended |
| TaskService.Assign | services/taskService.js:53 | every supplied field overwrites, whatever its value, and absent fields keep theirs; the project can change |
| TaskService.AssignNothingIsIdentity | services/taskService.js:53 | an update with no keys leaves the task unchanged |
| TaskService.AssignIdempotent | services/taskService.js:53 | applying the same update twice equals applying it once |
| TaskService.AssignWritesEmptyTitle | services/taskService.js:53 | unlike the controller, an empty title is written |
| TaskService.UpdateTask | services/taskService.js:46-56 | an unknown task and a caller without access each fail with their own error; the assigned task replaces every stored task with that id |
| TaskService.DeleteTask | services/taskService.js:61-69 | the same checks as the read; on success the tasks with that id are removed and all others kept |
| TaskService.OneAccessRule | services/taskService.js:18-69 | reading, updating and deleting are granted to exactly the same callers: members of the task's existing project |
| TaskService.CreatedTaskIsListed | services/taskService.js:7-41 | a task created by a member is listed for its project |
| Sorting.SortDesc | services/MessageService.js:66 | the result is a permutation of the input, sorted greatest key first |
| Sorting.SortDescDistinct | services/MessageService.js:66 | sorting neither merges nor duplicates entries |
| Sorting.SortDescOfSorted | controllers/TaskController.js:72 | an already sorted sequence comes back unchanged |
| Sorting.InsertKeepsEqualKeysOrder | services/MessageService.js:66 | inserting an element into a sorted sequence puts it in front of the elements with an equal key and leaves their order alone |
| Sorting.SortDescStable | services/MessageService.js:66 | the sort is stable: for every key, the elements with that key come out in the order they went in, as `Array.prototype.sort` guarantees |

## Left out

- Token verification (`verifyToken`, JWT), the HTTP layer (status codes, response bodies) and `handleError` are left out. The caller is a plain user id, and a thrown error is an `Err` value.
- The sender and receiver detail copies in each contact are left out. The model does include the failure they cause in the controller (`MessageController.GetContacts`).
- Population of referenced users in query results is left out, with one exception: the member check on a populated group (`Membership.IsListedUser`) is modelled.
- Mongoose's automatic `createdAt`/`updatedAt` timestamps are left out. The model takes the creation time as a parameter; `updatedAt` is not modelled.
- Save-time schema validation of controller and service tasks is left out. `models/Task.js` declares neither `project`/`creator` nor `projectId`, and it requires `workspace` and `owner`. Under Mongoose's strict mode those writes would be dropped and the save refused. The model keeps each layer's fields as its code names them, and validates only `TaskSchema` drafts.
- TaskController.CreateTask: the comments, attachments and assignee are stored as given. The schema's comment validation is not applied to them, for the same reason.
- Timestamps are unbounded integers, while the source uses `Date` values. Subtracting two dates in the contact sort is ordinary integer subtraction here.
- `services/TaskService.js` (capitalised) is not part of this model. It is a pass-through create/read/update/delete over the schema's own fields (`workspace`, `owner`), with not-found checks only and no membership check. The user, auth and socket services are not part of this model either, nor are the controllers that wrap the workspace and project services.
- The workspace's `tasks` and `createdAt` fields (models/Workspace.js) and the user's password and username uniqueness (models/User.js) are left out. No modelled operation reads or writes them.
- `models/Message.js` and `models/Project.js` are not part of this model. Their shapes are taken from how the modelled code reads them.
- Messaging.CreateMessage: save-time validation of a message is not modelled, because the message schema is not part of this model. Both creation paths end in `save()` (services/MessageService.js:110, controllers/MessageController.js:146), and the route documents a 400 for a missing receiver or message (routes/messages.js:127-128) that the code never raises itself. The model accepts any body, including an empty one, and fails only when the sender or the receiver is not a user.
- The message service's `userId` argument is assumed to be the id's string form. No caller of the service is part of this model; if it were called with an ObjectId, the string comparison at services/MessageService.js:29 would never match and every message would be keyed under its sender, including the caller's own sent messages.
- Malformed ids are left out. An id is a natural number, so it is always well-formed. In the source, a route or body id that is not a valid ObjectId makes Mongoose throw a cast error inside `findById` (for example controllers/MessageController.js:158, controllers/TaskController.js:87, services/WorkspaceService.js:22) before any not-found check runs, and the request fails with that error's message instead of the not-found error the model returns for an unknown id.
- Concurrency between requests is left out. Each operation is atomic on the store value.
