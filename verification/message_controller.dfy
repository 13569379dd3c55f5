/** The message controller: the same queries as the message service, plus
    the controller-only checks and the deletion of a message by its sender.
    The authenticated caller is a plain id (token verification is outside
    the model). */
module MessageController {
  import opened Common
  import opened Seqs
  import opened Sorting
  import opened Messaging

  /** `_id` is unique in the message collection. */
  ghost predicate UniqueMessageIds(ms: seq<Message>) {
    forall i, j :: 0 <= i < j < |ms| ==> ms[i].id != ms[j].id
  }

  /** `Message.findById(id)`. */
  function FindMessage(ms: seq<Message>, id: MessageId): (r: Option<Message>)
    ensures r.None? <==> forall i :: 0 <= i < |ms| ==> ms[i].id != id
    ensures r.Some? ==> r.value in ms && r.value.id == id
  {
    FindFirst(ms, (m: Message) => m.id == id)
  }

  /** `getContacts` as the controller writes it. The contact list is the
      service's; building the `sender`/`receiver` sub-objects reads `_id` of
      the caller's own user record, which throws when that record is missing
      and there is at least one contact. */
  function GetContacts(s: Store, caller: UserId): (r: Result<seq<Contact>>)
    ensures r.Err? <==> Contacts(s, caller) != [] && !UserExists(s.users, caller)
    ensures r.Err? ==> r.error == ContactDetailsMissing
    ensures r.Ok? ==> r.value == Contacts(s, caller)
  {
    var contacts := Contacts(s, caller);
    if contacts != [] && !UserExists(s.users, caller) then Err(ContactDetailsMissing)
    else Ok(contacts)
  }

  /** A caller with a user record sees the service's contact list. */
  lemma GetContactsAgreesWithService(s: Store, caller: UserId)
    requires UserExists(s.users, caller)
    ensures GetContacts(s, caller) == Ok(Contacts(s, caller))
  {
  }

  /** `getConversation` as the controller writes it: a missing other-user id
      fails before the store is queried. */
  function GetConversation(s: Store, caller: UserId, otherId: Option<UserId>): (r: Result<seq<Message>>)
    ensures otherId.None? <==> r.Err?
    ensures r.Err? ==> r.error == OtherUserRequired
    ensures r.Ok? ==> forall m :: m in r.value <==> m in s.messages && Between(m, caller, otherId.value)
    ensures r.Ok? ==> SortedAsc(r.value, CreatedAt)
    ensures r.Ok? ==> forall m :: multiset(r.value)[m] == if Between(m, caller, otherId.value) then multiset(s.messages)[m] else 0
  {
    if otherId.None? then Err(OtherUserRequired)
    else
      var r := Conversation(s.messages, caller, otherId.value);
      forall m ensures m in r <==> m in s.messages && Between(m, caller, otherId.value) {
        assert m in r <==> multiset(r)[m] > 0;
        assert m in s.messages <==> multiset(s.messages)[m] > 0;
      }
      Ok(r)
  }

  /** `deleteMessage`: the message must exist and the caller must be its
      sender; then the message is removed and nothing else changes. */
  function DeleteMessage(s: Store, caller: UserId, id: MessageId): (r: Result<Store>)
    ensures r == Err(MessageNotFound) <==> FindMessage(s.messages, id).None?
    ensures r == Err(NotMessageSender) <==> FindMessage(s.messages, id).Some? && FindMessage(s.messages, id).value.sender != caller
    ensures r.Ok? <==> FindMessage(s.messages, id).Some? && FindMessage(s.messages, id).value.sender == caller
    ensures r.Ok? ==> r.value.users == s.users
    ensures r.Ok? ==> forall m :: multiset(r.value.messages)[m] == if m.id == id then 0 else multiset(s.messages)[m]
  {
    var found := FindMessage(s.messages, id);
    if found.None? then Err(MessageNotFound)
    else if found.value.sender != caller then Err(NotMessageSender)
    else Ok(s.(messages := Filter(s.messages, (m: Message) => m.id != id)))
  }

  /** With unique ids, a successful deletion splices out exactly the one
      message at its position; every other message keeps its place. */
  lemma DeleteRemovesExactlyThatMessage(s: Store, caller: UserId, id: MessageId)
    requires UniqueMessageIds(s.messages)
    requires DeleteMessage(s, caller, id).Ok?
    ensures exists i :: 0 <= i < |s.messages| && s.messages[i].id == id && s.messages[i].sender == caller
                        && DeleteMessage(s, caller, id).value.messages == s.messages[..i] + s.messages[i + 1..]
  {
    var m := FindMessage(s.messages, id).value;
    var i :| 0 <= i < |s.messages| && s.messages[i] == m;
    FilterRemovesOne(s.messages, (x: Message) => x.id != id, i);
  }
}
