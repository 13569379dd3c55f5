/** Direct messages and the contact list derived from them: the logic the
    message service and the message controller share. */
module Messaging {
  import opened Common
  import opened Seqs
  import opened Sorting

  /** A stored message; `body` is the document's `message` field. */
  datatype Message = Message(id: MessageId, body: string, sender: UserId, receiver: UserId, createdAt: Time)

  /** The message and user collections, each in natural order. */
  datatype Store = Store(messages: seq<Message>, users: seq<User>)

  /** The value `contactsMap` holds for a counterpart. */
  datatype Entry = Entry(lastMessage: string, lastMessageTime: Time, sender: UserId, receiver: UserId)

  /** One element of the contact list: the counterpart's user record merged
      with the latest message exchanged with it. */
  datatype Contact = Contact(user: User, lastMessage: string, lastMessageTime: Time)

  function CreatedAt(m: Message): Time { m.createdAt }

  function LastMessageTime(c: Contact): Time { c.lastMessageTime }

  function ContactId(c: Contact): UserId { c.user.id }

  /** The query `{ $or: [{ sender: u }, { receiver: u }] }`. */
  predicate Involves(m: Message, u: UserId) {
    m.sender == u || m.receiver == u
  }

  /** The query `{ $or: [{ sender: u, receiver: o }, { sender: o, receiver: u }] }`. */
  predicate Between(m: Message, u: UserId, o: UserId) {
    (m.sender == u && m.receiver == o) || (m.sender == o && m.receiver == u)
  }

  /** `getMessages`: the messages `u` sent or received, in store order. */
  function Involving(ms: seq<Message>, u: UserId): (r: seq<Message>)
    ensures forall m :: multiset(r)[m] == if Involves(m, u) then multiset(ms)[m] else 0
    ensures forall i :: 0 <= i < |r| ==> Involves(r[i], u)
  {
    Filter(ms, m => Involves(m, u))
  }

  /** The other party of `m` as seen by `u`: the receiver when `u` sent it,
      the sender otherwise. Whichever role `u` plays, the other role is the key. */
  function Counterpart(m: Message, u: UserId): (c: UserId)
    ensures m.sender == u ==> c == m.receiver
    ensures m.receiver == u ==> c == m.sender
    ensures Involves(m, u) ==> Between(m, u, c)
  {
    if m.sender == u then m.receiver else m.sender
  }

  function EntryOf(m: Message): Entry {
    Entry(m.body, m.createdAt, m.sender, m.receiver)
  }

  /** The `forEach` over the fetched messages, visited left to right: a
      counterpart's entry is replaced only by a STRICTLY newer message. */
  function Fold(ms: seq<Message>, u: UserId): (r: map<UserId, Entry>)
    ensures forall c :: c in r <==> exists i :: 0 <= i < |ms| && Counterpart(ms[i], u) == c
    decreases |ms|
  {
    if ms == [] then map[]
    else
      var acc := Fold(ms[..|ms| - 1], u);
      var m := ms[|ms| - 1];
      var c := Counterpart(m, u);
      assert forall i :: 0 <= i < |ms| - 1 ==> ms[..|ms| - 1][i] == ms[i];
      if c !in acc || m.createdAt > acc[c].lastMessageTime then acc[c := EntryOf(m)] else acc
  }

  /** `ms[i]` is the first of the messages with counterpart `c` that carry the
      greatest timestamp among them. */
  ghost predicate FirstLatest(ms: seq<Message>, u: UserId, c: UserId, i: int) {
    && 0 <= i < |ms|
    && Counterpart(ms[i], u) == c
    && (forall j :: 0 <= j < |ms| && Counterpart(ms[j], u) == c ==> ms[j].createdAt <= ms[i].createdAt)
    && (forall j :: 0 <= j < i && Counterpart(ms[j], u) == c ==> ms[j].createdAt < ms[i].createdAt)
  }

  /** At most one index is the first latest one, so "the" message the fold
      keeps for a counterpart is well defined. */
  lemma FirstLatestUnique(ms: seq<Message>, u: UserId, c: UserId, i: int, j: int)
    requires FirstLatest(ms, u, c, i) && FirstLatest(ms, u, c, j)
    ensures i == j
  {
  }

  /** The fold keeps, per counterpart, the first message of greatest timestamp:
      a later message with an equal timestamp never overwrites. */
  lemma {:induction false} FoldKeepsFirstLatest(ms: seq<Message>, u: UserId, c: UserId, i: int)
    requires FirstLatest(ms, u, c, i)
    ensures Fold(ms, u)[c] == EntryOf(ms[i])
    decreases |ms|
  {
    var n := |ms| - 1;
    var prefix := ms[..n];
    var acc := Fold(prefix, u);
    var m := ms[n];
    assert ms == prefix + [m];
    if i == n {
      if c in acc {
        var k :| 0 <= k < |prefix| && Counterpart(prefix[k], u) == c;
        FirstLatestExists(prefix, u, c, k);
        var j :| FirstLatest(prefix, u, c, j);
        FoldKeepsFirstLatest(prefix, u, c, j);
        assert prefix[j] == ms[j];
      }
    } else {
      assert FirstLatest(prefix, u, c, i) by {
        assert forall j :: 0 <= j < n ==> prefix[j] == ms[j];
      }
      FoldKeepsFirstLatest(prefix, u, c, i);
    }
  }

  /** Every counterpart that occurs has a first message of greatest timestamp. */
  lemma {:induction false} FirstLatestExists(ms: seq<Message>, u: UserId, c: UserId, k: int)
    requires 0 <= k < |ms| && Counterpart(ms[k], u) == c
    ensures exists i :: FirstLatest(ms, u, c, i)
    decreases |ms|
  {
    var n := |ms| - 1;
    var prefix := ms[..n];
    var m := ms[n];
    assert ms == prefix + [m];
    if k < n || exists k' :: 0 <= k' < n && Counterpart(prefix[k'], u) == c {
      var k' :| 0 <= k' < n && Counterpart(prefix[k'], u) == c;
      FirstLatestExists(prefix, u, c, k');
      var j :| FirstLatest(prefix, u, c, j);
      if Counterpart(m, u) == c && m.createdAt > prefix[j].createdAt {
        forall j' | 0 <= j' < n && Counterpart(ms[j'], u) == c ensures ms[j'].createdAt < m.createdAt {
          assert ms[j'] == prefix[j'];
        }
        assert FirstLatest(ms, u, c, n);
      } else {
        FirstLatestExtend(prefix, m, u, c, j);
      }
    } else {
      forall j | 0 <= j < n ensures Counterpart(ms[j], u) != c {
        assert ms[j] == prefix[j];
      }
      assert FirstLatest(ms, u, c, n);
    }
  }

  /** Appending a message that is not newer keeps the first latest index. */
  lemma FirstLatestExtend(prefix: seq<Message>, m: Message, u: UserId, c: UserId, i: int)
    requires FirstLatest(prefix, u, c, i)
    requires Counterpart(m, u) == c ==> m.createdAt <= prefix[i].createdAt
    ensures FirstLatest(prefix + [m], u, c, i)
  {
    var ms := prefix + [m];
    forall j | 0 <= j < |ms| && Counterpart(ms[j], u) == c ensures ms[j].createdAt <= ms[i].createdAt {
      if j < |prefix| { assert ms[j] == prefix[j]; }
    }
    forall j | 0 <= j < i && Counterpart(ms[j], u) == c ensures ms[j].createdAt < ms[i].createdAt {
      assert ms[j] == prefix[j];
    }
  }

  /** Consequence for one counterpart: its entry carries the greatest
      timestamp among its messages and comes from one of them. */
  lemma FoldEntryIsLatest(ms: seq<Message>, u: UserId, c: UserId)
    requires c in Fold(ms, u)
    ensures exists m :: m in ms && Counterpart(m, u) == c && EntryOf(m) == Fold(ms, u)[c]
    ensures forall m :: m in ms && Counterpart(m, u) == c ==> m.createdAt <= Fold(ms, u)[c].lastMessageTime
  {
    var k :| 0 <= k < |ms| && Counterpart(ms[k], u) == c;
    FirstLatestExists(ms, u, c, k);
    var i :| FirstLatest(ms, u, c, i);
    FoldKeepsFirstLatest(ms, u, c, i);
    assert ms[i] in ms;
  }

  /** Two messages with the same counterpart and timestamp carry the same entry. */
  ghost predicate NoTies(ms: seq<Message>, u: UserId) {
    forall m1, m2 :: m1 in ms && m2 in ms && Counterpart(m1, u) == Counterpart(m2, u)
      && m1.createdAt == m2.createdAt
      ==> EntryOf(m1) == EntryOf(m2)
  }

  /** Reordering the messages does not change which counterparts the fold has. */
  lemma FoldKeysOrderIndependent(a: seq<Message>, b: seq<Message>, u: UserId, c: UserId)
    requires multiset(a) == multiset(b)
    ensures c in Fold(a, u) <==> c in Fold(b, u)
  {
    if c in Fold(a, u) {
      var i :| 0 <= i < |a| && Counterpart(a[i], u) == c;
      PermutationMembership(a, b, a[i]);
      var k :| 0 <= k < |b| && b[k] == a[i];
    }
    if c in Fold(b, u) {
      var i :| 0 <= i < |b| && Counterpart(b[i], u) == c;
      PermutationMembership(a, b, b[i]);
      var k :| 0 <= k < |a| && a[k] == b[i];
    }
  }

  /** Without timestamp ties, the fold does not depend on the order in which
      the messages are visited. */
  lemma FoldOrderIndependent(a: seq<Message>, b: seq<Message>, u: UserId)
    requires multiset(a) == multiset(b)
    requires NoTies(b, u)
    ensures Fold(a, u) == Fold(b, u)
  {
    var ra, rb := Fold(a, u), Fold(b, u);
    forall c ensures c in ra <==> c in rb {
      FoldKeysOrderIndependent(a, b, u, c);
    }
    forall c | c in ra ensures ra[c] == rb[c] {
      FoldEntryIsLatest(a, u, c);
      FoldEntryIsLatest(b, u, c);
      var ma :| ma in a && Counterpart(ma, u) == c && EntryOf(ma) == ra[c];
      var mb :| mb in b && Counterpart(mb, u) == c && EntryOf(mb) == rb[c];
      PermutationMembership(a, b, ma);
      PermutationMembership(a, b, mb);
      assert ma.createdAt == mb.createdAt;
    }
    assert ra.Keys == rb.Keys;
  }

  /** Two messages with equal timestamps for one counterpart: the first one
      visited is the one kept, whatever the second one says. */
  lemma TieKeepsFirst(a: Message, b: Message, u: UserId)
    requires Counterpart(a, u) == Counterpart(b, u)
    requires a.createdAt == b.createdAt
    ensures Fold([a, b], u)[Counterpart(a, u)] == EntryOf(a)
  {
    assert [a, b][..1] == [a];
    assert [a][..0] == [];
  }

  function ContactOf(user: User, e: Entry): Contact {
    Contact(user, e.lastMessage, e.lastMessageTime)
  }

  /** `User.find({ _id: { $in: keys } })` followed by the `map` that merges each
      found user with its entry: one contact per user whose id is a key, in
      user-collection order. */
  function ContactsFrom(users: seq<User>, latest: map<UserId, Entry>): (r: seq<Contact>)
    ensures forall x :: x in r <==> (x.user in users && x.user.id in latest && x == ContactOf(x.user, latest[x.user.id]))
    ensures (forall i :: 0 <= i < |users| ==> users[i].id !in latest) ==> r == []
    decreases |users|
  {
    if users == [] then []
    else
      assert users == [users[0]] + users[1..];
      if users[0].id in latest then [ContactOf(users[0], latest[users[0].id])] + ContactsFrom(users[1..], latest)
      else ContactsFrom(users[1..], latest)
  }

  /** Users with distinct ids give contacts with distinct ids. */
  lemma {:induction false} ContactsFromDistinct(users: seq<User>, latest: map<UserId, Entry>)
    requires UniqueUserIds(users)
    ensures Distinct(ContactsFrom(users, latest), ContactId)
    decreases |users|
  {
    if users != [] {
      var tail := users[1..];
      assert UniqueUserIds(tail) by {
        forall i, j | 0 <= i < j < |tail| ensures tail[i].id != tail[j].id {
          assert tail[i] == users[i + 1] && tail[j] == users[j + 1];
        }
      }
      ContactsFromDistinct(tail, latest);
      var rest := ContactsFrom(tail, latest);
      forall k | 0 <= k < |rest| ensures rest[k].user.id != users[0].id {
        assert rest[k] in rest;
        var i :| 0 <= i < |tail| && tail[i] == rest[k].user;
        assert users[i + 1] == tail[i];
      }
    }
  }

  /** The messages `getContacts` fetches: those involving `u`, newest first. */
  function Fetched(s: Store, u: UserId): (r: seq<Message>)
    ensures SortedDesc(r, CreatedAt)
    ensures forall m :: multiset(r)[m] == if Involves(m, u) then multiset(s.messages)[m] else 0
    ensures forall m :: m in r <==> m in s.messages && Involves(m, u)
  {
    var inv := Involving(s.messages, u);
    var r := SortDesc(inv, CreatedAt);
    forall m ensures m in r <==> m in s.messages && Involves(m, u) {
      PermutationMembership(r, inv, m);
      FilterMembership(s.messages, m => Involves(m, u), m);
    }
    r
  }

  /** The counterparts of `u` in `ms`. */
  ghost predicate IsCounterpart(ms: seq<Message>, u: UserId, c: UserId) {
    exists m :: m in ms && Involves(m, u) && Counterpart(m, u) == c
  }

  lemma IsCounterpartByWitness(ms: seq<Message>, u: UserId, m: Message)
    requires m in ms && Involves(m, u)
    ensures IsCounterpart(ms, u, Counterpart(m, u))
  {
  }

  /** `contactsMap` after the fold: one key per counterpart. */
  function Latest(s: Store, u: UserId): (r: map<UserId, Entry>)
    ensures forall c :: c in r <==> IsCounterpart(s.messages, u, c)
  {
    var fetched := Fetched(s, u);
    var r := Fold(fetched, u);
    forall c ensures c in r <==> IsCounterpart(s.messages, u, c) {
      FoldKeysAreCounterparts(fetched, s.messages, u, c);
    }
    r
  }

  /** Folding any sequence that holds exactly the messages of `ms` involving
      `u` yields one key per counterpart of `u` in `ms`. */
  lemma FoldKeysAreCounterparts(fetched: seq<Message>, ms: seq<Message>, u: UserId, c: UserId)
    requires forall m :: m in fetched <==> m in ms && Involves(m, u)
    ensures c in Fold(fetched, u) <==> IsCounterpart(ms, u, c)
  {
    if c in Fold(fetched, u) {
      var i :| 0 <= i < |fetched| && Counterpart(fetched[i], u) == c;
      assert fetched[i] in fetched;
    }
    if IsCounterpart(ms, u, c) {
      var m :| m in ms && Involves(m, u) && Counterpart(m, u) == c;
      var i :| 0 <= i < |fetched| && fetched[i] == m;
    }
  }

  /** `getContacts`: fetch the messages involving `u` newest first, fold them
      per counterpart, keep the counterparts that are users, and sort the
      contacts newest first. A user without messages gets the empty list. */
  function Contacts(s: Store, u: UserId): (r: seq<Contact>)
    ensures SortedDesc(r, LastMessageTime)
    ensures forall x :: x in r <==> x in ContactsFrom(s.users, Latest(s, u))
    ensures (forall i :: 0 <= i < |s.messages| ==> !Involves(s.messages[i], u)) ==> r == []
  {
    var unsorted := ContactsFrom(s.users, Latest(s, u));
    var r := SortDesc(unsorted, LastMessageTime);
    forall x ensures x in r <==> x in unsorted {
      PermutationMembership(r, unsorted, x);
    }
    r
  }

  /** No counterpart appears twice in the contact list. */
  lemma ContactsDistinct(s: Store, u: UserId)
    requires UniqueUserIds(s.users)
    ensures Distinct(Contacts(s, u), ContactId)
  {
    var unsorted := ContactsFrom(s.users, Latest(s, u));
    ContactsFromDistinct(s.users, Latest(s, u));
    SortDescDistinct(unsorted, LastMessageTime, ContactId);
  }

  /** The contact list names exactly the counterparts that resolve to a user. */
  lemma ContactsAreTheUserCounterparts(s: Store, u: UserId, c: UserId)
    ensures (exists x :: x in Contacts(s, u) && x.user.id == c)
            <==> UserExists(s.users, c) && IsCounterpart(s.messages, u, c)
  {
    if exists x :: x in Contacts(s, u) && x.user.id == c {
      ContactIsUserCounterpart(s, u, c);
    }
    if UserExists(s.users, c) && IsCounterpart(s.messages, u, c) {
      UserCounterpartIsContact(s, u, c);
    }
  }

  lemma ContactIsUserCounterpart(s: Store, u: UserId, c: UserId)
    requires exists x :: x in Contacts(s, u) && x.user.id == c
    ensures UserExists(s.users, c) && IsCounterpart(s.messages, u, c)
  {
    var x :| x in Contacts(s, u) && x.user.id == c;
    assert x in ContactsFrom(s.users, Latest(s, u));
    var i :| 0 <= i < |s.users| && s.users[i] == x.user;
  }

  lemma UserCounterpartIsContact(s: Store, u: UserId, c: UserId)
    requires UserExists(s.users, c) && IsCounterpart(s.messages, u, c)
    ensures exists x :: x in Contacts(s, u) && x.user.id == c
  {
    var latest := Latest(s, u);
    var i :| 0 <= i < |s.users| && s.users[i].id == c;
    var x := ContactOf(s.users[i], latest[c]);
    assert x in ContactsFrom(s.users, latest);
    assert x in Contacts(s, u);
  }

  /** Each contact carries the greatest timestamp exchanged with that
      counterpart, and the text of a message with that timestamp. */
  lemma ContactHoldsLatestMessage(s: Store, u: UserId, x: Contact)
    requires x in Contacts(s, u)
    ensures x.user in s.users
    ensures forall m :: m in s.messages && Involves(m, u) && Counterpart(m, u) == x.user.id
                        ==> m.createdAt <= x.lastMessageTime
    ensures exists m :: m in s.messages && Involves(m, u) && Counterpart(m, u) == x.user.id
                        && m.body == x.lastMessage && m.createdAt == x.lastMessageTime
  {
    var c := x.user.id;
    var fetched := Fetched(s, u);
    FoldEntryIsLatest(fetched, u, c);
    var m :| m in fetched && Counterpart(m, u) == c && EntryOf(m) == Latest(s, u)[c];
  }

  /** `getConversation`: the messages between `u` and `o`, oldest first. */
  function Conversation(ms: seq<Message>, u: UserId, o: UserId): (r: seq<Message>)
    ensures SortedAsc(r, CreatedAt)
    ensures forall m :: multiset(r)[m] == if Between(m, u, o) then multiset(ms)[m] else 0
  {
    SortAsc(Filter(ms, m => Between(m, u, o)), CreatedAt)
  }

  /** A conversation is part of each participant's message list. */
  lemma ConversationWithinMessages(ms: seq<Message>, u: UserId, o: UserId, m: Message)
    requires m in Conversation(ms, u, o)
    ensures m in Involving(ms, u) && m in Involving(ms, o)
  {
    var r := Conversation(ms, u, o);
    assert multiset(r)[m] > 0;
    assert multiset(Involving(ms, u))[m] > 0;
    assert multiset(Involving(ms, o))[m] > 0;
  }

  /** `createMessage`: both parties must be users; the new message is
      appended and nothing else changes. The store assigns `id` (fresh) and
      `now` (the creation time). */
  function CreateMessage(s: Store, caller: UserId, receiverId: Option<UserId>, body: string,
                         id: MessageId, now: Time): (r: Result<(Store, Message)>)
    requires forall i :: 0 <= i < |s.messages| ==> s.messages[i].id != id
    ensures r.Err? <==> !UserExists(s.users, caller) || !MaybeUserExists(s.users, receiverId)
    ensures r.Err? ==> r.error == SenderOrReceiverNotFound
    ensures r.Ok? ==> var (s', m) := r.value;
              && s'.users == s.users
              && s'.messages == s.messages + [m]
              && m.sender == caller && receiverId == Some(m.receiver)
              && m.body == body && m.id == id && m.createdAt == now
  {
    if !UserExists(s.users, caller) || !MaybeUserExists(s.users, receiverId) then
      Err(SenderOrReceiverNotFound)
    else
      var m := Message(id, body, caller, receiverId.value, now);
      Ok((s.(messages := s.messages + [m]), m))
  }

  /** The newest message of the store that `u` sent is `u`'s latest exchange
      with its receiver. */
  lemma NewestSentMessageIsLatestContact(s: Store, u: UserId, m: Message)
    requires m in s.messages && m.sender == u && UserExists(s.users, m.receiver)
    requires forall e :: e in s.messages && e != m ==> e.createdAt < m.createdAt
    ensures exists x :: x in Contacts(s, u) && x.user.id == m.receiver
                        && x.lastMessage == m.body && x.lastMessageTime == m.createdAt
  {
    IsCounterpartByWitness(s.messages, u, m);
    UserCounterpartIsContact(s, u, m.receiver);
    var x :| x in Contacts(s, u) && x.user.id == m.receiver;
    ContactHoldsLatestMessage(s, u, x);
    var m' :| m' in s.messages && Involves(m', u) && Counterpart(m', u) == m.receiver
              && m'.body == x.lastMessage && m'.createdAt == x.lastMessageTime;
    assert m' == m;
  }

  /** A message sent after every stored one becomes the sender's latest
      exchange with the receiver. */
  lemma CreatedMessageIsLatestContact(s: Store, caller: UserId, receiver: UserId, body: string,
                                      id: MessageId, now: Time)
    requires forall i :: 0 <= i < |s.messages| ==> s.messages[i].id != id
    requires forall i :: 0 <= i < |s.messages| ==> s.messages[i].createdAt < now
    requires CreateMessage(s, caller, Some(receiver), body, id, now).Ok?
    ensures exists x :: x in Contacts(CreateMessage(s, caller, Some(receiver), body, id, now).value.0, caller)
                        && x.user.id == receiver && x.lastMessage == body && x.lastMessageTime == now
  {
    var r := CreateMessage(s, caller, Some(receiver), body, id, now);
    var s', m := r.value.0, r.value.1;
    assert s'.messages == s.messages + [m];
    forall e | e in s'.messages && e != m ensures e.createdAt < m.createdAt {
      assert e in s.messages;
    }
    NewestSentMessageIsLatestContact(s', caller, m);
  }
}
