/** src/pages/ChatPage.tsx: the page's state (contacts, messages, the
    selected contact, the search text and the status filter), the
    handlers that change it, and the two derived lists the panes show.
    `Date.now()`, `new Date()` and the `useIsMobile` hook are inputs. */
module ChatPage {
  import opened ChatData
  import opened Seqs
  import opened Sorting
  import opened Text
  import ChatWindow

  /** The status drop-down: "All", "Active" or "Inactive". */
  datatype StatusFilter = AllStatuses | OnlyStatus(status: Status)

  // ---------------------------------------------------------------------
  // Orders

  /** The comparator `(a, b) => time(b) - time(a)` sorts ascending by the
      negated time: newest first. */
  function NewestFirstKey(c: Contact): int
  {
    -c.lastMessageTimestamp
  }

  /** The comparator `(a, b) => time(a) - time(b)`: oldest first. */
  function MessageTime(m: Message): int
  {
    m.timestamp
  }

  function SortNewestFirst(contacts: seq<Contact>): seq<Contact>
  {
    StableSortBy(NewestFirstKey, contacts)
  }

  predicate NewestFirst(contacts: seq<Contact>)
  {
    forall i, j :: 0 <= i < j < |contacts| ==>
      contacts[i].lastMessageTimestamp >= contacts[j].lastMessageTimestamp
  }

  /** The contact list order is newest first, and a rearrangement of its
      input. */
  lemma SortNewestFirstOrdered(contacts: seq<Contact>)
    ensures var r := SortNewestFirst(contacts);
      NewestFirst(r) && multiset(r) == multiset(contacts)
  {
    var r := SortNewestFirst(contacts);
    StableSortBySorted(NewestFirstKey, contacts);
    forall i, j | 0 <= i < j < |r|
      ensures r[i].lastMessageTimestamp >= r[j].lastMessageTimestamp
    {
      assert NewestFirstKey(r[i]) <= NewestFirstKey(r[j]);
    }
  }

  /** The contact list order: a rearrangement of its input, newest last
      message first, contacts with equal times in their input order. */
  lemma SortNewestFirstSpec(contacts: seq<Contact>, time: int)
    ensures var r := SortNewestFirst(contacts);
      NewestFirst(r) && multiset(r) == multiset(contacts) &&
      WithKey(NewestFirstKey, -time, r) == WithKey(NewestFirstKey, -time, contacts)
  {
    SortNewestFirstOrdered(contacts);
    StableSortByStable(NewestFirstKey, -time, contacts);
  }

  // ---------------------------------------------------------------------
  // Sending

  function OutgoingMessage(id: string, contactId: string, text: string, now: int): Message
  {
    Message(id, contactId, text, Outgoing, now)
  }

  function UpdateLastMessage(c: Contact, contactId: string, text: string, now: int): Contact
  {
    if c.id == contactId then c.(lastMessage := text, lastMessageTimestamp := now) else c
  }

  /** `prevContacts.map(...)`: the target contact gets the new preview and
      time, the others are left alone. */
  function WithLastMessage(contacts: seq<Contact>, contactId: string, text: string, now: int)
    : seq<Contact>
  {
    MapSeq(c => UpdateLastMessage(c, contactId, text, now), contacts)
  }

  /** The contact list after a send to contactId at time now. */
  function ContactsAfterSend(contacts: seq<Contact>, contactId: string, text: string, now: int)
    : seq<Contact>
  {
    SortNewestFirst(WithLastMessage(contacts, contactId, text, now))
  }

  function IdOf(c: Contact): string
  {
    c.id
  }

  /** A send neither adds nor removes contacts: the multiset of ids is
      the one before. */
  lemma SendKeepsIds(contacts: seq<Contact>, contactId: string, text: string, now: int)
    ensures multiset(MapSeq(IdOf, ContactsAfterSend(contacts, contactId, text, now)))
         == multiset(MapSeq(IdOf, contacts))
  {
    var updated := WithLastMessage(contacts, contactId, text, now);
    MapMultiset(IdOf, ContactsAfterSend(contacts, contactId, text, now), updated);
    assert MapSeq(IdOf, updated) == MapSeq(IdOf, contacts);
  }

  /** Every contact other than the target occurs after a send exactly as
      often as before, with all of its fields unchanged. */
  lemma {:induction false} UpdateKeepsOthers(contacts: seq<Contact>, contactId: string,
                                             text: string, now: int, c: Contact)
    requires c.id != contactId
    ensures multiset(WithLastMessage(contacts, contactId, text, now))[c] == multiset(contacts)[c]
  {
    if contacts != [] {
      UpdateKeepsOthers(contacts[1..], contactId, text, now, c);
      var updated := WithLastMessage(contacts, contactId, text, now);
      assert updated == [updated[0]] + WithLastMessage(contacts[1..], contactId, text, now);
      assert contacts == [contacts[0]] + contacts[1..];
    }
  }

  /** A send changes only the target contact, and only its preview and
      time: other contacts keep their multiplicity, and every entry with
      the target's id carries the sent text and the new time and is an
      old entry of that id with just those two fields replaced. */
  lemma SendChangesOnlyTarget(contacts: seq<Contact>, contactId: string, text: string,
                              now: int, c: Contact)
    ensures var r := ContactsAfterSend(contacts, contactId, text, now);
      (c.id != contactId ==> multiset(r)[c] == multiset(contacts)[c]) &&
      (c in r && c.id == contactId ==>
        c.lastMessage == text && c.lastMessageTimestamp == now &&
        exists old_c :: old_c in contacts && old_c.id == contactId &&
          c == old_c.(lastMessage := text, lastMessageTimestamp := now))
  {
    var updated := WithLastMessage(contacts, contactId, text, now);
    var r := ContactsAfterSend(contacts, contactId, text, now);
    assert multiset(r) == multiset(updated);
    if c.id != contactId {
      UpdateKeepsOthers(contacts, contactId, text, now, c);
    }
    if c in r && c.id == contactId {
      assert c in multiset(updated);
      var k :| 0 <= k < |updated| && updated[k] == c;
      assert contacts[k] in contacts;
    }
  }

  lemma TopIsNewest(r: seq<Contact>, x: Contact)
    requires NewestFirst(r) && x in r
    ensures |r| > 0 && r[0].lastMessageTimestamp >= x.lastMessageTimestamp
  {
    var m :| 0 <= m < |r| && r[m] == x;
  }

  /** Contacts other than the target keep their (older) times. */
  lemma OthersStayOlder(contacts: seq<Contact>, contactId: string, text: string, now: int)
    requires forall k :: 0 <= k < |contacts| && contacts[k].id != contactId ==>
      contacts[k].lastMessageTimestamp < now
    ensures var updated := WithLastMessage(contacts, contactId, text, now);
      forall j :: 0 <= j < |updated| && updated[j].id != contactId ==>
        updated[j].lastMessageTimestamp < now
  {
  }

  /** After a send the list is newest first; if the new time is later than
      every other contact's, the target contact is at the top. */
  lemma SendPutsTargetFirst(contacts: seq<Contact>, contactId: string, text: string, now: int)
    requires exists k :: 0 <= k < |contacts| && contacts[k].id == contactId
    requires forall k :: 0 <= k < |contacts| && contacts[k].id != contactId ==>
      contacts[k].lastMessageTimestamp < now
    ensures var r := ContactsAfterSend(contacts, contactId, text, now);
      NewestFirst(r) && |r| > 0 && r[0].id == contactId && r[0].lastMessageTimestamp == now
  {
    var updated := WithLastMessage(contacts, contactId, text, now);
    var r := ContactsAfterSend(contacts, contactId, text, now);
    SortNewestFirstOrdered(updated);
    var k :| 0 <= k < |contacts| && contacts[k].id == contactId;
    var target := updated[k];
    assert target.id == contactId && target.lastMessageTimestamp == now;
    assert target in r by {
      assert target in multiset(updated);
    }
    TopIsNewest(r, target);
    var top := r[0];
    assert top in multiset(updated);
    OthersStayOlder(contacts, contactId, text, now);
    var n :| 0 <= n < |updated| && updated[n] == top;
  }

  // ---------------------------------------------------------------------
  // Derived views

  predicate IsFor(m: Message, selected: Option<Contact>)
  {
    selected.Some? && m.contactId == selected.value.id
  }

  /** The conversation pane: the selected contact's messages, oldest first. */
  function FilteredMessages(messages: seq<Message>, selected: Option<Contact>): seq<Message>
  {
    StableSortBy(MessageTime, Filter(m => IsFor(m, selected), messages))
  }

  /** The conversation holds exactly the selected contact's messages (none
      when nothing is selected), each as often as in the message list,
      oldest first, messages with equal times in list order. */
  lemma FilteredMessagesSpec(messages: seq<Message>, selected: Option<Contact>,
                             m: Message, time: int)
    ensures var r := FilteredMessages(messages, selected);
      SortedBy(MessageTime, r) &&
      multiset(r)[m] == (if IsFor(m, selected) then multiset(messages)[m] else 0) &&
      (m in r <==> m in messages && IsFor(m, selected)) &&
      (selected.None? ==> r == []) &&
      WithKey(MessageTime, time, r)
        == WithKey(MessageTime, time, Filter(m' => IsFor(m', selected), messages))
  {
    var p := m' => IsFor(m', selected);
    var r := FilteredMessages(messages, selected);
    StableSortBySorted(MessageTime, Filter(p, messages));
    StableSortByStable(MessageTime, time, Filter(p, messages));
    FilterCount(p, messages, m);
    if selected.None? {
      FilterKeepsNone(p, messages);
    }
  }

  /** A message just sent to the selected contact, stamped no earlier than
      any of that contact's messages, shows at the bottom of the
      conversation, below an otherwise unchanged conversation. */
  lemma SentMessageShowsLast(messages: seq<Message>, selected: Option<Contact>, m: Message)
    requires IsFor(m, selected)
    requires forall k :: 0 <= k < |messages| && IsFor(messages[k], selected) ==>
      messages[k].timestamp <= m.timestamp
    ensures FilteredMessages(messages + [m], selected)
         == FilteredMessages(messages, selected) + [m]
  {
    var p := m' => IsFor(m', selected);
    var before := Filter(p, messages);
    assert Filter(p, messages + [m]) == before + [m] by {
      FilterConcat(p, messages, [m]);
    }
    forall k | 0 <= k < |before| ensures MessageTime(before[k]) <= MessageTime(m) {
      FilterMembers(p, messages, before[k]);
    }
    StableSortByAppendMax(MessageTime, before, m);
  }

  /** The search box: a contact matches when its lower-cased name contains
      the lower-cased query or its phone contains the query as typed. */
  predicate MatchesSearch(c: Contact, query: string)
  {
    Contains(Lower(c.name), Lower(query)) || Contains(c.phone, query)
  }

  predicate MatchesStatus(c: Contact, filter: StatusFilter)
  {
    filter.AllStatuses? || c.status == filter.status
  }

  predicate Shown(c: Contact, query: string, filter: StatusFilter)
  {
    MatchesSearch(c, query) && MatchesStatus(c, filter)
  }

  /** The contact pane. */
  function FilteredContacts(contacts: seq<Contact>, query: string, filter: StatusFilter)
    : seq<Contact>
  {
    Filter(c => Shown(c, query, filter), contacts)
  }

  /** The pane lists, in list order, exactly the contacts that match both
      the search and the status filter, each as often as in the list. */
  lemma FilteredContactsSpec(contacts: seq<Contact>, query: string, filter: StatusFilter,
                             c: Contact)
    ensures var r := FilteredContacts(contacts, query, filter);
      IsSubsequence(r, contacts) &&
      (c in r <==> c in contacts && Shown(c, query, filter)) &&
      multiset(r)[c] == (if Shown(c, query, filter) then multiset(contacts)[c] else 0)
  {
    var p := c' => Shown(c', query, filter);
    FilterIsSubsequence(p, contacts);
    FilterMembers(p, contacts, c);
    FilterCount(p, contacts, c);
  }

  /** With an empty search and "All", the pane shows the whole list. */
  lemma UnfilteredShowsAll(contacts: seq<Contact>)
    ensures FilteredContacts(contacts, [], AllStatuses) == contacts
  {
    forall i | 0 <= i < |contacts| ensures Shown(contacts[i], [], AllStatuses) {
      assert StartsWith(contacts[i].phone, []);
    }
    FilterKeepsAll(c => Shown(c, [], AllStatuses), contacts);
  }

  /** Typing more of a query never brings back a hidden contact: if the
      longer query contains the shorter one, every contact shown for the
      longer query is shown for the shorter one. */
  lemma LongerQueryNarrows(contacts: seq<Contact>, shorter: string, longer: string,
                           filter: StatusFilter, c: Contact)
    requires Contains(longer, shorter)
    requires c in FilteredContacts(contacts, longer, filter)
    ensures c in FilteredContacts(contacts, shorter, filter)
  {
    FilterMembers(c' => Shown(c', longer, filter), contacts, c);
    FilterMembers(c' => Shown(c', shorter, filter), contacts, c);
    if Contains(Lower(c.name), Lower(longer)) {
      LowerKeepsContains(longer, shorter);
      ContainsTransitive(Lower(c.name), Lower(longer), Lower(shorter));
    } else {
      ContainsTransitive(c.phone, longer, shorter);
    }
  }

  // ---------------------------------------------------------------------
  // The page's state

  class ChatPageState {
    var contacts: seq<Contact>
    var messages: seq<Message>
    var selected: Option<Contact>
    var searchQuery: string
    var statusFilter: StatusFilter

    /** The useState initialisers: the imported contact array is sorted in
        place, newest first, and becomes the contact list. */
    constructor (initialContacts: array<Contact>, initialMessages: seq<Message>)
      modifies initialContacts
      ensures initialContacts[..] == SortNewestFirst(old(initialContacts[..]))
      ensures contacts == initialContacts[..] && messages == initialMessages
      ensures selected == None && searchQuery == [] && statusFilter == AllStatuses
    {
      messages := initialMessages;
      selected := None;
      searchQuery := [];
      statusFilter := AllStatuses;
      new;
      SortInPlace(initialContacts, NewestFirstKey);
      contacts := initialContacts[..];
    }

    /** The effect: on a wide screen with nothing selected, select the
        first (newest) contact. */
    method AutoSelect(isMobile: bool)
      modifies this`selected
      ensures !isMobile && old(selected).None? && |contacts| > 0 ==> selected == Some(contacts[0])
      ensures isMobile || old(selected).Some? || |contacts| == 0 ==> selected == old(selected)
    {
      if !isMobile && selected.None? && |contacts| > 0 {
        selected := Some(contacts[0]);
      }
    }

    method SelectContact(contact: Contact)
      modifies this`selected
      ensures selected == Some(contact)
    {
      selected := Some(contact);
    }

    /** The mobile back button clears the selection. */
    method Back()
      modifies this`selected
      ensures selected == None
    {
      selected := None;
    }

    method SetSearchQuery(query: string)
      modifies this`searchQuery
      ensures searchQuery == query
    {
      searchQuery := query;
    }

    method SetStatusFilter(filter: StatusFilter)
      modifies this`statusFilter
      ensures statusFilter == filter
    {
      statusFilter := filter;
    }

    /** handleSendMessage: with nothing selected, nothing happens; otherwise
        one outgoing message is appended and the target contact's preview
        and time are updated, after which the list is re-sorted in place.
        The selection keeps the contact value it held before the send. */
    method HandleSendMessage(messageText: string, newId: string, now: int)
      modifies this`contacts, this`messages
      ensures old(selected).None? ==> contacts == old(contacts) && messages == old(messages)
      ensures old(selected).Some? ==>
        messages == old(messages) + [OutgoingMessage(newId, selected.value.id, messageText, now)]
      ensures old(selected).Some? ==>
        contacts == ContactsAfterSend(old(contacts), selected.value.id, messageText, now)
    {
      if selected.None? {
        return;
      }
      var contact := selected.value;
      var newMessage := OutgoingMessage(newId, contact.id, messageText, now);
      messages := messages + [newMessage];
      var updated := WithLastMessage(contacts, contact.id, messageText, now);
      var updatedContacts := new Contact[|updated|](i requires 0 <= i < |updated| => updated[i]);
      assert updatedContacts[..] == updated;
      SortInPlace(updatedContacts, NewestFirstKey);
      contacts := updatedContacts[..];
    }

    /** The compose box wired to handleSendMessage: a blank draft changes
        nothing; otherwise the trimmed draft is what gets sent. */
    method SendDraft(composer: ChatWindow.Composer, newId: string, now: int)
      modifies this`contacts, this`messages, composer
      ensures Trim(old(composer.draft)) == [] ==>
        contacts == old(contacts) && messages == old(messages) &&
        composer.draft == old(composer.draft)
      ensures Trim(old(composer.draft)) != [] ==> composer.draft == []
      ensures Trim(old(composer.draft)) != [] && selected.None? ==>
        contacts == old(contacts) && messages == old(messages)
      ensures Trim(old(composer.draft)) != [] && selected.Some? ==>
        messages == old(messages) +
          [OutgoingMessage(newId, selected.value.id, Trim(old(composer.draft)), now)] &&
        contacts == ContactsAfterSend(old(contacts), selected.value.id,
                                      Trim(old(composer.draft)), now)
    {
      var sent := composer.HandleSend();
      if sent.Some? {
        HandleSendMessage(sent.value, newId, now);
      }
    }
  }
}
