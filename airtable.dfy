/** src/services/airtable.ts: turning Airtable records into the UI's
    Contact and Message values, the requests the three service calls
    issue, and the rule that turns a response into a result. The HTTP
    transport is a parameter: a function from the request issued to the
    response received. */
module Airtable {
  import opened ChatData
  import opened Seqs

  const NoMessagesYet: string := "No messages yet"
  const UnknownAvatar: string := "??"
  const FetchContactsFailed: string := "Failed to fetch contacts from Airtable."
  const FetchMessagesFailed: string := "Failed to fetch messages from Airtable."
  const SendMessageFailed: string := "Failed to send message to Airtable."

  // ---------------------------------------------------------------------
  // Avatar initials: name.split(' ').map(n => n[0]).join('')

  /** `String.prototype.split(' ')`: the pieces between single spaces, so
      consecutive, leading or trailing spaces give empty pieces. */
  function SplitOnSpace(s: string): (parts: seq<string>)
    ensures |parts| >= 1
  {
    if s == [] then [[]]
    else
      var rest := SplitOnSpace(s[1..]);
      if s[0] == ' ' then [[]] + rest
      else [[s[0]] + rest[0]] + rest[1..]
  }

  /** `Array.prototype.join(' ')`. */
  function JoinWithSpace(parts: seq<string>): string
  {
    if parts == [] then []
    else if |parts| == 1 then parts[0]
    else parts[0] + " " + JoinWithSpace(parts[1..])
  }

  /** Joining a first piece with the rest puts one space between them. */
  lemma JoinCons(head: string, rest: seq<string>)
    requires rest != []
    ensures JoinWithSpace([head] + rest) == head + " " + JoinWithSpace(rest)
  {
    assert ([head] + rest)[1..] == rest;
  }

  lemma PrefixSpace(c: char, head: string, tail: string)
    ensures ([c] + head) + " " + tail == [c] + (head + " " + tail)
  {
  }

  /** Prefixing the first piece with c prefixes the joined text with c. */
  lemma JoinExtendsFirst(c: char, parts: seq<string>)
    requires |parts| >= 1
    ensures JoinWithSpace([[c] + parts[0]] + parts[1..]) == [c] + JoinWithSpace(parts)
  {
    var head, rest := parts[0], parts[1..];
    assert parts == [head] + rest;
    if rest != [] {
      JoinCons([c] + head, rest);
      JoinCons(head, rest);
      PrefixSpace(c, head, JoinWithSpace(rest));
    } else {
      assert [[c] + head] + rest == [[c] + head];
    }
  }

  /** Splitting loses nothing: joining the pieces back gives the name. */
  lemma {:induction false} SplitJoinRoundTrip(s: string)
    ensures JoinWithSpace(SplitOnSpace(s)) == s
  {
    if s != [] {
      var rest := SplitOnSpace(s[1..]);
      SplitJoinRoundTrip(s[1..]);
      if s[0] == ' ' {
        var parts := [[]] + rest;
        assert parts[1..] == rest;
        assert JoinWithSpace(parts) == [] + " " + JoinWithSpace(rest);
      } else {
        JoinExtendsFirst(s[0], rest);
      }
      assert s == [s[0]] + s[1..];
    }
  }

  /** No piece contains the separator. */
  lemma {:induction false} SplitPiecesHaveNoSpace(s: string)
    ensures forall i :: 0 <= i < |SplitOnSpace(s)| ==> ' ' !in SplitOnSpace(s)[i]
  {
    if s != [] {
      SplitPiecesHaveNoSpace(s[1..]);
    }
  }

  /** `map(n => n[0]).join('')`: the first character of every piece; an
      empty piece gives `undefined`, which `join` renders as "". */
  function FirstChars(parts: seq<string>): (r: string)
    ensures |r| <= |parts|
  {
    if parts == [] then []
    else (if parts[0] == [] then [] else [parts[0][0]]) + FirstChars(parts[1..])
  }

  function Avatar(name: string): string
  {
    if name == [] then UnknownAvatar else FirstChars(SplitOnSpace(name))
  }

  /** Reference definition of the initials, read straight off the name:
      every non-space character that starts the name or follows a space.
      `atStart` says whether the previous character was a space (or there
      was none). */
  function WordStarts(s: string, atStart: bool): string
  {
    if s == [] then []
    else (if atStart && s[0] != ' ' then [s[0]] else []) + WordStarts(s[1..], s[0] == ' ')
  }

  lemma {:induction false} FirstCharsAreWordStarts(s: string)
    ensures FirstChars(SplitOnSpace(s)) == WordStarts(s, true)
    ensures FirstChars(SplitOnSpace(s)[1..]) == WordStarts(s, false)
  {
    if s != [] {
      FirstCharsAreWordStarts(s[1..]);
      var rest := SplitOnSpace(s[1..]);
      if s[0] == ' ' {
        assert SplitOnSpace(s)[1..] == rest;
      } else {
        assert SplitOnSpace(s)[1..] == rest[1..];
      }
    }
  }

  lemma {:induction false} WordStartsIsSubsequence(s: string, atStart: bool)
    ensures IsSubsequence(WordStarts(s, atStart), s)
    ensures |WordStarts(s, atStart)| <= |s|
  {
    if s != [] {
      WordStartsIsSubsequence(s[1..], s[0] == ' ');
      var r := WordStarts(s, atStart);
      if atStart && s[0] != ' ' {
        assert r[0] == s[0] && r[1..] == WordStarts(s[1..], s[0] == ' ');
      } else if r != [] {
        assert r == WordStarts(s[1..], s[0] == ' ');
      }
    }
  }

  /** Initials only ever copy characters of the name that are not spaces. */
  lemma {:induction false} WordStartsChars(s: string, atStart: bool, c: char)
    ensures c in WordStarts(s, atStart) ==> c in s && c != ' '
  {
    if s != [] {
      WordStartsChars(s[1..], s[0] == ' ', c);
    }
  }

  /** The avatar of a non-empty name lists, in order, the first character
      of each space-separated word; empty pieces contribute nothing, so it
      is no longer than the number of pieces nor than the name. */
  lemma AvatarInitials(name: string)
    requires name != []
    ensures Avatar(name) == WordStarts(name, true)
    ensures IsSubsequence(Avatar(name), name)
    ensures |Avatar(name)| <= |SplitOnSpace(name)| && |Avatar(name)| <= |name|
    ensures ' ' !in Avatar(name)
  {
    FirstCharsAreWordStarts(name);
    WordStartsIsSubsequence(name, true);
    WordStartsChars(name, true, ' ');
  }

  /** A one-word name gives its first character. */
  lemma {:induction false} AvatarOfOneWord(name: string)
    requires name != [] && ' ' !in name
    ensures Avatar(name) == [name[0]]
  {
    FirstCharsAreWordStarts(name);
    var s := name[1..];
    assert ' ' !in s by { assert forall i :: 0 <= i < |s| ==> s[i] == name[i + 1]; }
    NoWordStartsInsideWord(s);
  }

  lemma {:induction false} NoWordStartsInsideWord(s: string)
    requires ' ' !in s
    ensures WordStarts(s, false) == []
  {
    if s != [] {
      assert s[0] != ' ';
      assert ' ' !in s[1..] by { assert forall i :: 0 <= i < |s[1..]| ==> s[1..][i] == s[i + 1]; }
      NoWordStartsInsideWord(s[1..]);
    }
  }

  /** "??" marks a missing name: for every name without a '?' character
      the avatar is "??" exactly when the name is empty. (A name such as
      "? ?" also yields "??".) */
  lemma AvatarUnknownIffEmpty(name: string)
    requires '?' !in name
    ensures Avatar(name) == UnknownAvatar <==> name == []
  {
    if name != [] {
      FirstCharsAreWordStarts(name);
      WordStartsChars(name, true, '?');
      assert '?' in UnknownAvatar;
    }
  }

  /** A name that is not empty can still give "??". */
  lemma AvatarOfQuestionMarks()
    ensures Avatar("? ?") == UnknownAvatar
  {
    var one, two, three := "?", " ?", "? ?";
    assert one[1..] == [] && SplitOnSpace([]) == [[]];
    assert [one[0]] + [] == one;
    assert SplitOnSpace(one) == [one];
    assert two[1..] == one;
    assert SplitOnSpace(two) == [[], one];
    assert three[1..] == two && [three[0]] + [] == one;
    assert SplitOnSpace(three) == [one, one];
  }

  /** A name made only of spaces has no initials at all. */
  lemma {:induction false} AvatarOfSpaces(name: string)
    requires name != [] && forall i :: 0 <= i < |name| ==> name[i] == ' '
    ensures Avatar(name) == []
  {
    FirstCharsAreWordStarts(name);
    WordStartsChars(name, true, name[0]);
    var a := Avatar(name);
    if a != [] {
      WordStartsChars(name, true, a[0]);
      assert false;
    }
  }

  // ---------------------------------------------------------------------
  // Record transforms

  /** `record.fields['Last Message'] || 'No messages yet'`. */
  function LastMessageText(raw: Option<string>): string
  {
    match raw
    case Some(text) => if text == [] then NoMessagesYet else text
    case None => NoMessagesYet
  }

  function TransformContact(record: AirtableRecord<ContactFields>): Contact
  {
    var f := record.fields;
    Contact(record.id, f.name, f.phone, LastMessageText(f.lastMessage),
            f.lastContactTime, f.status, Avatar(f.name))
  }

  /** transformContact keeps the record's identity and fields, substitutes
      the fallback preview for a missing or empty last message, and derives
      the avatar from the name's word starts. */
  lemma TransformContactFields(record: AirtableRecord<ContactFields>)
    ensures var c, f := TransformContact(record), record.fields;
      c.id == record.id && c.name == f.name && c.phone == f.phone &&
      c.lastMessageTimestamp == f.lastContactTime && c.status == f.status &&
      (f.lastMessage.Some? && f.lastMessage.value != [] ==> c.lastMessage == f.lastMessage.value) &&
      (f.lastMessage.None? || f.lastMessage.value == [] ==> c.lastMessage == NoMessagesYet) &&
      (f.name == [] ==> c.avatar == UnknownAvatar) &&
      (f.name != [] ==> c.avatar == WordStarts(f.name, true))
  {
    if record.fields.name != [] {
      AvatarInitials(record.fields.name);
    }
  }

  function TransformMessage(record: AirtableRecord<MessageFields>): Message
  {
    var f := record.fields;
    Message(record.id, f.contact[0], f.messageText, f.direction, f.timestamp)
  }

  /** transformMessage keeps the record's identity, text, direction and
      time; the owning contact is the first entry of the linked-record
      array. */
  lemma TransformMessageFields(record: AirtableRecord<MessageFields>)
    ensures var m, f := TransformMessage(record), record.fields;
      m.id == record.id && m.contactId == f.contact[0] && m.text == f.messageText &&
      m.direction == f.direction && m.timestamp == f.timestamp
  {
  }

  // ---------------------------------------------------------------------
  // Requests and responses

  datatype Table = ContactsTable | MessagesTable

  datatype SortDirection = Asc | Desc

  /** The `fields` object of the POST body that creates a message. */
  datatype NewMessageFields = NewMessageFields(
    messageText: string,
    direction: Direction,
    contact: seq<string>,
    send: bool)

  datatype Request =
    | ListRecords(table: Table, sortField: string, sortDirection: SortDirection,
                  filterByFormula: Option<string>)
    | CreateRecord(table: Table, fields: NewMessageFields)

  /** What the transport hands back: `response.ok` and, for a list, the
      parsed `records` array. */
  datatype Response<F> = Response(ok: bool, records: seq<AirtableRecord<F>>)

  const ContactFilterPrefix: string := "{Contact}='"

  /** The `filterByFormula` that selects one contact's messages. */
  function ContactFilter(contactId: string): string
  {
    ContactFilterPrefix + contactId + "'"
  }

  /** Reads the contact id back out of a filter formula. */
  function ParseContactFilter(formula: string): Option<string>
  {
    var n := |ContactFilterPrefix|;
    if |formula| > n && formula[..n] == ContactFilterPrefix && formula[|formula| - 1] == '\''
    then Some(formula[n..|formula| - 1])
    else None
  }

  /** The formula names exactly the contact it was built for, so distinct
      contacts never share a filter. */
  lemma ContactFilterRoundTrip(contactId: string)
    ensures ParseContactFilter(ContactFilter(contactId)) == Some(contactId)
  {
    var f := ContactFilter(contactId);
    var n := |ContactFilterPrefix|;
    assert f[..n] == ContactFilterPrefix;
    assert f[n..|f| - 1] == contactId;
  }

  /** GET contacts, newest contact time first. */
  function ContactsRequest(): Request
  {
    ListRecords(ContactsTable, "Last Contact Time", Desc, None)
  }

  /** GET one contact's messages, oldest first. */
  function MessagesRequest(contactId: string): Request
  {
    ListRecords(MessagesTable, "Created Time", Asc, Some(ContactFilter(contactId)))
  }

  /** POST one outgoing message, linked to the contact, with the Send flag
      that the base's own automation acts on. */
  function SendRequest(contactId: string, messageText: string): Request
  {
    CreateRecord(MessagesTable, NewMessageFields(messageText, Outgoing, [contactId], true))
  }

  function FetchContacts(fetch: Request -> Response<ContactFields>): (r: Result<seq<Contact>>)
    ensures var response := fetch(ContactsRequest());
      (r.Err? <==> !response.ok) &&
      (r.Err? ==> r.message == FetchContactsFailed) &&
      (r.Ok? ==>
        |r.value| == |response.records| &&
        forall i :: 0 <= i < |r.value| ==> r.value[i] == TransformContact(response.records[i]))
  {
    var response := fetch(ContactsRequest());
    if !response.ok then Err(FetchContactsFailed)
    else Ok(MapSeq(TransformContact, response.records))
  }

  function FetchMessages(contactId: string, fetch: Request -> Response<MessageFields>)
    : (r: Result<seq<Message>>)
    ensures var response := fetch(MessagesRequest(contactId));
      (r.Err? <==> !response.ok) &&
      (r.Err? ==> r.message == FetchMessagesFailed) &&
      (r.Ok? ==>
        |r.value| == |response.records| &&
        forall i :: 0 <= i < |r.value| ==> r.value[i] == TransformMessage(response.records[i]))
  {
    var response := fetch(MessagesRequest(contactId));
    if !response.ok then Err(FetchMessagesFailed)
    else Ok(MapSeq(TransformMessage, response.records))
  }

  /** The created record is not returned: success carries no value. */
  function SendMessage(contactId: string, messageText: string,
                       fetch: Request -> Response<MessageFields>): (r: Result<()>)
    ensures r.Err? <==> !fetch(SendRequest(contactId, messageText)).ok
    ensures r.Err? ==> r.message == SendMessageFailed
  {
    if !fetch(SendRequest(contactId, messageText)).ok then Err(SendMessageFailed)
    else Ok(())
  }

  /** The POST body is an outgoing message linked to exactly the one
      contact, with the Send flag set; read back through transformMessage
      it is an outgoing message of that contact with that text, whatever
      id and time Airtable gives it. */
  lemma SentMessageReadsBack(contactId: string, messageText: string,
                             id: string, createdTime: string, timestamp: int)
    ensures var r := SendRequest(contactId, messageText);
      r.CreateRecord? && r.table == MessagesTable &&
      r.fields.messageText == messageText && r.fields.direction == Outgoing &&
      r.fields.contact == [contactId] && r.fields.send
    ensures var body := SendRequest(contactId, messageText).fields;
      |body.contact| > 0 &&
      TransformMessage(AirtableRecord(id, createdTime,
        MessageFields(body.messageText, body.direction, timestamp, body.contact)))
      == Message(id, contactId, messageText, Outgoing, timestamp)
  {
  }
}
