/** The shapes of src/data/chat.ts: the raw Airtable records and the
    simplified Contact and Message values the UI works with.
    Timestamps (ISO-8601 strings in the source, compared only through
    `new Date(..).getTime()`) are modelled as integers. */
module ChatData {

  datatype Option<+T> = None | Some(value: T)

  /** A value, or the message of the Error the source throws. */
  datatype Result<+T> = Ok(value: T) | Err(message: string)

  datatype Status = Active | Inactive

  datatype Direction = Incoming | Outgoing

  /** Airtable's envelope around the fields of one record. */
  datatype AirtableRecord<F> = AirtableRecord(id: string, createdTime: string, fields: F)

  /** Fields of the Contacts table. `lastMessage` is None when Airtable omits
      the field, which it does for an empty cell. */
  datatype ContactFields = ContactFields(
    name: string,
    phone: string,
    lastMessage: Option<string>,
    lastContactTime: int,
    status: Status)

  /** A linked-record cell as Airtable returns it: a non-empty array of
      record ids (an empty link is omitted from the response). */
  type LinkedIds = s: seq<string> | |s| > 0 witness [""]

  /** Fields of the Messages table. */
  datatype MessageFields = MessageFields(
    messageText: string,
    direction: Direction,
    timestamp: int,
    contact: LinkedIds)

  /** The contact shape the UI components consume. */
  datatype Contact = Contact(
    id: string,
    name: string,
    phone: string,
    lastMessage: string,
    lastMessageTimestamp: int,
    status: Status,
    avatar: string)

  /** The message shape the UI components consume. */
  datatype Message = Message(
    id: string,
    contactId: string,
    text: string,
    direction: Direction,
    timestamp: int)
}
