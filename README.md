# WABA chat core in Dafny

WABA is a small chat front end over Airtable: a contact list with a search
box and a status filter, a conversation pane for the selected contact,
and a compose box. This project models three parts of it in Dafny:

- **The Airtable service** (`src/services/airtable.ts`), as pure functions
  (module `Airtable`). It covers the transformation of raw contact and
  message records (the fallback preview text and the avatar initials),
  the three requests the service issues, and the rule that turns a
  response into a result or an error.
- **The chat page** (`src/pages/ChatPage.tsx`), as the class
  `ChatPage.ChatPageState`. It holds the contact list, the message list,
  the selection, the search text and the status filter. Its methods are
  the page's handlers: the initial sort, auto-selection, selecting and
  going back, and sending. Both contact sorts run in place on an `array`,
  as in the source. The two derived lists, `filteredMessages` and
  `filteredContacts`, are functions.
- **The compose box** (`src/components/ChatWindow.tsx`), as the class
  `ChatWindow.Composer`. Its only field is the draft. `HandleSend` trims
  the draft, rejects a blank one, and otherwise hands over the trimmed
  text and clears the draft.

Supporting modules:

- `ChatData`: the shapes of `src/data/chat.ts`.
- `Seqs`: `map`, `filter` and subsequences.
- `Sorting`: `Array.prototype.sort`. Since ES2019 this sort is stable, so
  its result is determined: `StableSortBy` is that result, and
  `SortInPlace` computes it with an in-place insertion sort. A descending
  comparator is an ascending sort on the negated key.
- `Text`: `toLowerCase`, `includes` and `trim`.

Timestamps are integers: the source only compares them through
`new Date(..).getTime()`. New message ids and the current time are
parameters. The HTTP transport is a function parameter that maps the
request issued to the response received.

Behaviour of the code worth noting:

- The avatar splits the name on the single character `' '`, not on any
  white space.
- A send changes only the page's local state; nothing is re-fetched.
- Contacts with equal times are not strictly ordered. They keep their
  previous relative order.
- The phone search is case-sensitive.
- The send error message is "Failed to send message to Airtable.".

## Model

| member | source | states |
|---|---|---|
| Airtable.TransformContactFields | src/services/airtable.ts:17-25 | transformContact keeps id, name, phone, status, and the last contact time as the timestamp. A non-empty last message is kept. A missing or empty one becomes "No messages yet". An empty name gives "??". A non-empty name gives the first character of each space-separated word. |
| Airtable.AvatarInitials | src/services/airtable.ts:24 | For a non-empty name, the avatar equals the reference definition `WordStarts`: every non-space character at the start of the name or right after a space. It is an in-order subsequence of the name, no longer than the number of pieces or the name, and never contains a space. |
| Airtable.FirstCharsAreWordStarts | src/services/airtable.ts:24 | `split(' ').map(n => n[0]).join('')` equals the reference `WordStarts`. Empty pieces contribute nothing. |
| Airtable.SplitOnSpace | src/services/airtable.ts:24 | `split(' ')` always yields at least one piece. |
| Airtable.SplitJoinRoundTrip | src/services/airtable.ts:24 | Splitting on `' '` loses nothing: joining the pieces with `' '` gives back the name. |
| Airtable.SplitPiecesHaveNoSpace | src/services/airtable.ts:24 | No piece of the split contains a space. |
| Airtable.AvatarOfOneWord | src/services/airtable.ts:24 | A non-empty name without a space gives exactly its first character. |
| Airtable.AvatarUnknownIffEmpty | src/services/airtable.ts:24 | For a name without '?', the avatar is "??" if and only if the name is empty. |
| Airtable.AvatarOfQuestionMarks | src/services/airtable.ts:24 | The non-empty name "? ?" also gives "??". |
| Airtable.AvatarOfSpaces | src/services/airtable.ts:24 | A name made only of spaces gives the empty avatar, not "??". |
| Airtable.TransformMessageFields | src/services/airtable.ts:28-34 | transformMessage keeps id, text, direction and timestamp. The contact id is element 0 of the linked-record array. |
| Airtable.ContactFilterRoundTrip | src/services/airtable.ts:47 | The formula `{Contact}='<id>'` parses back to exactly that id. |
| Airtable.FetchContacts | src/services/airtable.ts:36-44 | The contacts request is a list request sorted by "Last Contact Time" descending. A non-ok response is an error with the source's message, and only a non-ok response is. An ok response gives the records transformed, same length, same order. |
| Airtable.FetchMessages | src/services/airtable.ts:46-55 | The same rule for the messages request: "Created Time" ascending, filtered to the contact. |
| Airtable.SendMessage | src/services/airtable.ts:57-71 | The send fails, with the source's message, exactly when the response is not ok. |
| Airtable.SentMessageReadsBack | src/services/airtable.ts:57-66 | The POST body has the given text, direction Outgoing, the contact list `[contactId]` and Send set to true. Read back through transformMessage, it is an outgoing message of that contact with that text. |
| Sorting.StableSortBy | src/pages/ChatPage.tsx:19-23 | Sorting rearranges: the result is a permutation of the input. |
| Sorting.StableSortBySorted | src/pages/ChatPage.tsx:64-68 | The sorted result is ordered by the key. |
| Sorting.StableSortByStable | src/pages/ChatPage.tsx:64-68 | The sort is stable: for every key value, the elements with that key keep their input order. |
| Sorting.InsertInPlace | src/pages/ChatPage.tsx:64-68 | One pass of the in-place sort moves `a[i]` to its insertion point in the sorted prefix and leaves the rest of the array alone. |
| Sorting.SortInPlace | src/pages/ChatPage.tsx:64-68 | Sorting an array in place leaves in it exactly `StableSortBy` of its old contents. |
| Sorting.StableSortByAppendMax | src/pages/ChatPage.tsx:76-79 | An element whose key is at least every other key ends up last, after the sort of the others. |
| ChatPage.SortNewestFirstOrdered | src/pages/ChatPage.tsx:18-24 | The contact order is newest first and a permutation of its input. |
| ChatPage.SortNewestFirstSpec | src/pages/ChatPage.tsx:18-24 | As above; in addition, contacts with equal times keep their input order. |
| ChatPage.ChatPageState.constructor | src/pages/ChatPage.tsx:18-28 | The imported contact array is sorted newest first in place and becomes the list. The messages are the imported ones. Nothing is selected, the search is empty and the filter is "All". |
| ChatPage.ChatPageState.AutoSelect | src/pages/ChatPage.tsx:31-35 | On a wide screen with nothing selected and a non-empty list, `contacts[0]` becomes selected. In every other case the selection is unchanged. |
| ChatPage.ChatPageState.SelectContact | src/pages/ChatPage.tsx:37-39 | The selection becomes the chosen contact. |
| ChatPage.ChatPageState.Back | src/pages/ChatPage.tsx:111 | The mobile back button clears the selection. |
| ChatPage.ChatPageState.SetSearchQuery | src/pages/ChatPage.tsx:27 | The search text becomes the typed text. |
| ChatPage.ChatPageState.SetStatusFilter | src/pages/ChatPage.tsx:28 | The status filter becomes the chosen one. |
| ChatPage.ChatPageState.HandleSendMessage | src/pages/ChatPage.tsx:41-71 | With nothing selected, neither list changes. Otherwise exactly one outgoing message for the selected contact is appended after the unchanged old messages, and the contact list becomes `ContactsAfterSend`: the target's preview and time are updated, then the list is re-sorted newest first. |
| ChatPage.SendKeepsIds | src/pages/ChatPage.tsx:54-68 | A send keeps the multiset of contact ids. |
| ChatPage.UpdateKeepsOthers | src/pages/ChatPage.tsx:55-63 | Every contact other than the target occurs after the map exactly as often as before. |
| ChatPage.SendChangesOnlyTarget | src/pages/ChatPage.tsx:54-68 | After a send, other contacts keep their multiplicity. Every entry with the target's id is an old entry of that id with only its preview and time replaced, by the sent text and the new time. |
| ChatPage.SendPutsTargetFirst | src/pages/ChatPage.tsx:54-68 | After a send the list is newest first. If the target is in the list and the new time is later than every other contact's, the target is at index 0 with the new time. |
| ChatPage.FilteredMessagesSpec | src/pages/ChatPage.tsx:73-80 | The conversation holds exactly the selected contact's messages, each as often as in the list, and none when nothing is selected. They are oldest first, and equal times keep list order. |
| ChatPage.SentMessageShowsLast | src/pages/ChatPage.tsx:73-80 | A message for the selected contact that is no older than that contact's other messages shows at the bottom. The conversation above it is unchanged. |
| ChatPage.FilteredContactsSpec | src/pages/ChatPage.tsx:82-91 | The contact pane is an order-preserving subsequence of the list. A contact is shown if and only if it matches the search (lower-cased name contains the lower-cased query, or the phone contains the query as typed) and the status filter. Each shown contact appears as often as in the list. |
| ChatPage.UnfilteredShowsAll | src/pages/ChatPage.tsx:82-91 | An empty search with "All" shows the whole list, unchanged. |
| ChatPage.LongerQueryNarrows | src/pages/ChatPage.tsx:84-86 | A contact shown for a query is also shown for any query the first one contains. |
| ChatPage.ChatPageState.SendDraft | src/pages/ChatPage.tsx:137-141 | The compose box wired to handleSendMessage. A blank draft changes nothing. Otherwise the draft is cleared. With a selection, the trimmed draft is appended as an outgoing message and the contacts are updated and re-sorted. |
| Text.ContainsIffOccurs | src/pages/ChatPage.tsx:85-86 | `includes` holds if and only if the needle occurs at some position. |
| Text.ContainsTransitive | src/pages/ChatPage.tsx:85-86 | An occurrence of an occurrence is an occurrence. |
| Text.LowerKeepsContains | src/pages/ChatPage.tsx:85 | Lower-casing both strings keeps an occurrence. |
| Text.LowerChar | src/pages/ChatPage.tsx:85 | Lower-casing a character never yields an upper-case ASCII letter: A–Z become a–z, and every other character is kept. |
| Text.LowerIdempotent | src/pages/ChatPage.tsx:85 | Lower-casing twice is lower-casing once. |
| Text.TrimIsCore | src/components/ChatWindow.tsx:40-41 | `trim` returns the slice left after removing leading and trailing white space. What it removes is all white space, and a non-empty result neither starts nor ends with white space. |
| Text.TrimEmptyIffBlank | src/components/ChatWindow.tsx:40 | A draft trims to nothing if and only if it is all white space. |
| Text.TrimIdempotent | src/components/ChatWindow.tsx:41 | Trimming a trimmed text changes nothing. |
| ChatWindow.Composer.constructor | src/components/ChatWindow.tsx:25 | The draft starts empty. |
| ChatWindow.Composer.Change | src/components/ChatWindow.tsx:116 | A change event replaces the draft with the input's value. |
| ChatWindow.Composer.HandleSend | src/components/ChatWindow.tsx:39-44 | A blank draft sends nothing and is kept. Otherwise the trimmed draft is sent exactly once and the draft is cleared. The sent text is never empty and neither starts nor ends with white space. |
| ChatWindow.Composer.KeyPress | src/components/ChatWindow.tsx:117 | Only Enter sends, and it does exactly what HandleSend does. Any other key changes nothing. |
| ChatWindow.Composer.ClickSend | src/components/ChatWindow.tsx:119 | The Send button does exactly what HandleSend does. |

## Left out

- The network and JSON: the `fetch` calls, the Authorization header, `response.json()`, and the query-string encoding and `encodeURIComponent`. Requests are values; the transport is a function parameter.
- Dates: the parsing and formatting done by `new Date`, `toISOString` and `toLocaleTimeString` are not modelled. Timestamps are integers, so an unparsable date (NaN in the comparator) is not modelled either.
- `Date.now()` ids and the current time are parameters of `HandleSendMessage`.
- The `useIsMobile` hook is the boolean input of `AutoSelect`.
- React's scheduling of effects and state updates is not modelled. The auto-select effect is a method the caller runs. The two state updates of a send happen in sequence.
- Rendering is not modelled: scroll-into-view, layout panels, `ContactList.tsx` and `capacitor.config.ts`.
- The import wiring is not modelled. `ChatPage.tsx` imports `contacts` and `messages` that `src/data/chat.ts` does not export, and it omits the `isLoading` prop. The initial lists are constructor parameters.
- Text: `toLowerCase` maps only the ASCII letters A–Z, not all of Unicode. Strings are sequences of characters, not UTF-16 code units, so `n[0]` of any word that starts with a surrogate pair is the whole character.
- A missing `Name` field (`undefined` rather than `""`) is not modelled. Names are strings, and the empty name takes the "??" branch.
- A message record whose `Contact` link is missing or empty is not modelled. The source would throw or yield `undefined`. The raw link is the non-empty type `LinkedIds`, since Airtable omits an empty link field.
- Server-side behaviour is not modelled: the sort and filter Airtable applies to list requests, and the automation behind the Send flag. The model states only which sort and filter are requested.
- ChatPage.LongerQueryNarrows: holds because lower-casing is modelled one ASCII character at a time. JavaScript's `toLowerCase` lowers a final capital sigma to ς, so the name "ΑΣΒ" is shown for the query "ΑΣΒ" ("ασβ") but hidden for the shorter query "ΑΣ" ("ας"); the model does not capture this.
- Airtable.AvatarUnknownIffEmpty: stated only for names without '?'. The non-empty name "? ?" also gives "??" (`AvatarOfQuestionMarks`), so the unrestricted if-and-only-if does not hold.
- ChatPage.SendPutsTargetFirst: requires the selected contact to be in the list and the new time to be strictly later than every other contact's time. With a tie, a stable sort may leave an older entry first.
- The selection keeps the contact value it held before a send. The source does the same, so the selected contact's stored preview goes stale. The model records this but states no property about it.
