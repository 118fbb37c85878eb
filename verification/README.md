# Chat store model

A Dafny model of the in-memory store behind a small Flask chat service
(`app.py`). The service keeps three module-level containers:

- `users`, a dict from user name to `{email, created_at, last_seen}`;
- `rooms`, a dict from room slug to `{name, messages, created_by, created_at}`,
  seeded with `general` and `random` and iterated in insertion order;
- `private_messages`, a flat list of direct messages.

Its request handlers read and change these containers. The model is a class
`ChatStore` (store.dfy) with one field per container. Dict order is kept as
the field `roomOrder` next to the map `rooms`, and a counter `nextId` stands
for `uuid4`. Each handler body is a method or function of the class, with the
same branches, error answers and messages as the code. The pure pieces are
functions in their own modules, with lemmas about them:

- `str.strip` and the room-slug derivation (text.dfy);
- the author-checked search and the authorship rewrite over one room log
  (messages.dfy);
- room listing and message totals (rooms.dfy);
- the private-message filter, stable sort and last-50 window (private_messages.dfy);
- the last-50 slice and the error kinds (common.dfy);
- client sequences of requests, proved from the handler contracts (scenario.dfy).

Error answers are `Err(BadRequest(text))` for HTTP 400 and `Err(NotFound(text))`
for HTTP 404. `Err(Rejected(text))` stands for the form handlers that flash
`text` and re-render the page.

The signed-in user is a method parameter that must be a key of `users` (see
"## Left out" for the case where it is not). The clock is a `now: nat`
parameter. A text field of a request that is absent or empty is the empty
string; the message id of an edit or delete is `Option<nat>`, and so is the
`room` argument of the main page, with `None` when it is absent.

The store invariant `ChatStore.Valid` requires:

- every room is listed once in `roomOrder`, with `general` and `random` first;
- every room message is by a current user;
- every id handed out so far is below `nextId`, so a new message's id is fresh;
- no two room messages share an id, within one room or across rooms, as
  uuid4 ids are meant to be unique.

Every handler method keeps `Valid`.

## Model

| member | source | states |
|---|---|---|
| Common.LastPage | app.py:176 | The `[-50:]` slice: min(50, n) entries, and they are the last ones of the input in stored order |
| Common.LastPageAppend | app.py:176 | Appending one entry moves the window by one once the input has 50 entries, and only extends it before that |
| Text.LeadingSpaces | app.py:117 | The number of whitespace characters `strip` removes in front: all of them are whitespace, and the next one is not |
| Text.TrailingSpaces | app.py:117 | The same count at the end of the string |
| Text.Trim | app.py:117-118 | `str.strip`: empty exactly for all-whitespace input; otherwise the contiguous piece from the first to the last non-whitespace character, with only whitespace cut off |
| Text.TrimKeepsStripped | app.py:189 | A text that neither starts nor ends with whitespace is left as it is |
| Text.TrimIdempotent | app.py:189 | Stripping twice gives the same as stripping once |
| Text.KeepSlugChars | app.py:288 | The join-comprehension keeps only input characters that are alphanumeric or `_`, never lengthens the text, and keeps a text made only of such characters whole |
| Text.Slug | app.py:287-288 | Every slug character is in `[a-z0-9_]`, and the slug is no longer than the name |
| Text.SlugFixesSlugStrings | app.py:287-288 | A text made of `[a-z0-9_]` is its own slug |
| Text.SlugIdempotent | app.py:287-288 | `slug(slug(x)) == slug(x)` |
| Text.SlugIgnoresCase | app.py:287 | Names that differ only in letter case have the same slug |
| Text.KeepSlugCharsAppend | app.py:288 | The filter of a concatenation is the concatenation of the filtered parts |
| Text.SlugOfDevTeamLower | app.py:287-288 | "dev team" becomes `dev_team` |
| Text.SlugOfDevTeam | app.py:287-288 | "Dev Team" becomes `dev_team` |
| Text.SlugOfHyphenatedLower | app.py:287-288 | "dev-team" becomes `dev_team`: the hyphen turns into `_` |
| Text.SlugOfHyphenatedName | app.py:287-288 | "Dev-Team" becomes `dev_team` too |
| Text.SlugOfMyRoomLower | app.py:287-288 | "my room!" becomes `my_room`: the space turns into `_` and the `!` is dropped |
| Text.SlugOfMyRoom | app.py:287-288 | "My Room!" becomes `my_room` too |
| Text.SlugOfPunctuation | app.py:284-288 | The non-empty name "!!!" has the empty slug, which `create_room` accepts |
| Messages.Owns | app.py:240 | The test of the edit and delete loops: same id and written by the caller |
| Messages.ForeignNotOwned | app.py:239-240 | In a log without repeated ids, a message written by someone else is never found under its id for the caller |
| Messages.FindOwned | app.py:239-240 | The search finds a message exactly when one has this id and the caller as author, and then it is the first such message |
| Messages.Reattributed | app.py:348-350 | One message after a rename: a message by the old name names the new one as author and label; id, text, time and edit state stay; any other message is unchanged |
| Messages.ReattributeAll | app.py:346-350 | The rewrite of one room log keeps its length |
| Messages.ReattributeAllMoves | app.py:347-350 | After a real rename, no message is by the old name. The new name authors exactly what either name authored before. Ids, texts, times and edit state stay. Messages by others are untouched |
| Messages.ReattributeLog | app.py:347-350 | The loop over one room log computes exactly that rewrite |
| Rooms.Summaries | app.py:310-315 | The listing has one entry per listed room |
| Rooms.SummariesAfterNewRoom | app.py:310-315 | A room inserted under a new slug is listed last, and every earlier entry is unchanged |
| Rooms.TotalMessages | app.py:429 | The sum of the message counts of the listed rooms: every listed room's count is part of it |
| Rooms.TotalIgnoresUnlisted | app.py:429 | Changing a room that is not listed leaves the total unchanged |
| Rooms.TotalAfterUpdate | app.py:429 | Replacing one room changes the total by the difference of the two message counts |
| Rooms.TotalAfterNewRoom | app.py:429 | Listing a new room adds its message count to the total |
| Rooms.ReattributeRooms | app.py:346 | The rename visits every room and adds or drops none |
| Rooms.TotalAfterReattribute | app.py:346-350 | The rename keeps every room's name, creator, creation time and message count, hence the total and the listing |
| Rooms.RoomCount | app.py:428 | A listing that names every room once has as many entries as there are rooms |
| Rooms.DistinctCardinality | app.py:428 | A list without repeats has as many distinct elements as entries |
| Rooms.ReattributeKeepsInvariants | app.py:342-350 | After the key moves, every room message is still by a current user, and ids stay below the counter and unique |
| Rooms.IdsUniqueReplaced | app.py:198 | Replacing one room by a log without repeated ids, none used in another room, keeps every room message id unique |
| Rooms.ReattributeKeepsIds | app.py:346-350 | The rename keeps every id in place, so room message ids stay unique |
| PrivateMessages.Involves | app.py:412 | The filter test: the user sent or received the entry |
| PrivateMessages.Involving | app.py:410-413 | The filter never lengthens the list |
| PrivateMessages.InvolvingMembers | app.py:410-413 | The filter keeps exactly the entries the user sent or received, none more often than the list holds it |
| PrivateMessages.InsertByTime | app.py:416 | Insertion adds exactly the one entry: one longer, same multiset plus the entry |
| PrivateMessages.InsertAbove | app.py:416 | Inserting into entries no older than a bound, an entry no older than it, gives entries no older than it |
| PrivateMessages.ConsSorted | app.py:416 | An entry no newer than every entry of a sorted list can go in front of it |
| PrivateMessages.InsertKeepsSorted | app.py:416 | Insertion keeps a time-sorted list sorted |
| PrivateMessages.SortByTime | app.py:416 | `sort(key=timestamp)`: the result is time-sorted and is a permutation of the input |
| PrivateMessages.AtTimeCons | app.py:416 | The entries stamped `t` in front-extended list are the new entry, if stamped `t`, followed by the old ones |
| PrivateMessages.InsertKeepsTies | app.py:416 | Insertion puts the new entry in front of entries with the same time |
| PrivateMessages.SortKeepsTies | app.py:416 | The sort is stable: entries with equal timestamps keep their relative order |
| PrivateMessages.InvolvingAppend | app.py:410-413 | Appending an entry extends the selection of exactly the users it involves |
| PrivateMessages.InboxOfOthersUnchanged | app.py:410-417 | A message between two users does not change a third user's query |
| PrivateMessages.LastPageOfSorted | app.py:416-417 | The last-50 window of a time-sorted list is time-sorted and holds only its entries |
| PrivateMessages.SortedMembers | app.py:416 | The sort holds exactly the entries it was given |
| PrivateMessages.InboxWindow | app.py:410-417 | The last page of the sorted selection holds only the user's entries from the list, is time-sorted, and holds all of them when there are at most 50 |
| PrivateMessages.Inbox | app.py:410-417 | The query returns only entries the user sent or received. They are time-sorted, at most 50, and exactly the last min(50, k) of the sorted selection. When there are at most 50, it returns all of them |
| ChatApp.InvariantGrows | app.py:125-132 | A store state keeps its invariant when users are added or refreshed and the id counter grows |
| ChatApp.InvariantRoomReplaced | app.py:239-243 | Replacing a room by one whose messages are by known users, with ids below the counter, used once and in no other room, keeps the invariant |
| ChatApp.InvariantMessageAppended | app.py:198-211 | Appending a message by a known user, with an id below the counter that no room message uses, keeps the invariant |
| ChatApp.InvariantMessageEdited | app.py:241-243 | Changing one message without changing its id or author keeps the invariant |
| ChatApp.InvariantMessageRemoved | app.py:272 | Removing one message keeps the invariant |
| ChatApp.InvariantRoomAdded | app.py:295 | A new empty room under a new slug, listed last, keeps the invariant |
| ChatApp.ChatStore.constructor | app.py:27-42 | The start state: no users, no private messages, the rooms `general` and `random` (in that order), both empty and created by `system` |
| ChatApp.ChatStore.Login | app.py:116-132 | A blank name is refused with no change. A new name gets a fresh record with the stripped email. A known name only has `last_seen` refreshed |
| ChatApp.ChatStore.CurrentRoom | app.py:83-87 | The requested room if it exists, `general` if none is requested or it is unknown; always an existing room |
| ChatApp.ChatStore.ListRooms | app.py:308-315 | The loop returns the listing of all rooms in creation order, starting with `general` and `random` |
| ChatApp.ChatStore.GetMessages | app.py:173-181 | An unknown slug is not found. Otherwise the room name and the last min(50, n) messages in stored order |
| ChatApp.ChatStore.SendMessage | app.py:187-214 | A missing room id or blank text is a 400, an unknown room a 404, and both change nothing. Otherwise exactly one unedited message by the caller, with a fresh id, is appended to that room. Other rooms stay, `last_seen` is refreshed, and the total grows by one. With Common.LastPageAppend, the room's page then ends with the new message |
| ChatApp.ChatStore.EditMessage | app.py:225-250 | Missing fields give 400 and an unknown room 404. Otherwise only the first message with this id by the caller gets the new text, `edited` and `edited_at`; all others and the length stay. A missing id or someone else's message gives the same 404 and no change |
| ChatApp.ChatStore.DeleteMessage | app.py:256-275 | Missing fields give 400 and an unknown room 404. Otherwise exactly the first message with this id by the caller is removed, the rest keep their order, and the total drops by one. No match gives 404 and no change |
| ChatApp.ChatStore.CreateRoom | app.py:281-302 | A blank name gives 400, and a slug that is already taken gives "Room already exists", both with no change. Otherwise exactly one empty room created by the caller is added under the slug and listed last; other rooms and the total stay |
| ChatApp.ChatStore.SetNickname | app.py:326-350 | A blank name or another user's name is refused with no change, and keeping one's own name changes no data. Otherwise the same record moves to the new key, the old key goes, and every room message by the old name now names the new one. The listing and total stay; private messages are not touched |
| ChatApp.ChatStore.RewriteAuthors | app.py:346-350 | The nested loop applies the rewrite to every room |
| ChatApp.ChatStore.SendPrivateMessage | app.py:370-396 | A blank recipient or text is a 400, an unknown recipient a 404, and both change nothing. Otherwise exactly one entry from the caller to the recipient, with a fresh id, is appended |
| ChatApp.ChatStore.GetPrivateMessages | app.py:407-419 | Only entries from the list that the caller sent or received, time-sorted, at most 50 |
| ChatApp.ChatStore.Health | app.py:425-430 | Status "healthy"; user count, room count (rooms listed once each) and the message total over all rooms |
| Scenario.PostThenRead | app.py:173-211 | After a successful post, `get_messages` on that room ends with the new message |
| Scenario.ForeignEdit | app.py:239-250 | An edit of any message written by someone else, in any room and at any position, gets the not-found answer and leaves the rooms unchanged |
| Scenario.UnpostableRoom | app.py:188-192 | A room named "!!!" is created under the empty slug, and posting to it is a bad request, because an empty room id counts as missing |

## Left out

- The web layer is not modelled: Flask routing, `session`, `flash` texts on success, `redirect`, `render_template`, CORS, ProxyFix and the `login_required` decorator.
- Handlers called with a session whose name is not a key of `users` are not modelled. This happens after a restart, which empties `users` while the signed cookie survives. It also happens to a second session after another session renamed the user. `login_required` only checks that the session holds a name. `get_current_user` then returns `None`, and the handlers that read `user['username']` raise an error. Every handler method requires `user in users`, which excludes this crash.
- The redirect of `login` for a caller who already has a session is not modelled, because it does not touch the store.
- `send_telegram_message` and the notification texts are not modelled: they are an outbound HTTP call with no effect on the store.
- `uuid.uuid4()` is a counter. Ids are fresh by construction, which is what the code relies on; the random string itself is not modelled.
- `datetime.utcnow()` is the `now` parameter. `isoformat` and `strftime` are left out, including the `formatted_time` field of messages. The private-message sort compares the `nat` times directly, on the ground that the `isoformat` strings sort like the times they name. `isoformat` leaves out the microseconds when they are 0. The shorter string is then a prefix of any string with the same seconds, so it still sorts first.
- The fixed `'is_private': True` marker of private messages is not represented.
- Request fields that are not strings (JSON numbers, lists or `null` where text is expected) are not modelled. The message id is `Option<nat>`, with `None` for an absent or empty value.
- Text.Trim: strips only ASCII whitespace (space, 9-13, 28-31). Python's `str.strip` also removes Unicode spaces.
- Text.Slug: lower-cases and tests `isalnum` on ASCII only. Python keeps non-ASCII letters and digits, which this model drops.
- Concurrency is not modelled. The code mutates module-level containers without locking, and the model is sequential.
- models.py is not part of this model. It declares database tables that the service never connects to.
- ChatApp.ChatStore.GetPrivateMessages: its contract states membership, order and the bound. The exact window (the last min(50, k) entries of the stably sorted selection) is stated by PrivateMessages.Inbox, which it returns.
- A rename does not rewrite private messages or the `created_by` of rooms, because the code rewrites only room messages (app.py:346-350).
