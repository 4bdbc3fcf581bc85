# tars_chat backend core in Dafny

tars_chat is a one-to-one chat application. Its backend is a set of Convex
queries and mutations over five tables: users, conversations, messages,
typing indicators and read markers. This project models that backend as pure
functions over an immutable `Store`. Each mutation takes the caller's
identity and the current time `now` and returns either a new store or an
error. The model also covers the one piece of client logic that computes
anything: the reaction grouping and the deleted/own display rules of the
message bubble.

Modules follow the source files:

- `Wrappers`: `Option` and `Result`.
- `Seqs`: first-match search, filter, count and removal on sequences, with their lemmas.
- `Schema`: the documents of `convex/schema.ts` and the `Store`. It also holds:
  - the caller lookup by Clerk id;
  - the error values;
  - the store invariant `Valid`. `Valid` says that Clerk ids are unique, that there is at most one two-party conversation per unordered pair of users, that there is at most one typing mark and at most one read marker per (conversation, user), that every reaction list has at most one entry per (emoji, user), and that every message points at an existing conversation and an existing sender.
- `Text`: ASCII `toLowerCase`, ECMAScript `trim`, and `includes` with a reference definition of substring occurrence.
- `Users`: `getCurrentUser`, `getAllUsers`, `upsertUser` and `setOnlineStatus` (`src/convex/users.ts`).
- `Conversations`: `getMyConversations`, `getOrCreateConversation`, `getConversation` and `markAsRead` (`src/convex/conversations.ts`).
- `Typing`: `setTyping` and `getTypingUsers`, with the 2000 ms liveness window (`convex/typing.ts`).
- `Messages`: `getMessages`, `sendMessage`, `deleteMessage` and `toggleReaction` (`convex/messages.ts`).
- `MessageItem`: reaction grouping and the display predicates of `src/components/chat/MessageItem.tsx`.
- `Unread`: how the unread counter reacts to each message operation, and a first-contact walk-through.

Representation choices:

- The users, conversations and messages tables are never deleted from, so a document's id is its index in the table's sequence.
- Typing marks and read markers can be deleted or patched, so they are kept as sequences of records.
- A lookup with `.unique()` is modelled as "the first match". The invariant proves there is at most one match, so `.unique()` never throws in any state the mutations can reach.
- The authenticated identity is a parameter `identity: Option<string>`, holding the Clerk subject. It is resolved through the users table as the source does. This keeps "Unauthenticated" (no identity) apart from "User not found" (an identity with no user record).
- A thrown error aborts the whole Convex mutation, so every error is an `Err` with the store unchanged. In particular, `sendMessage` on a conversation id that does not exist fails when it patches the conversation. It is modelled as `Err(DocumentNotFound)` with no message inserted.

The model follows the code as written:

- `sendMessage` accepts a sender who is not a participant, and it accepts an empty body. The only empty-body guard is in the client.
- `markAsRead` can move a read marker backwards.
- `getMessages` does not check that the caller is a participant.

## Model

| member | source | states |
|---|---|---|
| Users.GetCurrentUser | src/convex/users.ts:5-15 | The result is present exactly when there is an identity and some user carries its Clerk id. It is that user's document, and under unique Clerk ids it is the only match. |
| Users.GetAllUsers | src/convex/users.ts:18-45 | Without a resolved caller the list is empty. Otherwise a user is listed iff it is not the caller and either the search is inactive or the lower-cased name contains the lower-cased untrimmed search. Every entry is a real user document. The ids are strictly increasing, so the table order is kept and no user is listed twice. |
| Users.SearchIgnoresCase | src/convex/users.ts:38-41 | Two searches that are equal after lower-casing give the same list. |
| Users.BlankSearchListsEveryoneElse | src/convex/users.ts:34-38 | An absent or whitespace-only search lists every user except the caller. |
| Text.TrimEmptyIffBlank | src/convex/users.ts:38 | `trim()` yields the empty string iff the text is all whitespace, which is when the search counts as inactive. |
| Text.LowerKeepsBlank | src/convex/users.ts:38-39 | Lower-casing neither creates nor removes blankness. |
| Text.ContainsIsOccurrence | src/convex/users.ts:40 | The executable `includes` holds iff the needle occurs at some position of the text. |
| Users.NameContainsMatches | src/convex/users.ts:39-40 | The executable name filter keeps a user iff the lower-cased search occurs in the lower-cased name. |
| Users.UpsertUser | src/convex/users.ts:56-84 | The Clerk id afterwards finds the returned id, and that user has the new name, email and image. An existing user keeps its id, online flag and last-seen time, and every other user is unchanged. A new Clerk id appends a user that is offline and last seen `now`. |
| Users.UpsertIdempotent | src/convex/users.ts:64-82 | Repeating the same upsert, at any time, returns the same id and leaves the store as it was. |
| Users.UpsertPreservesValid | src/convex/users.ts:64-82 | Upsert keeps Clerk ids unique and keeps the whole store invariant. |
| Users.SetOnlineStatus | src/convex/users.ts:87-105 | The store is unchanged without a resolved caller. Otherwise only the caller's online flag and last-seen time change. |
| Users.SetOnlineStatusKeepsIdentities | src/convex/users.ts:98-103 | Presence updates keep the invariant and resolve every identity to the same user as before. |
| Conversations.OtherParticipant | src/convex/conversations.ts:31-33 | The other participant, if found, is a participant different from the caller. None is returned exactly when every participant is the caller. |
| Conversations.UnreadCount | src/convex/conversations.ts:44-57 | The count is at most the number of messages. It is positive iff some message of the conversation, from someone other than the reader, was created after the reader's last read time. |
| Conversations.LastReadTime | src/convex/conversations.ts:37-44 | The value is 0 when the caller has no marker in the conversation. Under unique markers it equals the time on the caller's marker. |
| Conversations.UpsertReadMarker | src/convex/conversations.ts:148-163 | Afterwards the first (conversation, user) marker carries `now`, and the count of every other marker is unchanged. |
| Conversations.UpsertReadMarkerUnique | src/convex/conversations.ts:148-163 | Patch-or-insert keeps at most one marker per (conversation, user). |
| Conversations.MarkAsRead | src/convex/conversations.ts:135-165 | The store is unchanged without a resolved caller. Otherwise only read markers change, the caller's last read time becomes `now`, and other users' markers are untouched. |
| Conversations.MarkAsReadPreservesValid | src/convex/conversations.ts:148-163 | Marking as read keeps the store invariant. |
| Conversations.UnreadAfterMarkAsRead | src/convex/conversations.ts:155-163 | Once every message is at or before `now`, the caller's unread count in that conversation is 0 after marking it read. |
| Conversations.InsertByTime | src/convex/conversations.ts:26 | Inserting into a list sorted newest first keeps it sorted and adds exactly one element. |
| Conversations.SortByTimeDesc | src/convex/conversations.ts:26 | The result is sorted by last message time, non-increasing, and is a permutation of the input. |
| Conversations.MyConversationDocs | src/convex/conversations.ts:18-26 | The caller's conversations, sorted newest first, are a permutation of the conversations whose participants include the caller. |
| Conversations.MyConversationDocsExact | src/convex/conversations.ts:18-23 | Each conversation appears once if the caller is a participant and not at all otherwise. |
| Conversations.GetMyConversations | src/convex/conversations.ts:5-69 | Without a resolved caller the list is empty. Otherwise the rows are the caller's conversations, newest first. Each row carries the other participant's user and an unread count equal to the number of messages after the last read time from someone else. |
| Conversations.GetMyConversationsExact | src/convex/conversations.ts:18-23 | Every row is a stored conversation. Each conversation of the caller is listed exactly once, and no other conversation is listed. |
| Conversations.GetOrCreateConversation | src/convex/conversations.ts:72-103 | Fails with Unauthenticated or UserNotFound and succeeds otherwise. The returned conversation has two participants including both users. An existing one is the first such and leaves the store unchanged. Otherwise one conversation `[caller, other]` is appended with time `now` and no preview. |
| Conversations.GetOrCreateSymmetric | src/convex/conversations.ts:86-101 | Get-or-create for (A, B) followed by get-or-create for (B, A) returns the same id and changes nothing the second time. |
| Conversations.GetOrCreatePreservesValid | src/convex/conversations.ts:86-101 | Get-or-create keeps at most one two-party conversation per unordered pair, and the whole invariant. |
| Conversations.GetOrCreateUniquePair | src/convex/conversations.ts:86-101 | For two distinct users the returned conversation has participant set {caller, other}, and no other conversation has it. |
| Conversations.TwoSlotPair | src/convex/conversations.ts:89-91 | A two-slot participant list containing two distinct users has exactly those two as its set. |
| Conversations.OtherUser | src/convex/conversations.ts:31-34 | The other user is present iff there is another participant and its user document exists, and it is then that participant's document. |
| Conversations.GetConversation | src/convex/conversations.ts:106-132 | A result is present iff the caller is resolved, the conversation exists and the caller is a participant. It then carries the conversation, the caller's document, and the other participant's user document. |
| Conversations.GetConversationShowsOther | src/convex/conversations.ts:121-130 | In a conversation of the caller and another existing user, in either slot order, the detail carries that user's document. |
| Typing.IsLive | convex/typing.ts:60-71 | A mark is live iff it is less than 2000 ms old at `now`. A mark stamped at or after `now` is live, and one 2000 ms old or older is not. |
| Typing.RefreshTypingMark | convex/typing.ts:28-38 | A mark `(c, u, now)` is present afterwards, and marks of other (conversation, user) keys are untouched. |
| Typing.RefreshTypingMarkUnique | convex/typing.ts:21-38 | Refreshing keeps at most one mark per key, and the caller's only mark carries `now`. |
| Typing.RemoveTypingMark | convex/typing.ts:39-41 | Removal leaves other keys' marks untouched, and it is a no-op when the caller has no mark. Under unique marks, no mark of the caller remains. |
| Typing.RemoveTypingMarkUnique | convex/typing.ts:39-41 | Under unique marks, no mark of the caller remains and uniqueness is kept. |
| Typing.SetTyping | convex/typing.ts:5-43 | It is a no-op without a resolved caller. Only typing marks change, and other keys are untouched. Typing leaves a mark stamped `now`. Stopping with no mark changes nothing, and under unique marks stopping leaves no mark of the caller. |
| Typing.SetTypingPreservesValid | convex/typing.ts:21-41 | The invariant is kept. Afterwards the caller's marks in the conversation are exactly one stamped `now` when typing, and none when not. |
| Typing.UsersOfMarks | convex/typing.ts:74-76 | A user is listed iff some mark names it, and marks naming a missing user are dropped. |
| Typing.UsersOfMarksCount | convex/typing.ts:74-76 | Each existing user's document occurs exactly as often as there are marks by that user: one entry per mark of an existing user. |
| Typing.UsersOfMarksDistinct | convex/typing.ts:74-76 | Marks by pairwise different users give documents of pairwise different users. |
| Typing.ActiveTypers | convex/typing.ts:60-72 | A user has a mark among the filtered records iff it is not the caller and it has a mark in the conversation newer than `now - 2000`. |
| Typing.GetTypingUsers | convex/typing.ts:46-78 | The list is empty without a resolved caller. Otherwise a user is listed iff it is not the caller and has a live mark in the conversation, and every entry is a real user document. Under unique marks no user is listed twice. |
| Typing.RefreshedTypingIn | convex/typing.ts:60-72 | Right after a refresh at t0, the user counts as typing at `now` iff t0 > now - 2000. |
| Typing.TypingExpiresScenario | convex/typing.ts:60-72 | A mark set at t0 is visible to another user at t0+1900. It is not visible at t0+2000, where the window is strict, or at t0+2100. |
| Messages.Preview | convex/messages.ts:58 | The preview is a prefix of the body, of length min(50, length of body). |
| Messages.MessageIdsFrom | convex/messages.ts:11-17 | The ids are exactly the messages of the conversation from a given position on, and they are strictly increasing. |
| Messages.GetMessages | convex/messages.ts:5-29 | The list is empty without an identity. Otherwise every message of the conversation is listed, soft-deleted ones included, in ascending id order, each with its sender's document. |
| Messages.GetMessagesAscending | convex/messages.ts:11-17 | Under a clock that never runs backwards, the listing is in ascending creation time. |
| Messages.SendMessage | convex/messages.ts:32-73 | The errors are Unauthenticated, UserNotFound, and DocumentNotFound for a missing conversation, and it succeeds otherwise. It appends the caller's message with the body, empty reactions and no deletion mark. The conversation gets time `now` and the body's preview, and no other conversation changes. Users and read markers are unchanged. Under unique marks no typing mark of the sender remains. Other marks are untouched. |
| Messages.SendMessagePreservesValid | convex/messages.ts:48-69 | Sending keeps the store invariant, including the requirement that every message points at an existing conversation and sender. |
| Messages.SendMessageKeepsChronological | convex/messages.ts:48-53 | Appending a message stamped `now`, not before any stored message, keeps the messages in creation-time order. |
| Messages.DeleteMessage | convex/messages.ts:76-94 | The errors are Unauthenticated, MessageNotFound, and NotOwnMessage when the caller is not the resolved sender. On success only that message's `deletedAt` is set to `now`. |
| Messages.DeleteMessagePreservesValid | convex/messages.ts:92 | A soft delete keeps the store invariant. |
| Messages.DeleteKeepsListing | convex/messages.ts:92 | After a soft delete every conversation lists the same ids in the same order, with the same sender, body, reactions and time. |
| Messages.ToggleIn | convex/messages.ts:116-127 | An absent (emoji, user) entry is appended. For a present one, its first occurrence is cut out and the entries before and after it stay in order, so every other entry keeps its multiplicity. |
| Messages.ToggleInFlips | convex/messages.ts:116-127 | With unique entries, membership of (emoji, user) flips, other entries keep their multiplicity, and uniqueness is kept. |
| Messages.ToggleTwiceAbsent | convex/messages.ts:116-127 | Toggling an absent entry twice restores the list exactly. |
| Messages.ToggleTwicePresent | convex/messages.ts:116-127 | With unique entries, toggling a present entry twice restores the list as a multiset. |
| Messages.ToggleReaction | convex/messages.ts:97-131 | The errors are Unauthenticated, UserNotFound and MessageNotFound. On success only that message's reactions change, to the toggled list, with a missing list read as empty. |
| Messages.ToggleReactionPreservesValid | convex/messages.ts:116-129 | Toggling keeps at most one entry per (emoji, user), and the whole invariant. |
| Messages.ToggleReactionTwice | convex/messages.ts:116-129 | Two identical toggles restore the reactions exactly when the entry was absent, and as a multiset when it was present. |
| MessageItem.IsDeleted | src/components/chat/MessageItem.tsx:33 | A message never deleted is live, one with deletion time 0 is live, and one deleted at a positive time is deleted. |
| MessageItem.DisplayedBody | src/components/chat/MessageItem.tsx:82 | The bubble shows the body or the placeholder. A deleted message shows the placeholder, and a never-deleted one shows its body. |
| MessageItem.ShowsDeleteButton | src/components/chat/MessageItem.tsx:59 | The delete button appears only on the viewer's own messages whose body is shown, and on every own message never deleted. |
| MessageItem.OnDoubleClick | src/components/chat/MessageItem.tsx:79 | A double-click changes the picker state iff the message is not deleted. |
| MessageItem.ShowsPicker | src/components/chat/MessageItem.tsx:86 | The picker appears only when opened and the body is shown, and always when opened on a never-deleted message. |
| MessageItem.DoubleClickTwice | src/components/chat/MessageItem.tsx:79-86 | Two double-clicks restore the picker state. The picker can be shown, before or after a double-click, iff the message is not deleted. |
| MessageItem.DeletedMessageIsMasked | convex/messages.ts:92 | After a soft delete at a non-zero time, the stored body is kept, but the bubble shows the placeholder and offers no delete button and no picker. |
| MessageItem.LiveMessageShowsBody | src/components/chat/MessageItem.tsx:59-86 | A message never deleted shows its body, opens the picker on a double-click, and offers the delete button exactly to its owner. |
| MessageItem.GroupReactions | src/components/chat/MessageItem.tsx:36-44 | The groups have distinct emojis. Each group's count is the number of entries with that emoji, and is at least 1. Every emoji present has a group. `isMine` holds iff some entry with that emoji is the viewer's. The counts sum to the number of entries, with a missing list read as empty. |
| MessageItem.AddReactionGroups | src/components/chat/MessageItem.tsx:38-43 | One loop step turns the groups of a prefix into the groups of the prefix extended by one entry. |
| MessageItem.AddReactionSum | src/components/chat/MessageItem.tsx:42 | One loop step raises the sum of counts by one. |
| Unread.UnreadCountAfterSend | src/convex/conversations.ts:54-57 | Sending raises the unread count by one, and only for the message's conversation, for a reader other than the sender whose last read is before `now`. Every other count is unchanged, so one's own messages never count. |
| Unread.UnreadCountAfterDelete | src/convex/conversations.ts:54-57 | A soft delete changes no unread count, because deleted messages still count. |
| Unread.UnreadCountAfterToggle | src/convex/conversations.ts:54-57 | Reacting changes no unread count. |
| Unread.NoMessagesNoUnread | src/convex/conversations.ts:44-57 | A conversation with no messages has an unread count of 0, whatever the read marker says. |
| Unread.FirstMessage | convex/messages.ts:48-59 | The first message of a conversation sets its preview and time. It gives the recipient one unread message and the sender none. |
| Unread.LastReadTimeBelow | src/convex/conversations.ts:44 | If every recorded read time is before a positive bound, so is the caller's last read time. |
| Unread.ReadAfterSent | src/convex/conversations.ts:155-163 | Marking read at a time not before any message, right after a send, leaves the reader nothing unread. |
| Unread.FirstContact | src/convex/conversations.ts:86-101 | When A opens a new conversation with B and sends "hi": the conversation is appended with participants [A, B] and preview "hi". B has one unread message and A none. After B marks it read, B has none. |

## Left out

- Authentication and the Clerk lookup are not modelled. The identity subject is a parameter, and the lookup is a scan of the users table by Clerk id.
- The Clerk webhook in `src/convex/http.ts` is not part of this model. It forwards to `upsertUser`, which is modelled.
- Concurrency is not modelled. Convex serialises mutations, so calls are modelled one at a time, and the at-most-one-conversation-per-pair property is proved per call.
- Index declarations, the query builder, `.collect()` and `Promise.all` are not modelled. They become sequence filters in table order, and messages of a conversation are listed in id order.
- `.unique()` throws when it finds more than one match. That is not modelled, because the invariant rules out a second match.
- `getUserById` is not modelled. It is a plain lookup outside the core.
- The pages, layouts, sidebar and other React components are not modelled, and neither are `formatMessageTime` and `cn`.
- `sendMessage` checks neither that the sender is a participant nor that the body is non-empty (convex/messages.ts:48-53); only src/components/chat/MessageInput.tsx:29-30 trims the body, client-side. The model adds neither check.
- Text.Lower: covers ASCII letters only. JavaScript `toLowerCase` also folds non-ASCII letters.
- Messages.Preview: slices characters, whereas JavaScript slices UTF-16 code units. The two differ only for text outside the Basic Multilingual Plane.
- Conversations.SortByTimeDesc: the contract states order and permutation, but not the stability of JavaScript's `sort` among equal times.
- Conversations.OtherParticipant: a conversation whose participants are all the caller (get-or-create with oneself) has no other participant. The source's non-null assertion then passes `undefined` to `db.get`. This is modelled as "no other user", not as a thrown error.
- Conversations.GetOrCreateConversation: for `other` equal to the caller, the source matches any two-party conversation of the caller. The model follows that.
- MessageItem.GroupReactions: the contract states the set of groups and their contents, not their order. `Object.entries` lists integer-like emoji keys ("1", "42") first, in ascending numeric order, and the other keys in first-occurrence order.
- MessageItem.GroupReactions: the groups live in a plain JavaScript object, so an emoji that names an `Object.prototype` member ("toString", "constructor", "__proto__") reads an inherited truthy value. The source then creates no group, bumps a count on the prototype, and `Object.entries` shows no chip for it. The model gives every emoji its own group.
- MessageItem.AddReactionGroups: one loop step always creates or bumps the emoji's own group. For an `Object.prototype` member name the source creates none, and integer-like keys are reordered as above.
- MessageItem.AddReactionSum: one loop step always raises the sum of shown counts by one. For an `Object.prototype` member name the count lands on the prototype, and the shown sum does not change.
- MessageItem.IsDeleted: follows `!!message.deletedAt`, so a deletion time of 0 reads as not deleted.
- The message bubble's `isOwn` and `currentUserId` are parameters. `src/components/chat/MessageList.tsx` does not pass them, which makes both unset in the running client. The model keeps them general.
- A message's `creationTime` (Convex's `_creationTime`) is taken to be the `now` of `sendMessage`, the same `Date.now()` it stores as the conversation's last message time. Convex stamps `_creationTime` itself, so the two may differ slightly.
- Unread.FirstContact: assumes a clock that only moves forward. It takes as preconditions that earlier read times are before the send, and that earlier messages are at or before the read.
