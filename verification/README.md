# Chat message state machine

A Dafny model of the server-side message handlers of a Convex chat application
(`convex/messages.ts`): sending a message, listing a conversation's history,
soft-deleting and editing one's own messages, and toggling emoji reactions.

Each handler runs in one database transaction, so each is modelled as one pure
transition over an immutable `Store` holding three tables:

- `log`: the `messages` table in insertion order. Each `Message` carries an id,
  conversation id, sender id, content, optional `replyTo`, timestamp, `isDeleted` flag
  and `reactions`, a map from emoji to a sequence of user ids.
- `conversations`: conversation id to participants, `lastMessage` and `updatedAt`.
- `unread`: the `userConversationUnreads` table as a map from (user, conversation)
  to a natural-number count. A missing row reads as zero.

Outside inputs become parameters:

- `Date.now()` is a clock value `now`.
- `ctx.auth.userId` is an optional caller id `caller`.
- The ids the store hands out come from a counter `nextId`.

Modules:

- `Base`: id types, `Option`, `Result`, duplicate-freedom.
- `Reactions`: the emoji toggle.
- `Unread`: the unread fan-out.
- `Schema`: records, the store, lookup by id, patching and the conversation index.
- `Messages`: the five handlers.
- `ChatProperties`: store invariants and facts that span several calls.

Behaviour worth noting:

- A delete does not repoint the conversation's `lastMessage`. After the newest
  message is deleted, the summary still names it (`DeleteKeepsSummaryScenario`).
- A send stamped no earlier than every stored message keeps the log, and so every
  history, sorted by timestamp (`SendKeepsTimestampsSorted`).
- Missing messages and denied callers are silent no-ops, not explicit errors.
- A reaction bucket is an array. Removal drops every occurrence of the user and
  addition appends at the end.
- The unread loop runs over the participant array, so a participant listed twice is
  bumped twice. With distinct participants each recipient gets exactly one.
- `addReaction` rejects a falsy caller id, so an empty string counts as absent there.
- A send to a missing conversation aborts the transaction (`conv!` throws), so it is
  a `Failure` and the store is unchanged.

## Model

| member | source | states |
|---|---|---|
| Messages.SendMessage | convex/messages.ts:12-55 | Fails exactly when the conversation is missing. Otherwise exactly one message is appended, carrying the given conversation, sender, content, reply target and clock value, not deleted, with no reactions. Its id is fresh and no earlier message changes. The conversation's `lastMessage` becomes the new id and `updatedAt` the clock value. No other conversation changes. Unread counters are fanned out to the participants other than the sender. |
| Messages.GetMessages | convex/messages.ts:59-69 | Returns exactly the log's messages of that conversation, soft-deleted ones included. Ids strictly increase on a valid store (creation order). Timestamps are sorted when the log's are. |
| Messages.DeleteMessage | convex/messages.ts:73-84 | A missing id changes nothing and returns nothing. If the caller is the sender, the message is flagged deleted and its content, timestamp, reply target, reactions and position are kept; nothing else in the store changes. Any other caller leaves the store unchanged. Either way the stored message is returned. |
| Messages.UpdateMessage | convex/messages.ts:88-96 | Only the sender's call changes anything: the content is replaced, and timestamp, reply target, deleted flag, reactions and every other row stay the same. A missing id or another caller leaves the store unchanged. |
| Messages.AddReaction | convex/messages.ts:100-124 | A missing message, or an absent or empty caller id, leaves the store unchanged. Otherwise only that message's reactions change, and they become the caller's toggle on that emoji. |
| Reactions.RemoveAll | convex/messages.ts:118 | The filtered bucket no longer holds the user. Every other user keeps their number of entries. A bucket without the user is returned unchanged. |
| Reactions.RemoveAllSingleton | convex/messages.ts:118 | On a single entry the filter keeps it exactly when it is not the user. Together with `RemoveAllAppend` this fixes the result: the kept entries, in their order. |
| Reactions.RemoveAllAppend | convex/messages.ts:118 | Filtering a concatenation filters each part and concatenates the results, so kept entries stay in order. |
| Reactions.Toggle | convex/messages.ts:112-121 | Afterwards the emoji key exists. The user is in the bucket exactly when they were not before, and is appended at the end when absent. Other users' entries keep their order. Other emojis are untouched. A duplicate-free bucket stays duplicate-free. |
| Reactions.ToggleTwice | convex/messages.ts:114-121 | Two toggles restore the bucket's membership and leave other emojis alone. A duplicate-free bucket gets back the same multiset. When the user was absent from an existing bucket, the exact map is restored. |
| Unread.Increment | convex/messages.ts:40-50 | An existing counter goes up by one and a missing one is created at 1. No other counter changes. |
| Unread.FanOut | convex/messages.ts:31-52 | Each counter of a participant other than the sender, in this conversation, goes up by the number of times that participant is listed; a missing counter starts from 0. The sender's counter, non-participants' counters and other conversations' counters are unchanged, including whether they exist. |
| Unread.FanOutIncrementsOnce | convex/messages.ts:31-52 | With distinct participants, each recipient's counter goes up by exactly one. |
| Schema.Find | convex/messages.ts:76-77 | Lookup by id returns the position of the first message with that id, or nothing exactly when no message has it. |
| Schema.Patch | convex/messages.ts:80 | A patch replaces one row in place. Log length, other rows, conversations, counters and the id supply are unchanged. |
| Schema.Project | convex/messages.ts:62-68 | The index scan keeps exactly the conversation's messages. It preserves increasing ids and sorted timestamps. |
| ChatProperties.SendExtendsHistory | convex/messages.ts:13-21 | A send appends the new message to its own conversation's history and leaves every other conversation's history equal. |
| ChatProperties.SoftDeleteKeepsHistory | convex/messages.ts:79-83 | After a delete, every history keeps the same ids at the same positions. The target is still listed with its original content, and is flagged exactly when it was already flagged or the caller is the sender. |
| ChatProperties.DeleteIdempotent | convex/messages.ts:76-83 | Deleting a second time changes nothing. |
| ChatProperties.UpdateLastWriterWins | convex/messages.ts:91-95 | Two edits of one message by one caller equal the second edit alone. |
| ChatProperties.EditKeepsHistory | convex/messages.ts:91-95 | After an edit, every history keeps the same ids at the same positions. The message is still listed with its deleted flag unchanged, and shows the new content exactly when the caller is the sender. |
| ChatProperties.SendKeepsValid | convex/messages.ts:13-21 | A send keeps message ids strictly increasing and below the next free id. |
| ChatProperties.SendKeepsTimestampsSorted | convex/messages.ts:13-21 | A send whose clock value is no earlier than every stored timestamp keeps the log sorted by timestamp. |
| ChatProperties.SendKeepsInvariant | convex/messages.ts:13-52 | A send keeps ids valid, keeps every conversation's `lastMessage` equal to the newest message of its history, and keeps every reaction bucket duplicate-free. |
| ChatProperties.DeleteKeepsInvariant | convex/messages.ts:73-84 | A delete keeps the same three invariants. |
| ChatProperties.UpdateKeepsInvariant | convex/messages.ts:88-96 | An edit keeps the same three invariants. |
| ChatProperties.AddReactionKeepsInvariant | convex/messages.ts:100-124 | A reaction toggle keeps the same three invariants. In particular, a duplicate-free bucket stays duplicate-free. |
| ChatProperties.SendCountsOncePerRecipient | convex/messages.ts:31-52 | With distinct participants, a send raises each other participant's count by exactly one. The sender's count and every other conversation's counts are unchanged. |
| ChatProperties.SendAllCounts | convex/messages.ts:31-52 | With distinct participants, N sends raise each other participant's count by exactly N and leave every other count unchanged. |
| ChatProperties.AddReactionTwice | convex/messages.ts:106-123 | Reacting twice with one emoji restores that bucket's membership on the message. Other emojis and other fields of that message are unchanged. Every other message is exactly as before, and so are the other tables. |
| ChatProperties.SendScenario | convex/messages.ts:13-52 | With participants A and B, when A sends "hi", B's count becomes 1 and A's stays 0, and `lastMessage` is the new id. After a reply, B's count is 2, the reply points at the first message, and the history lists both in order. |
| ChatProperties.DeleteKeepsSummaryScenario | convex/messages.ts:76-83 | The sender's delete flags the message, keeps its content and leaves `lastMessage` pointing at it. Another user's delete changes nothing and returns the message. |
| ChatProperties.ReactionScenario | convex/messages.ts:106-123 | One toggle gives the bucket [A] and a second gives []. A call with no caller id changes nothing. |

## Left out

- `markAsRead`, typing state (`setTyping`, `getTypingUsers`), `users.*` and `conversations.getConversation`: their files are not part of this model.
- `src/components/ChatArea.tsx` and `src/components/ChatApp.tsx`: presentation only. This covers scrolling, the typing debounce, date grouping and formatting, the clipboard, and user sync.
- The client's trim-and-refuse-empty guard (ChatArea.tsx:72-76): `SendMessage` accepts any content because the handler does not check it.
- The Convex runtime: argument validators, index maintenance, live-query subscriptions, and isolation between concurrent mutations. Each mutation is one atomic step.
- Message ids are a counter (`nextId`), because Convex's id strings are opaque. `replyTo` is stored as given and never resolved, as in the handler.
- The two clock reads in `sendMessage` (lines 18 and 27) are modelled as one value `now`. Wall-clock time and its millisecond width are not modelled.
- Emoji keys are plain map keys. JavaScript's inherited property names on `{}` (for example `constructor`) and Convex's rules on field names are not modelled.
- How the runtime fills in `ctx.auth.userId` is not modelled. It is taken as a given optional id.
- Messages.GetMessages: the `by_conversation` index is taken to scan a conversation's messages in creation order. The handler only names the index and asks for ascending order; the index's fields are declared in `convex/schema.ts`, which is not part of this model. If that index also keys on `timestamp`, the scan is ordered by timestamp and coincides with creation order exactly when timestamps grow with insertion, which `SendKeepsTimestampsSorted` gives for sends stamped no earlier than the stored messages.
- Messages.GetMessages: its order is stated as strictly increasing ids on a valid store. That determines the list only when the store's ids are valid; on other stores only membership and timestamp order are stated.
