# realtime-chat, modelled in Dafny

This project models the core of a one-to-one chat application built on
Laravel (PHP) with a React client. It covers the following parts:

- **Tables.** The `conversations` and `messages` tables are classes. Each
  holds a map from id to row and an auto-increment counter. Time is an
  integer parameter.
- **Conversation model.** `getOtherUser`, the `betweenUsers` scope and the
  `messages` relation, oldest first.
- **User model.** The `conversations` attribute (most recent activity
  first, NULL last as MySQL and SQLite order it) and `getConversationWith`, the find-or-create that
  stores every new pair with the smaller id first.
- **Message model.** `markAsRead` and the `unread` scope.
- **StoreMessageRequest.** Authorization, the rules on `message`,
  `conversation_id` and `user_id`, the after-hook that demands exactly one
  of the two keys, and the custom error texts.
- **ChatController.**
  - `index`: summaries with previews and unread counts.
  - `show`: the page data.
  - `store`: 403/422/404/500/201, with the broadcast.
  - `markMessagesAsRead`.
  - `sendTypingIndicator`.
- **UserController.** `index` and `search`: name or email filter, PHP
  `empty`, pages of ten.
- **Events.** The four broadcast events: their channel `chat.{id}`, their
  broadcast names and their payloads. A log records each `broadcast(...)`
  call.
- **routes/channels.php.** The channel authorization callback.
- **ChatMessages.jsx.**
  - de-duplicating `addMessage`;
  - read receipts;
  - the last own message and its checkmark;
  - the typing guard and its 3-second hide timer;
  - `formatMessageTime`'s buckets;
  - Echo's event-name formatting.
- **MessageForm.jsx.** The typing throttle (2.5 s) with its 1-second reset
  timer, and the submit cycle.

Modules follow the source files: `Text`, `Wrappers` and `Ordering` are shared
helpers; `Messages`, `Conversations` and `Users` are the models and tables;
`StoreMessageRequest`, `ChatController` and `UserDirectory` the HTTP layer;
`Events` and `Channels` the broadcasting side; `ChatMessagesView` and
`MessageFormView` the two client components. Where the source changes
state step by step (tables, the event log, the two components) the model is a
class whose methods state the whole new state; where it computes a value the
model is a function, and its properties are lemmas.

Order: a query without ORDER BY returns rows in id order, and an ORDER BY ties
break by id. Under `orderBy('last_message_at', 'desc')` a NULL sorts after
every timestamp, as MySQL and SQLite place it. PostgreSQL puts NULL first in a
descending order, and the source fixes no database. The HTTP request is modelled after Laravel's input middleware:
a value arrives as its string form, missing (`Missing`/`Absent`) or null.

## Model

| member | source | states |
|---|---|---|
| Messages.NewMessage | app/Http/Controllers/ChatController.php:121-126 | A created message is unread, has no read time, and carries the conversation, sender, text and time given. |
| Messages.MarkedReadEffect | app/Models/Message.php:73-78 | `markAsRead` sets the flag and the read time, leaves the unread scope, and keeps every other modelled column. |
| Messages.MarkedRead | app/Models/Message.php:73-78 | `markAsRead`'s new row; its properties are Messages.MarkedReadEffect and Messages.MarkedReadTwice. |
| Messages.MarkedReadTwice | app/Models/Message.php:73-78 | Marking twice equals marking once at the later time; the flag stays set. |
| Messages.UnreadIds | app/Models/Message.php:88-91 | The `unread` scope selects exactly the rows whose flag is false. |
| Messages.MarkIdsRead | app/Http/Controllers/ChatController.php:206-210 | The bulk update marks exactly the listed rows read at `now` and leaves the others and the key set unchanged. |
| Messages.MarkIdsReadMonotone | app/Http/Controllers/ChatController.php:206-210 | The bulk update never clears a flag, and the unread set loses exactly the listed ids. |
| Messages.MarkNoIdsRead | app/Http/Controllers/ChatController.php:202-204 | An update with no ids leaves the table unchanged. |
| Messages.MessageTable.Insert | app/Http/Controllers/ChatController.php:121-126 | `Message::create` stores the row under the next id, which was unused, and advances the counter. |
| Messages.MessageTable.MarkAsRead | app/Models/Message.php:73-78 | Saving the marked row replaces exactly that row (a missing id changes nothing) and reports success. |
| Messages.MessageTable.MarkManyRead | app/Http/Controllers/ChatController.php:207-210 | The table becomes the bulk update of its old contents. |
| Conversations.OtherUserCases | app/Models/Conversation.php:84-95 | The partner exists exactly for a participant and is the user in the other slot, `user_one_id` winning when both slots hold the user. |
| Conversations.OtherUser | app/Models/Conversation.php:84-95 | `getOtherUser`; its cases are Conversations.OtherUserCases and Conversations.OtherUserInvolution. |
| Conversations.OtherUserInvolution | app/Models/Conversation.php:84-95 | In a conversation between two different users, the partner's partner is the user. |
| Conversations.BetweenUsersIsUnorderedPair | app/Models/Conversation.php:108-117 | The scope matches exactly the rows whose unordered participant pair is {a, b}. |
| Conversations.BetweenUsers | app/Models/Conversation.php:108-117 | The `betweenUsers` scope on one row; Conversations.BetweenUsersIsUnorderedPair, Conversations.BetweenUsersSymmetric and Conversations.BetweenUsersParticipants state what it selects. |
| Conversations.BetweenUsersSymmetric | app/Models/Conversation.php:108-117 | The scope selects the same rows for (a, b) and (b, a). |
| Conversations.BetweenUsersParticipants | app/Models/Conversation.php:108-117 | A matched row has both users as participants, and a's partner is b. |
| Conversations.MessagesOf | app/Models/Conversation.php:70-73 | The relation lists exactly this conversation's messages, each once, in non-decreasing `created_at`. |
| Conversations.CanonicalRowsAreOnePerPair | database/migrations/2026_01_07_094629_create_conversations_table.php:41-44 | Rows stored smaller-id-first under the ordered unique index give at most one conversation per unordered pair. |
| Conversations.ReversedPairPassesUniqueIndex | database/migrations/2026_01_07_094629_create_conversations_table.php:43-44 | A table with (1, 2) and (2, 1) passes the unique index but holds two rows for one pair. |
| Conversations.ConversationTable.Insert | app/Models/User.php:133-136 | `Conversation::create`: a foreign-key error for an unknown user, a unique-index error for an existing ordered pair, otherwise a new row under the next id. |
| Conversations.ConversationTable.Touch | app/Http/Controllers/ChatController.php:136 | `update(['last_message_at' => now()])` changes that row's `last_message_at` and no other modelled column of any row. |
| Users.ConversationsOf | app/Models/User.php:86-92 | The attribute lists exactly the user's conversations (either slot), each once, latest activity first, NULL after every timestamp (the MySQL and SQLite placement). |
| Users.FindBetween | app/Models/Conversation.php:108-117 | `betweenUsers(a, b)->first()` is the lowest-id matching row, and none only when no row matches. |
| Users.FindBetweenSymmetric | app/Models/User.php:123 | The lookup finds the same row for (a, b) and (b, a). |
| Users.FindBetweenIsTheOnlyMatch | app/Models/User.php:123-127 | With canonical rows under the index, any matching row is the one found. |
| Users.GetConversationWith | app/Models/User.php:115-137 | Refuses oneself; returns the existing conversation unchanged; otherwise creates (min, max) under the next id, or fails on an unknown user. The result always matches the pair, and the table stays canonical. |
| Ordering.FirstExists | app/Models/User.php:90 | Every non-empty id set has a first row under an ORDER BY key with id tie-break. |
| Ordering.FirstUnique | app/Models/User.php:90 | The first row is unique. |
| Ordering.SortedIds | app/Models/User.php:88-91 | A query result lists each selected id exactly once, in key order. |
| Ordering.SortedIdsDistinct | app/Models/User.php:88-91 | A sorted listing never repeats an id. |
| Text.ParseDecimalOfDecimal | routes/channels.php:6-8 | The decimal text of an id parses back to the id. |
| Text.Decimal | app/events/MessageSent.php:56 | An id prints as a non-empty run of digits with no leading zero. |
| Text.ParseDecimal | routes/channels.php:6-8 | A channel parameter reads as an id exactly when it is a non-empty run of digits. |
| Text.DecimalInjective | app/events/MessageSent.php:56 | Different ids have different decimal texts. |
| Text.Utf8Append | app/Http/Controllers/ChatController.php:41 | The encoding of a concatenation is the concatenation of the encodings. |
| Text.AsciiSubstr | app/Http/Controllers/ChatController.php:41 | For ASCII text, `substr(s, 0, n)` is the first n characters. |
| Text.Substr | app/Http/Controllers/ChatController.php:41 | `substr($s, 0, $n)` has min(n, length) bytes, which are a prefix of s. |
| Events.BroadcastOn | app/events/MessageSent.php:54-59 | Every event is broadcast on `chat.` followed by its conversation id. |
| Events.ChannelName | app/events/MessageSent.php:54-59 | `'chat.' . $conversationId`; Events.BroadcastOn and Channels.ChannelNameParsesBack state its use and its parse. |
| Events.SameChannelIffSameConversation | app/events/MessageRead.php:23-26 | Two events share a channel exactly when they belong to the same conversation, whatever their kinds. |
| Events.BroadcastAsIdentifiesKind | app/events/UserTyping.php:33-36 | Two events have the same broadcast name exactly when they are of the same kind. |
| Events.BroadcastAs | app/events/UserTyping.php:33-36 | `broadcastAs()`, or the namespaced class name for MessageSent, which defines none; Events.BroadcastAsIdentifiesKind and ChatMessagesView.ListenersHearTheirEvents state its properties. |
| Events.MessageSentPayload | app/events/MessageSent.php:68-79 | MessageSent carries exactly id, body, sender_id, sender_name and created_at, with no read flag; a missing sender reads 'Unknown'. |
| Events.Payload | app/events/MessageSent.php:68-79 | The payload clients receive; Events.MessageSentPayload, Events.MessageReadPayload and Events.UserTypingPayload state its members. |
| Events.MessageReadPayload | app/events/MessageRead.php:14-20 | MessageRead carries its id list unchanged and its conversation id. |
| Events.UserTypingPayload | app/events/UserTyping.php:17-26 | UserTyping carries exactly user_id, user_name and conversation_id, and no `user` member. |
| Events.NewUserTyping | app/events/UserTyping.php:21-26 | The constructor fails exactly when the user argument is omitted; otherwise the event names the conversation and the user's id and name. |
| Events.EventLog.Broadcast | app/Http/Controllers/ChatController.php:145 | `broadcast(...)` appends the event to the log. |
| Channels.MatchChatPattern | routes/channels.php:6 | A channel name matches `chat.{conversationId}` only with `chat`, any one character, and a non-empty parameter without dots. |
| Channels.FindConversation | routes/channels.php:8-13 | With the database's comparison of the parameter text and the integer key taken as exact decimal parsing, the lookup finds a row exactly when the parameter is the decimal id of an existing conversation. |
| Channels.ChannelNameParsesBack | routes/channels.php:6-8 | The name every event is broadcast on matches the pattern and yields its conversation id back. |
| Channels.AuthorizeAsWrittenNeverGrants | routes/channels.php:6-19 | As written, subscribing to an existing conversation's channel fails even for its participants. |
| Channels.AuthorizeAsWritten | routes/channels.php:6-19 | The callback as written; Channels.AuthorizeAsWrittenNeverGrants states its outcome. |
| Channels.AuthorizeChannelIff | routes/channels.php:6-19 | With membership taken from the two slots, a channel is granted exactly to the conversation's participants; a missing conversation is denied. |
| Channels.Authorize | routes/channels.php:6-19 | The corrected callback; Channels.AuthorizeChannelIff and Channels.AuthorizeIsUniformDenial state its outcome. |
| Channels.AuthorizeIsUniformDenial | routes/channels.php:8-18 | The corrected callback never fails. It grants exactly when the name parses to an existing conversation the user is in. |
| StoreMessageRequest.ErrorTextsDistinct | app/Http/Requests/StoreMessageRequest.php:68-77 | No two validation failures share an error text. |
| StoreMessageRequest.Authorized | app/Http/Requests/StoreMessageRequest.php:15-19 | `authorize()`: a logged-in user; ChatController.Store states the 403 when it fails. |
| StoreMessageRequest.AfterErrors | app/Http/Requests/StoreMessageRequest.php:48-61 | The after-hook's errors; StoreMessageRequest.BothKeysRefused and StoreMessageRequest.NeitherKeyRefused state them. |
| StoreMessageRequest.MessageErrors | app/Http/Requests/StoreMessageRequest.php:34 | Errors on `message`: `required` fails exactly for a missing, null, blank or empty value and then stands alone; all errors are filed under `message`. |
| StoreMessageRequest.ValidatePassesIff | app/Http/Requests/StoreMessageRequest.php:31-61 | A request passes exactly when the message is a non-blank string of at most 5000 characters, exactly one key is present, and a present non-null id names an existing row. |
| StoreMessageRequest.BothKeysRefused | app/Http/Requests/StoreMessageRequest.php:57-59 | Two keys (even both null) are refused with the 'not both' error and never the 'either' one. |
| StoreMessageRequest.NeitherKeyRefused | app/Http/Requests/StoreMessageRequest.php:52-54 | Without either key the errors are the message errors followed by the 'either' error. |
| StoreMessageRequest.StringMessageAtMostOneError | app/Http/Requests/StoreMessageRequest.php:34 | A string message gets at most one error, never the `min` one, and none exactly when it is acceptable. |
| StoreMessageRequest.FalseMessageFailsMin | app/Http/Requests/StoreMessageRequest.php:34 | The value false fails `string` and `min`: the `min` text is reachable only through a non-string. |
| StoreMessageRequest.Validate | app/Http/Requests/StoreMessageRequest.php:31-61 | At most six errors are reported. What the list means is proved in StoreMessageRequest.ValidatePassesIff (when it is empty), StoreMessageRequest.BothKeysRefused and StoreMessageRequest.NeitherKeyRefused (the after-hook's errors). |
| ChatController.LastIsNewest | app/Http/Controllers/ChatController.php:40 | The last message of the relation is one of the newest of the conversation. |
| ChatController.Preview | app/Http/Controllers/ChatController.php:41 | The preview is the first min(50, size) bytes of the message's UTF-8 text; for ASCII, its first 50 characters. |
| ChatController.SummaryFacts | app/Http/Controllers/ChatController.php:35-55 | An entry names the partner. Its latest message is absent exactly when the conversation has none, and is otherwise a newest message of the conversation. Its preview is that message's preview or 'No messages yet'. Its unread count counts the unread messages from the other side. |
| ChatController.Summarize | app/Http/Controllers/ChatController.php:35-55 | One conversation's summary; ChatController.SummaryFacts states its fields. |
| ChatController.Index | app/Http/Controllers/ChatController.php:29-59 | The list has one entry per conversation of the user. |
| ChatController.IndexEntry | app/Http/Controllers/ChatController.php:35-56 | Entry i summarizes the user's i-th conversation in `conversations` order. |
| ChatController.IndexNamesPartners | app/Http/Controllers/ChatController.php:37 | Every entry is a conversation of the user and names a partner, the user in the other slot. |
| ChatController.PageMessages | app/Http/Controllers/ChatController.php:78-87 | The page lists the conversation's messages oldest first with id, body, sender, read flag, time and sender name (or 'Unknown'). |
| ChatController.Show | app/Http/Controllers/ChatController.php:71-90 | An unknown user gives 404 and oneself 500, without changing the table. Otherwise the page is the pair's conversation, with its messages. An existing conversation leaves the table and counter as they were. A new pair adds exactly the row (min, max) with no `last_message_at` under the next id, and advances the counter. |
| ChatController.ValidTargetExists | app/Http/Controllers/ChatController.php:106-117 | After validation, the key used names an existing row of its table; a null or blank value is the only way to name none. |
| ChatController.ResolveConversation | app/Http/Controllers/ChatController.php:106-117 | The table and the resolution are those of `Resolved`: a null id gives 404; someone else's conversation 403 'Unauthorized access.'. A `user_id` gives 500 for oneself, the pair's existing conversation, or exactly one new row (min, max) under the next id. A `user_id` result holds the pair. |
| ChatController.Resolved | app/Http/Controllers/ChatController.php:106-117 | Defines, by target, the response or conversation of a validated `store` and the whole new conversations table and counter. |
| ChatController.Delivered | app/Http/Controllers/ChatController.php:106-136 | Defines, by target, the response of a validated `store` and the whole new conversations table. A 201 bumps `last_message_at` of the conversation named or found, or creates (min, max) stamped `now` under the next id; no other row changes. |
| ChatController.Deliver | app/Http/Controllers/ChatController.php:106-162 | For a validated request, the response and the new conversations table are `Delivered`. The message, the event and the JSON are as in `Store`, and anything but 201 changes nothing. |
| ChatController.ResolvedThenPosted | app/Http/Controllers/ChatController.php:117-136 | Bumping the resolved conversation's `last_message_at` yields the table `Delivered` states, for a found and for a created conversation alike. |
| ChatController.ResolvedThenStopped | app/Http/Controllers/ChatController.php:106-117 | A resolution that stops leaves the table unchanged and is the response `Delivered` states. |
| ChatController.Store | app/Http/Controllers/ChatController.php:102-163 | An anonymous user gets 403 and an invalid request 422 with every error, changing nothing. A valid request is `Delivered`. On 201 one unread message is inserted under the next message id. One MessageSent is logged, and the JSON echoes the row. Every other response changes nothing. |
| ChatController.PostMessage | app/Http/Controllers/ChatController.php:120-162 | Inserts the unread message under the next id, bumps only that conversation, logs MessageSent with the row and the sender's name, and returns the row's JSON. |
| ChatController.MarkMessagesAsRead | app/Http/Controllers/ChatController.php:174-226 | A missing conversation gives 404 and someone else's 403, changing nothing. Otherwise exactly the unread messages from the other side are marked read at `now` and their ids are returned in id order. MessageRead is broadcast only when there were some. |
| ChatController.MarkExactlyOthersUnread | app/Http/Controllers/ChatController.php:192-210 | A row changes exactly when it is an unread message of this conversation from the other side; own messages and other conversations are untouched. |
| ChatController.SecondMarkFindsNothing | app/Http/Controllers/ChatController.php:192-204 | Right after marking, a second call finds no ids. |
| ChatController.MarkingClearsUnreadCount | app/Http/Controllers/ChatController.php:44-47 | After marking, that conversation's unread count in the list is 0. |
| ChatController.ValidateTyping | app/Http/Controllers/ChatController.php:230-232 | Validation succeeds exactly when the key holds the decimal id of an existing conversation, and yields that id. `required` fails exactly for a missing, null or blank key; any other failure is the `exists` error. |
| ChatController.SendTypingIndicatorAsWritten | app/Http/Controllers/ChatController.php:228-246 | As written, a validation failure gives its error and a non-participant 403. A participant's request fails in the event constructor, so the request never succeeds and nothing is broadcast. |
| ChatController.SendTypingIndicator | app/Http/Controllers/ChatController.php:228-246 | With the sender passed to the event, an invalid id gives the validation error and a non-participant 403. A participant's request broadcasts one UserTyping with the user's id and name. |
| UserDirectory.ValidateQuery | app/Http/Controllers/UserController.php:43-45 | A query is refused exactly when it is an array or a non-blank string over 255 characters; arrays always fail `string`. |
| UserDirectory.Candidates | app/Http/Controllers/UserController.php:51-58 | The listing holds exactly the other users the filter keeps, in increasing id order. |
| UserDirectory.CurrentPage | app/Http/Controllers/UserController.php:61 | The page is the `page` parameter when it is an integer of at least 1, page 1 otherwise. |
| UserDirectory.Paginate | app/Http/Controllers/UserController.php:61 | A page holds at most 10 ids: the page-th run of ten, empty past the end. The total is the whole count. |
| UserDirectory.EntryOnItsPage | app/Http/Controllers/UserController.php:26 | Entry i of the listing appears at position i mod 10 of page i div 10 + 1. |
| UserDirectory.Index | app/Http/Controllers/UserController.php:20-29 | `index`: a page of the other users; UserDirectory.CurrentUserNeverListed, UserDirectory.EmptyQueryIsIndex and UserDirectory.Paginate state its contents. |
| UserDirectory.Search | app/Http/Controllers/UserController.php:38-61 | `search`; UserDirectory.SearchRejectsIff, UserDirectory.SearchResultsMatch, UserDirectory.EmptyQueryIsIndex and UserDirectory.SearchTotalCounts state its outcome. |
| UserDirectory.SearchRejectsIff | app/Http/Controllers/UserController.php:43-45 | `search` refuses exactly arrays and non-blank strings over 255 characters, the latter with the `max` error alone. |
| UserDirectory.CurrentUserNeverListed | app/Http/Controllers/UserController.php:25 | Neither `index` nor `search` ever lists the current user. |
| UserDirectory.PageItemsAreCandidates | app/Http/Controllers/UserController.php:61 | A page only holds entries of its listing. |
| UserDirectory.SearchResultsMatch | app/Http/Controllers/UserController.php:53-58 | With a non-empty query, every listed user's name or email contains the query. |
| UserDirectory.EmptyQueryIsIndex | app/Http/Controllers/UserController.php:48-53 | A missing, null, empty or "0" query applies no filter, so `search` returns `index`'s page. |
| UserDirectory.SearchTotalCounts | app/Http/Controllers/UserController.php:51-61 | The total counts exactly the other users the filter keeps. |
| ChatMessagesView.AddMessage | resources/js/components/ChatMessages.jsx:87-92 | A known id leaves the list unchanged; otherwise the message is appended after the unchanged earlier ones. The ids afterwards are the earlier ids plus the new one. |
| ChatMessagesView.ChatView.constructor | resources/js/components/ChatMessages.jsx:11-13 | The view starts with the page's messages in order and no typing indicator. |
| ChatMessagesView.AddMessageKeepsUnique | resources/js/components/ChatMessages.jsx:89-90 | Adding keeps ids unique. |
| ChatMessagesView.AddMessageIdempotent | resources/js/components/ChatMessages.jsx:89 | Adding the same message twice is adding it once. |
| ChatMessagesView.SenderSeesOneCopy | resources/js/components/ChatMessages.jsx:139-141 | The sender's copy from the reply and the broadcast copy are equal, so in either order the list gains one entry. |
| ChatMessagesView.ApplyRead | resources/js/components/ChatMessages.jsx:176-182 | A receipt keeps length, order and ids. It flags exactly the listed messages read and leaves the others unchanged; a read flag is never cleared. |
| ChatMessagesView.ApplyReadTwice | resources/js/components/ChatMessages.jsx:110-114 | Two receipts equal one receipt with both lists, in either order. |
| ChatMessagesView.ApplyReadMonotone | resources/js/components/ChatMessages.jsx:178 | A read message stays read. |
| ChatMessagesView.LastOwnIndex | resources/js/components/ChatMessages.jsx:211-213 | Finds the last message sent by the current user, and none exactly when the user sent none. |
| ChatMessagesView.LastOwnMessageId | resources/js/components/ChatMessages.jsx:211-213 | `lastOwnMessageId` is undefined exactly when the user sent nothing. Otherwise it is the id of an own message with no own message after it. |
| ChatMessagesView.ReceiptOnlyOnLastOwn | resources/js/components/ChatMessages.jsx:263 | With unique ids the checkmark is on exactly one message: the user's last own message. |
| ChatMessagesView.ReceiptTurnsRead | resources/js/components/ChatMessages.jsx:263-270 | A receipt listing the last own message turns its checkmark to read and keeps it on that message. |
| ChatMessagesView.SameSendersSameLastOwn | resources/js/components/ChatMessages.jsx:211-213 | The last own position depends only on the senders. |
| ChatMessagesView.TypingAsWrittenIgnoresServer | resources/js/components/ChatMessages.jsx:152 | As written, the guard ignores every typing event the server sends. |
| ChatMessagesView.TypingGuardAsWritten | resources/js/components/ChatMessages.jsx:152-154 | The guard as written; ChatMessagesView.TypingAsWrittenIgnoresServer states that it ignores every server payload. |
| ChatMessagesView.TypingGuardShowsOthers | resources/js/components/ChatMessages.jsx:152-154 | A guard reading `user_id`/`user_name` shows the sender's name exactly when the sender is another user. |
| ChatMessagesView.TypingGuard | resources/js/components/ChatMessages.jsx:152-154 | The corrected guard; ChatMessagesView.TypingGuardShowsOthers states what it shows. |
| ChatMessagesView.TypingText | resources/js/components/ChatMessages.jsx:281 | The indicator names the typist, or 'Someone' when the name is missing or empty. |
| ChatMessagesView.FloorChain | resources/js/components/ChatMessages.jsx:28-30 | Floored minutes, hours and days agree with flooring the milliseconds directly. |
| ChatMessagesView.FormatMessageTime | resources/js/components/ChatMessages.jsx:18-58 | Invalid or future dates give 'Invalid date'. Otherwise: under 1 minute 'Just now', then minutes 1-59, hours 1-23, yesterday under 48 hours, an older date after that. |
| ChatMessagesView.RelativeTextExamples | resources/js/components/ChatMessages.jsx:34-35 | 90 seconds reads '1m ago', 59.999 seconds 'Just now', a future date 'Invalid date'. |
| ChatMessagesView.RelativeText | resources/js/components/ChatMessages.jsx:22-37 | The texts of the locale-free buckets; ChatMessagesView.RelativeTextExamples gives three. |
| ChatMessagesView.ListenersHearTheirEvents | resources/js/components/ChatMessages.jsx:139-186 | Echo's name for each listener equals the broadcast name of its event; MessageDeleted is broadcast but has no listener. |
| ChatMessagesView.ListenName | resources/js/components/ChatMessages.jsx:139-186 | Echo's subscribed name: a leading `.` or `\` is dropped and the rest kept as is, otherwise `App\Events\` is prefixed with dots turned to backslashes; ChatMessagesView.ListenersHearTheirEvents applies it to the three listeners. |
| ChatMessagesView.ChatView.OnMessageSent | resources/js/components/ChatMessages.jsx:139-148 | The broadcast message is added once. A delayed mark-as-read is asked for exactly when someone else sent it. |
| ChatMessagesView.ChatView.OnLocalMessage | resources/js/components/ChatMessages.jsx:189-191 | A `message:sent` detail is added once; an event without detail changes nothing. |
| ChatMessagesView.ChatView.OnReadReceipt | resources/js/components/ChatMessages.jsx:169-186 | The list becomes the receipt applied to it; the typing state is unchanged. |
| ChatMessagesView.ChatView.OnUserTypingAsWritten | resources/js/components/ChatMessages.jsx:151-166 | Ignored events change nothing. Otherwise the indicator shows the name and the hide timer is re-armed for 3 seconds later. |
| ChatMessagesView.ChatView.OnUserTyping | resources/js/components/ChatMessages.jsx:151-166 | The same, with the guard reading the payload's own members. |
| ChatMessagesView.ChatView.ShowTypingUntil | resources/js/components/ChatMessages.jsx:155-165 | The indicator shows the name and hides 3000 ms later; the messages are unchanged. |
| ChatMessagesView.ChatView.Tick | resources/js/components/ChatMessages.jsx:161-165 | A due hide timer hides the indicator and forgets the name; otherwise nothing changes. |
| ChatMessagesView.TypingScenario | resources/js/components/ChatMessages.jsx:151-166 | With the corrected guard, another participant's typing event shows their name, which is still shown 2999 ms later and hidden at 3000 ms. |
| MessageFormView.AlertText | resources/js/components/MessageForm.jsx:98-104 | A failed submit alerts the reply's `message` text, 'Failed to send message' when there is none, or 'Network error'; success alerts nothing. |
| MessageFormView.MessageForm.constructor | resources/js/components/MessageForm.jsx:6-12 | The form starts with an empty body, not loading, no recorded notification and no pending reset. |
| MessageFormView.MessageForm.HandleChange | resources/js/components/MessageForm.jsx:35-62 | The body always takes the value, and blank input stops there. Otherwise a notification is posted exactly when more than 2500 ms passed since the recorded one, and the reset is re-armed for 1000 ms later. |
| MessageFormView.MessageForm.Tick | resources/js/components/MessageForm.jsx:58-61 | A due reset sets the recorded time to 0. |
| MessageFormView.MessageForm.StartSubmit | resources/js/components/MessageForm.jsx:63-83 | A blank body sends nothing; otherwise loading starts and the body is posted. |
| MessageFormView.MessageForm.FinishSubmitAsWritten | resources/js/components/MessageForm.jsx:85-107 | Loading ends. On success the body is cleared and the reply's message dispatched, but the throttle's time is untouched. Otherwise the alert is shown and the body kept. |
| MessageFormView.MessageForm.FinishSubmit | resources/js/components/MessageForm.jsx:85-107 | The same, with the throttle's recorded time cleared on success. |
| MessageFormView.ThrottledChange | resources/js/components/MessageForm.jsx:43-56 | Two notifications without a reset in between are more than 2500 ms apart. |
| MessageFormView.SubmitThenTypeAsWritten | resources/js/components/MessageForm.jsx:88 | Typing at 10000, sending at 10500 and typing at 10600 posts only the first notification. |
| MessageFormView.SubmitThenType | resources/js/components/MessageForm.jsx:88 | With the corrected reset, the first keystroke of the next message posts a notification. |
| MessageFormView.BlankSubmitDoesNothing | resources/js/components/MessageForm.jsx:39 | Whitespace-only input posts no notification and submits nothing. |

## Left out

- Real-time transport (Reverb/Pusher, the WebSocket connection, `listenToAll`, `toOthers`/the `socket` key): a broadcast is an append to the event log, and a client handler is a method call.
- Presence (`is_online`, `last_seen`) and the user columns beyond name and email: they feed nothing in the core.
- Logging (`Log::info`, `console.log`): no effect on state.
- Timestamps are integers: `toIso8601String` and the browser's `new Date(...)` parse are not modelled. A client date that does not parse is `None`.
- Rendering: the Blade views, the JSX markup, auto-scroll, `formatDateHeader`, and the locale-formatted texts of the 'yesterday' and 'older' buckets. Those two buckets carry only the date.
- Timers and HTTP calls on the client are explicit events: `Tick(now)` fires a due timer. The 100 ms delayed mark-as-read comes back as a flag, and the read request's reply arrives through `OnReadReceipt`.
- Routing: nothing in routes/web.php is modelled. Its line 43 names `markAsRead` while the controller defines `markMessagesAsRead`, and no route reaches `sendTypingIndicator` at `/chat/typing`. The model calls the controller methods directly, with the authenticated user as a parameter.
- ChatTypingController, seeders, factories, and the migrations other than the conversations unique index and the `is_read` default: outside the core.
- Concurrency: two requests racing through `getConversationWith` are not modelled. The insert's unique-index error is a result the method returns.
- Input middleware (TrimStrings, ConvertEmptyStringsToNull): values are modelled after it. A blank string is still treated as Laravel's validator treats one.
- LIKE wildcards (`%`, `_` in the query) and case-insensitive collations: `search` matches plain substrings.
- The `created_at`/`updated_at` columns that `timestamps()` adds to both tables (of which only a message's `created_at` is modelled): every `save()`, `update(...)` and bulk `whereIn(...)->update(...)` also sets `updated_at`, which the model does not hold. "Keeps every other column" in the contracts means every modelled column.
- Id lookups by request text (`Conversation::find` in routes/channels.php, `exists:conversations,id` and `exists:users,id` in StoreMessageRequest, `findOrFail` and `exists` in `sendTypingIndicator`): the model takes the database's comparison of a string with the integer key to be exact decimal parsing. Real databases differ. MySQL casts the leading digits, so `chat.7abc` names conversation 7 and grants it to its participants. SQLite matches "7.0". PostgreSQL raises an error, which turns the request into a 500.
- A JSON `false` id: the model holds a request value by its string form, so `false` is the blank text and skips `exists`. Laravel runs `exists` on `false`, and the check fails.
- PHP type juggling: ids are integers as the database driver returns them, so the strict `!==`/`===` comparisons are integer comparisons. Request values are given by their string form.
- The lower-case `app/events` directory: PSR-4 autoloading of `App\Events` on a case-sensitive file system is not modelled.
- `substr` counts bytes and can split a multi-byte character. The JSON encoding of such a preview is not modelled.
- Pagination extras (links, `appends`, last page) and the redirect-with-errors of a refused search: only the page's ids and the total are modelled.
- The JSON bodies of the 404 and 500 error pages: the client's alert takes the reply's `message` text as a parameter.
- MessageDeleted: its event is modelled, but nothing in the core deletes a message or dispatches it.
- The textarea is disabled while loading, so the UI stops keystrokes during a submit. The model does not enforce that.
- ChatController.Index: states only the list's length. The entries are stated by ChatController.IndexEntry and ChatController.SummaryFacts, which keeps the list's proof small.
- ChatMessagesView.ChatView.OnMessageSent: the broadcast message has no `is_read` member, so the client holds it as unread. Undefined and false are not told apart because the view only tests truthiness.

## Findings

| source | as written | input that shows it | evidently intended | confidence | as-written member | corrected member |
|---|---|---|---|---|---|---|
| routes/channels.php:18 | The callback reads `$conversation->participants`. The Conversation model defines no such relation, so the value is null and `contains` is called on null. | User 1 subscribes to `private-chat.1`, where conversation 1 is (1, 2). | Grant the channel to the two participant columns. | medium, not executed | Channels.AuthorizeAsWrittenNeverGrants | Channels.AuthorizeChannelIff |
| app/Http/Controllers/ChatController.php:243 | `new UserTyping($request->conversation_id)` passes one argument to a constructor that requires the user as well. PHP raises ArgumentCountError, so nothing is broadcast. | User 1 posts `conversation_id` 1 for conversation (1, 2). | Pass the authenticated user as the second argument. | high, not executed | ChatController.SendTypingIndicatorAsWritten | ChatController.SendTypingIndicator |
| resources/js/components/MessageForm.jsx:88 | After a successful send the form resets `lastTypingSentRef`, which nothing reads. The throttle reads `lastTypingRef`. | Keystroke at 10000 ms, send done at 10500, keystroke at 10600: no typing notice for the new message. | Reset the throttle's own reference `lastTypingRef`. | medium, not executed | MessageFormView.SubmitThenTypeAsWritten | MessageFormView.SubmitThenType |
| resources/js/components/ChatMessages.jsx:152 | The typing guard requires `e.user`. The UserTyping payload carries `user_id` and `user_name` and has no `user` member. | UserTyping for conversation 1 from user 2 named "Bob", received by user 1: ignored. | Read `e.user_id` and `e.user_name`. | high, not executed | ChatMessagesView.TypingAsWrittenIgnoresServer | ChatMessagesView.TypingGuardShowsOthers |
| database/migrations/2026_01_07_094629_create_conversations_table.php:43 | The comment says the order of the two users does not matter for uniqueness. The unique index is on the ordered pair, so (1, 2) and (2, 1) can both be stored. | Rows 1 = (1, 2) and 2 = (2, 1). | One row per unordered pair. The application gets this by storing the smaller id first, an invariant `getConversationWith` keeps. | high, not executed | Conversations.ReversedPairPassesUniqueIndex | Conversations.CanonicalRowsAreOnePerPair |
