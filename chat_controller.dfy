/**
 * The chat controller: the conversation list with previews and unread counts,
 * the chat page, sending a message, the bulk "mark as read" for the messages
 * of a conversation, and the typing indicator. State lives in the two tables
 * and the broadcast log; `now` stands for the clock and `users` for the
 * `users` rows.
 */
module ChatController {

  import opened Wrappers
  import opened Text
  import opened Ordering
  import opened Messages
  import opened Conversations
  import opened Users
  import opened Events
  import opened StoreMessageRequest

  /** A message as the controller hands it to the browser; timestamps stay integers. */
  datatype MessageJson = MessageJson(
    id: nat,
    body: string,
    senderId: nat,
    senderName: string,
    isRead: bool,
    createdAt: int)

  // ---------------------------------------------------------------- index

  /** The messages of `cid` that `user` has not read and did not send. */
  function UnreadFromOthers(msgs: map<nat, Message>, cid: nat, user: nat): set<nat>
  {
    set k | k in msgs && msgs[k].conversationId == cid && msgs[k].senderId != user && Unread(msgs[k])
  }

  /** One entry of the conversation list. `preview` is bytes: PHP's `substr` counts bytes. */
  datatype Summary = Summary(
    conversationId: nat,
    otherUser: Option<nat>,
    latestMessage: Option<nat>,
    preview: seq<byte>,
    unreadCount: nat)

  /** The last message of the `messages` relation is one of the newest. */
  lemma LastIsNewest(msgs: map<nat, Message>, cid: nat)
    requires MessagesOf(msgs, cid) != []
    ensures var ids := MessagesOf(msgs, cid);
      forall k :: k in msgs && msgs[k].conversationId == cid ==>
        msgs[k].createdAt <= msgs[ids[|ids| - 1]].createdAt
  {
    var ids := MessagesOf(msgs, cid);
    forall k | k in msgs && msgs[k].conversationId == cid
      ensures msgs[k].createdAt <= msgs[ids[|ids| - 1]].createdAt
    {
      var i :| 0 <= i < |ids| && ids[i] == k;
      if i < |ids| - 1 {
        assert msgs[ids[i]].createdAt <= msgs[ids[|ids| - 1]].createdAt;
      }
    }
  }

  /**
   * The preview of a message: `substr` of its first 50 bytes, which can end
   * inside a multi-byte character; for ASCII text, its first 50 characters.
   */
  function Preview(text: string): (p: seq<byte>)
    ensures |p| == Min(50, |Utf8(text)|) && p == Utf8(text)[..|p|]
    ensures IsAscii(text) ==> p == Utf8(text[..Min(50, |text|)])
  {
    if IsAscii(text) then
      AsciiSubstr(text, 50);
      Substr(Utf8(text), 50)
    else Substr(Utf8(text), 50)
  }

  /** The preview of a conversation without messages. */
  const NoMessagesYet: seq<byte> := Utf8("No messages yet")

  /** The entry `index` builds for one conversation of `user`. */
  function Summarize(convs: map<nat, Conversation>, msgs: map<nat, Message>, user: nat, cid: nat): Summary
    requires cid in convs
  {
    var ids := MessagesOf(msgs, cid);
    var unread := |UnreadFromOthers(msgs, cid, user)|;
    if ids == [] then Summary(cid, OtherUser(convs[cid], user), None, NoMessagesYet, unread)
    else
      var last := ids[|ids| - 1];
      Summary(cid, OtherUser(convs[cid], user), Some(last), Preview(msgs[last].message), unread)
  }

  /**
   * An entry names the partner; its latest message is one of the newest of
   * the conversation, absent only when the conversation has none; its preview
   * is that message's first 50 bytes or 'No messages yet'; its unread count
   * counts the unread messages the other side sent.
   */
  lemma SummaryFacts(convs: map<nat, Conversation>, msgs: map<nat, Message>, user: nat, cid: nat)
    requires cid in convs
    ensures var s := Summarize(convs, msgs, user, cid);
      s.conversationId == cid
      && s.otherUser == OtherUser(convs[cid], user)
      && (s.latestMessage.None? <==> forall k :: k in msgs ==> msgs[k].conversationId != cid)
      && (s.latestMessage.Some? ==> (s.latestMessage.value in msgs
        && msgs[s.latestMessage.value].conversationId == cid
        && forall k :: k in msgs && msgs[k].conversationId == cid ==>
          msgs[k].createdAt <= msgs[s.latestMessage.value].createdAt))
      && (s.latestMessage.None? ==> s.preview == NoMessagesYet)
      && (s.latestMessage.Some? ==> s.preview == Preview(msgs[s.latestMessage.value].message))
      && s.unreadCount == |UnreadFromOthers(msgs, cid, user)|
  {
    if MessagesOf(msgs, cid) != [] {
      LastIsNewest(msgs, cid);
    }
  }

  /** `index`: the summaries of the user's conversations, in the order of the `conversations` attribute. */
  function Index(convs: map<nat, Conversation>, msgs: map<nat, Message>, user: nat): (r: seq<Summary>)
    ensures |r| == |ConversationsOf(convs, user)|
  {
    var cs := ConversationsOf(convs, user);
    seq(|cs|, i requires 0 <= i < |cs| => Summarize(convs, msgs, user, cs[i]))
  }

  /** Entry `i` of the list summarizes the `i`-th conversation of the user. */
  lemma IndexEntry(convs: map<nat, Conversation>, msgs: map<nat, Message>, user: nat, i: nat)
    requires i < |ConversationsOf(convs, user)|
    ensures ConversationsOf(convs, user)[i] in convs
    ensures Index(convs, msgs, user)[i] == Summarize(convs, msgs, user, ConversationsOf(convs, user)[i])
  {
  }

  /** Every entry of the list is for a conversation of the user and names the partner. */
  lemma IndexNamesPartners(convs: map<nat, Conversation>, msgs: map<nat, Message>, user: nat, i: nat)
    requires i < |Index(convs, msgs, user)|
    ensures var e := Index(convs, msgs, user)[i];
      e.conversationId in convs && IsParticipant(convs[e.conversationId], user)
      && e.otherUser.Some? && e.otherUser == OtherUser(convs[e.conversationId], user)
  {
    var cs := ConversationsOf(convs, user);
    IndexEntry(convs, msgs, user, i);
    SummaryFacts(convs, msgs, user, cs[i]);
    OtherUserCases(convs[cs[i]], user);
  }

  // ---------------------------------------------------------------- show

  /** `optional($msg->sender)->name ?? 'Unknown'`. */
  function SenderName(users: map<nat, UserRow>, id: nat): string
  {
    if id in users then users[id].name else "Unknown"
  }

  /** One message of the page, in the shape the browser expects. */
  function View(msgs: map<nat, Message>, users: map<nat, UserRow>, id: nat): MessageJson
    requires id in msgs
  {
    var m := msgs[id];
    MessageJson(id, m.message, m.senderId, SenderName(users, m.senderId), m.isRead, m.createdAt)
  }

  /** The messages `show` hands to the page: the conversation's messages, oldest first. */
  function PageMessages(msgs: map<nat, Message>, users: map<nat, UserRow>, cid: nat): (r: seq<MessageJson>)
    ensures |r| == |MessagesOf(msgs, cid)|
    ensures forall i :: 0 <= i < |r| ==> r[i].id == MessagesOf(msgs, cid)[i]
    ensures forall i :: 0 <= i < |r| ==> (r[i].id in msgs && r[i].body == msgs[r[i].id].message
      && r[i].senderId == msgs[r[i].id].senderId && r[i].isRead == msgs[r[i].id].isRead
      && r[i].createdAt == msgs[r[i].id].createdAt && r[i].senderName == SenderName(users, r[i].senderId))
  {
    var ids := MessagesOf(msgs, cid);
    seq(|ids|, i requires 0 <= i < |ids| => View(msgs, users, ids[i]))
  }

  datatype ShowResponse =
    | ShowNotFound
    | ShowServerError
    | ShowPage(conversationId: nat, otherUser: nat, messages: seq<MessageJson>)

  /**
   * `show($userId)`: a missing user is a 404, oneself a 500 from the refused
   * find-or-create; otherwise the page of the pair's conversation, created
   * if it did not exist.
   */
  method Show(convs: ConversationTable, msgs: MessageTable, users: map<nat, UserRow>, self: nat, other: nat)
    returns (resp: ShowResponse)
    requires convs.Valid() && self in users
    requires forall k :: k in convs.rows ==> convs.rows[k].userOne in users && convs.rows[k].userTwo in users
    modifies convs
    ensures convs.Valid()
    ensures other !in users ==> resp == ShowNotFound
    ensures other in users && self == other ==> resp == ShowServerError
    ensures !resp.ShowPage? ==> convs.rows == old(convs.rows) && convs.nextId == old(convs.nextId)
    ensures other in users && self != other ==> (resp.ShowPage? && resp.otherUser == other
      && resp.conversationId in convs.rows
      && BetweenUsers(convs.rows[resp.conversationId], self, other)
      && resp.messages == PageMessages(msgs.rows, users, resp.conversationId))
    ensures resp.ShowPage? && FindBetween(old(convs.rows), self, other).Some? ==>
      resp.conversationId == FindBetween(old(convs.rows), self, other).value
      && convs.rows == old(convs.rows) && convs.nextId == old(convs.nextId)
    ensures resp.ShowPage? && FindBetween(old(convs.rows), self, other).None? ==>
      resp.conversationId == old(convs.nextId) && convs.nextId == old(convs.nextId) + 1
      && convs.rows == old(convs.rows)[resp.conversationId :=
           Conversation(if self < other then self else other, if self < other then other else self, None)]
  {
    if other !in users {
      return ShowNotFound;
    }
    var got := GetConversationWith(convs, users.Keys, self, other);
    match got
    case Err(_) =>
      resp := ShowServerError;
    case Ok(cid) =>
      resp := ShowPage(cid, other, PageMessages(msgs.rows, users, cid));
  }

  // ---------------------------------------------------------------- store

  datatype StoreResponse =
    | Forbidden(error: string)
    | Invalid(errors: seq<ValidationError>)
    | NotFound
    | ServerError
    | Created(message: MessageJson)

  /** The HTTP status of each response. */
  function Status(r: StoreResponse): nat
  {
    match r
    case Forbidden(_) => 403
    case Invalid(_) => 422
    case NotFound => 404
    case ServerError => 500
    case Created(_) => 201
  }

  /** Where a validated request sends its message: a conversation by id, a user by id, or a null id. */
  datatype Target = ToConversation(id: nat) | ToUser(id: nat) | NullId

  function TargetOf(input: Input): Target
  {
    var key := if Has(input.conversationId) then input.conversationId else input.userId;
    if Checked(key) && ParseDecimal(key.form).Some? then
      if Has(input.conversationId) then ToConversation(ParseDecimal(key.form).value)
      else ToUser(ParseDecimal(key.form).value)
    else NullId
  }

  /**
   * For a request that passed validation, the target names an existing row
   * of the table its key refers to and is the key the request used; a null
   * (or blank) value is the only way not to name a row.
   */
  lemma ValidTargetExists(input: Input, conversationIds: set<nat>, userIds: set<nat>)
    requires Validate(input, conversationIds, userIds) == []
    ensures TargetOf(input).ToConversation? ==>
      Has(input.conversationId) && TargetOf(input).id in conversationIds
    ensures TargetOf(input).ToUser? ==>
      !Has(input.conversationId) && Has(input.userId) && TargetOf(input).id in userIds
    ensures TargetOf(input).NullId? <==>
      (Has(input.conversationId) && !Checked(input.conversationId))
      || (!Has(input.conversationId) && !Checked(input.userId))
    ensures input.message.Str?
  {
    ValidatePassesIff(input, conversationIds, userIds);
  }

  /** Where `store` puts the message, or the response that ends it first. */
  datatype Resolution = Use(cid: nat) | Stop(resp: StoreResponse)

  /**
   * How a validated `store` finds its conversation, by target: 404 for a null
   * id; the conversation named, or 403 when the sender is not in it; for
   * `user_id`, 500 for oneself, the conversation found with the other user,
   * or a new one created for the pair under the next id. Only creation
   * changes the table.
   */
  ghost predicate Resolved(before: map<nat, Conversation>, nextBefore: nat, after: map<nat, Conversation>,
                           nextAfter: nat, self: nat, input: Input, res: Resolution)
  {
    match TargetOf(input)
    case NullId => res == Stop(NotFound) && after == before && nextAfter == nextBefore
    case ToConversation(id) =>
      id in before && after == before && nextAfter == nextBefore &&
      if IsParticipant(before[id], self) then res == Use(id)
      else res == Stop(Forbidden("Unauthorized access."))
    case ToUser(other) =>
      if other == self then res == Stop(ServerError) && after == before && nextAfter == nextBefore
      else if FindBetween(before, self, other).Some? then
        res == Use(FindBetween(before, self, other).value) && after == before && nextAfter == nextBefore
      else
        res == Use(nextBefore) && nextAfter == nextBefore + 1
        && after == before[nextBefore := Conversation(
             if self < other then self else other, if self < other then other else self, None)]
  }

  /**
   * The part of `store` that finds the conversation of a validated request:
   * 404 for a null id, 403 for a conversation the sender is not in, the
   * conversation with the other user (found or created) for `user_id`, and
   * 500 when that user is the sender.
   */
  method ResolveConversation(convs: ConversationTable, userIds: set<nat>, self: nat, input: Input)
    returns (res: Resolution)
    requires convs.Valid() && self in userIds
    requires TargetOf(input).ToConversation? ==> TargetOf(input).id in convs.rows
    requires TargetOf(input).ToUser? ==> TargetOf(input).id in userIds
    modifies convs
    ensures convs.Valid()
    ensures AllCanonical(old(convs.rows)) ==> AllCanonical(convs.rows)
    ensures res.Stop? ==> convs.rows == old(convs.rows) && convs.nextId == old(convs.nextId)
    ensures res.Use? ==> res.cid in convs.rows && IsParticipant(convs.rows[res.cid], self)
    ensures res.Use? && res.cid in old(convs.rows) ==>
      convs.rows == old(convs.rows) && convs.nextId == old(convs.nextId)
    ensures Resolved(old(convs.rows), old(convs.nextId), convs.rows, convs.nextId, self, input, res)
    ensures TargetOf(input).ToUser? && res.Use? ==> BetweenUsers(convs.rows[res.cid], self, TargetOf(input).id)
  {
    match TargetOf(input) {
      case NullId =>
        return Stop(NotFound);
      case ToConversation(id) =>
        if !IsParticipant(convs.rows[id], self) {
          return Stop(Forbidden("Unauthorized access."));
        }
        return Use(id);
      case ToUser(other) =>
        var got := GetConversationWith(convs, userIds, self, other);
        if got.Err? {
          return Stop(ServerError);
        }
        BetweenUsersParticipants(convs.rows[got.value], self, other);
        return Use(got.value);
    }
  }

  /**
   * `store`: refuse an anonymous or invalid request, find the conversation
   * (404 for a null id, 403 for someone else's conversation, 500 for a
   * conversation with oneself), then insert the unread message, bump the
   * conversation's `last_message_at`, broadcast MessageSent and echo the row.
   */
  method Store(convs: ConversationTable, msgs: MessageTable, log: EventLog, users: map<nat, UserRow>,
               auth: Option<nat>, input: Input, now: int)
    returns (resp: StoreResponse, ghost conversation: nat)
    requires convs.Valid() && msgs.Valid()
    requires auth.Some? ==> auth.value in users
    modifies convs, msgs, log
    ensures convs.Valid() && msgs.Valid()
    ensures AllCanonical(old(convs.rows)) ==> AllCanonical(convs.rows)
    ensures !Authorized(auth) ==> resp == Forbidden("This action is unauthorized.")
    ensures Authorized(auth) && Validate(input, old(convs.rows).Keys, users.Keys) != [] ==>
      resp == Invalid(Validate(input, old(convs.rows).Keys, users.Keys))
    ensures Authorized(auth) && Validate(input, old(convs.rows).Keys, users.Keys) == [] ==>
      Delivered(old(convs.rows), old(convs.nextId), convs.rows, convs.nextId, auth.value, input, now, resp, conversation)
    ensures !resp.Created? ==> (convs.rows == old(convs.rows) && convs.nextId == old(convs.nextId)
      && msgs.rows == old(msgs.rows) && msgs.nextId == old(msgs.nextId) && log.events == old(log.events))
    ensures resp.Created? ==> (auth.Some? && input.message.Str?
      && conversation in convs.rows && IsParticipant(convs.rows[conversation], auth.value)
      && convs.rows[conversation].lastMessageAt == Some(now)
      && resp.message == MessageJson(old(msgs.nextId), input.message.s, auth.value, users[auth.value].name, false, now)
      && msgs.rows == old(msgs.rows)[resp.message.id := NewMessage(conversation, auth.value, input.message.s, now)]
      && log.events == old(log.events)
        + [MessageSent(SentMessage(resp.message.id, msgs.rows[resp.message.id], Some(users[auth.value].name)))])
  {
    conversation := 0;
    if !Authorized(auth) {
      return Forbidden("This action is unauthorized."), conversation;
    }
    var errors := Validate(input, convs.rows.Keys, users.Keys);
    if errors != [] {
      return Invalid(errors), conversation;
    }
    ValidTargetExists(input, convs.rows.Keys, users.Keys);
    resp, conversation := Deliver(convs, msgs, log, users, auth.value, input, now);
  }

  /**
   * What a validated `store` does to the conversations, by target: 404 for a
   * null id, 403 for someone else's conversation, 500 for oneself, and
   * otherwise a 201 whose conversation is the one named, the one found with
   * the other user, or a new one created for the pair, with
   * `last_message_at` bumped and no other row changed.
   */
  ghost predicate Delivered(before: map<nat, Conversation>, nextBefore: nat, after: map<nat, Conversation>,
                            nextAfter: nat, self: nat, input: Input, now: int, resp: StoreResponse, cid: nat)
  {
    match TargetOf(input)
    case NullId => resp == NotFound
    case ToConversation(id) =>
      id in before &&
      if IsParticipant(before[id], self) then
        resp.Created? && cid == id && nextAfter == nextBefore
        && after == before[id := before[id].(lastMessageAt := Some(now))]
      else resp == Forbidden("Unauthorized access.")
    case ToUser(other) =>
      if other == self then resp == ServerError
      else if FindBetween(before, self, other).Some? then
        resp.Created? && cid == FindBetween(before, self, other).value && nextAfter == nextBefore
        && after == before[cid := before[cid].(lastMessageAt := Some(now))]
      else
        resp.Created? && cid == nextBefore && nextAfter == nextBefore + 1
        && after == before[cid := Conversation(
             if self < other then self else other, if self < other then other else self, Some(now))]
  }

  /**
   * `store` after authorization and validation, which leave a string message
   * and a target that names an existing row: resolve the conversation, then post.
   */
  method Deliver(convs: ConversationTable, msgs: MessageTable, log: EventLog, users: map<nat, UserRow>,
                 self: nat, input: Input, now: int)
    returns (resp: StoreResponse, ghost conversation: nat)
    requires convs.Valid() && msgs.Valid() && self in users && input.message.Str?
    requires TargetOf(input).ToConversation? ==> TargetOf(input).id in convs.rows
    requires TargetOf(input).ToUser? ==> TargetOf(input).id in users
    modifies convs, msgs, log
    ensures convs.Valid() && msgs.Valid()
    ensures AllCanonical(old(convs.rows)) ==> AllCanonical(convs.rows)
    ensures Delivered(old(convs.rows), old(convs.nextId), convs.rows, convs.nextId, self, input, now, resp, conversation)
    ensures !resp.Created? ==> (convs.rows == old(convs.rows) && convs.nextId == old(convs.nextId)
      && msgs.rows == old(msgs.rows) && msgs.nextId == old(msgs.nextId) && log.events == old(log.events))
    ensures resp.Created? ==> (input.message.Str?
      && conversation in convs.rows && IsParticipant(convs.rows[conversation], self)
      && convs.rows[conversation].lastMessageAt == Some(now)
      && resp.message == MessageJson(old(msgs.nextId), input.message.s, self, users[self].name, false, now)
      && msgs.rows == old(msgs.rows)[resp.message.id := NewMessage(conversation, self, input.message.s, now)]
      && log.events == old(log.events)
        + [MessageSent(SentMessage(resp.message.id, msgs.rows[resp.message.id], Some(users[self].name)))])
  {
    conversation := 0;
    var found := ResolveConversation(convs, users.Keys, self, input);
    if found.Stop? {
      ResolvedThenStopped(old(convs.rows), old(convs.nextId), convs.rows, convs.nextId, self, input, now, found.resp);
      return found.resp, conversation;
    }
    conversation := found.cid;
    ghost var resolved, resolvedNext := convs.rows, convs.nextId;
    var message := PostMessage(convs, msgs, log, found.cid, self, users[self].name, input.message.s, now);
    resp := Created(message);
    ResolvedThenPosted(old(convs.rows), old(convs.nextId), resolved, resolvedNext, convs.rows,
                       self, input, now, conversation, resp);
  }

  /** A `store` that stops while resolving answers with the resolution's response. */
  lemma ResolvedThenStopped(before: map<nat, Conversation>, nextBefore: nat, after: map<nat, Conversation>,
                            nextAfter: nat, self: nat, input: Input, now: int, resp: StoreResponse)
    requires Resolved(before, nextBefore, after, nextAfter, self, input, Stop(resp))
    ensures after == before && nextAfter == nextBefore
    ensures Delivered(before, nextBefore, after, nextAfter, self, input, now, resp, 0)
  {
  }

  /** Posting into the resolved conversation completes a delivered `store`. */
  lemma ResolvedThenPosted(before: map<nat, Conversation>, nextBefore: nat, mid: map<nat, Conversation>,
                           nextMid: nat, after: map<nat, Conversation>, self: nat, input: Input, now: int,
                           cid: nat, resp: StoreResponse)
    requires Resolved(before, nextBefore, mid, nextMid, self, input, Use(cid))
    requires cid in mid && resp.Created?
    requires after == mid[cid := mid[cid].(lastMessageAt := Some(now))]
    ensures Delivered(before, nextBefore, after, nextMid, self, input, now, resp, cid)
  {
    if cid !in before {
      StampedNewRow(before, mid, after, cid, now);
    }
  }

  /** Bumping a row that was just created is creating it with the bumped time. */
  lemma StampedNewRow(before: map<nat, Conversation>, created: map<nat, Conversation>,
                      after: map<nat, Conversation>, cid: nat, now: int)
    requires cid in created
    requires created == before[cid := created[cid]]
    requires after == created[cid := created[cid].(lastMessageAt := Some(now))]
    ensures after == before[cid := created[cid].(lastMessageAt := Some(now))]
  {
  }

  /**
   * The end of `store`: insert the unread message, bump the conversation's
   * `last_message_at`, broadcast MessageSent, and answer with the row's JSON.
   */
  method PostMessage(convs: ConversationTable, msgs: MessageTable, log: EventLog,
                     cid: nat, sender: nat, senderName: string, text: string, now: int)
    returns (message: MessageJson)
    requires convs.Valid() && msgs.Valid() && cid in convs.rows
    modifies convs, msgs, log
    ensures convs.Valid() && msgs.Valid() && convs.nextId == old(convs.nextId)
    ensures convs.rows == old(convs.rows)[cid := old(convs.rows)[cid].(lastMessageAt := Some(now))]
    ensures message == MessageJson(old(msgs.nextId), text, sender, senderName, false, now)
    ensures msgs.rows == old(msgs.rows)[message.id := NewMessage(cid, sender, text, now)]
    ensures log.events == old(log.events) + [MessageSent(SentMessage(message.id, msgs.rows[message.id], Some(senderName)))]
  {
    var row := NewMessage(cid, sender, text, now);
    var id := msgs.Insert(row);
    convs.Touch(cid, now);
    log.Broadcast(MessageSent(SentMessage(id, row, Some(senderName))));
    message := MessageJson(id, row.message, sender, senderName, false, now);
  }

  // ---------------------------------------------------------------- mark as read

  datatype ReadResponse = ReadNotFound | ReadForbidden | ReadIds(ids: seq<nat>)

  /**
   * `markMessagesAsRead`: 404 for a missing conversation, 403 for someone
   * else's; otherwise every unread message of the conversation sent by the
   * other side is marked read at `now`, their ids are returned in id order,
   * and a MessageRead event is broadcast unless there were none.
   */
  method MarkMessagesAsRead(convs: ConversationTable, msgs: MessageTable, log: EventLog,
                            user: nat, conversationId: nat, now: int)
    returns (resp: ReadResponse)
    requires msgs.Valid()
    modifies msgs, log
    ensures msgs.Valid() && msgs.nextId == old(msgs.nextId)
    ensures conversationId !in convs.rows ==> resp == ReadNotFound
    ensures conversationId in convs.rows && !IsParticipant(convs.rows[conversationId], user) ==>
      resp == ReadForbidden
    ensures !resp.ReadIds? ==> msgs.rows == old(msgs.rows) && log.events == old(log.events)
    ensures conversationId in convs.rows && IsParticipant(convs.rows[conversationId], user) ==>
      var marked := UnreadFromOthers(old(msgs.rows), conversationId, user);
      resp == ReadIds(SortedIds(marked, ById()))
      && msgs.rows == MarkIdsRead(old(msgs.rows), marked, now)
      && log.events == old(log.events) + (if marked == {} then [] else [MessageRead(resp.ids, conversationId)])
  {
    if conversationId !in convs.rows {
      return ReadNotFound;
    }
    if !IsParticipant(convs.rows[conversationId], user) {
      return ReadForbidden;
    }
    var unread := UnreadFromOthers(msgs.rows, conversationId, user);
    if unread == {} {
      MarkNoIdsRead(msgs.rows, now);
      return ReadIds([]);
    }
    var ids := SortedIds(unread, ById());
    msgs.MarkManyRead(unread, now);
    log.Broadcast(MessageRead(ids, conversationId));
    resp := ReadIds(ids);
  }

  /**
   * The update touches exactly the returned messages: a row changes iff it is
   * an unread message of this conversation from someone else, and each such
   * row ends read at `now`. Own messages and other conversations keep their rows.
   */
  lemma MarkExactlyOthersUnread(msgs: map<nat, Message>, cid: nat, user: nat, now: int)
    ensures var after := MarkIdsRead(msgs, UnreadFromOthers(msgs, cid, user), now);
      after.Keys == msgs.Keys
      && (forall k :: k in msgs ==> (after[k] != msgs[k] <==> k in UnreadFromOthers(msgs, cid, user)))
      && (forall k :: k in msgs && (msgs[k].conversationId != cid || msgs[k].senderId == user) ==> after[k] == msgs[k])
      && (forall k :: k in UnreadFromOthers(msgs, cid, user) ==> after[k].isRead && after[k].readAt == Some(now))
  {
    var marked := UnreadFromOthers(msgs, cid, user);
    var after := MarkIdsRead(msgs, marked, now);
    forall k | k in msgs ensures after[k] != msgs[k] <==> k in marked {
      if k in marked {
        assert after[k].isRead != msgs[k].isRead;
      }
    }
  }

  /** Right after marking, nothing is left to mark: a second call returns no ids. */
  lemma SecondMarkFindsNothing(msgs: map<nat, Message>, cid: nat, user: nat, now: int)
    ensures UnreadFromOthers(MarkIdsRead(msgs, UnreadFromOthers(msgs, cid, user), now), cid, user) == {}
    ensures SortedIds(UnreadFromOthers(MarkIdsRead(msgs, UnreadFromOthers(msgs, cid, user), now), cid, user), ById()) == []
  {
    var after := MarkIdsRead(msgs, UnreadFromOthers(msgs, cid, user), now);
    assert forall k :: k in UnreadFromOthers(after, cid, user) ==> k in UnreadFromOthers(msgs, cid, user);
  }

  /** After marking, the conversation list shows no unread messages for that conversation. */
  lemma MarkingClearsUnreadCount(convs: map<nat, Conversation>, msgs: map<nat, Message>, cid: nat, user: nat, now: int)
    requires cid in convs
    ensures Summarize(convs, MarkIdsRead(msgs, UnreadFromOthers(msgs, cid, user), now), user, cid).unreadCount == 0
  {
    SecondMarkFindsNothing(msgs, cid, user, now);
  }

  // ---------------------------------------------------------------- typing

  /** The failures of `conversation_id => required|exists:conversations,id`, with the framework's texts. */
  datatype TypingError = ConversationIdRequired | ConversationIdInvalid

  function TypingErrorText(e: TypingError): string
  {
    match e
    case ConversationIdRequired => "The conversation id field is required."
    case ConversationIdInvalid => "The selected conversation id is invalid."
  }

  datatype TypingResponse = TypingInvalid(error: TypingError) | TypingForbidden | TypingFailed | TypingOk

  /** Validation of the typing request; `Some(id)` is the conversation it names. */
  function ValidateTyping(convs: map<nat, Conversation>, key: KeyInput): (r: Result<nat, TypingError>)
    ensures r.Ok? <==> Checked(key) && ParseDecimal(key.form).Some? && ParseDecimal(key.form).value in convs
    ensures r.Ok? ==> r.value in convs && ParseDecimal(key.form) == Some(r.value)
    ensures r == Err(ConversationIdRequired) <==> !Checked(key)
  {
    if !Checked(key) then Err(ConversationIdRequired)
    else if ParseDecimal(key.form).Some? && ParseDecimal(key.form).value in convs then Ok(ParseDecimal(key.form).value)
    else Err(ConversationIdInvalid)
  }

  /**
   * `sendTypingIndicator` as written: after validation and the participant
   * check it builds `UserTyping` with the conversation id alone, which PHP
   * refuses, so nothing is ever broadcast.
   */
  method SendTypingIndicatorAsWritten(convs: ConversationTable, log: EventLog, user: nat, key: KeyInput)
    returns (resp: TypingResponse)
    modifies log
    ensures log.events == old(log.events)
    ensures resp != TypingOk
    ensures ValidateTyping(convs.rows, key).Err? ==> resp == TypingInvalid(ValidateTyping(convs.rows, key).error)
    ensures ValidateTyping(convs.rows, key).Ok? ==>
      if IsParticipant(convs.rows[ValidateTyping(convs.rows, key).value], user) then resp == TypingFailed
      else resp == TypingForbidden
  {
    match ValidateTyping(convs.rows, key)
    case Err(e) =>
      return TypingInvalid(e);
    case Ok(id) =>
      if !IsParticipant(convs.rows[id], user) {
        return TypingForbidden;
      }
      match NewUserTyping(id, None)
      case Err(_) =>
        resp := TypingFailed;
  }

  /** The typing indicator with the sender passed to the event: participants broadcast UserTyping. */
  method SendTypingIndicator(convs: ConversationTable, log: EventLog, users: map<nat, UserRow>, user: nat, key: KeyInput)
    returns (resp: TypingResponse)
    requires user in users
    modifies log
    ensures resp != TypingFailed
    ensures ValidateTyping(convs.rows, key).Err? ==> resp == TypingInvalid(ValidateTyping(convs.rows, key).error)
    ensures resp != TypingOk ==> log.events == old(log.events)
    ensures ValidateTyping(convs.rows, key).Ok? ==>
      var id := ValidateTyping(convs.rows, key).value;
      if IsParticipant(convs.rows[id], user) then
        resp == TypingOk && log.events == old(log.events) + [UserTyping(id, user, users[user].name)]
      else resp == TypingForbidden
  {
    match ValidateTyping(convs.rows, key)
    case Err(e) =>
      return TypingInvalid(e);
    case Ok(id) =>
      if !IsParticipant(convs.rows[id], user) {
        return TypingForbidden;
      }
      var event := NewUserTyping(id, Some(Actor(user, users[user])));
      log.Broadcast(event.value);
      resp := TypingOk;
  }
}
