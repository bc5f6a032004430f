/**
 * The four broadcast events as one closed tagged union, their private
 * channel `chat.{conversationId}`, their broadcast names and their payloads,
 * and the log that records each `broadcast(...)` call in order.
 */
module Events {

  import opened Wrappers
  import opened Text
  import opened Messages
  import opened Users

  /** The Message model that MessageSent carries; `senderName` is null when the sender row is gone. */
  datatype SentMessage = SentMessage(id: nat, row: Message, senderName: Option<string>)

  datatype BroadcastEvent =
    | MessageSent(message: SentMessage)
    | MessageRead(messageIds: seq<nat>, conversationId: nat)
    | MessageDeleted(messageId: nat, conversationId: nat, deletedBy: nat)
    | UserTyping(conversationId: nat, userId: nat, userName: string)

  /** A Laravel `PrivateChannel`; `name` is the channel name without the `private-` prefix. */
  datatype Channel = PrivateChannel(name: string)

  /** A JSON value in an event payload. */
  datatype Value = VInt(i: int) | VStr(s: string) | VIds(ids: seq<nat>) | VUser(id: int, name: string)

  /** The channel name every event of a conversation uses. */
  function ChannelName(conversationId: nat): string
  {
    "chat." + Decimal(conversationId)
  }

  /** The conversation an event belongs to. */
  function ConversationOf(e: BroadcastEvent): nat
  {
    match e
    case MessageSent(m) => m.row.conversationId
    case MessageRead(_, c) => c
    case MessageDeleted(_, c, _) => c
    case UserTyping(c, _, _) => c
  }

  /** `broadcastOn()` of each event class. */
  function BroadcastOn(e: BroadcastEvent): (ch: Channel)
    ensures ch.name == ChannelName(ConversationOf(e))
  {
    match e
    case MessageSent(m) => PrivateChannel("chat." + Decimal(m.row.conversationId))
    case MessageRead(_, c) => PrivateChannel("chat." + Decimal(c))
    case MessageDeleted(_, c, _) => PrivateChannel("chat." + Decimal(c))
    case UserTyping(c, _, _) => PrivateChannel("chat." + Decimal(c))
  }

  /**
   * Events share a channel exactly when they belong to the same conversation,
   * whatever their kinds.
   */
  lemma SameChannelIffSameConversation(e1: BroadcastEvent, e2: BroadcastEvent)
    ensures BroadcastOn(e1) == BroadcastOn(e2) <==> ConversationOf(e1) == ConversationOf(e2)
  {
    var a, b := ConversationOf(e1), ConversationOf(e2);
    if BroadcastOn(e1) == BroadcastOn(e2) {
      assert ChannelName(a)[5..] == Decimal(a) && ChannelName(b)[5..] == Decimal(b);
      DecimalInjective(a, b);
    }
  }

  /** The event name clients listen for: `broadcastAs()`, or the class name when there is none. */
  function BroadcastAs(e: BroadcastEvent): string
  {
    match e
    case MessageSent(_) => "App\\Events\\MessageSent"
    case MessageRead(_, _) => "MessageRead"
    case MessageDeleted(_, _, _) => "MessageDeleted"
    case UserTyping(_, _, _) => "UserTyping"
  }

  /** The name tells the kind: two events have the same name exactly when they are of the same kind. */
  lemma BroadcastAsIdentifiesKind(e1: BroadcastEvent, e2: BroadcastEvent)
    ensures BroadcastAs(e1) == BroadcastAs(e2) <==>
      (e1.MessageSent? && e2.MessageSent?) || (e1.MessageRead? && e2.MessageRead?)
      || (e1.MessageDeleted? && e2.MessageDeleted?) || (e1.UserTyping? && e2.UserTyping?)
  {
    var n1, n2 := BroadcastAs(e1), BroadcastAs(e2);
    if n1 == n2 {
      assert |n1| == |n2| && n1[0] == n2[0];
    }
  }

  /**
   * The payload sent to clients: `broadcastWith()` for MessageSent, the public
   * properties for the other three.
   */
  function Payload(e: BroadcastEvent): map<string, Value>
  {
    match e
    case MessageSent(m) =>
      map["id" := VInt(m.id), "body" := VStr(m.row.message), "sender_id" := VInt(m.row.senderId),
          "sender_name" := VStr(GetOr(m.senderName, "Unknown")), "created_at" := VInt(m.row.createdAt)]
    case MessageRead(ids, c) =>
      map["messageIds" := VIds(ids), "conversationId" := VInt(c)]
    case MessageDeleted(id, c, deleter) =>
      map["messageId" := VInt(id), "conversationId" := VInt(c), "deletedBy" := VInt(deleter)]
    case UserTyping(c, u, name) =>
      map["user_id" := VInt(u), "user_name" := VStr(name), "conversation_id" := VInt(c)]
  }

  /**
   * MessageSent carries exactly id, body, sender_id, sender_name and created_at
   * (no read flag); the body is the stored text; a missing sender reads 'Unknown'.
   */
  lemma MessageSentPayload(m: SentMessage)
    ensures Payload(MessageSent(m)).Keys == {"id", "body", "sender_id", "sender_name", "created_at"}
    ensures "is_read" !in Payload(MessageSent(m))
    ensures Payload(MessageSent(m))["id"] == VInt(m.id)
    ensures Payload(MessageSent(m))["body"] == VStr(m.row.message)
    ensures Payload(MessageSent(m))["sender_id"] == VInt(m.row.senderId)
    ensures m.senderName.None? ==> Payload(MessageSent(m))["sender_name"] == VStr("Unknown")
    ensures m.senderName.Some? ==> Payload(MessageSent(m))["sender_name"] == VStr(m.senderName.value)
  {
    assert "is_read" != "id" && "is_read" != "body" && "is_read" != "sender_id";
    assert "is_read" != "sender_name" && "is_read" != "created_at";
  }

  /** MessageRead carries its id list as given, order and repetitions included. */
  lemma MessageReadPayload(ids: seq<nat>, c: nat)
    ensures Payload(MessageRead(ids, c))["messageIds"] == VIds(ids)
    ensures Payload(MessageRead(ids, c))["conversationId"] == VInt(c)
    ensures "user" !in Payload(MessageRead(ids, c))
  {
  }

  /** No UserTyping payload has a `user` key: the user travels as `user_id` and `user_name`. */
  lemma UserTypingPayload(c: nat, u: nat, name: string)
    ensures Payload(UserTyping(c, u, name)).Keys == {"user_id", "user_name", "conversation_id"}
    ensures "user" !in Payload(UserTyping(c, u, name))
    ensures Payload(UserTyping(c, u, name))["user_id"] == VInt(u)
    ensures Payload(UserTyping(c, u, name))["user_name"] == VStr(name)
  {
    assert "user" != "user_id" && "user" != "user_name";
  }

  /** The authenticated user handed to an event constructor. */
  datatype Actor = Actor(id: nat, row: UserRow)

  /** PHP refuses a call that omits a required constructor argument. */
  datatype ConstructError = ArgumentCountError

  /**
   * `new UserTyping($conversationId, $user)`. The second argument is required;
   * `None` stands for a call that leaves it out.
   */
  function NewUserTyping(conversationId: nat, user: Option<Actor>): (r: Result<BroadcastEvent, ConstructError>)
    ensures user.None? <==> r == Err(ArgumentCountError)
    ensures user.Some? ==> (r.Ok? && r.value.UserTyping? && ConversationOf(r.value) == conversationId
      && r.value.userId == user.value.id && r.value.userName == user.value.row.name)
  {
    match user
    case None => Err(ArgumentCountError)
    case Some(a) => Ok(UserTyping(conversationId, a.id, a.row.name))
  }

  /** The events handed to `broadcast(...)`, oldest first. */
  class EventLog {
    var events: seq<BroadcastEvent>

    constructor ()
      ensures events == []
    {
      events := [];
    }

    method Broadcast(e: BroadcastEvent)
      modifies this
      ensures events == old(events) + [e]
    {
      events := events + [e];
    }
  }
}
