/**
 * The message list on the client: the messages it shows, the handlers that
 * add incoming and locally sent messages (once per id), apply read receipts
 * and show the typing indicator, the "last own message" that carries the
 * read checkmark, and the relative timestamps. Timer delays, HTTP calls and
 * rendering are outside; the events they produce arrive as method calls.
 */
module ChatMessagesView {

  import opened Wrappers
  import opened Text
  import opened Messages
  import opened Events
  import opened ChatController

  // ---------------------------------------------------------------- messages

  /** A message as the component holds it. */
  datatype ClientMessage = ClientMessage(
    id: nat,
    body: string,
    senderId: nat,
    senderName: string,
    isRead: bool,
    createdAt: int)

  /** A message given as the server's JSON (the initial page or `store`'s reply). */
  function FromJson(j: MessageJson): ClientMessage
  {
    ClientMessage(j.id, j.body, j.senderId, j.senderName, j.isRead, j.createdAt)
  }

  /** A message received from MessageSent's payload, which has no read flag (so it reads as unread). */
  function Received(m: SentMessage): ClientMessage
  {
    ClientMessage(m.id, m.row.message, m.row.senderId, GetOr(m.senderName, "Unknown"), false, m.row.createdAt)
  }

  /** The list holds a message with this id. */
  predicate HasId(msgs: seq<ClientMessage>, id: nat)
  {
    exists i :: 0 <= i < |msgs| && msgs[i].id == id
  }

  /** No two messages of the list share an id. */
  predicate UniqueIds(msgs: seq<ClientMessage>)
  {
    forall i, j :: 0 <= i < j < |msgs| ==> msgs[i].id != msgs[j].id
  }

  /**
   * `addMessage`: a message whose id is already listed changes nothing; any
   * other is appended after the earlier ones.
   */
  function AddMessage(prev: seq<ClientMessage>, incoming: ClientMessage): (r: seq<ClientMessage>)
    ensures |r| == if HasId(prev, incoming.id) then |prev| else |prev| + 1
    ensures r[..|prev|] == prev
    ensures !HasId(prev, incoming.id) ==> r[|prev|] == incoming
    ensures HasId(r, incoming.id)
    ensures forall id :: HasId(r, id) <==> HasId(prev, id) || id == incoming.id
  {
    if exists i :: 0 <= i < |prev| && prev[i].id == incoming.id then prev
    else
      var r := prev + [incoming];
      assert r[|prev|] == incoming;
      assert forall i :: 0 <= i < |prev| ==> r[i] == prev[i];
      r
  }

  /** Adding keeps ids unique. */
  lemma AddMessageKeepsUnique(prev: seq<ClientMessage>, incoming: ClientMessage)
    requires UniqueIds(prev)
    ensures UniqueIds(AddMessage(prev, incoming))
  {
    var r := AddMessage(prev, incoming);
    if !HasId(prev, incoming.id) {
      forall i, j | 0 <= i < j < |r| ensures r[i].id != r[j].id {
        if j == |prev| {
          assert r[i] == prev[i];
        } else {
          assert r[i] == prev[i] && r[j] == prev[j];
        }
      }
    }
  }

  /** Adding the same message twice is adding it once. */
  lemma AddMessageIdempotent(prev: seq<ClientMessage>, incoming: ClientMessage)
    ensures AddMessage(AddMessage(prev, incoming), incoming) == AddMessage(prev, incoming)
  {
  }

  /**
   * The sender gets its message twice, from `store`'s reply (dispatched as
   * `message:sent`) and from the MessageSent broadcast; both describe the
   * same message, so in either order the list gains exactly one entry.
   */
  lemma SenderSeesOneCopy(prev: seq<ClientMessage>, id: nat, cid: nat, sender: nat, name: string,
                          text: string, now: int)
    requires !HasId(prev, id)
    ensures var local := FromJson(MessageJson(id, text, sender, name, false, now));
      var echoed := Received(SentMessage(id, NewMessage(cid, sender, text, now), Some(name)));
      local == echoed
      && AddMessage(AddMessage(prev, local), echoed) == prev + [local]
      && AddMessage(AddMessage(prev, echoed), local) == prev + [local]
  {
  }

  /**
   * A read receipt (the MessageRead event, or the ids the read request
   * returns): every listed message is flagged read, the rest stay as they
   * are, and the list keeps its length and order.
   */
  function ApplyRead(msgs: seq<ClientMessage>, ids: seq<nat>): (r: seq<ClientMessage>)
    ensures |r| == |msgs|
    ensures forall i :: 0 <= i < |r| ==> r[i].id == msgs[i].id
    ensures forall i :: 0 <= i < |r| ==> (r[i].isRead <==> msgs[i].isRead || msgs[i].id in ids)
    ensures forall i :: 0 <= i < |r| && msgs[i].id !in ids ==> r[i] == msgs[i]
    ensures forall i :: 0 <= i < |r| && msgs[i].id in ids ==> r[i] == msgs[i].(isRead := true)
  {
    seq(|msgs|, i requires 0 <= i < |msgs| => if msgs[i].id in ids then msgs[i].(isRead := true) else msgs[i])
  }

  /** Receipts apply in any grouping: two in a row are one with both id lists. */
  lemma ApplyReadTwice(msgs: seq<ClientMessage>, a: seq<nat>, b: seq<nat>)
    ensures ApplyRead(ApplyRead(msgs, a), b) == ApplyRead(msgs, a + b)
    ensures ApplyRead(ApplyRead(msgs, a), b) == ApplyRead(ApplyRead(msgs, b), a)
  {
    var x, y, z := ApplyRead(ApplyRead(msgs, a), b), ApplyRead(msgs, a + b), ApplyRead(ApplyRead(msgs, b), a);
    assert forall i :: 0 <= i < |msgs| ==> (msgs[i].id in a + b <==> msgs[i].id in a || msgs[i].id in b);
    assert forall i :: 0 <= i < |msgs| ==> x[i] == y[i];
    assert forall i :: 0 <= i < |msgs| ==> x[i] == z[i];
  }

  /** A receipt never clears a read flag, and keeps the ids in place. */
  lemma ApplyReadMonotone(msgs: seq<ClientMessage>, ids: seq<nat>, i: nat)
    requires i < |msgs| && msgs[i].isRead
    ensures ApplyRead(msgs, ids)[i].isRead
  {
  }

  // ---------------------------------------------------------------- last own message

  /** The position of the last message sent by `current`, if any. */
  function LastOwnIndex(msgs: seq<ClientMessage>, current: nat): (r: Option<nat>)
    ensures r.Some? ==> (r.value < |msgs| && msgs[r.value].senderId == current
      && forall j :: r.value < j < |msgs| ==> msgs[j].senderId != current)
    ensures r.None? <==> forall j :: 0 <= j < |msgs| ==> msgs[j].senderId != current
    decreases |msgs|
  {
    if msgs == [] then None
    else if msgs[|msgs| - 1].senderId == current then Some(|msgs| - 1)
    else LastOwnIndex(msgs[..|msgs| - 1], current)
  }

  /** `lastOwnMessageId`: the id of the last message from the current user, undefined when there is none. */
  function LastOwnMessageId(msgs: seq<ClientMessage>, current: nat): (r: Option<nat>)
    ensures r.None? <==> forall j :: 0 <= j < |msgs| ==> msgs[j].senderId != current
    ensures r.Some? ==>
      exists j :: 0 <= j < |msgs| && msgs[j].senderId == current && msgs[j].id == r.value
        && forall k :: j < k < |msgs| ==> msgs[k].senderId != current
  {
    match LastOwnIndex(msgs, current)
    case None => None
    case Some(i) => Some(msgs[i].id)
  }

  /** Message `i` shows the read checkmark: it is the user's own and its id is the last own one. */
  predicate ShowsReceipt(msgs: seq<ClientMessage>, current: nat, i: nat)
    requires i < |msgs|
  {
    msgs[i].senderId == current && LastOwnMessageId(msgs, current) == Some(msgs[i].id)
  }

  /** With unique ids, exactly the user's last own message carries the checkmark. */
  lemma ReceiptOnlyOnLastOwn(msgs: seq<ClientMessage>, current: nat, i: nat)
    requires UniqueIds(msgs) && i < |msgs|
    ensures ShowsReceipt(msgs, current, i) <==> LastOwnIndex(msgs, current) == Some(i)
  {
    var last := LastOwnIndex(msgs, current);
    if ShowsReceipt(msgs, current, i) {
      assert last.Some? && msgs[last.value].id == msgs[i].id;
    }
  }

  /** The checkmark's state: read once the message is flagged read, sent before. */
  datatype Receipt = Sent | Read

  function ReceiptOf(m: ClientMessage): Receipt
  {
    if m.isRead then Read else Sent
  }

  /**
   * Once a receipt lists the last own message, its checkmark reads as read,
   * and stays on the same message.
   */
  lemma ReceiptTurnsRead(msgs: seq<ClientMessage>, current: nat, ids: seq<nat>)
    requires LastOwnIndex(msgs, current).Some?
    requires msgs[LastOwnIndex(msgs, current).value].id in ids
    ensures LastOwnIndex(ApplyRead(msgs, ids), current) == LastOwnIndex(msgs, current)
    ensures ReceiptOf(ApplyRead(msgs, ids)[LastOwnIndex(msgs, current).value]) == Read
  {
    SameSendersSameLastOwn(msgs, ApplyRead(msgs, ids), current);
  }

  /** The last own position depends only on who sent each message. */
  lemma {:induction false} SameSendersSameLastOwn(a: seq<ClientMessage>, b: seq<ClientMessage>, current: nat)
    requires |a| == |b| && forall k :: 0 <= k < |a| ==> a[k].senderId == b[k].senderId
    ensures LastOwnIndex(a, current) == LastOwnIndex(b, current)
    decreases |a|
  {
    if a != [] && a[|a| - 1].senderId != current {
      SameSendersSameLastOwn(a[..|a| - 1], b[..|b| - 1], current);
    }
  }

  // ---------------------------------------------------------------- typing

  /** What a typing event does to the indicator: nothing, or show it with a name (possibly missing). */
  datatype TypingUpdate = Ignore | ShowTyping(name: Option<string>)

  /**
   * The guard as written: it needs a truthy `user` member, ignores the
   * current user's own events and takes `user.name` (missing when `user`
   * is not an object).
   */
  function TypingGuardAsWritten(e: map<string, Value>, current: nat): TypingUpdate
  {
    if "user" !in e then Ignore
    else match e["user"]
      case VUser(id, name) => if id == current then Ignore else ShowTyping(Some(name))
      case VInt(i) => if i == 0 then Ignore else ShowTyping(None)
      case VStr(s) => if s == "" then Ignore else ShowTyping(None)
      case VIds(_) => ShowTyping(None)
  }

  /** As written, no typing event the server sends ever shows the indicator. */
  lemma TypingAsWrittenIgnoresServer(c: nat, u: nat, name: string, current: nat)
    ensures TypingGuardAsWritten(Payload(UserTyping(c, u, name)), current) == Ignore
  {
    UserTypingPayload(c, u, name);
  }

  /** The guard reading the members the payload has: `user_id` and `user_name`. */
  function TypingGuard(e: map<string, Value>, current: nat): TypingUpdate
  {
    if "user_id" !in e || !e["user_id"].VInt? || e["user_id"].i == 0 || e["user_id"].i == current then Ignore
    else if "user_name" in e && e["user_name"].VStr? then ShowTyping(Some(e["user_name"].s))
    else ShowTyping(None)
  }

  /**
   * With the corrected guard a typing event shows its sender's name exactly
   * when the sender is someone else.
   */
  lemma TypingGuardShowsOthers(c: nat, u: nat, name: string, current: nat)
    requires u != 0
    ensures TypingGuard(Payload(UserTyping(c, u, name)), current) == (if u == current then Ignore else ShowTyping(Some(name)))
  {
    UserTypingPayload(c, u, name);
  }

  /** The indicator's text: the name, or 'Someone' when it is missing or empty. */
  function TypingText(user: Option<string>): (t: string)
    ensures user.Some? && user.value != "" ==> t == user.value + " is typing…"
    ensures user.None? || user.value == "" ==> t == "Someone is typing…"
  {
    (if user.None? || user.value == "" then "Someone" else user.value) + " is typing…"
  }

  /** How long the indicator stays up after the last typing event, in milliseconds. */
  const TypingHideDelay: int := 3000

  // ---------------------------------------------------------------- relative time

  /** The buckets of `formatMessageTime`; the last two are locale-formatted texts of the date. */
  datatype TimeLabel = InvalidDate | JustNow | MinutesAgo(minutes: nat) | HoursAgo(hours: nat)
                     | YesterdayAt(date: int) | OnDate(date: int)

  /** Floored minutes, then floored hours of those, are floored hours of the milliseconds. */
  lemma FloorChain(d: nat)
    ensures (d / 60000) / 60 == d / 3600000
    ensures ((d / 60000) / 60) / 24 == d / 86400000
  {
    var m, h := d / 60000, (d / 60000) / 60;
    assert d == 60000 * m + d % 60000;
    assert m == 60 * h + m % 60;
    assert d == 3600000 * h + (60000 * (m % 60) + d % 60000);
    assert 0 <= 60000 * (m % 60) + d % 60000 < 3600000;
    var dd := h / 24;
    assert h == 24 * dd + h % 24;
    assert d == 86400000 * dd + (3600000 * (h % 24) + 60000 * (m % 60) + d % 60000);
    assert 0 <= 3600000 * (h % 24) + 60000 * (m % 60) + d % 60000 < 86400000;
  }

  /**
   * `formatMessageTime` for a message dated `date` (milliseconds, `None` for
   * an unparsable date) read at `now`.
   */
  function FormatMessageTime(date: Option<int>, now: int): (r: TimeLabel)
    ensures r == InvalidDate <==> date.None? || date.value > now
    ensures date.Some? && date.value <= now ==>
      var d := now - date.value;
      (r == JustNow <==> d < 60000)
      && (r.MinutesAgo? <==> 60000 <= d < 3600000)
      && (r.MinutesAgo? ==> r.minutes == d / 60000 && 1 <= r.minutes <= 59)
      && (r.HoursAgo? <==> 3600000 <= d < 86400000)
      && (r.HoursAgo? ==> r.hours == d / 3600000 && 1 <= r.hours <= 23)
      && (r.YesterdayAt? <==> 86400000 <= d < 172800000)
      && (r.OnDate? <==> d >= 172800000)
  {
    if date.None? || date.value > now then InvalidDate
    else
      var diffMs := now - date.value;
      var diffMins := diffMs / 60000;
      var diffHours := diffMins / 60;
      var diffDays := diffHours / 24;
      FloorChain(diffMs);
      if diffDays == 0 then
        if diffMins < 1 then JustNow
        else if diffMins < 60 then MinutesAgo(diffMins)
        else HoursAgo(diffHours)
      else if diffDays == 1 then YesterdayAt(date.value)
      else OnDate(date.value)
  }

  /** The text of the buckets that do not depend on the locale. */
  function RelativeText(l: TimeLabel): Option<string>
  {
    match l
    case InvalidDate => Some("Invalid date")
    case JustNow => Some("Just now")
    case MinutesAgo(m) => Some(Decimal(m) + "m ago")
    case HoursAgo(h) => Some(Decimal(h) + "h ago")
    case YesterdayAt(_) => None
    case OnDate(_) => None
  }

  /** A message from 90 seconds ago reads '1m ago'; one from 59 seconds ago 'Just now'. */
  lemma RelativeTextExamples(now: int)
    ensures RelativeText(FormatMessageTime(Some(now - 90000), now)) == Some("1m ago")
    ensures RelativeText(FormatMessageTime(Some(now - 59999), now)) == Some("Just now")
    ensures RelativeText(FormatMessageTime(Some(now + 1), now)) == Some("Invalid date")
  {
    assert FormatMessageTime(Some(now - 90000), now) == MinutesAgo(1);
    assert Decimal(1) == [DigitChar(1)] == "1";
    assert Decimal(1) + "m ago" == "1m ago";
  }

  // ---------------------------------------------------------------- echo event names

  /**
   * The name Echo subscribes to for `listen(event)` with its default
   * namespace `App.Events`: a leading `.` or `\` opts out of the namespace
   * and the rest is taken as it is; otherwise the name is prefixed with the
   * namespace and every dot becomes a backslash.
   */
  function ListenName(event: string): string
  {
    if |event| > 0 && (event[0] == '.' || event[0] == '\\') then event[1..]
    else
      var full := "App.Events." + event;
      seq(|full|, i requires 0 <= i < |full| => if full[i] == '.' then '\\' else full[i])
  }

  /** The three names the component listens for. */
  function Listened(): seq<string>
  {
    [ListenName("MessageSent"), ListenName(".UserTyping"), ListenName(".MessageRead")]
  }

  /**
   * Each listener hears the event it is named after; MessageDeleted is
   * broadcast but nobody listens for it.
   */
  lemma ListenersHearTheirEvents(e: BroadcastEvent)
    ensures BroadcastAs(e) in Listened() <==> !e.MessageDeleted?
    ensures e.MessageSent? ==> BroadcastAs(e) == ListenName("MessageSent")
    ensures e.UserTyping? ==> BroadcastAs(e) == ListenName(".UserTyping")
    ensures e.MessageRead? ==> BroadcastAs(e) == ListenName(".MessageRead")
  {
    assert ListenName("MessageSent") == "App\\Events\\MessageSent";
    assert ListenName(".UserTyping") == "UserTyping";
    assert ListenName(".MessageRead") == "MessageRead";
    assert |"MessageDeleted"| == 14;
  }

  // ---------------------------------------------------------------- the component

  /** The component's state, updated by the handlers the channel and the page call. */
  class ChatView {
    const conversationId: nat
    const currentUserId: nat
    var messages: seq<ClientMessage>
    var isTyping: bool
    var typingUser: Option<string>
    /** When the pending hide timer fires, if one is pending. */
    var hideAt: Option<int>

    /** The indicator is up exactly while a hide timer is pending, and a name is kept only while it is up. */
    predicate Valid()
      reads this
    {
      (isTyping <==> hideAt.Some?) && (!isTyping ==> typingUser.None?)
    }

    /** Mounting with the page's messages; nobody is typing. */
    constructor (conversationId: nat, currentUserId: nat, initial: seq<MessageJson>)
      ensures Valid()
      ensures this.conversationId == conversationId && this.currentUserId == currentUserId
      ensures |messages| == |initial| && forall i :: 0 <= i < |initial| ==> messages[i] == FromJson(initial[i])
      ensures !isTyping
    {
      this.conversationId := conversationId;
      this.currentUserId := currentUserId;
      messages := seq(|initial|, i requires 0 <= i < |initial| => FromJson(initial[i]));
      isTyping := false;
      typingUser := None;
      hideAt := None;
    }

    /**
     * MessageSent: add the message; answer whether to mark the conversation
     * read shortly after (only for someone else's message).
     */
    method OnMessageSent(m: SentMessage) returns (scheduleMarkRead: bool)
      modifies this
      ensures messages == AddMessage(old(messages), Received(m))
      ensures scheduleMarkRead <==> m.row.senderId != currentUserId
      ensures isTyping == old(isTyping) && typingUser == old(typingUser) && hideAt == old(hideAt)
    {
      messages := AddMessage(messages, Received(m));
      scheduleMarkRead := m.row.senderId != currentUserId;
    }

    /** `message:sent` from the form: add its detail when there is one. */
    method OnLocalMessage(detail: Option<MessageJson>)
      modifies this
      ensures detail.None? ==> messages == old(messages)
      ensures detail.Some? ==> messages == AddMessage(old(messages), FromJson(detail.value))
      ensures isTyping == old(isTyping) && typingUser == old(typingUser) && hideAt == old(hideAt)
    {
      if detail.Some? {
        messages := AddMessage(messages, FromJson(detail.value));
      }
    }

    /** MessageRead, or the reply to the read request: flag the listed ids read. */
    method OnReadReceipt(ids: seq<nat>)
      modifies this
      ensures messages == ApplyRead(old(messages), ids)
      ensures isTyping == old(isTyping) && typingUser == old(typingUser) && hideAt == old(hideAt)
    {
      messages := ApplyRead(messages, ids);
    }

    /** Show the indicator and (re)arm the hide timer: the pending one is cancelled. */
    method ShowTypingUntil(name: Option<string>, now: int)
      modifies this
      ensures Valid()
      ensures isTyping && typingUser == name && hideAt == Some(now + TypingHideDelay)
      ensures messages == old(messages)
    {
      typingUser := name;
      isTyping := true;
      hideAt := Some(now + TypingHideDelay);
    }

    /** UserTyping with the guard as written. */
    method OnUserTypingAsWritten(e: map<string, Value>, now: int)
      requires Valid()
      modifies this
      ensures Valid() && messages == old(messages)
      ensures TypingGuardAsWritten(e, currentUserId) == Ignore ==>
        isTyping == old(isTyping) && typingUser == old(typingUser) && hideAt == old(hideAt)
      ensures TypingGuardAsWritten(e, currentUserId).ShowTyping? ==>
        isTyping && typingUser == TypingGuardAsWritten(e, currentUserId).name && hideAt == Some(now + TypingHideDelay)
    {
      match TypingGuardAsWritten(e, currentUserId) {
        case Ignore =>
        case ShowTyping(name) => ShowTypingUntil(name, now);
      }
    }

    /** UserTyping with the guard reading `user_id` and `user_name`. */
    method OnUserTyping(e: map<string, Value>, now: int)
      requires Valid()
      modifies this
      ensures Valid() && messages == old(messages)
      ensures TypingGuard(e, currentUserId) == Ignore ==>
        isTyping == old(isTyping) && typingUser == old(typingUser) && hideAt == old(hideAt)
      ensures TypingGuard(e, currentUserId).ShowTyping? ==>
        isTyping && typingUser == TypingGuard(e, currentUserId).name && hideAt == Some(now + TypingHideDelay)
    {
      match TypingGuard(e, currentUserId) {
        case Ignore =>
        case ShowTyping(name) => ShowTypingUntil(name, now);
      }
    }

    /** The clock reaches `now`: a due hide timer hides the indicator and forgets the name. */
    method Tick(now: int)
      requires Valid()
      modifies this
      ensures Valid() && messages == old(messages)
      ensures old(hideAt).Some? && now >= old(hideAt).value ==> !isTyping && typingUser.None? && hideAt.None?
      ensures old(hideAt).None? || now < old(hideAt).value ==>
        isTyping == old(isTyping) && typingUser == old(typingUser) && hideAt == old(hideAt)
    {
      if hideAt.Some? && now >= hideAt.value {
        isTyping := false;
        typingUser := None;
        hideAt := None;
      }
    }
  }

  /**
   * With the corrected guard, the other participant's typing event shows
   * their name until 3 seconds pass without another one.
   */
  method TypingScenario(c: nat, me: nat, other: nat, name: string, t: int)
    returns (shown: Option<string>, shownAfter2999: bool, hiddenAfter3000: bool)
    requires me != other && other != 0
    ensures shown == Some(name) && shownAfter2999 && hiddenAfter3000
  {
    var view := new ChatView(c, me, []);
    TypingGuardShowsOthers(c, other, name, me);
    view.OnUserTyping(Payload(UserTyping(c, other, name)), t);
    shown := if view.isTyping then view.typingUser else None;
    view.Tick(t + 2999);
    shownAfter2999 := view.isTyping;
    view.Tick(t + 3000);
    hiddenAfter3000 := !view.isTyping && view.typingUser.None?;
  }
}
