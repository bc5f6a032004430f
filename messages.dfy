/**
 * The `messages` table and the Message model: a row per chat message,
 * the read flag and read time set by `markAsRead`, and the `unread` scope.
 * Timestamps are integers supplied by the caller in place of `now()`.
 */
module Messages {

  import opened Wrappers

  /** One row of `messages`; `message` is the text column, `isRead` defaults to false. */
  datatype Message = Message(
    conversationId: nat,
    senderId: nat,
    message: string,
    isRead: bool,
    readAt: Option<int>,
    createdAt: int)

  /** A freshly sent message: not yet read, no read time. */
  function NewMessage(conversationId: nat, senderId: nat, text: string, now: int): (m: Message)
    ensures !m.isRead && m.readAt.None? && m.createdAt == now
    ensures m.conversationId == conversationId && m.senderId == senderId && m.message == text
  {
    Message(conversationId, senderId, text, false, None, now)
  }

  /** The row after `markAsRead` at time `now`. */
  function MarkedRead(m: Message, now: int): (r: Message)
  {
    m.(isRead := true, readAt := Some(now))
  }

  /** The `unread` scope's condition. */
  predicate Unread(m: Message)
  {
    !m.isRead
  }

  /** Marking read sets the flag and the time and leaves the other columns alone. */
  lemma MarkedReadEffect(m: Message, now: int)
    ensures MarkedRead(m, now).isRead && MarkedRead(m, now).readAt == Some(now)
    ensures !Unread(MarkedRead(m, now))
    ensures MarkedRead(m, now).conversationId == m.conversationId
    ensures MarkedRead(m, now).senderId == m.senderId
    ensures MarkedRead(m, now).message == m.message
    ensures MarkedRead(m, now).createdAt == m.createdAt
  {
  }

  /** Marking read twice leaves the flag set; only the read time moves to the later call. */
  lemma MarkedReadTwice(m: Message, t1: int, t2: int)
    ensures MarkedRead(MarkedRead(m, t1), t2) == MarkedRead(m, t2)
    ensures MarkedRead(MarkedRead(m, t1), t2).isRead
  {
  }

  /** The ids the `unread` scope selects from the table. */
  function UnreadIds(rows: map<nat, Message>): (r: set<nat>)
    ensures forall k :: k in r <==> k in rows && !rows[k].isRead
  {
    set k | k in rows && Unread(rows[k])
  }

  /** The table after `whereIn('id', ids)->update(['is_read' => true, 'read_at' => now])`. */
  function MarkIdsRead(rows: map<nat, Message>, ids: set<nat>, now: int): (r: map<nat, Message>)
    ensures r.Keys == rows.Keys
    ensures forall k :: k in rows && k in ids ==> r[k] == MarkedRead(rows[k], now)
    ensures forall k :: k in rows && k !in ids ==> r[k] == rows[k]
  {
    map k | k in rows :: if k in ids then MarkedRead(rows[k], now) else rows[k]
  }

  /** Read flags only ever go from false to true, and a marked row leaves the unread scope. */
  lemma MarkIdsReadMonotone(rows: map<nat, Message>, ids: set<nat>, now: int)
    ensures forall k :: k in rows && rows[k].isRead ==> MarkIdsRead(rows, ids, now)[k].isRead
    ensures UnreadIds(MarkIdsRead(rows, ids, now)) == UnreadIds(rows) - ids
  {
    var r := MarkIdsRead(rows, ids, now);
    forall k | k in UnreadIds(r) ensures k in UnreadIds(rows) - ids {
    }
  }

  /** An update with no ids leaves the table as it was. */
  lemma MarkNoIdsRead(rows: map<nat, Message>, now: int)
    ensures MarkIdsRead(rows, {}, now) == rows
  {
  }

  /** The `messages` table with its auto-increment counter. */
  class MessageTable {
    var rows: map<nat, Message>
    var nextId: nat

    /** Every id in use was handed out by the counter. */
    ghost predicate Valid()
      reads this
    {
      forall k :: k in rows ==> k < nextId
    }

    constructor ()
      ensures Valid() && rows == map[] && nextId == 1
    {
      rows := map[];
      nextId := 1;
    }

    /** `Message::create`: stores the row under the next id. */
    method Insert(m: Message) returns (id: nat)
      requires Valid()
      modifies this
      ensures Valid()
      ensures id == old(nextId) && id !in old(rows)
      ensures rows == old(rows)[id := m] && nextId == id + 1
    {
      id := nextId;
      rows := rows[id := m];
      nextId := nextId + 1;
    }

    /**
     * `$message->markAsRead()` on a loaded row: sets the flag and the time and
     * saves. Eloquent's `save` reports success; a row deleted in the meantime
     * is simply not updated.
     */
    method MarkAsRead(id: nat, now: int) returns (saved: bool)
      requires Valid()
      modifies this
      ensures Valid() && saved && nextId == old(nextId)
      ensures id in old(rows) ==> rows == old(rows)[id := MarkedRead(old(rows)[id], now)]
      ensures id !in old(rows) ==> rows == old(rows)
    {
      if id in rows {
        rows := rows[id := MarkedRead(rows[id], now)];
      }
      saved := true;
    }

    /** The bulk update that marks every listed row read at `now`. */
    method MarkManyRead(ids: set<nat>, now: int)
      requires Valid()
      modifies this
      ensures Valid() && nextId == old(nextId)
      ensures rows == MarkIdsRead(old(rows), ids, now)
    {
      rows := MarkIdsRead(rows, ids, now);
    }
  }
}
