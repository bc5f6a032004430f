/**
 * The `conversations` table and the Conversation model: a two-party
 * conversation between `user_one_id` and `user_two_id`, its partner lookup,
 * the `betweenUsers` scope and the creation-ordered `messages` relation.
 */
module Conversations {

  import opened Wrappers
  import opened Ordering
  import opened Messages

  /** One row of `conversations`; `lastMessageAt` is NULL until the first message. */
  datatype Conversation = Conversation(userOne: nat, userTwo: nat, lastMessageAt: Option<int>)

  /** The database errors an insert can raise. */
  datatype DbError = UniqueViolation | ForeignKeyViolation

  /** `getOtherUser`: the partner of `current`, or null when `current` is not in the conversation. */
  function OtherUser(c: Conversation, current: nat): Option<nat>
  {
    if c.userOne == current then Some(c.userTwo)
    else if c.userTwo == current then Some(c.userOne)
    else None
  }

  /** Membership as the controllers test it: the user is in one of the two slots. */
  predicate IsParticipant(c: Conversation, user: nat)
  {
    c.userOne == user || c.userTwo == user
  }

  /** The partner exists exactly for participants, and is the user in the other slot. */
  lemma OtherUserCases(c: Conversation, current: nat)
    ensures OtherUser(c, current).Some? <==> IsParticipant(c, current)
    ensures current == c.userOne ==> OtherUser(c, current) == Some(c.userTwo)
    ensures current == c.userTwo && current != c.userOne ==> OtherUser(c, current) == Some(c.userOne)
    ensures OtherUser(c, current).Some? ==> IsParticipant(c, OtherUser(c, current).value)
  {
  }

  /** In a conversation between two different users, the partner's partner is the user. */
  lemma OtherUserInvolution(c: Conversation, current: nat)
    requires IsParticipant(c, current) && c.userOne != c.userTwo
    ensures OtherUser(c, current).Some?
    ensures OtherUser(c, current).value != current
    ensures OtherUser(c, OtherUser(c, current).value) == Some(current)
  {
  }

  /** The `betweenUsers(a, b)` scope: the row holds (a, b) or (b, a). */
  predicate BetweenUsers(c: Conversation, a: nat, b: nat)
  {
    (c.userOne == a && c.userTwo == b) || (c.userOne == b && c.userTwo == a)
  }

  /** The scope matches exactly the rows whose unordered pair of participants is {a, b}. */
  lemma BetweenUsersIsUnorderedPair(c: Conversation, a: nat, b: nat)
    ensures BetweenUsers(c, a, b) <==> {c.userOne, c.userTwo} == {a, b}
  {
    if {c.userOne, c.userTwo} == {a, b} {
      assert a in {c.userOne, c.userTwo} && b in {c.userOne, c.userTwo};
      assert c.userOne in {a, b} && c.userTwo in {a, b};
    }
  }

  /** `betweenUsers(a, b)` and `betweenUsers(b, a)` select the same rows. */
  lemma BetweenUsersSymmetric(c: Conversation, a: nat, b: nat)
    ensures BetweenUsers(c, a, b) <==> BetweenUsers(c, b, a)
  {
  }

  /** A row matched by `betweenUsers(a, b)` has a and b as its participants. */
  lemma BetweenUsersParticipants(c: Conversation, a: nat, b: nat)
    requires BetweenUsers(c, a, b)
    ensures IsParticipant(c, a) && IsParticipant(c, b)
    ensures OtherUser(c, a) == Some(b)
  {
  }

  /** The `created_at` ordering key of the message table. */
  function ByCreatedAt(rows: map<nat, Message>): nat -> Key
  {
    k => if k in rows then (rows[k].createdAt, 0) else (0, 0)
  }

  /** The `messages` relation: this conversation's message ids, oldest first. */
  function MessagesOf(rows: map<nat, Message>, cid: nat): (r: seq<nat>)
    ensures forall k :: k in r <==> k in rows && rows[k].conversationId == cid
    ensures forall i, j :: 0 <= i < j < |r| ==> r[i] != r[j]
    ensures forall i, j :: 0 <= i < j < |r| ==> rows[r[i]].createdAt <= rows[r[j]].createdAt
  {
    var s := set k | k in rows && rows[k].conversationId == cid;
    var r := SortedIds(s, ByCreatedAt(rows));
    assert forall i, j :: 0 <= i < j < |r| ==> Precedes(ByCreatedAt(rows), r[i], r[j]);
    r
  }

  /** The unique index on (user_one_id, user_two_id): no ordered pair occurs twice. */
  ghost predicate UniqueIndex(rows: map<nat, Conversation>)
  {
    forall i, j :: (i in rows && j in rows && rows[i].userOne == rows[j].userOne
      && rows[i].userTwo == rows[j].userTwo) ==> i == j
  }

  /** Every row stores the smaller user id in `user_one_id`. */
  ghost predicate AllCanonical(rows: map<nat, Conversation>)
  {
    forall k :: k in rows ==> rows[k].userOne < rows[k].userTwo
  }

  /** At most one row per unordered pair of users. */
  ghost predicate OnePerPair(rows: map<nat, Conversation>)
  {
    forall i, j :: i in rows && j in rows && BetweenUsers(rows[i], rows[j].userOne, rows[j].userTwo) ==> i == j
  }

  /** Canonical rows under the ordered unique index have one row per unordered pair. */
  lemma CanonicalRowsAreOnePerPair(rows: map<nat, Conversation>)
    requires UniqueIndex(rows) && AllCanonical(rows)
    ensures OnePerPair(rows)
  {
    forall i, j | i in rows && j in rows && BetweenUsers(rows[i], rows[j].userOne, rows[j].userTwo)
      ensures i == j
    {
      assert rows[i].userOne < rows[i].userTwo && rows[j].userOne < rows[j].userTwo;
    }
  }

  /** The index alone admits a pair stored in both orders. */
  lemma ReversedPairPassesUniqueIndex()
    ensures var rows := map[1 := Conversation(1, 2, None), 2 := Conversation(2, 1, None)];
      UniqueIndex(rows) && !OnePerPair(rows)
  {
    var rows := map[1 := Conversation(1, 2, None), 2 := Conversation(2, 1, None)];
    assert BetweenUsers(rows[1], rows[2].userOne, rows[2].userTwo);
  }

  /** The `conversations` table with its auto-increment counter and unique index. */
  class ConversationTable {
    var rows: map<nat, Conversation>
    var nextId: nat

    ghost predicate Valid()
      reads this
    {
      (forall k :: k in rows ==> k < nextId) && UniqueIndex(rows)
    }

    constructor ()
      ensures Valid() && rows == map[] && nextId == 1
    {
      rows := map[];
      nextId := 1;
    }

    /**
     * `Conversation::create`: a new row with NULL `last_message_at`. The
     * foreign keys on both participants and the unique index can reject it.
     */
    method Insert(userOne: nat, userTwo: nat, userIds: set<nat>) returns (r: Result<nat, DbError>)
      requires Valid()
      modifies this
      ensures Valid()
      ensures r == Err(ForeignKeyViolation) <==> (userOne !in userIds || userTwo !in userIds)
      ensures r == Err(UniqueViolation) <==> (userOne in userIds && userTwo in userIds
        && exists k :: k in old(rows) && old(rows)[k].userOne == userOne && old(rows)[k].userTwo == userTwo)
      ensures r.Err? ==> rows == old(rows) && nextId == old(nextId)
      ensures r.Ok? ==> (r.value == old(nextId) && nextId == old(nextId) + 1
        && rows == old(rows)[r.value := Conversation(userOne, userTwo, None)])
    {
      if userOne !in userIds || userTwo !in userIds {
        return Err(ForeignKeyViolation);
      }
      if exists k :: k in rows && rows[k].userOne == userOne && rows[k].userTwo == userTwo {
        return Err(UniqueViolation);
      }
      var id := nextId;
      rows := rows[id := Conversation(userOne, userTwo, None)];
      nextId := nextId + 1;
      r := Ok(id);
    }

    /** `$conversation->update(['last_message_at' => now()])`. */
    method Touch(id: nat, now: int)
      requires Valid()
      modifies this
      ensures Valid() && nextId == old(nextId)
      ensures id in old(rows) ==> rows == old(rows)[id := old(rows)[id].(lastMessageAt := Some(now))]
      ensures id !in old(rows) ==> rows == old(rows)
    {
      if id in rows {
        rows := rows[id := rows[id].(lastMessageAt := Some(now))];
      }
    }
  }
}
