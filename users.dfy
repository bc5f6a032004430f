/**
 * The User model's conversation helpers: the `conversations` attribute
 * (both slots, most recent activity first) and `getConversationWith`, the
 * find-or-create that stores every new pair in canonical order.
 */
module Users {

  import opened Wrappers
  import opened Ordering
  import opened Conversations

  /** The columns of `users` the chat core reads. */
  datatype UserRow = UserRow(name: string, email: string)

  /** `orderBy('last_message_at', 'desc')`: latest first, NULL after every timestamp. */
  function ByLastMessageDesc(rows: map<nat, Conversation>): nat -> Key
  {
    k => if k in rows && rows[k].lastMessageAt.Some? then (0, -rows[k].lastMessageAt.value) else (1, 0)
  }

  /** `a` may be listed before `b` in descending `last_message_at` order. */
  predicate NoOlderThan(a: Option<int>, b: Option<int>)
  {
    match (a, b)
    case (Some(x), Some(y)) => x >= y
    case (Some(_), None) => true
    case (None, Some(_)) => false
    case (None, None) => true
  }

  /** The `conversations` attribute: every row with the user in either slot, most recent first. */
  function ConversationsOf(rows: map<nat, Conversation>, user: nat): (r: seq<nat>)
    ensures forall k :: k in r <==> k in rows && IsParticipant(rows[k], user)
    ensures forall i, j :: 0 <= i < j < |r| ==> r[i] != r[j]
    ensures forall i, j :: 0 <= i < j < |r| ==> NoOlderThan(rows[r[i]].lastMessageAt, rows[r[j]].lastMessageAt)
  {
    var s := set k | k in rows && IsParticipant(rows[k], user);
    var r := SortedIds(s, ByLastMessageDesc(rows));
    assert forall i, j :: 0 <= i < j < |r| ==> Precedes(ByLastMessageDesc(rows), r[i], r[j]);
    r
  }

  /** `Conversation::betweenUsers(a, b)->first()`: the lowest-id matching row, if any. */
  function FindBetween(rows: map<nat, Conversation>, a: nat, b: nat): (r: Option<nat>)
    ensures r.Some? ==> r.value in rows && BetweenUsers(rows[r.value], a, b)
    ensures r.None? <==> forall k :: k in rows ==> !BetweenUsers(rows[k], a, b)
    ensures r.Some? ==> forall k :: k in rows && BetweenUsers(rows[k], a, b) ==> r.value <= k
  {
    var matching := set k | k in rows && BetweenUsers(rows[k], a, b);
    var ids := SortedIds(matching, ById());
    assert forall k :: k in rows && BetweenUsers(rows[k], a, b) ==> k in matching;
    if ids == [] then None
    else
      assert forall k :: k in matching ==> ids[0] <= k by {
        forall k | k in matching ensures ids[0] <= k {
          var i :| 0 <= i < |ids| && ids[i] == k;
          if i > 0 {
            assert Precedes(ById(), ids[0], ids[i]);
            assert ById()(ids[0]) == ById()(ids[i]);
          }
        }
      }
      Some(ids[0])
  }

  /** Looking up (a, b) and (b, a) finds the same conversation. */
  lemma FindBetweenSymmetric(rows: map<nat, Conversation>, a: nat, b: nat)
    ensures FindBetween(rows, a, b) == FindBetween(rows, b, a)
  {
    var ab := FindBetween(rows, a, b);
    var ba := FindBetween(rows, b, a);
    forall k | k in rows ensures BetweenUsers(rows[k], a, b) <==> BetweenUsers(rows[k], b, a) {
      BetweenUsersSymmetric(rows[k], a, b);
    }
    if ab.Some? && ba.Some? {
      assert ab.value <= ba.value && ba.value <= ab.value;
    }
  }

  /** With canonical rows under the unique index, a pair has at most one conversation. */
  lemma FindBetweenIsTheOnlyMatch(rows: map<nat, Conversation>, a: nat, b: nat, k: nat)
    requires UniqueIndex(rows) && AllCanonical(rows)
    requires k in rows && BetweenUsers(rows[k], a, b)
    ensures FindBetween(rows, a, b) == Some(k)
  {
    CanonicalRowsAreOnePerPair(rows);
    var f := FindBetween(rows, a, b);
    assert f.Some?;
    assert BetweenUsers(rows[k], rows[f.value].userOne, rows[f.value].userTwo);
  }

  /** Why `getConversationWith` refuses. */
  datatype ConversationError = SelfConversation | Database(DbError)

  /**
   * `$user->getConversationWith($other)`: refuses a conversation with oneself,
   * returns the existing row for the pair in either order, and otherwise
   * creates one with the smaller id in `user_one_id`.
   */
  method GetConversationWith(table: ConversationTable, userIds: set<nat>, self: nat, other: nat)
    returns (r: Result<nat, ConversationError>)
    requires table.Valid()
    modifies table
    ensures table.Valid()
    ensures AllCanonical(old(table.rows)) ==> AllCanonical(table.rows)
    ensures self == other ==> r == Err(SelfConversation)
    ensures self != other && FindBetween(old(table.rows), self, other).Some? ==>
      r == Ok(FindBetween(old(table.rows), self, other).value)
    ensures self != other && FindBetween(old(table.rows), self, other).None? ==>
      if self in userIds && other in userIds then
        r == Ok(old(table.nextId)) && table.nextId == old(table.nextId) + 1 &&
        table.rows == old(table.rows)[r.value :=
          Conversation(if self < other then self else other, if self < other then other else self, None)]
      else r == Err(Database(ForeignKeyViolation))
    ensures r.Err? || FindBetween(old(table.rows), self, other).Some? ==>
      table.rows == old(table.rows) && table.nextId == old(table.nextId)
    ensures r.Ok? ==> r.value in table.rows && BetweenUsers(table.rows[r.value], self, other)
    ensures r.Ok? ==> FindBetween(table.rows, self, other) == Some(r.value)
  {
    if self == other {
      return Err(SelfConversation);
    }
    var found := FindBetween(table.rows, self, other);
    if found.Some? {
      return Ok(found.value);
    }
    var one := if self < other then self else other;
    var two := if self < other then other else self;
    assert forall k :: k in table.rows ==> !BetweenUsers(table.rows[k], one, two);
    ghost var before := table.rows;
    assert !exists k :: k in before && before[k].userOne == one && before[k].userTwo == two;
    var inserted := table.Insert(one, two, userIds);
    match inserted
    case Ok(id) =>
      r := Ok(id);
    case Err(e) =>
      assert e != UniqueViolation;
      r := Err(Database(e));
  }
}
