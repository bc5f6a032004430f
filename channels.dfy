/**
 * The authorization callback registered for `chat.{conversationId}`: it looks
 * the conversation up and admits its participants. The callback only reads
 * the conversations table, so it is a function of that table.
 */
module Channels {

  import opened Wrappers
  import opened Text
  import opened Conversations
  import opened Events

  /**
   * Laravel's match of a channel name (without its `private-` prefix) against
   * the pattern `chat.{conversationId}`: the pattern becomes the regular
   * expression `^chat.([^\.]+)$`, whose unescaped `.` accepts any one
   * character other than a line feed. The result is the parameter text.
   */
  function MatchChatPattern(name: string): (r: Option<string>)
    ensures r.Some? ==> (|name| >= 6 && name[..4] == "chat" && r.value == name[5..]
      && |r.value| >= 1 && '.' !in r.value)
  {
    if |name| >= 6 && name[..4] == "chat" && name[4] != '\n' && '.' !in name[5..] then Some(name[5..])
    else None
  }

  /**
   * `Conversation::find($conversationId)` on the parameter text. The
   * database compares that text with the integer key; the model takes the
   * comparison to be exact decimal parsing, so a parameter names a row only
   * when it is the row's id written in digits.
   */
  function FindConversation(rows: map<nat, Conversation>, param: string): (r: Option<nat>)
    ensures r.Some? ==> r.value in rows && ParseDecimal(param) == Some(r.value)
    ensures r.None? <==> ParseDecimal(param).None? || ParseDecimal(param).value !in rows
  {
    match ParseDecimal(param)
    case None => None
    case Some(id) => if id in rows then Some(id) else None
  }

  /** The name an event is broadcast on matches the pattern and yields back its conversation id. */
  lemma ChannelNameParsesBack(conversationId: nat)
    ensures MatchChatPattern(ChannelName(conversationId)) == Some(Decimal(conversationId))
    ensures ParseDecimal(MatchChatPattern(ChannelName(conversationId)).value) == Some(conversationId)
  {
    var name := ChannelName(conversationId);
    assert name[..4] == "chat" && name[4] == '.' && name[5..] == Decimal(conversationId);
    ParseDecimalOfDecimal(conversationId);
  }

  /** What the broadcasting auth endpoint answers; `Failed` is an exception inside the callback. */
  datatype AuthOutcome = Granted | Denied | Failed

  /**
   * The callback as written: a missing conversation is denied; for an existing
   * one it reads `$conversation->participants`, a relation the Conversation
   * model does not define, so the value is null and `contains` is called on
   * null.
   */
  function AuthorizeAsWritten(rows: map<nat, Conversation>, user: nat, name: string): AuthOutcome
  {
    match MatchChatPattern(name)
    case None => Denied
    case Some(param) =>
      match FindConversation(rows, param)
      case None => Denied
      case Some(_) => Failed
  }

  /** As written, no one is ever admitted to a conversation channel, participants included. */
  lemma AuthorizeAsWrittenNeverGrants(rows: map<nat, Conversation>, user: nat, conversationId: nat)
    requires conversationId in rows && IsParticipant(rows[conversationId], user)
    ensures AuthorizeAsWritten(rows, user, ChannelName(conversationId)) == Failed
  {
    ChannelNameParsesBack(conversationId);
  }

  /** The callback with membership taken as the two participant columns. */
  function Authorize(rows: map<nat, Conversation>, user: nat, name: string): AuthOutcome
  {
    match MatchChatPattern(name)
    case None => Denied
    case Some(param) =>
      match FindConversation(rows, param)
      case None => Denied
      case Some(id) => if IsParticipant(rows[id], user) then Granted else Denied
  }

  /**
   * A conversation's channel is granted exactly to its two participants; a
   * missing conversation is denied to everyone.
   */
  lemma AuthorizeChannelIff(rows: map<nat, Conversation>, user: nat, conversationId: nat)
    ensures Authorize(rows, user, ChannelName(conversationId)) == Granted <==>
      conversationId in rows && IsParticipant(rows[conversationId], user)
    ensures conversationId !in rows ==> Authorize(rows, user, ChannelName(conversationId)) == Denied
  {
    ChannelNameParsesBack(conversationId);
  }

  /**
   * The answer never fails and never tells a missing conversation from one the
   * user is not in: both are the same `Denied`.
   */
  lemma AuthorizeIsUniformDenial(rows: map<nat, Conversation>, user: nat, name: string)
    ensures Authorize(rows, user, name) != Failed
    ensures Authorize(rows, user, name) == Granted <==>
      exists id :: id in rows && MatchChatPattern(name).Some?
        && ParseDecimal(MatchChatPattern(name).value) == Some(id) && IsParticipant(rows[id], user)
  {
  }
}
