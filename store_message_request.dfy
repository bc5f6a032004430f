/**
 * The form request behind "send a message": who may send, the rules on
 * `message`, `conversation_id` and `user_id`, the after-hook that demands
 * exactly one of the two keys, and the error texts. Validation is a function
 * of the submitted fields and of the ids present in the two tables.
 */
module StoreMessageRequest {

  import opened Wrappers
  import opened Text

  /**
   * The submitted `message` value. `Scalar` is a number or a boolean, given by
   * PHP's string form of it (true is "1", false is ""); `List` is an array
   * with `count` elements.
   */
  datatype MessageInput = Absent | Null | Str(s: string) | Scalar(form: string) | List(count: nat)

  /**
   * A submitted `conversation_id` or `user_id`: no such key, the key with a
   * null value, or the key with a value whose string form is `form`.
   */
  datatype KeyInput = Missing | NullValue | Given(form: string)

  datatype Input = Input(message: MessageInput, conversationId: KeyInput, userId: KeyInput)

  /** The failures validation can report, one per rule that can fail. */
  datatype ValidationError =
    | MessageRequired | MessageString | MessageMin | MessageMax
    | ConversationNotFound | UserNotFound
    | NeitherGiven | BothGiven

  /** The input key an error is filed under. */
  datatype Field = MessageField | ConversationIdField | UserIdField

  function FieldOf(e: ValidationError): Field
  {
    match e
    case MessageRequired | MessageString | MessageMin | MessageMax => MessageField
    case ConversationNotFound | NeitherGiven | BothGiven => ConversationIdField
    case UserNotFound => UserIdField
  }

  /** The text of each error: the request's own messages, and the framework's for `string`. */
  function ErrorText(e: ValidationError): string
  {
    match e
    case MessageRequired => "Please enter a message."
    case MessageString => "The message field must be a string."
    case MessageMin => "Message must be at least 1 character long."
    case MessageMax => "Message cannot exceed 5000 characters."
    case ConversationNotFound => "The selected conversation does not exist."
    case UserNotFound => "The selected user does not exist."
    case NeitherGiven => "Either conversation_id or user_id must be provided."
    case BothGiven => "Provide either conversation_id or user_id, not both."
  }

  /** The texts have pairwise different lengths, listed here per error. */
  function TextLength(e: ValidationError): nat
  {
    match e
    case MessageRequired => 23
    case MessageString => 35
    case MessageMin => 42
    case MessageMax => 38
    case ConversationNotFound => 41
    case UserNotFound => 33
    case NeitherGiven => 51
    case BothGiven => 52
  }

  lemma ErrorTextLength(e: ValidationError)
    ensures |ErrorText(e)| == TextLength(e)
  {
  }

  /** Different failures never share a text. */
  lemma ErrorTextsDistinct(a: ValidationError, b: ValidationError)
    ensures ErrorText(a) == ErrorText(b) <==> a == b
  {
    if ErrorText(a) == ErrorText(b) {
      ErrorTextLength(a);
      ErrorTextLength(b);
      assert TextLength(a) == TextLength(b);
    }
  }

  /** `authorize()`: the request may proceed only with a logged-in user. */
  predicate Authorized(auth: Option<nat>)
  {
    auth.Some?
  }

  /** The `required` rule: not missing, not null, not blank after trimming, not an empty array. */
  predicate Required(m: MessageInput)
  {
    match m
    case Absent => false
    case Null => false
    case Str(s) => !PhpBlank(s)
    case Scalar(_) => true
    case List(n) => n >= 1
  }

  /** The size `min` and `max` compare: characters of a string form, elements of an array. */
  function Size(m: MessageInput): nat
  {
    match m
    case Absent => 0
    case Null => 0
    case Str(s) => |s|
    case Scalar(f) => |f|
    case List(n) => n
  }

  /**
   * The rules `required|string|min:1|max:5000` in order. A failed `required`
   * ends the checks on the field; the other three are all checked.
   */
  function MessageErrors(m: MessageInput): (r: seq<ValidationError>)
    ensures forall i :: 0 <= i < |r| ==> FieldOf(r[i]) == MessageField
    ensures MessageRequired in r <==> !Required(m)
    ensures !Required(m) ==> r == [MessageRequired]
  {
    if !Required(m) then [MessageRequired]
    else
      (if m.Str? then [] else [MessageString])
      + (if Size(m) < 1 then [MessageMin] else [])
      + (if Size(m) > 5000 then [MessageMax] else [])
  }

  /** The key holds a non-null value: only then does `exists` look at the table. */
  predicate Checked(k: KeyInput)
  {
    k.Given? && !PhpBlank(k.form)
  }

  /**
   * `nullable|exists:<table>,id`: a missing, null or blank key passes; a
   * value must be the id of a row, the database's comparison of the text with
   * the integer key taken to be exact decimal parsing.
   */
  predicate ExistsIn(k: KeyInput, ids: set<nat>)
  {
    !Checked(k) || (ParseDecimal(k.form).Some? && ParseDecimal(k.form).value in ids)
  }

  /** `$this->has(key)`: the key is in the input, whatever its value. */
  predicate Has(k: KeyInput)
  {
    !k.Missing?
  }

  /** The after-hook: neither key, or both keys, is an error on `conversation_id`. */
  function AfterErrors(input: Input): seq<ValidationError>
  {
    (if !Has(input.conversationId) && !Has(input.userId) then [NeitherGiven] else [])
    + (if Has(input.conversationId) && Has(input.userId) then [BothGiven] else [])
  }

  /** Every error the request reports, in the order they are added. */
  function Validate(input: Input, conversationIds: set<nat>, userIds: set<nat>): (r: seq<ValidationError>)
    ensures |r| <= 6
  {
    MessageErrors(input.message)
    + (if ExistsIn(input.conversationId, conversationIds) then [] else [ConversationNotFound])
    + (if ExistsIn(input.userId, userIds) then [] else [UserNotFound])
    + AfterErrors(input)
  }

  /** An acceptable message: a string that is not blank and has at most 5000 characters. */
  predicate AcceptableMessage(m: MessageInput)
  {
    m.Str? && !PhpBlank(m.s) && |m.s| <= 5000
  }

  /** A non-blank string has at least one character. */
  lemma NonBlankIsNonEmpty(s: string)
    requires !PhpBlank(s)
    ensures |s| >= 1
  {
  }

  /**
   * The request passes exactly when the message is acceptable, exactly one of
   * the two keys is present, and a present non-null id names an existing row.
   */
  lemma ValidatePassesIff(input: Input, conversationIds: set<nat>, userIds: set<nat>)
    ensures Validate(input, conversationIds, userIds) == [] <==>
      (AcceptableMessage(input.message) && Has(input.conversationId) != Has(input.userId)
       && ExistsIn(input.conversationId, conversationIds) && ExistsIn(input.userId, userIds))
  {
    var m := input.message;
    if m.Str? && !PhpBlank(m.s) {
      NonBlankIsNonEmpty(m.s);
    }
  }

  /** Presence is key presence: two keys, even both null, are refused. */
  lemma BothKeysRefused(input: Input, conversationIds: set<nat>, userIds: set<nat>)
    requires Has(input.conversationId) && Has(input.userId)
    ensures BothGiven in Validate(input, conversationIds, userIds)
    ensures NeitherGiven !in Validate(input, conversationIds, userIds)
  {
    var m := MessageErrors(input.message);
    var keys := (if ExistsIn(input.conversationId, conversationIds) then [] else [ConversationNotFound])
      + (if ExistsIn(input.userId, userIds) then [] else [UserNotFound]);
    assert AfterErrors(input) == [BothGiven];
    assert Validate(input, conversationIds, userIds) == m + keys + [BothGiven];
    assert FieldOf(NeitherGiven) != MessageField;
  }

  /** Without either key the request is refused with the "either" text. */
  lemma NeitherKeyRefused(input: Input, conversationIds: set<nat>, userIds: set<nat>)
    requires !Has(input.conversationId) && !Has(input.userId)
    ensures Validate(input, conversationIds, userIds)
      == MessageErrors(input.message) + [NeitherGiven]
  {
  }

  /**
   * A string message gets at most one error, and never the `min` one: a
   * string that passes `required` is at least one character long.
   */
  lemma StringMessageAtMostOneError(s: string)
    ensures |MessageErrors(Str(s))| <= 1
    ensures MessageMin !in MessageErrors(Str(s))
    ensures MessageErrors(Str(s)) == [] <==> AcceptableMessage(Str(s))
  {
    if !PhpBlank(s) {
      NonBlankIsNonEmpty(s);
    }
  }

  /** The `min` text is reachable only through a value that is not a string, such as false. */
  lemma FalseMessageFailsMin()
    ensures MessageErrors(Scalar("")) == [MessageString, MessageMin]
  {
  }
}
