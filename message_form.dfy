/**
 * The message form on the client: the text being typed, the typing
 * notifications it sends (at most one per 2.5 seconds, with the throttle
 * cleared after a second without keystrokes) and the submit cycle. The
 * clock is a parameter, the one-second timer is a deadline that `Tick`
 * fires, and the HTTP requests are recorded or returned instead of sent.
 */
module MessageFormView {

  import opened Wrappers
  import opened Text
  import opened ChatController

  /** Milliseconds that must pass since the recorded notification before another is sent. */
  const TypingThrottle: int := 2500

  /** Milliseconds without keystrokes after which the recorded notification time is cleared. */
  const TypingResetDelay: int := 1000

  /** What came back from posting the message. */
  datatype SubmitReply =
    | Accepted(message: Option<MessageJson>)   // a 2xx JSON reply; its `message` member, if any
    | Refused(text: Option<string>)            // another status, with the reply's `message` text if any
    | Failed                                   // no reply, or a body that is not JSON

  /** The alert shown for a failed submit, if any. */
  function AlertText(reply: SubmitReply): (t: Option<string>)
    ensures reply.Accepted? <==> t.None?
    ensures reply.Refused? && reply.text.Some? && reply.text.value != "" ==> t == reply.text
    ensures reply.Refused? && (reply.text.None? || reply.text.value == "") ==> t == Some("Failed to send message")
    ensures reply.Failed? ==> t == Some("Network error")
  {
    match reply
    case Accepted(_) => None
    case Refused(m) => if m.Some? && m.value != "" then m else Some("Failed to send message")
    case Failed => Some("Network error")
  }

  class MessageForm {
    const conversationId: nat
    var body: string
    var loading: bool
    /** The time recorded for the last typing notification; 0 once cleared. */
    var lastTyping: int
    /** A second time reference, reset after a successful submit; nothing reads it. */
    var lastTypingSent: int
    /** When the pending clear of `lastTyping` fires, if one is pending. */
    var resetAt: Option<int>
    /** The times at which typing notifications were posted, oldest first. */
    var typingRequests: seq<int>

    /**
     * The recorded time is either cleared or the time of the latest
     * notification, and the unread reference only ever holds 0.
     */
    predicate Valid()
      reads this
    {
      (lastTyping == 0 || (typingRequests != [] && lastTyping == typingRequests[|typingRequests| - 1]))
      && lastTypingSent == 0
    }

    constructor (conversationId: nat)
      ensures Valid()
      ensures this.conversationId == conversationId
      ensures body == "" && !loading && lastTyping == 0 && resetAt.None? && typingRequests == []
    {
      this.conversationId := conversationId;
      body := "";
      loading := false;
      lastTyping := 0;
      lastTypingSent := 0;
      resetAt := None;
      typingRequests := [];
    }

    /**
     * `handleChange`: the body becomes the new value. Blank input stops
     * there. Otherwise a notification is posted when more than 2.5 seconds
     * passed since the recorded one, and the pending clear is replaced by one
     * due a second from now.
     */
    method HandleChange(value: string, now: int)
      requires Valid()
      modifies this
      ensures Valid()
      ensures body == value && loading == old(loading)
      ensures JsBlank(value) ==>
        lastTyping == old(lastTyping) && resetAt == old(resetAt) && typingRequests == old(typingRequests)
      ensures !JsBlank(value) && now - old(lastTyping) > TypingThrottle ==>
        typingRequests == old(typingRequests) + [now] && lastTyping == now
      ensures !JsBlank(value) && now - old(lastTyping) <= TypingThrottle ==>
        typingRequests == old(typingRequests) && lastTyping == old(lastTyping)
      ensures !JsBlank(value) ==> resetAt == Some(now + TypingResetDelay)
    {
      body := value;
      if JsBlank(value) {
        return;
      }
      if now - lastTyping > TypingThrottle {
        typingRequests := typingRequests + [now];
        lastTyping := now;
      }
      resetAt := Some(now + TypingResetDelay);
    }

    /** The clock reaches `now`: a due clear sets the recorded time back to 0. */
    method Tick(now: int)
      requires Valid()
      modifies this
      ensures Valid()
      ensures body == old(body) && loading == old(loading) && typingRequests == old(typingRequests)
      ensures old(resetAt).Some? && now >= old(resetAt).value ==> lastTyping == 0 && resetAt.None?
      ensures old(resetAt).None? || now < old(resetAt).value ==> lastTyping == old(lastTyping) && resetAt == old(resetAt)
    {
      if resetAt.Some? && now >= resetAt.value {
        lastTyping := 0;
        resetAt := None;
      }
    }

    /** `handleSubmit` up to the request: a blank body sends nothing; otherwise loading starts and the body is posted. */
    method StartSubmit() returns (request: Option<string>)
      requires Valid()
      modifies this
      ensures Valid()
      ensures JsBlank(old(body)) ==> request.None? && loading == old(loading)
      ensures !JsBlank(old(body)) ==> request == Some(old(body)) && loading
      ensures body == old(body) && lastTyping == old(lastTyping) && resetAt == old(resetAt)
      ensures typingRequests == old(typingRequests)
    {
      if JsBlank(body) {
        return None;
      }
      loading := true;
      request := Some(body);
    }

    /**
     * The rest of `handleSubmit`, as written: on success the body is cleared,
     * the unread reference is reset, and the reply's message is handed on as
     * `message:sent`; otherwise an alert; loading ends either way.
     */
    method FinishSubmitAsWritten(reply: SubmitReply) returns (dispatched: Option<MessageJson>, alert: Option<string>)
      requires Valid()
      modifies this
      ensures Valid()
      ensures !loading && alert == AlertText(reply)
      ensures reply.Accepted? ==> body == "" && dispatched == reply.message
      ensures !reply.Accepted? ==> body == old(body) && dispatched.None?
      ensures lastTyping == old(lastTyping) && resetAt == old(resetAt) && typingRequests == old(typingRequests)
    {
      dispatched := None;
      alert := AlertText(reply);
      if reply.Accepted? {
        body := "";
        lastTypingSent := 0;
        dispatched := reply.message;
      }
      loading := false;
    }

    /**
     * The rest of `handleSubmit` with the reset applied to the throttle's own
     * reference, so that the first keystroke of the next message notifies at once.
     */
    method FinishSubmit(reply: SubmitReply) returns (dispatched: Option<MessageJson>, alert: Option<string>)
      requires Valid()
      modifies this
      ensures Valid()
      ensures !loading && alert == AlertText(reply)
      ensures reply.Accepted? ==> body == "" && dispatched == reply.message && lastTyping == 0
      ensures !reply.Accepted? ==> body == old(body) && dispatched.None? && lastTyping == old(lastTyping)
      ensures resetAt == old(resetAt) && typingRequests == old(typingRequests)
    {
      dispatched := None;
      alert := AlertText(reply);
      if reply.Accepted? {
        body := "";
        lastTyping := 0;
        dispatched := reply.message;
      }
      loading := false;
    }
  }

  /**
   * Two notifications in a row are more than 2.5 seconds apart unless the
   * throttle was cleared in between: a keystroke that posts one finds the
   * recorded time either cleared or that of the previous notification.
   */
  method ThrottledChange(form: MessageForm, value: string, now: int) returns (posted: bool)
    requires form.Valid() && form.lastTyping != 0
    modifies form
    ensures form.Valid()
    ensures posted <==> |form.typingRequests| == |old(form.typingRequests)| + 1
    ensures posted ==> now - old(form.typingRequests)[|old(form.typingRequests)| - 1] > TypingThrottle
  {
    var before := |form.typingRequests|;
    form.HandleChange(value, now);
    posted := |form.typingRequests| == before + 1;
  }

  /**
   * As written: type at t = 10000 (a notification), send successfully at
   * 10500, start the next message at 10600. The clear is still pending, so
   * the first keystroke of the new message posts no notification.
   */
  method SubmitThenTypeAsWritten() returns (requests: seq<int>)
    ensures requests == [10000]
  {
    assert !IsJsWhiteSpace("hi"[0]) && !IsJsWhiteSpace("n"[0]);
    var form := new MessageForm(1);
    form.HandleChange("hi", 10000);
    var request := form.StartSubmit();
    form.Tick(10500);
    var dispatched, alert := form.FinishSubmitAsWritten(Accepted(None));
    form.Tick(10600);
    form.HandleChange("n", 10600);
    requests := form.typingRequests;
  }

  /** The same steps with the corrected reset: the new message's first keystroke notifies. */
  method SubmitThenType() returns (requests: seq<int>)
    ensures requests == [10000, 10600]
  {
    assert !IsJsWhiteSpace("hi"[0]) && !IsJsWhiteSpace("n"[0]);
    var form := new MessageForm(1);
    form.HandleChange("hi", 10000);
    var request := form.StartSubmit();
    form.Tick(10500);
    var dispatched, alert := form.FinishSubmit(Accepted(None));
    form.Tick(10600);
    form.HandleChange("n", 10600);
    requests := form.typingRequests;
  }

  /** Whitespace-only input is never posted, and never re-arms the clear. */
  method BlankSubmitDoesNothing() returns (request: Option<string>, requests: seq<int>)
    ensures request.None? && requests == []
  {
    var form := new MessageForm(1);
    form.HandleChange(" \n", 5000);
    request := form.StartSubmit();
    requests := form.typingRequests;
  }
}
