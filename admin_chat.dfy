/**
 * src/pages/Admin.tsx: the safety-assistant chat of the admin page and the
 * guards of its assignment buttons. A reply of `POST /api/chat/reply` is
 * appended to the history; a 429 turns into the error text
 * `RATE_LIMIT:<seconds>`, which starts one countdown per submitted message,
 * after which the message is sent once more. The intervals and timeouts are
 * modelled as the events `OnSecond` and `FireResend`, a reply as `OnResponse`.
 */
module AdminChat {
  import opened Wrappers
  import opened Text
  import opened Numbers

  /** One question and its answer; the timestamp is left out. */
  datatype Exchange = Exchange(question: string, answer: string)

  /** A waiting time in seconds, as the server reports it. */
  type Wait = x: real | 0.0 <= x

  /**
   * What `fetch` returns: a 2xx reply with its optional `reply` field, or a
   * refusal with its status and the `detail.retry_after` and `retry_after`
   * fields of the body (both absent when the body is not JSON).
   */
  datatype Response = Answered(reply: Option<string>) | Refused(status: nat, detailRetryAfter: Option<Wait>, retryAfter: Option<Wait>)

  // ---------------------------------------------------------------------------
  // The 429 error text

  const RatePrefix: string := "RATE_LIMIT:"

  /** `Math.ceil` on a non-negative number. */
  function Ceil(x: Wait): (n: nat)
    ensures n as real - 1.0 < x <= n as real
  {
    -((-(x as real)).Floor)
  }

  /** `errorData.detail?.retry_after || errorData.retry_after || 30`: a missing or zero field falls through. */
  function RetryAfter(detail: Option<Wait>, top: Option<Wait>): Wait {
    if detail.Some? && detail.value != 0.0 then detail.value
    else if top.Some? && top.value != 0.0 then top.value
    else 30.0
  }

  /** The message of the error the request throws when the response is not ok. */
  function ErrorText(status: nat, detail: Option<Wait>, top: Option<Wait>): string {
    if status == 429 then RatePrefix + NatToString(Ceil(RetryAfter(detail, top)))
    else "HTTP " + NatToString(status)
  }

  /** The text up to the first colon: `split(':')[1]` of the text after the prefix. */
  function Segment(s: string): (r: string)
    ensures |r| <= |s| && r == s[..|r|]
  {
    if s == [] || s[0] == ':' then [] else [s[0]] + Segment(s[1..])
  }

  /** The leading decimal digits of a text. */
  function LeadingDigits(s: string): (r: string)
    ensures AllDigits(r) && |r| <= |s| && r == s[..|r|]
  {
    if s == [] || !IsDigit(s[0]) then [] else [s[0]] + LeadingDigits(s[1..])
  }

  /**
   * `parseInt(error.message.split(':')[1]) || 30` when the message starts
   * with the prefix: no digits or a zero give 30. `None` for any other error.
   */
  function CountdownOf(msg: string): (r: Option<nat>)
    ensures r.Some? <==> StartsWith(msg, RatePrefix)
    ensures r.Some? ==> r.value >= 1
  {
    if !StartsWith(msg, RatePrefix) then None
    else
      var digits := LeadingDigits(Segment(msg[|RatePrefix|..]));
      var v := if digits == [] then 0 else DigitsValue(digits);
      Some(if v == 0 then 30 else v)
  }

  /** `data.reply || 'No response received'`. */
  function AnswerText(reply: Option<string>): (a: string)
    ensures a != ""
    ensures reply.Some? && reply.value != "" ==> a == reply.value
  {
    if reply.Some? && reply.value != "" then reply.value else "No response received"
  }

  // ---------------------------------------------------------------------------
  // Guards and the countdown step

  /** The guard of `handleChatSubmit`: the trimmed input, unless it is empty, a countdown runs or a reply is awaited. */
  function SubmitMessage(input: string, countdown: int, typing: bool): (m: Option<string>)
    ensures m.None? <==> JsTrim(input) == "" || countdown > 0 || typing
    ensures m.Some? ==> m.value == JsTrim(input) && m.value != ""
  {
    if JsTrim(input) == "" || countdown > 0 || typing then None else Some(JsTrim(input))
  }

  /** The guard of `handleRetry`: the last message, unless there is none or a countdown runs. */
  function RetryMessage(lastMessage: string, countdown: int): (m: Option<string>)
    ensures m.None? <==> lastMessage == "" || countdown > 0
    ensures m.Some? ==> m.value == lastMessage
  {
    if lastMessage == "" || countdown > 0 then None else Some(lastMessage)
  }

  /** One tick of the countdown interval: the next value, and whether the resend is scheduled. */
  function CountStep(c: int): (r: (int, bool))
    ensures r.1 <==> c <= 1
    ensures r.1 ==> r.0 == 0
    ensures !r.1 ==> r.0 == c - 1
  {
    if c <= 1 then (0, true) else (c - 1, false)
  }

  /** `k` ticks of a countdown that has not finished yet. */
  function CountSteps(c: int, k: nat): int {
    if k == 0 then c else CountStep(CountSteps(c, k - 1)).0
  }

  /** `chatHistory.slice(-10).reverse()`: the displayed history. */
  function Recent(h: seq<Exchange>): (r: seq<Exchange>)
    ensures |r| == if |h| < 10 then |h| else 10
    ensures forall i :: 0 <= i < |r| ==> r[i] == h[|h| - 1 - i]
    ensures forall e :: e in r ==> e in h
  {
    var k := if |h| < 10 then |h| else 10;
    seq(k, i requires 0 <= i < k => h[|h| - 1 - i])
  }

  /** `handleCreateAssignment`: a request only with both a user and a course selected. */
  function CreateAssignmentRequest(user: string, course: string): (r: Option<(string, string)>)
    ensures r.Some? <==> user != "" && course != ""
    ensures r.Some? ==> r.value == (user, course)
  {
    if user != "" && course != "" then Some((user, course)) else None
  }

  /** `handleSyncUser`: a request only with a user selected. */
  function SyncUserRequest(user: string): (r: Option<string>)
    ensures r.Some? <==> user != ""
    ensures r.Some? ==> r.value == user
  {
    if user != "" then Some(user) else None
  }

  // ---------------------------------------------------------------------------
  // The chat

  class ChatBox {
    var input: string
    var history: seq<Exchange>
    var typing: bool
    var countdown: int
    var lastMessage: string
    var autoRetryUsed: bool
    /** Requests sent and not yet answered. */
    var inFlight: nat
    /** Whether the countdown interval is running. */
    var counting: bool
    /** The message the running countdown will resend: `lastMessage` as the failing render saw it. */
    var captured: string
    /** Messages whose 500 ms resend timeout is pending, oldest first. */
    var resends: seq<string>

    /** A countdown runs with a positive value and only after the automatic retry was spent. */
    ghost predicate Valid()
      reads this
    {
      (counting ==> countdown >= 1 && autoRetryUsed) && (!counting ==> countdown == 0)
    }

    constructor ()
      ensures Valid()
      ensures input == "" && history == [] && !typing && countdown == 0 && lastMessage == ""
      ensures !autoRetryUsed && inFlight == 0 && !counting && resends == []
    {
      input, history, typing, countdown := "", [], false, 0;
      lastMessage, autoRetryUsed, inFlight := "", false, 0;
      counting, captured, resends := false, "", [];
    }

    /** The input field's `onChange`. */
    method TypeInput(text: string)
      requires Valid()
      modifies this
      ensures Valid()
      ensures input == text
      ensures history == old(history) && typing == old(typing) && countdown == old(countdown)
      ensures lastMessage == old(lastMessage) && autoRetryUsed == old(autoRetryUsed) && inFlight == old(inFlight)
      ensures counting == old(counting) && captured == old(captured) && resends == old(resends)
    {
      input := text;
    }

    /**
     * `handleChatSubmit`: unless the guard stops it, the trimmed input
     * becomes the last message, the automatic retry is available again,
     * the input is cleared and the message is sent.
     */
    method Submit() returns (sent: Option<string>)
      requires Valid()
      modifies this
      ensures Valid()
      ensures sent == SubmitMessage(old(input), old(countdown), old(typing))
      ensures sent.None? ==>
        (input == old(input) && lastMessage == old(lastMessage) && autoRetryUsed == old(autoRetryUsed)
         && typing == old(typing) && inFlight == old(inFlight))
      ensures sent.Some? ==>
        (lastMessage == sent.value && !autoRetryUsed && input == "" && typing && inFlight == old(inFlight) + 1)
      ensures history == old(history) && countdown == old(countdown)
      ensures counting == old(counting) && captured == old(captured) && resends == old(resends)
    {
      sent := SubmitMessage(input, countdown, typing);
      if sent.Some? {
        lastMessage := sent.value;
        autoRetryUsed := false;
        input := "";
        typing, inFlight := true, inFlight + 1;
      }
    }

    /**
     * `handleRetry`: resends the last message and makes the automatic retry
     * available again. No control on the page calls `handleRetry`, so the
     * page as written never fires this event; it is modelled as defined.
     */
    method Retry() returns (sent: Option<string>)
      requires Valid()
      modifies this
      ensures Valid()
      ensures sent == RetryMessage(old(lastMessage), old(countdown))
      ensures sent.None? ==> autoRetryUsed == old(autoRetryUsed) && typing == old(typing) && inFlight == old(inFlight)
      ensures sent.Some? ==> !autoRetryUsed && typing && inFlight == old(inFlight) + 1
      ensures input == old(input) && lastMessage == old(lastMessage) && history == old(history)
      ensures countdown == old(countdown) && counting == old(counting) && captured == old(captured)
      ensures resends == old(resends)
    {
      sent := RetryMessage(lastMessage, countdown);
      if sent.Some? {
        autoRetryUsed := false;
        typing, inFlight := true, inFlight + 1;
      }
    }

    /**
     * A request settles. A reply appends one exchange under the last message;
     * a rate-limit error starts the countdown when the automatic retry has not
     * been used since the last submit; any other error changes nothing else.
     */
    method OnResponse(resp: Response)
      requires Valid() && inFlight > 0
      modifies this
      ensures Valid()
      ensures !typing && inFlight == old(inFlight) - 1
      ensures resp.Answered? ==> history == old(history) + [Exchange(old(lastMessage), AnswerText(resp.reply))]
      ensures resp.Refused? ==> history == old(history)
      ensures var start := if resp.Refused? && !old(autoRetryUsed)
                           then CountdownOf(ErrorText(resp.status, resp.detailRetryAfter, resp.retryAfter))
                           else None;
        && (start.Some? ==> autoRetryUsed && counting && countdown == start.value && captured == old(lastMessage))
        && (start.None? ==> autoRetryUsed == old(autoRetryUsed) && counting == old(counting)
                            && countdown == old(countdown) && captured == old(captured))
      ensures input == old(input) && lastMessage == old(lastMessage) && resends == old(resends)
    {
      typing, inFlight := false, inFlight - 1;
      match resp
      case Answered(reply) =>
        history := history + [Exchange(lastMessage, AnswerText(reply))];
      case Refused(status, detail, top) =>
        var wait := CountdownOf(ErrorText(status, detail, top));
        if wait.Some? && !autoRetryUsed {
          autoRetryUsed := true;
          countdown, counting, captured := wait.value, true, lastMessage;
        }
    }

    /** The countdown interval fires: one second less, or zero and the resend scheduled. */
    method OnSecond()
      requires Valid()
      modifies this
      ensures Valid()
      ensures old(counting) ==> (countdown, !counting) == CountStep(old(countdown))
      ensures old(counting) && !counting ==> resends == old(resends) + [old(captured)]
      ensures !(old(counting) && !counting) ==> resends == old(resends)
      ensures !old(counting) ==> countdown == old(countdown) && !counting
      ensures input == old(input) && history == old(history) && typing == old(typing)
      ensures lastMessage == old(lastMessage) && autoRetryUsed == old(autoRetryUsed) && inFlight == old(inFlight)
      ensures captured == old(captured)
    {
      if counting {
        var step := CountStep(countdown);
        countdown := step.0;
        if step.1 {
          counting := false;
          resends := resends + [captured];
        }
      }
    }

    /** The oldest pending resend timeout fires and sends its message. */
    method FireResend() returns (sent: string)
      requires Valid() && resends != []
      modifies this
      ensures Valid()
      ensures sent == old(resends)[0] && resends == old(resends)[1..]
      ensures typing && inFlight == old(inFlight) + 1
      ensures input == old(input) && history == old(history) && countdown == old(countdown)
      ensures lastMessage == old(lastMessage) && autoRetryUsed == old(autoRetryUsed)
      ensures counting == old(counting) && captured == old(captured)
    {
      sent := resends[0];
      resends := resends[1..];
      typing, inFlight := true, inFlight + 1;
    }

    /** The clear button. */
    method ClearHistory()
      requires Valid()
      modifies this
      ensures Valid()
      ensures history == []
      ensures input == old(input) && typing == old(typing) && countdown == old(countdown)
      ensures lastMessage == old(lastMessage) && autoRetryUsed == old(autoRetryUsed) && inFlight == old(inFlight)
      ensures counting == old(counting) && captured == old(captured) && resends == old(resends)
    {
      history := [];
    }
  }

  // ---------------------------------------------------------------------------
  // Properties

  lemma {:induction false} SegmentOfDigits(s: string)
    requires AllDigits(s)
    ensures Segment(s) == s && LeadingDigits(s) == s
    decreases |s|
  {
    if s != [] {
      SegmentOfDigits(s[1..]);
    }
  }

  /** Decoding the text of a rate limit of `n` seconds gives `n`, and 30 for zero. */
  lemma RateLimitRoundTrip(n: nat)
    ensures CountdownOf(RatePrefix + NatToString(n)) == Some(if n == 0 then 30 else n)
  {
    var msg := RatePrefix + NatToString(n);
    assert StartsWith(msg, RatePrefix);
    assert msg[|RatePrefix|..] == NatToString(n);
    SegmentOfDigits(NatToString(n));
    DigitsValueOfNatToString(n);
  }

  /**
   * A 429 always starts a countdown of `ceil(retry_after)` seconds, or of 30
   * when no usable value came; every other status starts none.
   */
  lemma RefusalCountdown(status: nat, detail: Option<Wait>, top: Option<Wait>)
    ensures status == 429 ==>
      var c := Ceil(RetryAfter(detail, top));
      CountdownOf(ErrorText(status, detail, top)) == Some(if c == 0 then 30 else c)
    ensures status != 429 ==> CountdownOf(ErrorText(status, detail, top)).None?
    ensures RetryAfter(detail, top) > 0.0
  {
    if status == 429 {
      RateLimitRoundTrip(Ceil(RetryAfter(detail, top)));
    } else {
      assert ErrorText(status, detail, top)[0] == 'H';
    }
  }

  /** A countdown from `n` shows n, n-1, …, 1, and resends on the n-th tick. */
  lemma {:induction false} CountdownRuns(n: int, k: nat)
    requires k < n
    ensures CountSteps(n, k) == n - k
    ensures CountStep(CountSteps(n, k)).1 <==> k == n - 1
  {
    if k > 0 {
      CountdownRuns(n, k - 1);
    }
  }

  /** After a reply, the new exchange is shown first and the others move down by one, dropping the eleventh. */
  lemma RecentAfterAppend(h: seq<Exchange>, e: Exchange)
    ensures Recent(h + [e])[0] == e
    ensures forall i :: 1 <= i < |Recent(h + [e])| ==> Recent(h + [e])[i] == Recent(h)[i - 1]
  {
  }
}
