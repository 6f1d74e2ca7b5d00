/** The retrying Telegram wrappers of `telegram_bot/utils.py`:
    `safe_edit_message` with its per-message flood-control suppression, and
    `safe_send_message`.

    Each call to Telegram is an oracle `answer(i)` giving the reply to the
    i-th attempt; sleeping is recorded, not performed; the monotonic clock is
    the single reading `now`. */
module Messaging {
  import opened Wrappers
  import opened Strings

  /** A (chat id, message id) pair. */
  type Key = (int, int)

  /** A keyword argument: not passed, passed as `None`, or passed an int. */
  datatype KwArg = Absent | PassedNone | Passed(v: int)

  /** What is edited: a `Message` object, or a `Bot` told the chat and message ids. */
  datatype EditTarget = OnMessage(chat: int, message: int) | OnBot(chatKw: KwArg, messageKw: KwArg)

  /** The reply to one call. */
  datatype Answer =
    | Done
    | BadRequest(message: string)
    | RetryAfter(wait: Option<real>)
    | TimedOut
    | NetworkError

  /** What a wrapper can raise. */
  datatype Failure =
    | BadRequestError(message: string)
    | RetryAfterError
    | TimedOutError
    | NetworkFailure
    | ValueError(message: string)
    | AssertionFailed

  /** The suppression key of an edit, when both ids are known. */
  function SuppressionKey(t: EditTarget): (k: Option<Key>)
    ensures t.OnMessage? ==> k == Some((t.chat, t.message))
    ensures t.OnBot? ==> (k.Some? <==> t.chatKw.Passed? && t.messageKw.Passed?)
  {
    match t
    case OnMessage(c, m) => Some((c, m))
    case OnBot(Passed(c), Passed(m)) => Some((c, m))
    case OnBot(_, _) => None
  }

  /** `BadRequest` texts meaning the edit changed nothing. */
  predicate Harmless(message: string) {
    Contains(LowerStr(message), "message is not modified")
  }

  /** `BadRequest` texts meaning the message can no longer be edited. */
  predicate Recoverable(message: string) {
    var m := LowerStr(message);
    Contains(m, "message to edit not found") || Contains(m, "message can't be edited")
    || Contains(m, "message is too old") || Contains(m, "message not found")
  }

  /** The exception a retried answer leaves as the last one. */
  function Transient(a: Answer): (f: Failure)
    requires a.TimedOut? || a.NetworkError?
  {
    if a.TimedOut? then TimedOutError else NetworkFailure
  }

  /** Number of loop rounds left before `attempt` reaches `max`. */
  function Left(max: int, attempt: nat): nat {
    if max > attempt then max - attempt else 0
  }

  // ---------------------------------------------------------------------------
  // safe_edit_message

  datatype EditParams = EditParams(target: EditTarget, text: string, maxAttempts: int, baseDelay: real, maxRetryAfter: real, now: real)

  datatype EditOutcome =
    | Skipped                                   // still inside a suppression window
    | Edited
    | NotModified                               // the harmless BadRequest
    | FellBack(chat: Option<int>, text: string) // sent as a new message instead
    | Suppressed                                // a long RetryAfter: window set, nothing raised
    | Raised(error: Failure)
    | GaveUp                                    // no attempt made

  /** The outcome, how many calls were made, the sleeps in order and the new
      suppression table. */
  datatype EditRun = EditRun(outcome: EditOutcome, attempts: nat, sleeps: seq<real>, suppression: map<Key, real>)

  /** Fallback to sending when the message cannot be edited any more. */
  function FallBack(p: EditParams, message: string): (o: EditOutcome)
    ensures p.target.OnMessage? ==> o == FellBack(Some(p.target.chat), p.text)
  {
    match p.target
    case OnMessage(c, _) => FellBack(Some(c), p.text)
    case OnBot(chatKw, _) =>
      if chatKw.Absent? then Raised(BadRequestError(message))
      else FellBack(if chatKw.Passed? then Some(chatKw.v) else None, p.text)
  }

  /** The retry loop of `safe_edit_message` from attempt `attempt` on. */
  function EditLoop(p: EditParams, answer: nat -> Answer, supp: map<Key, real>,
                    attempt: nat, delay: real, last: Option<Failure>, sleeps: seq<real>): (r: EditRun)
    ensures attempt <= r.attempts <= attempt + Left(p.maxAttempts, attempt)
    ensures |sleeps| <= |r.sleeps|
    ensures r.outcome.Edited? ==> SuppressionKey(p.target).None? || SuppressionKey(p.target).value !in r.suppression
    ensures SuppressionKey(p.target).None? ==> r.suppression == supp
    ensures SuppressionKey(p.target).Some? ==> r.suppression - {SuppressionKey(p.target).value} == supp - {SuppressionKey(p.target).value}
    decreases Left(p.maxAttempts, attempt)
  {
    var key := SuppressionKey(p.target);
    if attempt >= p.maxAttempts then
      EditRun(if last.Some? then Raised(last.value) else GaveUp, attempt, sleeps, supp)
    else match answer(attempt)
      case Done =>
        EditRun(Edited, attempt + 1, sleeps, if key.Some? then supp - {key.value} else supp)
      case BadRequest(m) =>
        var o := if Harmless(m) then NotModified
                 else if Recoverable(m) then FallBack(p, m)
                 else Raised(BadRequestError(m));
        EditRun(o, attempt + 1, sleeps, supp)
      case RetryAfter(w) =>
        var wait := if w.Some? then w.value else delay;
        if wait > p.maxRetryAfter then
          EditRun(Suppressed, attempt + 1, sleeps, if key.Some? then supp[key.value := p.now + wait] else supp)
        else EditLoop(p, answer, supp, attempt + 1, delay, Some(RetryAfterError), sleeps + [wait + 0.1])
      case TimedOut =>
        EditLoop(p, answer, supp, attempt + 1, delay * 2.0, Some(TimedOutError), sleeps + [delay])
      case NetworkError =>
        EditLoop(p, answer, supp, attempt + 1, delay * 2.0, Some(NetworkFailure), sleeps + [delay])
  }

  /** `safe_edit_message`. */
  function SafeEditMessage(p: EditParams, answer: nat -> Answer, supp: map<Key, real>): (r: EditRun)
    ensures var key := SuppressionKey(p.target);
      key.Some? && key.value in supp && p.now < supp[key.value] ==> r == EditRun(Skipped, 0, [], supp)
    ensures r.attempts <= Left(p.maxAttempts, 0)
    ensures r.outcome.Edited? ==> SuppressionKey(p.target).None? || SuppressionKey(p.target).value !in r.suppression
    ensures SuppressionKey(p.target).None? ==> r.suppression == supp
  {
    var key := SuppressionKey(p.target);
    var until := if key.Some? && key.value in supp then supp[key.value] else 0.0;
    if key.Some? && p.now < until then EditRun(Skipped, 0, [], supp)
    else EditLoop(p, answer, supp, 0, p.baseDelay, None, [])
  }

  /** "Message is not modified" is swallowed, wherever it comes in the retries. */
  lemma {:induction false} HarmlessNeverRaises(p: EditParams, answer: nat -> Answer, supp: map<Key, real>,
                                               attempt: nat, delay: real, last: Option<Failure>, sleeps: seq<real>, k: nat)
    requires attempt <= k < p.maxAttempts
    requires forall i :: attempt <= i < k ==> answer(i).TimedOut? || answer(i).NetworkError?
    requires answer(k).BadRequest? && Harmless(answer(k).message)
    ensures EditLoop(p, answer, supp, attempt, delay, last, sleeps).outcome == NotModified
    ensures EditLoop(p, answer, supp, attempt, delay, last, sleeps).attempts == k + 1
    decreases k - attempt
  {
    if attempt < k {
      var next := if answer(attempt).TimedOut? then TimedOutError else NetworkFailure;
      HarmlessNeverRaises(p, answer, supp, attempt + 1, delay * 2.0, Some(next), sleeps + [delay], k);
    }
  }

  /** The `i`-th back-off: the base delay doubled `i` times. */
  function Delay(base: real, i: nat): (d: real)
    ensures base >= 0.0 ==> d >= base
  {
    if i == 0 then base else 2.0 * Delay(base, i - 1)
  }

  /** The sleeps of `n - i` doubling back-offs starting at `2 ** i` times the base delay. */
  function Backoff(base: real, i: nat, n: int): (r: seq<real>)
    ensures |r| == Left(n, i)
    ensures forall k :: 0 <= k < |r| ==> r[k] == Delay(base, i + k)
    decreases Left(n, i)
  {
    if i >= n then [] else [Delay(base, i)] + Backoff(base, i + 1, n)
  }

  /** Network failures on every attempt: exactly `maxAttempts` calls, sleeps
      doubling from the base delay, then the last failure is raised. */
  lemma {:induction false} TransientExhausts(p: EditParams, answer: nat -> Answer, supp: map<Key, real>,
                                             attempt: nat, last: Option<Failure>, sleeps: seq<real>)
    requires attempt < p.maxAttempts
    requires forall i :: attempt <= i < p.maxAttempts ==> answer(i).TimedOut? || answer(i).NetworkError?
    ensures var r := EditLoop(p, answer, supp, attempt, Delay(p.baseDelay, attempt), last, sleeps);
      && r.outcome == Raised(Transient(answer(p.maxAttempts - 1)))
      && r.attempts == p.maxAttempts
      && r.suppression == supp
      && r.sleeps == sleeps + Backoff(p.baseDelay, attempt, p.maxAttempts)
    decreases p.maxAttempts - attempt
  {
    var delay := Delay(p.baseDelay, attempt);
    var s1 := sleeps + [delay];
    var next := Transient(answer(attempt));
    TransientStep(p, answer, supp, attempt, last, sleeps);
    BackoffStep(p.baseDelay, attempt, p.maxAttempts, sleeps);
    if attempt + 1 < p.maxAttempts {
      TransientExhausts(p, answer, supp, attempt + 1, Some(next), s1);
    }
  }

  /** One transient failure: sleep the current back-off, double it, retry. */
  lemma TransientStep(p: EditParams, answer: nat -> Answer, supp: map<Key, real>,
                      attempt: nat, last: Option<Failure>, sleeps: seq<real>)
    requires attempt < p.maxAttempts
    requires answer(attempt).TimedOut? || answer(attempt).NetworkError?
    ensures var delay := Delay(p.baseDelay, attempt);
      EditLoop(p, answer, supp, attempt, delay, last, sleeps)
      == EditLoop(p, answer, supp, attempt + 1, Delay(p.baseDelay, attempt + 1), Some(Transient(answer(attempt))), sleeps + [delay])
  {
    var delay := Delay(p.baseDelay, attempt);
    assert Delay(p.baseDelay, attempt + 1) == delay * 2.0;
  }

  /** The back-off sleeps from `i` on are the `i`-th delay followed by those from `i + 1`. */
  lemma BackoffStep(base: real, i: nat, n: int, sleeps: seq<real>)
    requires i < n
    ensures sleeps + Backoff(base, i, n) == sleeps + [Delay(base, i)] + Backoff(base, i + 1, n)
  {
    assert Backoff(base, i, n) == [Delay(base, i)] + Backoff(base, i + 1, n);
  }

  /** A RetryAfter longer than allowed opens a suppression window for that
      message and returns quietly; an edit of the same message before the
      window ends makes no call at all. */
  lemma LongRetryAfterSuppresses(p: EditParams, answer: nat -> Answer, supp: map<Key, real>, w: real,
                                 q: EditParams, answer2: nat -> Answer)
    requires SuppressionKey(p.target).Some? && p.maxAttempts >= 1
    requires SuppressionKey(p.target).value !in supp && p.now >= 0.0
    requires answer(0) == RetryAfter(Some(w)) && w > p.maxRetryAfter && w > 0.0
    requires SuppressionKey(q.target) == SuppressionKey(p.target) && p.now <= q.now < p.now + w
    ensures var r := SafeEditMessage(p, answer, supp);
      && r.outcome == Suppressed && r.attempts == 1
      && r.suppression == supp[SuppressionKey(p.target).value := p.now + w]
      && SafeEditMessage(q, answer2, r.suppression) == EditRun(Skipped, 0, [], r.suppression)
  {
    var key := SuppressionKey(p.target).value;
    var supp' := supp[key := p.now + w];
    assert SafeEditMessage(p, answer, supp) == EditLoop(p, answer, supp, 0, p.baseDelay, None, []);
    assert EditLoop(p, answer, supp, 0, p.baseDelay, None, []) == EditRun(Suppressed, 1, [], supp');
  }

  /** A short RetryAfter followed by success: two calls, one sleep of the
      requested wait plus a tenth of a second. */
  lemma ShortRetryAfterThenEdited(p: EditParams, answer: nat -> Answer, w: real)
    requires p.maxAttempts >= 2 && SuppressionKey(p.target).None?
    requires answer(0) == RetryAfter(Some(w)) && w <= p.maxRetryAfter && answer(1) == Done
    ensures SafeEditMessage(p, answer, map[]) == EditRun(Edited, 2, [w + 0.1], map[])
  {
    assert SafeEditMessage(p, answer, map[]) == EditLoop(p, answer, map[], 0, p.baseDelay, None, []);
    assert EditLoop(p, answer, map[], 0, p.baseDelay, None, [])
        == EditLoop(p, answer, map[], 1, p.baseDelay, Some(RetryAfterError), [w + 0.1]);
  }

  /** A message that can no longer be edited is sent as a new message to the
      same chat, with the same text. */
  lemma UneditableFallsBack(p: EditParams, answer: nat -> Answer, supp: map<Key, real>, m: string)
    requires p.target.OnMessage? && p.maxAttempts >= 1
    requires (p.target.chat, p.target.message) !in supp && p.now >= 0.0
    requires answer(0) == BadRequest(m) && Recoverable(m) && !Harmless(m)
    ensures SafeEditMessage(p, answer, supp).outcome == FellBack(Some(p.target.chat), p.text)
  {
    assert SafeEditMessage(p, answer, supp) == EditLoop(p, answer, supp, 0, p.baseDelay, None, []);
  }

  // ---------------------------------------------------------------------------
  // safe_send_message

  datatype SendParams = SendParams(
    fromMessage: Option<int>,   // the chat of the Message passed instead of a Bot
    chat: Option<int>,
    text: Option<string>,
    maxAttempts: int,
    baseDelay: real)

  datatype SendOutcome = Sent(chat: int, text: string) | SendRaised(error: Failure)

  datatype SendRun = SendRun(outcome: SendOutcome, attempts: nat, sleeps: seq<real>)

  /** The chat a message goes to: the one given, else the Message's own. */
  function ResolvedChat(p: SendParams): (c: Option<int>)
    ensures p.chat.Some? ==> c == p.chat
    ensures p.chat.None? ==> c == p.fromMessage
  {
    if p.chat.Some? then p.chat else p.fromMessage
  }

  /** Every failure of a send is retried: python-telegram-bot's `BadRequest`
      and `TimedOut` both derive from `NetworkError`. */
  predicate Retryable(a: Answer) {
    !a.Done?
  }

  /** The state after a retried send: next delay, the failure kept as the
      last one, the sleeps so far. */
  function Retry(a: Answer, delay: real, sleeps: seq<real>): (n: (real, Failure, seq<real>))
    requires Retryable(a)
    ensures |n.2| == |sleeps| + 1 && n.2[..|sleeps|] == sleeps
    ensures a.RetryAfter? ==> n.0 == delay && n.1 == RetryAfterError
    ensures !a.RetryAfter? ==> n.0 == delay * 2.0 && n.2[|sleeps|] == delay
  {
    match a
    case RetryAfter(w) => (delay, RetryAfterError, sleeps + [(if w.Some? then w.value else delay) + 0.1])
    case BadRequest(m) => (delay * 2.0, BadRequestError(m), sleeps + [delay])
    case TimedOut => (delay * 2.0, TimedOutError, sleeps + [delay])
    case NetworkError => (delay * 2.0, NetworkFailure, sleeps + [delay])
  }

  /** The retry loop of `safe_send_message` from attempt `attempt` on. */
  function SendLoop(p: SendParams, chat: int, text: string, answer: nat -> Answer,
                    attempt: nat, delay: real, last: Option<Failure>, sleeps: seq<real>): (r: SendRun)
    ensures attempt <= r.attempts <= attempt + Left(p.maxAttempts, attempt)
    ensures r.outcome.Sent? ==> r.attempts >= 1 && r.outcome == Sent(chat, text) && answer(r.attempts - 1) == Done
    decreases Left(p.maxAttempts, attempt)
  {
    if attempt >= p.maxAttempts then
      SendRun(SendRaised(if last.Some? then last.value else AssertionFailed), attempt, sleeps)
    else if Retryable(answer(attempt)) then
      var n := Retry(answer(attempt), delay, sleeps);
      SendLoop(p, chat, text, answer, attempt + 1, n.0, Some(n.1), n.2)
    else SendRun(Sent(chat, text), attempt + 1, sleeps)
  }

  /** `safe_send_message`. */
  function SafeSendMessage(p: SendParams, answer: nat -> Answer): (r: SendRun)
    ensures p.text.None? ==> r == SendRun(SendRaised(ValueError("safe_send_message requires 'text'.")), 0, [])
    ensures p.text.Some? && ResolvedChat(p).None? ==> r == SendRun(SendRaised(ValueError("safe_send_message requires 'chat_id'.")), 0, [])
    ensures r.attempts <= Left(p.maxAttempts, 0)
    ensures r.outcome.Sent? ==> p.text.Some? && ResolvedChat(p).Some? && r.outcome == Sent(ResolvedChat(p).value, p.text.value)
  {
    if p.text.None? then SendRun(SendRaised(ValueError("safe_send_message requires 'text'.")), 0, [])
    else match ResolvedChat(p)
      case None => SendRun(SendRaised(ValueError("safe_send_message requires 'chat_id'.")), 0, [])
      case Some(c) => SendLoop(p, c, p.text.value, answer, 0, p.baseDelay, None, [])
  }

  /** Retryable failures are retried until the first success, as long as
      attempts remain. */
  lemma {:induction false} SendRetriesUntilDone(p: SendParams, chat: int, text: string, answer: nat -> Answer,
                                                attempt: nat, delay: real, last: Option<Failure>, sleeps: seq<real>, k: nat)
    requires attempt <= k < p.maxAttempts
    requires forall i :: attempt <= i < k ==> Retryable(answer(i))
    requires answer(k) == Done
    ensures var r := SendLoop(p, chat, text, answer, attempt, delay, last, sleeps);
      r.outcome == Sent(chat, text) && r.attempts == k + 1
    decreases k - attempt
  {
    if attempt < k {
      var n := Retry(answer(attempt), delay, sleeps);
      SendRetriesUntilDone(p, chat, text, answer, attempt + 1, n.0, Some(n.1), n.2, k);
    }
  }

  /** Retryable failures on every attempt: the send is tried exactly
      `maxAttempts` times and then fails with the last of them. */
  lemma {:induction false} SendGivesUp(p: SendParams, chat: int, text: string, answer: nat -> Answer,
                                       attempt: nat, delay: real, last: Option<Failure>, sleeps: seq<real>)
    requires attempt < p.maxAttempts
    requires forall i :: attempt <= i < p.maxAttempts ==> Retryable(answer(i))
    ensures var r := SendLoop(p, chat, text, answer, attempt, delay, last, sleeps);
      r.outcome.SendRaised? && r.outcome.error != AssertionFailed && r.attempts == p.maxAttempts
    decreases p.maxAttempts - attempt
  {
    var n := Retry(answer(attempt), delay, sleeps);
    if attempt + 1 < p.maxAttempts {
      SendGivesUp(p, chat, text, answer, attempt + 1, n.0, Some(n.1), n.2);
    }
  }
}
