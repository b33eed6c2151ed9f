/** The bounded exponential-backoff retry around a model call, shared by the
    summariser and the question answerer. The model is an oracle: the k-th
    call (counted from 0) has the outcome `respond(k)`. Sleeping is recorded
    as a log of delays instead of waiting. */
module Retry {
  import opened Text

  const MaxRetries: nat := 3
  const QuotaMarker: string := "429"
  const SummaryBaseDelay: nat := 5
  const AnswerBaseDelay: nat := 10
  const KeyMissingAnswer: string := "API Key missing."
  const QuotaAnswerPrefix: string :=
    "Exceeded maximum retries for API quota. Please try again in a minute or switch to a different model.\n\nRaw Error: "
  const ErrorAnswerPrefix: string := "Error answering question: "

  /** What one model call does: return text, or raise an error whose
      message is given. */
  datatype Outcome = Ok(text: string) | Err(message: string)

  /** How a run of attempts ends. */
  datatype Ending =
    | Answered(text: string)
    | QuotaExhausted(lastError: string)
    | Failed(error: string)

  /** A run: how it ended, how many calls it made and the delays it slept. */
  datatype Run = Run(ending: Ending, calls: nat, sleeps: seq<nat>)

  datatype Option<T> = None | Some(value: T)

  predicate IsQuotaError(o: Outcome) {
    o.Err? && Contains(o.message, QuotaMarker)
  }

  function Pow2(k: nat): (r: nat)
    ensures r >= 1
  {
    if k == 0 then 1 else 2 * Pow2(k - 1)
  }

  /** The run from attempt `attempt` on, counting only its own calls and
      sleeps. */
  function RetryFrom(respond: nat -> Outcome, baseDelay: nat, attempt: nat): Run
    requires attempt < MaxRetries
    decreases MaxRetries - attempt
  {
    match respond(attempt)
    case Ok(t) => Run(Answered(t), 1, [])
    case Err(e) =>
      if !Contains(e, QuotaMarker) then Run(Failed(e), 1, [])
      else if attempt < MaxRetries - 1 then
        var rest := RetryFrom(respond, baseDelay, attempt + 1);
        Run(rest.ending, rest.calls + 1, [baseDelay * Pow2(attempt)] + rest.sleeps)
      else Run(QuotaExhausted(e), 1, [])
  }

  function Retry(respond: nat -> Outcome, baseDelay: nat): Run {
    RetryFrom(respond, baseDelay, 0)
  }

  /** The ending a single outcome stands for when it is the last call. */
  function EndingOf(o: Outcome): Ending {
    match o
    case Ok(t) => Answered(t)
    case Err(e) => if Contains(e, QuotaMarker) then QuotaExhausted(e) else Failed(e)
  }

  /** A run so far followed by the rest of it. */
  function Then(calls: nat, sleeps: seq<nat>, rest: Run): Run {
    Run(rest.ending, calls + rest.calls, sleeps + rest.sleeps)
  }

  /** A quota error before the last attempt: one call and one sleep, then
      the rest of the run. */
  lemma RetryStep(respond: nat -> Outcome, baseDelay: nat, attempt: nat, calls: nat, sleeps: seq<nat>)
    requires attempt < MaxRetries - 1 && IsQuotaError(respond(attempt))
    ensures Then(calls, sleeps, RetryFrom(respond, baseDelay, attempt))
         == Then(calls + 1, sleeps + [baseDelay * Pow2(attempt)], RetryFrom(respond, baseDelay, attempt + 1))
  {
    var rest := RetryFrom(respond, baseDelay, attempt + 1);
    var d := baseDelay * Pow2(attempt);
    assert sleeps + ([d] + rest.sleeps) == sleeps + [d] + rest.sleeps;
  }

  /** Any other outcome ends the run with that call. */
  lemma RetryLast(respond: nat -> Outcome, baseDelay: nat, attempt: nat, calls: nat, sleeps: seq<nat>)
    requires attempt < MaxRetries
    requires !(attempt < MaxRetries - 1 && IsQuotaError(respond(attempt)))
    ensures Then(calls, sleeps, RetryFrom(respond, baseDelay, attempt))
         == Run(EndingOf(respond(attempt)), calls + 1, sleeps)
  {
    assert sleeps + [] == sleeps;
  }

  /** The retry loop: call; on success return the text; on a quota error
      ("429" in the message) sleep `baseDelay * 2^attempt` and try again,
      unless this was the last attempt; on any other error give up. */
  method RetryLoop(respond: nat -> Outcome, baseDelay: nat) returns (ending: Ending, calls: nat, sleeps: seq<nat>)
    ensures Run(ending, calls, sleeps) == Retry(respond, baseDelay)
  {
    calls, sleeps := 0, [];
    ending := Failed("");
    var attempt := 0;
    while attempt < MaxRetries
      invariant attempt <= MaxRetries - 1
      invariant calls == attempt
      invariant Retry(respond, baseDelay) == Then(calls, sleeps, RetryFrom(respond, baseDelay, attempt))
    {
      var outcome := respond(attempt);
      match outcome {
        case Ok(t) =>
          RetryLast(respond, baseDelay, attempt, calls, sleeps);
          calls := calls + 1;
          ending := Answered(t);
          return;
        case Err(e) =>
          if Contains(e, QuotaMarker) {
            if attempt < MaxRetries - 1 {
              var delay := baseDelay * Pow2(attempt);
              RetryStep(respond, baseDelay, attempt, calls, sleeps);
              calls := calls + 1;
              sleeps := sleeps + [delay];
              attempt := attempt + 1;
            } else {
              RetryLast(respond, baseDelay, attempt, calls, sleeps);
              calls := calls + 1;
              ending := QuotaExhausted(e);
              return;
            }
          } else {
            RetryLast(respond, baseDelay, attempt, calls, sleeps);
            calls := calls + 1;
            ending := Failed(e);
            return;
          }
      }
    }
  }

  /** The run from any attempt on: it makes at least one and at most the
      remaining number of calls, sleeps once before each call after the
      first with the doubling delay, every call but the last met a quota
      error, a call before the last attempt ended the run only by not being
      a quota error, and the last call's outcome decides the ending. */
  lemma {:induction false} RetryFromShape(respond: nat -> Outcome, baseDelay: nat, attempt: nat)
    requires attempt < MaxRetries
    ensures var r := RetryFrom(respond, baseDelay, attempt);
      1 <= r.calls <= MaxRetries - attempt &&
      |r.sleeps| == r.calls - 1 &&
      (forall k :: 0 <= k < |r.sleeps| ==> r.sleeps[k] == baseDelay * Pow2(attempt + k)) &&
      (forall j :: attempt <= j < attempt + r.calls - 1 ==> IsQuotaError(respond(j))) &&
      (attempt + r.calls < MaxRetries ==> !IsQuotaError(respond(attempt + r.calls - 1))) &&
      r.ending == EndingOf(respond(attempt + r.calls - 1))
    decreases MaxRetries - attempt
  {
    var r := RetryFrom(respond, baseDelay, attempt);
    if IsQuotaError(respond(attempt)) && attempt < MaxRetries - 1 {
      RetryFromShape(respond, baseDelay, attempt + 1);
      var rest := RetryFrom(respond, baseDelay, attempt + 1);
      assert r.sleeps == [baseDelay * Pow2(attempt)] + rest.sleeps;
      forall k | 0 < k < |r.sleeps|
        ensures r.sleeps[k] == baseDelay * Pow2(attempt + k)
      {
        assert r.sleeps[k] == rest.sleeps[k - 1];
      }
    }
  }

  /** The whole run, read off the oracle: at most three calls, a sleep of
      `baseDelay * 2^k` after the k-th failed call, all calls but the last
      met a quota error, a run shorter than three calls stopped at an
      outcome that is not a quota error, and the last outcome decides the
      ending. */
  lemma RetryShape(respond: nat -> Outcome, baseDelay: nat)
    ensures var r := Retry(respond, baseDelay);
      1 <= r.calls <= MaxRetries &&
      |r.sleeps| == r.calls - 1 &&
      (forall k :: 0 <= k < |r.sleeps| ==> r.sleeps[k] == baseDelay * Pow2(k)) &&
      (forall j :: 0 <= j < r.calls - 1 ==> IsQuotaError(respond(j))) &&
      (r.calls < MaxRetries ==> !IsQuotaError(respond(r.calls - 1))) &&
      r.ending == EndingOf(respond(r.calls - 1))
  {
    RetryFromShape(respond, baseDelay, 0);
  }

  function Sum(xs: seq<nat>): nat {
    if xs == [] then 0 else Sum(xs[..|xs| - 1]) + xs[|xs| - 1]
  }

  lemma {:induction false} SumDoubling(baseDelay: nat, n: nat, xs: seq<nat>)
    requires |xs| == n
    requires forall k :: 0 <= k < n ==> xs[k] == baseDelay * Pow2(k)
    ensures Sum(xs) == baseDelay * (Pow2(n) - 1)
  {
    if n > 0 {
      SumDoubling(baseDelay, n - 1, xs[..n - 1]);
    }
  }

  /** The total time slept is `baseDelay * (2^(calls-1) - 1)`, so at most
      three times the base delay. */
  lemma TotalBackoff(respond: nat -> Outcome, baseDelay: nat)
    ensures var r := Retry(respond, baseDelay);
      Sum(r.sleeps) == baseDelay * (Pow2(r.calls - 1) - 1) &&
      Sum(r.sleeps) <= 3 * baseDelay
  {
    var r := Retry(respond, baseDelay);
    RetryShape(respond, baseDelay);
    SumDoubling(baseDelay, |r.sleeps|, r.sleeps);
    assert Pow2(r.calls - 1) <= 4 by {
      assert Pow2(0) == 1 && Pow2(1) == 2 && Pow2(2) == 4;
    }
  }

  /** Two quota errors and then a reply: the reply is returned after three
      calls and two sleeps, of 5 and then 10 seconds. */
  lemma QuotaThenSuccess(respond: nat -> Outcome)
    requires respond(0) == Err("429 Quota exceeded") && respond(1) == Err("429 Quota exceeded")
    requires respond(2) == Ok("{\"success\": true}")
    ensures Retry(respond, SummaryBaseDelay) == Run(Answered("{\"success\": true}"), 3, [5, 10])
  {
    assert StartsWith("429 Quota exceeded"[0..], QuotaMarker);
    assert Pow2(1) == 2;
    assert RetryFrom(respond, SummaryBaseDelay, 1).sleeps == [10];
  }

  /** `summarize_with_gemini`: no key means no call and no summary; otherwise
      the retry run with a 5-second base delay, whose reply is the summary. */
  method SummarizeWithGemini(apiKey: string, respond: nat -> Outcome)
    returns (summary: Option<string>, calls: nat, sleeps: seq<nat>)
    ensures apiKey == "" ==> summary == None && calls == 0 && sleeps == []
    ensures apiKey != "" ==>
      var r := Retry(respond, SummaryBaseDelay);
      calls == r.calls && sleeps == r.sleeps &&
      (summary.Some? <==> r.ending.Answered?) &&
      (summary.Some? ==> summary.value == r.ending.text)
  {
    if apiKey == "" {
      return None, 0, [];
    }
    var ending;
    ending, calls, sleeps := RetryLoop(respond, SummaryBaseDelay);
    if ending.Answered? {
      summary := Some(ending.text);
    } else {
      summary := None;
    }
  }

  /** The reply `answer_question` gives for each way a run can end. */
  function AnswerText(e: Ending): string {
    match e
    case Answered(t) => t
    case QuotaExhausted(msg) => QuotaAnswerPrefix + msg
    case Failed(msg) => ErrorAnswerPrefix + msg
  }

  /** `answer_question`: no key means no call and a fixed reply; otherwise
      the retry run with a 10-second base delay, whose ending becomes the
      reply. */
  method AnswerQuestion(apiKey: string, respond: nat -> Outcome)
    returns (reply: string, calls: nat, sleeps: seq<nat>)
    ensures apiKey == "" ==> reply == KeyMissingAnswer && calls == 0 && sleeps == []
    ensures apiKey != "" ==>
      var r := Retry(respond, AnswerBaseDelay);
      calls == r.calls && sleeps == r.sleeps && reply == AnswerText(r.ending)
  {
    if apiKey == "" {
      return KeyMissingAnswer, 0, [];
    }
    var ending;
    ending, calls, sleeps := RetryLoop(respond, AnswerBaseDelay);
    reply := AnswerText(ending);
  }

  /** An error other than a quota error is reported by `answer_question`
      after one call, with no sleep. */
  lemma AnswerStopsOnOtherError(respond: nat -> Outcome, msg: string)
    requires respond(0) == Err(msg) && !Contains(msg, QuotaMarker)
    ensures var r := Retry(respond, AnswerBaseDelay);
      r.calls == 1 && r.sleeps == [] && AnswerText(r.ending) == ErrorAnswerPrefix + msg
  {
    RetryShape(respond, AnswerBaseDelay);
  }

  /** Quota errors on every attempt: three calls, sleeps of 10 and 20
      seconds, and the last error is quoted in the reply. */
  lemma AnswerQuotaExhausted(respond: nat -> Outcome)
    requires IsQuotaError(respond(0)) && IsQuotaError(respond(1)) && IsQuotaError(respond(2))
    ensures var r := Retry(respond, AnswerBaseDelay);
      r.calls == 3 && r.sleeps == [10, 20] &&
      AnswerText(r.ending) == QuotaAnswerPrefix + respond(2).message
  {
    var r := Retry(respond, AnswerBaseDelay);
    RetryShape(respond, AnswerBaseDelay);
    assert Pow2(1) == 2 && Pow2(2) == 4;
  }
}
