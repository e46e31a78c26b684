/** `get_llm_sentiment`: up to `retries` POST requests to the model server, a
    pause of `delay` seconds after every failed request but the last, and the
    reply of the first request that gets through turned into a label. The
    transport is an oracle: `transport(k)` is what the request of loop
    iteration k (counting from 0, as `attempt` does) comes back with. */
module SentimentClient {
  import opened AsciiText
  import opened LabelParsing

  const API_FAILED: string := "Error: API Failed"
  const MAX_RETRIES: string := "Error: Max Retries"

  /** The default arguments `retries=3, delay=5`. */
  const DEFAULT_RETRIES: int := 3
  const DEFAULT_DELAY: int := 5

  /** What one request gives the loop: a RequestException (connection error,
      timeout, a 4xx or 5xx status), or the decoded JSON object, of which only
      the string-valued fields are kept. */
  datatype Response = Failed | Received(body: map<string, string>)

  /** `response_data.get('response', '')`: a reply without the field reads as
      the empty text. */
  function ResponseText(body: map<string, string>): (text: string)
  {
    if "response" in body then body["response"] else ""
  }

  /** Every value `get_llm_sentiment` can return. */
  predicate IsSentiment(s: string) {
    IsParseResult(s) || s == API_FAILED || s == MAX_RETRIES
  }

  /** One call of `get_llm_sentiment`: the value returned, the number of
      requests sent and the argument of every `time.sleep` in order. */
  datatype Run = Run(sentiment: string, requests: nat, sleeps: seq<int>)

  /** The loop from iteration `attempt` on, as a recursive function; `parse`
      is what the loop does with the text of a reply (NormalizeLabel in the
      source). Falling off the end of the loop (only possible when it never
      starts) returns the "Max Retries" marker. */
  function RunFrom(parse: string -> string, transport: nat -> Response, retries: int, delay: int, attempt: nat): Run
    decreases retries - attempt
  {
    if retries <= attempt then Run(MAX_RETRIES, 0, [])
    else match transport(attempt)
      case Received(body) => Run(parse(ResponseText(body)), 1, [])
      case Failed =>
        if attempt < retries - 1 then
          var rest := RunFrom(parse, transport, retries, delay, attempt + 1);
          Run(rest.sentiment, rest.requests + 1, [delay] + rest.sleeps)
        else
          Run(API_FAILED, 1, [])
  }

  /** A whole call: the loop from its first iteration. */
  function Classify(transport: nat -> Response, retries: int, delay: int): Run {
    RunFrom(NormalizeLabel, transport, retries, delay, 0)
  }

  /** `n` pauses of `delay` seconds each. */
  function Pauses(delay: int, n: nat): (s: seq<int>)
  {
    seq(n, _ => delay)
  }

  /** The imperative loop of `get_llm_sentiment` (lines 44-84): it sends the
      requests one by one, counting them and logging every pause, normalises
      the text of the first reply that gets through, and does what Classify
      says. */
  method GetLlmSentiment(transport: nat -> Response, retries: int, delay: int)
    returns (sentiment: string, requests: nat, sleeps: seq<int>)
    ensures Run(sentiment, requests, sleeps) == Classify(transport, retries, delay)
  {
    requests, sleeps := 0, [];
    var attempt: nat := 0;
    while attempt < retries
      invariant requests == attempt && sleeps == Pauses(delay, attempt)
      invariant attempt > 0 ==> attempt < retries
      invariant var rest := RunFrom(NormalizeLabel, transport, retries, delay, attempt);
        RunFrom(NormalizeLabel, transport, retries, delay, 0)
          == Run(rest.sentiment, attempt + rest.requests, sleeps + rest.sleeps)
      decreases retries - attempt
    {
      requests := requests + 1;
      var response := transport(attempt);
      if response.Received? {
        sentiment := NormalizeLabel(ResponseText(response.body));
        return;
      }
      if attempt < retries - 1 {
        ghost var rest := RunFrom(NormalizeLabel, transport, retries, delay, attempt + 1);
        assert RunFrom(NormalizeLabel, transport, retries, delay, attempt)
          == Run(rest.sentiment, rest.requests + 1, [delay] + rest.sleeps);
        assert sleeps + [delay] + rest.sleeps == sleeps + ([delay] + rest.sleeps);
        assert Pauses(delay, attempt) + [delay] == Pauses(delay, attempt + 1);
        sleeps := sleeps + [delay];
      } else {
        sentiment := API_FAILED;
        return;
      }
      attempt := attempt + 1;
    }
    sentiment := MAX_RETRIES;
  }

  // ---------------------------------------------------------------- properties

  /** The call always returns one of the six values of the closed set. */
  lemma ClassifySentiment(transport: nat -> Response, retries: int, delay: int)
    ensures IsSentiment(Classify(transport, retries, delay).sentiment)
  {
    RunFromSentiment(NormalizeLabel, transport, retries, delay, 0);
  }

  lemma {:induction false} RunFromSentiment(parse: string -> string, transport: nat -> Response,
                                            retries: int, delay: int, attempt: nat)
    requires forall text :: IsParseResult(parse(text))
    ensures IsSentiment(RunFrom(parse, transport, retries, delay, attempt).sentiment)
    decreases retries - attempt
  {
    if attempt < retries && transport(attempt).Failed? && attempt < retries - 1 {
      RunFromSentiment(parse, transport, retries, delay, attempt + 1);
    }
  }

  /** With no retries allowed no request is sent, nothing sleeps, and the
      otherwise unreachable "Max Retries" marker is returned; that marker is
      returned in no other case. */
  lemma NoRetries(transport: nat -> Response, retries: int, delay: int)
    ensures retries <= 0 ==> Classify(transport, retries, delay) == Run(MAX_RETRIES, 0, [])
    ensures Classify(transport, retries, delay).sentiment == MAX_RETRIES <==> retries <= 0
  {
    if 0 < retries {
      StartedRunNeverFallsOff(NormalizeLabel, transport, retries, delay, 0);
    }
  }

  lemma {:induction false} StartedRunNeverFallsOff(parse: string -> string, transport: nat -> Response,
                                                   retries: int, delay: int, attempt: nat)
    requires forall text :: IsParseResult(parse(text))
    requires attempt < retries
    ensures RunFrom(parse, transport, retries, delay, attempt).sentiment != MAX_RETRIES
    decreases retries - attempt
  {
    match transport(attempt)
    case Received(body) =>
      assert IsParseResult(parse(ResponseText(body)));
    case Failed =>
      if attempt < retries - 1 {
        StartedRunNeverFallsOff(parse, transport, retries, delay, attempt + 1);
      }
  }

  /** Every request failing: after exactly `retries` requests and `retries - 1`
      pauses of `delay` each, the call gives up with "API Failed". */
  lemma AllRequestsFail(transport: nat -> Response, retries: int, delay: int)
    requires retries >= 1
    requires forall k: nat :: k < retries ==> transport(k).Failed?
    ensures Classify(transport, retries, delay) == Run(API_FAILED, retries, Pauses(delay, retries - 1))
  {
    AllRequestsFailFrom(NormalizeLabel, transport, retries, delay, 0);
  }

  lemma {:induction false} AllRequestsFailFrom(parse: string -> string, transport: nat -> Response,
                                               retries: int, delay: int, attempt: nat)
    requires attempt < retries
    requires forall k: nat :: attempt <= k < retries ==> transport(k).Failed?
    ensures RunFrom(parse, transport, retries, delay, attempt)
      == Run(API_FAILED, retries - attempt, Pauses(delay, retries - attempt - 1))
    decreases retries - attempt
  {
    if attempt < retries - 1 {
      AllRequestsFailFrom(parse, transport, retries, delay, attempt + 1);
      assert [delay] + Pauses(delay, retries - attempt - 2) == Pauses(delay, retries - attempt - 1);
    }
  }

  /** The first request that gets through ends the call, whatever its reply:
      if request k (from 0) is the first to get through, exactly k + 1
      requests are sent, k pauses taken (none after the last request), and the
      reply's label is returned, a parse failure included, without a retry. */
  lemma FirstReplyStops(transport: nat -> Response, retries: int, delay: int, k: nat)
    requires k < retries
    requires forall j: nat :: j < k ==> transport(j).Failed?
    requires transport(k).Received?
    ensures Classify(transport, retries, delay)
      == Run(NormalizeLabel(ResponseText(transport(k).body)), k + 1, Pauses(delay, k))
  {
    FirstReplyStopsFrom(NormalizeLabel, transport, retries, delay, k, 0);
  }

  lemma {:induction false} FirstReplyStopsFrom(parse: string -> string, transport: nat -> Response,
                                               retries: int, delay: int, k: nat, attempt: nat)
    requires attempt <= k < retries
    requires forall j: nat :: attempt <= j < k ==> transport(j).Failed?
    requires transport(k).Received?
    ensures RunFrom(parse, transport, retries, delay, attempt)
      == Run(parse(ResponseText(transport(k).body)), k - attempt + 1, Pauses(delay, k - attempt))
    decreases k - attempt
  {
    if attempt < k {
      FirstReplyStopsFrom(parse, transport, retries, delay, k, attempt + 1);
      assert [delay] + Pauses(delay, k - attempt - 1) == Pauses(delay, k - attempt);
    }
  }

  /** A reply that gets through but has no `response` field is a parse
      failure, returned at once: the requests after it are never sent. */
  lemma MissingFieldStops(transport: nat -> Response, retries: int, delay: int, k: nat)
    requires k < retries
    requires forall j: nat :: j < k ==> transport(j).Failed?
    requires transport(k).Received? && "response" !in transport(k).body
    ensures Classify(transport, retries, delay) == Run(PARSE_FAILED, k + 1, Pauses(delay, k))
  {
    FirstReplyStops(transport, retries, delay, k);
    ShortReplyFails("");
  }

  /** The shape of every call: a request is sent exactly when retries are
      allowed, at most `retries` of them, a pause only between two requests
      (so never after the last one), each pause of `delay` seconds. */
  lemma ClassifyShape(transport: nat -> Response, retries: int, delay: int)
    ensures var run := Classify(transport, retries, delay);
      && (run.requests == 0 <==> retries <= 0)
      && (0 < retries ==> run.requests <= retries)
      && (run.requests == 0 || |run.sleeps| == run.requests - 1)
      && run.sleeps == Pauses(delay, |run.sleeps|)
  {
    RunShape(NormalizeLabel, transport, retries, delay, 0);
  }

  lemma {:induction false} RunShape(parse: string -> string, transport: nat -> Response,
                                    retries: int, delay: int, attempt: nat)
    ensures var run := RunFrom(parse, transport, retries, delay, attempt);
      && (run.requests == 0 <==> retries <= attempt)
      && (attempt < retries ==> run.requests <= retries - attempt)
      && (run.requests == 0 || |run.sleeps| == run.requests - 1)
      && run.sleeps == Pauses(delay, |run.sleeps|)
    decreases retries - attempt
  {
    if attempt < retries && transport(attempt).Failed? && attempt < retries - 1 {
      RunShape(parse, transport, retries, delay, attempt + 1);
      var rest := RunFrom(parse, transport, retries, delay, attempt + 1);
      assert [delay] + Pauses(delay, |rest.sleeps|) == Pauses(delay, |rest.sleeps| + 1);
    }
  }

  /** A server that answers "Neutral" to the first request: one request, no
      pause, Neutral. */
  lemma NeutralServer(transport: nat -> Response)
    requires transport(0) == Received(map["response" := NEUTRAL])
    ensures Classify(transport, DEFAULT_RETRIES, DEFAULT_DELAY) == Run(NEUTRAL, 1, [])
  {
    FirstReplyStops(transport, DEFAULT_RETRIES, DEFAULT_DELAY, 0);
    StripUnpadded(NEUTRAL);
    LabelIsTitleWord(NEUTRAL);
    TitleOfTitleWord(NEUTRAL);
    ExactLabel(NEUTRAL, NEUTRAL);
  }
}
