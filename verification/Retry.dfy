/** Bounded retries for downloads and Graph requests (`retry.py`, `download_with_retry`, `_graph_get_json`). */
module Retry {
  import opened Wrappers

  type Bytes = seq<bv8>

  datatype Policy = Policy(maxAttempts: int, baseDelay: real, maxDelay: real)

  predicate Retryable(status: int) {
    status in {429, 500, 502, 503, 504}
  }

  function Pow2(n: nat): nat {
    if n == 0 then 1 else 2 * Pow2(n - 1)
  }

  function Min(a: real, b: real): real {
    if b < a then b else a
  }

  /** A server hint (`Retry-After`, section 7.1.3 of RFC 7231) wins over exponential back-off; both are capped. */
  function ComputeDelay(attempt: nat, retryAfter: Option<real>, p: Policy, jitter: real): (delay: real)
    requires attempt >= 1
    ensures delay <= p.maxDelay
    ensures retryAfter.Some? && retryAfter.value <= p.maxDelay ==> delay == retryAfter.value
    ensures retryAfter.None? && delay < p.maxDelay ==> delay - jitter == p.baseDelay * Pow2(attempt - 1) as real
  {
    if retryAfter.Some? then Min(retryAfter.value, p.maxDelay)
    else Min(p.baseDelay * Pow2(attempt - 1) as real + jitter, p.maxDelay)
  }

  /** Without a hint the delay starts at the base and doubles with each attempt, up to the cap. */
  lemma DelayDoubles(attempt: nat, p: Policy)
    requires attempt >= 1 && p.baseDelay >= 0.0 && p.maxDelay >= 0.0
    ensures ComputeDelay(attempt + 1, None, p, 0.0) == Min(2.0 * ComputeDelay(attempt, None, p, 0.0), p.maxDelay)
    ensures ComputeDelay(1, None, p, 0.0) == Min(p.baseDelay, p.maxDelay)
  {
    var before := p.baseDelay * Pow2(attempt - 1) as real;
    assert before >= 0.0 && p.baseDelay * Pow2(attempt) as real == 2.0 * before;
    assert p.baseDelay * Pow2(0) as real == p.baseDelay;
  }

  function Total(s: seq<real>): real {
    if s == [] then 0.0 else Total(s[..|s| - 1]) + s[|s| - 1]
  }

  ghost predicate Capped(s: seq<real>, cap: real) {
    forall i :: 0 <= i < |s| ==> s[i] <= cap
  }

  lemma {:induction false} CappedTotal(s: seq<real>, cap: real)
    requires Capped(s, cap)
    ensures Total(s) <= |s| as real * cap
  {
    if s == [] {
    } else {
      CappedTotal(s[..|s| - 1], cap);
      assert |s| as real * cap == (|s| - 1) as real * cap + cap;
    }
  }

  /** Fewer sleeps than allowed attempts: the total stays below (maxAttempts - 1) * maxDelay. */
  lemma TotalWithinPolicy(s: seq<real>, p: Policy)
    requires Capped(s, p.maxDelay) && |s| < p.maxAttempts && p.maxDelay >= 0.0
    ensures Total(s) <= (p.maxAttempts - 1) as real * p.maxDelay
  {
    CappedTotal(s, p.maxDelay);
    var spare := (p.maxAttempts - 1 - |s|) as real;
    assert spare * p.maxDelay >= 0.0;
    assert (p.maxAttempts - 1) as real * p.maxDelay == |s| as real * p.maxDelay + spare * p.maxDelay;
  }

  datatype Response = TransportError | Http(status: int, retryAfter: Option<real>, body: Bytes, writeFails: bool)

  datatype DownloadError = TransportExhausted | RetryExhausted(status: int) | ErrorStatus(status: int) | WriteError
    | EmptyBody | SizeMismatch

  datatype DownloadResult = Done | Failed(error: DownloadError)

  /** What one response means for a download: take it, give up, or try again (with the error to report at the end). */
  datatype Judgement = Accept | GiveUp(error: DownloadError) | TryAgain(error: DownloadError)

  function Judge(r: Response, expected: Option<int>): Judgement {
    if r.TransportError? then TryAgain(TransportExhausted)
    else if Retryable(r.status) then TryAgain(RetryExhausted(r.status))
    else if r.status >= 400 then GiveUp(ErrorStatus(r.status))
    else if r.writeFails then GiveUp(WriteError)
    else if expected.Some? && expected.value > 0 && |r.body| == 0 then TryAgain(EmptyBody)
    else if expected.Some? && expected.value >= 0 && |r.body| != expected.value then TryAgain(SizeMismatch)
    else Accept
  }

  /** Worth another request: no answer, a server that is busy or out of order, or a body of the wrong length. */
  ghost predicate Passing(r: Response, expected: Option<int>) {
    || r.TransportError? || r.status == 429 || (500 <= r.status <= 504 && r.status != 501)
    || (r.status < 400 && !r.writeFails && expected.Some? && expected.value >= 0 && |r.body| != expected.value)
  }

  /** The server's hint, which only a busy or failing server's is listened to. */
  ghost function Hint(r: Response): Option<real> {
    if r.Http? && r.status >= 400 then r.retryAfter else None
  }

  /** Response k (from 1) answers request k; `jitter` is the jitter source; `torn(k)` is what stands at the destination
      when writing body k fails; `cleans(k)` tells whether the clean-up after attempt k works, since a failing one is
      ignored. The last response asked for decides. With no attempt allowed nothing is requested and the call returns
      normally, whatever the file holds. */
  method DownloadWithRetry(p: Policy, expected: Option<int>, responses: nat -> Response, jitter: nat -> real,
                           torn: nat -> Option<Bytes>, cleans: nat -> bool, before: Option<Bytes>)
    returns (result: DownloadResult, requests: nat, sleeps: seq<real>, file: Option<Bytes>)
    ensures p.maxAttempts < 1 ==> requests == 0 && result == Done && file == before && sleeps == []
    ensures p.maxAttempts >= 1 ==> 1 <= requests <= p.maxAttempts && |sleeps| == requests - 1
    ensures p.maxAttempts >= 1 && p.maxDelay >= 0.0 ==> Total(sleeps) <= (p.maxAttempts - 1) as real * p.maxDelay
    ensures forall k :: 1 <= k < requests ==>
      Passing(responses(k), expected) && sleeps[k - 1] == ComputeDelay(k, Hint(responses(k)), p, jitter(k))
    ensures 1 <= requests < p.maxAttempts ==> !Passing(responses(requests), expected)
    ensures requests >= 1 ==>
      var r := responses(requests);
      result.Done? <==> r.Http? && r.status < 400 && !r.writeFails && !Passing(r, expected)
    ensures requests >= 1 ==>
      match Judge(responses(requests), expected)
      case Accept => result == Done && file == Some(responses(requests).body)
      case GiveUp(e) => result == Failed(e) && (cleans(requests) ==> file == None)
      case TryAgain(e) => requests == p.maxAttempts && result == Failed(e) && (cleans(requests) ==> file == None)
    ensures requests >= 1 && result.Done? && expected.Some? && expected.value >= 0 ==> |file.value| == expected.value
  {
    requests, sleeps, file := 0, [], before;
    var attempt := 1;
    while attempt <= p.maxAttempts
      invariant attempt >= 1 && requests == attempt - 1 && |sleeps| == requests && Capped(sleeps, p.maxDelay)
      invariant requests > 0 ==> requests < p.maxAttempts
      invariant forall k :: 1 <= k <= requests ==>
        Passing(responses(k), expected) && sleeps[k - 1] == ComputeDelay(k, Hint(responses(k)), p, jitter(k))
      invariant attempt == 1 ==> file == before
      decreases p.maxAttempts - attempt
    {
      var r := responses(attempt);
      requests := requests + 1;
      if p.maxDelay >= 0.0 { TotalWithinPolicy(sleeps, p); }
      var hint: Option<real> := None;
      var problem, final := TransportExhausted, false;
      if r.Http? {
        if Retryable(r.status) {
          problem, hint := RetryExhausted(r.status), r.retryAfter;
        } else if r.status >= 400 {
          problem, final := ErrorStatus(r.status), true;
        } else if r.writeFails {
          file, problem, final := torn(attempt), WriteError, true;
        } else {
          file := Some(r.body);
          if expected.Some? && expected.value > 0 && |r.body| == 0 {
            problem := EmptyBody;
          } else if expected.Some? && expected.value >= 0 && |r.body| != expected.value {
            problem := SizeMismatch;
          } else {
            return Done, requests, sleeps, file;
          }
        }
      }
      if cleans(attempt) {
        file := None;
      }
      if final || attempt >= p.maxAttempts {
        return Failed(problem), requests, sleeps, file;
      }
      sleeps := sleeps + [ComputeDelay(attempt, hint, p, jitter(attempt))];
      attempt := attempt + 1;
    }
    result := Done;
  }

  /** The body of an answer: no JSON, JSON that is not an object, or an object. */
  datatype Body = NotJson | NotAnObject | Object(text: string)

  datatype GraphResponse = NoAnswer | Answer(status: int, retryAfter: Option<real>, payload: Body)

  datatype Refresher = Absent | Works | Fails

  datatype GraphError = Transport | AuthFailed | RefreshFailed | Exhausted(status: int) | BadStatus(status: int)
    | InvalidJson | AttributeFault | LoopExit

  datatype GraphResult = Payload(text: string) | Resync | Error(code: GraphError)

  predicate Auth(r: GraphResponse) {
    r.Answer? && r.status in {401, 403}
  }

  predicate Transient(r: GraphResponse) {
    r.NoAnswer? || Retryable(r.status)
  }

  /** The sleeps after the first n answers: none after a refused one, and the server's hint for how long. */
  ghost function Delays(p: Policy, responses: nat -> GraphResponse, jitter: nat -> real, n: nat): seq<real> {
    if n == 0 then []
    else
      var r := responses(n);
      var before := Delays(p, responses, jitter, n - 1);
      if Auth(r) then before
      else before + [ComputeDelay(n, if r.Answer? then r.retryAfter else None, p, jitter(n))]
  }

  lemma {:induction false} DelaysCapped(p: Policy, responses: nat -> GraphResponse, jitter: nat -> real, n: nat)
    ensures |Delays(p, responses, jitter, n)| <= n && Capped(Delays(p, responses, jitter, n), p.maxDelay)
  {
    if n == 0 {
    } else {
      DelaysCapped(p, responses, jitter, n - 1);
    }
  }

  /** x taken n times. */
  ghost function Times(n: nat, x: real): real {
    if n == 0 then 0.0 else Times(n - 1, x) + x
  }

  lemma {:induction false} TimesIsProduct(n: nat, x: real)
    ensures Times(n, x) == n as real * x
  {
    if n == 0 {
    } else {
      TimesIsProduct(n - 1, x);
      assert n as real * x == (n - 1) as real * x + x;
    }
  }

  /** Fewer sleeps than requests, and the policy's bound on their total. */
  ghost predicate Bounded(p: Policy, sleeps: seq<real>, requests: nat) {
    && |sleeps| < requests
    && (p.maxDelay >= 0.0 && p.maxAttempts >= 1 ==> Total(sleeps) <= Times(p.maxAttempts - 1, p.maxDelay))
  }

  lemma CappedIsBounded(p: Policy, sleeps: seq<real>, requests: nat)
    requires |sleeps| < requests <= p.maxAttempts && Capped(sleeps, p.maxDelay)
    ensures Bounded(p, sleeps, requests)
  {
    if p.maxDelay >= 0.0 {
      TotalWithinPolicy(sleeps, p);
      TimesIsProduct(p.maxAttempts - 1, p.maxDelay);
    }
  }

  lemma DelaysBounded(p: Policy, responses: nat -> GraphResponse, jitter: nat -> real, n: nat)
    requires n < p.maxAttempts
    ensures Bounded(p, Delays(p, responses, jitter, n), n + 1)
  {
    DelaysCapped(p, responses, jitter, n);
    CappedIsBounded(p, Delays(p, responses, jitter, n), n + 1);
  }

  /** What an answer that is neither transient nor an authentication failure means. */
  function Final(r: GraphResponse): (result: GraphResult)
    requires r.Answer?
    ensures result.Resync? <==> r.status == 410
    ensures result.Payload? <==> r.status < 400 && r.payload.Object?
    ensures result.Payload? ==> r.payload == Object(result.text)
    ensures result == Error(BadStatus(r.status)) <==> r.status >= 400 && r.status != 410
  {
    if r.status == 410 then Resync
    else if r.status >= 400 then Error(BadStatus(r.status))
    else if r.payload.NotJson? then Error(InvalidJson)
    else if r.payload.NotAnObject? then Error(AttributeFault) // what reading a field of it raises
    else Payload(r.payload.text)
  }

  /** What one turn of the loop does with its answer. */
  datatype Turn = Stop(outcome: GraphResult) | Refresh | Sleep(hint: Option<real>)

  /** One answer: refused once, the token is refreshed; transient, it is asked for again unless attempts are used up. */
  method Meet(r: GraphResponse, refreshedOnce: bool, refresher: Refresher, last: bool) returns (turn: Turn)
    ensures turn.Refresh? <==> Auth(r) && !refreshedOnce && refresher.Works?
    ensures turn.Sleep? <==> Transient(r) && !last
    ensures turn.Sleep? ==> turn.hint == if r.Answer? then r.retryAfter else None
    ensures turn.Stop? && r.NoAnswer? ==> turn.outcome == Error(Transport)
    ensures turn.Stop? && r.Answer? && Transient(r) ==> turn.outcome == Error(Exhausted(r.status))
    ensures turn.Stop? && Auth(r) ==>
      turn.outcome == Error(if refreshedOnce || refresher.Absent? then AuthFailed else RefreshFailed)
    ensures turn.Stop? && !Transient(r) && !Auth(r) ==> turn.outcome == Final(r)
  {
    if r.NoAnswer? {
      return if last then Stop(Error(Transport)) else Sleep(None);
    }
    if r.status in {401, 403} {
      if refreshedOnce || refresher.Absent? {
        return Stop(Error(AuthFailed));
      }
      if refresher.Fails? {
        return Stop(Error(RefreshFailed));
      }
      return Refresh;
    }
    if Retryable(r.status) {
      return if last then Stop(Error(Exhausted(r.status))) else Sleep(r.retryAfter);
    }
    return Stop(Final(r));
  }

  /** Same bounds as a download, and at most one token refresh. The exit that the source calls unreachable is
      reached exactly when the last allowed attempt is the first one refused and the refresh works. */
  method GraphGet(p: Policy, responses: nat -> GraphResponse, jitter: nat -> real, refresher: Refresher)
    returns (result: GraphResult, requests: nat, sleeps: seq<real>, refreshes: nat)
    ensures requests <= (if p.maxAttempts < 1 then 0 else p.maxAttempts) && refreshes <= 1
    ensures p.maxAttempts >= 1 ==> requests >= 1 && Bounded(p, sleeps, requests)
    ensures forall k :: 1 <= k < requests ==> Transient(responses(k)) || Auth(responses(k))
    ensures requests >= 1 && Transient(responses(requests)) ==> requests == p.maxAttempts
    ensures requests >= 1 ==> sleeps == Delays(p, responses, jitter, requests - 1)
    ensures requests >= 1 && responses(requests).NoAnswer? ==> result == Error(Transport)
    ensures requests >= 1 && responses(requests).Answer? && Transient(responses(requests)) ==>
      result == Error(Exhausted(responses(requests).status))
    ensures requests >= 1 && Auth(responses(requests)) && refresher.Absent? ==> result == Error(AuthFailed)
    ensures requests >= 1 && Auth(responses(requests)) && refresher.Fails? ==> result == Error(RefreshFailed)
    ensures requests >= 1 && Auth(responses(requests)) && refresher.Works? ==>
      result == Error(AuthFailed) || result == Error(LoopExit)
    ensures requests >= 1 && !Transient(responses(requests)) && !Auth(responses(requests)) ==>
      result == Final(responses(requests))
    ensures result == Error(LoopExit) <==>
      p.maxAttempts < 1 || (refresher.Works? && Auth(responses(p.maxAttempts)) &&
                            forall k :: 1 <= k < p.maxAttempts ==> Transient(responses(k)))
  {
    requests, sleeps, refreshes := 0, [], 0;
    ghost var refused: nat := 0;
    var attempt := 1;
    while attempt <= p.maxAttempts
      invariant attempt >= 1 && requests == attempt - 1 && sleeps == Delays(p, responses, jitter, requests)
      invariant refreshes <= 1 && (requests > 0 ==> requests <= p.maxAttempts)
      invariant requests == p.maxAttempts >= 1 ==> Auth(responses(requests))
      invariant forall k :: 1 <= k <= requests ==> Transient(responses(k)) || Auth(responses(k))
      invariant refreshes == 1 ==> refresher.Works? && 1 <= refused <= requests && Auth(responses(refused))
      invariant forall k :: 1 <= k <= requests && Auth(responses(k)) ==> refreshes == 1 && k == refused
      decreases p.maxAttempts - attempt
    {
      var r := responses(attempt);
      requests := requests + 1;
      var turn := Meet(r, refreshes == 1, refresher, attempt >= p.maxAttempts);
      DelaysBounded(p, responses, jitter, attempt - 1);
      match turn {
        case Stop(outcome) =>
          return outcome, requests, sleeps, refreshes;
        case Refresh =>
          refreshes := refreshes + 1;
          refused := attempt;
        case Sleep(hint) =>
          sleeps := sleeps + [ComputeDelay(attempt, hint, p, jitter(attempt))];
      }
      attempt := attempt + 1;
    }
    if p.maxAttempts >= 1 {
      DelaysBounded(p, responses, jitter, requests - 1);
    }
    result := Error(LoopExit);
  }
}
