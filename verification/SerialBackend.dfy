/** The serial backend's submit: retries, backoff and session state. */
module SerialBackend {
  import opened BitwiseXor
  import opened Bytes
  import opened Pdu
  import opened PduLaws
  import opened RtuFrame

  datatype Retry = Retry(backoffMin: real, backoffMax: real, maxAttempts: nat)

  ghost predicate ValidRetry(r: Retry) {
    r.backoffMin > 0.0 && r.backoffMax > 0.0 && r.maxAttempts > 0
  }

  /** What the outside world does in one attempt: can a session be opened, and what comes back. */
  datatype Attempt = Attempt(opens: bool, reply: Option<seq<byte>>)

  datatype SubmitError = Unencodable(reason: PduError) | ExhaustedRetries

  function DecodeResponse(frame: seq<byte>): Option<Response> {
    match StripRtuFrame(frame)
    case Err(_) => None
    case Ok(body) =>
      match ResponseFromAdu(body)
      case Err(_) => None
      case Ok(response) => Some(response)
  }

  /** A properly framed canonical response is what the backend hands on. */
  lemma FramedResponseDecodes(m: Response)
    requires CanonicalResponse(m)
    ensures ResponseToAdu(m).Ok? && DecodeResponse(BuildRtuFrame(ResponseToAdu(m).value)) == Some(m)
  {
    ResponseRoundTrip(m);
    StripInvertsBuild(ResponseToAdu(m).value);
  }

  /** An attempt succeeds when a session is there or opens, and the reply decodes. */
  function AttemptResult(hasSession: bool, a: Attempt): Option<Response> {
    if (hasSession || a.opens) && a.reply.Some? then DecodeResponse(a.reply.value) else None
  }

  /** Attempt `i` of a submit; only the first can find a session already there. */
  function ResultOf(hasSession: bool, attempts: seq<Attempt>, i: nat): Option<Response>
    requires i < |attempts|
  {
    AttemptResult(hasSession && i == 0, attempts[i])
  }

  /** Index of the first successful attempt from `i` on. */
  function FirstSuccess(hasSession: bool, attempts: seq<Attempt>, i: nat := 0): (k: nat)
    requires i <= |attempts|
    ensures i <= k <= |attempts|
    ensures k < |attempts| ==> ResultOf(hasSession, attempts, k).Some?
    ensures forall j | i <= j < k :: ResultOf(hasSession, attempts, j).None?
    decreases |attempts| - i
  {
    if i == |attempts| || ResultOf(hasSession, attempts, i).Some? then i
    else FirstSuccess(hasSession, attempts, i + 1)
  }

  lemma FirstSuccessStep(hasSession: bool, attempts: seq<Attempt>, i: nat)
    requires i < |attempts|
    ensures FirstSuccess(hasSession, attempts, i) ==
            if ResultOf(hasSession, attempts, i).Some? then i else FirstSuccess(hasSession, attempts, i + 1)
    ensures FirstSuccess(hasSession, attempts, |attempts|) == |attempts|
  {
  }

  /** What a submit returns: the first successful attempt's response. */
  function SubmitResult(hasSession: bool, adu: Encoded, attempts: seq<Attempt>): Result<Response, SubmitError> {
    match adu
    case Err(e) => Err(Unencodable(e))
    case Ok(_) =>
      var k := FirstSuccess(hasSession, attempts);
      if k < |attempts| then Ok(ResultOf(hasSession, attempts, k).value) else Err(ExhaustedRetries)
  }

  function Minimum(a: real, b: real): real {
    if a <= b then a else b
  }

  /** The variable `backoff` after `k` sleeps. */
  function Backoff(r: Retry, k: nat): real {
    if k == 0 then r.backoffMin else Minimum(2.0 * Backoff(r, k - 1), r.backoffMax)
  }

  /**
    * The k-th wait as a number: backoff_min first, even above the cap; then 2^k times that, or the cap
    * where that is more.
    */
  predicate IsWait(r: Retry, k: nat, wait: real) {
    if k == 0 then wait == r.backoffMin
    else if r.backoffMin * Power2(k) as real <= r.backoffMax then wait == r.backoffMin * Power2(k) as real
    else wait == r.backoffMax
  }

  lemma DoubleReal(x: real, p: nat)
    ensures 2.0 * (x * p as real) == x * (2 * p) as real
  {
  }

  lemma {:induction false} BackoffClosedForm(r: Retry, k: nat)
    requires ValidRetry(r)
    ensures IsWait(r, k, Backoff(r, k))
  {
    if k > 0 {
      BackoffClosedForm(r, k - 1);
      DoubleReal(r.backoffMin, Power2(k - 1));
    }
  }

  function Waits(r: Retry, n: nat): (s: seq<real>)
    ensures |s| == n
  {
    if n == 0 then [] else Waits(r, n - 1) + [Backoff(r, n - 1)]
  }

  lemma {:induction false} WaitsAt(r: Retry, n: nat, k: nat)
    requires k < n
    ensures Waits(r, n)[k] == Backoff(r, k)
    decreases n
  {
    if k < n - 1 {
      WaitsAt(r, n - 1, k);
    }
  }

  ghost predicate AreWaits(r: Retry, waits: seq<real>) {
    forall k | 0 <= k < |waits| :: IsWait(r, k, waits[k])
  }

  lemma WaitsClosedForm(r: Retry, n: nat)
    requires ValidRetry(r)
    ensures AreWaits(r, Waits(r, n))
  {
    forall k | 0 <= k < |Waits(r, n)|
      ensures IsWait(r, k, Waits(r, n)[k])
    {
      WaitsAt(r, n, k);
      BackoffClosedForm(r, k);
    }
  }

  /** How many of the first `n` attempts got as far as writing the payload. */
  function Writes(hasSession: bool, attempts: seq<Attempt>, n: nat): (w: nat)
    requires n <= |attempts|
    ensures w <= n
  {
    if n == 0 then 0
    else Writes(hasSession, attempts, n - 1) + if (hasSession && n == 1) || attempts[n - 1].opens then 1 else 0
  }

  /** `n` copies of one frame. */
  predicate Repeats(written: seq<seq<byte>>, frame: seq<byte>, n: nat) {
    |written| == n && forall i | 0 <= i < n :: written[i] == frame
  }

  /** The frames on the line after one more attempt. */
  function Extended(written: seq<seq<byte>>, frame: seq<byte>, wrote: bool): seq<seq<byte>> {
    if wrote then written + [frame] else written
  }

  lemma RepeatsNext(written: seq<seq<byte>>, frame: seq<byte>, hasSession: bool, attempts: seq<Attempt>, n: nat)
    requires n < |attempts| && Repeats(written, frame, Writes(hasSession, attempts, n))
    ensures Repeats(Extended(written, frame, (hasSession && n == 0) || attempts[n].opens), frame,
                    Writes(hasSession, attempts, n + 1))
  {
  }

  class Backend {
    const retry: Retry
    var hasSession: bool

    constructor (retry: Retry)
      ensures this.retry == retry && !hasSession
    {
      this.retry, hasSession := retry, false;
    }

    /** The body of one attempt: make sure of a session, exchange, decode; reset on any failure. */
    method TryOnce(a: Attempt) returns (response: Option<Response>, wrote: bool)
      modifies this
      ensures response == AttemptResult(old(hasSession), a)
      ensures wrote == (old(hasSession) || a.opens)
      ensures hasSession == response.Some?
    {
      response, wrote := None, false;
      if !hasSession {
        hasSession := a.opens;
      }
      if hasSession {
        wrote := true;
        if a.reply.Some? {
          response := DecodeResponse(a.reply.value);
        }
      }
      if response.None? {
        hasSession := false;
      }
    }

    /**
      * Tries the attempts offered by the environment, of which there are as many as allowed, until one
      * succeeds. `written` lists the frames put on the line, `waits` the sleeps between attempts.
      */
    method Attempts(payload: seq<byte>, attempts: seq<Attempt>)
      returns (response: Option<Response>, written: seq<seq<byte>>, waits: seq<real>)
      requires ValidRetry(retry) && |attempts| == retry.maxAttempts
      modifies this
      ensures var had := old(hasSession);
              var k := FirstSuccess(had, attempts);
              if k < |attempts| then
                && response == ResultOf(had, attempts, k)
                && hasSession && waits == Waits(retry, k)
                && Repeats(written, payload, Writes(had, attempts, k + 1))
              else
                && response == None
                && !hasSession && waits == Waits(retry, k - 1)
                && Repeats(written, payload, Writes(had, attempts, k))
      ensures AreWaits(retry, waits)
    {
      response, written, waits := None, [], [];
      var backoff := retry.backoffMin;
      ghost var had := hasSession;
      for attempt := 0 to retry.maxAttempts
        invariant attempt < retry.maxAttempts
        invariant hasSession == (had && attempt == 0)
        invariant FirstSuccess(had, attempts) == FirstSuccess(had, attempts, attempt)
        invariant backoff == Backoff(retry, attempt) && waits == Waits(retry, attempt)
        invariant Repeats(written, payload, Writes(had, attempts, attempt))
      {
        var wrote;
        response, wrote := TryOnce(attempts[attempt]);
        FirstSuccessStep(had, attempts, attempt);
        RepeatsNext(written, payload, had, attempts, attempt);
        if wrote {
          written := written + [payload];
        }
        if response.Some? || attempt == retry.maxAttempts - 1 {
          WaitsClosedForm(retry, attempt);
          return;
        }
        waits := waits + [backoff];
        backoff := Minimum(backoff * 2.0, retry.backoffMax);
      }
    }

    /** Frames the encoded request, if it did encode, and tries to get it answered. */
    method Submit(adu: Encoded, attempts: seq<Attempt>)
      returns (r: Result<Response, SubmitError>, written: seq<seq<byte>>, waits: seq<real>)
      requires ValidRetry(retry) && |attempts| == retry.maxAttempts
      modifies this
      ensures r == SubmitResult(old(hasSession), adu, attempts)
      ensures adu.Err? ==>
                r == Err(Unencodable(adu.error)) && written == [] && waits == [] && hasSession == old(hasSession)
      ensures AreWaits(retry, waits)
      ensures adu.Ok? ==>
                var had := old(hasSession);
                var k := FirstSuccess(had, attempts);
                if k < |attempts| then
                  && r.Ok? && hasSession && waits == Waits(retry, k)
                  && Repeats(written, BuildRtuFrame(adu.value), Writes(had, attempts, k + 1))
                else
                  && r == Err(ExhaustedRetries)
                  && !hasSession && waits == Waits(retry, k - 1)
                  && Repeats(written, BuildRtuFrame(adu.value), Writes(had, attempts, k))
    {
      if adu.Err? {
        return Err(Unencodable(adu.error)), [], [];
      }
      var response;
      response, written, waits := Attempts(BuildRtuFrame(adu.value), attempts);
      r := if response.Some? then Ok(response.value) else Err(ExhaustedRetries);
    }
  }

  /** An attempt with this reply counts: a session is there or opens, and the reply is a valid frame of `m`. */
  predicate Succeeds(hadSession: bool, a: Attempt, m: Response) {
    && (hadSession || a.opens) && a.reply.Some?
    && (var frame := a.reply.value;
        |frame| >= 4 && HasValidCrc(frame) && ResponseFromAdu(frame[..|frame| - 2]) == Ok(m))
  }

  lemma SucceedsExactly(hadSession: bool, a: Attempt, m: Response)
    ensures AttemptResult(hadSession, a) == Some(m) <==> Succeeds(hadSession, a, m)
  {
  }

  /** Only the first attempt can find a session already there. */
  predicate SucceedsAt(hasSession: bool, attempts: seq<Attempt>, i: nat, m: Response) {
    i < |attempts| && Succeeds(hasSession && i == 0, attempts[i], m)
  }

  ghost predicate FailsBefore(hasSession: bool, attempts: seq<Attempt>, k: nat) {
    forall i: nat, m | i < k :: !SucceedsAt(hasSession, attempts, i, m)
  }

  /** A submit returns the response of the first attempt that succeeds, and fails exactly when none does. */
  lemma SubmitExactly(hasSession: bool, adu: Encoded, attempts: seq<Attempt>)
    requires adu.Ok?
    ensures match SubmitResult(hasSession, adu, attempts)
            case Ok(m) => exists k :: SucceedsAt(hasSession, attempts, k, m) && FailsBefore(hasSession, attempts, k)
            case Err(e) => e == ExhaustedRetries && FailsBefore(hasSession, attempts, |attempts|)
  {
    var k := FirstSuccess(hasSession, attempts);
    forall i: nat, m | i < k
      ensures !SucceedsAt(hasSession, attempts, i, m)
    {
      SucceedsExactly(hasSession && i == 0, attempts[i], m);
      assert ResultOf(hasSession, attempts, i).None?;
    }
    if k < |attempts| {
      var m := ResultOf(hasSession, attempts, k).value;
      SucceedsExactly(hasSession && k == 0, attempts[k], m);
      assert SucceedsAt(hasSession, attempts, k, m);
    }
  }

  /** Submit fails exactly when every attempt fails. */
  lemma FailsExactlyWhenAllFail(hasSession: bool, attempts: seq<Attempt>)
    ensures FirstSuccess(hasSession, attempts) == |attempts|
            <==> forall j | 0 <= j < |attempts| :: ResultOf(hasSession, attempts, j).None?
  {
    var k := FirstSuccess(hasSession, attempts);
    if k < |attempts| {
      assert ResultOf(hasSession, attempts, k).Some?;
    }
  }
}
