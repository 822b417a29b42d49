/** The parts put together: bytes from a client to frames back, and a device's reply to what the client reads. */
module EndToEnd {
  import opened Bytes
  import opened CrcErrors
  import Mbap
  import opened Pdu
  import opened PduLaws
  import opened Pipeline
  import opened PipelineDelivery
  import opened PipelineGuarantees
  import opened PipelineProgress
  import opened PipelineReuse
  import opened Router
  import RtuFrame
  import opened RtuReader
  import opened SerialBackend
  import TcpClient
  import TcpPool

  // ---------------------------------------------------------------------------
  // A client's byte stream
  // ---------------------------------------------------------------------------

  function IndicationsOf(jobs: seq<Job>): (s: seq<Mbap.Indication>)
    ensures |s| == |jobs|
  {
    seq(|jobs|, i requires 0 <= i < |jobs| => Mbap.Indication(jobs[i].tid, jobs[i].request))
  }

  function ArrivalOf(a: Action, k: Client): seq<Mbap.Indication> {
    if a.Arrive? && a.client == k then [Mbap.Indication(a.tid, a.request)] else []
  }

  /** The requests client `k`'s handler takes from its decoder, in the order of the run. */
  function ArrivalsOf(actions: seq<Action>, k: Client): seq<Mbap.Indication> {
    if actions == [] then [] else ArrivalOf(actions[0], k) + ArrivalsOf(actions[1..], k)
  }

  /** What a client has sent grew by these requests. */
  predicate Grew(before: seq<Job>, after: seq<Job>, arrivals: seq<Mbap.Indication>) {
    IndicationsOf(after) == IndicationsOf(before) + arrivals
  }

  lemma GrewTwice(
      before: seq<Job>, middle: seq<Job>, after: seq<Job>, first: seq<Mbap.Indication>, second: seq<Mbap.Indication>)
    requires Grew(before, middle, first) && Grew(middle, after, second)
    ensures Grew(before, after, first + second)
  {
  }

  lemma SentByStep(c: Config, s: State, a: Action, k: Client)
    requires Next(c, s, a).Some?
    ensures Grew(Of(s.sent, k), Of(Next(c, s, a).value.sent, k), ArrivalOf(a, k))
  {
    if Connection(a) {
      ConnectionIsStep(c, s, a);
    } else if a.Arrive? {
      ArriveIsStep(c, s, a);
    } else if a.Put? {
      PutIsStep(c, s, a);
    } else if a.Respond? {
      RespondIsStep(c, s);
    } else if Dispatching(a) {
      DispatchingFrame(c, s, a);
    }
  }

  lemma {:induction false} SentByRun(c: Config, s: State, actions: seq<Action>, k: Client)
    requires Run(c, s, actions).Some?
    ensures Grew(Of(s.sent, k), Of(Run(c, s, actions).value.sent, k), ArrivalsOf(actions, k))
    decreases |actions|
  {
    var sent, after := Of(s.sent, k), Run(c, s, actions).value;
    if actions == [] {
      assert IndicationsOf(sent) + [] == IndicationsOf(sent);
    } else {
      var s1 := Next(c, s, actions[0]).value;
      SentByStep(c, s, actions[0], k);
      SentByRun(c, s1, actions[1..], k);
      GrewTwice(sent, Of(s1.sent, k), Of(after.sent, k), ArrivalOf(actions[0], k), ArrivalsOf(actions[1..], k));
    }
  }

  lemma SentAreArrivals(c: Config, start: State, actions: seq<Action>, k: Client)
    requires Initial(start) && Run(c, start, actions).Some?
    ensures IndicationsOf(Of(Run(c, start, actions).value.sent, k)) == ArrivalsOf(actions, k)
  {
    SentByRun(c, start, actions, k);
    assert IndicationsOf([]) == [];
  }

  /**
    * A client sends frames as bytes in any chunks, and reuses no id before its answer. Once the gateway
    * has settled, the frames written back are the answers to exactly the decodable protocol-0 requests
    * among them, in order.
    */
  lemma StreamAnswered(
      c: Config, start: State, actions: seq<Action>, k: Client, frames: seq<Mbap.WireFrame>, chunks: seq<seq<byte>>)
    requires Mbap.AllWellFormed(frames) && Mbap.Concat(chunks) == Mbap.Stream(frames)
    requires ArrivalsOf(actions, k) == Mbap.ReceiveAll(Mbap.IDLE, chunks).emitted
    requires Initial(start) && Run(c, start, actions).Some?
    requires var s := Run(c, start, actions).value;
             && LiveClient(s.fronts, k) && Patient(Of(s.sent, k), s.handled)
             && Settled(c, s) && LookupsFine(c, s.arrived)
    ensures var s := Run(c, start, actions).value;
            && (exists which :: Mbap.Picks(frames, IndicationsOf(Of(s.sent, k)), which))
            && BytesOf(Of(s.written, k)) == FramesOf(c, Of(s.sent, k))
  {
    Mbap.StreamDecoded(frames, chunks);
    SentAreArrivals(c, start, actions, k);
    SettledDeliveredAll(c, start, actions, k);
  }

  // ---------------------------------------------------------------------------
  // A device's reply
  // ---------------------------------------------------------------------------

  /** What the dispatcher hands to the backend of a plan. */
  function Rewritten(job: Job, plan: Plan): Request {
    job.request.(unit := plan.unit)
  }

  /** The request goes to the plan's backend, which answers it with `m`. */
  predicate AnsweredWith(c: Config, job: Job, plan: Plan, m: Response) {
    && RouteOf(c, job) == Routed(plan) && plan.backend in c.backends
    && c.answer(job, plan.backend, Rewritten(job, plan)) == Some(m)
  }

  function ResponseResult(adu: seq<byte>): Result<Response, TcpClient.ClientError> {
    match ResponseFromAdu(adu)
    case Ok(m) => Ok(m)
    case Err(e) => Err(TcpClient.UndecodableResponse(e))
  }

  /** A response decoded from some bytes is read back by the client under the request's own id. */
  lemma AnsweredReads(c: Config, job: Job, plan: Plan, adu: seq<byte>, more: seq<byte>, breaks: bool)
    requires ResponseFromAdu(adu).Ok? && AnsweredWith(c, job, plan, ResponseFromAdu(adu).value)
    requires IsU16(job.tid) && AnswerTo(c, job).Some?
    ensures TcpClient.ReplyIn(AnswerTo(c, job).value + more, breaks, job.tid) == ResponseResult(adu)
  {
    var m := ResponseFromAdu(adu).value;
    DecodedResponseCanonical(adu);
    ResponseRoundTrip(m);
    var frame := Mbap.FrontendFrame(job.tid, 0, ResponseToAdu(m).value);
    assert AnswerTo(c, job) == Some(frame.value);
    TcpClient.ReplyUnderstood(job.tid, job.tid, m, more, breaks);
  }

  lemma DecodedReplyReachesClient(
      c: Config, job: Job, plan: Plan, adu: seq<byte>, m: Response, more: seq<byte>, breaks: bool)
    requires AnsweredWith(c, job, plan, m) && IsU16(job.tid)
    requires ResponseFromAdu(adu) == Ok(m) && IsU16(|adu|)
    ensures AnswerTo(c, job).Some? && TcpClient.ReplyIn(AnswerTo(c, job).value + more, breaks, job.tid) == Ok(m)
  {
    ResponseReencodes(adu);
    assert Mbap.FrontendFrame(job.tid, 0, ResponseToAdu(m).value).Ok?;
    AnsweredReads(c, job, plan, adu, more, breaks);
  }

  /** An RTU frame whose ADU decodes to this request. */
  predicate CarriesRequest(frame: seq<byte>, m: Request) {
    match RtuFrame.StripRtuFrame(frame)
    case Err(_) => false
    case Ok(adu) => RequestFromAdu(adu) == Ok(m)
  }

  lemma RequestFrameCarries(m: Request)
    requires CanonicalRequest(m)
    ensures RequestToAdu(m).Ok? && CarriesRequest(RtuFrame.BuildRtuFrame(RequestToAdu(m).value), m)
  {
    RequestRoundTrip(m);
    RtuFrame.StripInvertsBuild(RequestToAdu(m).value);
  }

  /**
    * From the client to a serial line: every frame the backend writes for a handled request, however
    * often it tries, strips to an ADU that decodes to the client's own request with the plan's unit.
    */
  method SubmitSerial(c: Config, backend: Backend, job: Job, plan: Plan, attempts: seq<Attempt>)
    returns (r: Result<Response, SubmitError>, written: seq<seq<byte>>, waits: seq<real>)
    requires ValidRetry(backend.retry) && |attempts| == backend.retry.maxAttempts
    requires Receivable(job.request)
    modifies backend
    ensures r == SubmitResult(old(backend.hasSession), RequestToAdu(Rewritten(job, plan)), attempts)
    ensures IsByte(plan.unit) ==> forall i | 0 <= i < |written| :: CarriesRequest(written[i], Rewritten(job, plan))
    ensures !IsByte(plan.unit) ==> r.Err? && written == []
  {
    var adu := RequestToAdu(Rewritten(job, plan));
    r, written, waits := backend.Submit(adu, attempts);
    RequestRoundTrip(job.request);
    WithUnitChangesFirstByte(job.request, plan.unit);
    if IsByte(plan.unit) {
      RequestFrameCarries(Rewritten(job, plan));
    }
  }

  /** The same for the upstream frames of a TCP backend, as read by the other end's frontend. */
  lemma RequestReachesUpstream(job: Job, plan: Plan, tid: int)
    requires Receivable(job.request) && IsByte(plan.unit) && IsU16(tid)
    ensures var adu := RequestToAdu(Rewritten(job, plan));
            && adu.Ok? && Mbap.BackendFrame(tid, adu.value).Ok?
            && Mbap.ReceiveAll(Mbap.IDLE, [Mbap.BackendFrame(tid, adu.value).value]).emitted ==
               [Mbap.Indication(tid, Rewritten(job, plan))]
  {
    var m := Rewritten(job, plan);
    RequestRoundTrip(m);
    CanonicalLength(m);
    var adu := RequestToAdu(m).value;
    var frames, chunks := [Mbap.WireFrame(tid, 0, adu)], [Mbap.BackendFrame(tid, adu).value];
    Mbap.EncodersAgree(tid, adu);
    assert frames[1..] == [] && chunks[1..] == [];
    assert Mbap.Stream(frames) == Mbap.WireBytes(frames[0]) + [];
    assert Mbap.Concat(chunks) == chunks[0] + [];
    Mbap.StreamDecoded(frames, chunks);
    assert Mbap.Indications(frames) == Mbap.Indicate(tid, 0, adu) + [];
  }

  /** One attempt on a serial line that carries these bytes before the timeout. */
  function LineAttempt(opens: bool, line: seq<byte>): Attempt {
    match ReadOutcome(line, MAX_FRAME)
    case Ok(frame) => Attempt(opens, Some(frame))
    case Err(_) => Attempt(opens, None)
  }

  /** A serial backend's answer, as its submit computes it. */
  predicate SerialAnswers(c: Config, job: Job, plan: Plan, had: bool, attempts: seq<Attempt>) {
    c.answer(job, plan.backend, Rewritten(job, plan)) ==
    match SubmitResult(had, RequestToAdu(Rewritten(job, plan)), attempts)
    case Ok(m) => Some(m)
    case Err(_) => None
  }

  lemma LineReplyDecoded(m: Response, rest: seq<byte>, opens: bool, had: bool)
    requires CanonicalResponse(m) && ResponseToAdu(m).Ok? && (had || opens)
    requires var frame := RtuFrame.BuildRtuFrame(ResponseToAdu(m).value);
             |frame| <= MAX_FRAME && NoValidPrefix(frame)
    ensures AttemptResult(had, LineAttempt(opens, RtuFrame.BuildRtuFrame(ResponseToAdu(m).value) + rest)) == Some(m)
  {
    var adu := ResponseToAdu(m).value;
    RtuFrame.StripInvertsBuild(adu);
    WholeFrameReturned(RtuFrame.BuildRtuFrame(adu), rest);
    FramedResponseDecodes(m);
  }

  /**
    * From a serial line to the client: the device's RTU reply, with anything after it, is read back by
    * the client as the response the device gave, under the id of the request it answers.
    */
  lemma SerialReplyReachesClient(
      c: Config, job: Job, plan: Plan, had: bool, attempts: seq<Attempt>,
      m: Response, rest: seq<byte>, more: seq<byte>, breaks: bool)
    requires RouteOf(c, job) == Routed(plan) && plan.backend in c.backends && IsU16(job.tid)
    requires SerialAnswers(c, job, plan, had, attempts) && RequestToAdu(Rewritten(job, plan)).Ok?
    requires CanonicalResponse(m) && ResponseToAdu(m).Ok?
    requires var frame := RtuFrame.BuildRtuFrame(ResponseToAdu(m).value);
             && |frame| <= MAX_FRAME && NoValidPrefix(frame)
             && (var k := FirstSuccess(had, attempts);
                 k < |attempts| && attempts[k] == LineAttempt(attempts[k].opens, frame + rest))
    ensures AnswerTo(c, job).Some? && TcpClient.ReplyIn(AnswerTo(c, job).value + more, breaks, job.tid) == Ok(m)
  {
    var k := FirstSuccess(had, attempts);
    LineReplyDecoded(m, rest, attempts[k].opens, had && k == 0);
    ResponseRoundTrip(m);
    DecodedReplyReachesClient(c, job, plan, ResponseToAdu(m).value, m, more, breaks);
  }

  /** A TCP backend's answer, when the request was submit `t` of a run of its pool. */
  predicate PoolAnswers(c: Config, job: Job, plan: Plan, s: TcpPool.State, t: nat) {
    t in s.tasks &&
    c.answer(job, plan.backend, Rewritten(job, plan)) ==
    if !s.tasks[t].Succeeded? then None
    else
      match ResponseFromAdu(s.tasks[t].reply.adu)
      case Ok(m) => Some(m)
      case Err(_) => None
  }

  /**
    * From an upstream device to the client: in every run of the pool, an answered request's frame carries
    * the response of the reply the device gave to that very request.
    */
  lemma PooledReplyReachesClient(
      c: Config, job: Job, plan: Plan, poolSize: nat, actions: seq<TcpPool.Action>, t: nat,
      more: seq<byte>, breaks: bool)
    requires RouteOf(c, job) == Routed(plan) && plan.backend in c.backends && IsU16(job.tid)
    requires TcpPool.Run(poolSize, TcpPool.INITIAL, actions).Some?
    requires PoolAnswers(c, job, plan, TcpPool.Run(poolSize, TcpPool.INITIAL, actions).value, t)
    requires AnswerTo(c, job).Some?
    ensures var task := TcpPool.Run(poolSize, TcpPool.INITIAL, actions).value.tasks[t];
            && task.Succeeded? && task.reply.answers == t && ResponseFromAdu(task.reply.adu).Ok?
            && TcpClient.ReplyIn(AnswerTo(c, job).value + more, breaks, job.tid) == ResponseResult(task.reply.adu)
  {
    TcpPool.RepliesMatchRequests(poolSize, actions);
    var task := TcpPool.Run(poolSize, TcpPool.INITIAL, actions).value.tasks[t];
    AnsweredReads(c, job, plan, task.reply.adu, more, breaks);
  }
}
