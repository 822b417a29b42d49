/** What clients can rely on in every run of the pipeline. */
module PipelineGuarantees {
  import opened Bus
  import opened Bytes
  import opened Frontend
  import Mbap
  import opened Pdu
  import opened PduLaws
  import opened Pipeline
  import opened PipelineSafety
  import opened Router

  // ---------------------------------------------------------------------------
  // One message per request
  // ---------------------------------------------------------------------------

  lemma NumberedByRank(c: Config, s: State, p: nat)
    requires Invariant(c, s) && p < |s.arrived|
    ensures s.arrived[p].serial == Rank(s.arrived, p)
    ensures var mine := Of(s.sent, s.arrived[p].client);
            s.arrived[p].serial < |mine| && mine[s.arrived[p].serial] == s.arrived[p]
  {
    var k := s.arrived[p].client;
    RankIndexes(s.arrived, p);
    assert SentBy(k, Of(s.sent, k), s.arrived, s.blocked);
    assert Of(s.sent, k)[Rank(s.arrived, p)] == s.arrived[p];
  }

  lemma ArrivalsInOrder(c: Config, s: State, p: nat, q: nat)
    requires Invariant(c, s) && p < q < |s.arrived| && s.arrived[p].client == s.arrived[q].client
    ensures s.arrived[p].serial < s.arrived[q].serial
  {
    NumberedByRank(c, s, p);
    NumberedByRank(c, s, q);
    RankIncreases(s.arrived, p, q);
  }

  /**
    * A message for this request: no route when no rule takes it, no backend when the plan's is not there,
    * else what the backend makes of the request rewritten for the plan's unit.
    */
  predicate IsAnswerTo(c: Config, m: Message, job: Job) {
    && m.job == job && m.frontend == job.client.frontend && m.requestId == job.requestId
    && match Resolve(c.rules, QueryOf(job.client.frontend, job.request))
       case LookupRaised => false
       case Unrouted => m.outcome == NoRoute
       case Routed(plan) =>
         if plan.backend !in c.backends then m.outcome == BackendNotFound
         else
           match c.answer(job, plan.backend, job.request.(unit := plan.unit))
           case None => m.outcome == BackendError
           case Some(response) => m.outcome == Answered(response)
  }

  lemma PublishedAnswer(c: Config, s: State, p: nat)
    requires Invariant(c, s) && p < |s.handled| + |s.responses|
    ensures p < |s.arrived| && IsAnswerTo(c, (s.handled + s.responses)[p], s.arrived[p])
  {
    if p < |s.handled| {
      assert s.arrived[p] == s.handled[p].job;
      assert Faithful(c, s.handled[p]);
    } else {
      var i := p - |s.handled|;
      assert s.arrived[p] == s.responses[i].job;
      assert Faithful(c, s.responses[i]);
    }
  }

  lemma ArrivalsDistinct(c: Config, s: State, p: nat, q: nat)
    requires Invariant(c, s) && p < q < |s.arrived|
    ensures s.arrived[p] != s.arrived[q]
  {
    if s.arrived[p].client == s.arrived[q].client {
      ArrivalsInOrder(c, s, p, q);
    }
  }

  /**
    * The messages published so far answer the requests that arrived, in arrival order and each exactly
    * once, with the outcome the rules and the backend give that request.
    */
  lemma OneMessagePerRequest(c: Config, start: State, actions: seq<Action>)
    requires Initial(start) && Run(c, start, actions).Some?
    ensures var s := Run(c, start, actions).value;
            var published := s.handled + s.responses;
            && |s.arrived| == |published| + |DispatcherJobs(s.dispatcher)| + |s.requests|
            && (forall p | 0 <= p < |published| :: IsAnswerTo(c, published[p], s.arrived[p]))
            && (forall p, q | 0 <= p < q < |s.arrived| :: s.arrived[p] != s.arrived[q])
  {
    InitialInvariant(c, start);
    RunKeepsInvariant(c, start, actions);
    var s := Run(c, start, actions).value;
    forall p | 0 <= p < |s.handled + s.responses|
      ensures IsAnswerTo(c, (s.handled + s.responses)[p], s.arrived[p])
    {
      PublishedAnswer(c, s, p);
    }
    forall p, q | 0 <= p < q < |s.arrived|
      ensures s.arrived[p] != s.arrived[q]
    {
      ArrivalsDistinct(c, s, p, q);
    }
  }

  // ---------------------------------------------------------------------------
  // Frames match requests
  // ---------------------------------------------------------------------------

  /** The frame the answer to a request travels in, if the request gets one. */
  function AnswerTo(c: Config, job: Job): Option<seq<byte>> {
    match OutcomeOf(c, job)
    case None => None
    case Some(outcome) => AnswerFrame(job, outcome)
  }

  /** `which` maps the frames, injectively and in order, to the requests they answer. */
  ghost predicate AnswersInOrder(c: Config, frames: seq<Written>, sent: seq<Job>, which: seq<nat>) {
    && |which| == |frames|
    && (forall i | 0 <= i < |which| :: which[i] < |sent| && AnswerTo(c, sent[which[i]]) == Some(frames[i].bytes))
    && (forall i, j | 0 <= i < j < |which| :: which[i] < which[j])
  }

  lemma HandledArrived(c: Config, s: State, p: nat)
    requires Invariant(c, s) && p < |s.handled|
    ensures p < |s.arrived| && s.arrived[p] == s.handled[p].job
  {
    assert JobsOf(s.handled)[p] == s.handled[p].job;
  }

  lemma FrameAnswersSent(c: Config, s: State, k: Client, i: nat)
    requires Invariant(c, s) && i < |Of(s.written, k)|
    ensures var w := Of(s.written, k)[i];
            && w.position < |s.handled| && s.handled[w.position].job.client == k
            && (var job := s.handled[w.position].job;
                job.serial < |Of(s.sent, k)| && Of(s.sent, k)[job.serial] == job && AnswerTo(c, job) == Some(w.bytes))
  {
    var w := Of(s.written, k)[i];
    assert FramesOk(Of(s.written, k), s.handled, k);
    assert Carries(s.handled, k, w);
    assert Faithful(c, s.handled[w.position]);
    HandledArrived(c, s, w.position);
    NumberedByRank(c, s, w.position);
  }

  /** The place among its client's own requests of the one a frame answers. */
  function AnsweredPlace(s: State, w: Written): nat {
    if w.position < |s.handled| then s.handled[w.position].job.serial else 0
  }

  lemma FramesInOrder(c: Config, s: State, k: Client, i: nat, j: nat)
    requires Invariant(c, s) && i < j < |Of(s.written, k)|
    ensures AnsweredPlace(s, Of(s.written, k)[i]) < AnsweredPlace(s, Of(s.written, k)[j])
  {
    var frames := Of(s.written, k);
    FrameAnswersSent(c, s, k, i);
    FrameAnswersSent(c, s, k, j);
    assert FramesOk(frames, s.handled, k);
    HandledArrived(c, s, frames[i].position);
    HandledArrived(c, s, frames[j].position);
    ArrivalsInOrder(c, s, frames[i].position, frames[j].position);
  }

  function Places(s: State, frames: seq<Written>): (which: seq<nat>)
    ensures |which| == |frames| && forall i | 0 <= i < |frames| :: which[i] == AnsweredPlace(s, frames[i])
  {
    seq(|frames|, i requires 0 <= i < |frames| => AnsweredPlace(s, frames[i]))
  }

  lemma FramesMatch(c: Config, s: State, k: Client)
    requires Invariant(c, s)
    ensures AnswersInOrder(c, Of(s.written, k), Of(s.sent, k), Places(s, Of(s.written, k)))
  {
    var frames, sent := Of(s.written, k), Of(s.sent, k);
    var which := Places(s, frames);
    forall i | 0 <= i < |which|
      ensures which[i] < |sent| && AnswerTo(c, sent[which[i]]) == Some(frames[i].bytes)
    {
      FrameAnswersSent(c, s, k, i);
    }
    forall i, j | 0 <= i < j < |which|
      ensures which[i] < which[j]
    {
      FramesInOrder(c, s, k, i, j);
    }
  }

  /**
    * Every frame a client is sent answers one of its own requests, no two the same one, in the order
    * it sent them, whether or not it reuses transaction ids.
    */
  lemma FramesMatchRequests(c: Config, start: State, actions: seq<Action>, k: Client)
    requires Initial(start) && Run(c, start, actions).Some?
    ensures var s := Run(c, start, actions).value;
            exists which: seq<nat> :: AnswersInOrder(c, Of(s.written, k), Of(s.sent, k), which)
  {
    InitialInvariant(c, start);
    RunKeepsInvariant(c, start, actions);
    FramesMatch(c, Run(c, start, actions).value, k);
  }

  /**
    * A request gets a frame only if the first matching rule sends it to a configured backend and that
    * backend answers the request rewritten for the rule's unit. The client's parser then reads the
    * request's own transaction id and that answer from the frame.
    */
  lemma AnswerReadsBack(c: Config, job: Job)
    requires AnswerTo(c, job).Some?
    ensures var route := Resolve(c.rules, QueryOf(job.client.frontend, job.request));
            && route.Routed? && route.plan.backend in c.backends
            && (var response := c.answer(job, route.plan.backend, job.request.(unit := route.plan.unit));
                response.Some?
                && (var frame, adu := AnswerTo(c, job).value, ResponseToAdu(response.value);
                    |frame| >= 8 && adu.Ok? && Mbap.ParseMbapFrame(frame[..7], frame[7..]) == Ok((job.tid, adu.value))))
  {
    var frame := AnswerTo(c, job).value;
    var adu := ResponseToAdu(OutcomeOf(c, job).value.response).value;
    Mbap.EncodersAgree(job.tid, adu);
    assert frame[..7] + frame[7..] == frame;
    Mbap.ParseInvertsBuild(frame[..7], frame[7..], job.tid, adu);
  }

  /** It does get one if the response encodes and fits a frame. */
  lemma AnsweredExactly(c: Config, job: Job)
    requires IsU16(job.tid)
    ensures AnswerTo(c, job).Some? <==>
              var route := Resolve(c.rules, QueryOf(job.client.frontend, job.request));
              && route.Routed? && route.plan.backend in c.backends
              && (var response := c.answer(job, route.plan.backend, job.request.(unit := route.plan.unit));
                  response.Some?
                  && (var adu := ResponseToAdu(response.value); adu.Ok? && |adu.value| <= 0xFFFF))
  {
  }

  // ---------------------------------------------------------------------------
  // Isolation
  // ---------------------------------------------------------------------------

  /** A number already given out, whose handler has seen the end of its stream. */
  predicate Gone(fronts: map<string, Front>, k: Client) {
    && k.frontend in fronts && k.number <= fronts[k.frontend].counter
    && !Live(fronts[k.frontend], k.number)
  }

  /** Numbers given out before and not in use any more stay out of use. */
  ghost predicate Outlives(f: Front, g: Front) {
    f.counter <= g.counter && forall n: nat | n <= f.counter && Live(g, n) :: Live(f, n)
  }

  ghost predicate Untouched(s: State, after: State, k: Client) {
    Gone(after.fronts, k) && Of(after.written, k) == Of(s.written, k) && Of(after.sent, k) == Of(s.sent, k)
  }

  lemma GoneSurvives(fronts: map<string, Front>, name: string, g: Front, k: Client)
    requires Gone(fronts, k) && name in fronts && Outlives(fronts[name], g)
    ensures Gone(fronts[name := g], k)
  {
  }

  lemma MovedOutlives(c: Config, s: State, a: Action)
    requires Connection(a) && Next(c, s, a).Some?
    ensures Touched(a) in s.fronts && (a.Connect? ==> !Refuses(s.fronts[Touched(a)]))
    ensures Outlives(s.fronts[Touched(a)], Moved(s.fronts[Touched(a)], a))
  {
    ConnectionIsStep(c, s, a);
  }

  lemma GoneThroughConnection(c: Config, s: State, a: Action, k: Client)
    requires Gone(s.fronts, k) && Connection(a) && Next(c, s, a).Some?
    ensures Untouched(s, Next(c, s, a).value, k)
  {
    MovedOutlives(c, s, a);
    ConnectionIsStep(c, s, a);
    GoneSurvives(s.fronts, Touched(a), Moved(s.fronts[Touched(a)], a), k);
  }

  lemma GoneThroughArrive(c: Config, s: State, j: Client, tid: nat, request: Request, k: Client)
    requires Gone(s.fronts, k) && InPhase(s.fronts, j, Reading)
    ensures Untouched(s, ArriveStep(c, s, j, tid, request), k)
  {
    var f := s.fronts[j.frontend];
    var noted := OnRequest(f, j.number, tid, request.unit);
    var g := if HasRoom(s.requests, c.queueSize) then noted else SetPhase(noted, j.number, Publishing);
    assert Outlives(f, g);
    GoneSurvives(s.fronts, j.frontend, g, k);
  }

  lemma GoneThroughPut(s: State, i: nat, k: Client)
    requires Gone(s.fronts, k) && BlockedOk(s.fronts, s.blocked) && i < |s.blocked|
    requires s.blocked[i].client.frontend in s.fronts
    ensures Untouched(s, PutStep(s, i), k)
  {
    var j := s.blocked[i].client;
    BlockedFrom(s.fronts, s.blocked, i, j);
    GoneSurvives(s.fronts, j.frontend, SetPhase(s.fronts[j.frontend], j.number, Reading), k);
  }

  lemma GoneThroughRespond(s: State, delivery: Option<Delivery>, k: Client)
    requires Gone(s.fronts, k) && FrontsOk(s.fronts) && s.responses != []
    requires delivery == DeliveryFor(s.fronts, s.responses[0])
    ensures Untouched(s, RespondWith(s, delivery), k)
  {
    var m := s.responses[0];
    if m.frontend in s.fronts {
      GoneSurvives(s.fronts, m.frontend, OnResponse(s.fronts[m.frontend], m.requestId), k);
      assert FrontInvariant(s.fronts[m.frontend]);
    }
  }

  lemma GoneForever(c: Config, s: State, a: Action, k: Client)
    requires Invariant(c, s) && Gone(s.fronts, k) && Next(c, s, a).Some?
    ensures Untouched(s, Next(c, s, a).value, k)
  {
    if Connection(a) {
      GoneThroughConnection(c, s, a, k);
    } else if a.Arrive? {
      ArriveIsStep(c, s, a);
      GoneThroughArrive(c, s, a.client, a.tid, a.request, k);
    } else if a.Put? {
      PutIsStep(c, s, a);
      GoneThroughPut(s, a.index, k);
    } else if a.Respond? {
      RespondIsStep(c, s);
      GoneThroughRespond(s, DeliveryFor(s.fronts, s.responses[0]), k);
    } else if Dispatching(a) {
      DispatchingFrame(c, s, a);
    }
  }

  lemma HangUpGone(c: Config, s: State, k: Client)
    requires Invariant(c, s) && Next(c, s, HangUp(k)).Some?
    ensures Gone(Next(c, s, HangUp(k)).value.fronts, k)
  {
    assert FrontInvariant(s.fronts[k.frontend]);
  }

  /** After a client hangs up nothing is written to it or sent by it; its number is never given out again. */
  lemma {:induction false} NothingAfterHangUp(c: Config, s: State, actions: seq<Action>, k: Client)
    requires Invariant(c, s) && Gone(s.fronts, k) && Run(c, s, actions).Some?
    ensures Untouched(s, Run(c, s, actions).value, k)
    decreases |actions|
  {
    if actions != [] {
      NextKeepsInvariant(c, s, actions[0]);
      GoneForever(c, s, actions[0], k);
      NothingAfterHangUp(c, Next(c, s, actions[0]).value, actions[1..], k);
    }
  }

  /** In every run the tables list only live clients, under keys that name client and transaction id. */
  lemma TablesStayRight(c: Config, start: State, actions: seq<Action>, name: string)
    requires Initial(start) && Run(c, start, actions).Some? && name in Run(c, start, actions).value.fronts
    ensures var f := Run(c, start, actions).value.fronts[name];
            && (forall id | id in f.pending ::
                  Live(f, f.pending[id].client)
                  && id == RequestId(f.transport, name, f.pending[id].client, f.pending[id].tid))
            && (f.transport.UnixSocket? ==> f.current == |f.handlers| <= f.transport.maxClients)
  {
    InitialInvariant(c, start);
    RunKeepsInvariant(c, start, actions);
  }

  // ---------------------------------------------------------------------------
  // Every request in a run could have been received
  // ---------------------------------------------------------------------------

  ghost predicate AllReceivable(jobs: seq<Job>) {
    forall i | 0 <= i < |jobs| :: Receivable(jobs[i].request)
  }

  lemma StepKeepsReceivable(c: Config, s: State, a: Action)
    requires AllReceivable(s.arrived) && AllReceivable(s.blocked) && Next(c, s, a).Some?
    ensures var s' := Next(c, s, a).value; AllReceivable(s'.arrived) && AllReceivable(s'.blocked)
  {
    if Connection(a) {
      ConnectionIsStep(c, s, a);
    } else if a.Arrive? {
      ArriveIsStep(c, s, a);
    } else if a.Put? {
      PutIsStep(c, s, a);
    } else if a.Respond? {
      RespondIsStep(c, s);
    } else if Dispatching(a) {
      DispatchingFrame(c, s, a);
    }
  }

  lemma {:induction false} RunKeepsReceivable(c: Config, s: State, actions: seq<Action>)
    requires AllReceivable(s.arrived) && AllReceivable(s.blocked) && Run(c, s, actions).Some?
    ensures var s' := Run(c, s, actions).value; AllReceivable(s'.arrived) && AllReceivable(s'.blocked)
    decreases |actions|
  {
    if actions != [] {
      StepKeepsReceivable(c, s, actions[0]);
      RunKeepsReceivable(c, Next(c, s, actions[0]).value, actions[1..]);
    }
  }

  /** In every run, each request that arrived is one that some ADU of a possible length decodes to. */
  lemma ArrivedReceivable(c: Config, start: State, actions: seq<Action>, p: nat)
    requires Initial(start) && Run(c, start, actions).Some? && p < |Run(c, start, actions).value.arrived|
    ensures exists adu :: ArrivesAs(adu, Run(c, start, actions).value.arrived[p].request)
  {
    RunKeepsReceivable(c, start, actions);
    ReceivableExactly(Run(c, start, actions).value.arrived[p].request);
  }
}
