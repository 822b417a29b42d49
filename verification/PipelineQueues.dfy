/** The two bounded queues between handlers, dispatcher and responder, and who waits for room in them. */
module PipelineQueues {
  import opened Frontend
  import opened Pdu
  import opened PduLaws
  import opened Pipeline
  import opened PipelineSafety
  import opened Router

  /** A queue size of zero is no limit. */
  predicate Full<T>(queue: seq<T>, size: nat) {
    size > 0 && |queue| == size
  }

  predicate Bounded(c: Config, s: State) {
    c.queueSize > 0 ==> |s.requests| <= c.queueSize && |s.responses| <= c.queueSize
  }

  lemma DispatchBounded(c: Config, s: State, job: Job, route: Resolution)
    requires Bounded(c, s)
    ensures Bounded(c, Dispatch(c, s, job, route))
  {
  }

  lemma StepKeepsBounded(c: Config, s: State, a: Action)
    requires Bounded(c, s) && Next(c, s, a).Some?
    ensures Bounded(c, Next(c, s, a).value)
  {
    if Connection(a) {
      ConnectionIsStep(c, s, a);
    } else if a.Arrive? {
      ArriveIsStep(c, s, a);
    } else if a.Put? {
      PutIsStep(c, s, a);
    } else if a.Respond? {
      RespondIsStep(c, s);
    } else if a.Take? {
      DispatchBounded(c, s.(requests := s.requests[1..]), s.requests[0], RouteOf(c, s.requests[0]));
    }
  }

  lemma {:induction false} RunKeepsBounded(c: Config, s: State, actions: seq<Action>)
    requires Bounded(c, s) && Run(c, s, actions).Some?
    ensures Bounded(c, Run(c, s, actions).value)
    decreases |actions|
  {
    if actions != [] {
      StepKeepsBounded(c, s, actions[0]);
      RunKeepsBounded(c, Next(c, s, actions[0]).value, actions[1..]);
    }
  }

  /** In every run neither queue grows beyond its size. */
  lemma QueuesBounded(c: Config, start: State, actions: seq<Action>)
    requires Initial(start) && Run(c, start, actions).Some? && c.queueSize > 0
    ensures var s := Run(c, start, actions).value; |s.requests| <= c.queueSize && |s.responses| <= c.queueSize
  {
    RunKeepsBounded(c, start, actions);
  }

  /**
    * In every reachable state a client's request goes onto the queue, and its handler on reading, exactly
    * when the queue is not full. Otherwise the request waits with its handler, until there is room again.
    */
  lemma ArriveBlocksExactly(c: Config, start: State, actions: seq<Action>, k: Client, tid: nat, request: Request)
    requires Initial(start) && Run(c, start, actions).Some?
    requires Next(c, Run(c, start, actions).value, Arrive(k, tid, request)).Some?
    ensures var s := Run(c, start, actions).value;
            var s' := Next(c, s, Arrive(k, tid, request)).value;
            if Full(s.requests, c.queueSize)
            then InPhase(s'.fronts, k, Publishing) && |s'.blocked| == |s.blocked| + 1 && s'.requests == s.requests
            else InPhase(s'.fronts, k, Reading) && s'.blocked == s.blocked && |s'.requests| == |s.requests| + 1
  {
    RunKeepsBounded(c, start, actions);
    ArriveIsStep(c, Run(c, start, actions).value, Arrive(k, tid, request));
  }

  lemma PutWaitsForRoom(c: Config, start: State, actions: seq<Action>, i: nat)
    requires Initial(start) && Run(c, start, actions).Some? && i < |Run(c, start, actions).value.blocked|
    ensures var s := Run(c, start, actions).value; Next(c, s, Put(i)).Some? <==> !Full(s.requests, c.queueSize)
  {
    InitialInvariant(c, start);
    RunKeepsInvariant(c, start, actions);
    RunKeepsBounded(c, start, actions);
    var s := Run(c, start, actions).value;
    assert WellLabelled(s.fronts, s.blocked[i]);
  }

  /** The dispatcher with an answer in hand waits exactly while the responses queue is full. */
  lemma AnswerBlocksExactly(c: Config, start: State, actions: seq<Action>)
    requires Initial(start) && Run(c, start, actions).Some?
    ensures var s := Run(c, start, actions).value;
            && (s.dispatcher.Submitting? ==>
                  var s' := Next(c, s, SubmitDone).value;
                  if Full(s.responses, c.queueSize)
                  then s'.dispatcher.Delivering? && s'.responses == s.responses
                  else s'.dispatcher.Idle? && |s'.responses| == |s.responses| + 1)
            && (s.dispatcher.Delivering? ==>
                  (Next(c, s, Deliver).Some? <==> !Full(s.responses, c.queueSize)))
  {
    RunKeepsBounded(c, start, actions);
  }

  /** So does the dispatcher with a refusal, which it makes without asking a backend. */
  lemma RefusalBlocksExactly(c: Config, start: State, actions: seq<Action>)
    requires Initial(start) && Run(c, start, actions).Some?
    requires Next(c, Run(c, start, actions).value, Take).Some?
    ensures var s := Run(c, start, actions).value;
            var s', route := Next(c, s, Take).value, RouteOf(c, s.requests[0]);
            route == Unrouted || (route.Routed? && route.plan.backend !in c.backends) ==>
              if Full(s.responses, c.queueSize)
              then s'.dispatcher.Delivering? && s'.responses == s.responses
              else s'.dispatcher.Idle? && |s'.responses| == |s.responses| + 1
  {
    RunKeepsBounded(c, start, actions);
  }

  /** What clients can do at any moment: connect below the limit, send and hang up while read from. */
  lemma ClientStepsEnabled(c: Config, s: State, a: Action)
    requires Invariant(c, s)
    ensures match a
            case Connect(name) =>
              Next(c, s, a).Some? <==>
                && name in s.fronts
                && (var f := s.fronts[name]; f.transport.UnixSocket? ==> |f.handlers| < f.transport.maxClients)
            case Deny(name) => Next(c, s, a).Some? <==> name in s.fronts && s.fronts[name].transport.TcpSocket?
            case Arrive(k, tid, request) =>
              Next(c, s, a).Some? <==> InPhase(s.fronts, k, Reading) && 0 <= tid <= 0xFFFF && Receivable(request)
            case HangUp(k) => Next(c, s, a).Some? <==> InPhase(s.fronts, k, Reading)
            case Close(k) => Next(c, s, a).Some? <==> InPhase(s.fronts, k, Closing)
            case _ => true
  {
    if a.Connect? && a.frontend in s.fronts {
      RefusesExactly(s.fronts[a.frontend]);
    }
  }

  /** The responder finishes one frame before it takes the next message. */
  lemma OneFrameAtATime(c: Config, s: State)
    requires Next(c, s, Respond).Some?
    ensures var s' := Next(c, s, Respond).value;
            && s'.responses == s.responses[1..]
            && (s'.written != s.written ==> Next(c, s', Respond).None? && Next(c, s', DrainDone).Some?)
            && (s'.written == s.written ==> Next(c, s', DrainDone).None?)
  {
    RespondIsStep(c, s);
    var delivery := DeliveryFor(s.fronts, s.responses[0]);
    if delivery.Some? {
      var k := delivery.value.to;
      assert |Of(Recorded(s.written, |s.handled|, delivery), k)| == |Of(s.written, k)| + 1;
    }
  }
}
