/** How soon one request is served, whatever else arrives meanwhile. */
module PipelineBound {
  import opened Bus
  import opened Pipeline
  import opened PipelineProgress
  import opened PipelineSafety
  import opened Router

  function Min(a: int, b: int): int {
    if a < b then a else b
  }

  /** How many of the requests up to position `p` of the arrivals are still queued. */
  function QueuedUpTo(s: State, p: nat): nat {
    var first := |s.arrived| - |s.requests|;
    if p < first then 0 else Min(p + 1 - first, |s.requests|)
  }

  /** The weight of all that has to move before the answer at position `p` is published. */
  function Ahead(s: State, p: nat): nat {
    5 * QueuedUpTo(s, p) + HeldWeight(s.dispatcher) + 2 * |s.responses| + (if s.responder.Draining? then 1 else 0)
  }

  /** Steps the gateway takes by itself, other than letting a waiting handler queue its request. */
  predicate Serving(a: Action) {
    Internal(a) && !a.Put?
  }

  /** The answer at position `p` is not on the responses queue yet. */
  predicate Unpublished(s: State, p: nat) {
    |s.handled| + |s.responses| <= p < |s.arrived|
  }

  lemma OfferMovesOn(c: Config, s: State, m: Message)
    ensures var s' := Offer(c, s, m);
            && s'.arrived == s.arrived && s'.requests == s.requests && s'.handled == s.handled
            && s'.responder == s.responder
            && HeldWeight(s'.dispatcher) + 2 * |s'.responses| ==
               2 * |s.responses| + if HasRoom(s.responses, c.queueSize) then 2 else 3
  {
  }

  lemma ArrivalsCount(c: Config, s: State)
    requires Invariant(c, s)
    ensures |s.arrived| == |s.handled| + |s.responses| + |DispatcherJobs(s.dispatcher)| + |s.requests|
  {
  }

  lemma DispatchMovesOn(c: Config, s: State, job: Job, route: Resolution)
    ensures var s' := Dispatch(c, s, job, route);
            && s'.arrived == s.arrived && s'.requests == s.requests && s'.responder == s.responder
            && HeldWeight(s'.dispatcher) + 2 * |s'.responses| <= 2 * |s.responses| + 4
  {
    OfferMovesOn(c, s, Reply(job, NoRoute));
    OfferMovesOn(c, s, Reply(job, BackendNotFound));
  }

  lemma TakeShortens(c: Config, s: State, p: nat)
    requires Invariant(c, s) && Unpublished(s, p) && s.dispatcher.Idle? && s.requests != []
    ensures QueuedUpTo(s, p) == QueuedUpTo(s.(requests := s.requests[1..]), p) + 1
  {
    ArrivalsCount(c, s);
  }

  lemma TakeServes(c: Config, s: State, p: nat)
    requires Invariant(c, s) && Unpublished(s, p) && s.dispatcher.Idle? && s.requests != []
    ensures var popped := s.(requests := s.requests[1..]);
            Ahead(Dispatch(c, popped, s.requests[0], RouteOf(c, s.requests[0])), p) < Ahead(s, p)
  {
    TakeShortens(c, s, p);
    DispatchMovesOn(c, s.(requests := s.requests[1..]), s.requests[0], RouteOf(c, s.requests[0]));
  }

  lemma ServingStepServes(c: Config, s: State, a: Action, p: nat)
    requires Invariant(c, s) && Unpublished(s, p) && Serving(a) && Next(c, s, a).Some?
    ensures Ahead(Next(c, s, a).value, p) < Ahead(s, p)
  {
    match a
    case Take => TakeServes(c, s, p);
    case SubmitDone =>
      OfferMovesOn(c, s, Reply(s.dispatcher.job, Submit(c, s.dispatcher.job, s.dispatcher.plan)));
    case Deliver => OfferMovesOn(c, s, s.dispatcher.message);
    case Respond =>
    case DrainDone =>
  }

  lemma OtherStepKeepsAhead(c: Config, s: State, a: Action, p: nat)
    requires p < |s.arrived| && !Serving(a) && Next(c, s, a).Some?
    ensures Ahead(Next(c, s, a).value, p) == Ahead(s, p)
  {
    if Connection(a) {
      ConnectionIsStep(c, s, a);
    } else if a.Arrive? {
      ArriveIsStep(c, s, a);
    } else {
      PutIsStep(c, s, a);
    }
  }

  lemma ArrivalsGrow(c: Config, s: State, a: Action)
    requires Next(c, s, a).Some?
    ensures |Next(c, s, a).value.arrived| >= |s.arrived|
  {
    if Dispatching(a) {
      DispatchingFrame(c, s, a);
    }
  }

  lemma PublishedStays(c: Config, s: State, a: Action, p: nat)
    requires Next(c, s, a).Some? && p < |s.arrived|
    requires Unpublished(Next(c, s, a).value, p)
    ensures Unpublished(s, p)
  {
  }

  lemma {:induction false} RunPublishedStays(c: Config, s: State, actions: seq<Action>, p: nat)
    requires Run(c, s, actions).Some? && p < |s.arrived| && Unpublished(Run(c, s, actions).value, p)
    ensures Unpublished(s, p)
    decreases |actions|
  {
    if actions != [] {
      ArrivalsGrow(c, s, actions[0]);
      RunPublishedStays(c, Next(c, s, actions[0]).value, actions[1..], p);
      PublishedStays(c, s, actions[0], p);
    }
  }

  function ServingSteps(actions: seq<Action>): nat {
    if actions == [] then 0 else (if Serving(actions[0]) then 1 else 0) + ServingSteps(actions[1..])
  }

  /**
    * While an arrived request is unpublished the gateway can have taken at most so many steps as there
    * is weight ahead of it, whatever clients do in between and however many requests arrive behind it.
    */
  lemma {:induction false} PublishedWithin(c: Config, s: State, actions: seq<Action>, p: nat)
    requires Invariant(c, s) && Run(c, s, actions).Some? && p < |s.arrived|
    requires Unpublished(Run(c, s, actions).value, p)
    ensures ServingSteps(actions) + Ahead(Run(c, s, actions).value, p) <= Ahead(s, p)
    decreases |actions|
  {
    if actions != [] {
      var s1 := Next(c, s, actions[0]).value;
      RunPublishedStays(c, s, actions, p);
      NextKeepsInvariant(c, s, actions[0]);
      ArrivalsGrow(c, s, actions[0]);
      PublishedWithin(c, s1, actions[1..], p);
      if Serving(actions[0]) {
        ServingStepServes(c, s, actions[0], p);
      } else {
        OtherStepKeepsAhead(c, s, actions[0], p);
      }
    }
  }

  /** And until it is published, or the dispatcher dies, there is such a step to take. */
  lemma ServingEnabled(c: Config, s: State, p: nat) returns (a: Action)
    requires Invariant(c, s) && Unpublished(s, p) && !s.dispatcher.Crashed?
    ensures Serving(a) && Next(c, s, a).Some?
  {
    if s.responder.Draining? {
      a := DrainDone;
    } else if s.responses != [] {
      a := Respond;
    } else if s.dispatcher.Delivering? {
      a := Deliver;
    } else if s.dispatcher.Submitting? {
      a := SubmitDone;
    } else {
      ArrivalsCount(c, s);
      a := Take;
    }
  }

  // ---------------------------------------------------------------------------
  // From the responses queue to the client
  // ---------------------------------------------------------------------------

  predicate Responding(a: Action) {
    a.Respond? || a.DrainDone?
  }

  function RespondingSteps(actions: seq<Action>): nat {
    if actions == [] then 0 else (if Responding(actions[0]) then 1 else 0) + RespondingSteps(actions[1..])
  }

  /** The responder's steps up to and including position `p`: take, and drain what was written. */
  function LeftToRespond(s: State, p: nat): int {
    2 * (p + 1 - |s.handled|) + if s.responder.Draining? then 1 else 0
  }

  lemma RespondingStepServes(c: Config, s: State, a: Action, p: nat)
    requires Next(c, s, a).Some?
    ensures LeftToRespond(Next(c, s, a).value, p) + (if Responding(a) then 1 else 0) <= LeftToRespond(s, p)
  {
    if Dispatching(a) {
      DispatchingFrame(c, s, a);
    }
  }

  /** The responder handles position `p` within twice as many steps as there are messages up to it. */
  lemma {:induction false} HandledWithin(c: Config, s: State, actions: seq<Action>, p: nat)
    requires Run(c, s, actions).Some?
    ensures RespondingSteps(actions) + LeftToRespond(Run(c, s, actions).value, p) <= LeftToRespond(s, p)
    decreases |actions|
  {
    if actions != [] {
      RespondingStepServes(c, s, actions[0], p);
      HandledWithin(c, Next(c, s, actions[0]).value, actions[1..], p);
    }
  }
}
