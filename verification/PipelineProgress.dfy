/** The pipeline drains: internal steps run out, and only once nothing is left to move. */
module PipelineProgress {
  import opened Bus
  import opened Pipeline
  import opened PipelineSafety
  import opened Router

  /** Steps the gateway takes by itself. Clients connect, send, hang up and close on their own account. */
  predicate Internal(a: Action) {
    a.Put? || a.Take? || a.SubmitDone? || a.Deliver? || a.Respond? || a.DrainDone?
  }

  function HeldWeight(d: Dispatcher): nat {
    match d
    case Idle => 0
    case Submitting(_, _) => 4
    case Delivering(_) => 3
    case Crashed(_) => 0
  }

  /** Each item in flight weighs more the further it has to go. */
  function Weight(s: State): nat {
    6 * |s.blocked| + 5 * |s.requests| + HeldWeight(s.dispatcher) + 2 * |s.responses|
    + (if s.responder.Draining? then 1 else 0)
  }

  lemma OfferWeighs(c: Config, s: State, m: Message)
    ensures Weight(Offer(c, s, m)) + HeldWeight(s.dispatcher) ==
            Weight(s) + if HasRoom(s.responses, c.queueSize) then 2 else 3
  {
  }

  lemma InternalStepShrinks(c: Config, s: State, a: Action)
    requires Internal(a) && Next(c, s, a).Some?
    ensures Weight(Next(c, s, a).value) < Weight(s)
  {
    match a
    case Put(_) =>
    case Take =>
      var job, popped := s.requests[0], s.(requests := s.requests[1..]);
      OfferWeighs(c, popped, Reply(job, NoRoute));
      OfferWeighs(c, popped, Reply(job, BackendNotFound));
    case SubmitDone =>
      OfferWeighs(c, s, Reply(s.dispatcher.job, Submit(c, s.dispatcher.job, s.dispatcher.plan)));
    case Deliver =>
      OfferWeighs(c, s, s.dispatcher.message);
    case Respond =>
    case DrainDone =>
  }

  lemma {:induction false} InternalRunsAreShort(c: Config, s: State, actions: seq<Action>)
    requires Run(c, s, actions).Some? && forall i | 0 <= i < |actions| :: Internal(actions[i])
    ensures |actions| + Weight(Run(c, s, actions).value) <= Weight(s)
    decreases |actions|
  {
    if actions != [] {
      InternalStepShrinks(c, s, actions[0]);
      InternalRunsAreShort(c, Next(c, s, actions[0]).value, actions[1..]);
    }
  }

  /** Nothing in flight, or the dispatcher is dead and all that could go round it has gone. */
  predicate Settled(c: Config, s: State) {
    && s.responses == [] && s.responder.Listening?
    && (|| (s.dispatcher.Idle? && s.requests == [] && s.blocked == [])
        || (s.dispatcher.Crashed? && (s.blocked == [] || !HasRoom(s.requests, c.queueSize))))
  }

  /** Some internal step is possible exactly until the pipeline is settled. */
  lemma EnabledUntilSettled(c: Config, s: State)
    requires Invariant(c, s)
    ensures Settled(c, s) <==> forall a | Internal(a) :: Next(c, s, a).None?
  {
    if Settled(c, s) {
      forall a | Internal(a)
        ensures Next(c, s, a).None?
      {
      }
    } else {
      var a := Enabled(c, s);
      assert Internal(a) && Next(c, s, a).Some?;
    }
  }

  lemma Enabled(c: Config, s: State) returns (a: Action)
    requires Invariant(c, s) && !Settled(c, s)
    ensures Internal(a) && Next(c, s, a).Some?
  {
    if s.responder.Draining? {
      a := DrainDone;
    } else if s.responses != [] {
      a := Respond;
    } else if s.dispatcher.Delivering? {
      a := Deliver;
    } else if s.dispatcher.Submitting? {
      a := SubmitDone;
    } else if s.dispatcher.Idle? && s.requests != [] {
      a := Take;
    } else {
      assert WellLabelled(s.fronts, s.blocked[0]);
      a := Put(0);
    }
  }

  /** From any reachable state a run of internal steps, as long as the weight at most, settles the pipeline. */
  lemma {:induction false} Drains(c: Config, s: State) returns (actions: seq<Action>)
    requires Invariant(c, s)
    ensures forall i | 0 <= i < |actions| :: Internal(actions[i])
    ensures |actions| <= Weight(s)
    ensures Run(c, s, actions).Some? && Settled(c, Run(c, s, actions).value)
    decreases Weight(s)
  {
    if Settled(c, s) {
      actions := [];
    } else {
      var a := Enabled(c, s);
      InternalStepShrinks(c, s, a);
      NextKeepsInvariant(c, s, a);
      var rest := Drains(c, Next(c, s, a).value);
      actions := [a] + rest;
      assert actions[1..] == rest;
    }
  }

  lemma CrashedByLookup(c: Config, s: State)
    requires Invariant(c, s) && s.dispatcher.Crashed?
    ensures s.dispatcher.job in s.arrived && RouteOf(c, s.dispatcher.job) == LookupRaised
  {
    assert s.arrived[|s.handled| + |s.responses|] == s.dispatcher.job;
  }

  predicate LookupsFine(c: Config, jobs: seq<Job>) {
    forall p | 0 <= p < |jobs| :: RouteOf(c, jobs[p]) != LookupRaised
  }

  /** Every request sent has been handled. */
  ghost predicate AnsweredAll(s: State) {
    JobsOf(s.handled) == s.arrived && forall k :: Of(s.sent, k) == From(s.arrived, k)
  }

  lemma FineAnswersAll(c: Config, s: State)
    requires Invariant(c, s) && Settled(c, s) && LookupsFine(c, s.arrived)
    ensures AnsweredAll(s)
  {
    if s.dispatcher.Crashed? {
      CrashedByLookup(c, s);
      assert false;
    }
    forall k
      ensures Of(s.sent, k) == From(s.arrived, k)
    {
      assert SentBy(k, Of(s.sent, k), s.arrived, s.blocked);
    }
  }

  lemma AnsweredWereFine(c: Config, s: State)
    requires Invariant(c, s) && JobsOf(s.handled) == s.arrived
    ensures LookupsFine(c, s.arrived)
  {
    forall p | 0 <= p < |s.arrived|
      ensures RouteOf(c, s.arrived[p]) != LookupRaised
    {
      assert s.arrived[p] == JobsOf(s.handled)[p] == s.handled[p].job;
      assert Faithful(c, s.handled[p]);
    }
  }

  /** A settled pipeline has handled every request of every client exactly when no lookup raised. */
  lemma SettledAnsweredAll(c: Config, start: State, actions: seq<Action>)
    requires Initial(start) && Run(c, start, actions).Some? && Settled(c, Run(c, start, actions).value)
    ensures var s := Run(c, start, actions).value; AnsweredAll(s) <==> LookupsFine(c, s.arrived)
  {
    InitialInvariant(c, start);
    RunKeepsInvariant(c, start, actions);
    var s := Run(c, start, actions).value;
    if LookupsFine(c, s.arrived) {
      FineAnswersAll(c, s);
    }
    if AnsweredAll(s) {
      AnsweredWereFine(c, s);
    }
  }
}
