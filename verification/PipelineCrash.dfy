/** What a lookup that raises does to the gateway: the dispatcher dies and answers nobody any more. */
module PipelineCrash {
  import opened Bytes
  import opened Frontend
  import opened Pdu
  import opened PduLaws
  import opened Pipeline
  import opened PipelineGuarantees
  import opened PipelineSafety
  import opened Router

  // ---------------------------------------------------------------------------
  // Nothing is answered after a crash
  // ---------------------------------------------------------------------------

  function Published(s: State): seq<Message> {
    s.handled + s.responses
  }

  lemma CrashedStep(c: Config, s: State, a: Action)
    requires s.dispatcher.Crashed? && Next(c, s, a).Some?
    ensures var s' := Next(c, s, a).value; s'.dispatcher == s.dispatcher && Published(s') == Published(s)
  {
    if Connection(a) {
      ConnectionIsStep(c, s, a);
    } else if a.Arrive? {
      ArriveIsStep(c, s, a);
    } else if a.Put? {
      PutIsStep(c, s, a);
    } else if a.Respond? {
      RespondIsStep(c, s);
      assert s.responses == [s.responses[0]] + s.responses[1..];
    }
  }

  /** In every run from a crash on, the dispatcher stays dead and no message is published any more. */
  lemma {:induction false} CrashedForever(c: Config, s: State, actions: seq<Action>)
    requires s.dispatcher.Crashed? && Run(c, s, actions).Some?
    ensures var s' := Run(c, s, actions).value; s'.dispatcher == s.dispatcher && Published(s') == Published(s)
    decreases |actions|
  {
    if actions != [] {
      CrashedStep(c, s, actions[0]);
      CrashedForever(c, Next(c, s, actions[0]).value, actions[1..]);
    }
  }

  lemma FrameIsPublished(c: Config, s: State, k: Client, i: nat)
    requires Invariant(c, s) && i < |Of(s.written, k)|
    ensures Of(s.written, k)[i].position < |Published(s)| && Published(s)[Of(s.written, k)[i].position].job.client == k
  {
    assert FramesOk(Of(s.written, k), s.handled, k);
    assert Carries(s.handled, k, Of(s.written, k)[i]);
  }

  /** A client without a published answer at the time of the crash is never written to, whatever it sends. */
  lemma UnansweredForever(c: Config, s: State, actions: seq<Action>, k: Client)
    requires Invariant(c, s) && s.dispatcher.Crashed? && Run(c, s, actions).Some?
    requires forall p | 0 <= p < |Published(s)| :: Published(s)[p].job.client != k
    ensures Of(Run(c, s, actions).value.written, k) == []
  {
    CrashedForever(c, s, actions);
    RunKeepsInvariant(c, s, actions);
    var s' := Run(c, s, actions).value;
    if Of(s'.written, k) != [] {
      FrameIsPublished(c, s', k, 0);
    }
  }

  // ---------------------------------------------------------------------------
  // When it can happen
  // ---------------------------------------------------------------------------

  function CrashRun(name: string, tid: nat, request: Request): seq<Action> {
    [Connect(name), Arrive(Client(name, 1), tid, request), Take]
  }

  /** One such request, sent by the first client of a fresh gateway, is enough. */
  lemma OneRequestCrashes(c: Config, start: State, name: string, tid: nat, request: Request)
    requires Initial(start) && name in start.fronts && !Refuses(start.fronts[name]) && IsU16(tid)
    requires Raising(c.rules, name, request)
    ensures var r := Run(c, start, CrashRun(name, tid, request)); r.Some? && r.value.dispatcher.Crashed?
  {
    var a := CrashRun(name, tid, request);
    var s1 := Next(c, start, a[0]).value;
    assert InPhase(s1.fronts, Client(name, 1), Reading);
    var s2 := Next(c, s1, a[1]).value;
    assert |s2.requests| == 1 && s2.requests[0].client.frontend == name && s2.requests[0].request == request;
    var s3 := Next(c, s2, a[2]).value;
    assert a[1..][1..] == a[2..] && a[2..][1..] == [];
    assert Run(c, s2, a[2..]) == Some(s3);
    assert Run(c, s1, a[1..]) == Some(s3);
  }

  /** For example a function code 7 request where the only rule is for registers 1 to 9. */
  lemma RawRequestCrashes(c: Config, start: State, name: string, backend: string)
    requires Initial(start) && name in start.fronts && !Refuses(start.fronts[name])
    requires c.rules == [Rule(name, backend, Match(None, None, None, Some(Range(Some(1), Some(9)))), None)]
    ensures CanCrash(c, start)
  {
    var request := Request(1, RawRequest([], 7));
    RawRequestRaises(name, backend);
    OneRequestCrashes(c, start, name, 0, request);
    assert Run(c, start, CrashRun(name, 0, request)).Some?;
  }

  lemma StepKeepsNames(c: Config, s: State, a: Action)
    requires Next(c, s, a).Some?
    ensures Next(c, s, a).value.fronts.Keys == s.fronts.Keys
  {
    if Connection(a) {
      ConnectionIsStep(c, s, a);
    } else if a.Arrive? {
      ArriveIsStep(c, s, a);
    } else if a.Put? {
      PutIsStep(c, s, a);
    } else if a.Respond? {
      RespondIsStep(c, s);
    } else if Dispatching(a) {
      DispatchingFrame(c, s, a);
    }
  }

  lemma {:induction false} RunKeepsNames(c: Config, s: State, actions: seq<Action>)
    requires Run(c, s, actions).Some?
    ensures Run(c, s, actions).value.fronts.Keys == s.fronts.Keys
    decreases |actions|
  {
    if actions != [] {
      StepKeepsNames(c, s, actions[0]);
      RunKeepsNames(c, Next(c, s, actions[0]).value, actions[1..]);
    }
  }

  ghost predicate CanCrash(c: Config, start: State) {
    exists actions :: Run(c, start, actions).Some? && Run(c, start, actions).value.dispatcher.Crashed?
  }

  ghost predicate SomeFrontendExposed(c: Config, start: State) {
    exists name :: name in start.fronts && Exposed(c.rules, name)
  }

  /** Some run kills the dispatcher exactly when the rule table is exposed for some frontend. */
  lemma CrashReachableExactly(c: Config, start: State)
    requires Initial(start) && forall name | name in start.fronts :: !Refuses(start.fronts[name])
    ensures CanCrash(c, start) <==> SomeFrontendExposed(c, start)
  {
    if SomeFrontendExposed(c, start) {
      var name :| name in start.fronts && Exposed(c.rules, name);
      ExposedExactly(c.rules, name);
      var request :| Raising(c.rules, name, request);
      OneRequestCrashes(c, start, name, 0, request);
      assert Run(c, start, CrashRun(name, 0, request)).Some?;
    }
    if CanCrash(c, start) {
      var actions :| Run(c, start, actions).Some? && Run(c, start, actions).value.dispatcher.Crashed?;
      CrashNamesRequest(c, start, actions);
    }
  }

  lemma CrashNamesRequest(c: Config, start: State, actions: seq<Action>)
    requires Initial(start) && Run(c, start, actions).Some? && Run(c, start, actions).value.dispatcher.Crashed?
    ensures SomeFrontendExposed(c, start)
  {
    InitialInvariant(c, start);
    RunKeepsInvariant(c, start, actions);
    RunKeepsNames(c, start, actions);
    RunKeepsReceivable(c, start, actions);
    var s := Run(c, start, actions).value;
    var job := s.dispatcher.job;
    var p := |s.handled| + |s.responses|;
    assert s.arrived[p] == job && WellLabelled(s.fronts, s.arrived[p]) && Receivable(s.arrived[p].request);
    var name := job.client.frontend;
    assert name in start.fronts && Raising(c.rules, name, job.request);
    ExposedExactly(c.rules, name);
  }
}
