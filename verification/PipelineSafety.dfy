/** What every run of the pipeline keeps: conservation, order, matching and isolation. */
module PipelineSafety {
  import opened Bus
  import opened Bytes
  import opened Frontend
  import Mbap
  import opened Pdu
  import opened Pipeline
  import opened Router

  // ---------------------------------------------------------------------------
  // Sequences of jobs
  // ---------------------------------------------------------------------------

  function JobsOf(messages: seq<Message>): (jobs: seq<Job>)
    ensures |jobs| == |messages|
  {
    seq(|messages|, i requires 0 <= i < |messages| => messages[i].job)
  }

  function From(jobs: seq<Job>, k: Client): seq<Job> {
    if jobs == [] then [] else (if jobs[0].client == k then [jobs[0]] else []) + From(jobs[1..], k)
  }

  lemma {:induction false} FromAppend(a: seq<Job>, b: seq<Job>, k: Client)
    ensures From(a + b, k) == From(a, k) + From(b, k)
    decreases |a|
  {
    if a == [] {
      assert a + b == b;
    } else {
      assert (a + b)[1..] == a[1..] + b;
      FromAppend(a[1..], b, k);
    }
  }

  lemma FromOne(job: Job, k: Client)
    ensures From([job], k) == if job.client == k then [job] else []
  {
    assert [job][1..] == [];
  }

  lemma FromSnoc(jobs: seq<Job>, job: Job, k: Client)
    ensures From(jobs + [job], k) == if job.client == k then From(jobs, k) + [job] else From(jobs, k)
  {
    FromAppend(jobs, [job], k);
    FromOne(job, k);
  }

  lemma FromSplit(jobs: seq<Job>, i: nat, k: Client)
    requires i < |jobs|
    ensures From(jobs, k) ==
            From(jobs[..i], k) + (if jobs[i].client == k then [jobs[i]] else []) + From(jobs[i + 1..], k)
    ensures From(RemoveAt(jobs, i), k) == From(jobs[..i], k) + From(jobs[i + 1..], k)
  {
    assert jobs == jobs[..i] + [jobs[i]] + jobs[i + 1..];
    FromAppend(jobs[..i] + [jobs[i]], jobs[i + 1..], k);
    FromAppend(jobs[..i], [jobs[i]], k);
    FromOne(jobs[i], k);
    FromAppend(jobs[..i], jobs[i + 1..], k);
  }

  /** How many earlier jobs of the same client precede position `a`. */
  function Rank(jobs: seq<Job>, a: nat): nat
    requires a < |jobs|
  {
    |From(jobs[..a], jobs[a].client)|
  }

  lemma RankIndexes(jobs: seq<Job>, a: nat)
    requires a < |jobs|
    ensures var mine := From(jobs, jobs[a].client); Rank(jobs, a) < |mine| && mine[Rank(jobs, a)] == jobs[a]
  {
    FromSplit(jobs, a, jobs[a].client);
  }

  lemma RankIncreases(jobs: seq<Job>, a: nat, b: nat)
    requires a < b < |jobs| && jobs[a].client == jobs[b].client
    ensures Rank(jobs, a) < Rank(jobs, b)
  {
    FromSplit(jobs[..b], a, jobs[a].client);
    assert jobs[..b][..a] == jobs[..a];
  }

  // ---------------------------------------------------------------------------
  // The invariant, part by part
  // ---------------------------------------------------------------------------

  function DispatcherJobs(d: Dispatcher): seq<Job> {
    match d
    case Idle => []
    case Submitting(job, _) => [job]
    case Delivering(m) => [m.job]
    case Crashed(job) => [job]
  }

  ghost predicate FrontsOk(fronts: map<string, Front>) {
    forall name | name in fronts :: fronts[name].name == name && FrontInvariant(fronts[name])
  }

  /** Every request that entered the queue is in exactly one place downstream, in arrival order. */
  predicate Conserved(
      arrived: seq<Job>, handled: seq<Message>, responses: seq<Message>, dispatcher: Dispatcher, requests: seq<Job>) {
    arrived == JobsOf(handled) + JobsOf(responses) + DispatcherJobs(dispatcher) + requests
  }

  predicate WellLabelled(fronts: map<string, Front>, job: Job) {
    && job.client.frontend in fronts
    && (var f := fronts[job.client.frontend];
        job.requestId == RequestId(f.transport, f.name, job.client.number, job.tid))
  }

  ghost predicate JobsLabelled(fronts: map<string, Front>, jobs: seq<Job>) {
    forall i | 0 <= i < |jobs| :: WellLabelled(fronts, jobs[i])
  }

  /** What a request is to be answered with: a function of the request and the configuration alone. */
  function OutcomeOf(c: Config, job: Job): Option<Outcome> {
    match RouteOf(c, job)
    case LookupRaised => None
    case Unrouted => Some(NoRoute)
    case Routed(plan) => Some(if plan.backend in c.backends then Submit(c, job, plan) else BackendNotFound)
  }

  predicate Faithful(c: Config, m: Message) {
    m == Reply(m.job, m.outcome) && OutcomeOf(c, m.job) == Some(m.outcome)
  }

  ghost predicate AllFaithful(c: Config, messages: seq<Message>) {
    forall i | 0 <= i < |messages| :: Faithful(c, messages[i])
  }

  predicate DispatcherOk(c: Config, d: Dispatcher) {
    match d
    case Idle => true
    case Submitting(job, plan) => RouteOf(c, job) == Routed(plan) && plan.backend in c.backends
    case Delivering(m) => Faithful(c, m)
    case Crashed(job) => RouteOf(c, job) == LookupRaised
  }

  predicate Publishes(f: Front, n: nat) {
    n in f.handlers && f.handlers[n] == Publishing
  }

  predicate Waits(fronts: map<string, Front>, k: Client) {
    k.frontend in fronts && Publishes(fronts[k.frontend], k.number)
  }

  /** A handler waits for room exactly while its one request is in the waiting line. */
  ghost predicate BlockedOk(fronts: map<string, Front>, blocked: seq<Job>) {
    forall k :: |From(blocked, k)| == if Waits(fronts, k) then 1 else 0
  }

  ghost predicate Numbered(jobs: seq<Job>) {
    forall i | 0 <= i < |jobs| :: jobs[i].serial == i
  }

  /** One client's requests: those that arrived, then the one waiting, numbered in the order sent. */
  ghost predicate SentBy(k: Client, mine: seq<Job>, arrived: seq<Job>, blocked: seq<Job>) {
    mine == From(arrived, k) + From(blocked, k) && Numbered(mine)
  }

  ghost predicate SentOk(sent: map<Client, seq<Job>>, arrived: seq<Job>, blocked: seq<Job>) {
    forall k :: SentBy(k, Of(sent, k), arrived, blocked)
  }

  /** The frame an answer to `job` travels in. */
  function AnswerFrame(job: Job, outcome: Outcome): Option<seq<byte>> {
    FrameFor(Pending(job.tid, 0, 0, 0), outcome)
  }

  predicate Carries(handled: seq<Message>, k: Client, w: Written) {
    && w.position < |handled|
    && handled[w.position].job.client == k
    && AnswerFrame(handled[w.position].job, handled[w.position].outcome) == Some(w.bytes)
  }

  /** One client's frames: each carries the answer to a request of its own, in the order handled. */
  ghost predicate FramesOk(frames: seq<Written>, handled: seq<Message>, k: Client) {
    && (forall i | 0 <= i < |frames| :: Carries(handled, k, frames[i]))
    && (forall i, j | 0 <= i < j < |frames| :: frames[i].position < frames[j].position)
  }

  ghost predicate WrittenOk(written: map<Client, seq<Written>>, handled: seq<Message>) {
    forall k :: FramesOk(Of(written, k), handled, k)
  }

  ghost predicate TablesOk(fronts: map<string, Front>, arrived: seq<Job>, blocked: seq<Job>) {
    && FrontsOk(fronts)
    && JobsLabelled(fronts, arrived) && JobsLabelled(fronts, blocked)
    && BlockedOk(fronts, blocked)
  }

  ghost predicate QueuesOk(
      c: Config, arrived: seq<Job>, handled: seq<Message>, responses: seq<Message>,
      dispatcher: Dispatcher, requests: seq<Job>) {
    && Conserved(arrived, handled, responses, dispatcher, requests)
    && AllFaithful(c, handled) && AllFaithful(c, responses) && DispatcherOk(c, dispatcher)
  }

  ghost predicate Invariant(c: Config, s: State) {
    && TablesOk(s.fronts, s.arrived, s.blocked)
    && QueuesOk(c, s.arrived, s.handled, s.responses, s.dispatcher, s.requests)
    && SentOk(s.sent, s.arrived, s.blocked)
    && WrittenOk(s.written, s.handled)
  }

  lemma InitialInvariant(c: Config, s: State)
    requires Initial(s)
    ensures Invariant(c, s)
  {
    forall name | name in s.fronts
      ensures FrontInvariant(s.fronts[name])
    {
      CreateInvariant(s.fronts[name].transport, name);
    }
    forall k
      ensures !Waits(s.fronts, k)
    {
    }
    assert BlockedOk(s.fronts, s.blocked);
    assert Conserved(s.arrived, s.handled, s.responses, s.dispatcher, s.requests);
    assert FrontsOk(s.fronts);
    assert SentOk(s.sent, s.arrived, s.blocked);
    assert WrittenOk(s.written, s.handled);
  }

  // ---------------------------------------------------------------------------
  // A change of one frontend
  // ---------------------------------------------------------------------------

  ghost predicate SameNames(fronts: map<string, Front>, after: map<string, Front>) {
    forall name | name in fronts ::
      name in after && after[name].name == fronts[name].name && after[name].transport == fronts[name].transport
  }

  /** `g` is `f` after a step of client `n`, whose handler waits for room afterwards or does not. */
  ghost predicate Updates(f: Front, g: Front, n: nat, waits: bool) {
    && g.name == f.name && g.transport == f.transport && FrontInvariant(g)
    && (forall m :: Publishes(g, m) == if m == n then waits else Publishes(f, m))
  }

  lemma UpdateFronts(fronts: map<string, Front>, k: Client, g: Front, waits: bool)
    requires FrontsOk(fronts) && k.frontend in fronts && Updates(fronts[k.frontend], g, k.number, waits)
    ensures FrontsOk(fronts[k.frontend := g]) && SameNames(fronts, fronts[k.frontend := g])
    ensures forall j :: Waits(fronts[k.frontend := g], j) == if j == k then waits else Waits(fronts, j)
  {
    forall j
      ensures Waits(fronts[k.frontend := g], j) == if j == k then waits else Waits(fronts, j)
    {
      if j.frontend == k.frontend {
        assert j == k <==> j.number == k.number;
        assert Publishes(g, j.number) == if j == k then waits else Publishes(fronts[k.frontend], j.number);
      }
    }
  }

  lemma LabelsSurvive(fronts: map<string, Front>, after: map<string, Front>, jobs: seq<Job>)
    requires SameNames(fronts, after) && JobsLabelled(fronts, jobs)
    ensures JobsLabelled(after, jobs)
  {
    forall i | 0 <= i < |jobs|
      ensures WellLabelled(after, jobs[i])
    {
      assert WellLabelled(fronts, jobs[i]);
    }
  }

  lemma LabelsAppend(fronts: map<string, Front>, jobs: seq<Job>, job: Job)
    requires JobsLabelled(fronts, jobs) && WellLabelled(fronts, job)
    ensures JobsLabelled(fronts, jobs + [job])
  {
  }

  lemma TablesSurvive(fronts: map<string, Front>, after: map<string, Front>, arrived: seq<Job>, blocked: seq<Job>)
    requires TablesOk(fronts, arrived, blocked) && FrontsOk(after) && SameNames(fronts, after)
    requires forall k :: Waits(after, k) == Waits(fronts, k)
    ensures TablesOk(after, arrived, blocked)
  {
    LabelsSurvive(fronts, after, arrived);
    LabelsSurvive(fronts, after, blocked);
  }

  lemma FrontStepKeeps(c: Config, s: State, k: Client, g: Front)
    requires Invariant(c, s) && k.frontend in s.fronts
    requires Updates(s.fronts[k.frontend], g, k.number, Waits(s.fronts, k))
    ensures Invariant(c, UpdateFront(s, k.frontend, g))
  {
    UpdateFronts(s.fronts, k, g, Waits(s.fronts, k));
    TablesSurvive(s.fronts, s.fronts[k.frontend := g], s.arrived, s.blocked);
  }

  lemma AcceptUpdates(f: Front)
    requires FrontInvariant(f)
    ensures !Refuses(f) ==> Updates(f, Accept(f), f.counter + 1, false)
    ensures Updates(f, DenyIdentity(f), f.counter + 1, false)
    ensures !Publishes(f, f.counter + 1)
  {
    if !Refuses(f) {
      AcceptKeeps(f);
    }
  }

  lemma LeaveUpdates(f: Front, n: nat)
    requires FrontInvariant(f) && n in f.handlers
    ensures f.handlers[n] == Reading ==> Updates(f, OnHangUp(f, n), n, false)
    ensures f.handlers[n] == Closing ==> Updates(f, OnClosed(f, n), n, false)
  {
    if f.handlers[n] == Reading {
      HangUpKeeps(f, n);
    } else if f.handlers[n] == Closing {
      ClosedKeeps(f, n);
    }
  }

  // ---------------------------------------------------------------------------
  // Steps of the dispatcher
  // ---------------------------------------------------------------------------

  lemma JobsOfAppend(messages: seq<Message>, m: Message)
    ensures JobsOf(messages + [m]) == JobsOf(messages) + [m.job]
  {
  }

  lemma JobsOfFirst(messages: seq<Message>)
    requires messages != []
    ensures JobsOf(messages) == [messages[0].job] + JobsOf(messages[1..])
  {
  }

  lemma OfferedQueues(
      c: Config, arrived: seq<Job>, handled: seq<Message>, responses: seq<Message>,
      d: Dispatcher, requests: seq<Job>, m: Message)
    requires QueuesOk(c, arrived, handled, responses, d, requests) && DispatcherJobs(d) == [m.job] && Faithful(c, m)
    ensures QueuesOk(c, arrived, handled, responses + [m], Idle, requests)
    ensures QueuesOk(c, arrived, handled, responses, Delivering(m), requests)
  {
    JobsOfAppend(responses, m);
  }

  lemma OfferKeeps(c: Config, s: State, m: Message)
    requires DispatcherJobs(s.dispatcher) == [m.job] && Invariant(c, s) && Faithful(c, m)
    ensures Invariant(c, Offer(c, s, m))
  {
    OfferedQueues(c, s.arrived, s.handled, s.responses, s.dispatcher, s.requests, m);
  }

  /** The dispatcher takes the oldest request and holds it as `d`. */
  function Taken(s: State, d: Dispatcher): State
    requires s.requests != []
  {
    s.(requests := s.requests[1..], dispatcher := d)
  }

  lemma TakenKeeps(c: Config, s: State, d: Dispatcher)
    requires Invariant(c, s) && s.requests != [] && s.dispatcher == Idle
    requires DispatcherJobs(d) == [s.requests[0]] && DispatcherOk(c, d)
    ensures Invariant(c, Taken(s, d))
  {
    assert s.requests == [s.requests[0]] + s.requests[1..];
  }

  lemma DispatchKeeps(c: Config, s: State)
    requires Invariant(c, s) && s.requests != [] && s.dispatcher == Idle
    ensures Invariant(c, Dispatch(c, s.(requests := s.requests[1..]), s.requests[0], RouteOf(c, s.requests[0])))
  {
    var job, popped := s.requests[0], s.(requests := s.requests[1..]);
    match RouteOf(c, job)
    case LookupRaised =>
      TakenKeeps(c, s, Crashed(job));
    case Unrouted =>
      RefuseKeeps(c, s, NoRoute);
    case Routed(plan) =>
      if plan.backend in c.backends {
        TakenKeeps(c, s, Submitting(job, plan));
      } else {
        RefuseKeeps(c, s, BackendNotFound);
      }
  }

  lemma RefuseKeeps(c: Config, s: State, refusal: Outcome)
    requires Invariant(c, s) && s.requests != [] && s.dispatcher == Idle
    requires OutcomeOf(c, s.requests[0]) == Some(refusal)
    ensures Invariant(c, Offer(c, s.(requests := s.requests[1..]), Reply(s.requests[0], refusal)))
  {
    var m, popped := Reply(s.requests[0], refusal), s.(requests := s.requests[1..]);
    TakenKeeps(c, s, Delivering(m));
    OfferKeeps(c, Taken(s, Delivering(m)), m);
    assert Offer(c, popped, m) == Offer(c, Taken(s, Delivering(m)), m);
  }

  // ---------------------------------------------------------------------------
  // Requests coming in
  // ---------------------------------------------------------------------------

  lemma Enqueued(
      c: Config, arrived: seq<Job>, handled: seq<Message>, responses: seq<Message>,
      d: Dispatcher, requests: seq<Job>, job: Job)
    requires QueuesOk(c, arrived, handled, responses, d, requests)
    ensures QueuesOk(c, arrived + [job], handled, responses, d, requests + [job])
  {
  }

  lemma BlockedFrom(fronts: map<string, Front>, blocked: seq<Job>, i: nat, k: Client)
    requires BlockedOk(fronts, blocked) && i < |blocked|
    ensures Waits(fronts, blocked[i].client)
    ensures k == blocked[i].client ==> From(blocked, k) == [blocked[i]] && From(RemoveAt(blocked, i), k) == []
    ensures k != blocked[i].client ==> From(RemoveAt(blocked, i), k) == From(blocked, k)
  {
    FromSplit(blocked, i, k);
    FromSplit(blocked, i, blocked[i].client);
  }

  lemma PutSends(k: Client, mine: seq<Job>, arrived: seq<Job>, fronts: map<string, Front>, blocked: seq<Job>, i: nat)
    requires SentBy(k, mine, arrived, blocked) && BlockedOk(fronts, blocked) && i < |blocked|
    ensures SentBy(k, mine, arrived + [blocked[i]], RemoveAt(blocked, i))
  {
    BlockedFrom(fronts, blocked, i, k);
    FromSnoc(arrived, blocked[i], k);
  }

  lemma PutKeepsSent(
      sent: map<Client, seq<Job>>, arrived: seq<Job>, fronts: map<string, Front>, blocked: seq<Job>, i: nat)
    requires SentOk(sent, arrived, blocked) && BlockedOk(fronts, blocked) && i < |blocked|
    ensures SentOk(sent, arrived + [blocked[i]], RemoveAt(blocked, i))
  {
    forall k
      ensures SentBy(k, Of(sent, k), arrived + [blocked[i]], RemoveAt(blocked, i))
    {
      PutSends(k, Of(sent, k), arrived, fronts, blocked, i);
    }
  }

  lemma PutKeepsBlocked(fronts: map<string, Front>, after: map<string, Front>, blocked: seq<Job>, i: nat)
    requires BlockedOk(fronts, blocked) && i < |blocked|
    requires forall j :: Waits(after, j) == if j == blocked[i].client then false else Waits(fronts, j)
    ensures BlockedOk(after, RemoveAt(blocked, i))
  {
    forall k
      ensures |From(RemoveAt(blocked, i), k)| == if Waits(after, k) then 1 else 0
    {
      BlockedFrom(fronts, blocked, i, k);
    }
  }

  lemma PutKeepsTables(fronts: map<string, Front>, arrived: seq<Job>, blocked: seq<Job>, i: nat)
    requires TablesOk(fronts, arrived, blocked) && i < |blocked| && blocked[i].client.frontend in fronts
    ensures var k := blocked[i].client;
            var after := fronts[k.frontend := SetPhase(fronts[k.frontend], k.number, Reading)];
            TablesOk(after, arrived + [blocked[i]], RemoveAt(blocked, i))
  {
    var job := blocked[i];
    var k, f := job.client, fronts[job.client.frontend];
    var after := fronts[k.frontend := SetPhase(f, k.number, Reading)];
    BlockedFrom(fronts, blocked, i, k);
    PhaseKeeps(f, k.number, Reading);
    UpdateFronts(fronts, k, SetPhase(f, k.number, Reading), false);
    LabelsAppend(fronts, arrived, job);
    LabelsSurvive(fronts, after, arrived + [job]);
    LabelsSurvive(fronts, after, RemoveAt(blocked, i));
    PutKeepsBlocked(fronts, after, blocked, i);
  }

  lemma PutKeeps(c: Config, s: State, i: nat)
    requires Invariant(c, s) && i < |s.blocked| && s.blocked[i].client.frontend in s.fronts
    ensures Invariant(c, PutStep(s, i))
  {
    PutKeepsTables(s.fronts, s.arrived, s.blocked, i);
    PutKeepsSent(s.sent, s.arrived, s.fronts, s.blocked, i);
    Enqueued(c, s.arrived, s.handled, s.responses, s.dispatcher, s.requests, s.blocked[i]);
  }

  lemma NumberedAppend(jobs: seq<Job>, job: Job)
    requires Numbered(jobs) && job.serial == |jobs|
    ensures Numbered(jobs + [job])
  {
  }

  lemma ArriveSends(k: Client, mine: seq<Job>, arrived: seq<Job>, blocked: seq<Job>, job: Job)
    requires SentBy(k, mine, arrived, blocked)
    requires job.client == k ==> From(blocked, k) == [] && job.serial == |mine|
    ensures var now := if job.client == k then mine + [job] else mine;
            SentBy(k, now, arrived + [job], blocked) && SentBy(k, now, arrived, blocked + [job])
  {
    FromSnoc(arrived, job, k);
    FromSnoc(blocked, job, k);
    if job.client == k {
      NumberedAppend(mine, job);
    }
  }

  lemma ArriveKeepsSent(sent: map<Client, seq<Job>>, arrived: seq<Job>, blocked: seq<Job>, job: Job)
    requires SentOk(sent, arrived, blocked) && From(blocked, job.client) == [] && job.serial == |Of(sent, job.client)|
    ensures SentOk(sent[job.client := Of(sent, job.client) + [job]], arrived + [job], blocked)
    ensures SentOk(sent[job.client := Of(sent, job.client) + [job]], arrived, blocked + [job])
  {
    var after := sent[job.client := Of(sent, job.client) + [job]];
    forall k
      ensures SentBy(k, Of(after, k), arrived + [job], blocked) && SentBy(k, Of(after, k), arrived, blocked + [job])
    {
      ArriveSends(k, Of(sent, k), arrived, blocked, job);
    }
  }

  lemma ArriveKeepsBlocked(fronts: map<string, Front>, after: map<string, Front>, blocked: seq<Job>, job: Job)
    requires BlockedOk(fronts, blocked) && !Waits(fronts, job.client)
    requires forall j :: Waits(after, j) == if j == job.client then true else Waits(fronts, j)
    ensures BlockedOk(after, blocked + [job])
  {
    forall k
      ensures |From(blocked + [job], k)| == if Waits(after, k) then 1 else 0
    {
      FromSnoc(blocked, job, k);
    }
  }

  lemma ArriveKeepsTables(
      fronts: map<string, Front>, arrived: seq<Job>, blocked: seq<Job>, job: Job, g: Front, waits: bool)
    requires TablesOk(fronts, arrived, blocked) && WellLabelled(fronts, job) && !Waits(fronts, job.client)
    requires Updates(fronts[job.client.frontend], g, job.client.number, waits)
    ensures !waits ==> TablesOk(fronts[job.client.frontend := g], arrived + [job], blocked)
    ensures waits ==> TablesOk(fronts[job.client.frontend := g], arrived, blocked + [job])
  {
    var after := fronts[job.client.frontend := g];
    UpdateFronts(fronts, job.client, g, waits);
    LabelsSurvive(fronts, after, arrived);
    LabelsSurvive(fronts, after, blocked);
    if waits {
      LabelsAppend(after, blocked, job);
      ArriveKeepsBlocked(fronts, after, blocked, job);
    } else {
      LabelsAppend(after, arrived, job);
    }
  }

  lemma ArriveUpdates(f: Front, n: nat, tid: nat, unit: int)
    requires FrontInvariant(f) && n in f.handlers && f.handlers[n] == Reading
    ensures Updates(f, OnRequest(f, n, tid, unit), n, false)
    ensures Updates(f, SetPhase(OnRequest(f, n, tid, unit), n, Publishing), n, true)
  {
    RequestKeeps(f, n, tid, unit);
    PhaseKeeps(OnRequest(f, n, tid, unit), n, Publishing);
  }

  lemma ArriveKeeps(c: Config, s: State, k: Client, tid: nat, request: Request)
    requires Invariant(c, s) && InPhase(s.fronts, k, Reading)
    ensures Invariant(c, ArriveStep(c, s, k, tid, request))
  {
    var job, f, room := JobFor(s, k, tid, request), s.fronts[k.frontend], HasRoom(s.requests, c.queueSize);
    var noted := OnRequest(f, k.number, tid, request.unit);
    ArriveUpdates(f, k.number, tid, request.unit);
    assert From(s.blocked, k) == [];
    ArriveKeepsSent(s.sent, s.arrived, s.blocked, job);
    if room {
      ArriveKeepsTables(s.fronts, s.arrived, s.blocked, job, noted, false);
      Enqueued(c, s.arrived, s.handled, s.responses, s.dispatcher, s.requests, job);
    } else {
      ArriveKeepsTables(s.fronts, s.arrived, s.blocked, job, SetPhase(noted, k.number, Publishing), true);
    }
  }

  // ---------------------------------------------------------------------------
  // Responses going out
  // ---------------------------------------------------------------------------

  /** What is written for a message goes to the client of the message's own job, as that job's answer. */
  lemma DeliveryIsAnswer(fronts: map<string, Front>, m: Message)
    requires FrontsOk(fronts) && m == Reply(m.job, m.outcome) && WellLabelled(fronts, m.job)
    ensures DeliveryFor(fronts, m) ==
            if EntryFor(fronts, m).None? || AnswerFrame(m.job, m.outcome).None? then None
            else Some(Delivery(m.job.client, AnswerFrame(m.job, m.outcome).value))
  {
    if EntryFor(fronts, m).Some? {
      var f, entry := fronts[m.frontend], EntryFor(fronts, m).value;
      RequestIdInjective(f.transport, f.name, entry.client, entry.tid, m.job.client.number, m.job.tid);
    }
  }

  lemma OldestResponse(c: Config, s: State)
    requires Invariant(c, s) && s.responses != []
    ensures |s.handled| < |s.arrived| && s.arrived[|s.handled|] == s.responses[0].job
    ensures WellLabelled(s.fronts, s.responses[0].job) && Faithful(c, s.responses[0])
  {
    JobsOfFirst(s.responses);
    assert s.arrived[|s.handled|] == s.responses[0].job;
  }

  lemma RespondedQueues(
      c: Config, arrived: seq<Job>, handled: seq<Message>, responses: seq<Message>, d: Dispatcher, requests: seq<Job>)
    requires QueuesOk(c, arrived, handled, responses, d, requests) && responses != []
    ensures QueuesOk(c, arrived, handled + [responses[0]], responses[1..], d, requests)
  {
    JobsOfFirst(responses);
    JobsOfAppend(handled, responses[0]);
  }

  lemma PoppedKeeps(fronts: map<string, Front>, m: Message)
    requires FrontsOk(fronts) && m.frontend in fronts
    ensures FrontsOk(Popped(fronts, m)) && SameNames(fronts, Popped(fronts, m))
    ensures forall k :: Waits(Popped(fronts, m), k) == Waits(fronts, k)
  {
    ResponseKeeps(fronts[m.frontend], m.requestId);
  }

  /** Frames stay right when one more message has been handled. */
  lemma FramesSurvive(frames: seq<Written>, handled: seq<Message>, k: Client, m: Message)
    requires FramesOk(frames, handled, k)
    ensures FramesOk(frames, handled + [m], k)
  {
    forall i | 0 <= i < |frames|
      ensures Carries(handled + [m], k, frames[i])
    {
      assert Carries(handled, k, frames[i]);
    }
  }

  lemma FramesAppend(frames: seq<Written>, handled: seq<Message>, m: Message, bytes: seq<byte>)
    requires FramesOk(frames, handled, m.job.client) && AnswerFrame(m.job, m.outcome) == Some(bytes)
    ensures FramesOk(frames + [Written(|handled|, bytes)], handled + [m], m.job.client)
  {
    var w := Written(|handled|, bytes);
    FramesSurvive(frames, handled, m.job.client, m);
    assert Carries(handled + [m], m.job.client, w);
    forall i | 0 <= i < |frames|
      ensures Carries(handled, m.job.client, frames[i])
    {
    }
  }

  lemma RespondKeepsWritten(
      written: map<Client, seq<Written>>, handled: seq<Message>, m: Message, delivery: Option<Delivery>)
    requires WrittenOk(written, handled)
    requires delivery.Some? ==>
               AnswerFrame(m.job, m.outcome) == Some(delivery.value.bytes) && delivery.value.to == m.job.client
    ensures WrittenOk(Recorded(written, |handled|, delivery), handled + [m])
  {
    forall k
      ensures FramesOk(Of(Recorded(written, |handled|, delivery), k), handled + [m], k)
    {
      assert FramesOk(Of(written, k), handled, k);
      if delivery.Some? && k == m.job.client {
        FramesAppend(Of(written, k), handled, m, delivery.value.bytes);
      } else {
        FramesSurvive(Of(written, k), handled, k, m);
      }
    }
  }

  lemma RespondKeeps(c: Config, s: State, delivery: Option<Delivery>)
    requires Invariant(c, s) && s.responses != [] && delivery == DeliveryFor(s.fronts, s.responses[0])
    ensures Invariant(c, RespondWith(s, delivery))
  {
    var m := s.responses[0];
    OldestResponse(c, s);
    DeliveryIsAnswer(s.fronts, m);
    RespondedQueues(c, s.arrived, s.handled, s.responses, s.dispatcher, s.requests);
    PoppedKeeps(s.fronts, m);
    TablesSurvive(s.fronts, Popped(s.fronts, m), s.arrived, s.blocked);
    RespondKeepsWritten(s.written, s.handled, m, delivery);
  }

  // ---------------------------------------------------------------------------
  // Every run
  // ---------------------------------------------------------------------------

  lemma ConnectionKeeps(c: Config, s: State, a: Action)
    requires Invariant(c, s) && Connection(a) && Next(c, s, a).Some?
    ensures Invariant(c, Next(c, s, a).value)
  {
    match a
    case Connect(name) =>
      AcceptUpdates(s.fronts[name]);
      FrontStepKeeps(c, s, Client(name, s.fronts[name].counter + 1), Accept(s.fronts[name]));
    case Deny(name) =>
      AcceptUpdates(s.fronts[name]);
      FrontStepKeeps(c, s, Client(name, s.fronts[name].counter + 1), DenyIdentity(s.fronts[name]));
    case HangUp(k) =>
      LeaveUpdates(s.fronts[k.frontend], k.number);
      FrontStepKeeps(c, s, k, OnHangUp(s.fronts[k.frontend], k.number));
    case Close(k) =>
      LeaveUpdates(s.fronts[k.frontend], k.number);
      FrontStepKeeps(c, s, k, OnClosed(s.fronts[k.frontend], k.number));
  }

  lemma NextKeepsInvariant(c: Config, s: State, a: Action)
    requires Invariant(c, s) && Next(c, s, a).Some?
    ensures Invariant(c, Next(c, s, a).value)
  {
    if Connection(a) {
      ConnectionKeeps(c, s, a);
    } else if a.Arrive? {
      ArriveIsStep(c, s, a);
      ArriveKeeps(c, s, a.client, a.tid, a.request);
    } else if a.Put? {
      PutIsStep(c, s, a);
      PutKeeps(c, s, a.index);
    } else if a.Respond? {
      RespondIsStep(c, s);
      RespondKeeps(c, s, DeliveryFor(s.fronts, s.responses[0]));
    } else {
      match a
      case Take => DispatchKeeps(c, s);
      case SubmitDone => OfferKeeps(c, s, Reply(s.dispatcher.job, Submit(c, s.dispatcher.job, s.dispatcher.plan)));
      case Deliver => OfferKeeps(c, s, s.dispatcher.message);
      case DrainDone =>
    }
  }

  lemma {:induction false} RunKeepsInvariant(c: Config, s: State, actions: seq<Action>)
    requires Invariant(c, s) && Run(c, s, actions).Some?
    ensures Invariant(c, Run(c, s, actions).value)
    decreases |actions|
  {
    if actions != [] {
      NextKeepsInvariant(c, s, actions[0]);
      RunKeepsInvariant(c, Next(c, s, actions[0]).value, actions[1..]);
    }
  }
}
