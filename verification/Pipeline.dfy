/**
  * The gateway as a step machine: client handlers, the requests queue, the dispatcher, the
  * responses queue, the responder and the frontend writes. Each await is a step boundary.
  */
module Pipeline {
  import opened Bus
  import opened Bytes
  import opened Frontend
  import Mbap
  import opened Pdu
  import opened PduLaws
  import opened Router

  datatype Client = Client(frontend: string, number: nat)

  /**
    * A request on the bus. `serial` counts the requests its client had sent before, `since` the messages
    * handled before it was sent; nothing branches on either.
    */
  datatype Job = Job(client: Client, serial: nat, since: nat, requestId: string, tid: nat, request: Request)

  /**
    * Fixed for a run: the rule table, the configured backends and the queue size. `answer` is what a
    * backend returns for the rewritten request it is given, None when it raises; it may be anything.
    */
  datatype Config = Config(
    rules: seq<Rule>, backends: set<string>, queueSize: nat, answer: (Job, string, Request) -> Option<Response>)

  datatype Outcome = Answered(response: Response) | NoRoute | BackendNotFound | BackendError

  /** A response on the bus; `job` is the request it carries along. */
  datatype Message = Message(frontend: string, requestId: string, job: Job, outcome: Outcome)

  datatype Dispatcher = Idle | Submitting(job: Job, plan: Plan) | Delivering(message: Message) | Crashed(job: Job)

  datatype Responder = Listening | Draining

  /** A frame handed to a client's writer, and the place among handled messages of the one it carries. */
  datatype Written = Written(position: nat, bytes: seq<byte>)

  datatype Delivery = Delivery(to: Client, bytes: seq<byte>)

  datatype State = State(
    fronts: map<string, Front>,
    blocked: seq<Job>,            // handlers waiting for room in the requests queue
    requests: seq<Job>,
    dispatcher: Dispatcher,
    responses: seq<Message>,
    responder: Responder,
    sent: map<Client, seq<Job>>,  // history: what each client has sent
    arrived: seq<Job>,            // history: what has entered the requests queue
    handled: seq<Message>,        // history: what the responder has taken
    written: map<Client, seq<Written>>)

  datatype Action =
    | Connect(frontend: string)
    | Deny(frontend: string)
    | Arrive(client: Client, tid: nat, request: Request)
    | Put(index: nat)
    | HangUp(client: Client)
    | Close(client: Client)
    | Take
    | SubmitDone
    | Deliver
    | Respond
    | DrainDone

  /** What a history records for one client. */
  function Of<T>(history: map<Client, seq<T>>, k: Client): seq<T> {
    if k in history then history[k] else []
  }

  predicate InPhase(fronts: map<string, Front>, k: Client, phase: Phase) {
    && k.frontend in fronts && k.number in fronts[k.frontend].handlers
    && fronts[k.frontend].handlers[k.number] == phase
  }

  function Reply(job: Job, outcome: Outcome): Message {
    Message(job.client.frontend, job.requestId, job, outcome)
  }

  /** Publishing a response: at once if there is room, else the dispatcher waits. */
  function Offer(c: Config, s: State, m: Message): State {
    if HasRoom(s.responses, c.queueSize) then s.(responses := s.responses + [m], dispatcher := Idle)
    else s.(dispatcher := Delivering(m))
  }

  /** What the dispatcher does with the outcome of the route lookup. */
  function Dispatch(c: Config, s: State, job: Job, route: Resolution): State {
    match route
    case LookupRaised => s.(dispatcher := Crashed(job))
    case Unrouted => Offer(c, s, Reply(job, NoRoute))
    case Routed(plan) =>
      if plan.backend !in c.backends then Offer(c, s, Reply(job, BackendNotFound))
      else s.(dispatcher := Submitting(job, plan))
  }

  /** The backend's answer to the request, rewritten for the plan's unit; an exception becomes an error. */
  function Submit(c: Config, job: Job, plan: Plan): Outcome {
    match c.answer(job, plan.backend, job.request.(unit := plan.unit))
    case Some(response) => Answered(response)
    case None => BackendError
  }

  function RouteOf(c: Config, job: Job): Resolution {
    Resolve(c.rules, QueryOf(job.client.frontend, job.request))
  }

  /** The frame for a response, from the table entry and the backend's answer; errors have none. */
  function FrameFor(entry: Pending, outcome: Outcome): Option<seq<byte>> {
    if !outcome.Answered? then None
    else
      match ResponseToAdu(outcome.response)
      case Err(_) => None
      case Ok(adu) =>
        match Mbap.FrontendFrame(entry.tid, entry.pid, adu)
        case Err(_) => None
        case Ok(frame) => Some(frame)
  }

  /** The table entry a message is for. */
  function EntryFor(fronts: map<string, Front>, m: Message): Option<Pending> {
    if m.frontend in fronts && m.requestId in fronts[m.frontend].pending
    then Some(fronts[m.frontend].pending[m.requestId])
    else None
  }

  /** Whom the message's frame goes to, if one is written: the client the entry belongs to. */
  function DeliveryFor(fronts: map<string, Front>, m: Message): Option<Delivery> {
    match EntryFor(fronts, m)
    case None => None
    case Some(entry) =>
      match FrameFor(entry, m.outcome)
      case None => None
      case Some(frame) => Some(Delivery(Client(m.frontend, entry.client), frame))
  }

  function Popped(fronts: map<string, Front>, m: Message): map<string, Front> {
    if m.frontend in fronts then fronts[m.frontend := OnResponse(fronts[m.frontend], m.requestId)] else fronts
  }

  function Recorded(
      written: map<Client, seq<Written>>, position: nat, delivery: Option<Delivery>): map<Client, seq<Written>> {
    match delivery
    case None => written
    case Some(d) => written[d.to := Of(written, d.to) + [Written(position, d.bytes)]]
  }

  /** The responder takes a message; the frontend drops its entry, answered or not, and writes the frame. */
  function RespondWith(s: State, delivery: Option<Delivery>): State
    requires s.responses != []
  {
    s.(responses := s.responses[1..],
       handled := s.handled + [s.responses[0]],
       fronts := Popped(s.fronts, s.responses[0]),
       written := Recorded(s.written, |s.handled|, delivery),
       responder := if delivery.Some? then Draining else Listening)
  }

  function RemoveAt(jobs: seq<Job>, i: nat): seq<Job>
    requires i < |jobs|
  {
    jobs[..i] + jobs[i + 1..]
  }

  function UpdateFront(s: State, name: string, f: Front): State {
    s.(fronts := s.fronts[name := f])
  }

  function JobFor(s: State, k: Client, tid: nat, request: Request): Job
    requires k.frontend in s.fronts
  {
    var f := s.fronts[k.frontend];
    Job(k, |Of(s.sent, k)|, |s.handled|, RequestId(f.transport, f.name, k.number, tid), tid, request)
  }

  /** A decoded request: note it in the table, then queue it or join the waiting line. */
  function ArriveStep(c: Config, s: State, k: Client, tid: nat, request: Request): State
    requires k.frontend in s.fronts
  {
    var job := JobFor(s, k, tid, request);
    var f := OnRequest(s.fronts[k.frontend], k.number, tid, request.unit);
    var noted := s.(sent := s.sent[k := Of(s.sent, k) + [job]]);
    if HasRoom(s.requests, c.queueSize)
    then UpdateFront(noted, k.frontend, f).(requests := s.requests + [job], arrived := s.arrived + [job])
    else UpdateFront(noted, k.frontend, SetPhase(f, k.number, Publishing)).(blocked := s.blocked + [job])
  }

  /** A waiting handler finds room and goes back to reading. */
  function PutStep(s: State, i: nat): State
    requires i < |s.blocked| && s.blocked[i].client.frontend in s.fronts
  {
    var job := s.blocked[i];
    var name := job.client.frontend;
    UpdateFront(s, name, SetPhase(s.fronts[name], job.client.number, Reading))
      .(blocked := RemoveAt(s.blocked, i), requests := s.requests + [job], arrived := s.arrived + [job])
  }

  function Next(c: Config, s: State, a: Action): Option<State> {
    match a
    case Connect(name) =>
      if name !in s.fronts || Refuses(s.fronts[name]) then None
      else Some(UpdateFront(s, name, Accept(s.fronts[name])))
    case Deny(name) =>
      if name !in s.fronts || !s.fronts[name].transport.TcpSocket? then None
      else Some(UpdateFront(s, name, DenyIdentity(s.fronts[name])))
    case Arrive(k, tid, request) =>
      if !InPhase(s.fronts, k, Reading) || !IsU16(tid) || !Receivable(request) then None
      else Some(ArriveStep(c, s, k, tid, request))
    case Put(i) =>
      if i >= |s.blocked| || !HasRoom(s.requests, c.queueSize) || s.blocked[i].client.frontend !in s.fronts then None
      else Some(PutStep(s, i))
    case HangUp(k) =>
      if !InPhase(s.fronts, k, Reading) then None
      else Some(UpdateFront(s, k.frontend, OnHangUp(s.fronts[k.frontend], k.number)))
    case Close(k) =>
      if !InPhase(s.fronts, k, Closing) then None
      else Some(UpdateFront(s, k.frontend, OnClosed(s.fronts[k.frontend], k.number)))
    case Take =>
      if !s.dispatcher.Idle? || s.requests == [] then None
      else Some(Dispatch(c, s.(requests := s.requests[1..]), s.requests[0], RouteOf(c, s.requests[0])))
    case SubmitDone =>
      if !s.dispatcher.Submitting? then None
      else Some(Offer(c, s, Reply(s.dispatcher.job, Submit(c, s.dispatcher.job, s.dispatcher.plan))))
    case Deliver =>
      if !s.dispatcher.Delivering? || !HasRoom(s.responses, c.queueSize) then None
      else Some(Offer(c, s, s.dispatcher.message))
    case Respond =>
      if !s.responder.Listening? || s.responses == [] then None
      else Some(RespondWith(s, DeliveryFor(s.fronts, s.responses[0])))
    case DrainDone =>
      if !s.responder.Draining? then None else Some(s.(responder := Listening))
  }

  function Run(c: Config, s: State, actions: seq<Action>): Option<State>
    decreases |actions|
  {
    if actions == [] then Some(s)
    else
      match Next(c, s, actions[0])
      case None => None
      case Some(s') => Run(c, s', actions[1..])
  }

  /** Frontends up, nobody connected. */
  predicate Initial(s: State) {
    && (forall name | name in s.fronts :: s.fronts[name] == Create(s.fronts[name].transport, name))
    && s.blocked == [] && s.requests == [] && s.dispatcher == Idle && s.responses == [] && s.responder == Listening
    && s.sent == map[] && s.arrived == [] && s.handled == [] && s.written == map[]
  }

  // ---------------------------------------------------------------------------
  // What each kind of step changes
  // ---------------------------------------------------------------------------

  predicate Connection(a: Action) {
    a.Connect? || a.Deny? || a.HangUp? || a.Close?
  }

  /** The frontend a connection step is about. */
  function Touched(a: Action): string
    requires Connection(a)
  {
    match a
    case Connect(name) => name
    case Deny(name) => name
    case HangUp(k) => k.frontend
    case Close(k) => k.frontend
  }

  function Moved(f: Front, a: Action): Front
    requires Connection(a) && (a.Connect? ==> !Refuses(f))
  {
    match a
    case Connect(_) => Accept(f)
    case Deny(_) => DenyIdentity(f)
    case HangUp(k) => OnHangUp(f, k.number)
    case Close(k) => OnClosed(f, k.number)
  }

  lemma ConnectionIsStep(c: Config, s: State, a: Action)
    requires Connection(a) && Next(c, s, a).Some?
    ensures Touched(a) in s.fronts && (a.Connect? ==> !Refuses(s.fronts[Touched(a)]))
    ensures a.HangUp? ==> InPhase(s.fronts, a.client, Reading)
    ensures a.Close? ==> InPhase(s.fronts, a.client, Closing)
    ensures Next(c, s, a).value == UpdateFront(s, Touched(a), Moved(s.fronts[Touched(a)], a))
  {
  }

  lemma ArriveIsStep(c: Config, s: State, a: Action)
    requires a.Arrive? && Next(c, s, a).Some?
    ensures InPhase(s.fronts, a.client, Reading) && IsU16(a.tid) && Receivable(a.request)
    ensures Next(c, s, a).value == ArriveStep(c, s, a.client, a.tid, a.request)
  {
  }

  lemma PutIsStep(c: Config, s: State, a: Action)
    requires a.Put? && Next(c, s, a).Some?
    ensures a.index < |s.blocked| && HasRoom(s.requests, c.queueSize) && s.blocked[a.index].client.frontend in s.fronts
    ensures Next(c, s, a).value == PutStep(s, a.index)
  {
  }

  lemma RespondIsStep(c: Config, s: State)
    requires Next(c, s, Respond).Some?
    ensures s.responder.Listening? && s.responses != []
    ensures Next(c, s, Respond).value == RespondWith(s, DeliveryFor(s.fronts, s.responses[0]))
  {
  }

  predicate Dispatching(a: Action) {
    a.Take? || a.SubmitDone? || a.Deliver?
  }

  lemma DispatchFrame(c: Config, s: State, job: Job, route: Resolution)
    ensures var s' := Dispatch(c, s, job, route);
            s' == s.(dispatcher := s'.dispatcher, responses := s'.responses)
  {
  }

  /** The dispatcher's own steps leave the frontends, the responder and the histories alone. */
  lemma DispatchingFrame(c: Config, s: State, a: Action)
    requires Dispatching(a) && Next(c, s, a).Some?
    ensures var s' := Next(c, s, a).value;
            s' == s.(requests := s'.requests, dispatcher := s'.dispatcher, responses := s'.responses)
  {
    if a.Take? {
      DispatchFrame(c, s.(requests := s.requests[1..]), s.requests[0], RouteOf(c, s.requests[0]));
    }
  }
}
