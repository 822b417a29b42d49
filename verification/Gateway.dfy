/** The dispatcher and responder tasks as objects on the shared bus; each method is one pipeline step. */
module Gateway {
  import opened Bus
  import opened Bytes
  import opened Frontend
  import Mbap
  import opened Pdu
  import opened Pipeline
  import opened Router

  datatype Item = RequestItem(job: Job) | ResponseItem(message: Message)

  function RequestItems(jobs: seq<Job>): (items: seq<Item>)
    ensures |items| == |jobs|
  {
    seq(|jobs|, i requires 0 <= i < |jobs| => RequestItem(jobs[i]))
  }

  function ResponseItems(messages: seq<Message>): (items: seq<Item>)
    ensures |items| == |messages|
  {
    seq(|messages|, i requires 0 <= i < |messages| => ResponseItem(messages[i]))
  }

  /** The bus holds exactly these two queues. */
  ghost predicate Carries(bus: GatewayBus<Item>, requests: seq<Job>, responses: seq<Message>)
    reads bus
  {
    bus.Queue("requests") == RequestItems(requests) && bus.Queue("responses") == ResponseItems(responses)
  }

  class DispatcherTask {
    const config: Config
    const bus: GatewayBus<Item>
    var state: Dispatcher

    constructor (config: Config, bus: GatewayBus<Item>)
      ensures this.config == config && this.bus == bus && state == Idle
    {
      this.config, this.bus, state := config, bus, Idle;
    }

    ghost predicate Shows(s: State)
      reads this, bus
    {
      Carries(bus, s.requests, s.responses) && state == s.dispatcher && bus.queueSize == config.queueSize
    }

    /** Publishes a response, or is left waiting for room with it in hand. */
    method Publish(m: Message, ghost s: State)
      requires Carries(bus, s.requests, s.responses) && bus.queueSize == config.queueSize
      modifies this, bus
      ensures Shows(Offer(config, s, m))
    {
      var accepted := bus.Publish("responses", ResponseItem(m));
      state := if accepted then Idle else Delivering(m);
      assert ResponseItems(s.responses + [m]) == ResponseItems(s.responses) + [ResponseItem(m)];
    }

    /** From the next message on the bus up to the first wait; nothing happens while there is no message. */
    method RunOnce(ghost s: State)
      requires Shows(s) && state.Idle?
      modifies this, bus
      ensures var next := Next(config, s, Take); Shows(if next.Some? then next.value else s)
    {
      var item := bus.Get("requests");
      if item.None? {
        return;
      }
      ghost var popped := s.(requests := s.requests[1..]);
      assert RequestItems(s.requests)[1..] == RequestItems(s.requests[1..]);
      var job := item.value.job;
      var route := Resolve(config.rules, QueryOf(job.client.frontend, job.request));
      match route
      case LookupRaised => state := Crashed(job);
      case Unrouted => Publish(Reply(job, NoRoute), popped);
      case Routed(plan) =>
        if plan.backend !in config.backends {
          Publish(Reply(job, BackendNotFound), popped);
        } else {
          state := Submitting(job, plan);
        }
    }

    /** The backend has come back, with a response or an exception. */
    method SubmitDone(ghost s: State)
      requires Shows(s) && state.Submitting?
      modifies this, bus
      ensures Next(config, s, Action.SubmitDone).Some? && Shows(Next(config, s, Action.SubmitDone).value)
    {
      var job, plan := state.job, state.plan;
      var response := config.answer(job, plan.backend, job.request.(unit := plan.unit));
      Publish(Reply(job, if response.Some? then Answered(response.value) else BackendError), s);
    }

    /** Tries again to publish the response in hand. */
    method Deliver(ghost s: State)
      requires Shows(s) && state.Delivering?
      modifies this, bus
      ensures var next := Next(config, s, Action.Deliver); Shows(if next.Some? then next.value else s)
    {
      Publish(state.message, s);
    }
  }

  /** A frontend takes the entry out of its table, then encodes the frame if there is one to write. */
  method HandleResponse(table: FrontendTable, m: Message) returns (delivery: Option<Delivery>)
    requires table.name == m.frontend
    modifies table
    ensures table.View() == OnResponse(old(table.View()), m.requestId)
    ensures forall fronts: map<string, Front> | m.frontend in fronts && fronts[m.frontend] == old(table.View()) ::
              delivery == DeliveryFor(fronts, m) && Popped(fronts, m) == fronts[m.frontend := table.View()]
  {
    var pending := table.TakePending(m.requestId);
    if pending.None? || !m.outcome.Answered? {
      return None;
    }
    var adu := ResponseToAdu(m.outcome.response);
    if adu.Err? {
      return None;
    }
    var frame := Mbap.FrontendFrame(pending.value.tid, pending.value.pid, adu.value);
    delivery := if frame.Ok? then Some(Delivery(Client(m.frontend, pending.value.client), frame.value)) else None;
  }

  /** The frontends' tables, each under its own name. */
  ghost predicate Tables(frontends: map<string, FrontendTable>, fronts: map<string, Front>)
    reads frontends.Values
  {
    && frontends.Keys == fronts.Keys
    && (forall name | name in frontends :: frontends[name].name == name && frontends[name].View() == fronts[name])
  }

  class ResponderTask {
    const bus: GatewayBus<Item>
    const frontends: map<string, FrontendTable>

    constructor (bus: GatewayBus<Item>, frontends: map<string, FrontendTable>)
      ensures this.bus == bus && this.frontends == frontends
    {
      this.bus, this.frontends := bus, frontends;
    }

    ghost predicate Shows(s: State)
      reads bus, frontends.Values
    {
      Carries(bus, s.requests, s.responses) && Tables(frontends, s.fronts)
    }

    /** Finds the frontend by name; a message for an unknown one is dropped. */
    method HandOver(m: Message, ghost fronts: map<string, Front>) returns (delivery: Option<Delivery>)
      requires Tables(frontends, fronts)
      modifies frontends.Values
      ensures delivery == DeliveryFor(fronts, m) && Tables(frontends, Popped(fronts, m))
    {
      if m.frontend !in frontends {
        return None;
      }
      var table := frontends[m.frontend];
      delivery := HandleResponse(table, m);
      assert forall name | name in frontends && name != m.frontend :: frontends[name] != table;
    }

    method TakeMessage(ghost requests: seq<Job>, ghost responses: seq<Message>) returns (m: Option<Message>)
      requires Carries(bus, requests, responses)
      modifies bus
      ensures m == if responses == [] then None else Some(responses[0])
      ensures Carries(bus, requests, if responses == [] then [] else responses[1..])
    {
      var item := bus.Get("responses");
      if item.None? {
        return None;
      }
      assert ResponseItems(responses)[1..] == ResponseItems(responses[1..]);
      m := Some(item.value.message);
    }

    /** One message: taken from the bus, then handed to the frontend it names, whose frame is drained after. */
    method RunOnce(ghost s: State) returns (delivery: Option<Delivery>)
      requires Shows(s)
      modifies bus, frontends.Values
      ensures s.responses == [] ==> delivery == None && Shows(s)
      ensures s.responses != [] ==>
                delivery == DeliveryFor(s.fronts, s.responses[0]) && Shows(RespondWith(s, delivery))
    {
      delivery := None;
      var m := TakeMessage(s.requests, s.responses);
      if m.Some? {
        delivery := HandOver(m.value, s.fronts);
      }
    }
  }
}
