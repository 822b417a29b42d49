/** The TCP backend's connection pool under any interleaving of concurrent submits. */
module TcpPool {
  import opened Bytes
  import opened TcpReply
  import opened TransactionId

  // ---------------------------------------------------------------------------
  // The pool's own fields
  // ---------------------------------------------------------------------------

  datatype Pool = Pool(available: seq<nat>, connections: set<nat>, total: int)

  function TakeFirst(p: Pool): Pool
    requires p.available != []
  {
    p.(available := p.available[1..])
  }

  function Register(p: Pool, conn: nat): Pool {
    p.(connections := p.connections + {conn}, total := p.total + 1)
  }

  function Release(p: Pool, conn: nat): Pool {
    p.(available := p.available + [conn])
  }

  function Retire(p: Pool, conn: nat): Pool {
    if conn in p.connections then p.(connections := p.connections - {conn}, total := p.total - 1) else p
  }

  class ConnectionPool {
    var available: seq<nat>
    var connections: set<nat>
    var total: int

    constructor ()
      ensures Contents() == Pool([], {}, 0)
    {
      available, connections, total := [], {}, 0;
    }

    function Contents(): Pool
      reads this
    {
      Pool(available, connections, total)
    }

    /** The non-blocking take with which every acquire begins and a waiter ends. */
    method TakeAvailable() returns (conn: Option<nat>)
      modifies this
      ensures old(available) == [] ==> conn == None && Contents() == old(Contents())
      ensures old(available) != [] ==> conn == Some(old(available)[0]) && Contents() == TakeFirst(old(Contents()))
      ensures old(available) != [] ==>
                available == old(available)[1..] && connections == old(connections) && total == old(total)
    {
      if available == [] {
        return None;
      }
      conn, available := Some(available[0]), available[1..];
    }

    method AddConnection(conn: nat)
      modifies this
      ensures Contents() == Register(old(Contents()), conn)
      ensures available == old(available) && connections == old(connections) + {conn} && total == old(total) + 1
    {
      connections := connections + {conn};
      total := total + 1;
    }

    method ReleaseConnection(conn: nat)
      modifies this
      ensures Contents() == Release(old(Contents()), conn)
      ensures available == old(available) + [conn] && connections == old(connections) && total == old(total)
    {
      available := available + [conn];
    }

    method RetireConnection(conn: nat)
      modifies this
      ensures Contents() == Retire(old(Contents()), conn)
      ensures available == old(available) && connections == old(connections) - {conn}
      ensures total == if conn in old(connections) then old(total) - 1 else old(total)
    {
      if conn in connections {
        connections := connections - {conn};
        total := total - 1;
      }
    }
  }

  // ---------------------------------------------------------------------------
  // The machine: tasks, connections and the devices behind them
  // ---------------------------------------------------------------------------

  /**
    * Where one submit is suspended. Each task is one submit of one request, named by its number. Having
    * got a connection, by whatever way, it numbers, encodes and writes its request in the same step.
    */
  datatype Task =
    | AtLock
    | Creating
    | Waiting
    | AwaitingReply(conn: nat, tid: Word)
    | Closing
    | Succeeded(reply: Reply)
    | Failed

  /**
    * What went over one connection. The device answers `sent` in order, each request at most once, in
    * well-framed replies; `wire` holds those not read yet.
    */
  datatype Link = Link(sent: seq<nat>, cursor: nat, wire: seq<Reply>, repliesRead: nat)

  datatype State = State(
    pool: Pool,
    lock: Option<nat>,
    tasks: map<nat, Task>,
    links: map<nat, Link>,
    nextConn: nat,
    txCounter: nat)

  /** Steps in which a task may get a connection also say whether its request encodes. */
  datatype Action =
    | Start(task: nat, encodes: bool)
    | Lock(task: nat, encodes: bool)
    | Created(task: nat, encodes: bool)
    | CreateFailed(task: nat)
    | Wake(task: nat, encodes: bool)
    | DeviceAnswers(conn: nat, index: nat, reply: Reply)
    | ReadReply(task: nat)
    | ReadFailed(task: nat)
    | Closed(task: nat)

  const INITIAL: State := State(Pool([], {}, 0), None, map[], map[], 0, 0)

  predicate Holds(s: State, t: nat, c: nat) {
    t in s.tasks && s.tasks[t].AwaitingReply? && s.tasks[t].conn == c
  }

  predicate Active(task: Task) {
    !task.Succeeded? && !task.Failed?
  }

  function SetTask(s: State, t: nat, task: Task): State {
    s.(tasks := s.tasks[t := task])
  }

  function LinkOf(s: State, c: nat): Link {
    if c in s.links then s.links[c] else Link([], 0, [], 0)
  }

  function GiveUp(s: State, t: nat, c: nat): State {
    SetTask(s.(pool := Retire(s.pool, c)), t, Closing)
  }

  /** From getting a connection to the next wait: write the request, or give up if it does not encode. */
  function Begin(s: State, t: nat, c: nat, encodes: bool): State {
    var tid := NextId(s.txCounter);
    var numbered := s.(txCounter := tid);
    if encodes then
      var link := LinkOf(s, c);
      SetTask(numbered.(links := s.links[c := link.(sent := link.sent + [t])]), t, AwaitingReply(c, tid))
    else GiveUp(numbered, t, c)
  }

  function TakeIdle(s: State, t: nat, encodes: bool): State
    requires s.pool.available != []
  {
    Begin(s.(pool := TakeFirst(s.pool)), t, s.pool.available[0], encodes)
  }

  /** A new connection is registered and the lock let go of; the maker goes on with the connection at once. */
  function AddConnection(s: State, t: nat, c: nat): State {
    SetTask(s, t, AtLock).(pool := Register(s.pool, c), lock := None,
                           links := s.links[c := Link([], 0, [], 0)], nextConn := c + 1)
  }

  /** With the lock in hand: create a connection if there is room, else let go and take or await an idle one. */
  function EnterLock(poolSize: nat, s: State, t: nat, encodes: bool): State {
    if s.pool.total < poolSize then SetTask(s, t, Creating).(lock := Some(t))
    else if s.pool.available != [] then TakeIdle(s, t, encodes)
    else SetTask(s, t, Waiting)
  }

  /** The lock is free and nobody is queued for it. */
  predicate LockOpen(s: State) {
    s.lock.None? && forall u | u in s.tasks :: !s.tasks[u].AtLock?
  }

  /** The oldest reply on a connection has been read. */
  function TakeReply(s: State, c: nat): State
    requires c in s.links && s.links[c].wire != []
  {
    var link := s.links[c];
    s.(links := s.links[c := link.(wire := link.wire[1..], repliesRead := link.repliesRead + 1)])
  }

  function HandBack(s: State, t: nat, c: nat, reply: Reply): State {
    SetTask(s.(pool := Release(s.pool, c)), t, Succeeded(reply))
  }

  function Next(poolSize: nat, s: State, a: Action): Option<State> {
    match a
    case Start(t, encodes) =>
      if t in s.tasks then None
      else if s.pool.available != [] then Some(TakeIdle(s, t, encodes))
      else if LockOpen(s) then Some(EnterLock(poolSize, s, t, encodes))
      else Some(SetTask(s, t, AtLock))
    case Lock(t, encodes) =>
      if !(t in s.tasks && s.tasks[t].AtLock? && s.lock.None?) then None
      else Some(EnterLock(poolSize, s, t, encodes))
    case Created(t, encodes) =>
      if !(t in s.tasks && s.tasks[t].Creating?) then None
      else Some(Begin(AddConnection(s, t, s.nextConn), t, s.nextConn, encodes))
    case CreateFailed(t) =>
      if !(t in s.tasks && s.tasks[t].Creating?) then None
      else Some(SetTask(s, t, Failed).(lock := None))
    case Wake(t, encodes) =>
      if !(t in s.tasks && s.tasks[t].Waiting? && s.pool.available != []) then None
      else Some(TakeIdle(s, t, encodes))
    case DeviceAnswers(c, i, reply) =>
      if !(c in s.links && s.links[c].cursor <= i < |s.links[c].sent| && reply.answers == s.links[c].sent[i]
           && WellFramed(reply)) then None
      else
        var link := s.links[c];
        Some(s.(links := s.links[c := link.(cursor := i + 1, wire := link.wire + [reply])]))
    case ReadReply(t) =>
      if !(t in s.tasks && s.tasks[t].AwaitingReply? && s.tasks[t].conn in s.links
           && s.links[s.tasks[t].conn].wire != []) then None
      else
        var AwaitingReply(c, tid) := s.tasks[t];
        var reply, read := s.links[c].wire[0], TakeReply(s, c);
        if AcceptReply(reply, tid).Some? then Some(HandBack(read, t, c, reply)) else Some(GiveUp(read, t, c))
    case ReadFailed(t) =>
      if !(t in s.tasks && s.tasks[t].AwaitingReply?) then None
      else Some(GiveUp(s, t, s.tasks[t].conn))
    case Closed(t) =>
      if !(t in s.tasks && s.tasks[t].Closing?) then None
      else Some(SetTask(s, t, Failed))
  }

  function Run(poolSize: nat, s: State, actions: seq<Action>): Option<State>
    decreases |actions|
  {
    if actions == [] then Some(s)
    else
      match Next(poolSize, s, actions[0])
      case None => None
      case Some(s') => Run(poolSize, s', actions[1..])
  }

  // ---------------------------------------------------------------------------
  // Invariant
  // ---------------------------------------------------------------------------

  /** Every request written has had its reply read, and nothing more is coming. */
  predicate Quiet(link: Link) {
    link.cursor == |link.sent| == link.repliesRead && link.wire == []
  }

  /** Only the last request is open, and only its answer can be on the wire. */
  predicate Expecting(link: Link, t: nat) {
    && |link.sent| == link.repliesRead + 1 && link.sent[link.repliesRead] == t
    && if link.cursor == |link.sent|
       then |link.wire| == 1 && link.wire[0].answers == t
       else link.cursor == link.repliesRead && link.wire == []
  }

  /** `loose` are the connections in the hand of the running task, neither idle nor held; none between steps. */
  ghost predicate PoolInvariant(poolSize: nat, s: State, loose: set<nat>) {
    var p := s.pool;
    && p.total == |p.connections|
    && p.total + (if s.lock.Some? then 1 else 0) <= poolSize
    && (forall t | t in s.tasks :: s.tasks[t].Creating? <==> s.lock == Some(t))
    && (s.lock.Some? ==> s.lock.value in s.tasks)
    && (forall i, j | 0 <= i < j < |p.available| :: p.available[i] != p.available[j])
    && (forall c | c in p.available :: c in p.connections && c !in loose)
    && (forall t, c | Holds(s, t, c) :: c in p.connections && c !in p.available && c !in loose)
    && (forall t, u, c | Holds(s, t, c) && Holds(s, u, c) :: t == u)
    && (forall c | c in p.connections :: c in p.available || c in loose || exists t :: Holds(s, t, c))
    && (forall c | c in p.connections :: c < s.nextConn && c in s.links)
  }

  ghost predicate LinkInvariant(s: State) {
    && (forall c | c in s.pool.available && c in s.links :: Quiet(s.links[c]))
    && (forall t | t in s.tasks && s.tasks[t].AwaitingReply? && s.tasks[t].conn in s.links ::
          Expecting(s.links[s.tasks[t].conn], t))
    && (forall t | t in s.tasks && s.tasks[t].Succeeded? :: s.tasks[t].reply.answers == t)
  }

  ghost predicate Invariant(poolSize: nat, s: State) {
    PoolInvariant(poolSize, s, {}) && LinkInvariant(s)
  }

  /** Mid-step: the running task `t`, not waiting for a reply itself, has got the quiet connection `c`. */
  ghost predicate InHand(poolSize: nat, s: State, t: nat, c: nat) {
    && PoolInvariant(poolSize, s, {c}) && LinkInvariant(s)
    && c in s.pool.connections && Quiet(LinkOf(s, c))
    && (t in s.tasks ==> !s.tasks[t].AwaitingReply? && !s.tasks[t].Creating?)
  }

  lemma OthersHold(s: State, t: nat, s': State)
    requires forall u | u != t :: (u in s'.tasks <==> u in s.tasks) && (u in s.tasks ==> s'.tasks[u] == s.tasks[u])
    ensures forall u, d | u != t :: Holds(s', u, d) <==> Holds(s, u, d)
  {
  }

  lemma SendKeepsPool(poolSize: nat, s: State, t: nat, c: nat)
    requires InHand(poolSize, s, t, c)
    ensures PoolInvariant(poolSize, Begin(s, t, c, true), {})
  {
    var s' := Begin(s, t, c, true);
    OthersHold(s, t, s');
    assert Holds(s', t, c);
    forall d | d in s'.pool.connections
      ensures d in s'.pool.available || exists u :: Holds(s', u, d)
    {
      if d != c && d !in s.pool.available {
        var u :| Holds(s, u, d);
        assert Holds(s', u, d);
      }
    }
  }

  lemma SendKeepsLinks(poolSize: nat, s: State, t: nat, c: nat)
    requires InHand(poolSize, s, t, c)
    ensures LinkInvariant(Begin(s, t, c, true))
  {
    HoldersNamed(s);
  }

  lemma EncodeFailureKeeps(poolSize: nat, s: State, t: nat, c: nat)
    requires InHand(poolSize, s, t, c)
    ensures Invariant(poolSize, Begin(s, t, c, false))
  {
    var s' := Begin(s, t, c, false);
    OthersHold(s, t, s');
    forall d | d in s'.pool.connections
      ensures d in s'.pool.available || exists u :: Holds(s', u, d)
    {
      if d !in s.pool.available {
        var u :| Holds(s, u, d);
        assert Holds(s', u, d);
      }
    }
  }

  lemma BeginKeeps(poolSize: nat, s: State, t: nat, c: nat, encodes: bool)
    requires InHand(poolSize, s, t, c)
    ensures Invariant(poolSize, Begin(s, t, c, encodes))
  {
    if encodes {
      SendKeepsPool(poolSize, s, t, c);
      SendKeepsLinks(poolSize, s, t, c);
    } else {
      EncodeFailureKeeps(poolSize, s, t, c);
    }
  }

  /** Where a submit stands that has no connection yet and does not hold the lock. */
  predicate Seeking(s: State, t: nat) {
    t in s.tasks ==> s.tasks[t].AtLock? || s.tasks[t].Waiting?
  }

  lemma TakenKeepsPool(poolSize: nat, s: State)
    requires PoolInvariant(poolSize, s, {}) && s.pool.available != []
    ensures PoolInvariant(poolSize, s.(pool := TakeFirst(s.pool)), {s.pool.available[0]})
  {
    var c, s' := s.pool.available[0], s.(pool := TakeFirst(s.pool));
    assert forall u, d :: Holds(s', u, d) <==> Holds(s, u, d);
    forall d | d in s'.pool.connections
      ensures d in s'.pool.available || d == c || exists u :: Holds(s', u, d)
    {
      if d !in s.pool.available {
        var u :| Holds(s, u, d);
        assert Holds(s', u, d);
      } else if d != c {
        assert d in s'.pool.available;
      }
    }
  }

  lemma TakenInHand(poolSize: nat, s: State, t: nat)
    requires Invariant(poolSize, s) && s.pool.available != [] && Seeking(s, t)
    ensures InHand(poolSize, s.(pool := TakeFirst(s.pool)), t, s.pool.available[0])
  {
    TakenKeepsPool(poolSize, s);
  }

  lemma TakeIdleKeeps(poolSize: nat, s: State, t: nat, encodes: bool)
    requires Invariant(poolSize, s) && s.pool.available != [] && Seeking(s, t)
    ensures Invariant(poolSize, TakeIdle(s, t, encodes))
  {
    TakenInHand(poolSize, s, t);
    BeginKeeps(poolSize, s.(pool := TakeFirst(s.pool)), t, s.pool.available[0], encodes);
  }

  /** A task that holds nothing moves to another state in which it holds nothing. */
  lemma EmptyHandedKeeps(poolSize: nat, s: State, t: nat, task: Task)
    requires Invariant(poolSize, s)
    requires Seeking(s, t) || s.tasks[t].Closing?
    requires task.AtLock? || task.Waiting? || task.Failed?
    ensures Invariant(poolSize, SetTask(s, t, task))
  {
    var s' := SetTask(s, t, task);
    assert forall u, c :: Holds(s', u, c) <==> Holds(s, u, c);
  }

  lemma CreatingKeeps(poolSize: nat, s: State, t: nat)
    requires Invariant(poolSize, s) && Seeking(s, t)
    requires s.lock.None? && s.pool.total < poolSize
    ensures Invariant(poolSize, SetTask(s, t, Creating).(lock := Some(t)))
  {
    var s' := SetTask(s, t, Creating).(lock := Some(t));
    assert forall u, c :: Holds(s', u, c) <==> Holds(s, u, c);
  }

  lemma EnterLockKeeps(poolSize: nat, s: State, t: nat, encodes: bool)
    requires Invariant(poolSize, s) && Seeking(s, t) && s.lock.None?
    ensures Invariant(poolSize, EnterLock(poolSize, s, t, encodes))
  {
    if s.pool.total < poolSize {
      CreatingKeeps(poolSize, s, t);
    } else if s.pool.available != [] {
      TakeIdleKeeps(poolSize, s, t, encodes);
    } else {
      EmptyHandedKeeps(poolSize, s, t, Waiting);
    }
  }

  lemma CreateFailedKeeps(poolSize: nat, s: State, t: nat)
    requires Invariant(poolSize, s) && t in s.tasks && s.tasks[t].Creating?
    ensures Invariant(poolSize, SetTask(s, t, Failed).(lock := None))
  {
    var s' := SetTask(s, t, Failed).(lock := None);
    assert forall u, c :: Holds(s', u, c) <==> Holds(s, u, c);
  }

  lemma AddedKeepsPool(poolSize: nat, s: State, t: nat)
    requires Invariant(poolSize, s) && t in s.tasks && s.tasks[t].Creating?
    ensures PoolInvariant(poolSize, AddConnection(s, t, s.nextConn), {s.nextConn})
  {
    var c := s.nextConn;
    var s' := AddConnection(s, t, c);
    assert forall u, d :: Holds(s', u, d) <==> Holds(s, u, d);
    forall d | d in s'.pool.connections
      ensures d in s'.pool.available || d == c || exists u :: Holds(s', u, d)
    {
      if d != c && d !in s.pool.available {
        var u :| Holds(s, u, d);
        assert Holds(s', u, d);
      }
    }
  }

  lemma AddedInHand(poolSize: nat, s: State, t: nat)
    requires Invariant(poolSize, s) && t in s.tasks && s.tasks[t].Creating?
    ensures InHand(poolSize, AddConnection(s, t, s.nextConn), t, s.nextConn)
  {
    AddedKeepsPool(poolSize, s, t);
    HoldersNamed(s);
  }

  lemma CreatedKeeps(poolSize: nat, s: State, t: nat, encodes: bool)
    requires Invariant(poolSize, s) && t in s.tasks && s.tasks[t].Creating?
    ensures Invariant(poolSize, Begin(AddConnection(s, t, s.nextConn), t, s.nextConn, encodes))
  {
    AddedInHand(poolSize, s, t);
    BeginKeeps(poolSize, AddConnection(s, t, s.nextConn), t, s.nextConn, encodes);
  }

  lemma HoldersNamed(s: State)
    ensures forall u | u in s.tasks && s.tasks[u].AwaitingReply? :: Holds(s, u, s.tasks[u].conn)
  {
  }

  /** Steps that leave the pool, the lock and every task alone keep the pool invariant. */
  lemma PoolFrame(poolSize: nat, s: State, s': State)
    requires PoolInvariant(poolSize, s, {})
    requires s'.pool == s.pool && s'.lock == s.lock && s'.nextConn == s.nextConn
    requires s'.tasks == s.tasks && s'.links.Keys == s.links.Keys
    ensures PoolInvariant(poolSize, s', {})
  {
    assert forall u, d :: Holds(s', u, d) <==> Holds(s, u, d);
    forall c | c in s'.pool.connections
      ensures c in s'.pool.available || exists t :: Holds(s', t, c)
    {
      if c !in s.pool.available {
        var t :| Holds(s, t, c);
        assert Holds(s', t, c);
      }
    }
  }

  /** What the invariant says about all connections but the one task `t` holds. */
  ghost predicate OthersInOrder(s: State, t: nat) {
    && (forall d | d in s.pool.available && d in s.links :: Quiet(s.links[d]))
    && (forall u | u != t && u in s.tasks && s.tasks[u].AwaitingReply? && s.tasks[u].conn in s.links ::
          Expecting(s.links[s.tasks[u].conn], u))
    && (forall u | u in s.tasks && s.tasks[u].Succeeded? :: s.tasks[u].reply.answers == u)
  }

  /** Retiring a held connection leaves every other task and connection as it was. */
  lemma GiveUpKeeps(poolSize: nat, s: State, t: nat, c: nat)
    requires PoolInvariant(poolSize, s, {}) && Holds(s, t, c) && OthersInOrder(s, t)
    ensures Invariant(poolSize, GiveUp(s, t, c))
  {
    var s' := GiveUp(s, t, c);
    OthersHold(s, t, s');
    forall d | d in s'.pool.connections
      ensures d in s'.pool.available || exists u :: Holds(s', u, d)
    {
      if d !in s.pool.available {
        var u :| Holds(s, u, d);
        assert Holds(s', u, d);
      }
    }
  }

  lemma DeviceAnswersKeeps(poolSize: nat, s: State, c: nat, i: nat, reply: Reply)
    requires Invariant(poolSize, s) && Next(poolSize, s, DeviceAnswers(c, i, reply)).Some?
    ensures Invariant(poolSize, Next(poolSize, s, DeviceAnswers(c, i, reply)).value)
  {
    var s' := Next(poolSize, s, DeviceAnswers(c, i, reply)).value;
    PoolFrame(poolSize, s, s');
    HoldersNamed(s);
  }

  /** After the read the link is quiet again, whatever the reply said. */
  lemma TakeReplyKeeps(poolSize: nat, s: State, t: nat)
    requires Invariant(poolSize, s) && Next(poolSize, s, ReadReply(t)).Some?
    ensures var c := s.tasks[t].conn; var read := TakeReply(s, c);
            && PoolInvariant(poolSize, read, {}) && Holds(read, t, c) && OthersInOrder(read, t)
            && s.links[c].wire[0].answers == t && Quiet(read.links[c])
  {
    HoldersNamed(s);
    PoolFrame(poolSize, s, TakeReply(s, s.tasks[t].conn));
  }

  /** Handing a held connection back. */
  lemma HandBackKeepsPool(poolSize: nat, s: State, t: nat, c: nat, reply: Reply)
    requires PoolInvariant(poolSize, s, {}) && Holds(s, t, c)
    ensures PoolInvariant(poolSize, HandBack(s, t, c, reply), {})
  {
    var s' := HandBack(s, t, c, reply);
    OthersHold(s, t, s');
    assert s'.pool.available[|s.pool.available|] == c;
    forall d | d in s'.pool.connections
      ensures d in s'.pool.available || exists u :: Holds(s', u, d)
    {
      if d !in s'.pool.available {
        assert d !in s.pool.available;
        var u :| Holds(s, u, d);
        assert Holds(s', u, d);
      }
    }
  }

  lemma HandBackKeepsLinks(s: State, t: nat, c: nat, reply: Reply)
    requires OthersInOrder(s, t) && c in s.links && Quiet(s.links[c]) && reply.answers == t
    ensures LinkInvariant(HandBack(s, t, c, reply))
  {
  }

  lemma ReadReplyKeeps(poolSize: nat, s: State, t: nat)
    requires Invariant(poolSize, s) && Next(poolSize, s, ReadReply(t)).Some?
    ensures Invariant(poolSize, Next(poolSize, s, ReadReply(t)).value)
  {
    var c, tid := s.tasks[t].conn, s.tasks[t].tid;
    var reply, read := s.links[c].wire[0], TakeReply(s, c);
    TakeReplyKeeps(poolSize, s, t);
    if AcceptReply(reply, tid).Some? {
      HandBackKeepsPool(poolSize, read, t, c, reply);
      HandBackKeepsLinks(read, t, c, reply);
    } else {
      GiveUpKeeps(poolSize, read, t, c);
    }
  }

  lemma NextKeepsInvariant(poolSize: nat, s: State, a: Action)
    requires Invariant(poolSize, s) && Next(poolSize, s, a).Some?
    ensures Invariant(poolSize, Next(poolSize, s, a).value)
  {
    match a
    case Start(t, encodes) =>
      if s.pool.available != [] {
        TakeIdleKeeps(poolSize, s, t, encodes);
      } else if LockOpen(s) {
        EnterLockKeeps(poolSize, s, t, encodes);
      } else {
        EmptyHandedKeeps(poolSize, s, t, AtLock);
      }
    case Lock(t, encodes) => EnterLockKeeps(poolSize, s, t, encodes);
    case Created(t, encodes) => CreatedKeeps(poolSize, s, t, encodes);
    case CreateFailed(t) => CreateFailedKeeps(poolSize, s, t);
    case Wake(t, encodes) => TakeIdleKeeps(poolSize, s, t, encodes);
    case DeviceAnswers(c, i, reply) => DeviceAnswersKeeps(poolSize, s, c, i, reply);
    case ReadReply(t) => ReadReplyKeeps(poolSize, s, t);
    case ReadFailed(t) => GiveUpKeeps(poolSize, s, t, s.tasks[t].conn);
    case Closed(t) => EmptyHandedKeeps(poolSize, s, t, Failed);
  }

  lemma {:induction false} RunKeepsInvariant(poolSize: nat, s: State, actions: seq<Action>)
    requires Invariant(poolSize, s) && Run(poolSize, s, actions).Some?
    ensures Invariant(poolSize, Run(poolSize, s, actions).value)
    decreases |actions|
  {
    if actions != [] {
      NextKeepsInvariant(poolSize, s, actions[0]);
      RunKeepsInvariant(poolSize, Next(poolSize, s, actions[0]).value, actions[1..]);
    }
  }

  // ---------------------------------------------------------------------------
  // Safety over every run
  // ---------------------------------------------------------------------------

  /** The counter is the set's size, never above the limit, and connections are never shared. */
  lemma PoolIsSafe(poolSize: nat, actions: seq<Action>)
    requires Run(poolSize, INITIAL, actions).Some?
    ensures var s := Run(poolSize, INITIAL, actions).value; var p := s.pool;
            && p.total == |p.connections| <= poolSize
            && (forall i, j | 0 <= i < j < |p.available| :: p.available[i] != p.available[j])
            && (forall c | c in p.available :: c in p.connections && forall t :: !Holds(s, t, c))
            && (forall t, u, c | Holds(s, t, c) && Holds(s, u, c) :: t == u)
  {
    RunKeepsInvariant(poolSize, INITIAL, actions);
  }

  /** Idle connections owe no reply, and a reply returned by a submit answers its own request. */
  lemma RepliesMatchRequests(poolSize: nat, actions: seq<Action>)
    requires Run(poolSize, INITIAL, actions).Some?
    ensures var s := Run(poolSize, INITIAL, actions).value;
            && (forall c | c in s.pool.available :: c in s.links && Quiet(s.links[c]))
            && (forall t | t in s.tasks && s.tasks[t].Succeeded? :: s.tasks[t].reply.answers == t)
  {
    RunKeepsInvariant(poolSize, INITIAL, actions);
  }

  // ---------------------------------------------------------------------------
  // The wire as bytes
  // ---------------------------------------------------------------------------

  ghost predicate WiresFramed(s: State) {
    forall c, i | c in s.links && 0 <= i < |s.links[c].wire| :: WellFramed(s.links[c].wire[i])
  }

  lemma NextKeepsFramed(poolSize: nat, s: State, a: Action)
    requires WiresFramed(s) && Next(poolSize, s, a).Some?
    ensures WiresFramed(Next(poolSize, s, a).value)
  {
  }

  lemma {:induction false} RunKeepsFramed(poolSize: nat, s: State, actions: seq<Action>)
    requires WiresFramed(s) && Run(poolSize, s, actions).Some?
    ensures WiresFramed(Run(poolSize, s, actions).value)
    decreases |actions|
  {
    if actions != [] {
      NextKeepsFramed(poolSize, s, actions[0]);
      RunKeepsFramed(poolSize, Next(poolSize, s, actions[0]).value, actions[1..]);
    }
  }

  /**
    * Reading a reply as a unit is reading it from the bytes on the wire: the byte reader accepts what
    * the step accepts, and then leaves exactly the bytes of the replies still unread.
    */
  lemma ReadStepReadsBytes(poolSize: nat, actions: seq<Action>, t: nat)
    requires Run(poolSize, INITIAL, actions).Some?
    requires Next(poolSize, Run(poolSize, INITIAL, actions).value, ReadReply(t)).Some?
    ensures var s := Run(poolSize, INITIAL, actions).value;
            var s' := Next(poolSize, s, ReadReply(t)).value;
            var c, tid := s.tasks[t].conn, s.tasks[t].tid;
            && WiresFramed(s) && WiresFramed(s')
            && (var bytes := WireBytes(s.links[c].wire);
                if s'.tasks[t].Succeeded?
                then Reading(bytes, tid).Some? && bytes[Reading(bytes, tid).value.1..] == WireBytes(s'.links[c].wire)
                else Reading(bytes, tid).None?)
  {
    RunKeepsFramed(poolSize, INITIAL, actions);
    var s := Run(poolSize, INITIAL, actions).value;
    NextKeepsFramed(poolSize, s, ReadReply(t));
    var wire := s.links[s.tasks[t].conn].wire;
    WellFramedReplyRead(wire[0], WireBytes(wire[1..]), s.tasks[t].tid);
  }
}
