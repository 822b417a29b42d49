/** When a submit has to wait for a pooled connection, and when nothing will ever end the wait. */
module PoolWaiting {
  import opened Bytes
  import opened TcpPool
  import opened TcpReply

  // ---------------------------------------------------------------------------
  // Nobody waits while submits are few
  // ---------------------------------------------------------------------------

  /** As many holders as connections, when every connection has one. */
  lemma {:induction false} OneHolderEach(s: State, conns: set<nat>, holders: set<nat>)
    requires forall c | c in conns :: exists t :: t in holders && Holds(s, t, c)
    ensures |holders| >= |conns|
    decreases |conns|
  {
    if conns != {} {
      var c :| c in conns;
      var t :| t in holders && Holds(s, t, c);
      forall d | d in conns - {c}
        ensures exists u :: u in holders - {t} && Holds(s, u, d)
      {
        var u :| u in holders && Holds(s, u, d);
        assert u != t;
      }
      OneHolderEach(s, conns - {c}, holders - {t});
    }
  }

  function ActiveTasks(s: State): set<nat> {
    set t | t in s.tasks && Active(s.tasks[t])
  }

  /** Being made to wait means `poolSize` other submits hold a connection each. */
  lemma WaitingNeedsFullPool(poolSize: nat, s: State, t: nat)
    requires Invariant(poolSize, s) && Seeking(s, t)
    requires s.pool.total >= poolSize && s.pool.available == []
    ensures |ActiveTasks(SetTask(s, t, Waiting))| > poolSize
  {
    var s' := SetTask(s, t, Waiting);
    var holders := ActiveTasks(s') - {t};
    assert t in ActiveTasks(s');
    forall c | c in s.pool.connections
      ensures exists u :: u in holders && Holds(s, u, c)
    {
      var u :| Holds(s, u, c);
      assert u in holders;
    }
    OneHolderEach(s, s.pool.connections, holders);
  }

  /** Only a task at the lock, with the pool exhausted, starts to wait. */
  lemma NewWaiter(poolSize: nat, s: State, a: Action, t: nat)
    requires Invariant(poolSize, s) && Next(poolSize, s, a).Some?
    requires var s' := Next(poolSize, s, a).value; t in s'.tasks && s'.tasks[t].Waiting?
    requires t in s.tasks ==> !s.tasks[t].Waiting?
    ensures |ActiveTasks(Next(poolSize, s, a).value)| > poolSize
  {
    assert (a.Start? || a.Lock?) && a.task == t;
    assert s.pool.total >= poolSize && s.pool.available == [];
    assert Next(poolSize, s, a).value == SetTask(s, t, Waiting);
    WaitingNeedsFullPool(poolSize, s, t);
  }

  /** At most `limit` submits are under way in every state the actions pass through. */
  ghost predicate AtMostActive(poolSize: nat, limit: nat, s: State, actions: seq<Action>)
    decreases |actions|
  {
    && |ActiveTasks(s)| <= limit
    && (actions != [] ==>
          (var next := Next(poolSize, s, actions[0]);
           next.Some? && AtMostActive(poolSize, limit, next.value, actions[1..])))
  }

  ghost predicate NobodyWaits(s: State) {
    forall t | t in s.tasks :: !s.tasks[t].Waiting?
  }

  /** With at most `poolSize` submits under way at any time, no submit is ever made to wait. */
  lemma {:induction false} NoWaiting(poolSize: nat, s: State, actions: seq<Action>)
    requires Invariant(poolSize, s) && NobodyWaits(s)
    requires AtMostActive(poolSize, poolSize, s, actions)
    ensures Run(poolSize, s, actions).Some? && NobodyWaits(Run(poolSize, s, actions).value)
    decreases |actions|
  {
    if actions != [] {
      var s' := Next(poolSize, s, actions[0]).value;
      NextKeepsInvariant(poolSize, s, actions[0]);
      forall t | t in s'.tasks
        ensures !s'.tasks[t].Waiting?
      {
        if s'.tasks[t].Waiting? {
          NewWaiter(poolSize, s, actions[0], t);
          assert false;
        }
      }
      NoWaiting(poolSize, s', actions[1..]);
    }
  }

  /** In particular the dispatcher, which submits one request at a time, never waits. */
  lemma SequentialNeverWaits(poolSize: nat, actions: seq<Action>)
    requires poolSize >= 1 && AtMostActive(poolSize, 1, INITIAL, actions)
    ensures Run(poolSize, INITIAL, actions).Some? && NobodyWaits(Run(poolSize, INITIAL, actions).value)
  {
    FewerActive(poolSize, 1, poolSize, INITIAL, actions);
    NoWaiting(poolSize, INITIAL, actions);
  }

  lemma {:induction false} FewerActive(poolSize: nat, few: nat, many: nat, s: State, actions: seq<Action>)
    requires few <= many && AtMostActive(poolSize, few, s, actions)
    ensures AtMostActive(poolSize, many, s, actions)
    decreases |actions|
  {
    if actions != [] {
      FewerActive(poolSize, few, many, Next(poolSize, s, actions[0]).value, actions[1..]);
    }
  }

  // ---------------------------------------------------------------------------
  // A waiter that only a new submit can help
  // ---------------------------------------------------------------------------

  /** The holder's reply has arrived and will be refused: its connection is going to be retired. */
  predicate Doomed(s: State, u: nat)
    requires u in s.tasks && s.tasks[u].AwaitingReply?
  {
    var AwaitingReply(c, tid) := s.tasks[u];
    c in s.links && s.links[c].wire != [] && AcceptReply(s.links[c].wire[0], tid).None?
  }

  /** Nothing idle, nobody about to create, and every holder about to retire its connection. */
  ghost predicate Stranded(s: State, t: nat) {
    && t in s.tasks && s.tasks[t].Waiting? && s.pool.available == []
    && (forall u | u in s.tasks :: !s.tasks[u].AtLock? && !s.tasks[u].Creating?)
    && (forall u | u in s.tasks && s.tasks[u].AwaitingReply? :: Doomed(s, u))
  }

  /** A stranded waiter stays stranded until some other submit arrives, however much room there is. */
  lemma StrandedStays(poolSize: nat, s: State, t: nat, a: Action)
    requires Invariant(poolSize, s) && Stranded(s, t) && Next(poolSize, s, a).Some? && !a.Start?
    ensures Stranded(Next(poolSize, s, a).value, t)
  {
    var s' := Next(poolSize, s, a).value;
    assert a.DeviceAnswers? || a.ReadReply? || a.ReadFailed? || a.Closed?;
    HoldersNamed(s);
    forall u | u in s'.tasks && s'.tasks[u].AwaitingReply?
      ensures Doomed(s', u)
    {
      assert Doomed(s, u);
    }
  }

  ghost predicate NoStart(actions: seq<Action>) {
    forall i | 0 <= i < |actions| :: !actions[i].Start?
  }

  /** These steps, none of them a new submit, end with the waiter's request written on a connection. */
  ghost predicate Serves(poolSize: nat, s: State, t: nat, actions: seq<Action>) {
    && NoStart(actions) && Run(poolSize, s, actions).Some?
    && (var s' := Run(poolSize, s, actions).value; t in s'.tasks && s'.tasks[t].AwaitingReply?)
  }

  lemma {:induction false} StrandedNotServed(poolSize: nat, s: State, t: nat, actions: seq<Action>)
    requires Invariant(poolSize, s) && Stranded(s, t)
    ensures !Serves(poolSize, s, t, actions)
    decreases |actions|
  {
    if actions != [] && Next(poolSize, s, actions[0]).Some? && !actions[0].Start? {
      StrandedStays(poolSize, s, t, actions[0]);
      NextKeepsInvariant(poolSize, s, actions[0]);
      StrandedNotServed(poolSize, Next(poolSize, s, actions[0]).value, t, actions[1..]);
      assert NoStart(actions) ==> NoStart(actions[1..]);
    }
  }

  lemma ServesAfter(poolSize: nat, s: State, t: nat, a: Action, rest: seq<Action>)
    requires !a.Start? && Next(poolSize, s, a).Some? && Serves(poolSize, Next(poolSize, s, a).value, t, rest)
    ensures Serves(poolSize, s, t, [a] + rest)
  {
    assert ([a] + rest)[1..] == rest;
  }

  ghost predicate WaitsIn(poolSize: nat, s: State, t: nat) {
    Invariant(poolSize, s) && t in s.tasks && s.tasks[t].Waiting?
  }

  lemma ServeFromIdle(poolSize: nat, s: State, t: nat) returns (actions: seq<Action>)
    requires WaitsIn(poolSize, s, t) && s.pool.available != []
    ensures Serves(poolSize, s, t, actions)
  {
    actions := [];
    assert Serves(poolSize, Next(poolSize, s, Wake(t, true)).value, t, actions);
    ServesAfter(poolSize, s, t, Wake(t, true), actions);
    actions := [Wake(t, true)] + actions;
  }

  lemma ServeFromReply(poolSize: nat, s: State, t: nat, u: nat) returns (actions: seq<Action>)
    requires WaitsIn(poolSize, s, t) && u in s.tasks && s.tasks[u].AwaitingReply?
    requires var AwaitingReply(c, tid) := s.tasks[u];
             c in s.links && s.links[c].wire != [] && AcceptReply(s.links[c].wire[0], tid).Some?
    ensures Serves(poolSize, s, t, actions)
  {
    var a := ReadReply(u);
    NextKeepsInvariant(poolSize, s, a);
    actions := ServeFromIdle(poolSize, Next(poolSize, s, a).value, t);
    ServesAfter(poolSize, s, t, a, actions);
    actions := [a] + actions;
  }

  /** A reply the exchange accepts: unit 0, function 7, nothing else. */
  function GoodReply(u: nat, tid: Word): Reply {
    Reply(u, tid, 0, 2, [0, 7])
  }

  lemma GoodReplyAccepted(u: nat, tid: Word)
    ensures WellFramed(GoodReply(u, tid)) && AcceptReply(GoodReply(u, tid), tid).Some?
  {
  }

  lemma ServeFromSilence(poolSize: nat, s: State, t: nat, u: nat) returns (actions: seq<Action>)
    requires WaitsIn(poolSize, s, t) && u in s.tasks && s.tasks[u].AwaitingReply?
    requires var c := s.tasks[u].conn; c in s.links && s.links[c].wire == []
    ensures Serves(poolSize, s, t, actions)
  {
    var AwaitingReply(c, tid) := s.tasks[u];
    GoodReplyAccepted(u, tid);
    assert Expecting(s.links[c], u);
    var a := DeviceAnswers(c, s.links[c].cursor, GoodReply(u, tid));
    NextKeepsInvariant(poolSize, s, a);
    actions := ServeFromReply(poolSize, Next(poolSize, s, a).value, t, u);
    ServesAfter(poolSize, s, t, a, actions);
    actions := [a] + actions;
  }

  lemma ServeFromCreator(poolSize: nat, s: State, t: nat, u: nat) returns (actions: seq<Action>)
    requires WaitsIn(poolSize, s, t) && u in s.tasks && s.tasks[u].Creating?
    ensures Serves(poolSize, s, t, actions)
  {
    var a := Created(u, true);
    NextKeepsInvariant(poolSize, s, a);
    actions := ServeFromSilence(poolSize, Next(poolSize, s, a).value, t, u);
    ServesAfter(poolSize, s, t, a, actions);
    actions := [a] + actions;
  }

  lemma ServeFromRoom(poolSize: nat, s: State, t: nat, u: nat) returns (actions: seq<Action>)
    requires WaitsIn(poolSize, s, t) && u in s.tasks && s.tasks[u].AtLock?
    requires s.lock.None? && s.pool.total < poolSize
    ensures Serves(poolSize, s, t, actions)
  {
    var a := Lock(u, true);
    NextKeepsInvariant(poolSize, s, a);
    actions := ServeFromCreator(poolSize, Next(poolSize, s, a).value, t, u);
    ServesAfter(poolSize, s, t, a, actions);
    actions := [a] + actions;
  }

  /** A task about to create, or about to be allowed to, is as good as a connection. */
  lemma ServeFromLock(poolSize: nat, s: State, t: nat, u: nat) returns (actions: seq<Action>)
    requires WaitsIn(poolSize, s, t) && poolSize > 0 && s.pool.available == []
    requires u in s.tasks && s.tasks[u].AtLock?
    ensures Serves(poolSize, s, t, actions)
  {
    if s.lock.Some? {
      actions := ServeFromCreator(poolSize, s, t, s.lock.value);
    } else if s.pool.total < poolSize {
      actions := ServeFromRoom(poolSize, s, t, u);
    } else {
      var c :| c in s.pool.connections;
      var v :| Holds(s, v, c);
      var a := ReadFailed(v);
      NextKeepsInvariant(poolSize, s, a);
      actions := ServeFromRoom(poolSize, Next(poolSize, s, a).value, t, u);
      ServesAfter(poolSize, s, t, a, actions);
      actions := [a] + actions;
    }
  }

  lemma ServeUnlessStranded(poolSize: nat, s: State, t: nat) returns (actions: seq<Action>)
    requires WaitsIn(poolSize, s, t) && poolSize > 0 && !Stranded(s, t)
    ensures Serves(poolSize, s, t, actions)
  {
    if s.pool.available != [] {
      actions := ServeFromIdle(poolSize, s, t);
    } else if u :| u in s.tasks && s.tasks[u].AtLock? {
      actions := ServeFromLock(poolSize, s, t, u);
    } else if u :| u in s.tasks && s.tasks[u].Creating? {
      actions := ServeFromCreator(poolSize, s, t, u);
    } else {
      var u :| u in s.tasks && s.tasks[u].AwaitingReply? && !Doomed(s, u);
      assert Holds(s, u, s.tasks[u].conn);
      if s.links[s.tasks[u].conn].wire == [] {
        actions := ServeFromSilence(poolSize, s, t, u);
      } else {
        actions := ServeFromReply(poolSize, s, t, u);
      }
    }
  }

  /** In every reachable state a waiter can still be served without a new submit exactly unless it is stranded. */
  lemma ServedUnlessStranded(poolSize: nat, actions: seq<Action>, t: nat)
    requires poolSize > 0 && Run(poolSize, INITIAL, actions).Some?
    requires var s := Run(poolSize, INITIAL, actions).value; t in s.tasks && s.tasks[t].Waiting?
    ensures var s := Run(poolSize, INITIAL, actions).value;
            (exists more :: Serves(poolSize, s, t, more)) <==> !Stranded(s, t)
  {
    RunKeepsInvariant(poolSize, INITIAL, actions);
    var s := Run(poolSize, INITIAL, actions).value;
    if Stranded(s, t) {
      forall more
        ensures !Serves(poolSize, s, t, more)
      {
        StrandedNotServed(poolSize, s, t, more);
      }
    } else {
      var more := ServeUnlessStranded(poolSize, s, t);
    }
  }

  // ---------------------------------------------------------------------------
  // One submit too many, for every pool size
  // ---------------------------------------------------------------------------

  lemma {:induction false} RunAppend(poolSize: nat, s: State, a: seq<Action>, b: seq<Action>)
    requires Run(poolSize, s, a).Some?
    ensures Run(poolSize, s, a + b) == Run(poolSize, Run(poolSize, s, a).value, b)
    decreases |a|
  {
    if a == [] {
      assert a + b == b;
    } else {
      assert (a + b)[1..] == a[1..] + b;
      RunAppend(poolSize, Next(poolSize, s, a[0]).value, a[1..], b);
    }
  }

  function Below(m: nat): (b: set<nat>)
    ensures |b| == m && forall t: nat :: t in b <==> t < m
  {
    if m == 0 then {} else Below(m - 1) + {m - 1}
  }

  /** Tasks and connections 0 to k - 1, each task waiting for the reply on the connection of its number. */
  ghost predicate Filled(s: State, k: nat) {
    && s.pool.available == [] && s.pool.total == k && s.lock.None? && s.nextConn == k
    && (forall t: nat :: t in s.tasks <==> t < k)
    && (forall t | t in s.tasks :: s.tasks[t].AwaitingReply? && s.tasks[t].conn == t)
    && (forall c: nat :: c in s.pool.connections <==> c < k)
  }

  /** One more submit makes a connection and writes its request. */
  function OneMore(k: nat): seq<Action> {
    [Start(k, true), Created(k, true)]
  }

  lemma FillOne(n: nat, s: State, k: nat)
    requires k < n && Filled(s, k)
    ensures Run(n, s, OneMore(k)).Some? && Filled(Run(n, s, OneMore(k)).value, k + 1)
  {
    var a := OneMore(k);
    var s1 := Next(n, s, a[0]).value;
    assert s1 == SetTask(s, k, Creating).(lock := Some(k));
    var s2 := Next(n, s1, a[1]).value;
    assert a[1..][1..] == [];
    assert Run(n, s1, a[1..]) == Some(s2);
  }

  ghost predicate StartsBelow(actions: seq<Action>, n: nat) {
    forall i | 0 <= i < |actions| && actions[i].Start? :: actions[i].task < n
  }

  lemma StartsAppend(a: seq<Action>, b: seq<Action>, n: nat)
    requires StartsBelow(a, n) && StartsBelow(b, n)
    ensures StartsBelow(a + b, n)
  {
  }

  lemma {:induction false} Fill(n: nat, s: State, k: nat) returns (actions: seq<Action>)
    requires k <= n && Filled(s, k)
    ensures Run(n, s, actions).Some? && Filled(Run(n, s, actions).value, n) && StartsBelow(actions, n)
    decreases n - k
  {
    if k == n {
      actions := [];
    } else {
      var first := OneMore(k);
      FillOne(n, s, k);
      var rest := Fill(n, Run(n, s, first).value, k + 1);
      RunAppend(n, s, first, rest);
      StartsAppend(first, rest, n);
      actions := first + rest;
    }
  }

  /** Task n waits; of the n holders those below k have timed out and given their connections up. */
  ghost predicate Draining(s: State, n: nat, k: nat) {
    && s.pool.available == [] && s.pool.total == n - k
    && (forall t: nat :: t in s.tasks <==> t <= n)
    && (forall t | t in s.tasks && t < k :: s.tasks[t] == Closing)
    && (forall t | t in s.tasks && k <= t < n :: s.tasks[t].AwaitingReply? && s.tasks[t].conn == t)
    && (n in s.tasks ==> s.tasks[n] == Waiting)
    && (forall c: nat :: c in s.pool.connections <==> k <= c < n)
  }

  lemma {:induction false} DrainPool(n: nat, s: State, k: nat) returns (actions: seq<Action>)
    requires k <= n && Draining(s, n, k)
    ensures Run(n, s, actions).Some? && Draining(Run(n, s, actions).value, n, n) && NoStart(actions)
    decreases n - k
  {
    if k == n {
      actions := [];
    } else {
      var s' := Next(n, s, ReadFailed(k)).value;
      var rest := DrainPool(n, s', k + 1);
      actions := [ReadFailed(k)] + rest;
      assert actions[1..] == rest;
    }
  }

  lemma OneTooMany(n: nat, s: State)
    requires Filled(s, n)
    ensures Next(n, s, Start(n, true)) == Some(SetTask(s, n, Waiting)) && Draining(SetTask(s, n, Waiting), n, 0)
  {
  }

  /**
    * For every pool size n: n submits write their requests on a connection each, one more has to wait,
    * and the n time out. It is left with no connection, none being made and nobody to make one, although
    * the pool has room for n.
    */
  lemma RetirementStrandsWaiter(n: nat) returns (actions: seq<Action>)
    ensures Run(n, INITIAL, actions).Some? && AtMostActive(n, n + 1, INITIAL, actions)
    ensures var s := Run(n, INITIAL, actions).value; Stranded(s, n) && s.pool.total == 0
  {
    assert Filled(INITIAL, 0);
    var fill := Fill(n, INITIAL, 0);
    var rest := Overload(n, Run(n, INITIAL, fill).value);
    RunAppend(n, INITIAL, fill, rest);
    StartsAppend(fill, rest, n + 1);
    actions := fill + rest;
    FewTasks(n, INITIAL, actions, n + 1);
  }

  lemma Overload(n: nat, s: State) returns (actions: seq<Action>)
    requires Filled(s, n)
    ensures Run(n, s, actions).Some? && StartsBelow(actions, n + 1)
    ensures var s' := Run(n, s, actions).value; Stranded(s', n) && s'.pool.total == 0
  {
    OneTooMany(n, s);
    var waiting := SetTask(s, n, Waiting);
    var drain := DrainPool(n, waiting, 0);
    actions := [Start(n, true)] + drain;
    assert actions[1..] == drain;
    DrainedStrands(n, Run(n, waiting, drain).value);
  }

  lemma DrainedStrands(n: nat, s: State)
    requires Draining(s, n, n)
    ensures Stranded(s, n) && s.pool.total == 0
  {
    assert n in s.tasks;
  }

  lemma SubsetSmaller(a: set<nat>, b: set<nat>)
    requires a <= b
    ensures |a| <= |b|
  {
    assert b == a + (b - a);
  }

  /** Submits numbered below m are never more than m at a time. */
  lemma {:induction false} FewTasks(poolSize: nat, s: State, actions: seq<Action>, m: nat)
    requires Run(poolSize, s, actions).Some? && StartsBelow(actions, m) && forall t | t in s.tasks :: t < m
    ensures AtMostActive(poolSize, m, s, actions)
    decreases |actions|
  {
    SubsetSmaller(ActiveTasks(s), Below(m));
    if actions != [] {
      var s' := Next(poolSize, s, actions[0]).value;
      assert StartsBelow(actions[1..], m);
      assert forall t | t in s'.tasks && t !in s.tasks :: actions[0].Start? && actions[0].task == t;
      FewTasks(poolSize, s', actions[1..], m);
    }
  }

  // ---------------------------------------------------------------------------
  // The exact limit
  // ---------------------------------------------------------------------------

  ghost predicate EndsWithoutWaiters(poolSize: nat, actions: seq<Action>) {
    Run(poolSize, INITIAL, actions).Some? && NobodyWaits(Run(poolSize, INITIAL, actions).value)
  }

  ghost predicate EndsWithoutStranded(poolSize: nat, actions: seq<Action>) {
    && Run(poolSize, INITIAL, actions).Some?
    && (forall t :: !Stranded(Run(poolSize, INITIAL, actions).value, t))
  }

  ghost predicate NeverWaits(poolSize: nat, limit: nat) {
    forall actions | AtMostActive(poolSize, limit, INITIAL, actions) :: EndsWithoutWaiters(poolSize, actions)
  }

  ghost predicate NeverStrands(poolSize: nat, limit: nat) {
    forall actions | AtMostActive(poolSize, limit, INITIAL, actions) :: EndsWithoutStranded(poolSize, actions)
  }

  /**
    * Runs with at most `limit` submits at a time never make one wait exactly when the pool is that
    * large, and never strand one under exactly the same condition.
    */
  lemma WaitingExactly(poolSize: nat, limit: nat)
    ensures NeverWaits(poolSize, limit) <==> limit <= poolSize
    ensures NeverStrands(poolSize, limit) <==> limit <= poolSize
  {
    if limit <= poolSize {
      forall actions | AtMostActive(poolSize, limit, INITIAL, actions)
        ensures EndsWithoutWaiters(poolSize, actions) && EndsWithoutStranded(poolSize, actions)
      {
        FewerActive(poolSize, limit, poolSize, INITIAL, actions);
        NoWaiting(poolSize, INITIAL, actions);
      }
    } else {
      var actions := RetirementStrandsWaiter(poolSize);
      FewerActive(poolSize, poolSize + 1, limit, INITIAL, actions);
      var s := Run(poolSize, INITIAL, actions).value;
      assert Stranded(s, poolSize);
      assert !EndsWithoutWaiters(poolSize, actions) && !EndsWithoutStranded(poolSize, actions);
    }
  }
}
