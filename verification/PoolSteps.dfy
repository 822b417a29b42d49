/** What single steps of the connection pool do, in plain terms of the connections. */
module PoolSteps {
  import opened Bytes
  import opened Pdu
  import opened TcpPool

  /** The task has written its request on this connection, under this id. */
  predicate Wrote(s: State, s': State, t: nat, c: nat) {
    && t in s'.tasks && s'.tasks[t].AwaitingReply? && s'.tasks[t].conn == c
    && c in s'.links && s'.links[c].sent == LinkOf(s, c).sent + [t]
    && s'.tasks[t].tid == s'.txCounter
    && s'.txCounter == (if (s.txCounter + 1) % 0x1_0000 == 0 then 1 else (s.txCounter + 1) % 0x1_0000)
  }

  /** The task got the oldest idle connection, and keeps it unless its request does not encode. */
  predicate TookIdle(s: State, s': State, t: nat, encodes: bool) {
    && s.pool.available != [] && s'.pool.available == s.pool.available[1..] && s'.nextConn == s.nextConn
    && (if encodes
        then Wrote(s, s', t, s.pool.available[0]) && s'.pool.connections == s.pool.connections
        else t in s'.tasks && s'.tasks[t].Closing? && s'.pool.connections == s.pool.connections - {s.pool.available[0]})
  }

  predicate MovedOnly(s: State, s': State, t: nat, task: Task) {
    s'.tasks == s.tasks[t := task] && s'.pool == s.pool && s'.links == s.links && s'.txCounter == s.txCounter
  }

  /** Whoever has the lock creates a connection if there are fewer than allowed, else takes or awaits an idle one. */
  lemma LockExactly(poolSize: nat, s: State, t: nat, encodes: bool)
    requires Invariant(poolSize, s)
    ensures var next := Next(poolSize, s, Lock(t, encodes));
            && (next.Some? <==> t in s.tasks && s.tasks[t].AtLock? && s.lock.None?)
            && (next.Some? ==>
                  if |s.pool.connections| < poolSize then MovedOnly(s, next.value, t, Creating)
                  else if s.pool.available != [] then TookIdle(s, next.value, t, encodes)
                  else MovedOnly(s, next.value, t, Waiting))
  {
  }

  /** A new submit reuses an idle connection before anything else, and otherwise goes to the lock. */
  lemma StartExactly(poolSize: nat, s: State, t: nat, encodes: bool)
    requires Invariant(poolSize, s)
    ensures var next := Next(poolSize, s, Start(t, encodes));
            && (next.Some? <==> t !in s.tasks)
            && (next.Some? ==>
                  if s.pool.available != [] then TookIdle(s, next.value, t, encodes)
                  else if s.lock.Some? || exists u :: u in s.tasks && s.tasks[u].AtLock?
                       then MovedOnly(s, next.value, t, AtLock)
                  else if |s.pool.connections| < poolSize then MovedOnly(s, next.value, t, Creating)
                  else MovedOnly(s, next.value, t, Waiting))
  {
  }

  /** A waiter goes on exactly when something is idle. */
  lemma WakeExactly(poolSize: nat, s: State, t: nat, encodes: bool)
    requires t in s.tasks && s.tasks[t].Waiting?
    ensures var next := Next(poolSize, s, Wake(t, encodes));
            && (next.Some? <==> s.pool.available != [])
            && (next.Some? ==> TookIdle(s, next.value, t, encodes))
  {
  }

  /** A created connection is new, counted, and goes to its maker, unless the maker's request does not encode. */
  lemma CreatedExactly(poolSize: nat, s: State, t: nat, encodes: bool)
    requires Invariant(poolSize, s) && t in s.tasks && s.tasks[t].Creating?
    ensures var next := Next(poolSize, s, Created(t, encodes));
            && next.Some? && s.nextConn !in s.pool.connections
            && next.value.lock.None? && next.value.pool.available == s.pool.available
            && (if encodes
                then && Wrote(s.(links := s.links - {s.nextConn}), next.value, t, s.nextConn)
                     && next.value.pool.connections == s.pool.connections + {s.nextConn}
                else && t in next.value.tasks && next.value.tasks[t].Closing?
                     && next.value.pool.connections == s.pool.connections)
  {
  }

  /**
    * A submit succeeds, and its connection becomes idle behind the others, exactly when the reply read has
    * its own transaction id and decodes; else the connection leaves the pool.
    */
  lemma ReadExactly(poolSize: nat, s: State, t: nat)
    requires Invariant(poolSize, s) && WiresFramed(s) && Next(poolSize, s, ReadReply(t)).Some?
    ensures var AwaitingReply(c, tid) := s.tasks[t];
            var s', reply := Next(poolSize, s, ReadReply(t)).value, s.links[c].wire[0];
            if reply.tid == tid && ResponseFromAdu(reply.adu).Ok?
            then && s'.tasks == s.tasks[t := Succeeded(reply)] && s'.pool.available == s.pool.available + [c]
                 && s'.pool.connections == s.pool.connections
            else && s'.tasks == s.tasks[t := Closing] && s'.pool.available == s.pool.available
                 && s'.pool.connections == s.pool.connections - {c}
  {
  }

  /** A time-out or a broken connection retires it. */
  lemma ReadFailedExactly(poolSize: nat, s: State, t: nat)
    requires Invariant(poolSize, s) && t in s.tasks && s.tasks[t].AwaitingReply?
    ensures var next := Next(poolSize, s, ReadFailed(t));
            && next.Some? && next.value.tasks == s.tasks[t := Closing]
            && next.value.pool.available == s.pool.available
            && next.value.pool.connections == s.pool.connections - {s.tasks[t].conn}
  {
  }

  /** Failing to connect, and closing a retired connection, end the submit and leave the pool as it is. */
  lemma FailuresEnd(poolSize: nat, s: State, t: nat)
    ensures t in s.tasks && s.tasks[t].Creating? ==>
              Next(poolSize, s, CreateFailed(t)) == Some(s.(tasks := s.tasks[t := Failed], lock := None))
    ensures t in s.tasks && s.tasks[t].Closing? ==>
              Next(poolSize, s, Closed(t)) == Some(s.(tasks := s.tasks[t := Failed]))
  {
  }
}
