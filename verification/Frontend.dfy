/** The TCP and Unix Modbus frontends: client admission and the table of pending requests. */
module Frontend {
  import opened Bytes

  datatype Transport = TcpSocket | UnixSocket(maxClients: nat)

  datatype Phase = Reading | Publishing | Closing

  /** `client` stands for the connection whose writer the entry keeps. */
  datatype Pending = Pending(tid: nat, pid: nat, unit: int, client: nat)

  datatype Front = Front(
    transport: Transport,
    name: string,
    counter: nat,
    current: int,
    handlers: map<nat, Phase>,
    pending: map<string, Pending>)

  // ---------------------------------------------------------------------------
  // Request ids
  // ---------------------------------------------------------------------------

  function Digit(n: nat): char
    requires n < 10
  {
    "0123456789"[n]
  }

  function Decimal(n: nat): (s: string)
    ensures s != [] && ':' !in s
  {
    if n < 10 then [Digit(n)] else Decimal(n / 10) + [Digit(n % 10)]
  }

  function ClientId(transport: Transport, name: string, client: nat): string {
    name + (if transport.TcpSocket? then "-c" else "-u") + Decimal(client)
  }

  function RequestId(transport: Transport, name: string, client: nat, tid: nat): string {
    ClientId(transport, name, client) + ":" + Decimal(tid)
  }

  lemma {:induction false} DecimalInjective(m: nat, n: nat)
    requires Decimal(m) == Decimal(n)
    ensures m == n
    decreases m
  {
    var s := Decimal(m);
    assert s[|s| - 1] == Digit(m % 10) == Digit(n % 10);
    if m >= 10 && n >= 10 {
      assert Decimal(m / 10) == s[..|s| - 1] == Decimal(n / 10);
      DecimalInjective(m / 10, n / 10);
    }
  }

  /** The number a string of digits stands for. */
  function Number(s: string): int {
    if s == "" then 0 else 10 * Number(s[..|s| - 1]) + (s[|s| - 1] as int - '0' as int)
  }

  predicate AllDigits(s: string) {
    forall i | 0 <= i < |s| :: '0' <= s[i] <= '9'
  }

  /** Numbers are written in plain decimal, without leading zeros. */
  lemma {:induction false} DecimalReads(n: nat)
    ensures AllDigits(Decimal(n)) && Number(Decimal(n)) == n && (Decimal(n)[0] == '0' ==> n == 0)
  {
    var s := Decimal(n);
    DigitReads(n % 10);
    if n < 10 {
      assert s[..0] == "";
      assert n % 10 == n;
    } else {
      DecimalReads(n / 10);
      assert s[..|s| - 1] == Decimal(n / 10);
    }
  }

  lemma DigitReads(d: nat)
    requires d < 10
    ensures '0' <= Digit(d) <= '9' && Digit(d) as int - '0' as int == d
  {
  }

  lemma PrefixCancels(p: string, a: string, b: string)
    requires p + a == p + b
    ensures a == b
  {
    assert (p + a)[|p|..] == a && (p + b)[|p|..] == b;
  }

  lemma ColonSplits(a: string, b: string, c: string, d: string)
    requires ':' !in a && ':' !in c && a + ":" + b == c + ":" + d
    ensures a == c && b == d
  {
    var s := a + ":" + b;
    assert s[|a|] == ':' && s[|c|] == ':';
    assert forall i | 0 <= i < |a| :: s[i] == a[i];
    assert forall i | 0 <= i < |c| :: s[i] == c[i];
    assert |a| == |c|;
    assert s[..|a|] == a && s[..|c|] == c;
    assert s[|a| + 1..] == b && s[|c| + 1..] == d;
  }

  /** Within one frontend a request id names its client and transaction id. */
  lemma RequestIdInjective(transport: Transport, name: string, c: nat, t: nat, d: nat, u: nat)
    requires RequestId(transport, name, c, t) == RequestId(transport, name, d, u)
    ensures c == d && t == u
  {
    var p := name + (if transport.TcpSocket? then "-c" else "-u");
    assert RequestId(transport, name, c, t) == p + (Decimal(c) + ":" + Decimal(t));
    assert RequestId(transport, name, d, u) == p + (Decimal(d) + ":" + Decimal(u));
    PrefixCancels(p, Decimal(c) + ":" + Decimal(t), Decimal(d) + ":" + Decimal(u));
    ColonSplits(Decimal(c), Decimal(t), Decimal(d), Decimal(u));
    DecimalInjective(c, d);
    DecimalInjective(t, u);
  }

  // ---------------------------------------------------------------------------
  // The frontend's transitions
  // ---------------------------------------------------------------------------

  function Create(transport: Transport, name: string): Front {
    Front(transport, name, 0, 0, map[], map[])
  }

  predicate Refuses(f: Front) {
    f.transport.UnixSocket? && f.current >= f.transport.maxClients
  }

  /** A new client; the Unix frontend also counts it. */
  function Accept(f: Front): Front
    requires !Refuses(f)
  {
    var c := f.counter + 1;
    f.(counter := c,
       current := if f.transport.UnixSocket? then f.current + 1 else f.current,
       handlers := f.handlers[c := Reading])
  }

  /** A client rejected for its certificate has already used up a number. */
  function DenyIdentity(f: Front): Front {
    f.(counter := f.counter + 1)
  }

  function OnRequest(f: Front, client: nat, tid: nat, unit: int): Front {
    f.(pending := f.pending[RequestId(f.transport, f.name, client, tid) := Pending(tid, 0, unit, client)])
  }

  function SetPhase(f: Front, client: nat, phase: Phase): Front {
    f.(handlers := f.handlers[client := phase])
  }

  function Without<V>(m: map<string, V>, key: string): map<string, V> {
    map k | k in m && k != key :: m[k]
  }

  /** A response takes its entry out of the table. */
  function OnResponse(f: Front, requestId: string): Front {
    f.(pending := Without(f.pending, requestId))
  }

  function OnHangUp(f: Front, client: nat): Front {
    SetPhase(f, client, Closing).(pending := map k | k in f.pending && f.pending[k].client != client :: f.pending[k])
  }

  function Clamped(n: int): int {
    if n < 0 then 0 else n
  }

  function OnClosed(f: Front, client: nat): Front {
    f.(handlers := map c | c in f.handlers && c != client :: f.handlers[c],
       current := if f.transport.UnixSocket? then Clamped(f.current - 1) else f.current)
  }

  // ---------------------------------------------------------------------------
  // The object itself
  // ---------------------------------------------------------------------------

  class FrontendTable {
    const transport: Transport
    const name: string
    var counter: nat
    var current: int
    var handlers: map<nat, Phase>
    var pending: map<string, Pending>

    constructor (transport: Transport, name: string)
      ensures this.transport == transport && this.name == name
      ensures View() == Create(transport, name)
    {
      this.transport, this.name := transport, name;
      counter, current, handlers, pending := 0, 0, map[], map[];
    }

    function View(): Front
      reads this
    {
      Front(transport, name, counter, current, handlers, pending)
    }

    method AcceptClient() returns (client: Option<nat>)
      modifies this
      ensures old(Refuses(View())) ==> client == None && View() == old(View())
      ensures !old(Refuses(View())) ==> client == Some(old(counter) + 1) && View() == Accept(old(View()))
      ensures client == None <==> transport.UnixSocket? && old(current) >= transport.maxClients
      ensures client.Some? ==>
                && counter == old(counter) + 1 && handlers == old(handlers)[counter := Reading]
                && current == old(current) + (if transport.UnixSocket? then 1 else 0) && pending == old(pending)
    {
      if transport.UnixSocket? {
        if current >= transport.maxClients {
          return None;
        }
        current := current + 1;
      }
      counter := counter + 1;
      handlers := handlers[counter := Reading];
      client := Some(counter);
    }

    /** A client turned away for its certificate. */
    method RejectClient()
      modifies this
      ensures View() == DenyIdentity(old(View()))
      ensures counter == old(counter) + 1
      ensures current == old(current) && handlers == old(handlers) && pending == old(pending)
    {
      counter := counter + 1;
    }

    method RecordRequest(client: nat, tid: nat, unit: int) returns (requestId: string)
      modifies this
      ensures requestId == RequestId(transport, name, client, tid)
      ensures requestId == name + (if transport.TcpSocket? then "-c" else "-u") + Decimal(client) + ":" + Decimal(tid)
      ensures View() == OnRequest(old(View()), client, tid, unit)
      ensures pending == old(pending)[requestId := Pending(tid, 0, unit, client)]
      ensures counter == old(counter) && current == old(current) && handlers == old(handlers)
    {
      requestId := RequestId(transport, name, client, tid);
      pending := pending[requestId := Pending(tid, 0, unit, client)];
    }

    method TakePending(requestId: string) returns (entry: Option<Pending>)
      modifies this
      ensures entry == if requestId in old(pending) then Some(old(pending)[requestId]) else None
      ensures View() == OnResponse(old(View()), requestId)
      ensures pending == old(pending) - {requestId}
      ensures counter == old(counter) && current == old(current) && handlers == old(handlers)
    {
      entry := None;
      if requestId in pending {
        entry := Some(pending[requestId]);
      }
      pending := map k | k in pending && k != requestId :: pending[k];
    }

    /** The handler's cleanup: collect the client's ids, then drop them one by one. */
    method HangUp(client: nat)
      modifies this
      ensures View() == OnHangUp(old(View()), client)
      ensures forall id :: id in pending <==> id in old(pending) && old(pending)[id].client != client
      ensures forall id | id in pending :: pending[id] == old(pending)[id]
      ensures counter == old(counter) && current == old(current) && handlers == old(handlers)[client := Closing]
    {
      ghost var before := pending;
      var toRemove := set k | k in pending && pending[k].client == client;
      ghost var all := toRemove;
      while toRemove != {}
        invariant toRemove <= all
        invariant pending == map k | k in before && k !in all - toRemove :: before[k]
        invariant View() == old(View()).(pending := pending)
        decreases toRemove
      {
        var k :| k in toRemove;
        pending := Without(pending, k);
        toRemove := toRemove - {k};
      }
      handlers := handlers[client := Closing];
    }

    method ClientClosed(client: nat)
      modifies this
      ensures View() == OnClosed(old(View()), client)
      ensures handlers == old(handlers) - {client} && counter == old(counter) && pending == old(pending)
      ensures transport.TcpSocket? ==> current == old(current)
      ensures transport.UnixSocket? ==> current == if old(current) >= 1 then old(current) - 1 else 0
    {
      handlers := map c | c in handlers && c != client :: handlers[c];
      if transport.UnixSocket? {
        current := if current - 1 < 0 then 0 else current - 1;
      }
    }
  }

  // ---------------------------------------------------------------------------
  // Invariant
  // ---------------------------------------------------------------------------

  predicate Live(f: Front, client: nat) {
    client in f.handlers && !f.handlers[client].Closing?
  }

  ghost predicate FrontInvariant(f: Front) {
    && (forall k | k in f.pending ::
          Live(f, f.pending[k].client) && f.pending[k].pid == 0
          && k == RequestId(f.transport, f.name, f.pending[k].client, f.pending[k].tid))
    && (forall c | c in f.handlers :: 1 <= c <= f.counter)
    && (f.transport.UnixSocket? ==> f.current == |f.handlers| <= f.transport.maxClients)
  }

  lemma CreateInvariant(transport: Transport, name: string)
    ensures FrontInvariant(Create(transport, name))
  {
  }

  lemma MapGrows<V>(m: map<nat, V>, k: nat, v: V)
    requires k !in m
    ensures |m[k := v]| == |m| + 1
  {
    assert m[k := v].Keys == m.Keys + {k};
  }

  /** A new client is refused exactly on a Unix socket that serves as many clients as it may. */
  lemma RefusesExactly(f: Front)
    requires FrontInvariant(f)
    ensures Refuses(f) <==> f.transport.UnixSocket? && |f.handlers| == f.transport.maxClients
  {
  }

  lemma AcceptKeeps(f: Front)
    requires FrontInvariant(f) && !Refuses(f)
    ensures FrontInvariant(Accept(f)) && f.counter + 1 !in f.handlers
  {
    MapGrows(f.handlers, f.counter + 1, Reading);
  }

  lemma RequestKeeps(f: Front, client: nat, tid: nat, unit: int)
    requires FrontInvariant(f) && Live(f, client)
    ensures FrontInvariant(OnRequest(f, client, tid, unit))
  {
  }

  lemma PhaseKeeps(f: Front, client: nat, phase: Phase)
    requires FrontInvariant(f) && Live(f, client) && !phase.Closing?
    ensures FrontInvariant(SetPhase(f, client, phase))
  {
    assert SetPhase(f, client, phase).handlers.Keys == f.handlers.Keys;
  }

  lemma ResponseKeeps(f: Front, requestId: string)
    requires FrontInvariant(f)
    ensures FrontInvariant(OnResponse(f, requestId))
  {
  }

  lemma HangUpKeeps(f: Front, client: nat)
    requires FrontInvariant(f) && Live(f, client)
    ensures FrontInvariant(OnHangUp(f, client))
  {
    assert OnHangUp(f, client).handlers.Keys == f.handlers.Keys;
  }

  /** The clamp of the Unix client count never acts. */
  lemma ClosedKeeps(f: Front, client: nat)
    requires FrontInvariant(f) && client in f.handlers && f.handlers[client].Closing?
    ensures FrontInvariant(OnClosed(f, client))
    ensures f.transport.UnixSocket? ==> OnClosed(f, client).current == f.current - 1
  {
    assert OnClosed(f, client).handlers.Keys == f.handlers.Keys - {client};
  }
}
