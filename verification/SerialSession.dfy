/** One serial session shared by several tasks: mutual exclusion and the inter-frame gap. */
module SerialSession {
  import opened Bytes

  datatype Config = Config(gapMs: Option<real>, baudrate: nat, parity: bool, stopBits: real)

  ghost predicate ValidConfig(c: Config) {
    c.baudrate > 0 && c.stopBits > 0.0 && (c.gapMs.Some? ==> c.gapMs.value > 0.0)
  }

  function CharTime(c: Config): real
    requires c.baudrate > 0
  {
    (1.0 + 8.0 + (if c.parity then 1.0 else 0.0) + c.stopBits) / c.baudrate as real
  }

  function MinGap(c: Config): (gap: real)
    requires c.baudrate > 0
  {
    var configured := if c.gapMs.Some? then c.gapMs.value / 1000.0 else 0.0;
    if configured >= 3.5 * CharTime(c) then configured else 3.5 * CharTime(c)
  }

  /** A character is a start bit, eight data bits, the parity bit if there is one, and the stop bits. */
  lemma CharTimeExactly(c: Config)
    requires ValidConfig(c)
    ensures c.parity ==> CharTime(c) == (10.0 + c.stopBits) / c.baudrate as real
    ensures !c.parity ==> CharTime(c) == (9.0 + c.stopBits) / c.baudrate as real
    ensures CharTime(c) > 0.0
  {
  }

  /** The minimum gap is the larger of 3.5 character times and the configured milliseconds. */
  lemma MinGapExactly(c: Config)
    requires ValidConfig(c)
    ensures MinGap(c) >= 3.5 * CharTime(c) && (c.gapMs.Some? ==> MinGap(c) >= c.gapMs.value / 1000.0)
    ensures MinGap(c) == 3.5 * CharTime(c) || (c.gapMs.Some? && MinGap(c) == c.gapMs.value / 1000.0)
    ensures MinGap(c) > 0.0
  {
    CharTimeExactly(c);
  }

  /** How long to sleep before writing, measured at `now`. */
  function GapWait(lastEnd: Option<real>, minGap: real, now: real): (wait: real)
    ensures wait >= 0.0
  {
    if lastEnd.None? then 0.0
    else
      var remaining := minGap - (now - lastEnd.value);
      if remaining > 0.0 then remaining else 0.0
  }

  /** The fields of a session that an exchange reads and writes. */
  class GapTimer {
    const minGap: real
    var lastFrameEnd: Option<real>

    constructor (c: Config)
      requires c.baudrate > 0
      ensures minGap == MinGap(c) && lastFrameEnd == None
    {
      minGap, lastFrameEnd := MinGap(c), None;
    }

    method EnforceInterFrameGap(now: real) returns (sleep: real)
      ensures sleep == GapWait(lastFrameEnd, minGap, now)
      ensures lastFrameEnd.Some? ==> now + sleep >= lastFrameEnd.value + minGap
    {
      if lastFrameEnd.None? {
        return 0.0;
      }
      var elapsed := now - lastFrameEnd.value;
      var remaining := minGap - elapsed;
      sleep := if remaining > 0.0 then remaining else 0.0;
    }

    method FrameEnded(now: real)
      modifies this
      ensures lastFrameEnd == Some(now)
    {
      lastFrameEnd := Some(now);
    }
  }

  // ---------------------------------------------------------------------------
  // Timed runs with any number of tasks
  // ---------------------------------------------------------------------------

  datatype Holder =
    | Free
    | Sleeping(task: nat, until: real)
    | Exchanging(task: nat, start: real)

  datatype Exchange = Exchange(task: nat, start: real, end: real, succeeded: bool)

  datatype State = State(now: real, lastEnd: Option<real>, holder: Holder, history: seq<Exchange>)

  datatype Action =
    | Elapse(duration: real)         // time passes
    | Acquire(task: nat)             // take the lock, check the gap, write if no sleep is due
    | Wake                           // the sleep ended, no sooner than asked; write
    | Finish(succeeded: bool)        // the reply arrived, or the read raised; release the lock

  const INITIAL: State := State(0.0, None, Free, [])

  function Next(minGap: real, s: State, a: Action): Option<State> {
    match a
    case Elapse(d) => if d < 0.0 then None else Some(s.(now := s.now + d))
    case Acquire(task) =>
      if !s.holder.Free? then None
      else
        var wait := GapWait(s.lastEnd, minGap, s.now);
        Some(s.(holder := if wait > 0.0 then Sleeping(task, s.now + wait) else Exchanging(task, s.now)))
    case Wake =>
      if s.holder.Sleeping? && s.holder.until <= s.now
      then Some(s.(holder := Exchanging(s.holder.task, s.now)))
      else None
    case Finish(ok) =>
      if !s.holder.Exchanging? then None
      else
        var done := Exchange(s.holder.task, s.holder.start, s.now, ok);
        Some(State(s.now, if ok then Some(s.now) else s.lastEnd, Free, s.history + [done]))
  }

  function Run(minGap: real, s: State, actions: seq<Action>): Option<State>
    decreases |actions|
  {
    if actions == [] then Some(s)
    else
      match Next(minGap, s, actions[0])
      case None => None
      case Some(s') => Run(minGap, s', actions[1..])
  }

  ghost predicate Spaced(minGap: real, earlier: Exchange, start: real) {
    earlier.end <= start && (earlier.succeeded ==> earlier.end + minGap <= start)
  }

  ghost predicate Invariant(minGap: real, s: State) {
    && (forall i | 0 <= i < |s.history| :: s.history[i].start <= s.history[i].end <= s.now)
    && (forall i | 0 <= i < |s.history| && s.history[i].succeeded ::
          s.lastEnd.Some? && s.history[i].end <= s.lastEnd.value)
    && (forall i, j | 0 <= i < j < |s.history| :: Spaced(minGap, s.history[i], s.history[j].start))
    && (s.holder.Sleeping? ==> s.lastEnd.Some? && s.lastEnd.value + minGap <= s.holder.until)
    && (s.holder.Exchanging? ==>
          (s.holder.start <= s.now && (s.lastEnd.Some? ==> s.lastEnd.value + minGap <= s.holder.start)
           && forall i | 0 <= i < |s.history| :: Spaced(minGap, s.history[i], s.holder.start)))
  }

  lemma NextKeepsInvariant(minGap: real, s: State, a: Action)
    requires Invariant(minGap, s) && Next(minGap, s, a).Some?
    ensures Invariant(minGap, Next(minGap, s, a).value)
  {
  }

  lemma {:induction false} RunKeepsInvariant(minGap: real, s: State, actions: seq<Action>)
    requires Invariant(minGap, s) && Run(minGap, s, actions).Some?
    ensures Invariant(minGap, Run(minGap, s, actions).value)
    decreases |actions|
  {
    if actions != [] {
      NextKeepsInvariant(minGap, s, actions[0]);
      RunKeepsInvariant(minGap, Next(minGap, s, actions[0]).value, actions[1..]);
    }
  }

  /**
    * In every timed run the exchanges of a session follow one another without overlap, and each
    * starts at least the configured gap and 3.5 character times after every earlier success ended.
    */
  lemma ExchangesSpaced(c: Config, actions: seq<Action>, i: nat, j: nat)
    requires ValidConfig(c)
    requires var r := Run(MinGap(c), INITIAL, actions); r.Some? && i < j < |r.value.history|
    ensures var h := Run(MinGap(c), INITIAL, actions).value.history;
            && h[i].start <= h[i].end <= h[j].start
            && (h[i].succeeded ==> h[j].start - h[i].end >= 3.5 * CharTime(c))
            && (h[i].succeeded && c.gapMs.Some? ==> h[j].start - h[i].end >= c.gapMs.value / 1000.0)
  {
    MinGapExactly(c);
    RunKeepsInvariant(MinGap(c), INITIAL, actions);
    var h := Run(MinGap(c), INITIAL, actions).value.history;
    assert Spaced(MinGap(c), h[i], h[j].start);
  }

  /** Where the next task stands that takes the lock `delay` after an exchange finished. */
  function NextHolder(minGap: real, s: State, ok: bool, delay: real, task: nat): Option<Holder> {
    match Run(minGap, s, [Finish(ok), Elapse(delay), Acquire(task)])
    case None => None
    case Some(s') => Some(s'.holder)
  }

  lemma NextHolderSteps(minGap: real, s: State, ok: bool, delay: real, task: nat)
    requires Invariant(minGap, s) && minGap >= 0.0 && s.holder.Exchanging? && delay >= 0.0
    ensures var end := s.now;
            NextHolder(minGap, s, ok, delay, task) ==
            Some(if ok && delay < minGap then Sleeping(task, end + minGap) else Exchanging(task, end + delay))
  {
    var a := [Finish(ok), Elapse(delay), Acquire(task)];
    var s1 := Next(minGap, s, a[0]).value;
    var s2 := Next(minGap, s1, a[1]).value;
    var s3 := Next(minGap, s2, a[2]).value;
    assert a[1..][1..] == a[2..] && a[2..][1..] == [];
    assert Run(minGap, s3, []) == Some(s3);
    assert Run(minGap, s2, a[2..]) == Some(s3);
    assert Run(minGap, s1, a[1..]) == Some(s3);
  }

  /**
    * In every reachable state: whoever takes the lock after an exchange is held back exactly when the
    * exchange succeeded and ended less than the minimum gap ago, and then until that gap has passed.
    */
  lemma GapExactlyAfterSuccess(c: Config, actions: seq<Action>, ok: bool, delay: real, task: nat)
    requires ValidConfig(c) && delay >= 0.0
    requires var r := Run(MinGap(c), INITIAL, actions); r.Some? && r.value.holder.Exchanging?
    ensures var s := Run(MinGap(c), INITIAL, actions).value;
            NextHolder(MinGap(c), s, ok, delay, task) ==
            Some(if ok && delay < MinGap(c) then Sleeping(task, s.now + MinGap(c)) else Exchanging(task, s.now + delay))
  {
    RunKeepsInvariant(MinGap(c), INITIAL, actions);
    MinGapExactly(c);
    NextHolderSteps(MinGap(c), Run(MinGap(c), INITIAL, actions).value, ok, delay, task);
  }

  /** In particular the next exchange may start at the very instant a failed one ended. */
  lemma NoGapAfterFailure(c: Config, actions: seq<Action>, task: nat)
    requires ValidConfig(c)
    requires var r := Run(MinGap(c), INITIAL, actions); r.Some? && r.value.holder.Exchanging?
    ensures var s := Run(MinGap(c), INITIAL, actions).value;
            NextHolder(MinGap(c), s, false, 0.0, task) == Some(Exchanging(task, s.now))
  {
    GapExactlyAfterSuccess(c, actions, false, 0.0, task);
  }
}
