/** Exactly which answers are dropped when a client reuses transaction ids. */
module PipelineReuse {
  import opened Bus
  import opened Bytes
  import opened Frontend
  import opened Pdu
  import opened Pipeline
  import opened PipelineGuarantees
  import opened PipelineSafety

  predicate LiveClient(fronts: map<string, Front>, k: Client) {
    k.frontend in fronts && Live(fronts[k.frontend], k.number)
  }

  /** A number not given out yet has sent and been sent nothing. */
  predicate Unused(fronts: map<string, Front>, k: Client, mine: seq<Job>, frames: seq<Written>) {
    k.frontend in fronts && k.number > fronts[k.frontend].counter ==> mine == [] && frames == []
  }

  predicate Names(m: Message, k: Client, id: string) {
    m.frontend == k.frontend && m.requestId == id
  }

  /** This request was sent under `id` before message `p` was handled, and nothing under `id` was handled in between. */
  ghost predicate Announces(k: Client, job: Job, handled: seq<Message>, p: nat, id: string)
    requires p <= |handled|
  {
    job.requestId == id && job.since <= p && forall q | job.since <= q < p :: !Names(handled[q], k, id)
  }

  ghost predicate Announced(k: Client, mine: seq<Job>, handled: seq<Message>, p: nat, id: string)
    requires p <= |handled|
  {
    exists a | 0 <= a < |mine| :: Announces(k, mine[a], handled, p, id)
  }

  ghost predicate FrameAt(frames: seq<Written>, p: nat) {
    exists i | 0 <= i < |frames| :: frames[i].position == p
  }

  predicate Entry(pending: map<string, Pending>, k: Client, id: string) {
    id in pending && pending[id].client == k.number
  }

  ghost predicate EntriesExact(pending: map<string, Pending>, k: Client, mine: seq<Job>, handled: seq<Message>) {
    forall id :: Entry(pending, k, id) <==> Announced(k, mine, handled, |handled|, id)
  }

  ghost predicate FrameExact(c: Config, k: Client, mine: seq<Job>, handled: seq<Message>, frames: seq<Written>, p: nat)
    requires p < |handled|
  {
    FrameAt(frames, p) <==>
      AnswerTo(c, handled[p].job).Some? && Announced(k, mine, handled, p, handled[p].requestId)
  }

  ghost predicate FramesExact(c: Config, k: Client, mine: seq<Job>, handled: seq<Message>, frames: seq<Written>) {
    forall p | 0 <= p < |handled| && handled[p].job.client == k :: FrameExact(c, k, mine, handled, frames, p)
  }

  ghost predicate Past(mine: seq<Job>, handled: seq<Message>) {
    forall a | 0 <= a < |mine| :: mine[a].since <= |handled|
  }

  ghost predicate SentFirst(k: Client, handled: seq<Message>) {
    forall p | 0 <= p < |handled| && handled[p].job.client == k :: handled[p].job.since <= p
  }

  ghost predicate Exact(
      c: Config, fronts: map<string, Front>, k: Client, mine: seq<Job>, handled: seq<Message>, frames: seq<Written>) {
    && Past(mine, handled) && SentFirst(k, handled)
    && Unused(fronts, k, mine, frames)
    && (LiveClient(fronts, k) ==>
          EntriesExact(fronts[k.frontend].pending, k, mine, handled) && FramesExact(c, k, mine, handled, frames))
  }

  ghost predicate ExactIn(c: Config, s: State, k: Client) {
    Exact(c, s.fronts, k, Of(s.sent, k), s.handled, Of(s.written, k))
  }

  lemma EntrySet(pending: map<string, Pending>, k: Client, id: string, entry: Pending)
    ensures forall i :: Entry(pending[id := entry], k, i) <==>
                        if i == id then entry.client == k.number else Entry(pending, k, i)
  {
    forall i
      ensures Entry(pending[id := entry], k, i) <==> if i == id then entry.client == k.number else Entry(pending, k, i)
    {
      if i == id {
        assert pending[id := entry][i] == entry;
      } else {
        assert i in pending[id := entry] <==> i in pending;
      }
    }
  }

  lemma EntryDropped(pending: map<string, Pending>, k: Client, id: string)
    ensures forall i :: Entry(Without(pending, id), k, i) <==> i != id && Entry(pending, k, i)
  {
  }

  // ---------------------------------------------------------------------------
  // A request is sent
  // ---------------------------------------------------------------------------

  lemma SentEntries(
      pending: map<string, Pending>, k: Client, mine: seq<Job>, handled: seq<Message>, job: Job, entry: Pending)
    requires EntriesExact(pending, k, mine, handled) && entry.client == k.number && job.since == |handled|
    ensures EntriesExact(pending[job.requestId := entry], k, mine + [job], handled)
  {
    var n := |handled|;
    forall id
      ensures Announced(k, mine + [job], handled, n, id) <==> id == job.requestId || Announced(k, mine, handled, n, id)
    {
      assert (mine + [job])[|mine|] == job;
      if Announced(k, mine, handled, n, id) {
        var a :| 0 <= a < |mine| && Announces(k, mine[a], handled, n, id);
        assert (mine + [job])[a] == mine[a];
      }
      if id == job.requestId {
        assert Announces(k, job, handled, n, id);
      }
    }
    EntrySet(pending, k, job.requestId, entry);
  }

  lemma SentFrames(c: Config, k: Client, mine: seq<Job>, handled: seq<Message>, frames: seq<Written>, job: Job)
    requires FramesExact(c, k, mine, handled, frames) && job.since == |handled|
    ensures FramesExact(c, k, mine + [job], handled, frames)
  {
    forall p | 0 <= p < |handled| && handled[p].job.client == k
      ensures FrameExact(c, k, mine + [job], handled, frames, p)
    {
      var id := handled[p].requestId;
      assert FrameExact(c, k, mine, handled, frames, p);
      if Announced(k, mine, handled, p, id) {
        var a :| 0 <= a < |mine| && Announces(k, mine[a], handled, p, id);
        assert (mine + [job])[a] == mine[a];
      }
    }
  }

  lemma OthersEntry(
      pending: map<string, Pending>, k: Client, mine: seq<Job>, handled: seq<Message>, id: string, entry: Pending)
    requires EntriesExact(pending, k, mine, handled) && entry.client != k.number && !Entry(pending, k, id)
    ensures EntriesExact(pending[id := entry], k, mine, handled)
  {
    EntrySet(pending, k, id, entry);
  }

  // ---------------------------------------------------------------------------
  // A message is handled
  // ---------------------------------------------------------------------------

  lemma HandledAnnouncements(k: Client, mine: seq<Job>, handled: seq<Message>, m: Message, id: string)
    requires Past(mine, handled)
    ensures Announced(k, mine, handled + [m], |handled| + 1, id)
            <==> !Names(m, k, id) && Announced(k, mine, handled, |handled|, id)
  {
    var n, after := |handled|, handled + [m];
    forall a | 0 <= a < |mine|
      ensures Announces(k, mine[a], after, n + 1, id) <==> !Names(m, k, id) && Announces(k, mine[a], handled, n, id)
    {
      assert after[n] == m;
      assert forall q | 0 <= q < n :: after[q] == handled[q];
    }
  }

  lemma HandledEntries(pending: map<string, Pending>, k: Client, mine: seq<Job>, handled: seq<Message>, m: Message)
    requires EntriesExact(pending, k, mine, handled) && Past(mine, handled)
    ensures m.frontend == k.frontend ==> EntriesExact(Without(pending, m.requestId), k, mine, handled + [m])
    ensures m.frontend != k.frontend ==> EntriesExact(pending, k, mine, handled + [m])
  {
    var after := handled + [m];
    EntryDropped(pending, k, m.requestId);
    forall id
      ensures Announced(k, mine, after, |after|, id) <==> !Names(m, k, id) && Entry(pending, k, id)
      ensures m.frontend == k.frontend ==>
                (Entry(Without(pending, m.requestId), k, id) <==> Announced(k, mine, after, |after|, id))
    {
      HandledAnnouncements(k, mine, handled, m, id);
    }
  }

  /** Messages handled later change nothing about the frame of an earlier one. */
  lemma EarlierFrame(
      c: Config, k: Client, mine: seq<Job>, handled: seq<Message>, frames: seq<Written>, m: Message,
      more: seq<Written>, p: nat)
    requires p < |handled| && FrameExact(c, k, mine, handled, frames, p)
    requires forall i | 0 <= i < |more| :: more[i].position == |handled|
    ensures FrameExact(c, k, mine, handled + [m], frames + more, p)
  {
    var id := handled[p].requestId;
    forall a | 0 <= a < |mine|
      ensures Announces(k, mine[a], handled + [m], p, id) <==> Announces(k, mine[a], handled, p, id)
    {
      assert forall q | 0 <= q < p :: (handled + [m])[q] == handled[q];
    }
    if FrameAt(frames, p) {
      var i :| 0 <= i < |frames| && frames[i].position == p;
      assert (frames + more)[i].position == p;
    }
  }

  /** The frame of the message handled last. */
  lemma LatestFrame(
      c: Config, k: Client, mine: seq<Job>, handled: seq<Message>, frames: seq<Written>, m: Message, more: seq<Written>)
    requires forall i | 0 <= i < |frames| :: frames[i].position < |handled|
    requires forall i | 0 <= i < |more| :: more[i].position == |handled|
    requires more != [] <==> AnswerTo(c, m.job).Some? && Announced(k, mine, handled, |handled|, m.requestId)
    ensures FrameExact(c, k, mine, handled + [m], frames + more, |handled|)
  {
    var n := |handled|;
    forall a | 0 <= a < |mine|
      ensures Announces(k, mine[a], handled + [m], n, m.requestId) <==> Announces(k, mine[a], handled, n, m.requestId)
    {
      assert forall q | 0 <= q < n :: (handled + [m])[q] == handled[q];
    }
    if more != [] {
      assert (frames + more)[|frames|].position == n;
    }
  }

  lemma HandledFrames(
      c: Config, k: Client, mine: seq<Job>, handled: seq<Message>, frames: seq<Written>, m: Message, more: seq<Written>)
    requires FramesExact(c, k, mine, handled, frames)
    requires forall i | 0 <= i < |frames| :: frames[i].position < |handled|
    requires forall i | 0 <= i < |more| :: more[i].position == |handled|
    requires m.job.client == k ==>
               (more != [] <==> AnswerTo(c, m.job).Some? && Announced(k, mine, handled, |handled|, m.requestId))
    ensures FramesExact(c, k, mine, handled + [m], frames + more)
  {
    forall p | 0 <= p < |handled + [m]| && (handled + [m])[p].job.client == k
      ensures FrameExact(c, k, mine, handled + [m], frames + more, p)
    {
      if p < |handled| {
        EarlierFrame(c, k, mine, handled, frames, m, more, p);
      } else {
        LatestFrame(c, k, mine, handled, frames, m, more);
      }
    }
  }

  // ---------------------------------------------------------------------------
  // Every step
  // ---------------------------------------------------------------------------

  /** A frontend's change from `f` to `g`, with this client's own requests and frames left alone. */
  lemma FrontExact(
      c: Config, fronts: map<string, Front>, name: string, g: Front, k: Client,
      mine: seq<Job>, handled: seq<Message>, frames: seq<Written>)
    requires Exact(c, fronts, k, mine, handled, frames)
    requires name in fronts && fronts[name].counter <= g.counter
    requires k.frontend == name && Live(g, k.number) ==>
               && EntriesExact(g.pending, k, mine, handled)
               && (Live(fronts[name], k.number) || FramesExact(c, k, mine, handled, frames))
    ensures Exact(c, fronts[name := g], k, mine, handled, frames)
  {
  }

  lemma NoneHandled(c: Config, s: State, k: Client)
    requires Invariant(c, s) && Of(s.sent, k) == []
    ensures forall p | 0 <= p < |s.handled| :: s.handled[p].job.client != k
  {
    forall p | 0 <= p < |s.handled|
      ensures s.handled[p].job.client != k
    {
      HandledArrived(c, s, p);
      NumberedByRank(c, s, p);
    }
  }

  lemma ConnectExact(c: Config, s: State, name: string, k: Client)
    requires Invariant(c, s) && ExactIn(c, s, k) && name in s.fronts && !Refuses(s.fronts[name])
    ensures ExactIn(c, UpdateFront(s, name, Accept(s.fronts[name])), k)
  {
    var f := s.fronts[name];
    assert FrontInvariant(f);
    if k == Client(name, f.counter + 1) {
      NoneHandled(c, s, k);
      assert EntriesExact(f.pending, k, [], s.handled);
    }
    FrontExact(c, s.fronts, name, Accept(f), k, Of(s.sent, k), s.handled, Of(s.written, k));
  }

  lemma HangUpEntries(f: Front, n: nat, k: Client)
    requires k.number != n
    ensures forall id :: Entry(OnHangUp(f, n).pending, k, id) <==> Entry(f.pending, k, id)
  {
  }

  lemma HangUpExact(c: Config, s: State, j: Client, k: Client)
    requires ExactIn(c, s, k) && InPhase(s.fronts, j, Reading)
    ensures ExactIn(c, UpdateFront(s, j.frontend, OnHangUp(s.fronts[j.frontend], j.number)), k)
  {
    var f := s.fronts[j.frontend];
    if k.number != j.number {
      HangUpEntries(f, j.number, k);
    }
    FrontExact(c, s.fronts, j.frontend, OnHangUp(f, j.number), k, Of(s.sent, k), s.handled, Of(s.written, k));
  }

  lemma ConnectionExact(c: Config, s: State, a: Action, k: Client)
    requires Invariant(c, s) && ExactIn(c, s, k) && Connection(a) && Next(c, s, a).Some?
    ensures ExactIn(c, Next(c, s, a).value, k)
  {
    ConnectionIsStep(c, s, a);
    if a.Connect? {
      ConnectExact(c, s, a.frontend, k);
    } else if a.HangUp? {
      HangUpExact(c, s, a.client, k);
    } else {
      FrontExact(c, s.fronts, Touched(a), Moved(s.fronts[Touched(a)], a), k,
                 Of(s.sent, k), s.handled, Of(s.written, k));
    }
  }

  /** An entry under a request's id is its own client's. */
  lemma EntryOwner(f: Front, n: nat, tid: nat)
    requires FrontInvariant(f)
    ensures var id := RequestId(f.transport, f.name, n, tid); id in f.pending ==> f.pending[id].client == n
  {
    var id := RequestId(f.transport, f.name, n, tid);
    if id in f.pending {
      RequestIdInjective(f.transport, f.name, f.pending[id].client, f.pending[id].tid, n, tid);
    }
  }

  lemma ArrivalExact(
      c: Config, fronts: map<string, Front>, k: Client, mine: seq<Job>, handled: seq<Message>, frames: seq<Written>,
      job: Job, unit: int, waits: bool)
    requires Exact(c, fronts, k, mine, handled, frames)
    requires WellLabelled(fronts, job) && LiveClient(fronts, job.client) && FrontInvariant(fronts[job.client.frontend])
    requires job.since == |handled|
    ensures var f := fronts[job.client.frontend];
            var noted := OnRequest(f, job.client.number, job.tid, unit);
            var g := if waits then SetPhase(noted, job.client.number, Publishing) else noted;
            var now := if job.client == k then mine + [job] else mine;
            Exact(c, fronts[job.client.frontend := g], k, now, handled, frames)
  {
    var f, j := fronts[job.client.frontend], job.client;
    var entry := Pending(job.tid, 0, unit, j.number);
    EntryOwner(f, j.number, job.tid);
    if LiveClient(fronts, k) && k.frontend == j.frontend {
      if j == k {
        SentEntries(f.pending, k, mine, handled, job, entry);
        SentFrames(c, k, mine, handled, frames, job);
      } else {
        OthersEntry(f.pending, k, mine, handled, job.requestId, entry);
      }
    }
  }

  lemma ArriveExact(c: Config, s: State, j: Client, tid: nat, request: Request, k: Client)
    requires Invariant(c, s) && ExactIn(c, s, k) && InPhase(s.fronts, j, Reading)
    ensures ExactIn(c, ArriveStep(c, s, j, tid, request), k)
  {
    ArrivalExact(c, s.fronts, k, Of(s.sent, k), s.handled, Of(s.written, k),
                 JobFor(s, j, tid, request), request.unit, !HasRoom(s.requests, c.queueSize));
  }

  lemma PutExact(c: Config, s: State, i: nat, k: Client)
    requires Invariant(c, s) && ExactIn(c, s, k) && i < |s.blocked| && s.blocked[i].client.frontend in s.fronts
    ensures ExactIn(c, PutStep(s, i), k)
  {
    var j := s.blocked[i].client;
    BlockedFrom(s.fronts, s.blocked, i, j);
    FrontExact(c, s.fronts, j.frontend, SetPhase(s.fronts[j.frontend], j.number, Reading), k,
               Of(s.sent, k), s.handled, Of(s.written, k));
  }

  lemma ResponseExact(
      c: Config, fronts: map<string, Front>, k: Client, mine: seq<Job>, handled: seq<Message>, frames: seq<Written>,
      m: Message, more: seq<Written>)
    requires Exact(c, fronts, k, mine, handled, frames)
    requires forall i | 0 <= i < |frames| :: frames[i].position < |handled|
    requires forall i | 0 <= i < |more| :: more[i].position == |handled|
    requires m.job.client == k ==> m.job.since <= |handled|
    requires more != [] ==> m.job.client == k && LiveClient(fronts, k)
    requires m.job.client == k && LiveClient(fronts, k) ==>
               (more != [] <==> AnswerTo(c, m.job).Some? && Entry(fronts[k.frontend].pending, k, m.requestId))
    ensures Exact(c, Popped(fronts, m), k, mine, handled + [m], frames + more)
  {
    if LiveClient(fronts, k) {
      HandledEntries(fronts[k.frontend].pending, k, mine, handled, m);
      HandledFrames(c, k, mine, handled, frames, m, more);
    }
  }

  /** What the step adds to this client's frames. */
  function Added(delivery: Option<Delivery>, position: nat, k: Client): seq<Written> {
    if delivery.Some? && delivery.value.to == k then [Written(position, delivery.value.bytes)] else []
  }

  lemma RecordedAdds(written: map<Client, seq<Written>>, position: nat, delivery: Option<Delivery>, k: Client)
    ensures Of(Recorded(written, position, delivery), k) == Of(written, k) + Added(delivery, position, k)
  {
  }

  lemma DeliveredExactly(c: Config, s: State, delivery: Option<Delivery>, k: Client)
    requires Invariant(c, s) && s.responses != [] && delivery == DeliveryFor(s.fronts, s.responses[0])
    ensures var m, added := s.responses[0], Added(delivery, |s.handled|, k);
            && (added != [] ==> m.job.client == k && LiveClient(s.fronts, k))
            && (m.job.client == k && LiveClient(s.fronts, k) ==>
                  (added != [] <==> AnswerTo(c, m.job).Some? && Entry(s.fronts[k.frontend].pending, k, m.requestId)))
  {
    var m := s.responses[0];
    OldestResponse(c, s);
    DeliveryIsAnswer(s.fronts, m);
    if m.frontend in s.fronts {
      assert FrontInvariant(s.fronts[m.frontend]);
      EntryOwner(s.fronts[m.frontend], m.job.client.number, m.job.tid);
    }
  }

  lemma FramePositions(c: Config, s: State, k: Client)
    requires Invariant(c, s)
    ensures forall i | 0 <= i < |Of(s.written, k)| :: Of(s.written, k)[i].position < |s.handled|
  {
    assert FramesOk(Of(s.written, k), s.handled, k);
    forall i | 0 <= i < |Of(s.written, k)|
      ensures Of(s.written, k)[i].position < |s.handled|
    {
      assert Carries(s.handled, k, Of(s.written, k)[i]);
    }
  }

  lemma OldestSentBefore(c: Config, s: State, k: Client)
    requires Invariant(c, s) && Past(Of(s.sent, k), s.handled) && s.responses != []
    ensures s.responses[0].job.client == k ==> s.responses[0].job.since <= |s.handled|
  {
    OldestResponse(c, s);
    NumberedByRank(c, s, |s.handled|);
  }

  lemma RespondedExact(c: Config, s: State, delivery: Option<Delivery>, k: Client)
    requires Invariant(c, s) && ExactIn(c, s, k) && s.responses != []
    requires delivery == DeliveryFor(s.fronts, s.responses[0])
    ensures Exact(c, Popped(s.fronts, s.responses[0]), k, Of(s.sent, k), s.handled + [s.responses[0]],
                  Of(s.written, k) + Added(delivery, |s.handled|, k))
  {
    OldestSentBefore(c, s, k);
    DeliveredExactly(c, s, delivery, k);
    FramePositions(c, s, k);
    ResponseExact(c, s.fronts, k, Of(s.sent, k), s.handled, Of(s.written, k), s.responses[0],
                  Added(delivery, |s.handled|, k));
  }

  lemma RespondExact(c: Config, s: State, delivery: Option<Delivery>, k: Client)
    requires Invariant(c, s) && ExactIn(c, s, k) && s.responses != []
    requires delivery == DeliveryFor(s.fronts, s.responses[0])
    ensures ExactIn(c, RespondWith(s, delivery), k)
  {
    RespondedExact(c, s, delivery, k);
    RecordedAdds(s.written, |s.handled|, delivery, k);
  }

  lemma DispatcherExact(c: Config, s: State, a: Action, k: Client)
    requires ExactIn(c, s, k) && (Dispatching(a) || a.DrainDone?) && Next(c, s, a).Some?
    ensures ExactIn(c, Next(c, s, a).value, k)
  {
    if Dispatching(a) {
      DispatchingFrame(c, s, a);
    }
  }

  lemma NextExact(c: Config, s: State, a: Action, k: Client)
    requires Invariant(c, s) && ExactIn(c, s, k) && Next(c, s, a).Some?
    ensures ExactIn(c, Next(c, s, a).value, k)
  {
    if Connection(a) {
      ConnectionExact(c, s, a, k);
    } else if a.Arrive? {
      ArriveIsStep(c, s, a);
      ArriveExact(c, s, a.client, a.tid, a.request, k);
    } else if a.Put? {
      PutIsStep(c, s, a);
      PutExact(c, s, a.index, k);
    } else if a.Respond? {
      RespondIsStep(c, s);
      RespondExact(c, s, DeliveryFor(s.fronts, s.responses[0]), k);
    } else {
      DispatcherExact(c, s, a, k);
    }
  }

  lemma {:induction false} RunExact(c: Config, s: State, actions: seq<Action>, k: Client)
    requires Invariant(c, s) && ExactIn(c, s, k) && Run(c, s, actions).Some?
    ensures ExactIn(c, Run(c, s, actions).value, k)
    decreases |actions|
  {
    if actions != [] {
      NextKeepsInvariant(c, s, actions[0]);
      NextExact(c, s, actions[0], k);
      RunExact(c, Next(c, s, actions[0]).value, actions[1..], k);
    }
  }

  /**
    * In every run, an answered request of a still connected client got its frame exactly when the
    * client had sent its id since a message under that id was last handled. Otherwise it was dropped.
    */
  lemma WrittenExactly(c: Config, start: State, actions: seq<Action>, k: Client, p: nat)
    requires Initial(start) && Run(c, start, actions).Some?
    requires var s := Run(c, start, actions).value;
             LiveClient(s.fronts, k) && p < |s.handled| && s.handled[p].job.client == k
    ensures var s := Run(c, start, actions).value;
            FrameAt(Of(s.written, k), p) <==>
              && AnswerTo(c, s.handled[p].job).Some?
              && Announced(k, Of(s.sent, k), s.handled, p, s.handled[p].requestId)
  {
    InitialInvariant(c, start);
    assert ExactIn(c, start, k);
    RunExact(c, start, actions, k);
    var s := Run(c, start, actions).value;
    assert FrameExact(c, k, Of(s.sent, k), s.handled, Of(s.written, k), p);
  }
}
