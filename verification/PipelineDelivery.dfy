/** Clients that wait for one answer before reusing its id get every answer, and in order. */
module PipelineDelivery {
  import opened Bytes
  import opened Frontend
  import opened Pipeline
  import opened PipelineGuarantees
  import opened PipelineProgress
  import opened PipelineReuse
  import opened PipelineSafety

  /** The frames that answer these requests, in order; requests without an answer have none. */
  function FramesOf(c: Config, jobs: seq<Job>): seq<seq<byte>> {
    if jobs == [] then []
    else
      var before := FramesOf(c, jobs[..|jobs| - 1]);
      match AnswerTo(c, jobs[|jobs| - 1])
      case None => before
      case Some(frame) => before + [frame]
  }

  function BytesOf(frames: seq<Written>): (s: seq<seq<byte>>)
    ensures |s| == |frames|
  {
    seq(|frames|, i requires 0 <= i < |frames| => frames[i].bytes)
  }

  /** How many of a client's requests have been handled. */
  function HandledOf(handled: seq<Message>, k: Client): nat {
    |From(JobsOf(handled), k)|
  }

  predicate HandledBefore(handled: seq<Message>, job: Job, n: nat) {
    exists p | 0 <= p < n && p < |handled| :: handled[p].job == job
  }

  /** The discipline: an id is sent again only after the earlier request under it has been handled. */
  ghost predicate Patient(mine: seq<Job>, handled: seq<Message>) {
    forall a, b | 0 <= a < b < |mine| && mine[a].requestId == mine[b].requestId ::
      HandledBefore(handled, mine[a], mine[b].since)
  }

  // ---------------------------------------------------------------------------
  // Every answer is written
  // ---------------------------------------------------------------------------

  lemma HandledOnce(c: Config, s: State, p: nat, q: nat)
    requires Invariant(c, s) && p < |s.handled| && q < |s.handled| && s.handled[p].job == s.handled[q].job
    ensures p == q
  {
    HandledArrived(c, s, p);
    HandledArrived(c, s, q);
    if p < q {
      ArrivalsDistinct(c, s, p, q);
    } else if q < p {
      ArrivalsDistinct(c, s, q, p);
    }
  }

  /** Two handled messages under one id of one frontend are the same client's. */
  lemma SameIdSameClient(c: Config, s: State, p: nat, q: nat)
    requires Invariant(c, s) && p < |s.handled| && q < |s.handled|
    requires s.handled[p].frontend == s.handled[q].frontend && s.handled[p].requestId == s.handled[q].requestId
    ensures s.handled[p].job.client == s.handled[q].job.client
    ensures s.handled[p].job.requestId == s.handled[q].job.requestId
  {
    HandledArrived(c, s, p);
    HandledArrived(c, s, q);
    var i, j := s.handled[p].job, s.handled[q].job;
    assert Faithful(c, s.handled[p]) && Faithful(c, s.handled[q]);
    assert WellLabelled(s.fronts, i) && WellLabelled(s.fronts, j);
    var f := s.fronts[i.client.frontend];
    RequestIdInjective(f.transport, f.name, i.client.number, i.tid, j.client.number, j.tid);
  }

  lemma PatientAnnounces(c: Config, s: State, k: Client, p: nat)
    requires Invariant(c, s) && Past(Of(s.sent, k), s.handled) && Patient(Of(s.sent, k), s.handled)
    requires p < |s.handled| && s.handled[p].job.client == k && s.handled[p].job.since <= p
    ensures Announced(k, Of(s.sent, k), s.handled, p, s.handled[p].requestId)
  {
    var job, mine, id := s.handled[p].job, Of(s.sent, k), s.handled[p].requestId;
    HandledArrived(c, s, p);
    NumberedByRank(c, s, p);
    assert Faithful(c, s.handled[p]);
    forall q | job.since <= q < p
      ensures !Names(s.handled[q], k, id)
    {
      if Names(s.handled[q], k, id) {
        SameIdSameClient(c, s, p, q);
        HandledArrived(c, s, q);
        NumberedByRank(c, s, q);
        ArrivalsInOrder(c, s, q, p);
        var earlier := s.handled[q].job;
        assert mine[earlier.serial].requestId == mine[job.serial].requestId;
        var r :| 0 <= r < job.since && r < |s.handled| && s.handled[r].job == earlier;
        HandledOnce(c, s, q, r);
      }
    }
    assert Announces(k, mine[job.serial], s.handled, p, id);
  }

  // ---------------------------------------------------------------------------
  // In the order sent
  // ---------------------------------------------------------------------------

  lemma {:induction false} FramesOfAppend(c: Config, jobs: seq<Job>, job: Job)
    ensures FramesOf(c, jobs + [job]) ==
            match AnswerTo(c, job) case None => FramesOf(c, jobs) case Some(frame) => FramesOf(c, jobs) + [frame]
  {
    assert (jobs + [job])[..|jobs|] == jobs;
  }

  lemma BytesAppend(frames: seq<Written>, m: nat)
    requires m < |frames|
    ensures BytesOf(frames[..m + 1]) == BytesOf(frames[..m]) + [frames[m].bytes]
  {
  }

  /** The frames written for the first `n` messages are the first `m`, and answer this client's requests among them. */
  ghost predicate UpTo(c: Config, k: Client, handled: seq<Message>, frames: seq<Written>, n: nat, m: nat)
    requires n <= |handled| && m <= |frames|
  {
    && (forall i | 0 <= i < |frames| :: frames[i].position < n <==> i < m)
    && BytesOf(frames[..m]) == FramesOf(c, From(JobsOf(handled[..n]), k))
  }

  /** A frame for each answered request of this client, and no other. */
  ghost predicate AllWritten(c: Config, k: Client, handled: seq<Message>, frames: seq<Written>) {
    forall p | 0 <= p < |handled| && handled[p].job.client == k ::
      FrameAt(frames, p) <==> AnswerTo(c, handled[p].job).Some?
  }

  lemma NextFrame(frames: seq<Written>, n: nat, m: nat, i: nat)
    requires forall j | 0 <= j < |frames| :: frames[j].position < n <==> j < m
    requires forall a, b | 0 <= a < b < |frames| :: frames[a].position < frames[b].position
    requires i < |frames| && frames[i].position == n
    ensures i == m
  {
    var next := frames[m];
  }

  /** A frame at `n` would carry a message of this client's. */
  lemma NoStrangerFrame(k: Client, handled: seq<Message>, frames: seq<Written>, n: nat)
    requires FramesOk(frames, handled, k) && n < |handled| && handled[n].job.client != k
    ensures !FrameAt(frames, n)
  {
    forall i | 0 <= i < |frames|
      ensures frames[i].position != n
    {
      assert Carries(handled, k, frames[i]);
    }
  }

  /** One more handled message adds its frame, if it is this client's and has an answer. */
  lemma AnswersNext(c: Config, k: Client, handled: seq<Message>, n: nat)
    requires n < |handled|
    ensures var job := handled[n].job;
            var before := FramesOf(c, From(JobsOf(handled[..n]), k));
            FramesOf(c, From(JobsOf(handled[..n + 1]), k)) ==
            if job.client == k && AnswerTo(c, job).Some? then before + [AnswerTo(c, job).value] else before
  {
    assert handled[..n + 1] == handled[..n] + [handled[n]];
    JobsOfAppend(handled[..n], handled[n]);
    FromSnoc(JobsOf(handled[..n]), handled[n].job, k);
    FramesOfAppend(c, From(JobsOf(handled[..n]), k), handled[n].job);
  }

  lemma FrameCarries(c: Config, k: Client, handled: seq<Message>, frames: seq<Written>, i: nat)
    requires FramesOk(frames, handled, k) && AllFaithful(c, handled) && i < |frames|
    ensures frames[i].position < |handled| && AnswerTo(c, handled[frames[i].position].job) == Some(frames[i].bytes)
  {
    assert Carries(handled, k, frames[i]);
    assert Faithful(c, handled[frames[i].position]);
  }

  lemma UpToFrame(c: Config, k: Client, handled: seq<Message>, frames: seq<Written>, n: nat, m: nat)
    requires FramesOk(frames, handled, k) && AllFaithful(c, handled)
    requires n < |handled| && m <= |frames| && UpTo(c, k, handled, frames, n, m)
    requires handled[n].job.client == k && FrameAt(frames, n)
    ensures m < |frames| && UpTo(c, k, handled, frames, n + 1, m + 1)
  {
    var i :| 0 <= i < |frames| && frames[i].position == n;
    NextFrame(frames, n, m, i);
    AnswersNext(c, k, handled, n);
    FrameCarries(c, k, handled, frames, m);
    BytesAppend(frames, m);
  }

  lemma UpToSkip(c: Config, k: Client, handled: seq<Message>, frames: seq<Written>, n: nat, m: nat)
    requires n < |handled| && m <= |frames| && UpTo(c, k, handled, frames, n, m) && !FrameAt(frames, n)
    requires handled[n].job.client == k ==> AnswerTo(c, handled[n].job).None?
    ensures UpTo(c, k, handled, frames, n + 1, m)
  {
    AnswersNext(c, k, handled, n);
  }

  lemma UpToNext(c: Config, k: Client, handled: seq<Message>, frames: seq<Written>, n: nat, m: nat) returns (m': nat)
    requires FramesOk(frames, handled, k) && AllWritten(c, k, handled, frames) && AllFaithful(c, handled)
    requires n < |handled| && m <= |frames| && UpTo(c, k, handled, frames, n, m)
    ensures m' <= |frames| && UpTo(c, k, handled, frames, n + 1, m')
  {
    if handled[n].job.client == k && FrameAt(frames, n) {
      UpToFrame(c, k, handled, frames, n, m);
      m' := m + 1;
    } else {
      if handled[n].job.client != k {
        NoStrangerFrame(k, handled, frames, n);
      }
      UpToSkip(c, k, handled, frames, n, m);
      m' := m;
    }
  }

  lemma {:induction false} UpToAny(c: Config, k: Client, handled: seq<Message>, frames: seq<Written>, n: nat)
    returns (m: nat)
    requires FramesOk(frames, handled, k) && AllWritten(c, k, handled, frames) && AllFaithful(c, handled)
    requires n <= |handled|
    ensures m <= |frames| && UpTo(c, k, handled, frames, n, m)
  {
    if n == 0 {
      m := 0;
      assert JobsOf(handled[..0]) == [];
    } else {
      m := UpToAny(c, k, handled, frames, n - 1);
      m := UpToNext(c, k, handled, frames, n - 1, m);
    }
  }

  lemma FramesAreAnswers(c: Config, k: Client, handled: seq<Message>, frames: seq<Written>)
    requires FramesOk(frames, handled, k) && AllWritten(c, k, handled, frames) && AllFaithful(c, handled)
    ensures BytesOf(frames) == FramesOf(c, From(JobsOf(handled), k))
  {
    var m := UpToAny(c, k, handled, frames, |handled|);
    assert handled[..|handled|] == handled;
    if frames != [] {
      assert Carries(handled, k, frames[|frames| - 1]);
    }
    assert frames[..m] == frames;
  }

  lemma HandledAreFirst(
      k: Client, mine: seq<Job>, arrived: seq<Job>, blocked: seq<Job>, handled: seq<Message>, rest: seq<Job>)
    requires SentBy(k, mine, arrived, blocked) && arrived == JobsOf(handled) + rest
    ensures HandledOf(handled, k) <= |mine| && From(JobsOf(handled), k) == mine[..HandledOf(handled, k)]
  {
    FromAppend(JobsOf(handled), rest, k);
  }

  // ---------------------------------------------------------------------------
  // Every run
  // ---------------------------------------------------------------------------

  lemma PatientAllWritten(c: Config, s: State, k: Client)
    requires Invariant(c, s) && ExactIn(c, s, k) && LiveClient(s.fronts, k) && Patient(Of(s.sent, k), s.handled)
    ensures AllWritten(c, k, s.handled, Of(s.written, k))
  {
    forall p | 0 <= p < |s.handled| && s.handled[p].job.client == k
      ensures FrameAt(Of(s.written, k), p) <==> AnswerTo(c, s.handled[p].job).Some?
    {
      PatientAnnounces(c, s, k, p);
      assert FrameExact(c, k, Of(s.sent, k), s.handled, Of(s.written, k), p);
    }
  }

  lemma HandledSplit(
      arrived: seq<Job>, handled: seq<Message>, responses: seq<Message>, d: Dispatcher, requests: seq<Job>)
    requires Conserved(arrived, handled, responses, d, requests)
    ensures arrived == JobsOf(handled) + (JobsOf(responses) + DispatcherJobs(d) + requests)
  {
  }

  lemma PatientDelivered(c: Config, s: State, k: Client)
    requires Invariant(c, s) && ExactIn(c, s, k) && LiveClient(s.fronts, k) && Patient(Of(s.sent, k), s.handled)
    ensures var mine, done := Of(s.sent, k), HandledOf(s.handled, k);
            done <= |mine| && BytesOf(Of(s.written, k)) == FramesOf(c, mine[..done])
  {
    PatientAllWritten(c, s, k);
    assert FramesOk(Of(s.written, k), s.handled, k);
    FramesAreAnswers(c, k, s.handled, Of(s.written, k));
    HandledSplit(s.arrived, s.handled, s.responses, s.dispatcher, s.requests);
    assert SentBy(k, Of(s.sent, k), s.arrived, s.blocked);
    HandledAreFirst(k, Of(s.sent, k), s.arrived, s.blocked, s.handled,
                    JobsOf(s.responses) + DispatcherJobs(s.dispatcher) + s.requests);
  }

  /**
    * A connected client that sends an id again only after the earlier request under it was handled has
    * been sent exactly the answers to its handled requests, in the order it sent them.
    */
  lemma AllAnswersDelivered(c: Config, start: State, actions: seq<Action>, k: Client)
    requires Initial(start) && Run(c, start, actions).Some?
    requires var s := Run(c, start, actions).value; LiveClient(s.fronts, k) && Patient(Of(s.sent, k), s.handled)
    ensures var s := Run(c, start, actions).value;
            var mine, done := Of(s.sent, k), HandledOf(s.handled, k);
            done <= |mine| && BytesOf(Of(s.written, k)) == FramesOf(c, mine[..done])
  {
    InitialInvariant(c, start);
    RunKeepsInvariant(c, start, actions);
    RunExact(c, start, actions, k);
    PatientDelivered(c, Run(c, start, actions).value, k);
  }

  /** Once the pipeline has settled, and no lookup raised, those are the answers to all its requests. */
  lemma SettledDeliveredAll(c: Config, start: State, actions: seq<Action>, k: Client)
    requires Initial(start) && Run(c, start, actions).Some?
    requires var s := Run(c, start, actions).value;
             && LiveClient(s.fronts, k) && Patient(Of(s.sent, k), s.handled)
             && Settled(c, s) && LookupsFine(c, s.arrived)
    ensures var s := Run(c, start, actions).value;
            BytesOf(Of(s.written, k)) == FramesOf(c, Of(s.sent, k))
  {
    AllAnswersDelivered(c, start, actions, k);
    SettledAnsweredAll(c, start, actions);
    var s := Run(c, start, actions).value;
    assert Of(s.sent, k)[..HandledOf(s.handled, k)] == Of(s.sent, k);
  }
}
