/**
 The certificate watch: a job chain that re-enqueues itself until Traefik has the
 certificate or the attempts run out, re-armed by creating a domain and by rechecking.

 The web process changes the row first and enqueues afterwards, the agent reads
 acme.json first and writes afterwards; both can die in between, and every step of
 one can fall between any two steps of the other.  The agent handles one job at a
 time; a job it dies with, or that throws, is delivered again until the queue gives
 it up.
 */
module CertificateWatch {

  const MAX_ATTEMPTS: nat := 20

  datatype Status = Pending | Issued | Failed

  datatype Certificate = Certificate(host: string, status: Status)

  datatype Job = Job(certificate: nat, host: string, attempt: nat)

  /** Where the one handler of the agent stands. */
  datatype Phase =
    | Idle
    | Taken(job: Job)                   // about to look into acme.json
    | Looked(job: Job, issued: bool)    // knows, and has not written yet
    | Settled(job: Job)                 // has written or re-enqueued; the job is not completed yet

  datatype State = State(
    certs: map<nat, Certificate>,
    queue: seq<Job>,
    phase: Phase,
    arming: multiset<nat>,      // callers that have set a row to pending and not enqueued its job yet
    acme: set<string>)          // hosts with a certificate in acme.json

  datatype Event =
    | Create(id: nat, host: string)     // createDomain and its platform twin: insert the row
    | Recheck(id: nat)                  // recheckCertificate: update the row
    | Arm(id: nat)                      // either of them: enqueue attempt 1
    | Abandon(id: nat)                  // either of them dies before it enqueues
    | Begin(k: nat)                     // the agent takes any queued job
    | Look(readable: bool)              // acme.json may be missing or half written
    | Settle
    | Finish
    | Crash                             // the job in hand dies or throws and goes back to the queue
    | Drop                              // the same once too often: the queue gives the job up
    | Issue(host: string)               // Traefik gets a certificate

  function Update(certs: map<nat, Certificate>, id: nat, status: Status): (certs': map<nat, Certificate>) {
    if id in certs then certs[id := certs[id].(status := status)] else certs
  }

  function SettledCerts(certs: map<nat, Certificate>, job: Job, issued: bool): map<nat, Certificate> {
    if issued then Update(certs, job.certificate, Issued)
    else if job.attempt >= MAX_ATTEMPTS then Update(certs, job.certificate, Failed)
    else certs
  }

  function Requeued(job: Job, issued: bool): seq<Job> {
    if !issued && job.attempt < MAX_ATTEMPTS then [job.(attempt := job.attempt + 1)] else []
  }

  function Without<T>(s: seq<T>, k: nat): (rest: seq<T>)
    requires k < |s|
  {
    s[..k] + s[k + 1..]
  }

  function Step(s: State, e: Event): (s': State) {
    match e
    case Create(id, host) =>
      if id in s.certs then s
      else s.(certs := s.certs[id := Certificate(host, Pending)], arming := s.arming + multiset{id})
    case Recheck(id) =>
      if id !in s.certs then s
      else s.(certs := Update(s.certs, id, Pending), arming := s.arming + multiset{id})
    case Arm(id) =>
      if id !in s.arming || id !in s.certs then s
      else s.(arming := s.arming - multiset{id}, queue := s.queue + [Job(id, s.certs[id].host, 1)])
    case Abandon(id) =>
      if id !in s.arming then s
      else s.(arming := s.arming - multiset{id})
    case Begin(k) =>
      if s.phase.Idle? && k < |s.queue| then s.(phase := Taken(s.queue[k]), queue := Without(s.queue, k)) else s
    case Look(readable) =>
      if s.phase.Taken? then s.(phase := Looked(s.phase.job, readable && s.phase.job.host in s.acme)) else s
    case Settle =>
      if s.phase.Looked?
      then s.(certs := SettledCerts(s.certs, s.phase.job, s.phase.issued),
              queue := s.queue + Requeued(s.phase.job, s.phase.issued),
              phase := Settled(s.phase.job))
      else s
    case Finish => if s.phase.Settled? then s.(phase := Idle) else s
    case Crash => if s.phase.Idle? then s else s.(queue := s.queue + [s.phase.job], phase := Idle)
    case Drop => s.(phase := Idle)
    case Issue(host) => s.(acme := s.acme + {host})
  }

  function Exec(s: State, events: seq<Event>): (s': State)
    decreases |events|
  {
    if events == [] then s else Exec(Step(s, events[0]), events[1..])
  }

  const INIT := State(map[], [], Idle, multiset{}, {})

  // ------------------------------------------------------------------
  // A pending certificate is watched
  // ------------------------------------------------------------------

  predicate Queued(queue: seq<Job>, id: nat) {
    exists k :: 0 <= k < |queue| && queue[k].certificate == id
  }

  /** Does the agent have a job of the certificate in hand that it has not settled yet? */
  predicate InHand(s: State, id: nat) {
    (s.phase.Taken? || s.phase.Looked?) && s.phase.job.certificate == id
  }

  /** Somebody will still settle the certificate. */
  predicate Watched(s: State, id: nat) {
    || id in s.arming
    || Queued(s.queue, id)
    || InHand(s, id)
  }

  predicate Knows(certs: map<nat, Certificate>, job: Job) {
    job.certificate in certs && certs[job.certificate].host == job.host
  }

  /** Every job is about a known certificate and asks for its host. */
  predicate JobsAreKnown(s: State) {
    && (forall k :: 0 <= k < |s.queue| ==> Knows(s.certs, s.queue[k]))
    && (!s.phase.Idle? ==> Knows(s.certs, s.phase.job))
  }

  predicate PendingIsWatched(s: State) {
    forall id <- s.certs :: s.certs[id].status == Pending ==> Watched(s, id)
  }

  predicate IssuedIsInAcme(s: State) {
    && (forall id <- s.certs :: s.certs[id].status == Issued ==> s.certs[id].host in s.acme)
    && (s.phase.Looked? && s.phase.issued ==> s.phase.job.host in s.acme)
  }

  predicate Invariant(s: State) {
    JobsAreKnown(s) && IssuedIsInAcme(s)
  }

  lemma QueuedAfter(queue: seq<Job>, more: seq<Job>, id: nat)
    ensures Queued(queue + more, id) <==> Queued(queue, id) || Queued(more, id)
  {
    if Queued(queue, id) {
      var k :| 0 <= k < |queue| && queue[k].certificate == id;
      assert (queue + more)[k].certificate == id;
    }
    if Queued(more, id) {
      var k :| 0 <= k < |more| && more[k].certificate == id;
      assert (queue + more)[|queue| + k].certificate == id;
    }
  }

  lemma QueuedOneMore(queue: seq<Job>, job: Job, id: nat)
    ensures Queued(queue + [job], id) <==> Queued(queue, id) || job.certificate == id
  {
    QueuedAfter(queue, [job], id);
    assert [job][0] == job;
  }

  lemma QueuedWithout(queue: seq<Job>, k: nat, id: nat)
    requires k < |queue|
    ensures Queued(queue, id) <==> Queued(Without(queue, k), id) || queue[k].certificate == id
  {
    assert queue == queue[..k] + ([queue[k]] + queue[k + 1..]);
    QueuedAfter(queue[..k], [queue[k]] + queue[k + 1..], id);
    QueuedAfter([queue[k]], queue[k + 1..], id);
    QueuedAfter(queue[..k], queue[k + 1..], id);
    assert Queued([queue[k]], id) <==> queue[k].certificate == id;
  }

  /** The last caller that was about to enqueue dies, or the last job is given up, and nobody else watches. */
  predicate LosesWatch(s: State, e: Event, id: nat) {
    && !Queued(s.queue, id)
    && ((e == Abandon(id) && s.arming[id] == 1 && !InHand(s, id)) || (e == Drop && InHand(s, id) && id !in s.arming))
  }

  /** A create or a recheck takes up the watch, and so does the redelivery of a job that was settled already. */
  predicate Regains(s: State, e: Event, id: nat) {
    || (e.Create? && e.id == id && id !in s.certs)
    || (e == Recheck(id) && id in s.certs)
    || (e.Crash? && s.phase.Settled? && s.phase.job.certificate == id)
  }

  /** The handler is about to write a final status. */
  predicate Settles(s: State, e: Event, id: nat) {
    e.Settle? && s.phase.Looked? && s.phase.job.certificate == id && Requeued(s.phase.job, s.phase.issued) == []
  }

  /** Does the step leave a job of `id` in the queue? */
  predicate StaysQueued(s: State, e: Event, id: nat) {
    match e
    case Arm(other) => Queued(s.queue, id) || (other == id && id in s.arming && id in s.certs)
    case Begin(k) =>
      if s.phase.Idle? && k < |s.queue| then Queued(Without(s.queue, k), id) else Queued(s.queue, id)
    case Settle =>
      Queued(s.queue, id) || (s.phase.Looked? && s.phase.job.certificate == id && !Settles(s, e, id))
    case Crash => Queued(s.queue, id) || (!s.phase.Idle? && s.phase.job.certificate == id)
    case _ => Queued(s.queue, id)
  }

  lemma StepQueue(s: State, e: Event, id: nat)
    ensures Queued(Step(s, e).queue, id) <==> StaysQueued(s, e, id)
  {
    match e
    case Arm(other) =>
      if other in s.arming && other in s.certs { QueuedOneMore(s.queue, Job(other, s.certs[other].host, 1), id); }
    case Settle =>
      if s.phase.Looked? && Requeued(s.phase.job, s.phase.issued) != [] {
        QueuedOneMore(s.queue, s.phase.job.(attempt := s.phase.job.attempt + 1), id);
      } else {
        assert s.queue + [] == s.queue;
      }
    case Crash =>
      if !s.phase.Idle? { QueuedOneMore(s.queue, s.phase.job, id); }
    case _ =>
  }

  /** Without a loss or a final status the watch goes on. */
  lemma StepKeepsWatch(s: State, e: Event, id: nat)
    requires Watched(s, id)
    ensures Watched(Step(s, e), id) || LosesWatch(s, e, id) || Settles(s, e, id)
  {
    StepQueue(s, e, id);
    if e.Begin? && s.phase.Idle? && e.k < |s.queue| { QueuedWithout(s.queue, e.k, id); }
  }

  /** An unwatched certificate is watched again exactly by a regaining step. */
  lemma StepRegainsExactly(s: State, e: Event, id: nat)
    requires !Watched(s, id)
    ensures Watched(Step(s, e), id) <==> Regains(s, e, id)
  {
    StepQueue(s, e, id);
    if e.Begin? && s.phase.Idle? && e.k < |s.queue| { QueuedWithout(s.queue, e.k, id); }
  }

  predicate IsPending(s: State, id: nat) {
    id in s.certs && s.certs[id].status == Pending
  }

  /** A recheck makes the certificate pending, whatever it was, and starts over with the first attempt for its host. */
  lemma RecheckStartsOver(s: State, id: nat)
    requires id in s.certs
    ensures var s' := Exec(s, [Recheck(id), Arm(id)]);
            && s'.certs == s.certs[id := Certificate(s.certs[id].host, Pending)]
            && s'.queue == s.queue + [Job(id, s.certs[id].host, 1)]
            && s'.arming == s.arming && s'.phase == s.phase && s'.acme == s.acme
    ensures IsPending(Step(s, Recheck(id)), id)
  {
    ExecTwo(s, Recheck(id), Arm(id));
  }

  /** And so does creating a domain, for a certificate of its own. */
  lemma CreateStarts(s: State, id: nat, host: string)
    requires id !in s.certs
    ensures var s' := Exec(s, [Create(id, host), Arm(id)]);
            && s'.certs == s.certs[id := Certificate(host, Pending)]
            && s'.queue == s.queue + [Job(id, host, 1)]
            && s'.arming == s.arming && s'.phase == s.phase && s'.acme == s.acme
  {
    ExecTwo(s, Create(id, host), Arm(id));
  }

  /** In the run some step loses the watch of `id`, and no later one regains it. */
  ghost predicate Lost(events: seq<Event>, id: nat) {
    exists k: nat :: LostAt(events, k, id)
  }

  ghost predicate LostAt(events: seq<Event>, k: nat, id: nat) {
    && k < |events|
    && LosesWatch(Exec(INIT, events[..k]), events[k], id)
    && forall j: nat | k < j < |events| :: !RegainsAt(events, j, id)
  }

  ghost predicate RegainsAt(events: seq<Event>, j: nat, id: nat)
    requires j < |events|
  {
    Regains(Exec(INIT, events[..j]), events[j], id)
  }

  lemma LostOneMore(events: seq<Event>, e: Event, id: nat)
    ensures var s := Exec(INIT, events);
            Lost(events + [e], id) <==> LosesWatch(s, e, id) || (Lost(events, id) && !Regains(s, e, id))
  {
    var more, n := events + [e], |events|;
    assert more[..n] == events;
    forall k | 0 <= k < n
      ensures more[..k] == events[..k] && more[k] == events[k]
    {
    }
    assert RegainsAt(more, n, id) == Regains(Exec(INIT, events), e, id);
    if Lost(events, id) && !RegainsAt(more, n, id) {
      var k: nat :| LostAt(events, k, id);
      forall j: nat | k < j < |more|
        ensures !RegainsAt(more, j, id)
      {
        if j < n { assert !RegainsAt(events, j, id); }
      }
      assert LostAt(more, k, id);
    }
    if LosesWatch(Exec(INIT, events), e, id) { assert LostAt(more, n, id); }
    if Lost(more, id) {
      var k: nat :| LostAt(more, k, id);
      if k < n {
        forall j: nat | k < j < n
          ensures !RegainsAt(events, j, id)
        {
          assert !RegainsAt(more, j, id);
        }
        assert LostAt(events, k, id);
      }
    }
  }

  lemma ExecOneMore(s: State, events: seq<Event>, e: Event)
    ensures Exec(s, events + [e]) == Step(Exec(s, events), e)
  {
    ExecConcat(s, events, [e]);
    assert [e][1..] == [];
  }

  /**
   All runs: a pending certificate is unwatched if and only if the last one who watched
   it, a caller about to enqueue or a job, died or was given up, and it was neither
   rechecked nor was a settled job of it delivered again since.
   */
  lemma {:induction false} UnwatchedExactly(events: seq<Event>, id: nat)
    requires IsPending(Exec(INIT, events), id)
    ensures !Watched(Exec(INIT, events), id) <==> Lost(events, id)
    decreases |events|
  {
    if events != [] {
      var front, e := events[..|events| - 1], events[|events| - 1];
      assert events == front + [e];
      ExecOneMore(INIT, front, e);
      LostOneMore(front, e, id);
      if IsPending(Exec(INIT, front), id) { UnwatchedExactly(front, id); }
      UnwatchedStep(Exec(INIT, front), e, id);
    }
  }

  /** One step of it. */
  lemma UnwatchedStep(s: State, e: Event, id: nat)
    requires IsPending(Step(s, e), id)
    ensures !IsPending(s, id) ==> Watched(Step(s, e), id) && Regains(s, e, id) && !LosesWatch(s, e, id)
    ensures Watched(s, id) && IsPending(s, id) ==> (Watched(Step(s, e), id) <==> !LosesWatch(s, e, id))
    ensures !Watched(s, id) ==> (Watched(Step(s, e), id) <==> Regains(s, e, id)) && !LosesWatch(s, e, id)
  {
    if Watched(s, id) { StepKeepsWatch(s, e, id); } else { StepRegainsExactly(s, e, id); }
  }

  /** It does happen: the web process dies between inserting the row and enqueuing the job. */
  lemma AbandonedIsUnwatched()
    ensures var s := Exec(INIT, [Create(1, "h"), Abandon(1)]);
            IsPending(s, 1) && !Watched(s, 1)
  {
    ExecOneMore(INIT, [], Create(1, "h"));
    ExecOneMore(INIT, [Create(1, "h")], Abandon(1));
    assert [] + [Create(1, "h")] == [Create(1, "h")];
    assert [Create(1, "h")] + [Abandon(1)] == [Create(1, "h"), Abandon(1)];
  }

  /** The other way: its only job fails too often. */
  lemma DroppedIsUnwatched()
    ensures var s := Exec(INIT, [Create(1, "h"), Arm(1), Begin(0), Drop]);
            IsPending(s, 1) && !Watched(s, 1)
  {
    ExecFour(INIT, Create(1, "h"), Arm(1), Begin(0), Drop);
    assert Without([Job(1, "h", 1)], 0) == [];
  }

  /** In particular a pending certificate is watched in every run in which no caller of its own dies and no job
      is given up. */
  lemma PendingMeansWatched(events: seq<Event>, id: nat)
    requires IsPending(Exec(INIT, events), id)
    ensures Watched(Exec(INIT, events), id) || Abandon(id) in events || Drop in events
  {
    UnwatchedExactly(events, id);
    if Lost(events, id) {
      var k: nat :| LostAt(events, k, id);
      assert events[k] == Abandon(id) || events[k] == Drop;
    }
  }

  /** Rows are never deleted and keep their host. */
  lemma StepKeepsHosts(s: State, e: Event, job: Job)
    requires Knows(s.certs, job)
    ensures Knows(Step(s, e).certs, job)
  {
  }

  lemma StepKeepsKnown(s: State, e: Event)
    requires JobsAreKnown(s)
    ensures JobsAreKnown(Step(s, e))
  {
    var s' := Step(s, e);
    forall k | 0 <= k < |s.queue|
      ensures Knows(s'.certs, s.queue[k])
    {
      StepKeepsHosts(s, e, s.queue[k]);
    }
    if !s.phase.Idle? { StepKeepsHosts(s, e, s.phase.job); }
  }

  /** What holds in every run: jobs are about known certificates, and issued only what acme.json has. */
  lemma {:induction false} RunKeepsInvariant(s: State, events: seq<Event>)
    requires Invariant(s)
    ensures Invariant(Exec(s, events))
    decreases |events|
  {
    if events != [] {
      StepKeepsKnown(s, events[0]);
      RunKeepsInvariant(Step(s, events[0]), events[1..]);
    }
  }

  /** Nobody will settle the certificate: not even a job that could still be delivered again. */
  predicate Forgotten(s: State, id: nat) {
    !Watched(s, id) && !(s.phase.Settled? && s.phase.job.certificate == id)
  }

  lemma StepKeepsForgotten(s: State, e: Event, id: nat)
    requires id in s.certs && Forgotten(s, id) && e != Recheck(id)
    ensures id in Step(s, e).certs && Step(s, e).certs[id] == s.certs[id] && Forgotten(Step(s, e), id)
  {
    StepRegainsExactly(s, e, id);
  }

  /** The other side: a certificate nobody watches keeps its status, pending or not, until somebody rechecks it. */
  lemma {:induction false} ForgottenStays(s: State, events: seq<Event>, id: nat)
    requires id in s.certs && Forgotten(s, id)
    requires Recheck(id) !in events
    ensures id in Exec(s, events).certs && Exec(s, events).certs[id] == s.certs[id]
    ensures Forgotten(Exec(s, events), id)
    decreases |events|
  {
    if events != [] {
      StepKeepsForgotten(s, events[0], id);
      ForgottenStays(Step(s, events[0]), events[1..], id);
    }
  }

  // ------------------------------------------------------------------
  // The chain ends
  // ------------------------------------------------------------------

  /** How often a job can still be handled before its chain ends. */
  function Weight(job: Job): (w: nat) {
    if job.attempt >= MAX_ATTEMPTS then 1 else MAX_ATTEMPTS + 1 - job.attempt
  }

  function Total(queue: seq<Job>): (sum: nat) {
    if queue == [] then 0 else Weight(queue[0]) + Total(queue[1..])
  }

  function Load(s: State): (sum: nat) {
    Total(s.queue) + (if s.phase.Taken? || s.phase.Looked? then Weight(s.phase.job) else 0)
  }

  lemma {:induction false} TotalConcat(a: seq<Job>, b: seq<Job>)
    ensures Total(a + b) == Total(a) + Total(b)
  {
    if a == [] {
      assert a + b == b;
    } else {
      assert (a + b)[1..] == a[1..] + b;
      TotalConcat(a[1..], b);
    }
  }

  lemma {:induction false} TotalWithout(queue: seq<Job>, k: nat)
    requires k < |queue|
    ensures Total(queue) == Total(Without(queue, k)) + Weight(queue[k])
  {
    var tail := queue[k..];
    assert queue == queue[..k] + tail && tail[1..] == queue[k + 1..];
    TotalConcat(queue[..k], tail);
    TotalConcat(queue[..k], queue[k + 1..]);
  }

  lemma {:induction false} TotalAdded(queue: seq<Job>, job: Job)
    ensures Total(queue + [job]) == Total(queue) + Weight(job)
  {
    TotalConcat(queue, [job]);
    assert [job][1..] == [];
  }

  /** Events that add to the load. */
  predicate Adds(e: Event) {
    e.Arm? || e.Crash?
  }

  function Additions(events: seq<Event>): (n: nat) {
    if events == [] then 0 else (if Adds(events[0]) then 1 else 0) + Additions(events[1..])
  }

  /** How many jobs a run settles. */
  function Settlements(s: State, events: seq<Event>): (n: nat)
    decreases |events|
  {
    if events == [] then 0
    else (if events[0].Settle? && s.phase.Looked? then 1 else 0) + Settlements(Step(s, events[0]), events[1..])
  }

  /** Attempts are counted from 1. */
  predicate AttemptsCount(s: State) {
    && (forall k :: 0 <= k < |s.queue| ==> s.queue[k].attempt >= 1)
    && (!s.phase.Idle? ==> s.phase.job.attempt >= 1)
  }

  lemma StepKeepsAttempts(s: State, e: Event)
    requires AttemptsCount(s)
    ensures AttemptsCount(Step(s, e))
  {
  }

  lemma SettleLoad(queue: seq<Job>, job: Job, issued: bool)
    ensures Total(queue + Requeued(job, issued)) < Total(queue) + Weight(job)
  {
    if |Requeued(job, issued)| > 0 {
      TotalAdded(queue, job.(attempt := job.attempt + 1));
    } else {
      assert queue + [] == queue;
    }
  }

  lemma StepLoad(s: State, e: Event)
    requires AttemptsCount(s)
    ensures Load(Step(s, e)) + (if e.Settle? && s.phase.Looked? then 1 else 0)
            <= Load(s) + (if Adds(e) then MAX_ATTEMPTS else 0)
  {
    match e
    case Arm(other) =>
      if other in s.arming && other in s.certs { TotalAdded(s.queue, Job(other, s.certs[other].host, 1)); }
    case Begin(k) =>
      if s.phase.Idle? && k < |s.queue| { TotalWithout(s.queue, k); }
    case Settle =>
      if s.phase.Looked? { SettleLoad(s.queue, s.phase.job, s.phase.issued); }
    case Crash =>
      if !s.phase.Idle? { TotalAdded(s.queue, s.phase.job); }
    case _ =>
  }

  /**
   Whatever the interleaving, a run settles at most as many jobs as the load it starts with
   plus MAX_ATTEMPTS for every create, recheck and crash: without those the chain ends.
   */
  lemma {:induction false} SettlementsAreBounded(s: State, events: seq<Event>)
    requires AttemptsCount(s)
    ensures Settlements(s, events) + Load(Exec(s, events)) <= Load(s) + MAX_ATTEMPTS * Additions(events)
    decreases |events|
  {
    if events != [] {
      StepLoad(s, events[0]);
      StepKeepsAttempts(s, events[0]);
      SettlementsAreBounded(Step(s, events[0]), events[1..]);
    }
  }

  // ------------------------------------------------------------------
  // Nobody gives up early
  // ------------------------------------------------------------------

  /** How many jobs of the certificate are settled in the run: each stands for one look into acme.json. */
  function SettlementsOf(s: State, events: seq<Event>, id: nat): (n: nat)
    decreases |events|
  {
    if events == [] then 0
    else
      (if events[0].Settle? && s.phase.Looked? && s.phase.job.certificate == id then 1 else 0)
      + SettlementsOf(Step(s, events[0]), events[1..], id)
  }

  predicate WithinTries(job: Job, id: nat, n: nat) {
    job.certificate == id ==> job.attempt <= n
  }

  /** After `n` settlements for the certificate its jobs are at attempt n + 1 at most, and it fails after 20. */
  predicate Tried(s: State, id: nat, n: nat) {
    && (forall k | 0 <= k < |s.queue| :: WithinTries(s.queue[k], id, n + 1))
    && (!s.phase.Idle? ==> WithinTries(s.phase.job, id, n + 1))
    && (id in s.certs && s.certs[id].status == Failed ==> n >= 20)
  }

  lemma StepIsTried(s: State, e: Event, id: nat, n: nat)
    requires Tried(s, id, n)
    ensures Tried(Step(s, e), id, n + if e.Settle? && s.phase.Looked? && s.phase.job.certificate == id then 1 else 0)
  {
    if e.Settle? { SettleIsTried(s, id, n); }
  }

  lemma SettleIsTried(s: State, id: nat, n: nat)
    requires Tried(s, id, n)
    ensures Tried(Step(s, Settle), id, n + if s.phase.Looked? && s.phase.job.certificate == id then 1 else 0)
  {
  }

  lemma {:induction false} RunIsTried(s: State, events: seq<Event>, id: nat, n: nat)
    requires Tried(s, id, n)
    ensures Tried(Exec(s, events), id, n + SettlementsOf(s, events, id))
    decreases |events|
  {
    if events != [] {
      StepIsTried(s, events[0], id, n);
      RunIsTried(Step(s, events[0]), events[1..], id,
                 n + if events[0].Settle? && s.phase.Looked? && s.phase.job.certificate == id then 1 else 0);
    }
  }

  /** In no run does a certificate fail before twenty jobs of its own have looked for it. */
  lemma {:induction false} FailsAfterTwentyLooks(events: seq<Event>, id: nat)
    requires var s := Exec(INIT, events); id in s.certs && s.certs[id].status == Failed
    ensures SettlementsOf(INIT, events, id) >= 20
  {
    RunIsTried(INIT, events, id, 0);
  }

  // ------------------------------------------------------------------
  // Issued is never turned into failed
  // ------------------------------------------------------------------

  /** The handler has seen no certificate, at the last attempt, and has not written yet: failed is next. */
  predicate StaleLook(s: State, id: nat) {
    s.phase.Looked? && !s.phase.issued && s.phase.job.certificate == id && s.phase.job.attempt >= MAX_ATTEMPTS
  }

  /** acme.json could be read whenever it was looked at. */
  predicate AlwaysReadable(events: seq<Event>) {
    Look(false) !in events
  }

  /** Traefik has the host of a certificate that has not failed, and nobody holds an older answer. */
  predicate Secured(s: State, id: nat) {
    id in s.certs && s.certs[id].status != Failed && s.certs[id].host in s.acme && !StaleLook(s, id)
  }

  lemma StepKeepsSecured(s: State, e: Event, id: nat)
    requires JobsAreKnown(s) && Secured(s, id) && e != Look(false)
    ensures Secured(Step(s, e), id)
  {
  }

  /** Once Traefik has the host, failed is not written any more, rechecks or not. */
  lemma {:induction false} SecuredNeverFails(s: State, events: seq<Event>, id: nat)
    requires JobsAreKnown(s) && AlwaysReadable(events) && Secured(s, id)
    ensures Secured(Exec(s, events), id)
    decreases |events|
  {
    if events != [] {
      StepKeepsKnown(s, events[0]);
      StepKeepsSecured(s, events[0], id);
      SecuredNeverFails(Step(s, events[0]), events[1..], id);
    }
  }

  /** While acme.json can be read and only grows, issued stays issued until a recheck, unless failed is next already. */
  lemma {:induction false} IssuedSticks(s: State, events: seq<Event>, id: nat)
    requires JobsAreKnown(s) && IssuedIsInAcme(s) && AlwaysReadable(events)
    requires IsIssued(s, id) && !StaleLook(s, id) && Recheck(id) !in events
    ensures IsIssued(Exec(s, events), id)
    decreases |events|
  {
    if events != [] {
      var s' := Step(s, events[0]);
      StepKeepsKnown(s, events[0]);
      StepKeepsSecured(s, events[0], id);
      IssuedSticks(s', events[1..], id);
    }
  }

  predicate IsIssued(s: State, id: nat) {
    id in s.certs && s.certs[id].status == Issued
  }

  /** Does issued stay issued in every run that can read acme.json and does not recheck? */
  ghost predicate SticksWhenReadable(s: State, id: nat) {
    forall events :: AlwaysReadable(events) && Recheck(id) !in events ==> IsIssued(Exec(s, events), id)
  }

  /** It does if and only if failed is not next already. */
  lemma IssuedSticksExactly(s: State, id: nat)
    requires JobsAreKnown(s) && IssuedIsInAcme(s) && IsIssued(s, id)
    ensures SticksWhenReadable(s, id) <==> !StaleLook(s, id)
  {
    if StaleLook(s, id) {
      ExecOneMore(s, [], Settle);
      assert [] + [Settle] == [Settle];
      assert AlwaysReadable([Settle]) && !IsIssued(Exec(s, [Settle]), id);
    } else {
      forall events | AlwaysReadable(events) && Recheck(id) !in events
        ensures IsIssued(Exec(s, events), id)
      {
        IssuedSticks(s, events, id);
      }
    }
  }

  /** A run that could always read acme.json never gets there. */
  predicate LooksAreFresh(s: State) {
    s.phase.Looked? && StaleLook(s, s.phase.job.certificate) ==> !IsIssued(s, s.phase.job.certificate)
  }

  lemma StepKeepsFresh(s: State, e: Event)
    requires JobsAreKnown(s) && IssuedIsInAcme(s) && LooksAreFresh(s) && e != Look(false)
    ensures LooksAreFresh(Step(s, e))
  {
  }

  lemma {:induction false} RunKeepsFresh(s: State, events: seq<Event>)
    requires JobsAreKnown(s) && IssuedIsInAcme(s) && LooksAreFresh(s) && AlwaysReadable(events)
    ensures LooksAreFresh(Exec(s, events))
    decreases |events|
  {
    if events != [] {
      StepKeepsKnown(s, events[0]);
      StepKeepsFresh(s, events[0]);
      RunKeepsFresh(Step(s, events[0]), events[1..]);
    }
  }

  lemma {:induction false} ExecConcat(s: State, a: seq<Event>, b: seq<Event>)
    ensures Exec(s, a + b) == Exec(Exec(s, a), b)
    decreases |a|
  {
    if a == [] {
      assert a + b == b;
    } else {
      assert (a + b)[1..] == a[1..] + b;
      ExecConcat(Step(s, a[0]), a[1..], b);
    }
  }

  /** The agent takes the `k`-th job through to its completion. */
  function Handling(k: nat, readable: bool): seq<Event> {
    [Begin(k), Look(readable), Settle, Finish]
  }

  lemma HandlingEffect(s: State, k: nat, readable: bool)
    requires s.phase.Idle? && k < |s.queue|
    ensures var job, issued := s.queue[k], readable && s.queue[k].host in s.acme;
            Exec(s, Handling(k, readable))
            == s.(certs := SettledCerts(s.certs, job, issued), queue := Without(s.queue, k) + Requeued(job, issued))
  {
    ExecFour(s, Begin(k), Look(readable), Settle, Finish);
  }

  lemma ExecFour(s: State, a: Event, b: Event, c: Event, d: Event)
    ensures Exec(s, [a, b, c, d]) == Step(Step(Step(Step(s, a), b), c), d)
  {
    assert [a, b, c, d] == [a] + ([b] + ([c] + [d]));
    ExecConcat(s, [a], [b] + ([c] + [d]));
    ExecConcat(Step(s, a), [b], [c] + [d]);
    ExecConcat(Step(Step(s, a), b), [c], [d]);
    assert forall x: State, e: Event :: Exec(x, [e]) == Step(x, e) by {
      forall x: State, e: Event
        ensures Exec(x, [e]) == Step(x, e)
      {
        assert [e][1..] == [];
      }
    }
  }

  /**
   Readability is needed: as long as any job of the certificate is left over, rounds
   with an unreadable acme.json lead to failed, whatever the status and acme.json are.
   */
  lemma {:induction false} MisreadsFail(s: State, k: nat) returns (events: seq<Event>)
    requires s.phase.Idle? && k < |s.queue| && s.queue[k].certificate in s.certs
    ensures forall e <- events :: e.Begin? || e == Look(false) || e == Settle || e == Finish
    ensures s.queue[k].certificate in Exec(s, events).certs
    ensures Exec(s, events).certs[s.queue[k].certificate].status == Failed
    decreases Weight(s.queue[k])
  {
    events := Handling(k, false);
    HandlingEffect(s, k, false);
    if s.queue[k].attempt < MAX_ATTEMPTS {
      var s' := Exec(s, events);
      var rest := MisreadsFail(s', |s'.queue| - 1);
      ExecConcat(s, events, rest);
      events := events + rest;
    }
  }

  /** Does issued stay issued in every run without a recheck, whether or not acme.json can be read? */
  ghost predicate SticksAlways(s: State, id: nat) {
    forall events :: Recheck(id) !in events ==> IsIssued(Exec(s, events), id)
  }

  /**
   It does if and only if nobody watches the certificate any more: whoever still does,
   a caller about to enqueue, a queued job, or the job in the agent's hands, can be
   led to failed by an unreadable acme.json.
   */
  lemma IssuedSticksOnlyWhenForgotten(s: State, id: nat)
    requires JobsAreKnown(s) && IsIssued(s, id)
    ensures SticksAlways(s, id) <==> Forgotten(s, id)
  {
    if Forgotten(s, id) {
      forall events | Recheck(id) !in events
        ensures IsIssued(Exec(s, events), id)
      {
        ForgottenStays(s, events, id);
      }
    } else {
      var events := WatchedCanFail(s, id);
      assert !IsIssued(Exec(s, events), id);
    }
  }

  lemma WatchedCanFail(s: State, id: nat) returns (events: seq<Event>)
    requires id in s.certs && !Forgotten(s, id)
    ensures Recheck(id) !in events
    ensures id in Exec(s, events).certs && Exec(s, events).certs[id].status == Failed
  {
    var idle := Step(s, Crash);
    CrashKeepsUnforgotten(s, id);
    ExecOneMore(s, [], Crash);
    assert [] + [Crash] == [Crash];
    var rest := IdleCanFail(idle, id);
    ExecConcat(s, [Crash], rest);
    events := [Crash] + rest;
  }

  lemma CrashKeepsUnforgotten(s: State, id: nat)
    requires !Forgotten(s, id)
    ensures Step(s, Crash).phase.Idle? && (id in Step(s, Crash).arming || Queued(Step(s, Crash).queue, id))
  {
    if !s.phase.Idle? {
      QueuedAfter(s.queue, [s.phase.job], id);
      assert [s.phase.job][0] == s.phase.job;
    }
  }

  lemma TakenOnce() returns (before: seq<Event>)
    ensures Exec(INIT, before)
            == State(map[1 := Certificate("h", Pending)], [], Taken(Job(1, "h", 1)), multiset{}, {"h"})
  {
    before := [Create(1, "h"), Arm(1), Issue("h"), Begin(0)];
    ExecFour(INIT, Create(1, "h"), Arm(1), Issue("h"), Begin(0));
    assert Without([Job(1, "h", 1)], 0) == [];
  }

  /** Issued by a job that can still be delivered again. */
  lemma IssuedOnce() returns (before: seq<Event>)
    ensures Exec(INIT, before)
            == State(map[1 := Certificate("h", Issued)], [], Settled(Job(1, "h", 1)), multiset{}, {"h"})
  {
    var first := TakenOnce();
    ExecTwo(Exec(INIT, first), Look(true), Settle);
    ExecConcat(INIT, first, [Look(true), Settle]);
    before := first + [Look(true), Settle];
  }

  /** Such certificates exist, and they can be led to failed. */
  lemma IssuedCanFail() returns (before: seq<Event>, after: seq<Event>)
    ensures var s := Exec(INIT, before);
            && IsIssued(s, 1) && JobsAreKnown(s) && !Forgotten(s, 1)
            && Recheck(1) !in after && 1 in Exec(s, after).certs && Exec(s, after).certs[1].status == Failed
  {
    before := IssuedOnce();
    after := WatchedCanFail(Exec(INIT, before), 1);
  }

  lemma ExecTwo(s: State, a: Event, b: Event)
    ensures Exec(s, [a, b]) == Step(Step(s, a), b)
  {
    ExecOneMore(s, [], a);
    ExecOneMore(s, [a], b);
    assert [] + [a] == [a] && [a] + [b] == [a, b];
  }

  /** Unreadable looks bring the last queued job to its last attempt and change nothing else. */
  lemma {:induction false} MisreadsToLast(s: State, k: nat) returns (events: seq<Event>)
    requires s.phase.Idle? && |s.queue| == k + 1 && s.queue[k].attempt <= MAX_ATTEMPTS
    ensures Exec(s, events) == s.(queue := s.queue[..k] + [s.queue[k].(attempt := MAX_ATTEMPTS)])
    decreases MAX_ATTEMPTS - s.queue[k].attempt
  {
    var job := s.queue[k];
    if job.attempt == MAX_ATTEMPTS {
      assert s.queue == s.queue[..k] + [job];
      return [];
    }
    HandlingEffect(s, k, false);
    assert Without(s.queue, k) == s.queue[..k];
    var s' := Exec(s, Handling(k, false));
    assert s' == s.(queue := s.queue[..k] + [job.(attempt := job.attempt + 1)]);
    var rest := MisreadsToLast(s', k);
    ExecConcat(s, Handling(k, false), rest);
    events := Handling(k, false) + rest;
  }

  /** Two jobs for one certificate: created, and rechecked at once. */
  lemma TwoJobs() returns (before: seq<Event>)
    ensures var s := Exec(INIT, before);
            && s.phase.Idle? && s.queue == [Job(1, "h", 1), Job(1, "h", 1)] && s.acme == {}
            && s.certs == map[1 := Certificate("h", Pending)]
  {
    before := [Create(1, "h"), Arm(1), Recheck(1), Arm(1)];
    ExecFour(INIT, Create(1, "h"), Arm(1), Recheck(1), Arm(1));
  }

  /** The other one is at its last attempt when Traefik has the host. */
  lemma OneAtLast() returns (before: seq<Event>)
    ensures var s := Exec(INIT, before);
            && s.phase.Idle? && s.queue == [Job(1, "h", 1), Job(1, "h", MAX_ATTEMPTS)] && s.acme == {"h"}
            && s.certs == map[1 := Certificate("h", Pending)]
  {
    var start := TwoJobs();
    var s := Exec(INIT, start);
    var misreads := MisreadsToLast(s, 1);
    ExecConcat(INIT, start, misreads);
    ExecOneMore(INIT, start + misreads, Issue("h"));
    before := start + misreads + [Issue("h")];
  }

  /** The first job issues the certificate, the second one misreads acme.json: failed is next. */
  lemma IssuedWithStaleLook() returns (before: seq<Event>)
    ensures IsIssued(Exec(INIT, before), 1) && StaleLook(Exec(INIT, before), 1)
  {
    var start := OneAtLast();
    var s := Exec(INIT, start);
    HandlingEffect(s, 0, true);
    ExecConcat(INIT, start, Handling(0, true));
    var issued := Exec(INIT, start + Handling(0, true));
    assert Without(s.queue, 0) + [] == [Job(1, "h", MAX_ATTEMPTS)];
    ExecTwo(issued, Begin(0), Look(false));
    ExecConcat(INIT, start + Handling(0, true), [Begin(0), Look(false)]);
    before := start + Handling(0, true) + [Begin(0), Look(false)];
  }

  lemma IdleCanFail(s: State, id: nat) returns (events: seq<Event>)
    requires s.phase.Idle? && id in s.certs && (id in s.arming || Queued(s.queue, id))
    ensures Recheck(id) !in events
    ensures id in Exec(s, events).certs && Exec(s, events).certs[id].status == Failed
  {
    if Queued(s.queue, id) {
      var k :| 0 <= k < |s.queue| && s.queue[k].certificate == id;
      events := MisreadsFail(s, k);
    } else {
      var armed := Step(s, Arm(id));
      ExecOneMore(s, [], Arm(id));
      assert [] + [Arm(id)] == [Arm(id)];
      assert armed.queue[|s.queue|].certificate == id;
      var rest := MisreadsFail(armed, |s.queue|);
      ExecConcat(s, [Arm(id)], rest);
      events := [Arm(id)] + rest;
    }
  }

  // ------------------------------------------------------------------
  // The code, and what an undisturbed agent makes of the queue
  // ------------------------------------------------------------------

  /** Where certificate `id` ends up when everything queued is handled and nothing else happens. */
  function Verdict(certs: map<nat, Certificate>, queue: seq<Job>, acme: set<string>, id: nat): (final: Certificate)
    requires id in certs
  {
    if Queued(queue, id) then certs[id].(status := if certs[id].host in acme then Issued else Failed) else certs[id]
  }

  /** How often the job and its successors are handled then. */
  function Cost(job: Job, acme: set<string>): (n: nat) {
    if job.host in acme then 1 else Weight(job)
  }

  function TotalCost(queue: seq<Job>, acme: set<string>): (n: nat) {
    if queue == [] then 0 else Cost(queue[0], acme) + TotalCost(queue[1..], acme)
  }

  lemma {:induction false} CostConcat(a: seq<Job>, b: seq<Job>, acme: set<string>)
    ensures TotalCost(a + b, acme) == TotalCost(a, acme) + TotalCost(b, acme)
  {
    if a == [] {
      assert a + b == b;
    } else {
      assert (a + b)[1..] == a[1..] + b;
      CostConcat(a[1..], b, acme);
    }
  }

  lemma CostOfOne(job: Job, acme: set<string>)
    ensures TotalCost([job], acme) == Cost(job, acme)
  {
    assert [job][1..] == [];
  }

  lemma {:induction false} HandlingCosts(queue: seq<Job>, acme: set<string>)
    requires |queue| > 0
    ensures TotalCost(queue[1..] + Requeued(queue[0], queue[0].host in acme), acme) == TotalCost(queue, acme) - 1
  {
    var job := queue[0];
    CostConcat(queue[1..], Requeued(job, job.host in acme), acme);
    CostOfOne(job.(attempt := job.attempt + 1), acme);
  }

  lemma HandlingKeepsVerdict(certs: map<nat, Certificate>, queue: seq<Job>, acme: set<string>, id: nat)
    requires |queue| > 0 && Knows(certs, queue[0]) && id in certs
    ensures var job, issued := queue[0], queue[0].host in acme;
            Verdict(SettledCerts(certs, job, issued), queue[1..] + Requeued(job, issued), acme, id)
            == Verdict(certs, queue, acme, id)
  {
    var job, issued := queue[0], queue[0].host in acme;
    var more := Requeued(job, issued);
    assert queue == [job] + queue[1..];
    QueuedAfter([job], queue[1..], id);
    QueuedAfter(queue[1..], more, id);
    assert Queued([job], id) <==> [job][0].certificate == id;
    if |more| > 0 { assert Queued(more, id) <==> more[0].certificate == id; }
  }

  predicate KeepsVerdicts(certs: map<nat, Certificate>, queue: seq<Job>, acme: set<string>,
                    certs': map<nat, Certificate>, queue': seq<Job>) {
    && certs'.Keys == certs.Keys
    && (forall k :: 0 <= k < |queue'| ==> Knows(certs', queue'[k]))
    && (forall id <- certs' :: Verdict(certs', queue', acme, id) == Verdict(certs, queue, acme, id))
  }

  /** Handling the next job changes no verdict. */
  lemma HandlingKeepsVerdicts(certs0: map<nat, Certificate>, queue0: seq<Job>, acme: set<string>,
                        certs: map<nat, Certificate>, queue: seq<Job>)
    requires KeepsVerdicts(certs0, queue0, acme, certs, queue) && |queue| > 0
    ensures var issued := queue[0].host in acme;
            KeepsVerdicts(certs0, queue0, acme, SettledCerts(certs, queue[0], issued),
                          queue[1..] + Requeued(queue[0], issued))
  {
    forall job | Knows(certs, job)
      ensures Knows(SettledCerts(certs, queue[0], queue[0].host in acme), job)
    {
    }
    forall id <- certs { HandlingKeepsVerdict(certs, queue, acme, id); }
  }

  class CertificateWatch {
    var certs: map<nat, Certificate>
    var queue: seq<Job>
    var acme: set<string>

    /** The state between two calls: nobody is in the middle of anything. */
    function AsState(): State
      reads this
    {
      State(certs, queue, Idle, multiset{}, acme)
    }

    constructor (acme: set<string>)
      ensures AsState() == INIT.(acme := acme)
    {
      certs, queue, this.acme := map[], [], acme;
    }

    /** createDomain with TLS; the id is the one the database has just generated. */
    method CreateDomain(id: nat, host: string)
      requires id !in certs
      modifies this
      ensures AsState() == Step(Step(old(AsState()), Create(id, host)), Arm(id))
      ensures certs == old(certs)[id := Certificate(host, Pending)]
      ensures queue == old(queue) + [Job(id, host, 1)] && acme == old(acme)
    {
      certs := certs[id := Certificate(host, Pending)];
      Enqueue(Job(id, host, 1));
    }

    /** recheckCertificate; false when there is no such certificate. */
    method RecheckCertificate(id: nat) returns (found: bool)
      modifies this
      ensures found <==> id in old(certs)
      ensures AsState() == if found then Step(Step(old(AsState()), Recheck(id)), Arm(id)) else old(AsState())
      ensures found ==> certs == old(certs)[id := Certificate(old(certs)[id].host, Pending)]
      ensures found ==> queue == old(queue) + [Job(id, old(certs)[id].host, 1)] && acme == old(acme)
      ensures !found ==> certs == old(certs) && queue == old(queue) && acme == old(acme)
    {
      if id !in certs { return false; }
      certs := certs[id := certs[id].(status := Pending)];
      Enqueue(Job(id, certs[id].host, 1));
      return true;
    }

    method Enqueue(job: Job)
      modifies `queue
      ensures queue == old(queue) + [job]
    {
      queue := queue + [job];
    }

    /** An update by id: without effect when there is no such row. */
    method SetStatus(certificate: nat, status: Status)
      modifies `certs
      ensures certs == Update(old(certs), certificate, status)
    {
      if certificate in certs {
        certs := certs[certificate := certs[certificate].(status := status)];
      }
    }

    method ProcessCheckCertificateStatusJob(job: Job)
      modifies `certs, `queue
      ensures certs == SettledCerts(old(certs), job, job.host in acme)
      ensures queue == old(queue) + Requeued(job, job.host in acme)
    {
      var issued := job.host in acme;
      if issued {
        SetStatus(job.certificate, Issued);
        return;
      }
      if job.attempt >= MAX_ATTEMPTS {
        SetStatus(job.certificate, Failed);
        return;
      }
      Enqueue(Job(job.certificate, job.host, job.attempt + 1));
    }

    /** One job, undisturbed: the four steps of the protocol at once. */
    method HandleNext()
      requires |queue| > 0
      modifies `certs, `queue
      ensures AsState() == Exec(old(AsState()), Handling(0, true))
      ensures certs == SettledCerts(old(certs), old(queue)[0], old(queue)[0].host in acme)
      ensures queue == old(queue)[1..] + Requeued(old(queue)[0], old(queue)[0].host in acme)
    {
      ghost var s := AsState();
      HandlingEffect(s, 0, true);
      assert Without(queue, 0) == queue[1..];
      var job := queue[0];
      queue := queue[1..];
      ProcessCheckCertificateStatusJob(job);
    }

    /**
     An agent left alone works the queue off: every watched certificate ends issued or failed
     by what acme.json says, no other one changes, and none is pending.
     */
    method Drain() returns (handled: nat)
      requires JobsAreKnown(AsState()) && PendingIsWatched(AsState())
      modifies `certs, `queue
      ensures queue == [] && certs.Keys == old(certs).Keys
      ensures forall id <- certs :: certs[id] == Verdict(old(certs), old(queue), acme, id)
      ensures forall id <- certs :: certs[id].status != Pending
      ensures handled == TotalCost(old(queue), acme) <= Total(old(queue))
    {
      handled := 0;
      CostBound(queue, acme);
      while |queue| > 0
        invariant KeepsVerdicts(old(certs), old(queue), acme, certs, queue)
        invariant handled + TotalCost(queue, acme) == TotalCost(old(queue), acme)
        decreases TotalCost(queue, acme)
      {
        HandlingCosts(queue, acme);
        HandlingKeepsVerdicts(old(certs), old(queue), acme, certs, queue);
        HandleNext();
        handled := handled + 1;
      }
    }
  }

  lemma CostBound(queue: seq<Job>, acme: set<string>)
    ensures TotalCost(queue, acme) <= Total(queue)
  {
  }
}
