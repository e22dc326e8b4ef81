/**
 The deployment protocol: one deployment row, any number of (re)delivered worker
 invocations and any number of user cancels, interleaved at every database
 statement and every await.

 The claim and the cancel are compare-and-set updates; every later status write of
 the worker is unconditional.  So terminal statuses are not simply absorbing, and
 the theorems below say exactly when a status stays.
 */
module Deployment {

  /** Which of the three workers handles the deployment. */
  datatype Kind = Application | Database | Compose

  datatype Status = Queued | Building | Deploying | Success | Failed | Canceled

  /** The statuses `cancelDeployment` may replace. */
  predicate InFlight(status: Status) {
    status == Queued || status == Building || status == Deploying
  }

  /** Where an invocation of the worker stands, named after what it does next. */
  datatype Pc =
    | Claiming        // the compare-and-set queued -> building
    | Guarding        // loads secrets and configuration, still outside the try block
    | Working         // inside the try: fetch, build, push; or interpolate, validate, merge
    | Pulling         // compose only: pulls the images, looking at the abort signal between them
    | Checking        // the last cancel check before the container is touched
    | Announcing      // writes status deploying
    | Touching        // creates or updates the Swarm service, or deploys the stack
    | Finishing       // waits for the container, then writes status success
    | Reporting       // status success is written; updates the service row and notifies
    | Catching        // in the catch block: is the deployment canceled?
    | Failing         // markFailed: about to write status failed
    | Done

  /** What the environment makes of the next step of an invocation. */
  datatype Outcome =
    | Goes            // the step completes
    | Throws          // the step throws
    | Rejects         // the configuration or the compose file is found wanting
    | Dies            // the agent process is gone

  /** Everything a worker does that others can see. */
  datatype Act = Nothing | Claims | Works | WritesDeploying | TouchesService | WritesSuccess | WritesFailed

  datatype Move = Move(pc: Pc, status: Status, act: Act)

  /** One step of an invocation at `pc`, on a row with `status`; `aborted` is its abort signal. */
  function RunStep(kind: Kind, status: Status, aborted: bool, pc: Pc, outcome: Outcome): (m: Move) {
    if outcome == Dies then Move(Done, status, Nothing)
    else
      match pc
      case Claiming =>
        if outcome == Goes && status == Queued then Move(Guarding, Building, Claims) else Move(Done, status, Nothing)
      case Guarding =>
        if outcome == Goes then Move(Working, status, Nothing)
        else if outcome == Rejects && kind != Database then Move(Failing, status, Nothing)
        else Move(Done, status, Nothing)
      case Working =>
        // the push of the application worker fails once the abort signal has fired
        if outcome == Goes && !(kind == Application && aborted)
        then Move(if kind == Compose then Pulling else Checking, status, Works)
        else if outcome == Rejects && kind == Compose then Move(Failing, status, Nothing)
        else Move(Catching, status, Nothing)
      case Pulling =>
        if outcome == Goes && !aborted then Move(Checking, status, Nothing) else Move(Catching, status, Nothing)
      case Checking =>
        // the compose worker looks at its polled abort signal, the other two at the row
        if outcome == Goes && !(if kind == Compose then aborted else status == Canceled)
        then Move(Announcing, status, Nothing)
        else Move(Catching, status, Nothing)
      case Announcing =>
        if outcome == Goes then Move(Touching, Deploying, WritesDeploying) else Move(Catching, status, Nothing)
      case Touching =>
        // so does the stack deployment of the compose worker; the other two cannot be stopped here
        if outcome == Goes && !(kind == Compose && aborted)
        then Move(Finishing, status, TouchesService)
        else Move(Catching, status, Nothing)
      case Finishing =>
        if outcome == Goes then Move(Reporting, Success, WritesSuccess) else Move(Catching, status, Nothing)
      case Reporting =>
        if outcome == Goes then Move(Done, status, Nothing) else Move(Catching, status, Nothing)
      case Catching =>
        if outcome == Goes && status != Canceled then Move(Failing, status, Nothing) else Move(Done, status, Nothing)
      case Failing =>
        if outcome == Goes then Move(Done, Failed, WritesFailed) else Move(Done, status, Nothing)
      case Done => Move(Done, status, Nothing)
  }

  datatype Entry = Entry(inv: nat, act: Act)

  datatype State = State(
    kind: Kind,
    status: Status,
    pcs: map<nat, Pc>,          // every invocation so far
    aborted: set<nat>,          // invocations whose abort signal has fired
    cancels: set<nat>,          // cancel requests that have read an in-flight status and not yet written
    log: seq<Entry>)            // what the workers have visibly done, oldest first

  datatype Event =
    | Deliver(inv: nat)                     // the queue hands the job to a fresh invocation
    | Run(inv: nat, outcome: Outcome)
    | Poll(inv: nat)                        // the cancellation watch looks at the row
    | CancelRead(request: nat)
    | CancelWrite(request: nat)

  /** triggerManualDeployment inserts the row as queued. */
  function Init(kind: Kind): State {
    State(kind, Queued, map[], {}, {}, [])
  }

  /** Is the invocation inside the try block, where the cancellation watch runs? */
  predicate Watched(pc: Pc) {
    pc != Claiming && pc != Guarding && pc != Done
  }

  function Step(s: State, e: Event): (s': State) {
    match e
    case Deliver(inv) => if inv in s.pcs then s else s.(pcs := s.pcs[inv := Claiming])
    case Run(inv, outcome) =>
      if inv !in s.pcs then s
      else
        var m := RunStep(s.kind, s.status, inv in s.aborted, s.pcs[inv], outcome);
        s.(status := m.status, pcs := s.pcs[inv := m.pc],
           log := if m.act == Nothing then s.log else s.log + [Entry(inv, m.act)])
    case Poll(inv) =>
      if inv in s.pcs && Watched(s.pcs[inv]) && s.kind != Database && s.status == Canceled
      then s.(aborted := s.aborted + {inv})
      else s
    case CancelRead(request) => if InFlight(s.status) then s.(cancels := s.cancels + {request}) else s
    case CancelWrite(request) =>
      if request !in s.cancels then s
      else s.(cancels := s.cancels - {request}, status := if InFlight(s.status) then Canceled else s.status)
  }

  function Exec(s: State, events: seq<Event>): (s': State)
    decreases |events|
  {
    if events == [] then s else Exec(Step(s, events[0]), events[1..])
  }

  ghost predicate Reachable(s: State) {
    exists kind, events :: s == Exec(Init(kind), events)
  }

  lemma {:induction false} ExecConcat(s: State, a: seq<Event>, b: seq<Event>)
    ensures Exec(s, a + b) == Exec(Exec(s, a), b)
    decreases |a|
  {
    if a == [] {
      assert a + b == b;
    } else {
      assert (a + b)[1..] == a[1..] + b;
      ExecConcat(Step(s, a[0]), a[1..], b);
    }
  }

  // ------------------------------------------------------------------
  // One owner, one script
  // ------------------------------------------------------------------

  /** The visible acts of a deployment that goes well, in order. */
  const SCRIPT: seq<Act> := [Claims, Works, WritesDeploying, TouchesService, WritesSuccess]

  /** Between claim and end. */
  predicate Active(pc: Pc) {
    pc != Claiming && pc != Done
  }

  /** How much of the script an active invocation at `pc` has done. */
  predicate DoneSoFar(pc: Pc, n: nat) {
    match pc
    case Guarding => n == 1
    case Working => n == 1
    case Pulling => n == 2
    case Checking => n == 2
    case Announcing => n == 2
    case Touching => n == 3
    case Finishing => n == 4
    case Reporting => n == 5
    case Catching => 1 <= n
    case Failing => 1 <= n
    case _ => true
  }

  /** The log is the first `n` acts of the script, all by `owner`, possibly followed by a failure. */
  ghost predicate Follows(log: seq<Entry>, owner: nat, n: nat, failed: bool) {
    && n <= 5
    && |log| == n + (if failed then 1 else 0)
    && (forall k | 0 <= k < n :: log[k] == Entry(owner, SCRIPT[k]))
    && (failed ==> n >= 1 && log[n] == Entry(owner, WritesFailed))
  }

  /** What every step keeps. */
  ghost predicate Invariant(s: State, owner: nat, n: nat, failed: bool) {
    && Follows(s.log, owner, n, failed)
    && (s.status == Queued ==> n == 0)
    && (n == 0 ==> s.status == Queued || s.status == Canceled)
    && (forall i <- s.pcs | Active(s.pcs[i]) :: i == owner && n >= 1 && !failed && DoneSoFar(s.pcs[i], n))
    && (failed ==> s.status == Failed)
    && (s.status == Failed ==> failed)
    && (s.status == Success ==> n == 5)
    && (n == 5 && !failed ==> s.status == Success)
  }

  lemma StepKeepsInvariant(s: State, e: Event, owner: nat, n: nat, failed: bool)
    returns (owner': nat, n': nat, failed': bool)
    requires Invariant(s, owner, n, failed)
    ensures Invariant(Step(s, e), owner', n', failed')
  {
    owner', n', failed' := owner, n, failed;
    if e.Run? && e.inv in s.pcs {
      owner', n', failed' := RunKeepsInvariant(s, e, owner, n, failed);
    }
  }

  lemma RunKeepsInvariant(s: State, e: Event, owner: nat, n: nat, failed: bool)
    returns (owner': nat, n': nat, failed': bool)
    requires Invariant(s, owner, n, failed) && e.Run? && e.inv in s.pcs
    ensures Invariant(Step(s, e), owner', n', failed')
  {
    owner', n', failed' := owner, n, failed;
    var m := RunStep(s.kind, s.status, e.inv in s.aborted, s.pcs[e.inv], e.outcome);
    if m.act == WritesFailed {
      failed' := true;
    } else if m.act != Nothing {
      n' := n + 1;
      if m.act == Claims {
        owner' := e.inv;
        ClaimKeepsInvariant(s, e, owner, n, failed);
      }
    }
  }

  lemma ClaimKeepsInvariant(s: State, e: Event, owner: nat, n: nat, failed: bool)
    requires Invariant(s, owner, n, failed) && e.Run? && e.inv in s.pcs
    requires RunStep(s.kind, s.status, e.inv in s.aborted, s.pcs[e.inv], e.outcome).act == Claims
    ensures Invariant(Step(s, e), e.inv, n + 1, failed)
  {
  }

  lemma {:induction false} ExecKeepsInvariant(s: State, events: seq<Event>, owner: nat, n: nat, failed: bool)
    returns (owner': nat, n': nat, failed': bool)
    requires Invariant(s, owner, n, failed)
    ensures Invariant(Exec(s, events), owner', n', failed')
    decreases |events|
  {
    owner', n', failed' := owner, n, failed;
    if events != [] {
      owner', n', failed' := StepKeepsInvariant(s, events[0], owner, n, failed);
      owner', n', failed' := ExecKeepsInvariant(Step(s, events[0]), events[1..], owner', n', failed');
    }
  }

  lemma ReachableInvariant(s: State) returns (owner: nat, n: nat, failed: bool)
    requires Reachable(s)
    ensures Invariant(s, owner, n, failed)
  {
    var kind, events :| s == Exec(Init(kind), events);
    owner, n, failed := ExecKeepsInvariant(Init(kind), events, 0, 0, false);
  }

  lemma ReachableStep(s: State, events: seq<Event>)
    requires Reachable(s)
    ensures Reachable(Exec(s, events))
  {
    var kind, past :| s == Exec(Init(kind), past);
    ExecConcat(Init(kind), past, events);
  }

  /**
   At most one invocation ever passes the claim, and everything any worker visibly
   does is by that one: a prefix of claim, work, write deploying, touch the
   service, write success, in this order and each at most once, after which at most
   one failure is written.
   */
  lemma OneOwnerOneScript(s: State) returns (owner: nat, n: nat, failed: bool)
    requires Reachable(s)
    ensures Follows(s.log, owner, n, failed)
    ensures s.status == Queued ==> s.log == []
    ensures forall i <- s.pcs | Active(s.pcs[i]) :: s.log != [] && i == owner
  {
    owner, n, failed := ReachableInvariant(s);
  }

  /** No step ever makes a status queued again. */
  lemma {:induction false} QueuedIsLeftForGood(s: State, events: seq<Event>)
    requires s.status != Queued
    ensures Exec(s, events).status != Queued
    decreases |events|
  {
    if events != [] {
      QueuedIsLeftForGood(Step(s, events[0]), events[1..]);
    }
  }

  // ------------------------------------------------------------------
  // When a cancel wins
  // ------------------------------------------------------------------

  /** From `pc` a canceled deployment can only be left alone. */
  predicate Harmless(kind: Kind, aborted: bool, pc: Pc) {
    match pc
    case Guarding => kind == Database
    case Working => kind != Compose
    case Pulling => kind != Compose || aborted
    case Checking => kind != Compose || aborted
    case Announcing => false
    case Touching => kind == Compose && aborted
    case Finishing => false
    case Failing => false
    case _ => true
  }

  ghost predicate CancelSticks(s: State) {
    s.status == Canceled && forall i <- s.pcs :: Harmless(s.kind, i in s.aborted, s.pcs[i])
  }

  /** The only thing workers may still visibly do is finish work already begun; no status write, no service. */
  ghost predicate OnlyWork(log: seq<Entry>, later: seq<Entry>) {
    log <= later && forall k | |log| <= k < |later| :: later[k].act == Works
  }

  lemma {:induction false} CancelSticksForever(s: State, events: seq<Event>)
    requires CancelSticks(s)
    ensures CancelSticks(Exec(s, events)) && OnlyWork(s.log, Exec(s, events).log)
    decreases |events|
  {
    if events != [] {
      CancelSticksForever(Step(s, events[0]), events[1..]);
    }
  }

  /** The way an invocation at a harmful `pc` overwrites the cancel. */
  function Overwrite(kind: Kind, pc: Pc, inv: nat): (events: seq<Event>) {
    match pc
    case Guarding => [Run(inv, Rejects), Run(inv, Goes)]
    case Working => [Run(inv, Rejects), Run(inv, Goes)]
    case Pulling => [Run(inv, Goes), Run(inv, Goes), Run(inv, Goes)]
    case Checking => [Run(inv, Goes), Run(inv, Goes)]
    case Announcing => [Run(inv, Goes)]
    case Touching => [Run(inv, Goes), Run(inv, Goes)]
    case Finishing => [Run(inv, Goes)]
    case _ => [Run(inv, Goes)]
  }

  lemma ExecTwo(s: State, a: Event, b: Event)
    ensures Exec(s, [a, b]) == Step(Step(s, a), b)
  {
    assert [a, b][1..] == [b];
    ExecOne(Step(s, a), b);
  }

  lemma ExecThree(s: State, a: Event, b: Event, c: Event)
    ensures Exec(s, [a, b, c]) == Step(Step(Step(s, a), b), c)
  {
    assert [a, b, c][1..] == [b, c];
    ExecTwo(Step(s, a), b, c);
  }

  lemma ExecOne(s: State, a: Event)
    ensures Exec(s, [a]) == Step(s, a)
  {
    assert [a][1..] == [];
  }

  lemma {:induction false} HarmfulOverwrites(s: State, inv: nat)
    requires s.status == Canceled && inv in s.pcs && !Harmless(s.kind, inv in s.aborted, s.pcs[inv])
    ensures Exec(s, Overwrite(s.kind, s.pcs[inv], inv)).status != Canceled
  {
    if s.pcs[inv] == Pulling {
      ExecThree(s, Run(inv, Goes), Run(inv, Goes), Run(inv, Goes));
    } else if s.pcs[inv] == Guarding || s.pcs[inv] == Working {
      ExecTwo(s, Run(inv, Rejects), Run(inv, Goes));
    } else {
      ExecOne(s, Run(inv, Goes));
      ExecTwo(s, Run(inv, Goes), Run(inv, Goes));
    }
  }

  /** A canceled status survives every continuation if and only if no invocation is at a harmful point. */
  lemma CancelSticksExactly(s: State)
    requires s.status == Canceled
    ensures CancelSticks(s) <==> forall events :: Exec(s, events).status == Canceled
  {
    if CancelSticks(s) {
      forall events
        ensures Exec(s, events).status == Canceled
      {
        CancelSticksForever(s, events);
      }
    } else {
      var inv :| inv in s.pcs && !Harmless(s.kind, inv in s.aborted, s.pcs[inv]);
      HarmfulOverwrites(s, inv);
    }
  }

  lemma ScriptStartsWithClaim(log: seq<Entry>, owner: nat, n: nat, failed: bool)
    requires log != [] && Follows(log, owner, n, failed)
    ensures log[0] == Entry(owner, Claims) && !OnlyWork([], log)
  {
    assert log[0] == Entry(owner, SCRIPT[0]);
  }

  /** A cancel that commits while the deployment is queued wins: no worker ever does anything visible. */
  lemma CancelWhileQueuedWins(s: State, request: nat, events: seq<Event>)
    requires Reachable(s) && s.status == Queued && request in s.cancels
    ensures var s' := Exec(Step(s, CancelWrite(request)), events); s'.status == Canceled && s'.log == []
  {
    var owner, n, failed := ReachableInvariant(s);
    var canceled := Step(s, CancelWrite(request));
    CancelSticksForever(canceled, events);
    ExecOne(s, CancelWrite(request));
    ReachableStep(s, [CancelWrite(request)]);
    ReachableStep(canceled, events);
    var log := Exec(canceled, events).log;
    var owner', n', failed' := ReachableInvariant(Exec(canceled, events));
    if log != [] {
      ScriptStartsWithClaim(log, owner', n', failed');
    }
  }

  /** The claimed invocation of a reachable state is the only one that can do harm. */
  lemma OnlyOwnerMatters(s: State, owner: nat)
    requires Reachable(s) && owner in s.pcs && Active(s.pcs[owner])
    ensures forall i <- s.pcs | i != owner :: s.pcs[i] == Claiming || s.pcs[i] == Done
  {
    var o, n, failed := ReachableInvariant(s);
  }

  predicate Touched(log: seq<Entry>) {
    exists entry <- log :: entry.act == TouchesService
  }

  /**
   Application and database workers: a cancel that commits before the last check wins
   and the service is never touched; the application worker must be past its
   configuration guard, which the database worker need not be.
   */
  lemma CancelBeforeCheckWins(s: State, owner: nat, request: nat, events: seq<Event>)
    requires Reachable(s) && s.kind != Compose && InFlight(s.status) && request in s.cancels
    requires owner in s.pcs
    requires s.pcs[owner] == Working || s.pcs[owner] == Checking || (s.pcs[owner] == Guarding && s.kind == Database)
    ensures var s' := Exec(Step(s, CancelWrite(request)), events); s'.status == Canceled && !Touched(s'.log)
  {
    var o, n, failed := ReachableInvariant(s);
    OnlyOwnerMatters(s, owner);
    var canceled := Step(s, CancelWrite(request));
    assert CancelSticks(canceled);
    CancelSticksForever(canceled, events);
    var log := Exec(canceled, events).log;
    forall k | 0 <= k < |log|
      ensures log[k].act != TouchesService
    {
      if k < |s.log| {
        assert log[k] == s.log[k] && s.log[k] == Entry(o, SCRIPT[k]);
      }
    }
  }

  /**
   The compose worker promises it from the moment its abort signal has fired, once validation is
   behind it and until the stack is deployed; when the signal fires during the stack deployment
   that is broken off, so only then may the stack have been touched.
   */
  lemma {:induction false} ComposeCancelWins(s: State, owner: nat, events: seq<Event>)
    requires Reachable(s) && s.kind == Compose && s.status == Canceled
    requires owner in s.pcs && owner in s.aborted
    requires s.pcs[owner] == Pulling || s.pcs[owner] == Checking || s.pcs[owner] == Touching
    ensures var s' := Exec(s, events); s'.status == Canceled && (s.pcs[owner] != Touching ==> !Touched(s'.log))
  {
    var o, n, failed := ReachableInvariant(s);
    OnlyOwnerMatters(s, owner);
    assert CancelSticks(s);
    CancelSticksForever(s, events);
    var log := Exec(s, events).log;
    forall k | 0 <= k < |log|
      ensures log[k].act != TouchesService
    {
      if k < |s.log| {
        assert log[k] == s.log[k] && s.log[k] == Entry(o, SCRIPT[k]);
      }
    }
  }

  /** The cancel really can be lost in the application and compose workers: it commits inside the configuration
      guard. */
  lemma CancelLostInGuard(kind: Kind) returns (s: State, events: seq<Event>)
    requires kind != Database
    ensures Reachable(s) && s.kind == kind && s.status == Canceled
    ensures Exec(s, events).status == Failed
  {
    var claimed := Claimed(kind);
    var requested := Next(claimed, CancelRead(0));
    s := Next(requested, CancelWrite(0));
    GuardOverwrites(s, 0);
    events := [Run(0, Rejects), Run(0, Goes)];
  }

  lemma Claimed(kind: Kind) returns (s: State)
    ensures Reachable(s) && s.kind == kind && s.status == Building && s.pcs == map[0 := Guarding] && s.aborted == {}
  {
    assert Exec(Init(kind), []) == Init(kind);
    var delivered := Next(Init(kind), Deliver(0));
    s := Next(delivered, Run(0, Goes));
  }

  /** One more step of the invocation that goes well. */
  lemma Advance(s: State, inv: nat) returns (s': State)
    requires Reachable(s) && inv in s.pcs
    ensures Reachable(s') && s'.kind == s.kind && s'.aborted == s.aborted && inv in s'.pcs
    ensures var m := RunStep(s.kind, s.status, inv in s.aborted, s.pcs[inv], Goes);
            s'.status == m.status && s'.pcs[inv] == m.pc
  {
    s' := Next(s, Run(inv, Goes));
  }

  /** An invocation that has come as far as its last check. */
  lemma Checked(kind: Kind) returns (s: State)
    ensures Reachable(s) && s.kind == kind && s.status == Building && 0 in s.pcs && s.pcs[0] == Checking
    ensures 0 !in s.aborted
  {
    s := Claimed(kind);
    s := Advance(s, 0);
    s := Advance(s, 0);
    if kind == Compose { s := Advance(s, 0); }
  }

  /** An invocation that has written deploying and is about to touch the service. */
  lemma AboutToTouch(kind: Kind) returns (s: State)
    ensures Reachable(s) && s.kind == kind && s.status == Deploying
    ensures 0 in s.pcs && s.pcs[0] == Touching && 0 !in s.aborted
  {
    s := Checked(kind);
    s := Advance(s, 0);
    s := Advance(s, 0);
  }

  /**
   The commonest cancel of all is lost too: one that commits while the service is being deployed or
   waited for is overwritten by success.
   */
  lemma CancelWhileDeployingLost(kind: Kind) returns (s: State, events: seq<Event>)
    ensures Reachable(s) && s.kind == kind && s.status == Canceled && Exec(s, events).status == Success
  {
    var deploying := AboutToTouch(kind);
    deploying := Advance(deploying, 0);
    var requested := Next(deploying, CancelRead(0));
    s := Next(requested, CancelWrite(0));
    events := [Run(0, Goes)];
    ExecOne(s, Run(0, Goes));
  }

  /** The abort signal can fire during the stack deployment, and then the cancel stays. */
  lemma ComposeCancelDuringDeployment() returns (s: State)
    ensures Reachable(s) && s.kind == Compose && s.status == Canceled
    ensures 0 in s.pcs && s.pcs[0] == Touching && 0 in s.aborted
    ensures forall events :: Exec(s, events).status == Canceled
  {
    var deploying := AboutToTouch(Compose);
    var requested := Next(deploying, CancelRead(0));
    var canceled := Next(requested, CancelWrite(0));
    s := Next(canceled, Poll(0));
    forall events
      ensures Exec(s, events).status == Canceled
    {
      ComposeCancelWins(s, 0, events);
    }
  }

  /** The abort signal fires only in the try block of an application or compose worker, and only after a cancel. */
  ghost predicate AbortsHaveReason(s: State, canceled: bool) {
    && (s.aborted != {} || s.status == Canceled ==> canceled)
    && forall i <- s.aborted :: s.kind != Database && i in s.pcs && s.pcs[i] != Claiming && s.pcs[i] != Guarding
  }

  lemma {:induction false} RunAbortsWithReason(s: State, events: seq<Event>, canceled: bool)
    requires AbortsHaveReason(s, canceled)
    ensures AbortsHaveReason(Exec(s, events), canceled || !NoCancelWrites(events))
    decreases |events|
  {
    if events != [] {
      var canceled' := canceled || events[0].CancelWrite?;
      RunAbortsWithReason(Step(s, events[0]), events[1..], canceled');
      assert !NoCancelWrites(events[1..]) ==> !NoCancelWrites(events) by {
        assert forall k | 0 <= k < |events[1..]| :: events[1..][k] == events[k + 1];
      }
    }
  }

  lemma AbortsOnlyAfterCancel(kind: Kind, events: seq<Event>)
    ensures AbortsHaveReason(Exec(Init(kind), events), !NoCancelWrites(events))
  {
    RunAbortsWithReason(Init(kind), events, false);
  }

  /** A build whose signal has fired is broken off: the worker does nothing visible any more. */
  lemma AbortedBuildIsBrokenOff(s: State, owner: nat, events: seq<Event>)
    requires Reachable(s) && s.kind == Application && s.status == Canceled
    requires owner in s.pcs && s.pcs[owner] == Working && owner in s.aborted
    ensures Exec(s, events).status == Canceled && Exec(s, events).log == s.log
  {
    OnlyOwnerMatters(s, owner);
    BrokenOffForever(s, events, owner);
  }

  /** All that is left to the worker is to find out that it is canceled. */
  ghost predicate BrokenOff(s: State, owner: nat) {
    && s.kind == Application && s.status == Canceled && owner in s.aborted && owner in s.pcs
    && (s.pcs[owner] == Working || s.pcs[owner] == Catching || s.pcs[owner] == Done)
    && forall i <- s.pcs | i != owner :: s.pcs[i] == Claiming || s.pcs[i] == Done
  }

  lemma {:induction false} BrokenOffForever(s: State, events: seq<Event>, owner: nat)
    requires BrokenOff(s, owner)
    ensures BrokenOff(Exec(s, events), owner) && Exec(s, events).log == s.log
    decreases |events|
  {
    if events != [] { BrokenOffForever(Step(s, events[0]), events[1..], owner); }
  }

  /** That can happen. */
  lemma BuildIsBrokenOff() returns (s: State)
    ensures Reachable(s) && s.kind == Application && s.status == Canceled
    ensures 0 in s.pcs && s.pcs[0] == Working && 0 in s.aborted
  {
    var claimed := Claimed(Application);
    var working := Next(claimed, Run(0, Goes));
    var requested := Next(working, CancelRead(0));
    var canceled := Next(requested, CancelWrite(0));
    s := Next(canceled, Poll(0));
  }

  /** The cancel of a compose deployment that commits before the last check, but is not polled before it, is
      overwritten. */
  lemma ComposeCancelOverlooked() returns (s: State, events: seq<Event>)
    ensures Reachable(s) && s.kind == Compose && s.status == Canceled
    ensures 0 in s.pcs && s.pcs[0] == Checking && 0 !in s.aborted
    ensures Exec(s, events).status == Deploying
  {
    var checked := Checked(Compose);
    var requested := Next(checked, CancelRead(0));
    s := Next(requested, CancelWrite(0));
    events := [Run(0, Goes), Run(0, Goes)];
    ExecTwo(s, Run(0, Goes), Run(0, Goes));
  }

  lemma GuardOverwrites(s: State, inv: nat)
    requires s.kind != Database && inv in s.pcs && s.pcs[inv] == Guarding
    ensures Exec(s, [Run(inv, Rejects), Run(inv, Goes)]).status == Failed
  {
    ExecTwo(s, Run(inv, Rejects), Run(inv, Goes));
  }

  lemma Next(s: State, e: Event) returns (s': State)
    requires Reachable(s)
    ensures Reachable(s') && s' == Step(s, e)
  {
    s' := Step(s, e);
    ExecOne(s, e);
    ReachableStep(s, [e]);
  }

  predicate NoRuns(events: seq<Event>) {
    forall k | 0 <= k < |events| :: !events[k].Run?
  }

  /**
   Cancels among themselves, however many and however interleaved with deliveries and polls:
   they never replace success, failed or canceled, they can only turn an in-flight status
   into canceled, and they do so as soon as one that has read an in-flight status writes.
   */
  lemma {:induction false} CancelIsCompareAndSet(s: State, events: seq<Event>, request: nat)
    requires NoRuns(events)
    ensures var s' := Exec(s, events);
            && s'.log == s.log
            && (s'.status == s.status || (InFlight(s.status) && s'.status == Canceled))
            && (!InFlight(s.status) ==> s'.cancels <= s.cancels)
            && (request in s.cancels && CancelWrite(request) in events ==> !InFlight(s'.status))
    decreases |events|
  {
    if events != [] {
      var e := events[0];
      CancelIsCompareAndSet(Step(s, e), events[1..], request);
      assert CancelWrite(request) in events ==> e == CancelWrite(request) || CancelWrite(request) in events[1..];
    }
  }

  /** Whatever changes a terminal status is a step of the invocation that has claimed the deployment. */
  lemma OnlyOwnerChangesTerminal(s: State, e: Event)
    requires Reachable(s) && !InFlight(s.status) && Step(s, e).status != s.status
    ensures e.Run? && s.log != [] && s.log[0] == Entry(e.inv, Claims)
  {
    var owner, n, failed := ReachableInvariant(s);
    assert e.Run? && e.inv in s.pcs;
    assert Active(s.pcs[e.inv]);
    ScriptStartsWithClaim(s.log, owner, n, failed);
  }

  // ------------------------------------------------------------------
  // The other terminal statuses
  // ------------------------------------------------------------------

  /**
   Nobody takes over from a dead worker: without an active invocation a deployment in
   building or deploying gets no further, however often its job is delivered again; it
   stays in flight until somebody cancels it.
   */
  lemma {:induction false} DeadWorkerLeavesInFlight(s: State, events: seq<Event>)
    requires s.status != Queued && forall i <- s.pcs :: !Active(s.pcs[i])
    ensures var s' := Exec(s, events);
            && s'.log == s.log && (forall i <- s'.pcs :: !Active(s'.pcs[i]))
            && (s'.status == s.status || (InFlight(s.status) && s'.status == Canceled))
            && (NoCancelWrites(events) ==> s'.status == s.status)
    decreases |events|
  {
    if events != [] {
      DeadWorkerLeavesInFlight(Step(s, events[0]), events[1..]);
    }
  }

  predicate NoCancelWrites(events: seq<Event>) {
    forall k | 0 <= k < |events| :: !events[k].CancelWrite?
  }

  /** Can the status change without anybody canceling? */
  ghost predicate CanMoveOn(s: State) {
    exists events :: NoCancelWrites(events) && Exec(s, events).status != s.status
  }

  /** How an active invocation can end in failure. */
  function FailFrom(kind: Kind, pc: Pc, inv: nat): (events: seq<Event>) {
    match pc
    case Failing => [Run(inv, Goes)]
    case Catching => [Run(inv, Goes), Run(inv, Goes)]
    case Guarding =>
      if kind == Database then [Run(inv, Goes)] + [Run(inv, Throws), Run(inv, Goes), Run(inv, Goes)]
      else [Run(inv, Rejects), Run(inv, Goes)]
    case _ => [Run(inv, Throws), Run(inv, Goes), Run(inv, Goes)]
  }

  /** From wherever it stands, an active invocation can turn any status but canceled into failed. */
  lemma ActiveCanFail(s: State, inv: nat)
    requires s.status != Canceled && inv in s.pcs && Active(s.pcs[inv])
    ensures Exec(s, FailFrom(s.kind, s.pcs[inv], inv)).status == Failed
    ensures NoCancelWrites(FailFrom(s.kind, s.pcs[inv], inv))
  {
    if s.pcs[inv] == Failing {
      ExecOne(s, Run(inv, Goes));
    } else if s.pcs[inv] == Catching {
      CatchingFails(s, inv);
    } else if s.pcs[inv] == Guarding {
      GuardingCanFail(s, inv);
    } else {
      ThrowingFails(s, inv);
    }
  }

  lemma ThrowingFails(s: State, inv: nat)
    requires s.status != Canceled && inv in s.pcs && Active(s.pcs[inv])
    requires s.pcs[inv] != Guarding && s.pcs[inv] != Catching && s.pcs[inv] != Failing
    ensures Exec(s, [Run(inv, Throws), Run(inv, Goes), Run(inv, Goes)]).status == Failed
  {
    var caught := Step(s, Run(inv, Throws));
    assert caught.pcs[inv] == Catching && caught.status == s.status;
    CatchingFails(caught, inv);
    ExecFirst(s, Run(inv, Throws), [Run(inv, Goes), Run(inv, Goes)]);
  }

  lemma CatchingFails(s: State, inv: nat)
    requires s.status != Canceled && inv in s.pcs && s.pcs[inv] == Catching
    ensures Exec(s, [Run(inv, Goes), Run(inv, Goes)]).status == Failed
  {
    ExecTwo(s, Run(inv, Goes), Run(inv, Goes));
  }

  lemma ExecFirst(s: State, first: Event, rest: seq<Event>)
    ensures Exec(s, [first] + rest) == Exec(Step(s, first), rest)
  {
    assert ([first] + rest)[1..] == rest;
  }

  lemma GuardingCanFail(s: State, inv: nat)
    requires s.status != Canceled && inv in s.pcs && s.pcs[inv] == Guarding
    ensures Exec(s, FailFrom(s.kind, Guarding, inv)).status == Failed
  {
    if s.kind == Database {
      ExecFirst(s, Run(inv, Goes), [Run(inv, Throws), Run(inv, Goes), Run(inv, Goes)]);
      ThrowingFails(Step(s, Run(inv, Goes)), inv);
    } else {
      ExecTwo(s, Run(inv, Rejects), Run(inv, Goes));
    }
  }

  /** A deployment in building or deploying can move on without a cancel if and only if its worker is still there. */
  lemma MovesOnExactly(s: State)
    requires s.status == Building || s.status == Deploying
    ensures CanMoveOn(s) <==> exists i <- s.pcs :: Active(s.pcs[i])
  {
    if i :| i in s.pcs && Active(s.pcs[i]) {
      ActiveCanFail(s, i);
    } else {
      forall events | NoCancelWrites(events)
        ensures Exec(s, events).status == s.status
      {
        DeadWorkerLeavesInFlight(s, events);
      }
    }
  }

  /** It does happen: the agent dies right after the claim. */
  lemma WorkerDies(kind: Kind) returns (s: State)
    ensures Reachable(s) && s.kind == kind && s.status == Building && !CanMoveOn(s)
  {
    var claimed := Claimed(kind);
    s := Next(claimed, Run(0, Dies));
    MovesOnExactly(s);
  }

  /** A failed deployment stays failed. */
  lemma FailedIsFinal(s: State, events: seq<Event>)
    requires Reachable(s) && s.status == Failed
    ensures Exec(s, events).status == Failed && Exec(s, events).log == s.log
  {
    var owner, n, failed := ReachableInvariant(s);
    DeadWorkerLeavesInFlight(s, events);
  }

  /**
   Success is final if and only if its worker has left: an error after the success
   write (updating the service row, notifying) still turns it into a failure.
   */
  lemma SuccessSticksExactly(s: State)
    requires Reachable(s) && s.status == Success
    ensures (forall i <- s.pcs :: !Active(s.pcs[i])) <==> forall events :: Exec(s, events).status == Success
  {
    if forall i <- s.pcs :: !Active(s.pcs[i]) {
      forall events
        ensures Exec(s, events).status == Success
      {
        DeadWorkerLeavesInFlight(s, events);
      }
    } else {
      var inv :| inv in s.pcs && Active(s.pcs[inv]);
      LateFailure(s, inv);
    }
  }


  lemma LateFailure(s: State, inv: nat)
    requires Reachable(s) && s.status == Success && inv in s.pcs && Active(s.pcs[inv])
    ensures Exec(s, FailFrom(s.kind, s.pcs[inv], inv)).status == Failed
  {
    ActiveCanFail(s, inv);
  }

  /** It does happen: the row says success while its worker is still there. */
  lemma SuccessWhileActive(kind: Kind) returns (s: State, events: seq<Event>)
    ensures Reachable(s) && s.kind == kind && s.status == Success && Exec(s, events).status == Failed
  {
    s := AboutToTouch(kind);
    s := Advance(s, 0);
    s := Advance(s, 0);
    events := FailFrom(kind, s.pcs[0], 0);
    ActiveCanFail(s, 0);
  }

  // ------------------------------------------------------------------
  // Runs in which nothing goes wrong
  // ------------------------------------------------------------------

  /** Every step of every invocation completes, and nobody cancels. */
  predicate GoesWell(events: seq<Event>) {
    forall k | 0 <= k < |events| :: !events[k].CancelWrite? && (events[k].Run? ==> events[k].outcome == Goes)
  }

  /** The status that goes with so much of the script. */
  function StatusAfter(n: nat): (status: Status) {
    if n == 0 then Queued else if n <= 2 then Building else if n <= 4 then Deploying else Success
  }

  /** After `n` acts of the script: their one author goes on, or has finished it, and the status tells how far it is. */
  ghost predicate Well(s: State, owner: nat, n: nat) {
    && n <= 5 && s.log == Script(owner, n)
    && s.status == StatusAfter(n) && s.aborted == {}
    && (forall i <- s.pcs | Active(s.pcs[i]) :: i == owner && n >= 1)
    && (n >= 1 ==> owner in s.pcs && IsAt(s.pcs[owner], n))
  }

  predicate IsAt(pc: Pc, n: nat) {
    if pc == Done then n == 5 else Active(pc) && pc != Catching && pc != Failing && DoneSoFar(pc, n)
  }

  /** The first `n` acts of the script. */
  function Script(owner: nat, n: nat): (log: seq<Entry>)
    requires n <= |SCRIPT|
  {
    seq(n, k requires 0 <= k < n => Entry(owner, SCRIPT[k]))
  }

  lemma StepStaysWell(s: State, e: Event, owner: nat, n: nat) returns (owner': nat, n': nat)
    requires Well(s, owner, n) && GoesWell([e])
    ensures Well(Step(s, e), owner', n')
    ensures n >= 1 ==> owner' == owner
  {
    assert [e][0] == e;
    owner', n' := owner, n;
    if e.Run? && e.inv in s.pcs {
      var m := RunStep(s.kind, s.status, false, s.pcs[e.inv], Goes);
      if m.act != Nothing {
        owner', n' := e.inv, n + 1;
        assert Script(e.inv, n + 1) == Script(e.inv, n) + [Entry(e.inv, SCRIPT[n])];
        assert n == 0 ==> Script(e.inv, n) == Script(owner, n);
      }
    }
  }

  lemma {:induction false} RunStaysWell(s: State, events: seq<Event>, owner: nat, n: nat)
    returns (owner': nat, n': nat)
    requires Well(s, owner, n) && GoesWell(events)
    ensures Well(Exec(s, events), owner', n')
    ensures n >= 1 ==> owner' == owner
    decreases |events|
  {
    owner', n' := owner, n;
    if events != [] {
      assert [events[0]][0] == events[0];
      owner', n' := StepStaysWell(s, events[0], owner, n);
      owner', n' := RunStaysWell(Step(s, events[0]), events[1..], owner', n');
    }
  }

  /**
   If nothing goes wrong, the status always tells how much of the script is done, it is never failed
   or canceled, and when the invocation that has claimed the deployment is gone, the whole script is
   done and the status is success.
   */
  lemma GoodRunSucceeds(kind: Kind, events: seq<Event>) returns (owner: nat, n: nat)
    requires GoesWell(events)
    ensures var s := Exec(Init(kind), events);
            && n <= 5 && s.log == Script(owner, n) && s.status == StatusAfter(n)
            && (s.status != Queued && (forall i <- s.pcs :: !Active(s.pcs[i])) ==>
                  s.status == Success && s.log == Script(owner, 5))
  {
    owner, n := RunStaysWell(Init(kind), events, 0, 0);
  }

  /** The next `n` steps of an invocation, all of which go well. */
  function GoodSteps(inv: nat, n: nat): (events: seq<Event>)
    ensures |events| == n && forall k | 0 <= k < n :: events[k] == Run(inv, Goes)
  {
    seq(n, _ => Run(inv, Goes))
  }

  /** How many steps an invocation at `pc` has before it at most. */
  function StepsLeft(pc: Pc): (n: nat) {
    match pc
    case Guarding => 8
    case Working => 7
    case Pulling => 6
    case Checking => 5
    case Announcing => 4
    case Touching => 3
    case Finishing => 2
    case Reporting => 1
    case _ => 0
  }

  lemma {:induction false} OwnerFinishes(s: State, owner: nat, n: nat, steps: nat)
    requires Well(s, owner, n) && n >= 1 && steps >= StepsLeft(s.pcs[owner])
    ensures var s' := Exec(s, GoodSteps(owner, steps));
            s'.status == Success && forall i <- s'.pcs :: !Active(s'.pcs[i])
    decreases steps
  {
    if steps > 0 {
      var e := Run(owner, Goes);
      assert [e][0] == e;
      var owner', n' := StepStaysWell(s, e, owner, n);
      assert n' >= 1;
      OwnerFinishes(Step(s, e), owner, n', steps - 1);
      assert GoodSteps(owner, steps) == [e] + GoodSteps(owner, steps - 1);
      ExecFirst(s, e, GoodSteps(owner, steps - 1));
    }
  }

  /** Eight more steps of the invocation that has claimed the deployment are enough, and nine of a fresh one. */
  lemma GoodRunCompletes(kind: Kind, events: seq<Event>, inv: nat)
    requires GoesWell(events)
    ensures var s := Exec(Init(kind), events);
            inv in s.pcs && Active(s.pcs[inv]) ==> Exec(s, GoodSteps(inv, 8)).status == Success
    ensures var s := Exec(Init(kind), events);
            s.status == Queued && inv !in s.pcs ==> Exec(s, [Deliver(inv)] + GoodSteps(inv, 9)).status == Success
  {
    var s := Exec(Init(kind), events);
    var owner, n := RunStaysWell(Init(kind), events, 0, 0);
    if inv in s.pcs && Active(s.pcs[inv]) {
      OwnerFinishes(s, inv, n, 8);
    }
    if s.status == Queued && inv !in s.pcs {
      ClaimFinishes(Step(s, Deliver(inv)), inv);
      ExecFirst(s, Deliver(inv), GoodSteps(inv, 9));
    }
  }

  lemma ClaimFinishes(s: State, inv: nat)
    requires Well(s, inv, 0) && inv in s.pcs && s.pcs[inv] == Claiming
    ensures Exec(s, GoodSteps(inv, 9)).status == Success
  {
    var e := Run(inv, Goes);
    assert [e][0] == e;
    var owner, n := StepStaysWell(s, e, inv, 0);
    assert Step(s, e).pcs[inv] == Guarding;
    OwnerFinishes(Step(s, e), inv, n, 8);
    assert GoodSteps(inv, 9) == [e] + GoodSteps(inv, 8);
    ExecFirst(s, e, GoodSteps(inv, 8));
  }

  // ------------------------------------------------------------------
  // Steps that go wrong
  // ------------------------------------------------------------------

  /** A step that goes wrong writes nothing and touches nothing by itself. */
  lemma OnlyGoodStepsAct(s: State, inv: nat, outcome: Outcome)
    requires outcome != Goes
    ensures Step(s, Run(inv, outcome)).status == s.status && Step(s, Run(inv, outcome)).log == s.log
  {
  }

  /** The agent dies, or something throws outside the try block: in the guard or while the failure is handled. */
  predicate LeavesAlone(kind: Kind, pc: Pc, outcome: Outcome) {
    match outcome
    case Dies => true
    case Goes => false
    case Rejects => pc == Catching || pc == Failing || (pc == Guarding && kind == Database)
    case Throws => pc == Catching || pc == Failing || pc == Guarding
  }

  /** Exactly such a step of the worker leaves its row in building or deploying for good, up to a cancel. */
  lemma StuckExactly(s: State, inv: nat, outcome: Outcome)
    requires Reachable(s) && (s.status == Building || s.status == Deploying) && inv in s.pcs && Active(s.pcs[inv])
    ensures var s' := Step(s, Run(inv, outcome));
            (s'.status == Building || s'.status == Deploying) && !CanMoveOn(s')
            <==> LeavesAlone(s.kind, s.pcs[inv], outcome)
  {
    var owner, n, failed := ReachableInvariant(s);
    var s' := Step(s, Run(inv, outcome));
    if s'.status == Building || s'.status == Deploying {
      MovesOnExactly(s');
      assert inv in s'.pcs;
    }
  }

  /** A cancel can even turn into a failure: it commits and is polled after the last check of a compose deployment. */
  lemma CancelTurnsIntoFailure() returns (s: State, events: seq<Event>)
    ensures Reachable(s) && s.kind == Compose && s.status == Canceled
    ensures forall k | 0 <= k < |events| :: events[k] == Run(0, Goes)
    ensures Exec(s, events).status == Failed
  {
    var checked := Checked(Compose);
    var announcing := Advance(checked, 0);
    var requested := Next(announcing, CancelRead(0));
    var canceled := Next(requested, CancelWrite(0));
    s := Next(canceled, Poll(0));
    events := GoodSteps(0, 4);
    AnnouncedFails(s, 0);
  }

  lemma AnnouncedFails(s: State, inv: nat)
    requires s.kind == Compose && inv in s.pcs && s.pcs[inv] == Announcing && inv in s.aborted
    ensures Exec(s, GoodSteps(inv, 4)).status == Failed
  {
    var announced := Step(s, Run(inv, Goes));
    var caught := Step(announced, Run(inv, Goes));
    assert caught.pcs[inv] == Catching && caught.status == Deploying;
    CatchingFails(caught, inv);
    ExecTwo(s, Run(inv, Goes), Run(inv, Goes));
    ExecConcat(s, [Run(inv, Goes), Run(inv, Goes)], [Run(inv, Goes), Run(inv, Goes)]);
    assert GoodSteps(inv, 4) == [Run(inv, Goes), Run(inv, Goes)] + [Run(inv, Goes), Run(inv, Goes)];
  }
}
