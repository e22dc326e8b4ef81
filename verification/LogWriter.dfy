/**
 Sequence numbers of deployment log rows (`createLogWriter`) and the cursor reader
 of the log viewers.

 One agent process at a time; inside it any number of `write` calls interleave at
 every await: the shared lazy initialisation, the insert, its commit, in any order.
 A crash loses what is not committed.
 */
module LogWriter {
  datatype Stream = Build | Runtime

  datatype Row = Row(id: nat, stream: Stream, sequence: nat)

  /** The shared `initPromise`. */
  datatype Initialization =
    | NotStarted
    | Requested            // the select is under way
    | Loaded(last: nat)    // the select has answered, the continuation has not run yet
    | Ready
    | Rejected             // the select failed; the rejected promise is kept

  /** A log viewer: the cursor of its next poll and what it has been sent. */
  datatype Reader = Reader(stream: Stream, cursor: nat, received: seq<Row>)

  datatype State = State(
    rows: set<Row>,                  // persisted
    inFlight: map<nat, Row>,         // inserts sent and not yet committed, by call
    waiting: map<nat, Stream>,       // calls of `write` awaiting the initialisation
    calls: set<nat>,                 // every call so far
    init: Initialization,
    sequence: nat,                   // the process's counter
    reader: Reader)

  datatype Event =
    | Write(call: nat, stream: Stream)
    | Load                           // the select reads the highest persisted sequence
    | LoadFails
    | Resolve                        // the counter is set to what the select has read
    | Resume(call: nat)              // the counter goes up by one, the insert is sent
    | Commit(call: nat)
    | InsertFails(call: nat)
    | Crash                          // the agent restarts
    | Poll(batch: seq<Row>)          // the reader asks for everything after its cursor

  function Start(stream: Stream): State {
    State({}, map[], map[], {}, NotStarted, 0, Reader(stream, 0, []))
  }

  /** The highest sequence of the rows, or 0. */
  ghost predicate IsLast(rows: set<Row>, last: nat) {
    && (forall row <- rows :: row.sequence <= last)
    && (last == 0 || exists row <- rows :: row.sequence == last)
  }

  ghost function Last(rows: set<Row>): (last: nat)
    ensures IsLast(rows, last)
  {
    if rows == {} then 0
    else
      var row :| row in rows;
      var rest := Last(rows - {row});
      assert forall r <- rows :: r == row || r in rows - {row};
      if rest < row.sequence then row.sequence else rest
  }

  /** The reader's query: the stream's rows after the cursor, in ascending sequence. */
  ghost predicate IsSelected(rows: set<Row>, stream: Stream, after: nat, batch: seq<Row>) {
    && (forall row :: row in batch <==> row in rows && row.stream == stream && row.sequence > after)
    && Ascending(batch)
  }

  ghost predicate Ascending(batch: seq<Row>) {
    forall i, j | 0 <= i < j < |batch| :: batch[i].sequence < batch[j].sequence
  }

  ghost function Step(s: State, e: Event): (s': State) {
    match e
    case Write(call, stream) =>
      if call in s.calls then s
      else if s.init == Rejected then s.(calls := s.calls + {call})
      else s.(calls := s.calls + {call}, waiting := s.waiting[call := stream],
              init := if s.init == NotStarted then Requested else s.init)
    case Load => if s.init == Requested then s.(init := Loaded(Last(s.rows))) else s
    case LoadFails => if s.init == Requested then s.(init := Rejected, waiting := map[]) else s
    case Resolve => if s.init.Loaded? then s.(init := Ready, sequence := s.init.last) else s
    case Resume(call) =>
      if s.init == Ready && call in s.waiting then
        s.(sequence := s.sequence + 1, waiting := s.waiting - {call},
           inFlight := s.inFlight[call := Row(call, s.waiting[call], s.sequence + 1)])
      else s
    case Commit(call) =>
      if call in s.inFlight then s.(rows := s.rows + {s.inFlight[call]}, inFlight := s.inFlight - {call}) else s
    case InsertFails(call) => s.(inFlight := s.inFlight - {call})
    case Crash => s.(init := NotStarted, sequence := 0, waiting := map[], inFlight := map[])
    case Poll(batch) =>
      if IsSelected(s.rows, s.reader.stream, s.reader.cursor, batch) then
        s.(reader := s.reader.(
             received := s.reader.received + batch,
             cursor := if batch == [] then s.reader.cursor else batch[|batch| - 1].sequence))
      else s
  }

  ghost function Exec(s: State, events: seq<Event>): (s': State)
    decreases |events|
  {
    if events == [] then s else Exec(Step(s, events[0]), events[1..])
  }

  // ------------------------------------------------------------------
  // Distinct numbers
  // ------------------------------------------------------------------

  /** Two different rows, persisted or in flight, have different numbers. */
  ghost predicate DistinctNumbers(s: State) {
    Apart(s.rows, s.inFlight)
  }

  ghost predicate Apart(rows: set<Row>, inFlight: map<nat, Row>) {
    && (forall a, b | a in rows && b in rows && a.sequence == b.sequence :: a == b)
    && (forall c, d | c in inFlight && d in inFlight && inFlight[c].sequence == inFlight[d].sequence :: c == d)
    && (forall a, c | a in rows && c in inFlight :: a.sequence != inFlight[c].sequence)
  }

  /** The counter is past every number in use. */
  ghost predicate Covers(s: State) {
    && (s.init == Ready ==> forall row <- s.rows :: row.sequence <= s.sequence)
    && (s.init == Ready ==> forall c <- s.inFlight :: s.inFlight[c].sequence <= s.sequence)
    && (s.init != Ready ==> s.inFlight == map[])
    && (s.init.Loaded? ==> forall row <- s.rows :: row.sequence <= s.init.last)
  }

  /** What a reader has been sent: rows of its stream, ascending, none after its cursor. */
  ghost predicate ReadInOrder(s: State) {
    && Ascending(s.reader.received)
    && (forall row <- s.reader.received ::
        row in s.rows && row.stream == s.reader.stream && row.sequence <= s.reader.cursor)
  }

  ghost predicate Invariant(s: State) {
    DistinctNumbers(s) && Covers(s) && ReadInOrder(s)
  }

  lemma CommitKeepsDistinct(s: State, call: nat)
    requires DistinctNumbers(s) && Covers(s)
    ensures DistinctNumbers(Step(s, Commit(call)))
  {
  }

  lemma ResumeKeepsDistinct(s: State, call: nat)
    requires DistinctNumbers(s) && Covers(s)
    ensures DistinctNumbers(Step(s, Resume(call)))
  {
  }

  lemma StepKeepsDistinct(s: State, e: Event)
    requires DistinctNumbers(s) && Covers(s)
    ensures DistinctNumbers(Step(s, e))
  {
    match e
    case Resume(call) => ResumeKeepsDistinct(s, call);
    case Commit(call) => CommitKeepsDistinct(s, call);
    case InsertFails(call) =>
    case _ => assert Step(s, e).rows == s.rows && (Step(s, e).inFlight == s.inFlight || Step(s, e).inFlight == map[]);
  }

  lemma StepKeepsCovers(s: State, e: Event)
    requires Covers(s)
    ensures Covers(Step(s, e))
  {
  }

  lemma StepKeepsReader(s: State, e: Event)
    requires ReadInOrder(s)
    ensures ReadInOrder(Step(s, e))
  {
    if e.Poll? && IsSelected(s.rows, s.reader.stream, s.reader.cursor, e.batch) {
      assert forall row <- e.batch :: row.sequence > s.reader.cursor;
      assert forall i | 0 <= i < |s.reader.received| :: s.reader.received[i] in s.reader.received;
      assert forall i | 0 <= i < |e.batch| :: e.batch[i] in e.batch;
    }
  }

  /** In every run of writes, commits in any order, failures, restarts and polls the invariant holds. */
  lemma {:induction false} RunKeepsInvariant(s: State, events: seq<Event>)
    requires Invariant(s)
    ensures Invariant(Exec(s, events))
    decreases |events|
  {
    if events != [] {
      StepKeepsDistinct(s, events[0]);
      StepKeepsCovers(s, events[0]);
      StepKeepsReader(s, events[0]);
      RunKeepsInvariant(Step(s, events[0]), events[1..]);
    }
  }

  /** No two log rows of a deployment ever share a number, and no row is sent to a reader twice. */
  lemma {:induction false} NumbersAreDistinct(stream: Stream, events: seq<Event>)
    ensures var s := Exec(Start(stream), events);
            DistinctNumbers(s) && Ascending(s.reader.received)
  {
    RunKeepsInvariant(Start(stream), events);
  }

  /** A row written now, in this process or after any number of restarts, is numbered above everything
      persisted or in flight. */
  lemma {:induction false} ResumeNumbersAbove(stream: Stream, events: seq<Event>, call: nat)
    ensures var s := Exec(Start(stream), events);
            s.init == Ready && call in s.waiting ==>
              var row := Step(s, Resume(call)).inFlight[call];
              && (forall r <- s.rows :: r.sequence < row.sequence)
              && (forall c <- s.inFlight :: s.inFlight[c].sequence < row.sequence)
  {
    RunKeepsInvariant(Start(stream), events);
  }

  // ------------------------------------------------------------------
  // Every row is what a call asked for
  // ------------------------------------------------------------------

  /** The calls made and the streams they write to; a call is made once. */
  function Asked(events: seq<Event>): (asked: map<nat, Stream>) {
    if events == [] then map[] else WithCall(Asked(events[..|events| - 1]), events[|events| - 1])
  }

  function WithCall(asked: map<nat, Stream>, e: Event): map<nat, Stream> {
    if e.Write? && e.call !in asked then asked[e.call := e.stream] else asked
  }

  ghost predicate IsAsked(asked: map<nat, Stream>, call: nat, stream: Stream) {
    call in asked && asked[call] == stream
  }

  /** Each call is waiting, in flight or persisted, one of these at most, and its row is of the stream it asked for. */
  ghost predicate AsAsked(s: State, asked: map<nat, Stream>) {
    && s.calls == asked.Keys
    && (forall call <- s.waiting :: IsAsked(asked, call, s.waiting[call]))
    && (forall call <- s.inFlight :: s.inFlight[call].id == call && IsAsked(asked, call, s.inFlight[call].stream))
    && (forall row <- s.rows :: IsAsked(asked, row.id, row.stream))
    && OneRowEach(s)
  }

  ghost predicate OneRowEach(s: State) {
    && (forall call <- s.waiting :: call !in s.inFlight)
    && (forall row <- s.rows :: row.id !in s.waiting && row.id !in s.inFlight)
    && (forall a, b | a in s.rows && b in s.rows && a.id == b.id :: a == b)
  }

  lemma WriteIsAsAsked(s: State, asked: map<nat, Stream>, e: Event)
    requires AsAsked(s, asked) && e.Write?
    ensures AsAsked(Step(s, e), WithCall(asked, e))
  {
  }

  lemma CommitIsAsAsked(s: State, asked: map<nat, Stream>, e: Event)
    requires AsAsked(s, asked) && e.Commit?
    ensures AsAsked(Step(s, e), asked)
  {
  }

  lemma StepIsAsAsked(s: State, asked: map<nat, Stream>, e: Event)
    requires AsAsked(s, asked)
    ensures AsAsked(Step(s, e), WithCall(asked, e))
  {
    match e
    case Write(_, _) => WriteIsAsAsked(s, asked, e);
    case Commit(_) => CommitIsAsAsked(s, asked, e);
    case _ =>
  }

  lemma {:induction false} RunIsAsAsked(s: State, past: seq<Event>, events: seq<Event>)
    requires AsAsked(s, Asked(past))
    ensures AsAsked(Exec(s, events), Asked(past + events))
    decreases |events|
  {
    if events == [] {
      assert past + events == past;
    } else {
      StepIsAsAsked(s, Asked(past), events[0]);
      assert (past + [events[0]])[..|past|] == past;
      RunIsAsAsked(Step(s, events[0]), past + [events[0]], events[1..]);
      assert past + [events[0]] + events[1..] == past + events;
    }
  }

  /** In every run each row, waiting, in flight or persisted, is what its call asked for, and no call has two. */
  lemma {:induction false} RowsAreAsAsked(stream: Stream, events: seq<Event>)
    ensures AsAsked(Exec(Start(stream), events), Asked(events))
  {
    RunIsAsAsked(Start(stream), [], events);
    assert [] + events == events;
  }

  /** Nothing fails and the agent does not restart. */
  predicate Smooth(e: Event) {
    !e.LoadFails? && !e.InsertFails? && !e.Crash?
  }

  /** Every call is accounted for, and the counter is the number of rows. */
  ghost predicate Accounted(s: State) {
    && s.init != Rejected
    && (forall call <- s.calls :: call in s.waiting || call in s.inFlight || exists row <- s.rows :: row.id == call)
    && (s.init != Ready ==> s.rows == {} && s.inFlight == map[])
    && (s.init.Loaded? ==> s.init.last == 0)
    && (s.init == Ready ==> s.sequence == |s.rows| + |s.inFlight|)
  }

  lemma StepIsAccounted(s: State, asked: map<nat, Stream>, e: Event)
    requires Accounted(s) && AsAsked(s, asked) && Smooth(e)
    ensures Accounted(Step(s, e))
  {
    match e
    case Resume(call) => ResumeIsAccounted(s, call);
    case Commit(call) => CommitIsAccounted(s, call);
    case Load => LastOfNone(s.rows);
    case _ =>
  }

  lemma LastOfNone(rows: set<Row>)
    ensures rows == {} ==> Last(rows) == 0
  {
  }

  lemma ResumeIsAccounted(s: State, call: nat)
    requires Accounted(s) && OneRowEach(s)
    ensures Accounted(Step(s, Resume(call)))
  {
    if s.init == Ready && call in s.waiting {
      var s' := Step(s, Resume(call));
      assert s'.inFlight.Keys == s.inFlight.Keys + {call};
      assert |s'.inFlight| == |s'.inFlight.Keys| && |s.inFlight| == |s.inFlight.Keys|;
    }
  }

  lemma CommitIsAccounted(s: State, call: nat)
    requires Accounted(s) && OneRowEach(s) && forall c <- s.inFlight :: s.inFlight[c].id == c
    ensures Accounted(Step(s, Commit(call)))
  {
    if call in s.inFlight {
      var s', row := Step(s, Commit(call)), s.inFlight[call];
      assert row !in s.rows && row in s'.rows;
      assert s'.inFlight.Keys == s.inFlight.Keys - {call};
      assert |s'.inFlight| == |s'.inFlight.Keys| && |s.inFlight| == |s.inFlight.Keys|;
    }
  }

  lemma {:induction false} RunIsAccounted(s: State, past: seq<Event>, events: seq<Event>)
    requires Accounted(s) && AsAsked(s, Asked(past)) && forall k | 0 <= k < |events| :: Smooth(events[k])
    ensures Accounted(Exec(s, events))
    decreases |events|
  {
    if events != [] {
      StepIsAccounted(s, Asked(past), events[0]);
      StepIsAsAsked(s, Asked(past), events[0]);
      assert (past + [events[0]])[..|past|] == past;
      RunIsAccounted(Step(s, events[0]), past + [events[0]], events[1..]);
    }
  }

  /** While nothing fails and the agent keeps running no call is lost, and the counter counts the rows. */
  lemma NothingFailsNothingMissing(stream: Stream, events: seq<Event>)
    requires forall k | 0 <= k < |events| :: Smooth(events[k])
    ensures Accounted(Exec(Start(stream), events))
  {
    RunIsAccounted(Start(stream), [], events);
  }

  /** The call has been made, and its row is not waiting, not in flight and not persisted. */
  ghost predicate Gone(s: State, call: nat) {
    call in s.calls && call !in s.waiting && call !in s.inFlight && forall row <- s.rows :: row.id != call
  }

  /** Its insert fails, the first select fails while it waits, or the agent restarts before the commit. */
  ghost predicate LosesCall(s: State, e: Event, call: nat) {
    || (e == InsertFails(call) && call in s.inFlight)
    || (e == LoadFails && s.init == Requested && call in s.waiting)
    || e == Crash
  }

  /** Exactly so a call under way loses its row. */
  lemma CallIsLostExactly(s: State, asked: map<nat, Stream>, e: Event, call: nat)
    requires AsAsked(s, asked) && (call in s.waiting || call in s.inFlight)
    ensures Gone(Step(s, e), call) <==> LosesCall(s, e, call)
  {
    if e == Commit(call) && call in s.inFlight {
      assert s.inFlight[call] in Step(s, e).rows;
    }
  }

  /** And then for good: nothing is tried twice. */
  lemma {:induction false} GoneForGood(s: State, past: seq<Event>, events: seq<Event>, call: nat)
    requires AsAsked(s, Asked(past)) && Gone(s, call)
    ensures Gone(Exec(s, events), call)
    decreases |events|
  {
    if events != [] {
      StepIsAsAsked(s, Asked(past), events[0]);
      assert (past + [events[0]])[..|past|] == past;
      GoneForGood(Step(s, events[0]), past + [events[0]], events[1..], call);
    }
  }

  /** What is persisted stays. */
  lemma {:induction false} RowsStay(s: State, events: seq<Event>)
    ensures s.rows <= Exec(s, events).rows
    decreases |events|
  {
    if events != [] { RowsStay(Step(s, events[0]), events[1..]); }
  }

  /** When the first select fails, nothing is written any more until the agent restarts. */
  lemma {:induction false} RejectionIsKept(s: State, events: seq<Event>)
    requires s.init == Rejected && Covers(s) && Crash !in events
    ensures Exec(s, events).init == Rejected && Exec(s, events).rows == s.rows
    decreases |events|
  {
    if events != [] {
      StepKeepsCovers(s, events[0]);
      RejectionIsKept(Step(s, events[0]), events[1..]);
    }
  }

  /** It does happen, and then every line is lost. */
  lemma FirstSelectFails(call: nat, later: seq<Event>) returns (s: State)
    requires Crash !in later
    ensures Reachable(s) && call in s.calls && Exec(s, later).rows == {}
  {
    assert Exec(Start(Build), []) == Start(Build);
    var asked := Next(Start(Build), Write(call, Build));
    s := Next(asked, LoadFails);
    RejectionIsKept(s, later);
  }

  // ------------------------------------------------------------------
  // What a cursor reader misses
  // ------------------------------------------------------------------

  /** Rows of the stream behind the cursor that were never sent. */
  ghost function Lost(s: State): (lost: set<Row>) {
    set row | row in s.rows && row.stream == s.reader.stream && row.sequence <= s.reader.cursor
        && row !in s.reader.received
  }

  /** A commit is late when the reader has already moved past its number. */
  ghost predicate LateCommit(s: State, e: Event) {
    && e.Commit? && e.call in s.inFlight
    && s.inFlight[e.call].stream == s.reader.stream && s.inFlight[e.call].sequence <= s.reader.cursor
  }

  ghost predicate NoLateCommit(s: State, events: seq<Event>)
    decreases |events|
  {
    events == [] || (!LateCommit(s, events[0]) && NoLateCommit(Step(s, events[0]), events[1..]))
  }

  lemma LostByCommit(s: State, call: nat)
    requires Invariant(s)
    ensures Lost(Step(s, Commit(call))) == Lost(s) + if LateCommit(s, Commit(call)) then {s.inFlight[call]} else {}
  {
  }

  lemma LostByPoll(s: State, batch: seq<Row>)
    requires Invariant(s)
    ensures Lost(Step(s, Poll(batch))) == Lost(s)
  {
    if IsSelected(s.rows, s.reader.stream, s.reader.cursor, batch) {
      forall row | row in batch
        ensures row.sequence <= Step(s, Poll(batch)).reader.cursor
      {
      }
    }
  }

  lemma LostStep(s: State, e: Event)
    requires Invariant(s)
    ensures Lost(Step(s, e)) == Lost(s) + if LateCommit(s, e) then {s.inFlight[e.call]} else {}
  {
    match e
    case Commit(call) => LostByCommit(s, call);
    case Poll(batch) => LostByPoll(s, batch);
    case _ => assert Step(s, e).rows == s.rows && Step(s, e).reader == s.reader;
  }

  /** Once lost, always lost. */
  lemma {:induction false} LostForGood(s: State, events: seq<Event>, row: Row)
    requires Invariant(s) && row in Lost(s)
    ensures row in Lost(Exec(s, events))
    decreases |events|
  {
    if events != [] {
      LostStep(s, events[0]);
      RunKeepsInvariant(s, [events[0]]);
      assert Exec(s, [events[0]]) == Step(s, events[0]);
      LostForGood(Step(s, events[0]), events[1..], row);
    }
  }

  /** The reader misses nothing up to its cursor if and only if no commit of the run came late. */
  lemma {:induction false} NothingLostExactly(s: State, events: seq<Event>)
    requires Invariant(s)
    ensures Lost(Exec(s, events)) == {} <==> Lost(s) == {} && NoLateCommit(s, events)
    decreases |events|
  {
    if events != [] {
      var next := Step(s, events[0]);
      LostStep(s, events[0]);
      RunKeepsInvariant(s, [events[0]]);
      assert Exec(s, [events[0]]) == next;
      NothingLostExactly(next, events[1..]);
      if Lost(next) != {} {
        var row :| row in Lost(next);
        LostForGood(next, events[1..], row);
      }
    }
  }

  // ------------------------------------------------------------------
  // One write at a time
  // ------------------------------------------------------------------

  ghost predicate AtMostOneInFlight(s: State) {
    forall c, d | c in s.inFlight && d in s.inFlight :: c == d
  }

  /** At every moment of the run at most one insert is under way. */
  ghost predicate Serial(s: State, events: seq<Event>)
    decreases |events|
  {
    AtMostOneInFlight(s) && (events == [] || Serial(Step(s, events[0]), events[1..]))
  }

  /** The cursor is the number of a persisted row, and what is in flight comes after it and after all of them. */
  ghost predicate InFlightIsLast(s: State) {
    && (s.reader.cursor == 0 || exists row <- s.rows :: row.sequence == s.reader.cursor)
    && (forall c <- s.inFlight :: s.reader.cursor < s.inFlight[c].sequence)
    && (forall c, row | c in s.inFlight && row in s.rows :: row.sequence < s.inFlight[c].sequence)
  }

  lemma CommitKeepsLast(s: State, call: nat)
    requires InFlightIsLast(s) && AtMostOneInFlight(s)
    ensures InFlightIsLast(Step(s, Commit(call)))
  {
    var s' := Step(s, Commit(call));
    if call in s.inFlight {
      assert s'.inFlight == map[];
      assert forall row <- s.rows :: row in s'.rows;
    }
  }

  lemma ResumeKeepsLast(s: State, call: nat)
    requires InFlightIsLast(s) && Covers(s) && AtMostOneInFlight(Step(s, Resume(call)))
    ensures InFlightIsLast(Step(s, Resume(call)))
  {
  }

  lemma PollKeepsLast(s: State, batch: seq<Row>)
    requires InFlightIsLast(s)
    ensures InFlightIsLast(Step(s, Poll(batch)))
  {
    if IsSelected(s.rows, s.reader.stream, s.reader.cursor, batch) && batch != [] {
      assert batch[|batch| - 1] in batch;
    }
  }

  lemma StepKeepsLast(s: State, e: Event)
    requires InFlightIsLast(s) && Covers(s) && AtMostOneInFlight(s) && AtMostOneInFlight(Step(s, e))
    ensures InFlightIsLast(Step(s, e))
  {
    match e
    case Commit(call) => CommitKeepsLast(s, call);
    case Resume(call) => ResumeKeepsLast(s, call);
    case Poll(batch) => PollKeepsLast(s, batch);
    case _ =>
  }

  lemma {:induction false} SerialIsNeverLate(s: State, events: seq<Event>)
    requires Covers(s) && InFlightIsLast(s) && Serial(s, events)
    ensures NoLateCommit(s, events)
    decreases |events|
  {
    if events != [] {
      StepKeepsCovers(s, events[0]);
      StepKeepsLast(s, events[0]);
      SerialIsNeverLate(Step(s, events[0]), events[1..]);
    }
  }

  /** A caller that awaits every write before the next one makes sure that no reader misses a row. */
  lemma SerialLosesNothing(stream: Stream, events: seq<Event>)
    requires Serial(Start(stream), events)
    ensures Lost(Exec(Start(stream), events)) == {}
  {
    SerialIsNeverLate(Start(stream), events);
    NothingLostExactly(Start(stream), events);
  }

  /** The row of the selection with the highest number. */
  lemma TopRow(matching: set<Row>) returns (top: Row)
    requires matching != {}
    ensures top in matching && forall row <- matching :: row.sequence <= top.sequence
  {
    var last := Last(matching);
    var some :| some in matching;
    top := some;
    if some.sequence != last {
      top :| top in matching && top.sequence == last;
    }
  }

  lemma SelectTop(rows: set<Row>, stream: Stream, after: nat, top: Row, rest: seq<Row>)
    requires top in rows && top.stream == stream && top.sequence > after
    requires forall row <- rows | row != top && row.stream == stream && row.sequence > after ::
             row.sequence < top.sequence
    requires IsSelected(rows - {top}, stream, after, rest)
    ensures IsSelected(rows, stream, after, rest + [top])
  {
    forall i | 0 <= i < |rest|
      ensures rest[i].sequence < top.sequence
    {
      assert rest[i] in rest;
    }
  }

  /** The query of a poll always has an answer. */
  lemma SelectionExists(rows: set<Row>, stream: Stream, after: nat) returns (batch: seq<Row>)
    requires forall a, b | a in rows && b in rows && a.sequence == b.sequence :: a == b
    ensures IsSelected(rows, stream, after, batch)
    decreases |rows|
  {
    var matching := set row | row in rows && row.stream == stream && row.sequence > after;
    assert forall row <- rows :: row in matching <==> row.stream == stream && row.sequence > after;
    batch := [];
    if matching != {} {
      var top := TopRow(matching);
      var rest := SelectionExists(rows - {top}, stream, after);
      SelectTop(rows, stream, after, top, rest);
      batch := rest + [top];
    }
  }

  /** A poll of a reader that has lost nothing leaves it with exactly the persisted rows of its stream. */
  lemma PollCatchesUp(s: State, batch: seq<Row>)
    requires Invariant(s) && Lost(s) == {}
    requires IsSelected(s.rows, s.reader.stream, s.reader.cursor, batch)
    ensures forall row ::
              row in Step(s, Poll(batch)).reader.received <==> row in s.rows && row.stream == s.reader.stream
  {
    forall row | row in s.rows && row.stream == s.reader.stream
      ensures row in s.reader.received + batch
    {
      assert row !in Lost(s);
    }
  }

  ghost predicate Reachable(s: State) {
    exists stream, events :: s == Exec(Start(stream), events)
  }

  lemma {:induction false} ExecConcat(s: State, a: seq<Event>, b: seq<Event>)
    ensures Exec(s, a + b) == Exec(Exec(s, a), b)
    decreases |a|
  {
    if a == [] {
      assert a + b == b;
    } else {
      assert (a + b)[1..] == a[1..] + b;
      ExecConcat(Step(s, a[0]), a[1..], b);
    }
  }

  lemma Next(s: State, e: Event) returns (s': State)
    requires Reachable(s)
    ensures Reachable(s') && s' == Step(s, e)
  {
    s' := Step(s, e);
    var stream, past :| s == Exec(Start(stream), past);
    ExecConcat(Start(stream), past, [e]);
    assert Exec(s, [e]) == s';
  }

  /** Two concurrent writes share one initialisation. */
  lemma TwoWaiting() returns (s: State)
    ensures Reachable(s) && s.rows == {} && s.reader == Reader(Build, 0, []) && s.inFlight == map[]
    ensures s.waiting == map[1 := Build, 2 := Build] && s.init == Ready && s.sequence == 0
  {
    assert Exec(Start(Build), []) == Start(Build);
    var a := Next(Start(Build), Write(1, Build));
    var b := Next(a, Write(2, Build));
    var c := Next(b, Load);
    s := Next(c, Resolve);
  }

  /** Two inserts are under way, numbered 1 and 2. */
  lemma TwoInFlight() returns (s: State)
    ensures Reachable(s) && s.rows == {} && s.reader == Reader(Build, 0, [])
    ensures s.inFlight == map[1 := Row(1, Build, 1), 2 := Row(2, Build, 2)]
  {
    var a := TwoWaiting();
    var b := Next(a, Resume(1));
    s := Next(b, Resume(2));
  }

  /** Commits out of order do make a reader miss a row: the second row is committed and polled first. */
  lemma OvertakenRowIsLost() returns (s: State)
    ensures Reachable(s) && Lost(s) == {Row(1, Build, 1)}
  {
    var both := TwoInFlight();
    var second := Next(both, Commit(2));
    var polled := Next(second, Poll([Row(2, Build, 2)]));
    s := Next(polled, Commit(1));
  }
}
