/** Every interleaving of emitting threads, the worker and a closing thread. */
module HandlerRuns {
  import opened Prelude
  import opened Records
  import opened Crypto
  import opened Verify
  import opened Log
  import opened LogTheorems
  import opened Handler

  datatype Worker =
    | Waiting
    | Writing(e: Entry)   // has taken an entry from the queue
    | Acking              // has attempted it, `task_done` still to come
    | Stopping            // has taken the sentinel
    | Exited

  datatype Closer = Open | Flushing | Flushed | Joining | Closed

  /**
   `unfinished` is the queue's count of tasks not yet done. `history` (all that was ever queued),
   `attempted` and `written` (the entries whose append succeeded) are history variables.
   */
  datatype System = System(
    queue: seq<Item>,
    unfinished: int,
    worker: Worker,
    closer: Closer,
    passed: multiset<Entry>,   // entries of threads that found the handler open, not yet queued
    log: State,
    errorCount: nat,
    history: seq<Item>,
    attempted: seq<Entry>,
    written: seq<Entry>)

  datatype Action =
    | Check(e: Entry)           // emit: the handler is not closed
    | Put(e: Entry)             // emit: into the queue
    | Take                      // worker: the next item
    | Attempt(luck: Luck)       // worker: `_write`
    | TaskDone                  // worker
    | Close                     // close: not closed yet
    | FlushReturns              // close: the queue's count is down to zero
    | PutStop                   // close
    | Join                      // close: the worker is gone

  predicate Enabled(s: System, a: Action) {
    match a
    case Check(_) => s.closer != Closed
    case Put(e) => e in s.passed
    case Take => s.worker.Waiting? && s.queue != []
    case Attempt(_) => s.worker.Writing?
    case TaskDone => s.worker.Acking? || s.worker.Stopping?
    case Close => s.closer == Open
    case FlushReturns => s.closer == Flushing && s.unfinished == 0
    case PutStop => s.closer == Flushed
    case Join => s.closer == Joining && s.worker.Exited?
  }

  function Queued(s: System, item: Item): System {
    s.(queue := s.queue + [item], unfinished := s.unfinished + 1, history := s.history + [item])
  }

  function Next(c: Suite, s: System, a: Action): System
    requires Enabled(s, a)
  {
    match a
    case Check(e) => s.(passed := s.passed + multiset{e})
    case Put(e) => Queued(s, Job(e)).(passed := s.passed - multiset{e})
    case Take =>
      var worker := match s.queue[0] case Job(e) => Writing(e) case Stop => Stopping;
      s.(queue := s.queue[1..], worker := worker)
    case Attempt(luck) =>
      var e := s.worker.e;
      var (log, result) := AppendOutcome(c, s.log, e, luck.now, luck.world);
      s.(worker := Acking, log := log, attempted := s.attempted + [e],
         written := if result.Ok? then s.written + [e] else s.written,
         errorCount := if result.Ok? then s.errorCount else s.errorCount + 1)
    case TaskDone =>
      s.(worker := if s.worker.Stopping? then Exited else Waiting, unfinished := s.unfinished - 1)
    case Close => s.(closer := Flushing)
    case FlushReturns => s.(closer := Flushed)
    case PutStop => Queued(s, Stop).(closer := Joining)
    case Join => s.(closer := Closed)
  }

  // ------------------------------------------------------------ invariant

  /** What the worker has taken and not attempted. */
  function InHand(w: Worker): seq<Item> {
    match w
    case Writing(e) => [Job(e)]
    case Stopping => [Stop]
    case Exited => [Stop]
    case _ => []
  }

  /** Attempted, in hand, and queued together are all that was ever queued, in order. */
  predicate Conserved(s: System) {
    && s.history == Jobs(s.attempted) + InHand(s.worker) + s.queue
    && s.unfinished == |s.queue| + if s.worker.Waiting? || s.worker.Exited? then 0 else 1
  }

  /** The one sentinel, if the closer has put it. */
  predicate OneSentinel(s: System) {
    && (s.closer == Joining || s.closer == Closed <==> Stop in s.history)
    && (forall i, j :: 0 <= i < |s.history| && 0 <= j < |s.history| && s.history[i] == Stop && s.history[j] == Stop ==> i == j)
    && (s.closer == Closed ==> s.worker.Exited?)
  }

  /** Since the store held `base` records, exactly the written entries have been added, in order,
      and every other attempt has been counted as an error. */
  predicate Recorded(s: System, base: nat) {
    && |s.log.store| == base + |s.written|
    && (forall i :: 0 <= i < |s.written| ==> Carries(s.log.store[base + i], s.written[i]))
    && |s.attempted| == |s.written| + s.errorCount
  }

  lemma JobsAppend(es: seq<Entry>, e: Entry)
    ensures Jobs(es + [e]) == Jobs(es) + [Job(e)]
  {
  }

  lemma SentinelInHand(s: System)
    requires Conserved(s)
    ensures InHand(s.worker) == [Stop] ==> |s.attempted| < |s.history| && s.history[|s.attempted|] == Stop
  {
  }

  lemma NoSentinelBehindOne(s: System)
    requires Conserved(s) && OneSentinel(s) && InHand(s.worker) == [Stop]
    ensures Stop !in s.queue
  {
    var n := |s.attempted|;
    forall i | 0 <= i < |s.queue|
      ensures s.queue[i] != Stop
    {
      assert s.history[n] == Stop && s.history[n + 1 + i] == s.queue[i];
    }
  }

  lemma StepKeepsConserved(c: Suite, s: System, a: Action)
    requires Conserved(s) && Enabled(s, a)
    ensures Conserved(Next(c, s, a))
  {
    match a
    case Put(e) => assert s.history + [Job(e)] == Jobs(s.attempted) + InHand(s.worker) + (s.queue + [Job(e)]);
    case PutStop => assert s.history + [Stop] == Jobs(s.attempted) + InHand(s.worker) + (s.queue + [Stop]);
    case Take => assert s.queue == [s.queue[0]] + s.queue[1..];
    case Attempt(luck) => JobsAppend(s.attempted, s.worker.e);
    case _ =>
  }

  lemma StepKeepsOneSentinel(c: Suite, s: System, a: Action)
    requires OneSentinel(s) && Enabled(s, a)
    ensures OneSentinel(Next(c, s, a))
  {
    var s' := Next(c, s, a);
    if a.Put? || a.PutStop? {
      assert s'.history[..|s.history|] == s.history;
      assert Stop in s'.history <==> Stop in s.history || s'.history[|s.history|] == Stop;
    }
  }

  lemma AppendedRecordCarries(c: Suite, st: State, e: Entry, luck: Luck)
    ensures var (st', result) := AppendOutcome(c, st, e, luck.now, luck.world);
            if result.Ok? then st'.store == st.store + [result.value] && Carries(result.value, e)
            else st'.store == st.store
  {
  }

  lemma StepKeepsRecorded(c: Suite, s: System, a: Action, base: nat)
    requires Recorded(s, base) && Enabled(s, a)
    ensures Recorded(Next(c, s, a), base)
  {
    if a.Attempt? {
      AppendedRecordCarries(c, s.log, s.worker.e, a.luck);
    }
  }

  lemma StepKeepsConsistent(c: Suite, s: System, a: Action, authors: seq<Identity>) returns (authors': seq<Identity>)
    requires Consistent(c, s.log, authors) && Enabled(s, a)
    ensures Consistent(c, Next(c, s, a).log, authors')
  {
    authors' := authors;
    if a.Attempt? {
      authors' := AppendKeepsConsistent(c, s.log, authors, s.worker.e, a.luck.now, a.luck.world);
    }
  }

  // ------------------------------------------------------------- all runs

  predicate Runs(c: Suite, s: System, actions: seq<Action>)
    decreases |actions|
  {
    actions == [] || (Enabled(s, actions[0]) && Runs(c, Next(c, s, actions[0]), actions[1..]))
  }

  function After(c: Suite, s: System, actions: seq<Action>): System
    requires Runs(c, s, actions)
    decreases |actions|
  {
    if actions == [] then s else After(c, Next(c, s, actions[0]), actions[1..])
  }

  /** A handler whose worker has just started on a log. */
  function Started(log: State): System {
    System([], 0, Waiting, Open, multiset{}, log, 0, [], [], [])
  }

  lemma {:induction false} RunKeepsInvariant(c: Suite, s: System, actions: seq<Action>, authors: seq<Identity>, base: nat)
    returns (authors': seq<Identity>)
    requires Runs(c, s, actions)
    requires Conserved(s) && OneSentinel(s) && Recorded(s, base) && Consistent(c, s.log, authors)
    ensures var s' := After(c, s, actions);
            Conserved(s') && OneSentinel(s') && Recorded(s', base) && Consistent(c, s'.log, authors')
    decreases |actions|
  {
    authors' := authors;
    if actions != [] {
      var a := actions[0];
      StepKeepsConserved(c, s, a);
      StepKeepsOneSentinel(c, s, a);
      StepKeepsRecorded(c, s, a, base);
      var mid := StepKeepsConsistent(c, s, a, authors);
      authors' := RunKeepsInvariant(c, Next(c, s, a), actions[1..], mid, base);
    }
  }

  /**
   Conservation: in every interleaving what was attempted, is in hand and is queued is what was
   queued, in order; the successes are the records added to the log, in order; every failure is
   counted once; and the log verifies throughout.
   */
  lemma NothingIsLostOrReordered(c: Suite, log: State, authors: seq<Identity>, actions: seq<Action>)
    requires HonestSignatures(c) && Consistent(c, log, authors) && Runs(c, Started(log), actions)
    ensures var s := After(c, Started(log), actions);
            && s.history == Jobs(s.attempted) + InHand(s.worker) + s.queue
            && |s.log.store| == |log.store| + |s.written|
            && (forall i :: 0 <= i < |s.written| ==> Carries(s.log.store[|log.store| + i], s.written[i]))
            && |s.attempted| == |s.written| + s.errorCount
            && Accepted(VerifyLog(c, s.log, Some(|s.log.store|), None, map[]))
  {
    var authors' := RunKeepsInvariant(c, Started(log), actions, authors, |log.store|);
    ConsistentLogVerifies(c, After(c, Started(log), actions).log, authors');
  }

  /** When `flush` returns, everything queued so far has been attempted. */
  lemma FlushMeansAllAttempted(c: Suite, log: State, authors: seq<Identity>, actions: seq<Action>)
    requires Consistent(c, log, authors) && Runs(c, Started(log), actions)
    requires After(c, Started(log), actions).unfinished == 0 && Stop !in After(c, Started(log), actions).history
    ensures var s := After(c, Started(log), actions);
            s.history == Jobs(s.attempted) && s.queue == []
  {
    var authors' := RunKeepsInvariant(c, Started(log), actions, authors, |log.store|);
    var s := After(c, Started(log), actions);
    SentinelInHand(s);
  }

  /** That is when, and only when, `close` goes on from it. */
  lemma FlushReturnsIff(c: Suite, log: State, authors: seq<Identity>, actions: seq<Action>)
    requires Consistent(c, log, authors) && Runs(c, Started(log), actions)
    requires After(c, Started(log), actions).closer == Flushing
    ensures var s := After(c, Started(log), actions);
            Enabled(s, FlushReturns) <==> s.worker.Waiting? && s.queue == [] && s.history == Jobs(s.attempted)
  {
    var authors' := RunKeepsInvariant(c, Started(log), actions, authors, |log.store|);
    var s := After(c, Started(log), actions);
    SentinelInHand(s);
  }

  /** Once `close` has returned, exactly what was queued before the sentinel has been attempted,
      each entry once; what slipped in behind it stays unattempted for ever. */
  lemma ClosedMeansAttemptedUpToSentinel(c: Suite, log: State, authors: seq<Identity>, actions: seq<Action>)
    requires Consistent(c, log, authors) && Runs(c, Started(log), actions)
    requires After(c, Started(log), actions).closer == Closed
    ensures var s := After(c, Started(log), actions);
            var n := |s.attempted|;
            && n < |s.history| && s.history[n] == Stop
            && s.history[..n] == Jobs(s.attempted)
            && s.history[n + 1..] == s.queue
            && Stop !in s.queue
  {
    var authors' := RunKeepsInvariant(c, Started(log), actions, authors, |log.store|);
    var s := After(c, Started(log), actions);
    SentinelInHand(s);
    NoSentinelBehindOne(s);
  }

  lemma BeginsWith(c: Suite, s: System, a: Action, s': System, rest: seq<Action>, end: System)
    requires Enabled(s, a) && Next(c, s, a) == s' && Runs(c, s', rest) && After(c, s', rest) == end
    ensures Runs(c, s, [a] + rest) && After(c, s, [a] + rest) == end
  {
    assert ([a] + rest)[1..] == rest;
  }

  /** The sentinel has just been put, and a thread that found the handler open has not. */
  function LateEntry(log: State, e: Entry): System {
    System([Stop], 1, Waiting, Joining, multiset{e}, log, 0, [Stop], [], [])
  }

  lemma LateEntryIsLost(c: Suite, log: State, e: Entry)
    ensures var run := [Put(e), Take, TaskDone, Join];
            Runs(c, LateEntry(log, e), run)
            && After(c, LateEntry(log, e), run)
               == System([Job(e)], 1, Exited, Closed, multiset{}, log, 0, [Stop, Job(e)], [], [])
  {
    var s4 := LateEntry(log, e);
    var s5 := s4.(passed := multiset{}, queue := [Stop, Job(e)], history := [Stop, Job(e)], unfinished := 2);
    var s6 := s5.(queue := [Job(e)], worker := Stopping);
    var s7 := s6.(worker := Exited, unfinished := 1);
    var s8 := s7.(closer := Closed);
    BeginsWith(c, s7, Join, s8, [], s8);
    BeginsWith(c, s6, TaskDone, s7, [Join], s8);
    BeginsWith(c, s5, Take, s6, [TaskDone, Join], s8);
    BeginsWith(c, s4, Put(e), s5, [Take, TaskDone, Join], s8);
  }

  /** The failing input: a thread finds the handler open, and queues its entry when `close` has
      already put the sentinel. */
  lemma EntryBehindSentinelIsLost(c: Suite, log: State, e: Entry)
    ensures var run := [Check(e), Close, FlushReturns, PutStop, Put(e), Take, TaskDone, Join];
            Runs(c, Started(log), run)
            && After(c, Started(log), run)
               == System([Job(e)], 1, Exited, Closed, multiset{}, log, 0, [Stop, Job(e)], [], [])
  {
    var end := System([Job(e)], 1, Exited, Closed, multiset{}, log, 0, [Stop, Job(e)], [], []);
    var s0, s4 := Started(log), LateEntry(log, e);
    var s1 := s0.(passed := multiset{e});
    LateEntryIsLost(c, log, e);
    BeginsWith(c, s1.(closer := Flushed), PutStop, s4, [Put(e), Take, TaskDone, Join], end);
    BeginsWith(c, s1.(closer := Flushing), FlushReturns, s1.(closer := Flushed), [PutStop, Put(e), Take, TaskDone, Join], end);
    BeginsWith(c, s1, Close, s1.(closer := Flushing), [FlushReturns, PutStop, Put(e), Take, TaskDone, Join], end);
    BeginsWith(c, s0, Check(e), s1, [Close, FlushReturns, PutStop, Put(e), Take, TaskDone, Join], end);
  }

  /** A closed handler lets nobody in: what is queued from then on had found it open before. */
  lemma {:induction false} ClosedLetsNobodyIn(c: Suite, s: System, actions: seq<Action>)
    requires s.closer == Closed && Runs(c, s, actions)
    ensures var s' := After(c, s, actions);
            && s'.closer == Closed && s'.passed <= s.passed
            && |s'.history| == |s.history| + |s.passed| - |s'.passed|
    decreases |actions|
  {
    if actions != [] {
      var s1 := Next(c, s, actions[0]);
      assert actions[0].Put? ==> |s.passed| == |s1.passed| + 1;
      ClosedLetsNobodyIn(c, s1, actions[1..]);
    }
  }

  // ------------------------------------------------------ an undisturbed close

  lemma {:induction false} RunsOn(c: Suite, s: System, before: seq<Action>, after: seq<Action>)
    requires Runs(c, s, before) && Runs(c, After(c, s, before), after)
    ensures Runs(c, s, before + after) && After(c, s, before + after) == After(c, After(c, s, before), after)
    decreases |before|
  {
    if before == [] {
      assert before + after == after;
    } else {
      assert (before + after)[0] == before[0] && (before + after)[1..] == before[1..] + after;
      RunsOn(c, Next(c, s, before[0]), before[1..], after);
    }
  }

  /** From `s` to `s'` the worker has written the entries and is waiting again; `left` is queued. */
  predicate HasWritten(s: System, s': System, es: seq<Entry>, outcome: (State, nat), left: seq<Item>) {
    && s'.worker.Waiting? && s'.queue == left && s'.unfinished == s.unfinished - |es|
    && s'.closer == s.closer && s'.passed == s.passed && s'.attempted == s.attempted + es
    && s'.log == outcome.0 && s'.errorCount == s.errorCount + outcome.1
  }

  /** The worker takes, attempts and acknowledges the first entry. */
  lemma WorkerWritesFirst(c: Suite, s: System, luck: Luck)
    requires s.worker.Waiting? && s.queue != [] && s.queue[0].Job?
    ensures var run, e := [Take, Attempt(luck), TaskDone], s.queue[0].e;
            Runs(c, s, run) && HasWritten(s, After(c, s, run), [e], WriteOne(c, s.log, e, luck), s.queue[1..])
  {
    var s1 := Next(c, s, Take);
    var s2 := Next(c, s1, Attempt(luck));
    var s3 := Next(c, s2, TaskDone);
    BeginsWith(c, s2, TaskDone, s3, [], s3);
    BeginsWith(c, s1, Attempt(luck), s2, [TaskDone], s3);
    BeginsWith(c, s, Take, s1, [Attempt(luck), TaskDone], s3);
  }

  lemma FirstThenRest(s: System, mid: System, end: System, e: Entry, es: seq<Entry>,
                      one: (State, nat), rest: (State, nat), left: seq<Item>)
    requires HasWritten(s, mid, [e], one, left) && HasWritten(mid, end, es, rest, [])
    ensures HasWritten(s, end, [e] + es, (rest.0, one.1 + rest.1), [])
  {
    assert s.attempted + [e] + es == s.attempted + ([e] + es);
  }

  /** Left to itself the worker writes everything queued, as its loop does. */
  lemma {:induction false} WorkerDrains(c: Suite, s: System, luck: seq<Luck>) returns (run: seq<Action>)
    requires s.worker.Waiting? && Stop !in s.queue && |luck| == |s.queue|
    ensures Runs(c, s, run)
    ensures HasWritten(s, After(c, s, run), BeforeStop(s.queue), WriteAll(c, s.log, BeforeStop(s.queue), luck), [])
    decreases |luck|
  {
    run := [];
    if s.queue != [] {
      assert s.queue[0] != Stop;
      WorkerWritesFirst(c, s, luck[0]);
      var first := [Take, Attempt(luck[0]), TaskDone];
      var mid := After(c, s, first);
      var rest := WorkerDrains(c, mid, luck[1..]);
      RunsOn(c, s, first, rest);
      run := first + rest;
      var e, es := s.queue[0].e, BeforeStop(s.queue[1..]);
      FirstThenRest(s, mid, After(c, mid, rest), e, es, WriteOne(c, s.log, e, luck[0]),
                    WriteAll(c, mid.log, es, luck[1..]), s.queue[1..]);
      WriteAllCons(c, s.log, e, es, luck);
      assert BeforeStop(s.queue) == [e] + es;
    }
  }

  lemma SentinelEndsIt(c: Suite, s: System)
    requires s.worker.Waiting? && s.queue == [] && s.unfinished == 0 && s.closer == Flushing
    ensures var run := [FlushReturns, PutStop, Take, TaskDone, Join];
            && Runs(c, s, run)
            && After(c, s, run) == s.(closer := Closed, worker := Exited, history := s.history + [Stop])
  {
    var s1 := s.(closer := Flushed);
    var s2 := s.(closer := Joining, queue := [Stop], unfinished := 1, history := s.history + [Stop]);
    var s3 := s2.(queue := [], worker := Stopping);
    var s4 := s3.(worker := Exited, unfinished := 0);
    var s5 := s4.(closer := Closed);
    BeginsWith(c, s4, Join, s5, [], s5);
    BeginsWith(c, s3, TaskDone, s4, [Join], s5);
    BeginsWith(c, s2, Take, s3, [TaskDone, Join], s5);
    BeginsWith(c, s1, PutStop, s2, [Take, TaskDone, Join], s5);
    BeginsWith(c, s, FlushReturns, s1, [PutStop, Take, TaskDone, Join], s5);
  }

  /** A queue without a sentinel is all entries. */
  lemma NoStopAllJobs(items: seq<Item>)
    requires Stop !in items
    ensures |BeforeStop(items)| == |items|
  {
    StopSplitsQueue(items);
    NothingBehindNoStop(items);
  }

  /** The steps of `close` around the worker's own. */
  lemma ClosesAround(c: Suite, s: System, drain: seq<Action>) returns (run: seq<Action>)
    requires s.closer == Open && Runs(c, s.(closer := Flushing), drain)
    requires var s2 := After(c, s.(closer := Flushing), drain);
             s2.worker.Waiting? && s2.queue == [] && s2.unfinished == 0 && s2.closer == Flushing
    ensures Runs(c, s, run)
    ensures var s2 := After(c, s.(closer := Flushing), drain);
            After(c, s, run) == s2.(closer := Closed, worker := Exited, history := s2.history + [Stop])
  {
    var s1, tail := s.(closer := Flushing), [FlushReturns, PutStop, Take, TaskDone, Join];
    SentinelEndsIt(c, After(c, s1, drain));
    RunsOn(c, s1, drain, tail);
    BeginsWith(c, s, Close, s1, drain + tail, After(c, s1, drain + tail));
    run := [Close] + (drain + tail);
  }

  /** Undisturbed, `close` comes to its end, with all that was queued attempted, as the handler object's
      own `Close` has it. */
  lemma UndisturbedCloseEnds(c: Suite, s: System, luck: seq<Luck>) returns (run: seq<Action>)
    requires s.worker.Waiting? && s.closer == Open && Stop !in s.queue && s.unfinished == |s.queue| == |luck|
    ensures Runs(c, s, run)
    ensures var s' := After(c, s, run);
            && s'.closer == Closed && s'.worker.Exited? && s'.queue == [] && s'.attempted == s.attempted + BeforeStop(s.queue)
            && (s'.log, s'.errorCount - s.errorCount) == WriteAll(c, s.log, BeforeStop(s.queue), luck)
  {
    var s1 := s.(closer := Flushing);
    NoStopAllJobs(s.queue);
    var drain := WorkerDrains(c, s1, luck);
    run := ClosesAround(c, s, drain);
  }

  /** An exited worker takes nothing more: every later state has the same log. */
  lemma {:induction false} ClosedLogIsFinal(c: Suite, s: System, actions: seq<Action>)
    requires s.worker.Exited? && Runs(c, s, actions)
    ensures After(c, s, actions).log == s.log && After(c, s, actions).attempted == s.attempted
    decreases |actions|
  {
    if actions != [] {
      ClosedLogIsFinal(c, Next(c, s, actions[0]), actions[1..]);
    }
  }
}
