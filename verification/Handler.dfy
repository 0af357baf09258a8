/** The logging handler as an object: entries written at once, or queued for a worker's loop. */
module Handler {
  import opened Prelude
  import opened Crypto
  import opened Log

  /** What travels through the queue. */
  datatype Item = Job(e: Entry) | Stop

  // --------------------------------------------------------- the worker's loop

  /** What the clock reads at a write, and what the world does. */
  datatype Luck = Luck(now: string, world: World)

  /** The log after one attempt, and 1 if that failed. */
  function WriteOne(c: Suite, st: State, e: Entry, luck: Luck): (State, nat) {
    var (st', result) := AppendOutcome(c, st, e, luck.now, luck.world);
    (st', if result.Err? then 1 else 0)
  }

  /** The log and the number of failures after writing the entries in order. */
  function WriteAll(c: Suite, st: State, es: seq<Entry>, luck: seq<Luck>): (State, nat)
    requires |es| <= |luck|
    decreases |es|
  {
    if es == [] then (st, 0)
    else
      var (mid, failed) := WriteOne(c, st, es[0], luck[0]);
      var (st', failures) := WriteAll(c, mid, es[1..], luck[1..]);
      (st', failed + failures)
  }

  /** The entries in front of the first sentinel. */
  function BeforeStop(items: seq<Item>): (es: seq<Entry>)
    ensures |es| <= |items|
  {
    if items == [] || items[0].Stop? then [] else [items[0].e] + BeforeStop(items[1..])
  }

  /** The items behind the first sentinel. */
  function BehindStop(items: seq<Item>): seq<Item> {
    if items == [] then [] else if items[0].Stop? then items[1..] else BehindStop(items[1..])
  }

  /** What the loop leaves when it has taken a sentinel, or else waits at an empty queue. */
  datatype Drained = Drained(st: State, failures: nat, queue: seq<Item>, stopped: bool)

  function Drain(c: Suite, st: State, items: seq<Item>, luck: seq<Luck>): Drained
    requires |luck| == |items|
    decreases |items|
  {
    if items == [] then Drained(st, 0, [], false)
    else if items[0].Stop? then Drained(st, 0, items[1..], true)
    else
      var (mid, failures) := WriteOne(c, st, items[0].e, luck[0]);
      var d := Drain(c, mid, items[1..], luck[1..]);
      d.(failures := d.failures + failures)
  }

  lemma WriteAllCons(c: Suite, st: State, e: Entry, es: seq<Entry>, luck: seq<Luck>)
    requires |es| < |luck|
    ensures var one := WriteOne(c, st, e, luck[0]);
            var rest := WriteAll(c, one.0, es, luck[1..]);
            WriteAll(c, st, [e] + es, luck) == (rest.0, one.1 + rest.1)
  {
    var all := [e] + es;
    assert all[0] == e && all[1..] == es;
    var mid := WriteOne(c, st, e, luck[0]).0;
    assert WriteAll(c, st, all, luck).0 == WriteAll(c, mid, es, luck[1..]).0;
  }

  function Jobs(es: seq<Entry>): (items: seq<Item>)
    ensures |items| == |es| && forall i :: 0 <= i < |es| ==> items[i] == Job(es[i])
  {
    seq(|es|, i requires 0 <= i < |es| => Job(es[i]))
  }

  /** The first sentinel, if there is one, splits the queue into entries and what is behind. */
  lemma {:induction false} StopSplitsQueue(items: seq<Item>)
    ensures items == Jobs(BeforeStop(items)) + (if Stop in items then [Stop] else []) + BehindStop(items)
  {
    if items != [] && items[0].Job? {
      StopSplitsQueue(items[1..]);
      assert Jobs(BeforeStop(items)) == [items[0]] + Jobs(BeforeStop(items[1..]));
      assert items == [items[0]] + items[1..];
    }
  }

  /** The loop stops if and only if there is a sentinel, and leaves exactly what was queued behind it. */
  lemma {:induction false} DrainKeepsWhatIsBehind(c: Suite, st: State, items: seq<Item>, luck: seq<Luck>)
    requires |luck| == |items|
    ensures Drain(c, st, items, luck).queue == BehindStop(items)
    ensures Drain(c, st, items, luck).stopped <==> Stop in items
    decreases |items|
  {
    if items != [] && items[0].Job? {
      DrainKeepsWhatIsBehind(c, WriteOne(c, st, items[0].e, luck[0]).0, items[1..], luck[1..]);
    }
  }

  /** The loop writes exactly the entries in front of the sentinel, in order. */
  lemma {:induction false} DrainWritesBeforeStop(c: Suite, st: State, items: seq<Item>, luck: seq<Luck>)
    requires |luck| == |items|
    ensures (Drain(c, st, items, luck).st, Drain(c, st, items, luck).failures)
            == WriteAll(c, st, BeforeStop(items), luck)
    decreases |items|
  {
    if items != [] && items[0].Job? {
      var one := WriteOne(c, st, items[0].e, luck[0]);
      WriteAllCons(c, st, items[0].e, BeforeStop(items[1..]), luck);
      DrainWritesBeforeStop(c, one.0, items[1..], luck[1..]);
    }
  }

  /** Writing entries adds a record for each but the failures, and takes nothing away. */
  lemma {:induction false} WriteAllCounts(c: Suite, st: State, es: seq<Entry>, luck: seq<Luck>)
    requires |es| <= |luck|
    ensures var (st', failures) := WriteAll(c, st, es, luck);
            && failures <= |es| && |st'.store| == |st.store| + |es| - failures && st.store <= st'.store
            && st'.who == st.who
    decreases |es|
  {
    if es != [] {
      WriteAllCounts(c, WriteOne(c, st, es[0], luck[0]).0, es[1..], luck[1..]);
    }
  }

  // -------------------------------------------------------------- the class

  /** How `emit` ends: queued, attempted at once, reported and dropped, or with a RuntimeError. */
  datatype Emitted = Queued | Attempted | Dropped | Refused

  class AuditLogHandler {
    const log: AuditLog
    const background: bool
    const closeLog: bool
    var queue: seq<Item>
    var closed: bool
    var errorCount: nat
    var logClosed: bool    // `log.close` has been called

    constructor (log: AuditLog, background: bool, closeLog: bool)
      ensures this.log == log && this.background == background && this.closeLog == closeLog
      ensures queue == [] && !closed && errorCount == 0 && !logClosed
    {
      this.log, this.background, this.closeLog := log, background, closeLog;
      queue, closed, errorCount, logClosed := [], false, 0, false;
    }

    /** `_write`: a failure is counted and goes no further. */
    method Write(e: Entry, luck: Luck)
      modifies this`errorCount, log`last, log`inited, log.backend
      ensures (log.Model(), errorCount - old(errorCount)) == WriteOne(log.c, old(log.Model()), e, luck)
    {
      var r := log.Append(e, luck.now, luck.world);
      if r.Err? {
        errorCount := errorCount + 1;
      }
    }

    /** `emit`. The entry is None when resolving it raised; `inLoop` says whether the caller's thread
        runs an event loop. */
    method Emit(e: Option<Entry>, inLoop: bool, luck: Luck) returns (r: Emitted)
      modifies this`queue, this`errorCount, log`last, log`inited, log.backend
      ensures r == if closed || e.None? then Dropped else if background then Queued else if inLoop then Refused else Attempted
      ensures queue == if r == Queued then old(queue) + [Job(e.value)] else old(queue)
      ensures r != Attempted ==> errorCount == old(errorCount) && log.Model() == old(log.Model())
      ensures r == Attempted ==>
                (log.Model(), errorCount - old(errorCount)) == WriteOne(log.c, old(log.Model()), e.value, luck)
    {
      if closed || e.None? {
        return Dropped;
      }
      if background {
        queue := queue + [Job(e.value)];
        return Queued;
      }
      if inLoop {
        return Refused;
      }
      Write(e.value, luck);
      return Attempted;
    }

    /** The worker's loop, until it has taken a sentinel, or (false) it waits at an empty queue. */
    method Work(luck: seq<Luck>) returns (stopped: bool)
      requires |luck| == |queue|
      modifies this`queue, this`errorCount, this`logClosed, log`last, log`inited, log.backend
      ensures errorCount >= old(errorCount)
      ensures Drained(log.Model(), errorCount - old(errorCount), queue, stopped)
              == Drain(log.c, old(log.Model()), old(queue), luck)
      ensures old(queue) == Jobs(BeforeStop(old(queue))) + (if stopped then [Stop] else []) + queue
      ensures logClosed == (old(logClosed) || (stopped && closeLog))
    {
      ghost var whole, errors0 := Drain(log.c, log.Model(), queue, luck), errorCount;
      StopSplitsQueue(queue);
      DrainKeepsWhatIsBehind(log.c, log.Model(), queue, luck);
      var left := luck;
      while queue != []
        invariant |left| == |queue| && errorCount >= errors0 && logClosed == old(logClosed)
        invariant whole == Added(Drain(log.c, log.Model(), queue, left), errorCount - errors0)
        decreases |queue|
      {
        var item := queue[0];
        queue := queue[1..];
        if item.Stop? {
          if closeLog {
            logClosed := true;
          }
          return true;
        }
        Write(item.e, left[0]);
        left := left[1..];
      }
      return false;
    }

    /** `close` with nobody else around: the worker writes all that is queued and takes the sentinel.
        In the foreground a failing `log.close` is counted. */
    method Close(luck: seq<Luck>, closes: bool)
      requires Stop !in queue && |luck| == |queue|
      modifies this, log`last, log`inited, log.backend
      ensures closed && errorCount >= old(errorCount)
      ensures old(closed) ==>
                && queue == old(queue) && errorCount == old(errorCount) && logClosed == old(logClosed)
                && log.Model() == old(log.Model())
      ensures !old(closed) ==> logClosed == (old(logClosed) || closeLog)
      ensures !old(closed) && background ==>
                && queue == []
                && (log.Model(), errorCount - old(errorCount))
                   == WriteAll(log.c, old(log.Model()), BeforeStop(old(queue)), luck)
      ensures !old(closed) && !background ==>
                && queue == old(queue) && log.Model() == old(log.Model())
                && errorCount == old(errorCount) + if closeLog && !closes then 1 else 0
    {
      if closed {
        return;
      }
      if background {
        DrainWritesBeforeStop(log.c, log.Model(), queue, luck);
        DrainKeepsWhatIsBehind(log.c, log.Model(), queue, luck);
        StopSplitsQueue(queue);
        var stopped := Work(luck);
        NothingBehindNoStop(old(queue));
        queue := queue + [Stop];
        stopped := Work([Luck("", AllWell)]);
      } else if closeLog {
        logClosed := true;
        if !closes {
          errorCount := errorCount + 1;
        }
      }
      closed := true;
    }
  }

  lemma {:induction false} NothingBehindNoStop(items: seq<Item>)
    requires Stop !in items
    ensures BehindStop(items) == []
  {
    if items != [] {
      NothingBehindNoStop(items[1..]);
    }
  }

  function Added(d: Drained, failures: nat): Drained {
    d.(failures := d.failures + failures)
  }
}
