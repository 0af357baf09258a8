/**
 Several writers sharing one log under a lock, stepping in any order and crashing anywhere.
 Each writer keeps its own cached tail, which goes stale while others write.
 */
module Writers {
  import opened Prelude
  import opened Encoding
  import opened Records
  import opened Crypto
  import opened Hashing
  import opened Verify
  import opened VerifyTheorems
  import opened Log
  import opened LogTheorems

  /** Where a writer is inside `append` or `append_many`. */
  datatype Stage =
    | Idle         // not appending
    | Locked       // holds the lock
    | TailRead     // has re-read the tail
    | BatchSealed  // has sealed its records, not yet written them
    | Stored       // the backend has them
    | Leaving      // about to release, with or without having written

  datatype Writer = Writer(who: Identity, last: Option<Record>, stage: Stage, pending: seq<Record>)

  type WriterId = nat

  /** `authors` is a history variable: who wrote each stored record. */
  datatype System = System(
    store: seq<Record>,
    holder: Option<WriterId>,
    writers: map<WriterId, Writer>,
    authors: seq<Identity>)

  datatype Action =
    | Open(w: WriterId, who: Identity)
    | Acquire(w: WriterId)
    | ReadTail(w: WriterId, ok: bool)
    | SealOne(w: WriterId, e: Entry, now: string)
    | SealMany(w: WriterId, es: seq<Entry>, nows: seq<string>)
    | Write(w: WriterId, n: nat, ok: bool)   // n records are stored, then it returns or raises
    | CacheTail(w: WriterId)
    | Release(w: WriterId)
    | Rekey(w: WriterId, sealKey: Bytes, keyId: string)
    | Crash(w: WriterId)

  predicate At(s: System, w: WriterId, stage: Stage) {
    w in s.writers && s.writers[w].stage == stage
  }

  predicate Enabled(s: System, a: Action) {
    match a
    case Open(w, _) => w !in s.writers
    case Acquire(w) => At(s, w, Idle) && s.holder.None?
    case ReadTail(w, _) => At(s, w, Locked)
    case SealOne(w, _, _) => At(s, w, TailRead)
    case SealMany(w, es, nows) => At(s, w, TailRead) && |es| == |nows|
    case Write(w, n, ok) =>
      At(s, w, BatchSealed) && n <= |s.writers[w].pending| && (ok ==> n == |s.writers[w].pending|)
    case CacheTail(w) => At(s, w, Stored)
    case Release(w) => At(s, w, Leaving)
    case Rekey(w, _, _) => At(s, w, Idle)
    case Crash(w) => w in s.writers
  }

  function Set(s: System, w: WriterId, x: Writer): System {
    s.(writers := s.writers[w := x])
  }

  /** What sealing leaves: a batch to write, or nothing to do but release. */
  function AfterSealing(x: Writer, batch: Option<seq<Record>>): Writer {
    if batch.None? || batch.value == [] then x.(stage := Leaving)
    else x.(stage := BatchSealed, pending := batch.value)
  }

  function Next(c: Suite, s: System, a: Action): System
    requires Enabled(s, a)
  {
    match a
    case Open(w, who) => Set(s, w, Writer(who, Last(s.store), Idle, []))
    case Acquire(w) => Set(s, w, s.writers[w].(stage := Locked)).(holder := Some(w))
    case ReadTail(w, ok) =>
      Set(s, w, if ok then s.writers[w].(stage := TailRead, last := Last(s.store)) else s.writers[w].(stage := Leaving))
    case SealOne(w, e, now) =>
      var x := s.writers[w];
      var r := NextRecord(c, x.who, x.last, e, now);
      Set(s, w, AfterSealing(x, if r.None? then None else Some([r.value])))
    case SealMany(w, es, nows) =>
      var x := s.writers[w];
      Set(s, w, AfterSealing(x, SealBatch(c, x.who, x.last, es, nows)))
    case Write(w, n, ok) =>
      var x := s.writers[w];
      Set(s, w, x.(stage := if ok then Stored else Leaving))
        .(store := s.store + x.pending[..n], authors := s.authors + Copies(x.who, n))
    case CacheTail(w) =>
      var x := s.writers[w];
      Set(s, w, x.(stage := Leaving, last := Last(x.pending)))
    case Release(w) => Set(s, w, s.writers[w].(stage := Idle)).(holder := None)
    case Rekey(w, sealKey, keyId) =>
      var x := s.writers[w];
      Set(s, w, x.(who := x.who.(sealKey := Some(sealKey), keyId := keyId)))
    case Crash(w) =>
      s.(writers := s.writers - {w}, holder := if s.holder == Some(w) then None else s.holder)
  }

  // ------------------------------------------------------------ invariant

  /** Only the lock's holder is past `Idle`; once it has read the tail, its tail is the store's,
      and what it has sealed goes right onto the store. */
  predicate WriterOk(c: Suite, s: System, w: WriterId)
    requires w in s.writers
  {
    var x := s.writers[w];
    && (x.stage != Idle <==> s.holder == Some(w))
    && (x.stage == TailRead || x.stage == BatchSealed ==> x.last == Last(s.store))
    && (x.stage == BatchSealed ==> WrittenOnto(c, x.who, Last(s.store), x.pending))
  }

  predicate Invariant(c: Suite, s: System) {
    && ChainBy(c, s.authors, s.store)
    && (s.holder.Some? ==> s.holder.value in s.writers)
    && forall w :: w in s.writers ==> WriterOk(c, s, w)
  }

  /** A step by one writer leaves the others' part of the invariant alone, as long as the store
      grows only under the lock. */
  lemma OthersStayOk(c: Suite, s: System, a: Action, w: WriterId)
    requires Invariant(c, s) && Enabled(s, a) && w in s.writers && w != a.w
    ensures w in Next(c, s, a).writers && WriterOk(c, Next(c, s, a), w)
  {
    assert WriterOk(c, s, w);
    if a.w in s.writers {
      assert WriterOk(c, s, a.w);
    }
  }

  lemma ActorStaysOk(c: Suite, s: System, a: Action)
    requires Invariant(c, s) && Enabled(s, a) && !a.Crash?
    ensures WriterOk(c, Next(c, s, a), a.w)
  {
    if a.w in s.writers {
      assert WriterOk(c, s, a.w);
      var x := s.writers[a.w];
      match a
      case SealOne(w, e, now) =>
        if NextRecord(c, x.who, x.last, e, now).Some? {
          NextRecordIsWritten(c, x.who, x.last, e, now);
          WrittenAloneIsOnto(c, x.who, x.last, NextRecord(c, x.who, x.last, e, now).value);
        }
      case SealMany(w, es, nows) =>
        if SealBatch(c, x.who, x.last, es, nows).Some? {
          BatchIsWrittenOnto(c, x.who, x.last, es, nows);
        }
      case _ =>
    }
  }

  lemma WrittenAloneIsOnto(c: Suite, who: Identity, prev: Option<Record>, r: Record)
    requires WrittenBy(c, who, prev, r)
    ensures WrittenOnto(c, who, prev, [r])
  {
  }

  lemma StoreStaysChained(c: Suite, s: System, a: Action)
    requires Invariant(c, s) && Enabled(s, a)
    ensures ChainBy(c, Next(c, s, a).authors, Next(c, s, a).store)
    ensures s.store <= Next(c, s, a).store && s.authors <= Next(c, s, a).authors
  {
    if a.Write? {
      var x := s.writers[a.w];
      assert WriterOk(c, s, a.w);
      PrefixIsWrittenOnto(c, x.who, Last(s.store), x.pending, a.n);
      WrittenRecordsExtendChain(c, x.who, s.authors, s.store, x.pending[..a.n]);
    }
  }

  /** Every step of every writer keeps the invariant, and the store only grows. */
  lemma StepKeepsInvariant(c: Suite, s: System, a: Action)
    requires Invariant(c, s) && Enabled(s, a)
    ensures Invariant(c, Next(c, s, a))
    ensures s.store <= Next(c, s, a).store && s.authors <= Next(c, s, a).authors
  {
    var s' := Next(c, s, a);
    StoreStaysChained(c, s, a);
    forall w | w in s'.writers
      ensures WriterOk(c, s', w)
    {
      if w == a.w {
        ActorStaysOk(c, s, a);
      } else {
        OthersStayOk(c, s, a, w);
      }
    }
    if s'.holder.Some? && s'.holder.value != a.w {
      OthersStayOk(c, s, a, s'.holder.value);
    }
  }

  // ------------------------------------------------------------- all runs

  predicate Runs(c: Suite, s: System, actions: seq<Action>)
    decreases |actions|
  {
    actions == [] || (Enabled(s, actions[0]) && Runs(c, Next(c, s, actions[0]), actions[1..]))
  }

  function After(c: Suite, s: System, actions: seq<Action>): System
    requires Runs(c, s, actions)
    decreases |actions|
  {
    if actions == [] then s else After(c, Next(c, s, actions[0]), actions[1..])
  }

  const NOBODY := System([], None, map[], [])

  lemma {:induction false} RunKeepsInvariant(c: Suite, s: System, actions: seq<Action>)
    requires Invariant(c, s) && Runs(c, s, actions)
    ensures Invariant(c, After(c, s, actions))
    ensures s.store <= After(c, s, actions).store && s.authors <= After(c, s, actions).authors
    decreases |actions|
  {
    if actions != [] {
      StepKeepsInvariant(c, s, actions[0]);
      RunKeepsInvariant(c, Next(c, s, actions[0]), actions[1..]);
    }
  }

  /**
   Whatever the interleaving, the stale caches, the different keys and the crashes, what is
   stored is one chain: each record in its place, linked to the one before, hashed under its
   writer's key; and it verifies with any keys that resolve the writers.
   */
  lemma InterleavingsKeepOneChain(c: Suite, actions: seq<Action>, t: Trust)
    requires Runs(c, NOBODY, actions)
    ensures var s := After(c, NOBODY, actions);
            && |s.authors| == |s.store|
            && (forall i :: 0 <= i < |s.store| ==>
                  && Linked(s.store, i)
                  && RecordHash(c, s.store[i], s.authors[i].sealKey) == Some(s.store[i].hash))
            && (HonestSignatures(c) && KeysResolve(t, s.authors, s.store) && SignersResolve(c, t, s.authors) ==>
                  ValidChain(c, t, s.store))
  {
    var s := After(c, NOBODY, actions);
    RunKeepsInvariant(c, NOBODY, actions);
    forall i | 0 <= i < |s.store|
      ensures Linked(s.store, i)
      ensures RecordHash(c, s.store[i], s.authors[i].sealKey) == Some(s.store[i].hash)
    {
      ChainByIsLinked(c, s.authors, s.store, i);
      assert WrittenBy(c, s.authors[i], Previous(None, s.store, i), s.store[i]);
    }
    if HonestSignatures(c) && KeysResolve(t, s.authors, s.store) && SignersResolve(c, t, s.authors) {
      WrittenChainIsValid(c, t, s.authors, s.store);
    }
  }

  // ------------------------------------------------ a writer left in peace

  lemma BeginsWith(c: Suite, s: System, a: Action, s': System, rest: seq<Action>, end: System)
    requires Enabled(s, a) && Next(c, s, a) == s' && Runs(c, s', rest) && After(c, s', rest) == end
    ensures Runs(c, s, [a] + rest) && After(c, s, [a] + rest) == end
  {
    assert ([a] + rest)[1..] == rest;
  }

  /** The system with the writer in another state and the lock in other hands. */
  function With(s: System, w: WriterId, x: Writer, holder: Option<WriterId>): System {
    Set(s, w, x).(holder := holder)
  }

  lemma WithTwice(s: System, w: WriterId, x: Writer, h: Option<WriterId>, y: Writer, h': Option<WriterId>)
    ensures With(With(s, w, x, h), w, y, h') == With(s, w, y, h')
  {
    assert s.writers[w := x][w := y] == s.writers[w := y];
  }

  /** The end of an append of `rs`: all is stored and cached, and the lock is free. */
  function Appended(s: System, w: WriterId, rs: seq<Record>): System
    requires w in s.writers
  {
    var x := s.writers[w];
    With(s, w, x.(stage := Idle, last := Last(rs), pending := rs), None)
      .(store := s.store + rs, authors := s.authors + Copies(x.who, |rs|))
  }

  lemma SealedBatchIsStored(c: Suite, s: System, w: WriterId, rs: seq<Record>)
    requires w in s.writers
    ensures var x := s.writers[w].(stage := BatchSealed, pending := rs, last := Last(s.store));
            var run := [Write(w, |rs|, true), CacheTail(w), Release(w)];
            && Runs(c, With(s, w, x, Some(w)), run)
            && After(c, With(s, w, x, Some(w)), run) == Appended(s, w, rs)
  {
    var x := s.writers[w].(stage := BatchSealed, pending := rs, last := Last(s.store));
    var t := s.(store := s.store + rs, authors := s.authors + Copies(x.who, |rs|));
    assert rs[..|rs|] == rs;
    WithTwice(t, w, x, Some(w), x.(stage := Stored), Some(w));
    WithTwice(t, w, x.(stage := Stored), Some(w), x.(stage := Leaving, last := Last(rs)), Some(w));
    WithTwice(t, w, x.(stage := Leaving, last := Last(rs)), Some(w), x.(stage := Idle, last := Last(rs)), None);
    BeginsWith(c, With(t, w, x.(stage := Leaving, last := Last(rs)), Some(w)), Release(w), Appended(s, w, rs), [], Appended(s, w, rs));
    BeginsWith(c, With(t, w, x.(stage := Stored), Some(w)), CacheTail(w),
               With(t, w, x.(stage := Leaving, last := Last(rs)), Some(w)), [Release(w)], Appended(s, w, rs));
    BeginsWith(c, With(s, w, x, Some(w)), Write(w, |rs|, true), With(t, w, x.(stage := Stored), Some(w)),
               [CacheTail(w), Release(w)], Appended(s, w, rs));
  }

  /** Taking the lock and reading the tail, as the first two steps. */
  lemma LockedAndRead(c: Suite, s: System, w: WriterId, rest: seq<Action>, end: System)
    requires At(s, w, Idle) && s.holder.None?
    requires var ready := With(s, w, s.writers[w].(stage := TailRead, last := Last(s.store)), Some(w));
             Runs(c, ready, rest) && After(c, ready, rest) == end
    ensures Runs(c, s, [Acquire(w), ReadTail(w, true)] + rest) && After(c, s, [Acquire(w), ReadTail(w, true)] + rest) == end
  {
    var x := s.writers[w];
    var ready := With(s, w, x.(stage := TailRead, last := Last(s.store)), Some(w));
    var locked := With(s, w, x.(stage := Locked), Some(w));
    WithTwice(s, w, x.(stage := Locked), Some(w), x.(stage := TailRead, last := Last(s.store)), Some(w));
    BeginsWith(c, locked, ReadTail(w, true), ready, rest, end);
    BeginsWith(c, s, Acquire(w), locked, [ReadTail(w, true)] + rest, end);
    assert [Acquire(w)] + ([ReadTail(w, true)] + rest) == [Acquire(w), ReadTail(w, true)] + rest;
  }

  /** The writer as it is when it has taken the lock and read the tail, and when it has sealed a batch. */
  function Reading(s: System, w: WriterId): System
    requires w in s.writers
  {
    With(s, w, s.writers[w].(stage := TailRead, last := Last(s.store)), Some(w))
  }

  function Sealing(s: System, w: WriterId, rs: seq<Record>): System
    requires w in s.writers
  {
    With(s, w, s.writers[w].(stage := BatchSealed, pending := rs, last := Last(s.store)), Some(w))
  }

  lemma UndisturbedRun(c: Suite, s: System, w: WriterId, seal: Action, rs: seq<Record>)
    requires At(s, w, Idle) && s.holder.None?
    requires Enabled(Reading(s, w), seal) && Next(c, Reading(s, w), seal) == Sealing(s, w, rs)
    ensures var run := [Acquire(w), ReadTail(w, true), seal, Write(w, |rs|, true), CacheTail(w), Release(w)];
            Runs(c, s, run) && After(c, s, run) == Appended(s, w, rs)
  {
    SealedBatchIsStored(c, s, w, rs);
    var rest := [Write(w, |rs|, true), CacheTail(w), Release(w)];
    BeginsWith(c, Reading(s, w), seal, Sealing(s, w, rs), rest, Appended(s, w, rs));
    LockedAndRead(c, s, w, [seal] + rest, Appended(s, w, rs));
    assert [Acquire(w), ReadTail(w, true)] + ([seal] + rest)
           == [Acquire(w), ReadTail(w, true), seal, Write(w, |rs|, true), CacheTail(w), Release(w)];
  }

  /** The log object that the writer is, sharing the store. */
  function AsLog(s: System, w: WriterId): State
    requires w in s.writers
  {
    State(s.store, s.writers[w].last, s.writers[w].who, map[], true, true)
  }

  /** A writer whom nobody disturbs does what `append` of a shared log does, stale tail or not. */
  lemma UndisturbedWriterAppends(c: Suite, s: System, w: WriterId, e: Entry, now: string)
    requires At(s, w, Idle) && s.holder.None?
    requires AppendOutcome(c, AsLog(s, w), e, now, AllWell).1.Ok?
    ensures var run := [Acquire(w), ReadTail(w, true), SealOne(w, e, now), Write(w, 1, true), CacheTail(w), Release(w)];
            var (st, result) := AppendOutcome(c, AsLog(s, w), e, now, AllWell);
            && Runs(c, s, run) && After(c, s, run) == Appended(s, w, [result.value])
            && AsLog(Appended(s, w, [result.value]), w) == st
  {
    var r := AppendOutcome(c, AsLog(s, w), e, now, AllWell).1.value;
    var read := s.writers[w].(stage := TailRead, last := Last(s.store));
    WithTwice(s, w, read, Some(w), read.(stage := BatchSealed, pending := [r]), Some(w));
    UndisturbedRun(c, s, w, SealOne(w, e, now), [r]);
  }

  /** And what `append_many` does, for a batch. */
  lemma UndisturbedWriterAppendsBatch(c: Suite, s: System, w: WriterId, es: seq<Entry>, nows: seq<string>)
    requires At(s, w, Idle) && s.holder.None? && |es| == |nows| && es != []
    requires AppendManyOutcome(c, AsLog(s, w), es, nows, AllWell).1.Ok?
    ensures var run := [Acquire(w), ReadTail(w, true), SealMany(w, es, nows), Write(w, |es|, true), CacheTail(w), Release(w)];
            var (st, result) := AppendManyOutcome(c, AsLog(s, w), es, nows, AllWell);
            && Runs(c, s, run) && After(c, s, run) == Appended(s, w, result.value)
            && AsLog(Appended(s, w, result.value), w) == st
  {
    var rs := AppendManyOutcome(c, AsLog(s, w), es, nows, AllWell).1.value;
    var read := s.writers[w].(stage := TailRead, last := Last(s.store));
    WithTwice(s, w, read, Some(w), read.(stage := BatchSealed, pending := rs), Some(w));
    UndisturbedRun(c, s, w, SealMany(w, es, nows), rs);
  }

  /** Anybody new may join with any keys, at the store's end; whoever is idle may change its seal key. */
  lemma WritersChooseKeys(c: Suite, s: System, v: WriterId, w: WriterId, who: Identity, sealKey: Bytes, keyId: string)
    requires v !in s.writers && At(s, w, Idle)
    ensures Enabled(s, Open(v, who)) && Enabled(s, Rekey(w, sealKey, keyId))
    ensures Next(c, s, Open(v, who)) == Set(s, v, Writer(who, Last(s.store), Idle, []))
    ensures var x, y := s.writers[w], Next(c, s, Rekey(w, sealKey, keyId)).writers[w];
            && y.who == Identity(Some(sealKey), keyId, x.who.signingKey, x.who.signerId)
            && y == x.(who := y.who) && Next(c, s, Rekey(w, sealKey, keyId)) == Set(s, w, y)
  {
  }

  /** A writer can crash anywhere, and then somebody else can take the lock; and a writer inside an
      append can always go on. */
  lemma WritersCanMove(c: Suite, s: System, w: WriterId)
    requires Invariant(c, s) && w in s.writers
    ensures Enabled(s, Crash(w)) && w !in Next(c, s, Crash(w)).writers
    ensures s.holder in {None, Some(w)} ==>
              var s' := Next(c, s, Crash(w));
              s'.holder == None && s'.store == s.store && forall v :: v in s'.writers ==> Enabled(s', Acquire(v))
    ensures s.writers[w].stage != Idle ==> exists a: Action :: a.w == w && !a.Crash? && Enabled(s, a)
  {
    assert WriterOk(c, s, w);
    match s.writers[w].stage
    case Idle =>
      forall v | v in s.writers && v != w && s.holder.None?
        ensures s.writers[v].stage == Idle
      {
        assert WriterOk(c, s, v);
      }
    case Locked => assert Enabled(s, ReadTail(w, true));
    case TailRead => assert Enabled(s, SealMany(w, [], []));
    case BatchSealed => assert Enabled(s, Write(w, 0, false));
    case Stored => assert Enabled(s, CacheTail(w));
    case Leaving => assert Enabled(s, Release(w));
    if s.holder == Some(w) {
      forall v | v in s.writers && v != w
        ensures s.writers[v].stage == Idle
      {
        assert WriterOk(c, s, v);
      }
    }
  }

  /** A record the backend has taken keeps its place through whatever happens later. */
  lemma StoredRecordsStay(c: Suite, before: seq<Action>, w: WriterId, n: nat, ok: bool, after: seq<Action>, k: nat)
    requires Runs(c, NOBODY, before) && Enabled(After(c, NOBODY, before), Write(w, n, ok)) && k < n
    requires Runs(c, Next(c, After(c, NOBODY, before), Write(w, n, ok)), after)
    ensures var r := After(c, NOBODY, before).writers[w].pending[k];
            var later := After(c, Next(c, After(c, NOBODY, before), Write(w, n, ok)), after);
            0 <= r.seqNo < |later.store| && later.store[r.seqNo] == r
  {
    var s := After(c, NOBODY, before);
    RunKeepsInvariant(c, NOBODY, before);
    var s' := Next(c, s, Write(w, n, ok));
    StepKeepsInvariant(c, s, Write(w, n, ok));
    RunKeepsInvariant(c, s', after);
    ChainByIsLinked(c, s'.authors, s'.store, |s.store| + k);
  }
}
