/** The advisory file lock as a state machine over every interleaving of threads and processes. */
module Locks {
  import opened Prelude

  type ProcessId = nat
  type ThreadId = nat
  type LockId = nat

  /** One `FileLock` object: nesting depth, owner thread, and whether its file is open. */
  datatype Lock = Lock(process: ProcessId, depth: nat, owner: Option<ThreadId>, open: bool)

  /** The process's re-entrant mutex for the lock file. */
  datatype Mutex = Mutex(owner: Option<ThreadId>, count: nat)

  /** Where a thread is inside `acquire` or `release`. */
  datatype Stage =
    | Running                   // in neither
    | Opening(lock: LockId)     // has the mutex, opens the file
    | Trying(lock: LockId)      // polls the OS lock
    | Granted(lock: LockId)     // has the OS lock, depth not yet set
    | Failing(lock: LockId)     // timed out or could not open: closes and gives the mutex back
    | Unlocking(lock: LockId)   // depth is down to 0, still has the OS lock
    | Closing(lock: LockId)     // has dropped the OS lock, gives the mutex back

  datatype Thread = Thread(process: ProcessId, stage: Stage)

  /** Everything that concerns one lock file. `os` is the lock object whose open file holds it. */
  datatype State = State(
    locks: map<LockId, Lock>,
    threads: map<ThreadId, Thread>,
    mutexes: map<ProcessId, Mutex>,
    os: Option<LockId>)

  datatype Action =
    | Start(p: ProcessId)
    | Spawn(t: ThreadId, p: ProcessId)
    | Create(l: LockId, p: ProcessId)
    | Reenter(t: ThreadId, l: LockId)
    | TakeMutex(t: ThreadId, l: LockId)
    | OpenFile(t: ThreadId, ok: bool)
    | TryOs(t: ThreadId)
    | TimeOut(t: ThreadId)
    | Settle(t: ThreadId)
    | CleanUp(t: ThreadId)
    | Interrupt(t: ThreadId, owned: bool)   // an exception once the depth is set, before or after the owner
    | LetGo(t: ThreadId, l: LockId)
    | UnlockOs(t: ThreadId)
    | CloseFile(t: ThreadId)
    | Crash(p: ProcessId)

  function FreeMutex(): Mutex {
    Mutex(None, 0)
  }

  function MutexTaken(m: Mutex, t: ThreadId): Mutex {
    Mutex(Some(t), m.count + 1)
  }

  function MutexGiven(m: Mutex): Mutex {
    if m.count <= 1 then FreeMutex() else m.(count := m.count - 1)
  }

  /** `release` of the mutex; a thread that does not own it gets a RuntimeError instead. */
  function MutexReleased(m: Mutex, t: ThreadId): Mutex {
    if m.owner == Some(t) then MutexGiven(m) else m
  }

  predicate MutexOpenTo(s: State, t: ThreadId)
    requires t in s.threads && s.threads[t].process in s.mutexes
  {
    var m := s.mutexes[s.threads[t].process];
    m.owner.None? || m.owner == Some(t)
  }

  /** A running thread and a lock object of its process. */
  predicate Together(s: State, t: ThreadId, l: LockId) {
    && t in s.threads && s.threads[t].stage == Running
    && l in s.locks && s.locks[l].process == s.threads[t].process
    && s.threads[t].process in s.mutexes
  }

  predicate InStage(s: State, t: ThreadId) {
    && t in s.threads && s.threads[t].stage != Running
    && s.threads[t].stage.lock in s.locks
    && s.threads[t].process in s.mutexes
  }

  predicate Enabled(s: State, a: Action) {
    match a
    case Start(p) => p !in s.mutexes
    case Spawn(t, p) => t !in s.threads && p in s.mutexes
    case Create(l, p) => l !in s.locks && p in s.mutexes
    case Reenter(t, l) => Together(s, t, l) && s.locks[l].depth > 0 && s.locks[l].owner == Some(t)
    case TakeMutex(t, l) =>
      Together(s, t, l) && !(s.locks[l].depth > 0 && s.locks[l].owner == Some(t)) && MutexOpenTo(s, t)
    case OpenFile(t, _) => InStage(s, t) && s.threads[t].stage.Opening?
    case TryOs(t) => InStage(s, t) && s.threads[t].stage.Trying?
    case TimeOut(t) => InStage(s, t) && s.threads[t].stage.Trying?
    case Settle(t) => InStage(s, t) && s.threads[t].stage.Granted?
    case CleanUp(t) => InStage(s, t) && s.threads[t].stage.Failing?
    case Interrupt(t, _) => InStage(s, t) && s.threads[t].stage.Granted?
    case LetGo(t, l) => Together(s, t, l) && s.locks[l].depth > 0
    case UnlockOs(t) => InStage(s, t) && s.threads[t].stage.Unlocking?
    case CloseFile(t) => InStage(s, t) && s.threads[t].stage.Closing?
    case Crash(p) => p in s.mutexes
  }

  function GoTo(s: State, t: ThreadId, stage: Stage): State
    requires t in s.threads
  {
    s.(threads := s.threads[t := s.threads[t].(stage := stage)])
  }

  function PutLock(s: State, l: LockId, x: Lock): State {
    s.(locks := s.locks[l := x])
  }

  function PutMutex(s: State, p: ProcessId, m: Mutex): State {
    s.(mutexes := s.mutexes[p := m])
  }

  function Next(s: State, a: Action): State
    requires Enabled(s, a)
  {
    match a
    case Start(p) => PutMutex(s, p, FreeMutex())
    case Spawn(t, p) => s.(threads := s.threads[t := Thread(p, Running)])
    case Create(l, p) => PutLock(s, l, Lock(p, 0, None, false))
    case Reenter(t, l) => PutLock(s, l, s.locks[l].(depth := s.locks[l].depth + 1))
    case TakeMutex(t, l) =>
      var p := s.threads[t].process;
      PutMutex(GoTo(s, t, Opening(l)), p, MutexTaken(s.mutexes[p], t))
    case OpenFile(t, ok) =>
      var l := s.threads[t].stage.lock;
      if ok then PutLock(GoTo(s, t, Trying(l)), l, s.locks[l].(open := true)) else GoTo(s, t, Failing(l))
    case TryOs(t) =>
      var l := s.threads[t].stage.lock;
      if s.os.None? then GoTo(s, t, Granted(l)).(os := Some(l)) else s
    case TimeOut(t) => GoTo(s, t, Failing(s.threads[t].stage.lock))
    case Settle(t) =>
      var l := s.threads[t].stage.lock;
      PutLock(GoTo(s, t, Running), l, s.locks[l].(depth := 1, owner := Some(t)))
    case CleanUp(t) =>
      var l, p := s.threads[t].stage.lock, s.threads[t].process;
      PutMutex(PutLock(GoTo(s, t, Running), l, s.locks[l].(open := false)), p, MutexGiven(s.mutexes[p]))
    case Interrupt(t, owned) =>
      var l, p := s.threads[t].stage.lock, s.threads[t].process;
      var x := s.locks[l].(depth := 1, open := false);
      PutMutex(PutLock(GoTo(s, t, Running), l, if owned then x.(owner := Some(t)) else x), p, MutexGiven(s.mutexes[p]))
        .(os := if s.os == Some(l) then None else s.os)
    case LetGo(t, l) =>
      var depth := s.locks[l].depth - 1;
      PutLock(if depth == 0 then GoTo(s, t, Unlocking(l)) else s, l, s.locks[l].(depth := depth))
    case UnlockOs(t) =>
      var l := s.threads[t].stage.lock;
      GoTo(s, t, Closing(l)).(os := if s.locks[l].open && s.os == Some(l) then None else s.os)
    case CloseFile(t) =>
      var l, p := s.threads[t].stage.lock, s.threads[t].process;
      PutMutex(PutLock(GoTo(s, t, Running), l, s.locks[l].(open := false, owner := None)), p,
               MutexReleased(s.mutexes[p], t))
    case Crash(p) => Survivors(s, p)
  }

  /** A process dies: its threads, lock objects and mutex vanish, and the OS drops its lock. */
  function Survivors(s: State, p: ProcessId): State {
    State(
      map l | l in s.locks && s.locks[l].process != p :: s.locks[l],
      map t | t in s.threads && s.threads[t].process != p :: s.threads[t],
      s.mutexes - {p},
      if s.os.Some? && s.os.value in s.locks && s.locks[s.os.value].process == p then None else s.os)
  }

  // ------------------------------------------------------------ invariant

  /** The thread that holds the mutex of the lock's process, if any. */
  function Keeper(s: State, l: LockId): Option<ThreadId>
    requires l in s.locks
  {
    var p := s.locks[l].process;
    if p in s.mutexes then s.mutexes[p].owner else None
  }

  /** The lock object that a thread is acquiring or releasing. */
  predicate Busy(s: State, t: ThreadId, l: LockId) {
    t in s.threads && s.threads[t].stage != Running && s.threads[t].stage.lock == l
  }

  /** Held objects have the OS lock, an open file, and an owner that has the mutex; the others
      are closed and unowned unless the mutex holder is busy with them. */
  predicate LockOk(s: State, l: LockId)
    requires l in s.locks
  {
    var x := s.locks[l];
    if x.depth > 0 then
      && s.os == Some(l) && x.open
      && x.owner.Some? && x.owner.value in s.threads && s.threads[x.owner.value].process == x.process
      && Keeper(s, l) == x.owner
      && !Busy(s, x.owner.value, l)
    else
      || (x.owner.None? && !x.open)
      || (Keeper(s, l).Some? && Busy(s, Keeper(s, l).value, l))
  }

  /** A busy thread has the mutex, and its stage says what has been done to the object. */
  predicate ThreadOk(s: State, t: ThreadId)
    requires t in s.threads
  {
    var p, stage := s.threads[t].process, s.threads[t].stage;
    && p in s.mutexes
    && (stage != Running ==>
          && stage.lock in s.locks && s.locks[stage.lock].process == p
          && s.mutexes[p].owner == Some(t)
          && var x := s.locks[stage.lock];
             && x.depth == 0
             && (s.os == Some(stage.lock) <==> stage.Granted? || stage.Unlocking?)
             && (x.owner == if stage.Unlocking? || stage.Closing? then Some(t) else None)
             && (stage.Opening? ==> !x.open)
             && (stage.Trying? || stage.Granted? || stage.Unlocking? || stage.Closing? ==> x.open))
  }

  /** Does the mutex owner hold a lock object? */
  predicate Holds(s: State, t: ThreadId) {
    && s.os.Some? && s.os.value in s.locks
    && s.locks[s.os.value].depth > 0 && s.locks[s.os.value].owner == Some(t)
  }

  /** The mutex counts one for a held object and one for a call under way. */
  predicate MutexOk(s: State, p: ProcessId)
    requires p in s.mutexes
  {
    match s.mutexes[p].owner
    case None => s.mutexes[p].count == 0
    case Some(t) =>
      && t in s.threads && s.threads[t].process == p
      && s.mutexes[p].count == (if Holds(s, t) then 1 else 0) + (if s.threads[t].stage != Running then 1 else 0)
      && s.mutexes[p].count > 0
  }

  /** The OS lock is held for an object that is held, or about to be, or just let go. */
  predicate OsOk(s: State) {
    s.os.Some? ==>
      && s.os.value in s.locks
      && (s.locks[s.os.value].depth > 0
          || (Keeper(s, s.os.value).Some?
              && Busy(s, Keeper(s, s.os.value).value, s.os.value)
              && var stage := s.threads[Keeper(s, s.os.value).value].stage;
                 stage.Granted? || stage.Unlocking?))
  }

  predicate Invariant(s: State) {
    && (forall l {:trigger LockOk(s, l)} :: l in s.locks ==> LockOk(s, l))
    && (forall t {:trigger ThreadOk(s, t)} :: t in s.threads ==> ThreadOk(s, t))
    && (forall p {:trigger MutexOk(s, p)} :: p in s.mutexes ==> MutexOk(s, p))
    && OsOk(s)
    && (forall l :: l in s.locks ==> s.locks[l].process in s.mutexes)
  }

  /** The invariant at the places a step by thread `t` on object `l` looks at. */
  lemma AtActor(s: State, t: ThreadId)
    requires Invariant(s) && t in s.threads
    ensures ThreadOk(s, t) && MutexOk(s, s.threads[t].process)
    ensures s.os.Some? ==> s.os.value in s.locks && LockOk(s, s.os.value)
    ensures s.threads[t].stage != Running ==> LockOk(s, s.threads[t].stage.lock)
  {
    assert ThreadOk(s, t);
    assert MutexOk(s, s.threads[t].process);
    assert s.os.Some? ==> LockOk(s, s.os.value);
    assert s.threads[t].stage != Running ==> LockOk(s, s.threads[t].stage.lock);
  }

  lemma AtLock(s: State, l: LockId)
    requires Invariant(s) && l in s.locks
    ensures LockOk(s, l) && s.locks[l].process in s.mutexes && MutexOk(s, s.locks[l].process)
    ensures Keeper(s, l).Some? ==> ThreadOk(s, Keeper(s, l).value)
  {
    assert LockOk(s, l);
    assert MutexOk(s, s.locks[l].process);
    assert Keeper(s, l).Some? ==> ThreadOk(s, Keeper(s, l).value);
  }

  /** The two steps that the lock is not made for: an exception in `acquire` once the depth is set,
      and the last `release` by a thread that is not the owner. */
  predicate Breaking(s: State, a: Action) {
    a.Interrupt? || (a.LetGo? && a.l in s.locks && s.locks[a.l].depth == 1 && s.locks[a.l].owner != Some(a.t))
  }

  predicate ByThread(a: Action) {
    !a.Start? && !a.Spawn? && !a.Create? && !a.Crash?
  }

  /** The steps inside `acquire`. */
  predicate Acquiring(a: Action) {
    a.Reenter? || a.TakeMutex? || a.OpenFile? || a.TryOs? || a.TimeOut? || a.Settle? || a.CleanUp?
  }

  lemma LockStaysOkWhileAcquiring(s: State, a: Action, l: LockId)
    requires Invariant(s) && Enabled(s, a) && Acquiring(a) && l in Next(s, a).locks
    ensures LockOk(Next(s, a), l)
  {
    if l in s.locks { AtLock(s, l); }
    AtActor(s, a.t);
  }

  lemma LockStaysOkOtherwise(s: State, a: Action, l: LockId)
    requires Invariant(s) && Enabled(s, a) && !Breaking(s, a) && !Acquiring(a) && l in Next(s, a).locks
    ensures LockOk(Next(s, a), l)
  {
    if l in s.locks { AtLock(s, l); }
    if ByThread(a) { AtActor(s, a.t); }
  }

  lemma ActorStaysOkWhileAcquiring(s: State, a: Action)
    requires Invariant(s) && Enabled(s, a) && Acquiring(a)
    ensures ThreadOk(Next(s, a), a.t)
  {
    AtActor(s, a.t);
    if a.TakeMutex? { AtLock(s, a.l); }
  }

  lemma OthersStayOkWhileAcquiring(s: State, a: Action, t: ThreadId)
    requires Invariant(s) && Enabled(s, a) && Acquiring(a) && t in s.threads && t != a.t
    ensures ThreadOk(Next(s, a), t)
  {
    AtActor(s, t);
    AtActor(s, a.t);
    if a.Reenter? { AtLock(s, a.l); }
  }

  lemma ThreadStaysOkWhileAcquiring(s: State, a: Action, t: ThreadId)
    requires Invariant(s) && Enabled(s, a) && Acquiring(a) && t in s.threads
    ensures ThreadOk(Next(s, a), t)
  {
    if t == a.t { ActorStaysOkWhileAcquiring(s, a); } else { OthersStayOkWhileAcquiring(s, a, t); }
  }

  lemma ThreadStaysOkOtherwise(s: State, a: Action, t: ThreadId)
    requires Invariant(s) && Enabled(s, a) && !Breaking(s, a) && !Acquiring(a) && t in Next(s, a).threads
    ensures ThreadOk(Next(s, a), t)
  {
    if t in s.threads { AtActor(s, t); }
    if ByThread(a) { AtActor(s, a.t); }
    if a.LetGo? { AtLock(s, a.l); }
  }

  lemma MutexStaysOkWhileAcquiring(s: State, a: Action, p: ProcessId)
    requires Invariant(s) && Enabled(s, a) && Acquiring(a) && p in Next(s, a).mutexes
    ensures MutexOk(Next(s, a), p)
  {
    assert p in s.mutexes ==> MutexOk(s, p);
    if p in s.mutexes && s.mutexes[p].owner.Some? { AtActor(s, s.mutexes[p].owner.value); }
    AtActor(s, a.t);
    if a.Reenter? { AtLock(s, a.l); }
  }

  lemma MutexStaysOkOtherwise(s: State, a: Action, p: ProcessId)
    requires Invariant(s) && Enabled(s, a) && !Breaking(s, a) && !Acquiring(a) && p in Next(s, a).mutexes
    ensures MutexOk(Next(s, a), p)
  {
    assert p in s.mutexes ==> MutexOk(s, p);
    if p in s.mutexes && s.mutexes[p].owner.Some? { AtActor(s, s.mutexes[p].owner.value); }
    if ByThread(a) { AtActor(s, a.t); }
    if a.LetGo? { AtLock(s, a.l); }
  }

  lemma OsStaysOk(s: State, a: Action)
    requires Invariant(s) && Enabled(s, a) && !Breaking(s, a)
    ensures OsOk(Next(s, a))
  {
    if s.os.Some? { AtLock(s, s.os.value); }
    if ByThread(a) { AtActor(s, a.t); }
    if a.TakeMutex? || a.LetGo? || a.Reenter? { AtLock(s, a.l); }
  }

  /** Every step of every thread and process but the two keeps the invariant. */
  lemma StepKeepsInvariant(s: State, a: Action)
    requires Invariant(s) && Enabled(s, a) && !Breaking(s, a)
    ensures Invariant(Next(s, a))
  {
    var s' := Next(s, a);
    forall l | l in s'.locks
      ensures LockOk(s', l)
    {
      if Acquiring(a) { LockStaysOkWhileAcquiring(s, a, l); } else { LockStaysOkOtherwise(s, a, l); }
    }
    forall t | t in s'.threads
      ensures ThreadOk(s', t)
    {
      if Acquiring(a) { ThreadStaysOkWhileAcquiring(s, a, t); } else { ThreadStaysOkOtherwise(s, a, t); }
    }
    forall p | p in s'.mutexes
      ensures MutexOk(s', p)
    {
      if Acquiring(a) { MutexStaysOkWhileAcquiring(s, a, p); } else { MutexStaysOkOtherwise(s, a, p); }
    }
    OsStaysOk(s, a);
  }

  // ------------------------------------------------------------- all runs

  predicate Runs(s: State, actions: seq<Action>)
    decreases |actions|
  {
    actions == [] || (Enabled(s, actions[0]) && Runs(Next(s, actions[0]), actions[1..]))
  }

  function After(s: State, actions: seq<Action>): State
    requires Runs(s, actions)
    decreases |actions|
  {
    if actions == [] then s else After(Next(s, actions[0]), actions[1..])
  }

  const NOTHING := State(map[], map[], map[], None)

  /** No step of the run is one of the two. */
  predicate Orderly(s: State, actions: seq<Action>)
    requires Runs(s, actions)
    decreases |actions|
  {
    actions == [] || (!Breaking(s, actions[0]) && Orderly(Next(s, actions[0]), actions[1..]))
  }

  lemma {:induction false} RunKeepsInvariant(s: State, actions: seq<Action>)
    requires Invariant(s) && Runs(s, actions) && Orderly(s, actions)
    ensures Invariant(After(s, actions))
    decreases |actions|
  {
    if actions != [] {
      StepKeepsInvariant(s, actions[0]);
      RunKeepsInvariant(Next(s, actions[0]), actions[1..]);
    }
  }

  predicate Held(s: State, l: LockId) {
    l in s.locks && s.locks[l].depth > 0
  }

  /** What users of the lock rely on: a held object has the OS lock, an open file and an owner that
      has the process mutex, and every mutex counts exactly what its owner is doing. */
  predicate Exclusive(s: State) {
    && (forall l :: l in s.locks && Held(s, l) ==>
          s.os == Some(l) && s.locks[l].open && s.locks[l].owner.Some? && Keeper(s, l) == s.locks[l].owner)
    && (forall p {:trigger MutexOk(s, p)} :: p in s.mutexes ==> MutexOk(s, p))
  }

  lemma InvariantIsExclusive(s: State)
    requires Invariant(s)
    ensures Exclusive(s)
  {
    forall l | Held(s, l)
      ensures s.os == Some(l) && s.locks[l].open && s.locks[l].owner.Some? && Keeper(s, l) == s.locks[l].owner
    {
      AtLock(s, l);
    }
  }

  /** Either of the two steps breaks it at once. */
  lemma BreakingBreaks(s: State, a: Action)
    requires Invariant(s) && Enabled(s, a) && Breaking(s, a)
    ensures !Exclusive(Next(s, a))
  {
    var s' := Next(s, a);
    AtActor(s, a.t);
    if a.Interrupt? {
      assert Held(s', s.threads[a.t].stage.lock);
    } else {
      var p := s.locks[a.l].process;
      AtLock(s, a.l);
      assert !MutexOk(s', p);
    }
  }

  predicate AlwaysExclusive(s: State, actions: seq<Action>)
    requires Runs(s, actions)
    decreases |actions|
  {
    Exclusive(s) && (actions == [] || AlwaysExclusive(Next(s, actions[0]), actions[1..]))
  }

  lemma {:induction false} AlwaysExclusiveIffOrderly(s: State, actions: seq<Action>)
    requires Invariant(s) && Runs(s, actions)
    ensures AlwaysExclusive(s, actions) <==> Orderly(s, actions)
    decreases |actions|
  {
    InvariantIsExclusive(s);
    if actions != [] {
      if Breaking(s, actions[0]) {
        BreakingBreaks(s, actions[0]);
      } else {
        StepKeepsInvariant(s, actions[0]);
        AlwaysExclusiveIffOrderly(Next(s, actions[0]), actions[1..]);
      }
    }
  }

  /**
   Exactly which interleavings the lock serves: all states of a run are exclusive if and only if
   no `acquire` in it is interrupted once its depth is set, and no thread but the owner does the
   last `release`.
   */
  lemma ExclusiveIffOrderly(actions: seq<Action>)
    requires Runs(NOTHING, actions)
    ensures AlwaysExclusive(NOTHING, actions) <==> Orderly(NOTHING, actions)
  {
    AlwaysExclusiveIffOrderly(NOTHING, actions);
  }

  /**
   Mutual exclusion: in every such interleaving at most one lock object of the file is held, and
   it is held exactly while it has the OS lock outside the few steps of taking and dropping it;
   its owner then has the process mutex.
   */
  lemma AtMostOneHolder(actions: seq<Action>, l: LockId, l': LockId)
    requires Runs(NOTHING, actions) && Orderly(NOTHING, actions)
    ensures var s := After(NOTHING, actions);
            && (Held(s, l) && Held(s, l') ==> l == l')
            && (Held(s, l) ==>
                  && s.os == Some(l) && s.locks[l].open
                  && s.locks[l].owner.Some? && Keeper(s, l) == s.locks[l].owner)
            && (s.os == Some(l) && (forall t :: t in s.threads ==> !Busy(s, t, l)) ==> Held(s, l))
  {
    var s := After(NOTHING, actions);
    RunKeepsInvariant(NOTHING, actions);
    InvariantIsExclusive(s);
    if s.os == Some(l) { AtLock(s, l); }
  }

  /** Whatever others did meanwhile, a failed `acquire` leaves the object as an untouched one and
      the mutex as it is for a thread that is in no call. */
  lemma FailureRestores(actions: seq<Action>, t: ThreadId)
    requires Runs(NOTHING, actions) && Orderly(NOTHING, actions)
    requires Enabled(After(NOTHING, actions), CleanUp(t))
    ensures var s := After(NOTHING, actions);
            var s' := Next(s, CleanUp(t));
            var l, p := s.threads[t].stage.lock, s.threads[t].process;
            && s'.locks[l] == Lock(p, 0, None, false)
            && s'.mutexes[p] == (if Holds(s', t) then Mutex(Some(t), 1) else FreeMutex())
            && s'.os == s.os
  {
    var s := After(NOTHING, actions);
    RunKeepsInvariant(NOTHING, actions);
    AtActor(s, t);
  }

  // ------------------------------------------------------- whole calls

  lemma RunOfThree(s: State, a: Action, b: Action, d: Action)
    requires Enabled(s, a) && Enabled(Next(s, a), b) && Enabled(Next(Next(s, a), b), d)
    ensures Runs(s, [a, b, d]) && After(s, [a, b, d]) == Next(Next(Next(s, a), b), d)
  {
    var s1, s2, s3 := Next(s, a), Next(Next(s, a), b), Next(Next(Next(s, a), b), d);
    assert Runs(s3, []) && After(s3, []) == s3;
    assert Runs(s2, [d]) && After(s2, [d]) == s3;
    assert Runs(s1, [b, d]) && After(s1, [b, d]) == s3;
  }

  lemma RunOfFour(s: State, a: Action, b: Action, d: Action, e: Action)
    requires Enabled(s, a) && Enabled(Next(s, a), b) && Enabled(Next(Next(s, a), b), d)
    requires Enabled(Next(Next(Next(s, a), b), d), e)
    ensures Runs(s, [a, b, d, e]) && After(s, [a, b, d, e]) == Next(Next(Next(Next(s, a), b), d), e)
  {
    RunOfThree(Next(s, a), b, d, e);
    assert [a, b, d, e][1..] == [b, d, e];
  }

  /** Done without interruption, a timeout restores the whole state. */
  lemma LoneTimeoutChangesNothing(actions: seq<Action>, t: ThreadId, l: LockId)
    requires Runs(NOTHING, actions) && Orderly(NOTHING, actions)
    requires Enabled(After(NOTHING, actions), TakeMutex(t, l))
    ensures var failed := [TakeMutex(t, l), OpenFile(t, true), TimeOut(t), CleanUp(t)];
            Runs(After(NOTHING, actions), failed) && After(After(NOTHING, actions), failed) == After(NOTHING, actions)
  {
    var s := After(NOTHING, actions);
    RunKeepsInvariant(NOTHING, actions);
    RunOfFour(s, TakeMutex(t, l), OpenFile(t, true), TimeOut(t), CleanUp(t));
    FourStepsBack(s, t, l);
  }

  /** So does a lock file that cannot be opened. */
  lemma FailedOpenChangesNothing(s: State, t: ThreadId, l: LockId)
    requires Invariant(s) && Enabled(s, TakeMutex(t, l))
    ensures var failed := [TakeMutex(t, l), OpenFile(t, false), CleanUp(t)];
            Runs(s, failed) && After(s, failed) == s
  {
    AtActor(s, t);
    AtLock(s, l);
    var s3 := Next(Next(Next(s, TakeMutex(t, l)), OpenFile(t, false)), CleanUp(t));
    assert s3.locks == s.locks && s3.threads == s.threads && s3.mutexes == s.mutexes;
    RunOfThree(s, TakeMutex(t, l), OpenFile(t, false), CleanUp(t));
  }

  lemma FourStepsBack(s: State, t: ThreadId, l: LockId)
    requires Invariant(s) && Enabled(s, TakeMutex(t, l))
    ensures var s1 := Next(s, TakeMutex(t, l));
            var s2 := Next(s1, OpenFile(t, true));
            var s3 := Next(s2, TimeOut(t));
            Next(s3, CleanUp(t)) == s
  {
    AtActor(s, t);
    AtLock(s, l);
    var s4 := Next(Next(Next(Next(s, TakeMutex(t, l)), OpenFile(t, true)), TimeOut(t)), CleanUp(t));
    assert s4.locks == s.locks;
    assert s4.threads == s.threads;
    assert s4.mutexes == s.mutexes;
  }

  /** The state in which `t` has just acquired the object. */
  function Acquired(s: State, t: ThreadId, l: LockId): State
    requires Together(s, t, l)
  {
    var p := s.threads[t].process;
    PutMutex(PutLock(s, l, Lock(p, 1, Some(t), true)), p, MutexTaken(s.mutexes[p], t)).(os := Some(l))
  }

  lemma FourStepsOn(s: State, t: ThreadId, l: LockId)
    requires Enabled(s, TakeMutex(t, l)) && s.os.None?
    ensures var s1 := Next(s, TakeMutex(t, l));
            var s2 := Next(s1, OpenFile(t, true));
            var s3 := Next(s2, TryOs(t));
            Next(s3, Settle(t)) == Acquired(s, t, l)
  {
    var s4 := Next(Next(Next(Next(s, TakeMutex(t, l)), OpenFile(t, true)), TryOs(t)), Settle(t));
    assert s4.threads == s.threads;
    assert s4.locks == Acquired(s, t, l).locks;
  }

  /** An uncontended `acquire` is four steps, with the outcome of `FileLock.Acquire`. */
  lemma UncontendedAcquire(s: State, t: ThreadId, l: LockId)
    requires Enabled(s, TakeMutex(t, l)) && s.os.None?
    ensures var call := [TakeMutex(t, l), OpenFile(t, true), TryOs(t), Settle(t)];
            Runs(s, call) && After(s, call) == Acquired(s, t, l)
  {
    FourStepsOn(s, t, l);
    RunOfFour(s, TakeMutex(t, l), OpenFile(t, true), TryOs(t), Settle(t));
  }

  lemma ThreeStepsOff(s: State, t: ThreadId, l: LockId)
    requires Invariant(s) && Together(s, t, l) && s.locks[l].owner == Some(t) && s.locks[l].depth == 1
    ensures var p := s.threads[t].process;
            var s1 := Next(s, LetGo(t, l));
            var s2 := Next(s1, UnlockOs(t));
            Next(s2, CloseFile(t))
            == PutMutex(PutLock(s, l, Lock(p, 0, None, false)), p, MutexGiven(s.mutexes[p])).(os := None)
  {
    AtLock(s, l);
    var s3 := Next(Next(Next(s, LetGo(t, l)), UnlockOs(t)), CloseFile(t));
    assert s3.threads == s.threads;
    assert s3.locks == s.locks[l := Lock(s.threads[t].process, 0, None, false)];
  }

  /** The owner's last `release` is three, with the outcome of `FileLock.Release`. */
  lemma UncontendedRelease(s: State, t: ThreadId, l: LockId)
    requires Invariant(s) && Together(s, t, l) && s.locks[l].owner == Some(t) && s.locks[l].depth == 1
    ensures var p, call := s.threads[t].process, [LetGo(t, l), UnlockOs(t), CloseFile(t)];
            && Runs(s, call)
            && After(s, call)
               == PutMutex(PutLock(s, l, Lock(p, 0, None, false)), p, MutexGiven(s.mutexes[p])).(os := None)
  {
    AtLock(s, l);
    ThreeStepsOff(s, t, l);
    RunOfThree(s, LetGo(t, l), UnlockOs(t), CloseFile(t));
  }

  /** The failing input: after an interrupt, a thread of another process acquires a second object
      while the first still counts as held. */
  lemma InterruptLetsTwoHold(s: State, t: ThreadId, u: ThreadId, l: LockId)
    requires Invariant(s) && Enabled(s, Interrupt(t, true)) && Enabled(s, TakeMutex(u, l))
    requires u in s.threads && s.threads[u].process != s.threads[t].process
    ensures var s1, call := Next(s, Interrupt(t, true)), [TakeMutex(u, l), OpenFile(u, true), TryOs(u), Settle(u)];
            && Runs(s1, call)
            && Held(After(s1, call), l) && Held(After(s1, call), s.threads[t].stage.lock)
            && l != s.threads[t].stage.lock
  {
    AtActor(s, t);
    UncontendedAcquire(Next(s, Interrupt(t, true)), u, l);
  }

  /** Two processes, one of which has just been given the OS lock. */
  function Brink(): State {
    State(map[0 := Lock(0, 0, None, true), 1 := Lock(1, 0, None, false)],
          map[0 := Thread(0, Granted(0)), 1 := Thread(1, Running)],
          map[0 := Mutex(Some(0), 1), 1 := FreeMutex()],
          Some(0))
  }

  /** An orderly run from nothing that ends in the state `s`. */
  predicate LeadsTo(actions: seq<Action>, s: State) {
    Runs(NOTHING, actions) && Orderly(NOTHING, actions) && After(NOTHING, actions) == s
  }

  lemma {:induction false} OneStepFurther(s0: State, actions: seq<Action>, a: Action)
    requires Runs(s0, actions) && Orderly(s0, actions)
    requires Enabled(After(s0, actions), a) && !Breaking(After(s0, actions), a)
    ensures Runs(s0, actions + [a]) && Orderly(s0, actions + [a])
    ensures After(s0, actions + [a]) == Next(After(s0, actions), a)
    decreases |actions|
  {
    if actions == [] {
      assert actions + [a] == [a];
      assert Runs(Next(s0, a), []) && After(Next(s0, a), []) == Next(s0, a);
    } else {
      OneStepFurther(Next(s0, actions[0]), actions[1..], a);
      assert (actions + [a])[1..] == actions[1..] + [a];
    }
  }

  lemma LeadsFurther(actions: seq<Action>, s: State, a: Action, s': State) returns (further: seq<Action>)
    requires LeadsTo(actions, s) && Enabled(s, a) && !Breaking(s, a) && Next(s, a) == s'
    ensures further == actions + [a] && LeadsTo(further, s')
  {
    OneStepFurther(NOTHING, actions, a);
    further := actions + [a];
  }

  /** Two processes with a thread and a lock object each. */
  function TwoProcesses(): State {
    State(map[0 := Lock(0, 0, None, false), 1 := Lock(1, 0, None, false)],
          map[0 := Thread(0, Running), 1 := Thread(1, Running)],
          map[0 := FreeMutex(), 1 := FreeMutex()],
          None)
  }

  lemma TwoProcessesAreReached() returns (run: seq<Action>)
    ensures LeadsTo(run, TwoProcesses())
  {
    var l0, t0, t1, free := Lock(0, 0, None, false), Thread(0, Running), Thread(1, Running), FreeMutex();
    var s1 := State(map[], map[], map[0 := free], None);
    run := LeadsFurther([], NOTHING, Start(0), s1);
    var s2 := State(map[], map[], map[0 := free, 1 := free], None);
    run := LeadsFurther(run, s1, Start(1), s2);
    run := LeadsFurther(run, s2, Spawn(0, 0), s2.(threads := map[0 := t0]));
    var s4 := s2.(threads := map[0 := t0, 1 := t1]);
    run := LeadsFurther(run, s2.(threads := map[0 := t0]), Spawn(1, 1), s4);
    run := LeadsFurther(run, s4, Create(0, 0), s4.(locks := map[0 := l0]));
    run := LeadsFurther(run, s4.(locks := map[0 := l0]), Create(1, 1), TwoProcesses());
  }

  /** Such an input is reached from nothing by an orderly run. */
  lemma BrinkIsReached() returns (run: seq<Action>)
    ensures LeadsTo(run, Brink())
    ensures Enabled(Brink(), Interrupt(0, true)) && Enabled(Brink(), TakeMutex(1, 1))
  {
    var l0, l1, t1, mine := Lock(0, 0, None, false), Lock(1, 0, None, false), Thread(1, Running), Mutex(Some(0), 1);
    var s0 := TwoProcesses();
    run := TwoProcessesAreReached();
    var s1 := s0.(threads := map[0 := Thread(0, Opening(0)), 1 := t1], mutexes := map[0 := mine, 1 := FreeMutex()]);
    run := LeadsFurther(run, s0, TakeMutex(0, 0), s1);
    var s2 := s1.(threads := map[0 := Thread(0, Trying(0)), 1 := t1], locks := map[0 := l0.(open := true), 1 := l1]);
    run := LeadsFurther(run, s1, OpenFile(0, true), s2);
    run := LeadsFurther(run, s2, TryOs(0), Brink());
  }

  // ----------------------------------------------------- nobody gets stuck

  /** Inside a call there is always a next step; outside, `acquire` either re-enters, or starts as soon
      as no other thread has the mutex, and a held object can be released. */
  lemma ThreadsCanMove(s: State, t: ThreadId, l: LockId)
    requires Invariant(s) && t in s.threads && l in s.locks && s.locks[l].process == s.threads[t].process
    ensures s.threads[t].stage != Running ==> exists a :: ByThread(a) && a.t == t && Enabled(s, a)
    ensures s.threads[t].stage.Trying? ==> Enabled(s, TimeOut(t)) && Enabled(s, TryOs(t))
    ensures s.threads[t].stage == Running ==>
              && (Enabled(s, Reenter(t, l)) <==> Held(s, l) && s.locks[l].owner == Some(t))
              && (Enabled(s, TakeMutex(t, l)) <==>
                    !Enabled(s, Reenter(t, l)) && s.mutexes[s.threads[t].process].owner in {None, Some(t)})
              && (Enabled(s, LetGo(t, l)) <==> Held(s, l))
    ensures Enabled(s, Crash(s.threads[t].process))
  {
    AtActor(s, t);
    AtLock(s, l);
    match s.threads[t].stage
    case Opening(_) => assert Enabled(s, OpenFile(t, true));
    case Trying(_) => assert Enabled(s, TryOs(t));
    case Granted(_) => assert Enabled(s, Settle(t));
    case Failing(_) => assert Enabled(s, CleanUp(t));
    case Unlocking(_) => assert Enabled(s, UnlockOs(t));
    case Closing(_) => assert Enabled(s, CloseFile(t));
    case Running =>
  }

  /** A poll gets the OS lock exactly when it is free, and a crash of the process that has it frees it. */
  lemma FreeLockIsGranted(s: State, t: ThreadId)
    requires Invariant(s) && Enabled(s, TryOs(t))
    ensures var l := s.threads[t].stage.lock;
            if s.os.None? then Next(s, TryOs(t)) == GoTo(s, t, Granted(l)).(os := Some(l)) else Next(s, TryOs(t)) == s
    ensures s.os.Some? ==>
              && s.os.value in s.locks && s.locks[s.os.value].process in s.mutexes
              && Enabled(s, Crash(s.locks[s.os.value].process))
              && Next(s, Crash(s.locks[s.os.value].process)).os == None
  {
    if s.os.Some? {
      AtLock(s, s.os.value);
    }
  }

  /** A nested `acquire` by the owner goes one deeper and touches nothing else, and a release takes it back. */
  lemma NestedAcquire(s: State, t: ThreadId, l: LockId)
    requires Enabled(s, Reenter(t, l))
    ensures var s' := Next(s, Reenter(t, l));
            && s' == s.(locks := s.locks[l := s.locks[l].(depth := s.locks[l].depth + 1)])
            && Enabled(s', LetGo(t, l)) && Next(s', LetGo(t, l)) == s
  {
    var s' := Next(s, Reenter(t, l));
    assert Next(s', LetGo(t, l)).locks == s.locks;
  }

  // ------------------------------------------------ the lock as one holder

  /** The object that is held, if any. */
  function Holder(s: State): Option<LockId> {
    if s.os.Some? && Held(s, s.os.value) then s.os else None
  }

  /**
   Seen from outside the lock is one atomic holder: it passes from nobody to an object in that
   object's `Settle`, back to nobody in its last `LetGo` or the crash of its process, and never
   from one object to another.
   */
  lemma HolderIsAtomic(s: State, a: Action)
    requires Invariant(s) && Enabled(s, a) && !Breaking(s, a)
    ensures forall l: LockId :: Held(s, l) <==> Holder(s) == Some(l)
    ensures var h, h' := Holder(s), Holder(Next(s, a));
            || h == h'
            || (h.None? && h'.Some? && a.Settle? && s.threads[a.t].stage.lock == h'.value)
            || (h.Some? && h'.None?
                && ((a.LetGo? && a.l == h.value && s.locks[a.l].owner == Some(a.t) && s.locks[a.l].depth == 1)
                    || (a.Crash? && s.locks[h.value].process == a.p)))
  {
    InvariantIsExclusive(s);
    if s.os.Some? { AtLock(s, s.os.value); }
    if ByThread(a) { AtActor(s, a.t); }
  }

  function Times<T>(x: T, n: nat): (xs: seq<T>)
    ensures |xs| == n
  {
    if n == 0 then [] else [x] + Times(x, n - 1)
  }

  /** An object held n deep stays held, with the OS lock, through n - 1 releases by its owner;
      the n-th starts dropping the OS lock. */
  lemma {:induction false} NestedReleases(s: State, t: ThreadId, l: LockId, k: nat)
    requires Invariant(s) && Together(s, t, l) && s.locks[l].owner == Some(t)
    requires 1 <= k <= s.locks[l].depth
    ensures Runs(s, Times(LetGo(t, l), k))
    ensures var s' := After(s, Times(LetGo(t, l), k));
            && l in s'.locks && s'.locks[l].depth == s.locks[l].depth - k
            && s'.os == Some(l)
            && (Held(s', l) <==> k < s.locks[l].depth)
            && (k == s.locks[l].depth ==> t in s'.threads && s'.threads[t].stage == Unlocking(l))
    decreases k
  {
    var s1 := Next(s, LetGo(t, l));
    AtLock(s, l);
    assert Times(LetGo(t, l), k)[1..] == Times(LetGo(t, l), k - 1);
    if k == 1 {
      assert Times(LetGo(t, l), 0) == [];
    } else {
      StepKeepsInvariant(s, LetGo(t, l));
      NestedReleases(s1, t, l, k - 1);
    }
  }
}
