/** The lock object itself: `acquire` with its retry loop and `release`, as one thread runs them. */
module FileLocks {
  import opened Prelude
  import opened Locks

  /** `threading.RLock`. */
  class ProcessMutex {
    var owner: Option<ThreadId>
    var count: nat

    constructor ()
      ensures Snapshot() == FreeMutex()
    {
      owner, count := None, 0;
    }

    predicate Valid()
      reads this
    {
      owner.None? <==> count == 0
    }

    function Snapshot(): Mutex
      reads this
    {
      Mutex(owner, count)
    }

    /** Begins once no other thread has the mutex. */
    method Acquire(me: ThreadId)
      requires owner.None? || owner == Some(me)
      modifies this
      ensures Snapshot() == MutexTaken(old(Snapshot()), me)
    {
      owner, count := Some(me), count + 1;
    }

    /** False is the RuntimeError for a thread that does not own the mutex. */
    method Release(me: ThreadId) returns (ok: bool)
      modifies this
      ensures ok <==> old(owner) == Some(me)
      ensures Snapshot() == if ok then MutexGiven(old(Snapshot())) else old(Snapshot())
    {
      ok := owner == Some(me);
      if ok {
        if count <= 1 {
          owner, count := None, 0;
        } else {
          count := count - 1;
        }
      }
    }
  }

  /** How `acquire` ends; `MustWait` is where it blocks on the mutex and later starts over. */
  datatype Outcome = Taken | MustWait | NoFile | TimedOut | Interrupted

  class FileLock {
    const process: ProcessId
    const mutex: ProcessMutex
    var depth: nat
    var owner: Option<ThreadId>
    var open: bool
    var locked: bool  // the kernel's side: this object's open file has the OS lock

    constructor (process: ProcessId, mutex: ProcessMutex)
      ensures this.process == process && this.mutex == mutex
      ensures Snapshot() == Lock(process, 0, None, false) && !locked
    {
      this.process, this.mutex := process, mutex;
      depth, owner, open, locked := 0, None, false, false;
    }

    predicate Valid()
      reads this, mutex
    {
      && mutex.Valid()
      && (depth > 0 ==> locked && open && owner.Some? && mutex.owner == owner)
      && (depth == 0 ==> !locked && !open && owner.None?)
    }

    /** The mutex is there for the thread. */
    predicate Free(me: ThreadId)
      reads this, mutex
    {
      mutex.owner.None? || mutex.owner == Some(me)
    }

    function Snapshot(): Lock
      reads this
    {
      Lock(process, depth, owner, open)
    }

    /**
     `acquire`. `opens` says whether the lock file can be opened, `free[k]` whether the k-th poll
     finds the OS lock free, the polls ending at the deadline. `interrupt` is an exception that
     arrives once the depth is set, before the owner is (false) or after: the file is closed and the
     mutex given back, but the object goes on counting as held.
     */
    method Acquire(me: ThreadId, opens: bool, free: seq<bool>, interrupt: Option<bool>) returns (r: Outcome)
      requires Valid()
      modifies this, mutex
      ensures r != Interrupted ==> Valid()
      ensures old(depth > 0 && owner == Some(me)) ==>
                && r == Taken && Snapshot() == old(Snapshot()).(depth := old(depth) + 1)
                && locked && mutex.Snapshot() == old(mutex.Snapshot())
      ensures old(depth == 0 || owner != Some(me)) ==>
                && (r == MustWait <==> !old(Free(me)))
                && (r == NoFile <==> old(Free(me)) && !opens)
                && (r == TimedOut <==> old(Free(me)) && opens && true !in free)
                && (r == Interrupted <==> old(Free(me)) && opens && true in free && interrupt.Some?)
                && (r == Taken ==>
                      && Snapshot() == Lock(process, 1, Some(me), true) && locked
                      && mutex.Snapshot() == MutexTaken(old(mutex.Snapshot()), me))
      ensures r in {MustWait, NoFile, TimedOut} ==>
                Snapshot() == old(Snapshot()) && locked == old(locked)
                && mutex.Snapshot() == old(mutex.Snapshot())
      ensures r == Interrupted ==>
                && Snapshot() == Lock(process, 1, if interrupt.value then Some(me) else None, false) && !locked
                && mutex.Snapshot() == old(mutex.Snapshot())
    {
      if depth > 0 && owner == Some(me) {
        depth := depth + 1;
        return Taken;
      }
      if !Free(me) {
        return MustWait;
      }
      mutex.Acquire(me);
      if !opens {
        var ok := mutex.Release(me);
        return NoFile;
      }
      open := true;
      var poll := 0;
      while poll < |free| && !free[poll]
        invariant 0 <= poll <= |free|
        invariant forall k :: 0 <= k < poll ==> !free[k]
      {
        poll := poll + 1;
      }
      if poll == |free| {
        open := false;
        var ok := mutex.Release(me);
        return TimedOut;
      }
      locked := true;
      depth := 1;
      if interrupt != Some(false) {
        owner := Some(me);
      }
      if interrupt.Some? {
        locked, open := false, false;
        var ok := mutex.Release(me);
        return Interrupted;
      }
      return Taken;
    }

    /**
     `release`, in any state of the object. Nothing checks who calls: a thread other than the owner
     drops the OS lock, and only then fails on the mutex, which stays taken.
     */
    method Release(me: ThreadId) returns (ok: bool)
      modifies this, mutex
      ensures old(depth) == 0 ==>
                ok && Snapshot() == old(Snapshot()) && locked == old(locked)
                && mutex.Snapshot() == old(mutex.Snapshot())
      ensures old(depth) > 1 ==>
                ok && Snapshot() == old(Snapshot()).(depth := old(depth) - 1) && locked == old(locked)
                && mutex.Snapshot() == old(mutex.Snapshot())
      ensures old(depth) == 1 ==>
                && Snapshot() == Lock(process, 0, None, false) && locked == old(locked && !open)
                && (ok <==> old(mutex.owner) == Some(me))
                && mutex.Snapshot() == MutexReleased(old(mutex.Snapshot()), me)
      ensures old(Valid()) ==> Valid()
    {
      if depth == 0 {
        return true;
      }
      depth := depth - 1;
      if depth > 0 {
        return true;
      }
      if open {
        locked := false;
      }
      open := false;
      owner := None;
      ok := mutex.Release(me);
    }
  }

  /** The object is what the machine's state says about `l`. */
  predicate Shows(s: State, l: LockId, lock: FileLock)
    reads lock, lock.mutex
  {
    && l in s.locks && s.locks[l] == lock.Snapshot()
    && lock.process in s.mutexes && s.mutexes[lock.process] == lock.mutex.Snapshot()
    && (lock.locked <==> s.os == Some(l))
  }

  /** An uncontended call of `acquire` runs four steps of the machine. */
  method AcquireRunsMachine(lock: FileLock, ghost s: State, t: ThreadId, ghost l: LockId)
    requires lock.Valid() && Shows(s, l, lock) && Enabled(s, TakeMutex(t, l)) && s.os.None?
    modifies lock, lock.mutex
    ensures var call := [TakeMutex(t, l), OpenFile(t, true), TryOs(t), Settle(t)];
            Runs(s, call) && Shows(After(s, call), l, lock)
  {
    UncontendedAcquire(s, t, l);
    var r := lock.Acquire(t, true, [true], None);
    assert r == Taken;
  }

  /** The owner's last call of `release` runs three. */
  method ReleaseRunsMachine(lock: FileLock, ghost s: State, t: ThreadId, ghost l: LockId)
    requires lock.Valid() && Shows(s, l, lock) && Invariant(s)
    requires Together(s, t, l) && lock.owner == Some(t) && lock.depth == 1
    modifies lock, lock.mutex
    ensures var call := [LetGo(t, l), UnlockOs(t), CloseFile(t)];
            Runs(s, call) && Shows(After(s, call), l, lock)
  {
    UncontendedRelease(s, t, l);
    var ok := lock.Release(t);
  }

  /** n nested acquires take n releases, and then everything is as it was. */
  method NestAndUnwind(lock: FileLock, me: ThreadId, n: nat)
    requires lock.Valid() && lock.depth == 0
    requires lock.mutex.owner.None? || lock.mutex.owner == Some(me)
    modifies lock, lock.mutex
    ensures lock.Valid() && lock.Snapshot() == old(lock.Snapshot())
    ensures lock.mutex.Snapshot() == old(lock.mutex.Snapshot())
  {
    for i := 0 to n
      invariant lock.Valid() && lock.depth == i
      invariant i == 0 ==> lock.Snapshot() == old(lock.Snapshot()) && lock.mutex.Snapshot() == old(lock.mutex.Snapshot())
      invariant i > 0 ==> lock.owner == Some(me) && lock.mutex.Snapshot() == MutexTaken(old(lock.mutex.Snapshot()), me)
    {
      var acquired := lock.Acquire(me, true, [true], None);
    }
    for i := 0 to n
      invariant lock.Valid() && lock.depth == n - i
      invariant i < n ==> lock.owner == Some(me) && lock.mutex.Snapshot() == MutexTaken(old(lock.mutex.Snapshot()), me)
      invariant i == n ==> lock.Snapshot() == old(lock.Snapshot()) && lock.mutex.Snapshot() == old(lock.mutex.Snapshot())
    {
      var ok := lock.Release(me);
    }
  }
}
