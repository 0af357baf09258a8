/** The audit log: sealing records onto the cached tail, batches, key rotation, checkpoints. */
module Log {
  import opened Prelude
  import opened Encoding
  import opened Records
  import opened Crypto
  import opened Hashing
  import opened Merkle
  import opened Checkpoints
  import opened Verify

  const MIN_KEY_LENGTH := 16

  /** Who writes: the seal key with its id, and the signing key with its id. */
  datatype Identity = Identity(
    sealKey: Option<Bytes>,
    keyId: string,
    signingKey: Option<Bytes>,
    signerId: string)

  datatype Entry = Entry(
    actor: string,
    action: string,
    subject: string,
    metadata: Metadata,
    timestamp: Option<string>)

  datatype LogError =
    | ShortKey | EmptySignerId | TwoLocks
    | StoreUnreadable | LockTimedOut | SealFailed | StoreFailed
    | EmptyLog | HashNotHex

  /** What the world outside does during one call. */
  datatype World =
    | AllWell
    | CannotOpen          // the first read, which opens the log, raises
    | LockBusy            // the lock cannot be had in time
    | CannotRead          // a read of the open store raises
    | StoresOnly(n: nat)  // the write raises when it has stored n records

  // -------------------------------------------------- building one record

  /** `_build_record`, with the clock's reading as a parameter. */
  function Build(who: Identity, e: Entry, now: string, prev: Option<Record>): Record {
    Record(
      if prev.None? then 0 else prev.value.seqNo + 1,
      if e.timestamp.None? || e.timestamp.value == "" then now else e.timestamp.value,
      e.actor, e.action, e.subject, e.metadata,
      if prev.None? then GENESIS_HASH else prev.value.hash,
      "",
      if who.sealKey.Some? then who.keyId else "",
      if who.signingKey.Some? then who.signerId else "",
      "")
  }

  /** `_seal`: hash, then sign the finished hash. None when hashing raises. */
  function SealRecord(c: Suite, who: Identity, r: Record): Option<Record> {
    match RecordHash(c, r, who.sealKey)
    case None => None
    case Some(hash) =>
      var sealed := r.(hash := hash);
      if who.signingKey.None? then Some(sealed)
      else Some(sealed.(signature := SignHex(c, who.signingKey.value, SigningMessage(sealed))))
  }

  function NextRecord(c: Suite, who: Identity, prev: Option<Record>, e: Entry, now: string): Option<Record> {
    SealRecord(c, who, Build(who, e, now, prev))
  }

  /** A batch, each record chained onto the one before; None when any of them cannot be sealed. */
  function SealBatch(c: Suite, who: Identity, prev: Option<Record>, es: seq<Entry>, nows: seq<string>)
    : (rs: Option<seq<Record>>)
    requires |es| == |nows|
    ensures rs.Some? ==> |rs.value| == |es|
    decreases |es|
  {
    if es == [] then Some([])
    else match NextRecord(c, who, prev, es[0].(timestamp := None), nows[0])
      case None => None
      case Some(r) =>
        match SealBatch(c, who, Some(r), es[1..], nows[1..])
        case None => None
        case Some(rest) => Some([r] + rest)
  }

  // ------------------------------------------------------- the log's state

  datatype State = State(
    store: seq<Record>,
    last: Option<Record>,
    who: Identity,
    keyring: map<string, Bytes>,
    shared: bool,
    inited: bool)

  /** `init`, unless it already ran. */
  function Inited(st: State): State {
    if st.inited then st else st.(last := Last(st.store), inited := true)
  }

  /** What an append works from: a shared log re-reads the tail, a private one trusts its cache. */
  function Refreshed(st: State): State {
    if st.shared then Inited(st).(last := Last(st.store)) else Inited(st)
  }

  /** What keeps an append from reading the tail, and the state it then leaves. Only a shared log
      has a lock to wait for and a tail to read again. */
  function Stopped(st: State, w: World): Option<(State, LogError)> {
    if w.CannotOpen? && !st.inited then Some((st, StoreUnreadable))
    else if w.LockBusy? && st.shared then Some((Inited(st), LockTimedOut))
    else if w.CannotRead? && st.shared then Some((Inited(st), StoreUnreadable))
    else None
  }

  /** `append`: one record is stored or not. */
  function AppendOutcome(c: Suite, st: State, e: Entry, now: string, w: World): (State, Result<Record, LogError>) {
    if Stopped(st, w).Some? then (Stopped(st, w).value.0, Err(Stopped(st, w).value.1))
    else
      var st := Refreshed(st);
      match NextRecord(c, st.who, st.last, e, now)
      case None => (st, Err(SealFailed))
      case Some(r) =>
        if w.StoresOnly? then (st, Err(StoreFailed))
        else (st.(store := st.store + [r], last := Some(r)), Ok(r))
  }

  /** How much of a batch gets stored: the storage base class writes one record at a time. */
  function Taken(rs: seq<Record>, w: World): seq<Record> {
    if w.StoresOnly? && w.n < |rs| then rs[..w.n] else rs
  }

  /** `append_many`: everything is sealed before the write; the tail moves only when all is stored. */
  function AppendManyOutcome(c: Suite, st: State, es: seq<Entry>, nows: seq<string>, w: World)
    : (State, Result<seq<Record>, LogError>)
    requires |es| == |nows|
  {
    if Stopped(st, w).Some? then (Stopped(st, w).value.0, Err(Stopped(st, w).value.1))
    else
      var st := Refreshed(st);
      match SealBatch(c, st.who, st.last, es, nows)
      case None => (st, Err(SealFailed))
      case Some(rs) =>
        if rs == [] then (st, Ok([]))
        else if w.StoresOnly? then (st.(store := st.store + Taken(rs, w)), Err(StoreFailed))
        else (st.(store := st.store + rs, last := Last(rs)), Ok(rs))
  }

  /** The record that documents a rotation, sealed with the key that is retired. */
  function RotationMarker(who: Identity, newKeyId: string, actor: string): Entry {
    Entry(actor, "key.rotate", "key:" + newKeyId,
          map["from_key_id" := if who.sealKey.Some? then Text(who.keyId) else Null,
              "to_key_id" := Text(newKeyId)],
          None)
  }

  /** `rotate`. */
  function RotateOutcome(c: Suite, st: State, newKey: Bytes, newKeyId: string, actor: string, now: string, w: World)
    : (State, Result<Record, LogError>)
  {
    if |newKey| < MIN_KEY_LENGTH then (st, Err(ShortKey))
    else
      var (st', r) := AppendOutcome(c, st, RotationMarker(st.who, newKeyId, actor), now, w);
      if r.Err? then (st', r)
      else (st'.(who := st'.who.(sealKey := Some(newKey), keyId := newKeyId),
                 keyring := st'.keyring[newKeyId := newKey]), r)
  }

  /** The keys `verify` checks with: the keyring with the current key, and the log's own signer
      next to those asked for. */
  function TrustOf(c: Suite, who: Identity, keyring: map<string, Bytes>, signers: map<string, Bytes>): Trust {
    var ring := if who.sealKey.Some? && who.keyId !in keyring
                then keyring[who.keyId := who.sealKey.value] else keyring;
    var required := if who.signingKey.Some? && who.signerId !in signers
                    then signers[who.signerId := c.publicKey(who.signingKey.value)] else signers;
    Trust(who.sealKey,
          if ring == map[] then None else Some(ring),
          if required == map[] then None else Some(required))
  }

  /** A read of the whole store: whether it fails, and the state it leaves. */
  predicate ReadFails(st: State, w: World) {
    (w.CannotOpen? && !st.inited) || w.CannotRead?
  }

  function AfterRead(st: State, w: World): State {
    if w.CannotOpen? && !st.inited then st else Inited(st)
  }

  /** `AuditLog.verify` over the records that are stored. */
  function VerifyLog(c: Suite, st: State, expected: Option<int>, cp: Option<Checkpoint>,
                     signers: map<string, Bytes>): Outcome
  {
    Verdict(c, TrustOf(c, st.who, st.keyring, signers), st.store, expected, cp)
  }

  /** `AuditLog.checkpoint`. */
  function TakeCheckpoint(c: Suite, st: State): Result<Checkpoint, LogError> {
    if st.store == [] then Err(EmptyLog)
    else match MerkleRoot(c.sha, Hashes(st.store))
      case None => Err(HashNotHex)
      case Some(root) =>
        Ok(Make(c, st.store[|st.store| - 1], st.who.sealKey, root, st.who.signingKey, st.who.signerId))
  }

  /** A log just opened: its own key is in its keyring. */
  function Opened(store: seq<Record>, who: Identity, keyring: map<string, Bytes>, shared: bool): State {
    State(store, None, who,
          if who.sealKey.Some? then keyring[who.keyId := who.sealKey.value] else keyring,
          shared, false)
  }

  // -------------------------------------------------------------- the class

  /** Append-only storage, as its base class defines it. */
  class Backend {
    var records: seq<Record>

    constructor ()
      ensures records == []
    {
      records := [];
    }

    /** One record is stored, or with `ok` false the call raises and it is not. */
    method Append(r: Record, ok: bool) returns (stored: bool)
      modifies this
      ensures stored == ok && records == if ok then old(records) + [r] else old(records)
    {
      stored := ok;
      if ok {
        records := records + [r];
      }
    }

    /** The default batch: one record at a time, until a write raises. */
    method AppendMany(rs: seq<Record>, w: World) returns (stored: bool)
      modifies this
      ensures stored <==> !w.StoresOnly?
      ensures records == old(records) + Taken(rs, w)
    {
      var n := |Taken(rs, w)|;
      for i := 0 to n
        invariant records == old(records) + rs[..i]
      {
        var ok := Append(rs[i], true);
        assert rs[..i] + [rs[i]] == rs[..i + 1];
      }
      assert rs[..n] == Taken(rs, w);
      stored := !w.StoresOnly?;
    }

    method LoadLast(ok: bool) returns (r: Result<Option<Record>, LogError>)
      ensures r == if ok then Ok(Last(records)) else Err(StoreUnreadable)
    {
      r := if ok then Ok(Last(records)) else Err(StoreUnreadable);
    }
  }

  /** The lock objects a caller may pass. */
  datatype LockKind = NoLock | SharedLock

  class AuditLog {
    const c: Suite
    const backend: Backend
    const signingKey: Option<Bytes>
    const signerId: string
    const shared: bool
    var sealKey: Option<Bytes>
    var keyId: string
    var keyring: map<string, Bytes>
    var last: Option<Record>
    var inited: bool

    function Who(): Identity
      reads this
    {
      Identity(sealKey, keyId, signingKey, signerId)
    }

    ghost function Model(): State
      reads this, backend
    {
      State(backend.records, last, Who(), keyring, shared, inited)
    }

    constructor (c: Suite, backend: Backend, who: Identity, keyring: map<string, Bytes>, shared: bool)
      ensures this.c == c && this.backend == backend
      ensures Model() == Opened(backend.records, who, keyring, shared)
    {
      this.c := c;
      this.backend := backend;
      this.signingKey, this.signerId := who.signingKey, who.signerId;
      this.shared := shared;
      this.sealKey, this.keyId := who.sealKey, who.keyId;
      this.keyring := if who.sealKey.Some? then keyring[who.keyId := who.sealKey.value] else keyring;
      this.last, this.inited := None, false;
    }

    /** The checks of `__init__`, in their order, and whether the log is shared. */
    static method Open(c: Suite, backend: Backend, who: Identity, keyring: map<string, Bytes>,
                       lock: Option<LockKind>, lockPath: Option<string>)
      returns (r: Result<AuditLog, LogError>)
      ensures var short := who.sealKey.Some? && |who.sealKey.value| < 16;
              var unnamed := who.signingKey.Some? && who.signerId == "";
              && (r == Err(ShortKey) <==> short)
              && (r == Err(EmptySignerId) <==> !short && unnamed)
              && (r == Err(TwoLocks) <==> !short && !unnamed && lock.Some? && lockPath.Some?)
              && (r.Err? ==> r.error.ShortKey? || r.error.EmptySignerId? || r.error.TwoLocks?)
      ensures r.Ok? ==> fresh(r.value) && r.value.c == c && r.value.backend == backend
                        && r.value.Model() == Opened(backend.records, who, keyring,
                                                     lock == Some(SharedLock) || OrEmpty(lockPath) != "")
    {
      if who.sealKey.Some? && |who.sealKey.value| < MIN_KEY_LENGTH {
        return Err(ShortKey);
      }
      if who.signingKey.Some? && who.signerId == "" {
        return Err(EmptySignerId);
      }
      if lock.Some? && lockPath.Some? {
        return Err(TwoLocks);
      }
      var chosen := if lock.Some? then lock.value else if OrEmpty(lockPath) != "" then SharedLock else NoLock;
      var log := new AuditLog(c, backend, who, keyring, chosen != NoLock);
      return Ok(log);
    }

    /** False when the store cannot be read. */
    method Init(w: World) returns (done: bool)
      modifies this`last, this`inited
      ensures done <==> old(inited) || !w.CannotOpen?
      ensures Model() == if done then Inited(old(Model())) else old(Model())
    {
      if !inited {
        var tail := backend.LoadLast(!w.CannotOpen?);
        if tail.Err? {
          return false;
        }
        last := tail.value;
        inited := true;
      }
      return true;
    }

    /** False when the tail cannot be read again. */
    method RefreshTail(w: World) returns (done: bool)
      modifies this`last
      ensures done <==> !(shared && w.CannotRead?)
      ensures Model() == old(Model()).(last := if shared && done then Last(backend.records) else old(last))
    {
      if shared {
        var tail := backend.LoadLast(!w.CannotRead?);
        if tail.Err? {
          return false;
        }
        last := tail.value;
      }
      return true;
    }

    /** Opening, taking the lock and reading the tail, which every append begins with. */
    method Prepare(w: World) returns (failure: Option<LogError>)
      modifies this`last, this`inited
      ensures match Stopped(old(Model()), w)
              case None => failure == None && Model() == Refreshed(old(Model()))
              case Some(stop) => failure == Some(stop.1) && Model() == stop.0
    {
      var ready := Init(w);
      if !ready {
        return Some(StoreUnreadable);
      }
      if shared && w.LockBusy? {
        return Some(LockTimedOut);
      }
      var read := RefreshTail(w);
      return if read then None else Some(StoreUnreadable);
    }

    method Append(e: Entry, now: string, w: World) returns (r: Result<Record, LogError>)
      modifies this`last, this`inited, backend
      ensures (Model(), r) == AppendOutcome(c, old(Model()), e, now, w)
    {
      var failure := Prepare(w);
      if failure.Some? {
        return Err(failure.value);
      }
      var sealed := NextRecord(c, Who(), last, e, now);
      if sealed.None? {
        return Err(SealFailed);
      }
      var ok := backend.Append(sealed.value, !w.StoresOnly?);
      if !ok {
        return Err(StoreFailed);
      }
      last := Some(sealed.value);
      return Ok(sealed.value);
    }

    /** The batch is sealed record by record, each onto the one before, and then written. */
    method AppendMany(es: seq<Entry>, nows: seq<string>, w: World) returns (r: Result<seq<Record>, LogError>)
      requires |es| == |nows|
      modifies this`last, this`inited, backend
      ensures (Model(), r) == AppendManyOutcome(c, old(Model()), es, nows, w)
    {
      var failure := Prepare(w);
      if failure.Some? {
        return Err(failure.value);
      }
      var batch := SealAll(c, Who(), last, es, nows);
      if batch.None? {
        return Err(SealFailed);
      }
      var sealed := batch.value;
      if sealed == [] {
        return Ok([]);
      }
      var ok := backend.AppendMany(sealed, w);
      if !ok {
        return Err(StoreFailed);
      }
      last := Last(sealed);
      return Ok(sealed);
    }

    method Rotate(newKey: Bytes, newKeyId: string, actor: string, now: string, w: World)
      returns (r: Result<Record, LogError>)
      modifies this, backend
      ensures (Model(), r) == RotateOutcome(c, old(Model()), newKey, newKeyId, actor, now, w)
    {
      if |newKey| < MIN_KEY_LENGTH {
        return Err(ShortKey);
      }
      r := Append(RotationMarker(Who(), newKeyId, actor), now, w);
      if r.Err? {
        return;
      }
      sealKey, keyId := Some(newKey), newKeyId;
      keyring := keyring[newKeyId := newKey];
    }

    /** `read`: opens the log if need be and loads every record. */
    method Read(w: World) returns (r: Result<seq<Record>, LogError>)
      modifies this`last, this`inited
      ensures Model() == AfterRead(old(Model()), w)
      ensures r == if ReadFails(old(Model()), w) then Err(StoreUnreadable) else Ok(backend.records)
    {
      var ready := Init(w);
      return if ready && !w.CannotRead? then Ok(backend.records) else Err(StoreUnreadable);
    }

    method Checkpoint(w: World) returns (r: Result<Checkpoint, LogError>)
      modifies this`last, this`inited
      ensures Model() == AfterRead(old(Model()), w)
      ensures r == if ReadFails(old(Model()), w) then Err(StoreUnreadable) else TakeCheckpoint(c, old(Model()))
    {
      var records := Read(w);
      if records.Err? {
        return Err(records.error);
      }
      if records.value == [] {
        return Err(EmptyLog);
      }
      var root := MerkleRoot(c.sha, Hashes(records.value));
      if root.None? {
        return Err(HashNotHex);
      }
      return Ok(Make(c, records.value[|records.value| - 1], sealKey, root.value, signingKey, signerId));
    }

    /** A store that cannot be read is reported, not raised. */
    method Verify(expected: Option<int>, cp: Option<Checkpoint>, signers: map<string, Bytes>, w: World)
      returns (out: Outcome)
      modifies this`last, this`inited
      ensures Model() == AfterRead(old(Model()), w)
      ensures out == if ReadFails(old(Model()), w) then Returned(VerifyReport(false, 0, None, Some(Unreadable), 0, ""))
                     else VerifyLog(c, old(Model()), expected, cp, signers)
    {
      var records := Read(w);
      if records.Err? {
        return Failed(0, None, Unreadable);
      }
      out := VerifyChain(c, TrustOf(c, Who(), keyring, signers), records.value, expected, cp);
    }
  }

  function Prefixed(xs: seq<Record>, ys: Option<seq<Record>>): Option<seq<Record>> {
    if ys.None? then None else Some(xs + ys.value)
  }

  lemma PrefixedAssoc(xs: seq<Record>, x: Record, ys: Option<seq<Record>>)
    ensures Prefixed(xs + [x], ys) == Prefixed(xs, Prefixed([x], ys))
  {
    if ys.Some? {
      assert xs + [x] + ys.value == xs + ([x] + ys.value);
    }
  }

  lemma PrefixedNothing(ys: Option<seq<Record>>)
    ensures Prefixed([], ys) == ys
  {
    if ys.Some? {
      assert [] + ys.value == ys.value;
    }
  }

  /** The loop of `append_many`: each record is sealed onto the one before it. */
  method SealAll(c: Suite, who: Identity, last: Option<Record>, es: seq<Entry>, nows: seq<string>)
    returns (batch: Option<seq<Record>>)
    requires |es| == |nows|
    ensures batch == SealBatch(c, who, last, es, nows)
  {
    var sealed: seq<Record>, prev := [], last;
    assert es[0..] == es && nows[0..] == nows;
    PrefixedNothing(SealBatch(c, who, last, es, nows));
    for i := 0 to |es|
      invariant SealBatch(c, who, last, es, nows)
                == Prefixed(sealed, SealBatch(c, who, prev, es[i..], nows[i..]))
    {
      var next := NextRecord(c, who, prev, es[i].(timestamp := None), nows[i]);
      assert es[i..][1..] == es[i + 1..] && nows[i..][1..] == nows[i + 1..];
      if next.None? {
        return None;
      }
      PrefixedAssoc(sealed, next.value, SealBatch(c, who, next, es[i + 1..], nows[i + 1..]));
      sealed, prev := sealed + [next.value], next;
    }
    assert sealed + [] == sealed;
    return Some(sealed);
  }
}
