/** What every run of one writer leaves behind: a chain that verifies, and exactly when not. */
module LogTheorems {
  import opened Prelude
  import opened Encoding
  import opened Records
  import opened Crypto
  import opened Hashing
  import opened Merkle
  import opened Checkpoints
  import opened Verify
  import opened VerifyTheorems
  import opened Log

  // ------------------------------------------------ who wrote which record

  /** `r` is what `who` seals right after `prev`. */
  predicate WrittenBy(c: Suite, who: Identity, prev: Option<Record>, r: Record) {
    && r.seqNo == (if prev.None? then 0 else prev.value.seqNo + 1)
    && r.prevHash == (if prev.None? then GENESIS_HASH else prev.value.hash)
    && r.keyId == (if who.sealKey.Some? then who.keyId else "")
    && RecordHash(c, r, who.sealKey) == Some(r.hash)
    && (who.signingKey.Some? ==>
          r.signerId == who.signerId && r.signature == SignHex(c, who.signingKey.value, SigningMessage(r)))
  }

  /** The record that `rs[i]` follows, when `rs` as a whole follows `prev`. */
  function Previous(prev: Option<Record>, rs: seq<Record>, i: nat): Option<Record>
    requires i <= |rs|
  {
    if i == 0 then prev else Some(rs[i - 1])
  }

  /** Every record was written by its author onto the record before it. */
  predicate ChainBy(c: Suite, authors: seq<Identity>, rs: seq<Record>) {
    && |authors| == |rs|
    && forall i {:trigger WrittenBy(c, authors[i], Previous(None, rs, i), rs[i])} ::
         0 <= i < |rs| ==> WrittenBy(c, authors[i], Previous(None, rs, i), rs[i])
  }

  function Copies<T>(x: T, n: nat): (xs: seq<T>)
    ensures |xs| == n && forall i :: 0 <= i < n ==> xs[i] == x
  {
    seq(n, _ => x)
  }

  lemma NextRecordIsWritten(c: Suite, who: Identity, prev: Option<Record>, e: Entry, now: string)
    requires NextRecord(c, who, prev, e, now).Some?
    ensures WrittenBy(c, who, prev, NextRecord(c, who, prev, e, now).value)
  {
    var draft, r := Build(who, e, now, prev), NextRecord(c, who, prev, e, now).value;
    assert PayloadOf(draft) == PayloadOf(r);
  }

  /** The record carries the entry's fields. */
  predicate Carries(r: Record, e: Entry) {
    && r.actor == e.actor && r.action == e.action && r.subject == e.subject && r.metadata == e.metadata
    && (e.timestamp.Some? && e.timestamp.value != "" ==> r.timestamp == e.timestamp.value)
  }

  /** Sealing fills in the hash and, for one who signs, the signature, and changes nothing else. */
  lemma SealingKeepsFields(c: Suite, who: Identity, r: Record)
    ensures SealRecord(c, who, r).Some? <==> HashInput(c, r).Some?
    ensures SealRecord(c, who, r).Some? ==>
              var s := SealRecord(c, who, r).value;
              s == r.(hash := s.hash, signature := if who.signingKey.Some? then s.signature else r.signature)
  {
  }

  /** A sealed record carries what its entry says, the clock's time where that says none, and no
      signature where nobody signs; it is missing exactly when its fields cannot be encoded. */
  lemma NextRecordCarries(c: Suite, who: Identity, prev: Option<Record>, e: Entry, now: string)
    ensures var time := if e.timestamp.None? || e.timestamp.value == "" then now else e.timestamp.value;
            var n, before := if prev.None? then 0 else prev.value.seqNo + 1, if prev.None? then GENESIS_HASH else prev.value.hash;
            var next := NextRecord(c, who, prev, e, now);
            && (next.Some? <==>
                  IsAscii(before) && c.canonical(Payload(n, time, e.actor, e.action, e.subject, e.metadata, before)).Some?)
            && (next.Some? ==>
                  && Carries(next.value, e) && next.value.timestamp == time
                  && (who.signingKey.None? ==> next.value.signerId == "" && next.value.signature == ""))
  {
    SealingKeepsFields(c, who, Build(who, e, now, prev));
  }

  /** A sealed batch is its first record and the rest sealed onto that. */
  lemma SealedBatchFirst(c: Suite, who: Identity, prev: Option<Record>, es: seq<Entry>, nows: seq<string>)
    returns (r: Record, rest: seq<Record>)
    requires |es| == |nows| && es != [] && SealBatch(c, who, prev, es, nows).Some?
    ensures NextRecord(c, who, prev, es[0].(timestamp := None), nows[0]) == Some(r)
    ensures SealBatch(c, who, Some(r), es[1..], nows[1..]) == Some(rest)
    ensures SealBatch(c, who, prev, es, nows) == Some([r] + rest) && |rest| == |es| - 1
  {
    r := NextRecord(c, who, prev, es[0].(timestamp := None), nows[0]).value;
    rest := SealBatch(c, who, Some(r), es[1..], nows[1..]).value;
  }

  /** Each record of a batch carries its own entry, at its own time. */
  lemma {:induction false} BatchCarries(c: Suite, who: Identity, prev: Option<Record>, es: seq<Entry>, nows: seq<string>, i: nat)
    requires |es| == |nows| && SealBatch(c, who, prev, es, nows).Some? && i < |es|
    ensures var r := SealBatch(c, who, prev, es, nows).value[i];
            && r.actor == es[i].actor && r.action == es[i].action
            && r.subject == es[i].subject && r.metadata == es[i].metadata && r.timestamp == nows[i]
    decreases |es|
  {
    var r, rest := SealedBatchFirst(c, who, prev, es, nows);
    if i == 0 {
      NextRecordCarries(c, who, prev, es[0].(timestamp := None), nows[0]);
    } else {
      BatchCarries(c, who, Some(r), es[1..], nows[1..], i - 1);
      assert ([r] + rest)[i] == rest[i - 1];
    }
  }

  /** Each of `rs` was written by `who` onto the one before it, the first onto `prev`. */
  predicate WrittenOnto(c: Suite, who: Identity, prev: Option<Record>, rs: seq<Record>) {
    forall i {:trigger WrittenBy(c, who, Previous(prev, rs, i), rs[i])} ::
      0 <= i < |rs| ==> WrittenBy(c, who, Previous(prev, rs, i), rs[i])
  }

  lemma AtConcat(authors: seq<Identity>, store: seq<Record>, who: Identity, rs: seq<Record>, i: nat)
    requires |authors| == |store| && i < |store| + |rs|
    ensures var n := |store|;
            && (authors + Copies(who, |rs|))[i] == (if i < n then authors[i] else who)
            && (store + rs)[i] == (if i < n then store[i] else rs[i - n])
            && Previous(None, store + rs, i)
               == (if i < n then Previous(None, store, i) else Previous(Last(store), rs, i - n))
  {
  }

  /** Records written by one author onto the tail extend the chain. */
  lemma WrittenRecordsExtendChain(c: Suite, who: Identity, authors: seq<Identity>, store: seq<Record>, rs: seq<Record>)
    requires ChainBy(c, authors, store) && WrittenOnto(c, who, Last(store), rs)
    ensures ChainBy(c, authors + Copies(who, |rs|), store + rs)
  {
    var n := |store|;
    forall i | 0 <= i < n + |rs|
      ensures WrittenBy(c, (authors + Copies(who, |rs|))[i], Previous(None, store + rs, i), (store + rs)[i])
    {
      AtConcat(authors, store, who, rs, i);
      if i < n {
        assert WrittenBy(c, authors[i], Previous(None, store, i), store[i]);
      } else {
        var j := i - n;
        assert WrittenBy(c, who, Previous(Last(store), rs, j), rs[j]);
      }
    }
  }

  lemma PreviousInRest(prev: Option<Record>, r: Record, rest: seq<Record>, i: nat)
    requires 0 < i <= |rest|
    ensures ([r] + rest)[i] == rest[i - 1] && Previous(prev, [r] + rest, i) == Previous(Some(r), rest, i - 1)
  {
  }

  lemma WrittenOntoCons(c: Suite, who: Identity, prev: Option<Record>, r: Record, rest: seq<Record>)
    requires WrittenBy(c, who, prev, r) && WrittenOnto(c, who, Some(r), rest)
    ensures WrittenOnto(c, who, prev, [r] + rest)
  {
    var rs := [r] + rest;
    forall i | 0 <= i < |rs|
      ensures WrittenBy(c, who, Previous(prev, rs, i), rs[i])
    {
      if i == 0 {
        assert rs[0] == r && Previous(prev, rs, 0) == prev;
      } else {
        PreviousInRest(prev, r, rest, i);
        assert WrittenBy(c, who, Previous(Some(r), rest, i - 1), rest[i - 1]);
      }
    }
  }

  lemma {:induction false} BatchIsWrittenOnto(c: Suite, who: Identity, prev: Option<Record>, es: seq<Entry>, nows: seq<string>)
    requires |es| == |nows| && SealBatch(c, who, prev, es, nows).Some?
    ensures WrittenOnto(c, who, prev, SealBatch(c, who, prev, es, nows).value)
    decreases |es|
  {
    if es != [] {
      var r, rest := SealedBatchFirst(c, who, prev, es, nows);
      NextRecordIsWritten(c, who, prev, es[0].(timestamp := None), nows[0]);
      BatchIsWrittenOnto(c, who, Some(r), es[1..], nows[1..]);
      WrittenOntoCons(c, who, prev, r, rest);
    }
  }

  lemma {:induction false} ChainByIsLinked(c: Suite, authors: seq<Identity>, rs: seq<Record>, i: nat)
    requires ChainBy(c, authors, rs) && i < |rs|
    ensures Linked(rs, i)
  {
    assert WrittenBy(c, authors[i], Previous(None, rs, i), rs[i]);
    if i > 0 {
      ChainByIsLinked(c, authors, rs, i - 1);
    }
  }

  /** The verifier finds, for every record, the key its author sealed it with. */
  predicate KeysResolve(t: Trust, authors: seq<Identity>, rs: seq<Record>)
    requires |authors| == |rs|
  {
    forall i {:trigger KeyFor(t, rs[i])} :: 0 <= i < |rs| ==> KeyFor(t, rs[i]) == authors[i].sealKey
  }

  /** If signatures are demanded, every author signs under an id that maps to its public key. */
  predicate SignersResolve(c: Suite, t: Trust, authors: seq<Identity>) {
    t.signers.Some? ==>
      forall i :: 0 <= i < |authors| ==>
        && authors[i].signingKey.Some?
        && authors[i].signerId in t.signers.value
        && t.signers.value[authors[i].signerId] == c.publicKey(authors[i].signingKey.value)
  }

  /** A chain written by its authors verifies with the keys that resolve them. */
  lemma WrittenChainIsValid(c: Suite, t: Trust, authors: seq<Identity>, rs: seq<Record>)
    requires HonestSignatures(c) && ChainBy(c, authors, rs)
    requires KeysResolve(t, authors, rs) && SignersResolve(c, t, authors)
    ensures ValidChain(c, t, rs)
  {
    forall i | 0 <= i < |rs|
      ensures ValidAt(c, t, rs, i)
    {
      ChainByIsLinked(c, authors, rs, i);
      assert WrittenBy(c, authors[i], Previous(None, rs, i), rs[i]);
      if t.signers.Some? {
        HonestSignatureHolds(c, authors[i].signingKey.value, SigningMessage(rs[i]));
      }
    }
  }

  // ------------------------------------------------------- one writer's log

  /** The trust `verify` uses when it is given no signers of its own. */
  function OwnTrust(c: Suite, st: State): Trust {
    TrustOf(c, st.who, st.keyring, map[])
  }

  /** If `who` signs, every author signs the same way. */
  predicate SignAlike(authors: seq<Identity>, who: Identity) {
    who.signingKey.Some? ==>
      forall i :: 0 <= i < |authors| ==>
        authors[i].signingKey == who.signingKey && authors[i].signerId == who.signerId
  }

  /** What every operation of a single writer keeps. */
  predicate Consistent(c: Suite, st: State, authors: seq<Identity>) {
    && ChainBy(c, authors, st.store)
    && (st.inited && !st.shared ==> st.last == Last(st.store))
    && (st.who.sealKey.Some? ==> st.who.keyId in st.keyring && st.keyring[st.who.keyId] == st.who.sealKey.value)
    && SignAlike(authors, st.who)
    && KeysResolve(OwnTrust(c, st), authors, st.store)
  }

  lemma OwnKeyFor(c: Suite, st: State, r: Record)
    requires st.who.sealKey.Some? ==> st.who.keyId in st.keyring
    ensures KeyFor(OwnTrust(c, st), r)
            == if r.keyId == "" then st.who.sealKey
               else if r.keyId in st.keyring then Some(st.keyring[r.keyId]) else None
  {
  }

  /** The key that `verify` looks up for a key id. */
  function KeyAsked(st: State, keyId: string): Option<Bytes> {
    if keyId == "" then st.who.sealKey
    else if keyId in st.keyring then Some(st.keyring[keyId])
    else if keyId == st.who.keyId then st.who.sealKey
    else None
  }

  /** The public key that `verify` looks up for a signer id: the caller's, or the log's own. */
  function SignerAsked(c: Suite, st: State, signers: map<string, Bytes>, signerId: string): Option<Bytes> {
    if signerId in signers then Some(signers[signerId])
    else if st.who.signingKey.Some? && signerId == st.who.signerId then Some(c.publicKey(st.who.signingKey.value))
    else None
  }

  /** Signatures are demanded once the caller names signers or the log signs. */
  predicate SignaturesAsked(st: State, signers: map<string, Bytes>) {
    signers != map[] || st.who.signingKey.Some?
  }

  lemma TrustLooksUp(c: Suite, st: State, signers: map<string, Bytes>, r: Record)
    ensures var t := TrustOf(c, st.who, st.keyring, signers);
            && KeyFor(t, r) == KeyAsked(st, r.keyId)
            && (t.signers.Some? <==> SignaturesAsked(st, signers))
            && (t.signers.Some? ==>
                  SignerAsked(c, st, signers, r.signerId)
                  == if r.signerId in t.signers.value then Some(t.signers.value[r.signerId]) else None)
  {
    var who := st.who;
    var ring := if who.sealKey.Some? && who.keyId !in st.keyring
                then st.keyring[who.keyId := who.sealKey.value] else st.keyring;
    assert r.keyId in ring ==> ring != map[];
    if who.signingKey.Some? {
      var required := if who.signerId !in signers
                      then signers[who.signerId := c.publicKey(who.signingKey.value)] else signers;
      assert who.signerId in required;
    }
  }

  /** What `verify` asks of the record at `i`, in terms of the log and the caller's signers only. */
  predicate PassesAt(c: Suite, st: State, signers: map<string, Bytes>, i: nat)
    requires i < |st.store|
  {
    var r := st.store[i];
    var key, signer := KeyAsked(st, r.keyId), SignerAsked(c, st, signers, r.signerId);
    && Linked(st.store, i)
    && (r.keyId != "" ==> key.Some?)
    && RecordHash(c, r, key) == Some(r.hash)
    && (SignaturesAsked(st, signers) ==>
          && r.signature != "" && signer.Some? && FromHex(r.signature).Some?
          && c.accepts(signer.value, FromHex(r.signature).value, Utf8(Dec(r.seqNo) + ":" + r.hash + ":" + r.signerId)))
  }

  /** Exactly what `AuditLog.verify` accepts, whatever signers the caller names. */
  lemma VerifyAcceptsIff(c: Suite, st: State, expected: Option<int>, cp: Option<Checkpoint>, signers: map<string, Bytes>)
    ensures Accepted(VerifyLog(c, st, expected, cp, signers)) <==>
            && (expected.Some? ==> |st.store| == expected.value)
            && (cp.Some? ==> MeetsAnchor(c, st.store, cp.value))
            && forall i :: 0 <= i < |st.store| ==> PassesAt(c, st, signers, i)
  {
    var t := TrustOf(c, st.who, st.keyring, signers);
    AcceptsExactlyValidChains(c, t, st.store, expected, cp);
    forall i | 0 <= i < |st.store|
      ensures ValidAt(c, t, st.store, i) <==> PassesAt(c, st, signers, i)
    {
      TrustLooksUp(c, st, signers, st.store[i]);
    }
  }

  /** A rule broken by the first record is reported with nothing checked. */
  lemma ReportedAtOnce(c: Suite, t: Trust, rs: seq<Record>, reason: Reason)
    requires rs != [] && rs[0].seqNo == 0 && Breaks(c, t, rs, 0, reason)
    ensures Verdict(c, t, rs, None, None) == Returned(VerifyReport(false, 0, Some(0), Some(reason), 0, ""))
  {
    ReasonsAreExact(c, t, rs, 0, reason);
  }

  /** An auditor who names signers is told of an unsigned log, although the log itself asks for none. */
  lemma UnsignedLogFailsForAuditor(c: Suite, st: State, authors: seq<Identity>, signers: map<string, Bytes>)
    requires HonestSignatures(c) && Consistent(c, st, authors) && st.store != [] && st.store[0].signature == ""
    requires signers != map[]
    ensures VerifyLog(c, st, None, None, signers)
            == Returned(VerifyReport(false, 0, Some(0), Some(MissingSignature), 0, ""))
  {
    ConsistentLogVerifies(c, st, authors);
    assert ValidAt(c, OwnTrust(c, st), st.store, 0);
    TrustLooksUp(c, st, map[], st.store[0]);
    TrustLooksUp(c, st, signers, st.store[0]);
    ReportedAtOnce(c, TrustOf(c, st.who, st.keyring, signers), st.store, MissingSignature);
  }

  /** A consistent log verifies, with every record counted and, if it signs, every signature. */
  lemma ConsistentLogVerifies(c: Suite, st: State, authors: seq<Identity>)
    requires HonestSignatures(c) && Consistent(c, st, authors)
    ensures ValidChain(c, OwnTrust(c, st), st.store)
    ensures MerkleRoot(c.sha, Hashes(st.store)).Some?
    ensures VerifyLog(c, st, Some(|st.store|), None, map[])
            == Returned(VerifyReport(true, |st.store|, None, None,
                                     if st.who.signingKey.Some? then |st.store| else 0,
                                     MerkleRoot(c.sha, Hashes(st.store)).value))
  {
    WrittenChainIsValid(c, OwnTrust(c, st), authors, st.store);
    AcceptsExactlyValidChains(c, OwnTrust(c, st), st.store, Some(|st.store|), None);
  }

  lemma RefreshKeepsConsistent(c: Suite, st: State, authors: seq<Identity>)
    requires Consistent(c, st, authors)
    ensures Consistent(c, Refreshed(st), authors) && Refreshed(st).last == Last(st.store)
    ensures Refreshed(st).store == st.store
  {
    assert OwnTrust(c, Refreshed(st)) == OwnTrust(c, st);
  }

  /** A record the current writer seals is resolved by the current keys. */
  lemma OwnRecordResolves(c: Suite, st: State, prev: Option<Record>, r: Record)
    requires st.who.sealKey.Some? ==> st.who.keyId in st.keyring && st.keyring[st.who.keyId] == st.who.sealKey.value
    requires WrittenBy(c, st.who, prev, r)
    ensures KeyFor(OwnTrust(c, st), r) == st.who.sealKey
  {
    OwnKeyFor(c, st, r);
  }

  lemma OwnRecordsResolve(c: Suite, st: State, prev: Option<Record>, rs: seq<Record>)
    requires st.who.sealKey.Some? ==> st.who.keyId in st.keyring && st.keyring[st.who.keyId] == st.who.sealKey.value
    requires WrittenOnto(c, st.who, prev, rs)
    ensures forall i :: 0 <= i < |rs| ==> KeyFor(OwnTrust(c, st), rs[i]) == st.who.sealKey
  {
    forall i | 0 <= i < |rs|
      ensures KeyFor(OwnTrust(c, st), rs[i]) == st.who.sealKey
    {
      OwnRecordResolves(c, st, Previous(prev, rs, i), rs[i]);
    }
  }

  lemma ResolvesConcat(t: Trust, authors: seq<Identity>, store: seq<Record>, who: Identity, rs: seq<Record>)
    requires |authors| == |store| && KeysResolve(t, authors, store)
    requires forall i :: 0 <= i < |rs| ==> KeyFor(t, rs[i]) == who.sealKey
    ensures KeysResolve(t, authors + Copies(who, |rs|), store + rs)
  {
  }

  lemma GrowthKeepsConsistent(c: Suite, st: State, authors: seq<Identity>, rs: seq<Record>, last: Option<Record>)
    requires Consistent(c, st, authors) && WrittenOnto(c, st.who, Last(st.store), rs)
    requires st.inited && !st.shared ==> last == Last(st.store + rs)
    ensures Consistent(c, st.(store := st.store + rs, last := last), authors + Copies(st.who, |rs|))
  {
    var st' := st.(store := st.store + rs, last := last);
    WrittenRecordsExtendChain(c, st.who, authors, st.store, rs);
    OwnRecordsResolve(c, st, Last(st.store), rs);
    ResolvesConcat(OwnTrust(c, st), authors, st.store, st.who, rs);
    assert OwnTrust(c, st') == OwnTrust(c, st);
  }

  lemma StoppingKeepsConsistent(c: Suite, st: State, authors: seq<Identity>, w: World)
    requires Consistent(c, st, authors) && Stopped(st, w).Some?
    ensures Consistent(c, Stopped(st, w).value.0, authors)
  {
    assert OwnTrust(c, Inited(st)) == OwnTrust(c, st);
  }

  lemma AppendKeepsConsistent(c: Suite, st: State, authors: seq<Identity>, e: Entry, now: string, w: World)
    returns (authors': seq<Identity>)
    requires Consistent(c, st, authors)
    ensures Consistent(c, AppendOutcome(c, st, e, now, w).0, authors')
    ensures AppendOutcome(c, st, e, now, w).1.Ok? ==> authors' == authors + Copies(st.who, 1)
  {
    authors' := authors;
    if Stopped(st, w).Some? {
      StoppingKeepsConsistent(c, st, authors, w);
    } else {
      RefreshKeepsConsistent(c, st, authors);
      var result := AppendOutcome(c, st, e, now, w).1;
      if result.Ok? {
        NextRecordIsWritten(c, st.who, Last(st.store), e, now);
        authors' := authors + Copies(st.who, 1);
        GrowthKeepsConsistent(c, Refreshed(st), authors, [result.value], Some(result.value));
      }
    }
  }

  /** A private log never has a batch stored in part. */
  predicate WholeOrShared(st: State, w: World) {
    w.StoresOnly? && w.n > 0 ==> st.shared
  }

  lemma PrefixIsWrittenOnto(c: Suite, who: Identity, prev: Option<Record>, rs: seq<Record>, n: nat)
    requires WrittenOnto(c, who, prev, rs) && n <= |rs|
    ensures WrittenOnto(c, who, prev, rs[..n])
  {
    forall i | 0 <= i < n
      ensures WrittenBy(c, who, Previous(prev, rs[..n], i), rs[..n][i])
    {
      assert WrittenBy(c, who, Previous(prev, rs, i), rs[i]);
    }
  }

  /** What is stored of a batch continues the chain; the tail is trusted only if it is current. */
  lemma StoredBatchIsConsistent(c: Suite, st: State, authors: seq<Identity>, rs: seq<Record>, w: World, last: Option<Record>)
    requires Consistent(c, st, authors) && WrittenOnto(c, st.who, Last(st.store), rs)
    requires st.inited && !st.shared ==> last == Last(st.store + Taken(rs, w))
    ensures Consistent(c, st.(store := st.store + Taken(rs, w), last := last), authors + Copies(st.who, |Taken(rs, w)|))
  {
    PrefixIsWrittenOnto(c, st.who, Last(st.store), rs, |Taken(rs, w)|);
    assert rs[..|Taken(rs, w)|] == Taken(rs, w);
    GrowthKeepsConsistent(c, st, authors, Taken(rs, w), last);
  }

  lemma AppendManyKeepsConsistent(c: Suite, st: State, authors: seq<Identity>, es: seq<Entry>, nows: seq<string>, w: World)
    returns (authors': seq<Identity>)
    requires |es| == |nows| && Consistent(c, st, authors) && WholeOrShared(st, w)
    ensures Consistent(c, AppendManyOutcome(c, st, es, nows, w).0, authors')
  {
    authors' := authors;
    if Stopped(st, w).Some? {
      StoppingKeepsConsistent(c, st, authors, w);
    } else {
      RefreshKeepsConsistent(c, st, authors);
      var batch := SealBatch(c, st.who, Last(st.store), es, nows);
      if batch.Some? && batch.value != [] {
        BatchIsWrittenOnto(c, st.who, Last(st.store), es, nows);
        var rs := batch.value;
        authors' := authors + Copies(st.who, |Taken(rs, w)|);
        StoredBatchIsConsistent(c, Refreshed(st), authors, rs, w,
                                if w.StoresOnly? then Refreshed(st).last else Last(rs));
      }
    }
  }

  // --------------------------------------------------------- how appends fail

  /** An append that fails stores nothing and changes no key; each failure has its one cause. */
  lemma AppendFailsIff(c: Suite, st: State, e: Entry, now: string, w: World)
    ensures var (st', result) := AppendOutcome(c, st, e, now, w);
            var stopped := (w.CannotOpen? && !st.inited) || (st.shared && (w.LockBusy? || w.CannotRead?));
            var tail := if st.shared || !st.inited then Last(st.store) else st.last;
            && (result == Err(StoreUnreadable) <==> (w.CannotOpen? && !st.inited) || (st.shared && w.CannotRead?))
            && (result == Err(LockTimedOut) <==> st.shared && w.LockBusy?)
            && (result == Err(SealFailed) <==> !stopped && NextRecord(c, st.who, tail, e, now).None?)
            && (result == Err(StoreFailed) <==> w.StoresOnly? && NextRecord(c, st.who, tail, e, now).Some?)
            && (result.Ok? ==> Some(result.value) == NextRecord(c, st.who, tail, e, now)
                               && st'.store == st.store + [result.value] && st'.last == Some(result.value))
            && (result.Err? ==> st'.store == st.store && (st'.last == st.last || st'.last == Last(st.store)))
            && st'.who == st.who && st'.keyring == st.keyring && st'.shared == st.shared
            && (st'.inited <==> st.inited || !w.CannotOpen?)
  {
  }

  /** So with a batch, which fails to seal as a whole; the empty batch succeeds and does nothing. */
  lemma AppendManyFailsIff(c: Suite, st: State, es: seq<Entry>, nows: seq<string>, w: World)
    requires |es| == |nows|
    ensures var (st', result) := AppendManyOutcome(c, st, es, nows, w);
            var stopped := (w.CannotOpen? && !st.inited) || (st.shared && (w.LockBusy? || w.CannotRead?));
            var tail := if st.shared || !st.inited then Last(st.store) else st.last;
            var batch := SealBatch(c, st.who, tail, es, nows);
            && (result == Err(StoreUnreadable) <==> (w.CannotOpen? && !st.inited) || (st.shared && w.CannotRead?))
            && (result == Err(LockTimedOut) <==> st.shared && w.LockBusy?)
            && (result == Err(SealFailed) <==> !stopped && batch.None?)
            && (result == Err(StoreFailed) <==> w.StoresOnly? && batch.Some? && es != [])
            && (result.Ok? ==> Some(result.value) == batch && st'.store == st.store + result.value
                               && st'.last == (if es == [] then tail else Last(result.value)))
            && (result.Err? ==>
                  && st'.last in {st.last, Last(st.store)}
                  && st'.store == if result == Err(StoreFailed) then st.store + batch.value[..if w.n < |es| then w.n else |es|]
                                  else st.store)
            && st'.who == st.who && st'.keyring == st.keyring && st'.shared == st.shared
  {
    var tail := if st.shared || !st.inited then Last(st.store) else st.last;
    assert Stopped(st, w).None? ==> Refreshed(st).last == tail;
    var batch := SealBatch(c, st.who, tail, es, nows);
    if batch.Some? {
      assert batch.value[..|es|] == batch.value;
      assert es == [] ==> st.store + batch.value == st.store;
    }
  }

  // ------------------------------------------------------------ a stale tail

  /** The cached tail stands for the store's end. */
  predicate TailIsCurrent(last: Option<Record>, store: seq<Record>) {
    if store == [] then last.None?
    else last.Some? && last.value.seqNo == |store| - 1 && last.value.hash == store[|store| - 1].hash
  }

  /** Without a lock, an append keeps the chain linked exactly when the cached tail is current. */
  lemma UnlockedAppendLinksIff(c: Suite, st: State, e: Entry, now: string)
    requires st.inited && !st.shared && AppendOutcome(c, st, e, now, AllWell).1.Ok?
    requires st.last.Some? ==> st.last.value.seqNo >= 0
    ensures Linked(AppendOutcome(c, st, e, now, AllWell).0.store, |st.store|) <==> TailIsCurrent(st.last, st.store)
  {
    NextRecordIsWritten(c, st.who, st.last, e, now);
  }

  /** The state after a batch of which the backend stored `n` records before it raised. */
  lemma PartialBatchLeavesStaleTail(c: Suite, st: State, authors: seq<Identity>, es: seq<Entry>, nows: seq<string>, n: nat)
    requires Consistent(c, st, authors) && |es| == |nows| && 0 < n <= |es| && !st.shared
    requires SealBatch(c, st.who, Refreshed(st).last, es, nows).Some?
    ensures var st' := AppendManyOutcome(c, st, es, nows, StoresOnly(n)).0;
            && st'.inited && !st'.shared && |st'.store| == |st.store| + n
            && st'.last == Last(st.store) && !TailIsCurrent(st'.last, st'.store)
            && (st'.last.Some? ==> st'.last.value.seqNo >= 0)
  {
    RefreshKeepsConsistent(c, st, authors);
    if st.store != [] {
      ChainByIsLinked(c, authors, st.store, |st.store| - 1);
    }
  }

  /** An append onto a tail that is not current leaves a log that does not verify. */
  lemma StaleTailBreaks(c: Suite, st: State, e: Entry, now: string)
    requires st.inited && !st.shared && !TailIsCurrent(st.last, st.store)
    requires st.last.Some? ==> st.last.value.seqNo >= 0
    requires AppendOutcome(c, st, e, now, AllWell).1.Ok?
    ensures !Accepted(VerifyLog(c, AppendOutcome(c, st, e, now, AllWell).0, None, None, map[]))
  {
    var next := AppendOutcome(c, st, e, now, AllWell).0;
    UnlockedAppendLinksIff(c, st, e, now);
    assert |next.store| == |st.store| + 1;
    assert !ValidAt(c, OwnTrust(c, next), next.store, |st.store|);
    AcceptsExactlyValidChains(c, OwnTrust(c, next), next.store, None, None);
  }

  /**
   A batch stored in part leaves a log that verifies. The next append keeps it so exactly when
   the log re-reads its tail, or nothing had been stored.
   */
  lemma PartialBatchIsHarmlessIff(c: Suite, st: State, authors: seq<Identity>, es: seq<Entry>, nows: seq<string>, n: nat,
                                  e: Entry, now: string)
    requires HonestSignatures(c) && Consistent(c, st, authors) && |es| == |nows| && n <= |es|
    requires SealBatch(c, st.who, Refreshed(st).last, es, nows).Some?
    requires AppendOutcome(c, AppendManyOutcome(c, st, es, nows, StoresOnly(n)).0, e, now, AllWell).1.Ok?
    ensures var st' := AppendManyOutcome(c, st, es, nows, StoresOnly(n)).0;
            && |st'.store| == |st.store| + n
            && Accepted(VerifyLog(c, st', None, None, map[]))
            && (Accepted(VerifyLog(c, AppendOutcome(c, st', e, now, AllWell).0, None, None, map[])) <==>
                  st.shared || n == 0)
  {
    var st' := AppendManyOutcome(c, st, es, nows, StoresOnly(n)).0;
    PartialBatchVerifies(c, st, authors, es, nows, n);
    var next := AppendOutcome(c, st', e, now, AllWell).0;
    if st.shared || n == 0 {
      var mid := AppendManyKeepsConsistent(c, st, authors, es, nows, StoresOnly(n));
      var after := AppendKeepsConsistent(c, st', mid, e, now, AllWell);
      AcceptedWhenConsistent(c, next, after);
    } else {
      PartialBatchLeavesStaleTail(c, st, authors, es, nows, n);
      StaleTailBreaks(c, st', e, now);
    }
  }

  lemma AcceptedWhenConsistent(c: Suite, st: State, authors: seq<Identity>)
    requires HonestSignatures(c) && Consistent(c, st, authors)
    ensures Accepted(VerifyLog(c, st, None, None, map[]))
  {
    ConsistentLogVerifies(c, st, authors);
    AcceptsExactlyValidChains(c, OwnTrust(c, st), st.store, None, None);
  }

  lemma PartialBatchVerifies(c: Suite, st: State, authors: seq<Identity>, es: seq<Entry>, nows: seq<string>, n: nat)
    requires HonestSignatures(c) && Consistent(c, st, authors) && |es| == |nows| && n <= |es|
    requires SealBatch(c, st.who, Refreshed(st).last, es, nows).Some?
    ensures var st' := AppendManyOutcome(c, st, es, nows, StoresOnly(n)).0;
            |st'.store| == |st.store| + n && Accepted(VerifyLog(c, st', None, None, map[]))
  {
    RefreshKeepsConsistent(c, st, authors);
    var rs := SealBatch(c, st.who, Last(st.store), es, nows).value;
    var st' := AppendManyOutcome(c, st, es, nows, StoresOnly(n)).0;
    BatchIsWrittenOnto(c, st.who, Last(st.store), es, nows);
    if rs != [] {
      var w := StoresOnly(n);
      assert Taken(rs, w) == rs[..n];
      var whole := Last(st.store + Taken(rs, w));
      StoredBatchIsConsistent(c, Refreshed(st), authors, rs, w, whole);
      var current := Refreshed(st).(store := st.store + Taken(rs, w), last := whole);
      AcceptedWhenConsistent(c, current, authors + Copies(st.who, |Taken(rs, w)|));
      assert OwnTrust(c, current) == OwnTrust(c, st');
    } else {
      AcceptedWhenConsistent(c, Refreshed(st), authors);
    }
  }

  // ------------------------------------------------------------ key rotation

  /** Key ids whose key `verify` looks up differently after a rotation. */
  predicate Reassigned(keyId: string, newKeyId: string) {
    keyId == "" || keyId == newKeyId
  }

  /** The log with its key replaced, nothing else. */
  function Rekeyed(st: State, newKey: Bytes, newKeyId: string): State {
    st.(who := st.who.(sealKey := Some(newKey), keyId := newKeyId), keyring := st.keyring[newKeyId := newKey])
  }

  lemma RekeyedKeyFor(c: Suite, st: State, r: Record, newKey: Bytes, newKeyId: string)
    requires st.who.sealKey.Some? ==> st.who.keyId in st.keyring
    ensures KeyFor(OwnTrust(c, Rekeyed(st, newKey, newKeyId)), r)
            == if Reassigned(r.keyId, newKeyId) then Some(newKey) else KeyFor(OwnTrust(c, st), r)
  {
    OwnKeyFor(c, st, r);
    OwnKeyFor(c, Rekeyed(st, newKey, newKeyId), r);
  }

  /** The rotation leaves the record's key alone, or the new key gives it the same hash. */
  predicate StaysSealed(c: Suite, st: State, r: Record, newKey: Bytes, newKeyId: string) {
    Reassigned(r.keyId, newKeyId) ==> SealsAlike(c, r, KeyFor(OwnTrust(c, st), r), Some(newKey))
  }

  predicate AllStaySealed(c: Suite, st: State, rs: seq<Record>, newKey: Bytes, newKeyId: string) {
    forall i {:trigger rs[i]} :: 0 <= i < |rs| ==> StaysSealed(c, st, rs[i], newKey, newKeyId)
  }

  lemma RekeyedRecordHoldsIff(c: Suite, st: State, r: Record, newKey: Bytes, newKeyId: string)
    requires st.who.sealKey.Some? ==> st.who.keyId in st.keyring
    requires Sealed(c, OwnTrust(c, st), r) && Signed(c, OwnTrust(c, st), r)
    ensures HoldsUnder(c, OwnTrust(c, st), OwnTrust(c, Rekeyed(st, newKey, newKeyId)), r)
            <==> StaysSealed(c, st, r, newKey, newKeyId)
  {
    var t, t' := OwnTrust(c, st), OwnTrust(c, Rekeyed(st, newKey, newKeyId));
    RekeyedKeyFor(c, st, r, newKey, newKeyId);
    assert t.signers == t'.signers;
    assert Signed(c, t', r);
  }

  lemma RekeyedLogIsValidIff(c: Suite, st: State, newKey: Bytes, newKeyId: string)
    requires st.who.sealKey.Some? ==> st.who.keyId in st.keyring
    requires ValidChain(c, OwnTrust(c, st), st.store)
    ensures ValidChain(c, OwnTrust(c, Rekeyed(st, newKey, newKeyId)), st.store) <==>
            AllStaySealed(c, st, st.store, newKey, newKeyId)
  {
    var t, t' := OwnTrust(c, st), OwnTrust(c, Rekeyed(st, newKey, newKeyId));
    AcceptedUnderOtherTrustIff(c, t, t', st.store);
    forall i | 0 <= i < |st.store|
      ensures HoldsUnder(c, t, t', st.store[i]) <==> StaysSealed(c, st, st.store[i], newKey, newKeyId)
    {
      assert ValidAt(c, t, st.store, i);
      RekeyedRecordHoldsIff(c, st, st.store[i], newKey, newKeyId);
    }
  }

  /** A successful rotation appends its marker under the old key and then changes only the keys. */
  lemma RotationIsAppendThenRekey(c: Suite, st: State, newKey: Bytes, newKeyId: string, actor: string, now: string, w: World)
    requires |newKey| >= MIN_KEY_LENGTH
    ensures var (mid, result) := AppendOutcome(c, st, RotationMarker(st.who, newKeyId, actor), now, w);
            RotateOutcome(c, st, newKey, newKeyId, actor, now, w)
            == (if result.Ok? then Rekeyed(mid, newKey, newKeyId) else mid, result)
  {
  }

  /** A rotation that succeeds appends one record that says so, sealed under the old key, and then
      seals under the new one and knows it by its id; one that fails changes nothing but the tail. */
  lemma RotationIsDocumented(c: Suite, st: State, newKey: Bytes, newKeyId: string, actor: string, now: string, w: World)
    ensures var (st', result) := RotateOutcome(c, st, newKey, newKeyId, actor, now, w);
            && (|newKey| < 16 <==> result == Err(ShortKey))
            && (result.Err? ==> st'.store == st.store && st'.who == st.who && st'.keyring == st.keyring)
            && (result.Ok? ==>
                  var r := result.value;
                  && st'.store == st.store + [r]
                  && r.actor == actor && r.action == "key.rotate" && r.subject == "key:" + newKeyId
                  && r.metadata == map["from_key_id" := if st.who.sealKey.Some? then Text(st.who.keyId) else Null,
                                       "to_key_id" := Text(newKeyId)]
                  && r.keyId == (if st.who.sealKey.Some? then st.who.keyId else "")
                  && RecordHash(c, r, st.who.sealKey) == Some(r.hash)
                  && st'.who == Identity(Some(newKey), newKeyId, st.who.signingKey, st.who.signerId)
                  && st'.keyring == st.keyring[newKeyId := newKey])
  {
    if |newKey| >= MIN_KEY_LENGTH {
      var marker := RotationMarker(st.who, newKeyId, actor);
      RotationIsAppendThenRekey(c, st, newKey, newKeyId, actor, now, w);
      AppendFailsIff(c, st, marker, now, w);
      var tail := if st.shared || !st.inited then Last(st.store) else st.last;
      if NextRecord(c, st.who, tail, marker, now).Some? {
        NextRecordIsWritten(c, st.who, tail, marker, now);
        NextRecordCarries(c, st.who, tail, marker, now);
      }
    }
  }

  /** The marker before it is sealed: all its hashed fields and its key id are known beforehand. */
  function MarkerDraft(st: State, newKeyId: string, actor: string, now: string): Record {
    Build(st.who, RotationMarker(st.who, newKeyId, actor), now, Last(st.store))
  }

  lemma MarkerIsItsDraftSealed(c: Suite, st: State, authors: seq<Identity>, newKey: Bytes, newKeyId: string,
                               actor: string, now: string)
    requires Consistent(c, st, authors)
    requires RotateOutcome(c, st, newKey, newKeyId, actor, now, AllWell).1.Ok?
    ensures var (st', result) := RotateOutcome(c, st, newKey, newKeyId, actor, now, AllWell);
            && st'.store == st.store + [result.value]
            && result.value.keyId == MarkerDraft(st, newKeyId, actor, now).keyId
            && HashInput(c, result.value) == HashInput(c, MarkerDraft(st, newKeyId, actor, now))
  {
    RefreshKeepsConsistent(c, st, authors);
    var (st', result) := RotateOutcome(c, st, newKey, newKeyId, actor, now, AllWell);
    assert PayloadOf(result.value) == PayloadOf(MarkerDraft(st, newKeyId, actor, now));
  }

  /** Records that are looked up and hashed alike stay sealed alike. */
  lemma StaySealedAlike(c: Suite, st: State, mid: State, rs: seq<Record>, r: Record, draft: Record, newKey: Bytes, newKeyId: string)
    requires OwnTrust(c, mid) == OwnTrust(c, st)
    requires r.keyId == draft.keyId && HashInput(c, r) == HashInput(c, draft)
    ensures AllStaySealed(c, mid, rs + [r], newKey, newKeyId) <==> AllStaySealed(c, st, rs + [draft], newKey, newKeyId)
  {
    assert StaysSealed(c, mid, r, newKey, newKeyId) <==> StaysSealed(c, st, draft, newKey, newKeyId);
    forall i | 0 <= i <= |rs|
      ensures StaysSealed(c, mid, (rs + [r])[i], newKey, newKeyId) <==> StaysSealed(c, st, (rs + [draft])[i], newKey, newKeyId)
    {
      assert i < |rs| ==> (rs + [r])[i] == rs[i] && (rs + [draft])[i] == rs[i];
    }
  }

  /**
   Exactly when a log verifies after a rotation, in terms of the log before it: every record
   without a key id, or with the id to be taken, the marker included, has the same seal under
   the key it is checked with now and under the new one.
   */
  lemma RotatedLogVerifiesIff(c: Suite, st: State, authors: seq<Identity>, newKey: Bytes, newKeyId: string,
                              actor: string, now: string)
    requires HonestSignatures(c) && Consistent(c, st, authors)
    requires RotateOutcome(c, st, newKey, newKeyId, actor, now, AllWell).1.Ok?
    ensures Accepted(VerifyLog(c, RotateOutcome(c, st, newKey, newKeyId, actor, now, AllWell).0, None, None, map[])) <==>
            AllStaySealed(c, st, st.store + [MarkerDraft(st, newKeyId, actor, now)], newKey, newKeyId)
  {
    var marker := RotationMarker(st.who, newKeyId, actor);
    var (mid, result) := AppendOutcome(c, st, marker, now, AllWell);
    var authors' := AppendKeepsConsistent(c, st, authors, marker, now, AllWell);
    ConsistentLogVerifies(c, mid, authors');
    RotationIsAppendThenRekey(c, st, newKey, newKeyId, actor, now, AllWell);
    MarkerIsItsDraftSealed(c, st, authors, newKey, newKeyId, actor, now);
    RekeyedLogIsValidIff(c, mid, newKey, newKeyId);
    AcceptsExactlyValidChains(c, OwnTrust(c, Rekeyed(mid, newKey, newKeyId)), mid.store, None, None);
    StaySealedAlike(c, st, mid, st.store, result.value, MarkerDraft(st, newKeyId, actor, now), newKey, newKeyId);
  }

  /** What a caller can check before `rotate`: whatever would be checked with the new key from then
      on, the marker included, was sealed with that very key. A log sealed under a named key, whose
      records all have key ids other than the new one, has nothing of the kind. */
  predicate SafeToRotate(c: Suite, st: State, newKey: Bytes, newKeyId: string) {
    && (forall i :: 0 <= i < |st.store| && Reassigned(st.store[i].keyId, newKeyId) ==>
          KeyFor(OwnTrust(c, st), st.store[i]) == Some(newKey))
    && (st.who.sealKey.None? || Reassigned(st.who.keyId, newKeyId) ==> st.who.sealKey == Some(newKey))
  }

  lemma UnsafeNeedsSameSeal(c: Suite, st: State, r: Record, newKey: Bytes, newKeyId: string)
    requires HashInput(c, r).Some?
    ensures Reassigned(r.keyId, newKeyId) && KeyFor(OwnTrust(c, st), r) != Some(newKey)
            && StaysSealed(c, st, r, newKey, newKeyId) ==>
              SealsAlike(c, r, KeyFor(OwnTrust(c, st), r), Some(newKey))
    ensures (Reassigned(r.keyId, newKeyId) ==> KeyFor(OwnTrust(c, st), r) == Some(newKey)) ==>
              StaysSealed(c, st, r, newKey, newKeyId)
  {
  }

  lemma SafeOrCoincidence(c: Suite, st: State, rs: seq<Record>, newKey: Bytes, newKeyId: string)
    requires forall i :: 0 <= i < |rs| ==> HashInput(c, rs[i]).Some?
    ensures (forall i :: 0 <= i < |rs| && Reassigned(rs[i].keyId, newKeyId) ==> KeyFor(OwnTrust(c, st), rs[i]) == Some(newKey))
            ==> AllStaySealed(c, st, rs, newKey, newKeyId)
    ensures AllStaySealed(c, st, rs, newKey, newKeyId) ==>
              || (forall i :: 0 <= i < |rs| && Reassigned(rs[i].keyId, newKeyId) ==> KeyFor(OwnTrust(c, st), rs[i]) == Some(newKey))
              || exists i :: 0 <= i < |rs| && KeyFor(OwnTrust(c, st), rs[i]) != Some(newKey)
                             && SealsAlike(c, rs[i], KeyFor(OwnTrust(c, st), rs[i]), Some(newKey))
  {
    forall i | 0 <= i < |rs|
      ensures Reassigned(rs[i].keyId, newKeyId) && KeyFor(OwnTrust(c, st), rs[i]) != Some(newKey)
              && StaysSealed(c, st, rs[i], newKey, newKeyId) ==>
                SealsAlike(c, rs[i], KeyFor(OwnTrust(c, st), rs[i]), Some(newKey))
      ensures (Reassigned(rs[i].keyId, newKeyId) ==> KeyFor(OwnTrust(c, st), rs[i]) == Some(newKey)) ==>
                StaysSealed(c, st, rs[i], newKey, newKeyId)
    {
      UnsafeNeedsSameSeal(c, st, rs[i], newKey, newKeyId);
    }
  }

  /** The guard is the same for every record to come, the marker included. */
  lemma SafeToRotateMeans(c: Suite, st: State, newKey: Bytes, newKeyId: string, actor: string, now: string)
    requires st.who.sealKey.Some? ==> st.who.keyId in st.keyring && st.keyring[st.who.keyId] == st.who.sealKey.value
    ensures var rs := st.store + [MarkerDraft(st, newKeyId, actor, now)];
            SafeToRotate(c, st, newKey, newKeyId) <==>
            forall i :: 0 <= i < |rs| && Reassigned(rs[i].keyId, newKeyId) ==> KeyFor(OwnTrust(c, st), rs[i]) == Some(newKey)
  {
    var draft := MarkerDraft(st, newKeyId, actor, now);
    var rs := st.store + [draft];
    OwnKeyFor(c, st, draft);
    assert rs[|st.store|] == draft;
    assert forall i :: 0 <= i < |st.store| ==> rs[i] == st.store[i];
  }

  /** A safe rotation keeps the log verifying; an unsafe one does so only where two keys, or a key
      and none, give some record one hash. */
  lemma SafeRotationVerifies(c: Suite, st: State, authors: seq<Identity>, newKey: Bytes, newKeyId: string,
                             actor: string, now: string)
    requires HonestSignatures(c) && Consistent(c, st, authors)
    requires RotateOutcome(c, st, newKey, newKeyId, actor, now, AllWell).1.Ok?
    ensures var rs := st.store + [MarkerDraft(st, newKeyId, actor, now)];
            var after := RotateOutcome(c, st, newKey, newKeyId, actor, now, AllWell).0;
            && (SafeToRotate(c, st, newKey, newKeyId) ==> Accepted(VerifyLog(c, after, None, None, map[])))
            && (Accepted(VerifyLog(c, after, None, None, map[])) ==>
                  || SafeToRotate(c, st, newKey, newKeyId)
                  || exists i :: 0 <= i < |rs| && KeyFor(OwnTrust(c, st), rs[i]) != Some(newKey)
                                 && SealsAlike(c, rs[i], KeyFor(OwnTrust(c, st), rs[i]), Some(newKey)))
  {
    var rs := st.store + [MarkerDraft(st, newKeyId, actor, now)];
    RotatedLogVerifiesIff(c, st, authors, newKey, newKeyId, actor, now);
    SafeToRotateMeans(c, st, newKey, newKeyId, actor, now);
    MarkerIsItsDraftSealed(c, st, authors, newKey, newKeyId, actor, now);
    AllHaveHashInput(c, st, authors);
    forall i | 0 <= i < |rs|
      ensures HashInput(c, rs[i]).Some?
    {
      assert i < |st.store| ==> rs[i] == st.store[i];
    }
    SafeOrCoincidence(c, st, rs, newKey, newKeyId);
  }

  lemma AllHaveHashInput(c: Suite, st: State, authors: seq<Identity>)
    requires Consistent(c, st, authors)
    ensures forall i :: 0 <= i < |st.store| ==> HashInput(c, st.store[i]).Some?
  {
    forall i | 0 <= i < |st.store|
      ensures HashInput(c, st.store[i]).Some?
    {
      assert WrittenBy(c, authors[i], Previous(None, st.store, i), st.store[i]);
    }
  }

  lemma OneStaysSealed(c: Suite, st: State, r: Record, newKey: Bytes, newKeyId: string)
    requires HashInput(c, r).Some? && Reassigned(r.keyId, newKeyId)
    ensures AllStaySealed(c, st, [r], newKey, newKeyId) <==>
            Seal(c, KeyFor(OwnTrust(c, st), r), HashInput(c, r).value) == c.hmac(newKey, HashInput(c, r).value)
  {
    assert AllStaySealed(c, st, [r], newKey, newKeyId) <==> StaysSealed(c, st, [r][0], newKey, newKeyId);
  }

  lemma OnlyTheMarker(c: Suite, st: State, authors: seq<Identity>, newKey: Bytes, newKeyId: string, actor: string, now: string)
    requires HonestSignatures(c) && Consistent(c, st, authors) && st.store == []
    requires RotateOutcome(c, st, newKey, newKeyId, actor, now, AllWell).1.Ok?
    requires st.who.sealKey.None? || Reassigned(st.who.keyId, newKeyId)
    ensures var input := HashInput(c, MarkerDraft(st, newKeyId, actor, now));
            && input.Some?
            && (Accepted(VerifyLog(c, RotateOutcome(c, st, newKey, newKeyId, actor, now, AllWell).0, None, None, map[])) <==>
                c.hmac(newKey, input.value) == Seal(c, st.who.sealKey, input.value))
  {
    var draft := MarkerDraft(st, newKeyId, actor, now);
    var rs := st.store + [draft];
    RotatedLogVerifiesIff(c, st, authors, newKey, newKeyId, actor, now);
    MarkerIsItsDraftSealed(c, st, authors, newKey, newKeyId, actor, now);
    OwnKeyFor(c, st, draft);
    assert rs == [draft];
    OneStaysSealed(c, st, draft, newKey, newKeyId);
  }

  /** Rotating an empty log that has no seal key breaks it, unless HMAC and plain SHA-256 agree
      on the marker. */
  lemma RotatingUnsealedLogBreaksIt(c: Suite, st: State, newKey: Bytes, newKeyId: string, actor: string, now: string)
    requires HonestSignatures(c) && Consistent(c, st, []) && st.who.sealKey.None?
    requires RotateOutcome(c, st, newKey, newKeyId, actor, now, AllWell).1.Ok?
    ensures var input := HashInput(c, MarkerDraft(st, newKeyId, actor, now));
            && input.Some?
            && (Accepted(VerifyLog(c, RotateOutcome(c, st, newKey, newKeyId, actor, now, AllWell).0, None, None, map[])) <==>
                c.hmac(newKey, input.value) == c.sha(input.value))
  {
    OnlyTheMarker(c, st, [], newKey, newKeyId, actor, now);
  }

  /** Rotating an empty log to the key id it already has breaks it, unless the two keys give the
      marker one HMAC. */
  lemma ReusingKeyIdBreaksIt(c: Suite, st: State, newKey: Bytes, actor: string, now: string)
    requires HonestSignatures(c) && Consistent(c, st, []) && st.who.sealKey.Some?
    requires RotateOutcome(c, st, newKey, st.who.keyId, actor, now, AllWell).1.Ok?
    ensures var input := HashInput(c, MarkerDraft(st, st.who.keyId, actor, now));
            && input.Some?
            && (Accepted(VerifyLog(c, RotateOutcome(c, st, newKey, st.who.keyId, actor, now, AllWell).0, None, None, map[])) <==>
                c.hmac(newKey, input.value) == c.hmac(st.who.sealKey.value, input.value))
  {
    OnlyTheMarker(c, st, [], newKey, st.who.keyId, actor, now);
  }

  lemma RekeyKeepsConsistent(c: Suite, st: State, authors: seq<Identity>, newKey: Bytes, newKeyId: string)
    requires Consistent(c, st, authors)
    requires forall i :: 0 <= i < |st.store| && Reassigned(st.store[i].keyId, newKeyId) ==>
               KeyFor(OwnTrust(c, st), st.store[i]) == Some(newKey)
    ensures Consistent(c, Rekeyed(st, newKey, newKeyId), authors)
  {
    forall i | 0 <= i < |st.store|
      ensures KeyFor(OwnTrust(c, Rekeyed(st, newKey, newKeyId)), st.store[i]) == authors[i].sealKey
    {
      RekeyedKeyFor(c, st, st.store[i], newKey, newKeyId);
      assert KeyFor(OwnTrust(c, st), st.store[i]) == authors[i].sealKey;
    }
  }

  /** A rotation that fails changes no key; one that succeeds keeps the invariant if it was safe. */
  lemma RotateKeepsConsistent(c: Suite, st: State, authors: seq<Identity>, newKey: Bytes, newKeyId: string,
                              actor: string, now: string, w: World)
    returns (authors': seq<Identity>)
    requires Consistent(c, st, authors)
    requires RotateOutcome(c, st, newKey, newKeyId, actor, now, w).1.Ok? ==> SafeToRotate(c, st, newKey, newKeyId)
    ensures Consistent(c, RotateOutcome(c, st, newKey, newKeyId, actor, now, w).0, authors')
  {
    authors' := authors;
    if |newKey| >= MIN_KEY_LENGTH {
      var marker := RotationMarker(st.who, newKeyId, actor);
      var (mid, result) := AppendOutcome(c, st, marker, now, w);
      authors' := AppendKeepsConsistent(c, st, authors, marker, now, w);
      RotationIsAppendThenRekey(c, st, newKey, newKeyId, actor, now, w);
      if result.Ok? {
        RefreshKeepsConsistent(c, st, authors);
        NextRecordIsWritten(c, st.who, Last(st.store), marker, now);
        OwnRecordResolves(c, st, Last(st.store), result.value);
        assert OwnTrust(c, mid) == OwnTrust(c, st) && mid.store == st.store + [result.value];
        RekeyKeepsConsistent(c, mid, authors', newKey, newKeyId);
      }
    }
  }

  // --------------------------------------------------------- opening it again

  /** The key that whoever opens a log with a key of its own and a keyring has for a key id: its own
      key for its own id and for none, the ring's for the others. */
  function RingKey(who: Identity, keyring: map<string, Bytes>, keyId: string): Option<Bytes> {
    if keyId == "" || (who.sealKey.Some? && keyId == who.keyId) then who.sealKey
    else if keyId in keyring then Some(keyring[keyId])
    else None
  }

  lemma OpenedLooksUp(c: Suite, store: seq<Record>, who: Identity, keyring: map<string, Bytes>, shared: bool, r: Record)
    ensures var st := Opened(store, who, keyring, shared);
            && st.store == store && st.who == who && st.shared == shared && !st.inited
            && KeyFor(OwnTrust(c, st), r) == RingKey(who, keyring, r.keyId)
            && (Signed(c, OwnTrust(c, st), r) <==> SignedAs(c, who, r))
  {
    var st := Opened(store, who, keyring, shared);
    OwnKeyFor(c, st, r);
  }

  /** If `who` signs, the record bears an acceptable signature under its id. */
  predicate SignedAs(c: Suite, who: Identity, r: Record) {
    who.signingKey.Some? ==>
      && r.signature != "" && r.signerId == who.signerId
      && SignatureHolds(c, r.signature, SigningMessage(r), c.publicKey(who.signingKey.value))
  }

  /** Whoever opens the log has a key for the record that gives it the same seal, and accepts its
      signature if it signs. */
  predicate HoldsFor(c: Suite, st: State, who: Identity, keyring: map<string, Bytes>, r: Record) {
    && (r.keyId != "" ==> RingKey(who, keyring, r.keyId).Some?)
    && SealsAlike(c, r, KeyAsked(st, r.keyId), RingKey(who, keyring, r.keyId))
    && SignedAs(c, who, r)
  }

  lemma HoldsForIsHoldsUnder(c: Suite, st: State, who: Identity, keyring: map<string, Bytes>, shared: bool, r: Record)
    ensures HoldsFor(c, st, who, keyring, r)
            <==> HoldsUnder(c, OwnTrust(c, st), OwnTrust(c, Opened(st.store, who, keyring, shared)), r)
  {
    OpenedLooksUp(c, st.store, who, keyring, shared, r);
    TrustLooksUp(c, st, map[], r);
  }

  /** Exactly when a log that verifies still does for whoever opens it next, with its own key and the
      keyring it brings. */
  lemma ReopenedLogVerifiesIff(c: Suite, st: State, authors: seq<Identity>, who: Identity, keyring: map<string, Bytes>, shared: bool)
    requires HonestSignatures(c) && Consistent(c, st, authors)
    ensures Accepted(VerifyLog(c, Opened(st.store, who, keyring, shared), None, None, map[])) <==>
            forall i :: 0 <= i < |st.store| ==> HoldsFor(c, st, who, keyring, st.store[i])
  {
    var t, t' := OwnTrust(c, st), OwnTrust(c, Opened(st.store, who, keyring, shared));
    ConsistentLogVerifies(c, st, authors);
    AcceptedUnderOtherTrustIff(c, t, t', st.store);
    AcceptsExactlyValidChains(c, t', st.store, None, None);
    forall i | 0 <= i < |st.store|
      ensures HoldsFor(c, st, who, keyring, st.store[i]) <==> HoldsUnder(c, t, t', st.store[i])
    {
      HoldsForIsHoldsUnder(c, st, who, keyring, shared, st.store[i]);
    }
  }

  /** The newcomer resolves every record's key as before, and if it signs, the records bear the
      signatures that it would have made. */
  predicate SafeToReopen(c: Suite, st: State, who: Identity, keyring: map<string, Bytes>) {
    forall i {:trigger st.store[i]} :: 0 <= i < |st.store| ==>
      && RingKey(who, keyring, st.store[i].keyId) == KeyAsked(st, st.store[i].keyId)
      && (who.signingKey.Some? ==>
            && st.store[i].signerId == who.signerId
            && st.store[i].signature == SignHex(c, who.signingKey.value, SigningMessage(st.store[i])))
  }

  /** The authors, as far as seals go, with the signing key of `who`. */
  function SigningLike(authors: seq<Identity>, who: Identity): (r: seq<Identity>)
    ensures |r| == |authors|
    ensures forall i :: 0 <= i < |r| ==>
      r[i] == if who.signingKey.None? then authors[i]
              else authors[i].(signingKey := who.signingKey, signerId := who.signerId)
  {
    seq(|authors|, i requires 0 <= i < |authors| =>
          if who.signingKey.None? then authors[i]
          else authors[i].(signingKey := who.signingKey, signerId := who.signerId))
  }

  lemma ReopenKeepsConsistent(c: Suite, st: State, authors: seq<Identity>, who: Identity, keyring: map<string, Bytes>, shared: bool)
    requires Consistent(c, st, authors) && SafeToReopen(c, st, who, keyring)
    ensures Consistent(c, Opened(st.store, who, keyring, shared), SigningLike(authors, who))
  {
    var st', authors' := Opened(st.store, who, keyring, shared), SigningLike(authors, who);
    forall i | 0 <= i < |st.store|
      ensures WrittenBy(c, authors'[i], Previous(None, st.store, i), st.store[i])
      ensures KeyFor(OwnTrust(c, st'), st.store[i]) == authors'[i].sealKey
    {
      assert WrittenBy(c, authors[i], Previous(None, st.store, i), st.store[i]);
      assert KeyFor(OwnTrust(c, st), st.store[i]) == authors[i].sealKey;
      OpenedLooksUp(c, st.store, who, keyring, shared, st.store[i]);
      TrustLooksUp(c, st, map[], st.store[i]);
    }
  }

  /** Opened again with its own key and its own keyring, a log verifies as before. */
  lemma OwnKeyringReopens(c: Suite, st: State, authors: seq<Identity>, shared: bool)
    requires HonestSignatures(c) && Consistent(c, st, authors)
    ensures SafeToReopen(c, st, st.who, st.keyring)
    ensures Accepted(VerifyLog(c, Opened(st.store, st.who, st.keyring, shared), None, None, map[]))
  {
    forall i | 0 <= i < |st.store|
      ensures RingKey(st.who, st.keyring, st.store[i].keyId) == KeyAsked(st, st.store[i].keyId)
      ensures st.who.signingKey.Some? ==>
                && st.store[i].signerId == st.who.signerId
                && st.store[i].signature == SignHex(c, st.who.signingKey.value, SigningMessage(st.store[i]))
    {
      assert WrittenBy(c, authors[i], Previous(None, st.store, i), st.store[i]);
    }
    ReopenKeepsConsistent(c, st, authors, st.who, st.keyring, shared);
    AcceptedWhenConsistent(c, Opened(st.store, st.who, st.keyring, shared), SigningLike(authors, st.who));
  }

  /** A log sealed under named keys and opened with a new key of another id verifies if the keyring that
      comes with it has the retired keys; if it lacks the first record's, that is what is reported. */
  lemma RetiredKeysMakeTheDifference(c: Suite, st: State, authors: seq<Identity>, newKey: Bytes, newKeyId: string,
                                     keyring: map<string, Bytes>, shared: bool)
    requires HonestSignatures(c) && Consistent(c, st, authors) && st.store != []
    requires forall i :: 0 <= i < |st.store| ==> st.store[i].keyId != "" && st.store[i].keyId != newKeyId
    ensures var who := st.who.(sealKey := Some(newKey), keyId := newKeyId);
            var out := VerifyLog(c, Opened(st.store, who, keyring, shared), None, None, map[]);
            && ((forall i :: 0 <= i < |st.store| ==>
                   st.store[i].keyId in keyring && Some(keyring[st.store[i].keyId]) == KeyAsked(st, st.store[i].keyId))
                ==> Accepted(out))
            && (st.store[0].keyId !in keyring ==>
                  out == Returned(VerifyReport(false, 0, Some(0), Some(UnknownKeyId), 0, "")))
  {
    var who := st.who.(sealKey := Some(newKey), keyId := newKeyId);
    var st' := Opened(st.store, who, keyring, shared);
    if forall i :: 0 <= i < |st.store| ==>
         st.store[i].keyId in keyring && Some(keyring[st.store[i].keyId]) == KeyAsked(st, st.store[i].keyId) {
      OwnKeyringReopens(c, st, authors, shared);
      ReopenKeepsConsistent(c, st, authors, who, keyring, shared);
      AcceptedWhenConsistent(c, st', SigningLike(authors, who));
    }
    if st.store[0].keyId !in keyring {
      ChainByIsLinked(c, authors, st.store, 0);
      OpenedLooksUp(c, st.store, who, keyring, shared, st.store[0]);
      ReportedAtOnce(c, OwnTrust(c, st'), st.store, UnknownKeyId);
    }
  }

  // ---------------------------------------------------------------- all runs

  datatype Op =
    | DoAppend(e: Entry, now: string, w: World)
    | DoAppendMany(es: seq<Entry>, nows: seq<string>, w: World)
    | DoRotate(newKey: Bytes, newKeyId: string, actor: string, now: string, w: World)
    | DoReopen(who: Identity, keyring: map<string, Bytes>, shared: bool)

  predicate WellFormed(op: Op) {
    op.DoAppendMany? ==> |op.es| == |op.nows|
  }

  function Do(c: Suite, st: State, op: Op): State
    requires WellFormed(op)
  {
    match op
    case DoAppend(e, now, w) => AppendOutcome(c, st, e, now, w).0
    case DoAppendMany(es, nows, w) => AppendManyOutcome(c, st, es, nows, w).0
    case DoRotate(newKey, newKeyId, actor, now, w) => RotateOutcome(c, st, newKey, newKeyId, actor, now, w).0
    case DoReopen(who, keyring, shared) => Opened(st.store, who, keyring, shared)
  }

  predicate AllWellFormed(ops: seq<Op>) {
    forall i :: 0 <= i < |ops| ==> WellFormed(ops[i])
  }

  function Run(c: Suite, st: State, ops: seq<Op>): State
    requires AllWellFormed(ops)
    decreases |ops|
  {
    if ops == [] then st else Run(c, Do(c, st, ops[0]), ops[1..])
  }

  /** What the caller, or the backend, has to see to before an operation. */
  predicate Careful(c: Suite, st: State, op: Op) {
    match op
    case DoAppend(_, _, _) => true
    case DoAppendMany(_, _, w) => WholeOrShared(st, w)
    case DoRotate(newKey, newKeyId, actor, now, w) =>
      RotateOutcome(c, st, newKey, newKeyId, actor, now, w).1.Ok? ==> SafeToRotate(c, st, newKey, newKeyId)
    case DoReopen(who, keyring, _) => SafeToReopen(c, st, who, keyring)
  }

  predicate CarefulRun(c: Suite, st: State, ops: seq<Op>)
    requires AllWellFormed(ops)
    decreases |ops|
  {
    ops == [] || (Careful(c, st, ops[0]) && CarefulRun(c, Do(c, st, ops[0]), ops[1..]))
  }

  lemma StepKeepsConsistent(c: Suite, st: State, authors: seq<Identity>, op: Op) returns (authors': seq<Identity>)
    requires WellFormed(op) && Consistent(c, st, authors) && Careful(c, st, op)
    ensures Consistent(c, Do(c, st, op), authors')
  {
    match op
    case DoAppend(e, now, w) =>
      authors' := AppendKeepsConsistent(c, st, authors, e, now, w);
    case DoAppendMany(es, nows, w) =>
      authors' := AppendManyKeepsConsistent(c, st, authors, es, nows, w);
    case DoRotate(newKey, newKeyId, actor, now, w) =>
      authors' := RotateKeepsConsistent(c, st, authors, newKey, newKeyId, actor, now, w);
    case DoReopen(who, keyring, shared) =>
      authors' := SigningLike(authors, who);
      ReopenKeepsConsistent(c, st, authors, who, keyring, shared);
  }

  lemma {:induction false} RunKeepsConsistent(c: Suite, st: State, authors: seq<Identity>, ops: seq<Op>)
    returns (authors': seq<Identity>)
    requires AllWellFormed(ops) && Consistent(c, st, authors) && CarefulRun(c, st, ops)
    ensures Consistent(c, Run(c, st, ops), authors')
    decreases |ops|
  {
    authors' := authors;
    if ops != [] {
      var mid := StepKeepsConsistent(c, st, authors, ops[0]);
      authors' := RunKeepsConsistent(c, Do(c, st, ops[0]), mid, ops[1..]);
    }
  }

  lemma CheckpointMeetsItsLog(c: Suite, st: State)
    requires st.store != [] && Linked(st.store, |st.store| - 1) && TakeCheckpoint(c, st).Ok?
    ensures TakeCheckpoint(c, st).value.seqNo == |st.store| - 1
    ensures MeetsAnchor(c, st.store, TakeCheckpoint(c, st).value)
  {
  }

  /** A checkpoint just taken from a consistent log is met by it. */
  lemma CheckpointJustTakenPasses(c: Suite, st: State, authors: seq<Identity>)
    requires HonestSignatures(c) && Consistent(c, st, authors) && st.store != []
    ensures TakeCheckpoint(c, st).Ok?
    ensures var cp := TakeCheckpoint(c, st).value;
            cp.seqNo == |st.store| - 1 && Accepted(VerifyLog(c, st, None, Some(cp), map[]))
  {
    ConsistentLogVerifies(c, st, authors);
    ChainByIsLinked(c, authors, st.store, |st.store| - 1);
    CheckpointMeetsItsLog(c, st);
    AcceptsExactlyValidChains(c, OwnTrust(c, st), st.store, None, Some(TakeCheckpoint(c, st).value));
  }

  lemma CheckpointFailsIff(c: Suite, st: State)
    ensures TakeCheckpoint(c, st) == Err(EmptyLog) <==> st.store == []
    ensures TakeCheckpoint(c, st) == Err(HashNotHex) <==> exists i :: 0 <= i < |st.store| && FromHex(st.store[i].hash).None?
    ensures TakeCheckpoint(c, st).Err? ==> TakeCheckpoint(c, st).error in {EmptyLog, HashNotHex}
  {
    if i :| 0 <= i < |st.store| && FromHex(st.store[i].hash).None? {
      assert FromHex(Hashes(st.store)[i]).None?;
    }
  }

  /** What a log's checkpoint says: the last record's values, the root over all records, and the
      signatures of the log's own keys over them. */
  lemma TakenCheckpointSays(c: Suite, st: State)
    requires TakeCheckpoint(c, st).Ok?
    ensures st.store != [] && MerkleRoot(c.sha, Hashes(st.store)).Some?
    ensures var cp, r, root := TakeCheckpoint(c, st).value, st.store[|st.store| - 1], MerkleRoot(c.sha, Hashes(st.store)).value;
            var text := Dec(r.seqNo) + ":" + r.hash + ":" + r.keyId + ":" + root;
            && cp.seqNo == r.seqNo && cp.hash == r.hash && cp.keyId == r.keyId && cp.timestamp == r.timestamp
            && cp.merkleRoot == root
            && (st.who.sealKey.Some? && st.who.sealKey.value != [] ==>
                  cp.signature == ToHex(c.hmac(st.who.sealKey.value, Utf8(text))))
            && (st.who.signingKey.Some? ==> cp.signatureEd25519 == ToHex(c.sign(st.who.signingKey.value, Utf8(text))))
            && (st.who.signingKey.None? ==> cp.signatureEd25519 == "")
            && (cp.signatureEd25519 != "" ==> cp.signerId == st.who.signerId)
  {
    var r, root := st.store[|st.store| - 1], MerkleRoot(c.sha, Hashes(st.store)).value;
    assert |root| == 2 * DIGEST_LENGTH;
    var text := Dec(r.seqNo) + ":" + r.hash + ":" + r.keyId;
    assert text + (":" + root) == text + ":" + root;
    MadeAnchorIsOfRecord(c, r, st.who.sealKey, root, st.who.signingKey, st.who.signerId);
  }

  /** The checkpoint of a log with a seal key and no signing key needs that key to load. */
  lemma CheckpointOfSealedLogIsSealed(c: Suite, st: State, publicKey: Option<Bytes>)
    requires TakeCheckpoint(c, st).Ok? && st.who.sealKey.Some? && st.who.sealKey.value != [] && st.who.signingKey.None?
    ensures var cp := TakeCheckpoint(c, st).value;
            && Load(c, Save(cp), None, publicKey) == Err(MissingSealKey)
            && Load(c, Save(cp), st.who.sealKey, publicKey) == Ok(cp)
  {
    var last, key := st.store[|st.store| - 1], st.who.sealKey.value;
    var root := MerkleRoot(c.sha, Hashes(st.store)).value;
    MadeAnchorIsOfRecord(c, last, Some(key), root, None, st.who.signerId);
    SealedAnchorNeedsItsKey(c, last, key, root, st.who.signerId, Save(TakeCheckpoint(c, st).value), publicKey);
  }

  /**
   Completeness of runs: whatever a new log has been through, appends, batches, safe rotations and
   safe reopenings in any order, with the world failing anywhere, it verifies with every record
   counted and, if it signs, every signature checked; and a checkpoint taken now is met.
   */
  lemma EveryRunVerifies(c: Suite, who: Identity, keyring: map<string, Bytes>, shared: bool, ops: seq<Op>)
    requires HonestSignatures(c)
    requires AllWellFormed(ops) && CarefulRun(c, Opened([], who, keyring, shared), ops)
    ensures var st := Run(c, Opened([], who, keyring, shared), ops);
            && MerkleRoot(c.sha, Hashes(st.store)).Some?
            && VerifyLog(c, st, Some(|st.store|), None, map[])
               == Returned(VerifyReport(true, |st.store|, None, None,
                                        if st.who.signingKey.Some? then |st.store| else 0,
                                        MerkleRoot(c.sha, Hashes(st.store)).value))
            && (st.store != [] ==>
                  && TakeCheckpoint(c, st).Ok?
                  && Accepted(VerifyLog(c, st, None, Some(TakeCheckpoint(c, st).value), map[])))
  {
    var st0 := Opened([], who, keyring, shared);
    var authors := RunKeepsConsistent(c, st0, [], ops);
    var st := Run(c, st0, ops);
    ConsistentLogVerifies(c, st, authors);
    if st.store != [] {
      CheckpointJustTakenPasses(c, st, authors);
    }
  }

  // ---------------------------------------------- a discipline that is careful

  /** Every stored record names its key. */
  predicate IdsNamed(rs: seq<Record>) {
    forall i :: 0 <= i < |rs| ==> rs[i].keyId != ""
  }

  /** One session that rotates only a log sealed under a named key, to a fresh named id. */
  predicate Disciplined(c: Suite, st: State, ops: seq<Op>)
    requires AllWellFormed(ops)
    decreases |ops|
  {
    ops == [] ||
    (&& (ops[0].DoAppendMany? ==> WholeOrShared(st, ops[0].w))
     && (ops[0].DoRotate? ==>
           && st.who.sealKey.Some? && st.who.keyId != ""
           && ops[0].newKeyId != "" && ops[0].newKeyId !in st.keyring)
     && !ops[0].DoReopen?
     && Disciplined(c, Do(c, st, ops[0]), ops[1..]))
  }

  /** A fresh key id is on no record of a consistent log. */
  lemma FreshIdIsUnused(c: Suite, st: State, authors: seq<Identity>, keyId: string, i: nat)
    requires Consistent(c, st, authors) && i < |st.store| && keyId != "" && keyId !in st.keyring
    ensures st.store[i].keyId != keyId
  {
    assert WrittenBy(c, authors[i], Previous(None, st.store, i), st.store[i]);
    assert KeyFor(OwnTrust(c, st), st.store[i]) == authors[i].sealKey;
    OwnKeyFor(c, st, st.store[i]);
  }

  lemma FreshIdIsSafe(c: Suite, st: State, authors: seq<Identity>, newKey: Bytes, newKeyId: string)
    requires Consistent(c, st, authors) && IdsNamed(st.store)
    requires st.who.sealKey.Some? && st.who.keyId != "" && newKeyId != "" && newKeyId !in st.keyring
    ensures SafeToRotate(c, st, newKey, newKeyId)
  {
    forall i | 0 <= i < |st.store|
      ensures !Reassigned(st.store[i].keyId, newKeyId)
    {
      FreshIdIsUnused(c, st, authors, newKeyId, i);
    }
  }

  lemma AppendKeepsIdsNamed(c: Suite, st: State, e: Entry, now: string, w: World)
    requires IdsNamed(st.store) && st.who.sealKey.Some? && st.who.keyId != ""
    ensures IdsNamed(AppendOutcome(c, st, e, now, w).0.store)
  {
    if NextRecord(c, st.who, Refreshed(st).last, e, now).Some? {
      NextRecordIsWritten(c, st.who, Refreshed(st).last, e, now);
    }
  }

  lemma AppendManyKeepsIdsNamed(c: Suite, st: State, es: seq<Entry>, nows: seq<string>, w: World)
    requires |es| == |nows| && IdsNamed(st.store) && st.who.sealKey.Some? && st.who.keyId != ""
    ensures IdsNamed(AppendManyOutcome(c, st, es, nows, w).0.store)
  {
    var prev := Refreshed(st).last;
    if SealBatch(c, st.who, prev, es, nows).Some? {
      var rs := SealBatch(c, st.who, prev, es, nows).value;
      BatchIsWrittenOnto(c, st.who, prev, es, nows);
      WrittenIdsAreNamed(c, st.who, prev, rs);
      IdsNamedConcat(st.store, rs, w);
    }
  }

  lemma WrittenIdsAreNamed(c: Suite, who: Identity, prev: Option<Record>, rs: seq<Record>)
    requires WrittenOnto(c, who, prev, rs) && who.sealKey.Some? && who.keyId != ""
    ensures IdsNamed(rs)
  {
    forall i | 0 <= i < |rs|
      ensures rs[i].keyId != ""
    {
      assert WrittenBy(c, who, Previous(prev, rs, i), rs[i]);
    }
  }

  lemma IdsNamedConcat(store: seq<Record>, rs: seq<Record>, w: World)
    requires IdsNamed(store) && IdsNamed(rs)
    ensures IdsNamed(store + rs) && IdsNamed(store + Taken(rs, w))
  {
  }

  lemma StepKeepsIdsNamed(c: Suite, st: State, op: Op)
    requires WellFormed(op) && !op.DoReopen?
    requires IdsNamed(st.store) && st.who.sealKey.Some? && st.who.keyId != ""
    ensures IdsNamed(Do(c, st, op).store)
  {
    match op
    case DoAppend(e, now, w) => AppendKeepsIdsNamed(c, st, e, now, w);
    case DoAppendMany(es, nows, w) => AppendManyKeepsIdsNamed(c, st, es, nows, w);
    case DoRotate(newKey, newKeyId, actor, now, w) =>
      if |newKey| >= MIN_KEY_LENGTH {
        RotationIsAppendThenRekey(c, st, newKey, newKeyId, actor, now, w);
        AppendKeepsIdsNamed(c, st, RotationMarker(st.who, newKeyId, actor), now, w);
      }
  }

  /** A log that is sealed under named keys has only named records. */
  predicate Named(st: State) {
    st.who.sealKey.Some? && st.who.keyId != "" ==> IdsNamed(st.store)
  }

  lemma StepKeepsNamed(c: Suite, st: State, op: Op)
    requires WellFormed(op) && Named(st) && Disciplined(c, st, [op])
    ensures Named(Do(c, st, op))
  {
    if st.who.sealKey.Some? && st.who.keyId != "" {
      StepKeepsIdsNamed(c, st, op);
    }
  }

  /** Sealed from the start under a named key, or never rotated, and a fresh id on every rotation:
      a caller who keeps to that is careful. */
  lemma {:induction false} DisciplinedRunsAreCareful(c: Suite, st: State, authors: seq<Identity>, ops: seq<Op>)
    requires AllWellFormed(ops) && Consistent(c, st, authors) && Named(st) && Disciplined(c, st, ops)
    ensures CarefulRun(c, st, ops)
    decreases |ops|
  {
    if ops != [] {
      var op := ops[0];
      if op.DoRotate? {
        FreshIdIsSafe(c, st, authors, op.newKey, op.newKeyId);
      }
      assert Disciplined(c, st, [op]);
      StepKeepsNamed(c, st, op);
      var mid := StepKeepsConsistent(c, st, authors, op);
      DisciplinedRunsAreCareful(c, Do(c, st, op), mid, ops[1..]);
    }
  }

  // -------------------------------------------------- a batch and its singles

  /** The same entries appended one by one, every write succeeding. */
  function AppendEach(c: Suite, st: State, es: seq<Entry>, nows: seq<string>): (State, Option<seq<Record>>)
    requires |es| == |nows|
    decreases |es|
  {
    if es == [] then (st, Some([]))
    else
      var (mid, first) := AppendOutcome(c, st, es[0].(timestamp := None), nows[0], AllWell);
      if first.Err? then (mid, None)
      else
        var (st', rest) := AppendEach(c, mid, es[1..], nows[1..]);
        (st', if rest.None? then None else Some([first.value] + rest.value))
  }

  /** What appending `rs` makes of a state. */
  function Grown(st: State, rs: seq<Record>): State {
    Refreshed(st).(store := st.store + rs, last := Last(rs))
  }

  lemma AppendOneGrows(c: Suite, st: State, e: Entry, now: string)
    requires NextRecord(c, st.who, Refreshed(st).last, e, now).Some?
    ensures var r := NextRecord(c, st.who, Refreshed(st).last, e, now).value;
            AppendOutcome(c, st, e, now, AllWell) == (Grown(st, [r]), Ok(r)) && Refreshed(Grown(st, [r])) == Grown(st, [r])
  {
  }

  lemma GrownTwice(st: State, r: Record, rest: seq<Record>)
    requires rest != []
    ensures Grown(Grown(st, [r]), rest) == Grown(st, [r] + rest)
  {
    assert st.store + [r] + rest == st.store + ([r] + rest);
    assert Last([r] + rest) == Last(rest);
  }

  lemma {:induction false} AppendEachIsBatch(c: Suite, st: State, es: seq<Entry>, nows: seq<string>)
    requires |es| == |nows| && es != [] && SealBatch(c, st.who, Refreshed(st).last, es, nows).Some?
    ensures var rs := SealBatch(c, st.who, Refreshed(st).last, es, nows).value;
            AppendEach(c, st, es, nows) == (Grown(st, rs), Some(rs))
    decreases |es|
  {
    var e, prev := es[0].(timestamp := None), Refreshed(st).last;
    var r := NextRecord(c, st.who, prev, e, nows[0]).value;
    AppendOneGrows(c, st, e, nows[0]);
    var mid := Grown(st, [r]);
    if |es| == 1 {
      assert SealBatch(c, st.who, Some(r), es[1..], nows[1..]) == Some([]);
      assert AppendEach(c, mid, es[1..], nows[1..]) == (mid, Some([]));
      assert [r] + [] == [r];
    } else {
      AppendEachIsBatch(c, mid, es[1..], nows[1..]);
      GrownTwice(st, r, SealBatch(c, st.who, Some(r), es[1..], nows[1..]).value);
    }
  }

  /** A batch leaves the same storage, tail and records as its entries appended one by one. */
  lemma BatchRefinesSingles(c: Suite, st: State, es: seq<Entry>, nows: seq<string>)
    requires |es| == |nows| && es != [] && SealBatch(c, st.who, Refreshed(st).last, es, nows).Some?
    ensures var (st', batch) := AppendManyOutcome(c, st, es, nows, AllWell);
            batch.Ok? && AppendEach(c, st, es, nows) == (st', Some(batch.value))
  {
    AppendEachIsBatch(c, st, es, nows);
  }

  /** A batch with an entry that cannot be sealed changes no record and leaves the tail that was
      just read, whatever the world does. */
  lemma FailedBatchChangesNothing(c: Suite, st: State, es: seq<Entry>, nows: seq<string>, w: World, i: nat)
    requires |es| == |nows| && i < |es| && Stopped(st, w).None?
    requires SealBatch(c, st.who, Refreshed(st).last, es[..i], nows[..i]).Some?
    requires var prefix := SealBatch(c, st.who, Refreshed(st).last, es[..i], nows[..i]).value;
             var prev := if i == 0 then Refreshed(st).last else Last(prefix);
             NextRecord(c, st.who, prev, es[i].(timestamp := None), nows[i]).None?
    ensures AppendManyOutcome(c, st, es, nows, w) == (Refreshed(st), Err(SealFailed))
    ensures Refreshed(st).store == st.store
  {
    var tail := Refreshed(st).last;
    UnsealableEntryStopsBatch(c, st.who, tail, es, nows, i, SealBatch(c, st.who, tail, es[..i], nows[..i]).value);
  }

  lemma {:induction false} UnsealableEntryStopsBatch(c: Suite, who: Identity, prev: Option<Record>, es: seq<Entry>, nows: seq<string>,
                                                     i: nat, prefix: seq<Record>)
    requires |es| == |nows| && i < |es|
    requires SealBatch(c, who, prev, es[..i], nows[..i]) == Some(prefix)
    requires NextRecord(c, who, if i == 0 then prev else Last(prefix), es[i].(timestamp := None), nows[i]).None?
    ensures SealBatch(c, who, prev, es, nows).None?
    decreases |es|
  {
    if i > 0 {
      var r, rest := SealedBatchFirst(c, who, prev, es[..i], nows[..i]);
      assert es[..i][1..] == es[1..][..i - 1] && nows[..i][1..] == nows[1..][..i - 1];
      assert i > 1 ==> Last([r] + rest) == Last(rest);
      UnsealableEntryStopsBatch(c, who, Some(r), es[1..], nows[1..], i - 1, rest);
    }
  }
}
