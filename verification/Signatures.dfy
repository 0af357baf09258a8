/**
 What an Ed25519 signature vouches for. A log's signing key signs two kinds of text, the messages of
 its checkpoints and those of its records; accepted anchors and accepted logs are traced back to
 them, or the signature that was accepted is shown to be forged.
 */
module Signatures {
  import opened Prelude
  import opened Encoding
  import opened Records
  import opened Crypto
  import opened Merkle
  import opened Checkpoints
  import opened Verify
  import opened VerifyTheorems
  import opened Log
  import opened LogTheorems

  /** The signature holds for a text that is the message of no anchor made and no record signed. */
  predicate Forged(c: Suite, publicKey: Bytes, signature: string, text: string, made: set<Checkpoint>, signed: set<Record>) {
    && SignatureHolds(c, signature, text, publicKey)
    && (forall cp :: cp in made ==> Utf8(text) != Utf8(MessageOf(cp)))
    && (forall r :: r in signed ==> Utf8(text) != Utf8(SigningMessage(r)))
  }

  // ------------------------------------------- a record's signature, lifted

  /** The anchor that a record's own signature is a signature of. */
  function RecordAsAnchor(r: Record): Checkpoint {
    Checkpoint(r.seqNo, r.hash, r.signerId, "", "", "", r.signerId, r.signature)
  }

  lemma RecordSignsAnchorMessage(r: Record)
    ensures SigningMessage(r) == MessageOf(RecordAsAnchor(r))
  {
  }

  /** Exactly when a record and an anchor sign the same bytes: the signer id is what follows
      seq:hash: in the anchor's message, which for a rootless anchor is its key id. */
  lemma RecordAndAnchorMessagesMeetIff(r: Record, cp: Checkpoint)
    requires NoColon(r.hash) && NoColon(cp.hash) && NoColon(cp.merkleRoot)
    ensures Utf8(SigningMessage(r)) == Utf8(MessageOf(cp)) <==>
            r.seqNo == cp.seqNo && r.hash == cp.hash && r.signerId == Tail(cp.keyId, cp.merkleRoot)
  {
    RecordSignsAnchorMessage(r);
    SameMessageIff(RecordAsAnchor(r), cp);
  }

  /** A file that lifts a record's signature loads exactly when the record's signature holds. */
  lemma LiftedSignatureLoadsIff(c: Suite, r: Record, sealKey: Option<Bytes>, publicKey: Bytes)
    requires r.signature != ""
    ensures Load(c, Save(RecordAsAnchor(r)), sealKey, Some(publicKey))
            == if SignatureHolds(c, r.signature, SigningMessage(r), publicKey) then Ok(RecordAsAnchor(r))
               else Err(SignatureMismatch)
  {
    RecordSignsAnchorMessage(r);
  }

  /** No anchor taken from a log is without a root. */
  lemma TakenAnchorsAreRooted(c: Suite, st: State)
    requires TakeCheckpoint(c, st).Ok?
    ensures TakeCheckpoint(c, st).value.merkleRoot != ""
  {
    assert |ToHex(Root(c.sha, DecodeAll(Hashes(st.store)).value))| == 2 * DIGEST_LENGTH;
  }

  /** Every record of a signing log is an anchor that loads with the log's public key and that the
      log meets, although no checkpoint that `AuditLog` takes is it. */
  lemma {:induction false} SignedRecordIsAnAnchor(c: Suite, st: State, authors: seq<Identity>, i: nat, sealKey: Option<Bytes>, taken: State)
    requires HonestSignatures(c) && Consistent(c, st, authors) && st.who.signingKey.Some? && i < |st.store|
    ensures var cp := RecordAsAnchor(st.store[i]);
            && Load(c, Save(cp), sealKey, Some(c.publicKey(st.who.signingKey.value))) == Ok(cp)
            && Accepted(VerifyLog(c, st, None, Some(cp), map[]))
            && TakeCheckpoint(c, taken) != Ok(cp)
  {
    var r, key := st.store[i], st.who.signingKey.value;
    assert WrittenBy(c, authors[i], Previous(None, st.store, i), r);
    HonestSignatureHolds(c, key, SigningMessage(r));
    LiftedSignatureLoadsIff(c, r, sealKey, c.publicKey(key));
    ChainByIsLinked(c, authors, st.store, i);
    ConsistentLogVerifies(c, st, authors);
    AcceptsExactlyValidChains(c, OwnTrust(c, st), st.store, None, Some(RecordAsAnchor(r)));
    if TakeCheckpoint(c, taken).Ok? {
      TakenAnchorsAreRooted(c, taken);
    }
  }

  // ------------------------------------------------ where an anchor came from

  function Colons(s: string): nat {
    if s == "" then 0 else (if s[0] == ':' then 1 else 0) + Colons(s[1..])
  }

  lemma {:induction false} ColonsConcat(a: string, b: string)
    ensures Colons(a + b) == Colons(a) + Colons(b)
  {
    if a == "" {
      assert a + b == b;
    } else {
      assert (a + b)[0] == a[0] && (a + b)[1..] == a[1..] + b;
      ColonsConcat(a[1..], b);
    }
  }

  lemma {:induction false} NoColonsIff(s: string)
    ensures NoColon(s) <==> Colons(s) == 0
  {
    if s != "" {
      NoColonsIff(s[1..]);
      assert s == [s[0]] + s[1..];
    }
  }

  lemma ColonsOfMessage(cp: Checkpoint)
    ensures Colons(MessageOf(cp)) == 2 + Colons(cp.hash) + Colons(cp.keyId)
                                     + if cp.merkleRoot == "" then 0 else 1 + Colons(cp.merkleRoot)
  {
    var n := Dec(cp.seqNo);
    DecHasNoColon(cp.seqNo);
    NoColonsIff(n);
    assert Colons(":") == 1 by {
      assert ":"[1..] == "";
    }
    ColonsConcat(n, ":");
    ColonsConcat(n + ":", cp.hash);
    ColonsConcat(n + ":" + cp.hash, ":");
    ColonsConcat(n + ":" + cp.hash + ":", cp.keyId);
    ColonsConcat(n + ":" + cp.hash + ":" + cp.keyId, ":");
    ColonsConcat(n + ":" + cp.hash + ":" + cp.keyId + ":", cp.merkleRoot);
  }

  predicate ColonFree(cp: Checkpoint) {
    NoColon(cp.hash) && NoColon(cp.keyId) && NoColon(cp.merkleRoot)
  }

  /** The four signed fields agree. */
  predicate SameAnchor(a: Checkpoint, b: Checkpoint) {
    a.seqNo == b.seqNo && a.hash == b.hash && a.keyId == b.keyId && a.merkleRoot == b.merkleRoot
  }

  /** An anchor with a root cannot have the bytes of a colon-free anchor unless it is that anchor. */
  lemma RootedMessageDecodes(cp: Checkpoint, origin: Checkpoint)
    requires ColonFree(origin) && cp.merkleRoot != ""
    requires Utf8(MessageOf(cp)) == Utf8(MessageOf(origin))
    ensures SameAnchor(cp, origin)
  {
    Utf8Injective(MessageOf(cp), MessageOf(origin));
    ColonsOfMessage(cp);
    ColonsOfMessage(origin);
    NoColonsIff(cp.hash);
    NoColonsIff(cp.keyId);
    NoColonsIff(cp.merkleRoot);
    NoColonsIff(origin.hash);
    NoColonsIff(origin.keyId);
    NoColonsIff(origin.merkleRoot);
    MessageDecodesUniquely(cp, origin);
  }

  /** What was signed when a signature holds and is not forged, as an anchor. */
  lemma GenuineTextHasOrigin(c: Suite, publicKey: Bytes, signature: string, text: string,
                             made: set<Checkpoint>, signed: set<Record>) returns (origin: Checkpoint)
    requires SignatureHolds(c, signature, text, publicKey) && !Forged(c, publicKey, signature, text, made, signed)
    ensures Utf8(text) == Utf8(MessageOf(origin))
    ensures origin in made || exists r :: r in signed && origin == RecordAsAnchor(r)
  {
    if made' :| made' in made && Utf8(text) == Utf8(MessageOf(made')) {
      origin := made';
    } else {
      var r :| r in signed && Utf8(text) == Utf8(SigningMessage(r));
      RecordSignsAnchorMessage(r);
      origin := RecordAsAnchor(r);
    }
  }

  /** The file's signature holds for no text that its key's owner signed. */
  predicate ForgedFile(c: Suite, publicKey: Bytes, f: File, made: set<Checkpoint>, signed: set<Record>) {
    Forged(c, publicKey, OrEmpty(f.signatureEd25519), MessageOf(Read(f)), made, signed)
  }

  lemma LoadedMeansHolds(c: Suite, f: File, sealKey: Option<Bytes>, publicKey: Bytes)
    requires Load(c, f, sealKey, Some(publicKey)).Ok? && OrEmpty(f.signatureEd25519) != ""
    ensures Load(c, f, sealKey, Some(publicKey)).value == Read(f)
    ensures SignatureHolds(c, OrEmpty(f.signatureEd25519), MessageOf(Read(f)), publicKey)
  {
    SignedAnchorNeverLoadsUnverified(c, f, sealKey, Some(publicKey));
  }

  /**
   An accepted Ed25519 anchor that carries a root has the four fields of an anchor that the signer
   made, whatever else the file says. One without a root may also be a signed record's
   (seq, hash, signer id). Otherwise its signature is a forgery.
   */
  lemma {:induction false} LoadedAnchorWasMade(c: Suite, f: File, sealKey: Option<Bytes>, publicKey: Bytes,
                            made: set<Checkpoint>, signed: set<Record>)
    requires Load(c, f, sealKey, Some(publicKey)).Ok? && OrEmpty(f.signatureEd25519) != ""
    requires forall cp :: cp in made ==> ColonFree(cp)
    requires forall r :: r in signed ==> NoColon(r.hash) && NoColon(r.signerId)
    ensures var cp := Load(c, f, sealKey, Some(publicKey)).value;
            || ForgedFile(c, publicKey, f, made, signed)
            || (&& (cp.merkleRoot != "" ==> exists origin :: origin in made && SameAnchor(cp, origin))
                && (cp.merkleRoot == "" && NoColon(cp.hash) && NoColon(cp.keyId) ==>
                      || (exists origin :: origin in made && SameAnchor(cp, origin))
                      || (exists r :: r in signed && SameAnchor(cp, RecordAsAnchor(r)))))
  {
    LoadedMeansHolds(c, f, sealKey, publicKey);
    var cp := Read(f);
    if !ForgedFile(c, publicKey, f, made, signed) {
      var origin := GenuineTextHasOrigin(c, publicKey, OrEmpty(f.signatureEd25519), MessageOf(cp), made, signed);
      assert ColonFree(origin);
      if cp.merkleRoot != "" {
        RootedMessageDecodes(cp, origin);
      } else if NoColon(cp.hash) && NoColon(cp.keyId) {
        MessageDecodesUniquely(cp, origin);
      }
    }
  }

  // ------------------------------------------------- a key that serves one log

  /** The anchor of the first `n` records, as `AuditLog.checkpoint` takes it. */
  predicate EndsAt(c: Suite, cp: Checkpoint, w: seq<Record>, n: nat) {
    && 0 < n <= |w|
    && cp.seqNo == w[n - 1].seqNo && cp.hash == w[n - 1].hash
    && MerkleRoot(c.sha, Hashes(w[..n])) == Some(cp.merkleRoot)
  }

  lemma TakenCheckpointEndsAt(c: Suite, st: State, w: seq<Record>, n: nat)
    requires n <= |w| && st.store == w[..n] && TakeCheckpoint(c, st).Ok?
    ensures EndsAt(c, TakeCheckpoint(c, st).value, w, n)
  {
    assert w[..n][n - 1] == w[n - 1];
  }

  function Members(w: seq<Record>): (rs: set<Record>)
    ensures forall r :: r in rs <==> r in w
  {
    set r | r in w
  }

  /** Every anchor made is that of a prefix of the log `w`. */
  ghost predicate AnchorsOf(c: Suite, w: seq<Record>, made: set<Checkpoint>) {
    forall cp :: cp in made ==> exists n: nat :: EndsAt(c, cp, w, n)
  }

  /** Whatever checkpoints a growing log has taken are anchors of its prefixes. */
  lemma TakenAreAnchorsOf(c: Suite, w: seq<Record>, states: set<State>)
    requires forall st :: st in states ==> st.store <= w
    ensures AnchorsOf(c, w, set st | st in states && TakeCheckpoint(c, st).Ok? :: TakeCheckpoint(c, st).value)
  {
    forall st | st in states && TakeCheckpoint(c, st).Ok?
      ensures exists n: nat :: EndsAt(c, TakeCheckpoint(c, st).value, w, n)
    {
      assert st.store == w[..|st.store|];
      TakenCheckpointEndsAt(c, st, w, |st.store|);
    }
  }

  lemma ValidHashIsColonFree(c: Suite, t: Trust, rs: seq<Record>, i: nat)
    requires ValidChain(c, t, rs) && i < |rs|
    ensures NoColon(rs[i].hash) && IsLowerHex(rs[i].hash) && rs[i].seqNo == i
  {
    assert ValidAt(c, t, rs, i);
    assert IsLowerHex(rs[i].hash);
  }

  /** Two messages with colon-free hashes agree on sequence number and hash, whatever follows. */
  lemma SameSeqAndHash(a: Checkpoint, b: Checkpoint)
    requires NoColon(a.hash) && NoColon(b.hash) && Utf8(MessageOf(a)) == Utf8(MessageOf(b))
    ensures a.seqNo == b.seqNo && a.hash == b.hash
  {
    Utf8Injective(MessageOf(a), MessageOf(b));
    MessageSplits(a.seqNo, a.hash, a.keyId, a.merkleRoot);
    MessageSplits(b.seqNo, b.hash, b.keyId, b.merkleRoot);
    var ta, tb := Tail(a.keyId, a.merkleRoot), Tail(b.keyId, b.merkleRoot);
    DecHasNoColon(a.seqNo);
    DecHasNoColon(b.seqNo);
    CutAtFirstColon(Dec(a.seqNo), a.hash + ":" + ta, Dec(b.seqNo), b.hash + ":" + tb);
    DecInjective(a.seqNo, b.seqNo);
    CutAtFirstColon(a.hash, ta, b.hash, tb);
  }

  lemma OriginNamesRecord(c: Suite, t: Trust, w: seq<Record>, made: set<Checkpoint>, origin: Checkpoint)
    requires ValidChain(c, t, w) && AnchorsOf(c, w, made)
    requires origin in made || exists r :: r in Members(w) && origin == RecordAsAnchor(r)
    ensures 0 <= origin.seqNo < |w| && w[origin.seqNo].hash == origin.hash && NoColon(origin.hash)
  {
    if origin in made {
      var n: nat :| EndsAt(c, origin, w, n);
      ValidHashIsColonFree(c, t, w, n - 1);
    } else {
      var r :| r in Members(w) && origin == RecordAsAnchor(r);
      var i :| 0 <= i < |w| && w[i] == r;
      ValidHashIsColonFree(c, t, w, i);
    }
  }

  /** A text seq:hash:... that was signed names the record of the log at that place. */
  lemma {:induction false} GenuineTextNamesRecord(c: Suite, publicKey: Bytes, t: Trust, w: seq<Record>, made: set<Checkpoint>,
                               signature: string, cp: Checkpoint)
    requires ValidChain(c, t, w) && AnchorsOf(c, w, made) && NoColon(cp.hash)
    requires SignatureHolds(c, signature, MessageOf(cp), publicKey)
    requires !Forged(c, publicKey, signature, MessageOf(cp), made, Members(w))
    ensures 0 <= cp.seqNo < |w| && w[cp.seqNo].hash == cp.hash
  {
    var origin := GenuineTextHasOrigin(c, publicKey, signature, MessageOf(cp), made, Members(w));
    OriginNamesRecord(c, t, w, made, origin);
    SameSeqAndHash(cp, origin);
  }

  /** The first `n` records have the same hashed fields and hashes. */
  predicate AgreeUpTo(a: seq<Record>, b: seq<Record>, n: nat) {
    n <= |a| && n <= |b| &&
    forall i :: 0 <= i < n ==> SameFields(a[i], b[i]) && a[i].hash == b[i].hash
  }

  lemma SameHashAgrees(c: Suite, t: Trust, a: seq<Record>, t': Trust, w: seq<Record>, s: nat)
    requires InjectivePayloads(c) && ValidChain(c, t, a) && ValidChain(c, t', w)
    requires s < |a| && s < |w| && a[s].hash == w[s].hash
    ensures HistoriesCollide(c, t, a, |a|, t', w, |w|) || AgreeUpTo(a, w, s + 1)
  {
    TailHashPinsHistory(c, t, a, s, t', w, s);
  }

  /** Some record of the log bears a forged signature. */
  predicate ForgedRecord(c: Suite, t: Trust, log: seq<Record>, made: set<Checkpoint>, signed: set<Record>)
    requires t.signers.Some?
  {
    exists i :: 0 <= i < |log| && log[i].signerId in t.signers.value
                && Forged(c, t.signers.value[log[i].signerId], log[i].signature, SigningMessage(log[i]), made, signed)
  }

  /**
   A holder of every seal key cannot rewrite a signed log: where the required signers have signed
   nothing but records of `w` and anchors of its prefixes, an accepted log is a prefix of `w` in all
   hashed fields, or sealed inputs collide, or it bears a forged signature.
   */
  lemma {:induction false} SignedLogIsPrefix(c: Suite, t: Trust, log: seq<Record>, expected: Option<int>, cp: Option<Checkpoint>,
                          t': Trust, w: seq<Record>, made: set<Checkpoint>)
    requires InjectivePayloads(c) && ValidChain(c, t', w) && AnchorsOf(c, w, made) && t.signers.Some?
    requires Accepted(Verdict(c, t, log, expected, cp))
    ensures || ForgedRecord(c, t, log, made, Members(w))
            || HistoriesCollide(c, t, log, |log|, t', w, |w|)
            || AgreeUpTo(log, w, |log|)
  {
    AcceptsExactlyValidChains(c, t, log, expected, cp);
    if log != [] && !ForgedRecord(c, t, log, made, Members(w)) {
      var last := |log| - 1;
      var r := log[last];
      assert ValidAt(c, t, log, last);
      ValidHashIsColonFree(c, t, log, last);
      RecordSignsAnchorMessage(r);
      GenuineTextNamesRecord(c, t.signers.value[r.signerId], t', w, made, r.signature, RecordAsAnchor(r));
      SameHashAgrees(c, t, log, t', w, last);
    }
  }

  /**
   A signed anchor keeps history: a log accepted against any Ed25519 anchor that loads, lifted ones
   included, starts with the records of the signer's log up to the anchor's, or inputs collide, or
   the anchor is forged.
   */
  lemma {:induction false} AnchoredLogKeepsHistory(c: Suite, f: File, sealKey: Option<Bytes>, publicKey: Bytes,
                                t: Trust, log: seq<Record>, expected: Option<int>,
                                t': Trust, w: seq<Record>, made: set<Checkpoint>)
    requires InjectivePayloads(c) && ValidChain(c, t', w) && AnchorsOf(c, w, made)
    requires Load(c, f, sealKey, Some(publicKey)).Ok? && OrEmpty(f.signatureEd25519) != ""
    requires Accepted(Verdict(c, t, log, expected, Some(Load(c, f, sealKey, Some(publicKey)).value)))
    ensures || ForgedFile(c, publicKey, f, made, Members(w))
            || HistoriesCollide(c, t, log, |log|, t', w, |w|)
            || (0 <= f.seqNo < |w| && AgreeUpTo(log, w, f.seqNo + 1))
  {
    LoadedMeansHolds(c, f, sealKey, publicKey);
    AcceptsExactlyValidChains(c, t, log, expected, Some(Read(f)));
    ValidHashIsColonFree(c, t, log, if f.seqNo < 0 then f.seqNo + |log| else f.seqNo);
    if !ForgedFile(c, publicKey, f, made, Members(w)) {
      GenuineTextNamesRecord(c, publicKey, t', w, made, OrEmpty(f.signatureEd25519), Read(f));
      SameHashAgrees(c, t, log, t', w, f.seqNo);
    }
  }

  // ----------------------------------------------------- and with a root

  lemma PrefixIsValid(c: Suite, t: Trust, rs: seq<Record>, n: nat)
    requires ValidChain(c, t, rs) && n <= |rs|
    ensures ValidChain(c, t, rs[..n])
  {
    ValidIffNoFault(c, t, rs);
    ValidUpTo(c, t, rs, n);
  }

  /** The identifiers that the key signed, which its owner chose, have no colons. */
  predicate PlainIds(w: seq<Record>, made: set<Checkpoint>) {
    && (forall i :: 0 <= i < |w| ==> NoColon(w[i].signerId))
    && (forall cp :: cp in made ==> NoColon(cp.keyId))
  }

  lemma SignedTextsAreColonFree(c: Suite, t: Trust, w: seq<Record>, made: set<Checkpoint>)
    requires ValidChain(c, t, w) && PlainIds(w, made) && AnchorsOf(c, w, made)
    ensures forall cp :: cp in made ==> ColonFree(cp)
    ensures forall r :: r in Members(w) ==> NoColon(r.hash) && NoColon(r.signerId)
  {
    forall cp | cp in made
      ensures ColonFree(cp)
    {
      var n: nat :| EndsAt(c, cp, w, n);
      ValidHashIsColonFree(c, t, w, n - 1);
      HexRoundTrip(Root(c.sha, DecodeAll(Hashes(w[..n])).value));
      assert IsLowerHex(cp.merkleRoot);
    }
    forall r | r in Members(w)
      ensures NoColon(r.hash) && NoColon(r.signerId)
    {
      var i :| 0 <= i < |w| && w[i] == r;
      ValidHashIsColonFree(c, t, w, i);
    }
  }

  lemma LoadedRootedAnchorHasOrigin(c: Suite, f: File, sealKey: Option<Bytes>, publicKey: Bytes,
                                    made: set<Checkpoint>, signed: set<Record>) returns (origin: Checkpoint)
    requires Load(c, f, sealKey, Some(publicKey)).Ok? && OrEmpty(f.signatureEd25519) != "" && OrEmpty(f.merkleRoot) != ""
    requires !ForgedFile(c, publicKey, f, made, signed)
    requires forall cp :: cp in made ==> ColonFree(cp)
    requires forall r :: r in signed ==> NoColon(r.hash) && NoColon(r.signerId)
    ensures origin in made && SameAnchor(Read(f), origin)
  {
    LoadedMeansHolds(c, f, sealKey, publicKey);
    LoadedAnchorWasMade(c, f, sealKey, publicKey, made, signed);
    origin :| origin in made && SameAnchor(Read(f), origin);
  }

  lemma RootedOriginEndsPrefix(c: Suite, t: Trust, w: seq<Record>, made: set<Checkpoint>, cp: Checkpoint, origin: Checkpoint)
    requires ValidChain(c, t, w) && AnchorsOf(c, w, made)
    requires origin in made && SameAnchor(cp, origin)
    ensures 0 <= cp.seqNo < |w| && EndsAt(c, cp, w, cp.seqNo + 1)
  {
    var n: nat :| EndsAt(c, origin, w, n);
    ValidHashIsColonFree(c, t, w, n - 1);
  }

  lemma {:induction false} LoadedRootedAnchorIsAnchorOf(c: Suite, f: File, sealKey: Option<Bytes>, publicKey: Bytes,
                                     t: Trust, w: seq<Record>, made: set<Checkpoint>) returns (origin: Checkpoint)
    requires Load(c, f, sealKey, Some(publicKey)).Ok? && OrEmpty(f.signatureEd25519) != "" && OrEmpty(f.merkleRoot) != ""
    requires ValidChain(c, t, w) && AnchorsOf(c, w, made) && PlainIds(w, made)
    requires !ForgedFile(c, publicKey, f, made, Members(w))
    ensures origin in made && SameAnchor(Read(f), origin)
  {
    SignedTextsAreColonFree(c, t, w, made);
    origin := LoadedRootedAnchorHasOrigin(c, f, sealKey, publicKey, made, Members(w));
  }

  /** A rooted Ed25519 anchor that loads and is not forged ends the prefix of the log that it says. */
  lemma {:induction false} LoadedRootedAnchorEndsPrefix(c: Suite, f: File, sealKey: Option<Bytes>, publicKey: Bytes,
                                     t: Trust, w: seq<Record>, made: set<Checkpoint>)
    requires Load(c, f, sealKey, Some(publicKey)).Ok? && OrEmpty(f.signatureEd25519) != "" && OrEmpty(f.merkleRoot) != ""
    requires ValidChain(c, t, w) && AnchorsOf(c, w, made) && PlainIds(w, made)
    requires !ForgedFile(c, publicKey, f, made, Members(w))
    ensures var cp := Read(f); 0 <= cp.seqNo < |w| && EndsAt(c, cp, w, cp.seqNo + 1)
  {
    var origin := LoadedRootedAnchorIsAnchorOf(c, f, sealKey, publicKey, t, w, made);
    var cp := Read(f);
    RootedOriginEndsPrefix(c, t, w, made, cp, origin);
  }

  lemma AgreeWithPrefix(a: seq<Record>, w: seq<Record>, n: nat)
    requires n <= |w| && AgreeUpTo(a, w[..n], n)
    ensures AgreeUpTo(a, w, n)
  {
    assert forall i :: 0 <= i < n ==> w[..n][i] == w[i];
  }

  lemma {:induction false} PrefixAnchorPinsLog(c: Suite, t: Trust, log: seq<Record>, expected: Option<int>, cp: Checkpoint,
                            t': Trust, w: seq<Record>, n: nat)
    requires InjectivePayloads(c) && ValidChain(c, t', w) && EndsAt(c, cp, w, n) && cp.merkleRoot != ""
    requires Accepted(Verdict(c, t, log, expected, Some(cp)))
    ensures || Collision(c.sha, ChainRootInputs(c, log), ChainRootInputs(c, w[..n]))
            || HistoriesCollide(c, t, log, |log|, t', w[..n], n)
            || (|log| == n && AgreeUpTo(log, w[..n], n))
  {
    PrefixIsValid(c, t', w, n);
    RootedAnchorPinsLog(c, t, log, expected, cp, t', w[..n]);
  }

  /** A log accepted against a rooted Ed25519 anchor is exactly the anchored prefix of the signer's
      log, neither truncated nor extended nor rewritten, or inputs collide, or the anchor is forged. */
  lemma {:induction false} SignedRootPinsLog(c: Suite, f: File, sealKey: Option<Bytes>, publicKey: Bytes,
                          t: Trust, log: seq<Record>, expected: Option<int>,
                          t': Trust, w: seq<Record>, made: set<Checkpoint>)
    requires InjectivePayloads(c) && ValidChain(c, t', w) && AnchorsOf(c, w, made) && PlainIds(w, made)
    requires Load(c, f, sealKey, Some(publicKey)).Ok? && OrEmpty(f.signatureEd25519) != "" && OrEmpty(f.merkleRoot) != ""
    requires Accepted(Verdict(c, t, log, expected, Some(Load(c, f, sealKey, Some(publicKey)).value)))
    ensures || ForgedFile(c, publicKey, f, made, Members(w))
            || (&& 0 <= f.seqNo < |w|
                && var n := f.seqNo + 1;
                   || Collision(c.sha, ChainRootInputs(c, log), ChainRootInputs(c, w[..n]))
                   || HistoriesCollide(c, t, log, |log|, t', w[..n], n)
                   || (|log| == n && AgreeUpTo(log, w, n)))
  {
    if !ForgedFile(c, publicKey, f, made, Members(w)) {
      LoadedMeansHolds(c, f, sealKey, publicKey);
      LoadedRootedAnchorEndsPrefix(c, f, sealKey, publicKey, t', w, made);
      var n := f.seqNo + 1;
      PrefixAnchorPinsLog(c, t, log, expected, Read(f), t', w, n);
      if AgreeUpTo(log, w[..n], n) {
        AgreeWithPrefix(log, w, n);
      }
    }
  }
}
