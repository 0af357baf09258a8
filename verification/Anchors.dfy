/** `verify-proof`: an inclusion proof held against a published checkpoint or root. */
module Anchors {
  import opened Prelude
  import opened Encoding
  import opened Records
  import opened Crypto
  import opened Hashing
  import opened Merkle
  import opened MerkleTheorems
  import opened Checkpoints
  import opened Verify
  import opened VerifyTheorems
  import opened Log
  import opened Signatures

  datatype AnchorError =
    | NotLoaded(error: LoadError) | NoRootInCheckpoint | BeyondCheckpoint | SizeMismatch | NothingToCheckAgainst

  /** `_verify_proof`: a root given outright wins; a checkpoint also pins the size. */
  function VerifyProofAgainst(c: Suite, p: InclusionProof, root: Option<string>, file: Option<File>,
                              sealKey: Option<Bytes>, publicKey: Option<Bytes>): Result<bool, AnchorError>
  {
    if root.Some? then Ok(VerifyProof(c.sha, p, root))
    else if file.None? then Err(NothingToCheckAgainst)
    else match Load(c, file.value, sealKey, publicKey)
      case Err(e) => Err(NotLoaded(e))
      case Ok(cp) =>
        if cp.merkleRoot == "" then Err(NoRootInCheckpoint)
        else if p.index > cp.seqNo then Err(BeyondCheckpoint)
        else if p.size != cp.seqNo + 1 then Err(SizeMismatch)
        else Ok(VerifyProof(c.sha, p, Some(cp.merkleRoot)))
  }

  /** Exactly when `verify-proof` says yes to a file: it loads, has a root, is for as many records as the
      proof and does not end before it, and the proof verifies against that root. The errors come in
      this order. */
  lemma VerifyProofAgainstIff(c: Suite, p: InclusionProof, file: File, sealKey: Option<Bytes>, publicKey: Option<Bytes>)
    ensures var out := VerifyProofAgainst(c, p, None, Some(file), sealKey, publicKey);
            var loaded := Load(c, file, sealKey, publicKey).Ok?;
            var root := OrEmpty(file.merkleRoot);
            && (out == Ok(true) <==>
                  loaded && root != "" && p.index <= file.seqNo && p.size == file.seqNo + 1 && VerifyProof(c.sha, p, Some(root)))
            && (out.Err? && out.error.NotLoaded? <==> !loaded)
            && (out == Err(NoRootInCheckpoint) <==> loaded && root == "")
            && (out == Err(BeyondCheckpoint) <==> loaded && root != "" && p.index > file.seqNo)
            && (out == Err(SizeMismatch) <==> loaded && root != "" && p.index <= file.seqNo && p.size != file.seqNo + 1)
  {
    LoadsIff(c, file, sealKey, publicKey);
  }

  /** A root given outright is what counts, whatever file there is; with neither there is nothing to say. */
  lemma GivenRootWins(c: Suite, p: InclusionProof, root: string, file: Option<File>, sealKey: Option<Bytes>, publicKey: Option<Bytes>)
    ensures VerifyProofAgainst(c, p, Some(root), file, sealKey, publicKey) == Ok(VerifyProof(c.sha, p, Some(root)))
    ensures VerifyProofAgainst(c, p, None, None, sealKey, publicKey) == Err(NothingToCheckAgainst)
  {
  }

  /** The file anchors the end of the chain `rs`, as `AuditLog.checkpoint` makes it. */
  predicate AnchorsEndOf(c: Suite, file: File, rs: seq<Record>) {
    && rs != []
    && Read(file).seqNo == rs[|rs| - 1].seqNo
    && MerkleRoot(c.sha, Hashes(rs)) == Some(Read(file).merkleRoot)
  }

  lemma TakenCheckpointAnchors(c: Suite, st: State)
    requires TakeCheckpoint(c, st).Ok?
    ensures AnchorsEndOf(c, Save(TakeCheckpoint(c, st).value), st.store)
  {
  }

  /** An accepted proof folds to the very bytes of the root it was held against. */
  lemma AcceptedProofFolds(h: Hash, p: InclusionProof, hashes: seq<string>)
    requires MerkleRoot(h, hashes).Some? && VerifyProof(h, p, MerkleRoot(h, hashes))
    ensures FoldProof(h, p) == Ok(Root(h, DecodeAll(hashes).value))
  {
    var root := Root(h, DecodeAll(hashes).value);
    HexRoundTrip(root);
    LowerHexIsLower(ToHex(root));
    HexInjective(FoldProof(h, p).value, root);
  }

  /** The inputs hashed while an accepted proof is folded. */
  function ProofInputs(h: Hash, p: InclusionProof): set<Bytes> {
    match FromHex(p.leaf)
    case None => {}
    case Some(data) => ClimbInputs(h, data, p.path)
  }

  /**
   End to end: a proof accepted against the checkpoint of a valid chain is for the record at
   the index it claims, or two inputs hashed on the two sides collide.
   */
  lemma AcceptedProofPinsRecord(c: Suite, p: InclusionProof, file: File, sealKey: Option<Bytes>, publicKey: Option<Bytes>,
                                t: Trust, rs: seq<Record>)
    requires ValidChain(c, t, rs) && AnchorsEndOf(c, file, rs)
    requires VerifyProofAgainst(c, p, None, Some(file), sealKey, publicKey) == Ok(true)
    ensures 0 <= p.index < |rs| == p.size && FromHex(p.leaf).Some?
    ensures FromHex(p.leaf) == FromHex(rs[p.index].hash)
            || Collision(c.sha, ProofInputs(c.sha, p), ChainRootInputs(c, rs))
  {
    assert ValidAt(c, t, rs, |rs| - 1);
    AcceptedProofFolds(c.sha, p, Hashes(rs));
    ProofsPinPositionAtTrueSize(c.sha, p, DecodeAll(Hashes(rs)).value);
    assert FromHex(Hashes(rs)[p.index]) == Some(DecodeAll(Hashes(rs)).value[p.index]);
  }

  /** In particular against the saved checkpoint that a log whose records are a valid chain takes. */
  lemma ProofAgainstTakenCheckpoint(c: Suite, p: InclusionProof, st: State, t: Trust, sealKey: Option<Bytes>, publicKey: Option<Bytes>)
    requires ValidChain(c, t, st.store) && TakeCheckpoint(c, st).Ok?
    requires VerifyProofAgainst(c, p, None, Some(Save(TakeCheckpoint(c, st).value)), sealKey, publicKey) == Ok(true)
    ensures 0 <= p.index < |st.store| == p.size && FromHex(p.leaf).Some?
    ensures FromHex(p.leaf) == FromHex(st.store[p.index].hash)
            || Collision(c.sha, ProofInputs(c.sha, p), ChainRootInputs(c, st.store))
  {
    TakenCheckpointAnchors(c, st);
    AcceptedProofPinsRecord(c, p, Save(TakeCheckpoint(c, st).value), sealKey, publicKey, t, st.store);
  }

  /**
   And against any Ed25519-signed file at all: what `verify-proof` accepts with the public key of a
   log `w` is a proof for the record of `w` at the index it claims, or inputs collide, or the file's
   signature is forged. A lifted record signature does not get this far, since it has no root.
   */
  lemma AcceptedSignedProofPinsRecord(c: Suite, p: InclusionProof, file: File, sealKey: Option<Bytes>, publicKey: Bytes,
                                      t: Trust, w: seq<Record>, made: set<Checkpoint>)
    requires ValidChain(c, t, w) && AnchorsOf(c, w, made) && PlainIds(w, made)
    requires VerifyProofAgainst(c, p, None, Some(file), sealKey, Some(publicKey)) == Ok(true)
    requires OrEmpty(file.signatureEd25519) != ""
    ensures || ForgedFile(c, publicKey, file, made, Members(w))
            || (&& 0 <= p.index < p.size <= |w| && FromHex(p.leaf).Some?
                && (FromHex(p.leaf) == FromHex(w[p.index].hash)
                    || Collision(c.sha, ProofInputs(c.sha, p), ChainRootInputs(c, w[..p.size]))))
  {
    if !ForgedFile(c, publicKey, file, made, Members(w)) {
      SignedAnchorNeverLoadsUnverified(c, file, sealKey, Some(publicKey));
      LoadedRootedAnchorEndsPrefix(c, file, sealKey, publicKey, t, w, made);
      PrefixIsValid(c, t, w, p.size);
      AcceptedProofPinsRecord(c, p, file, sealKey, Some(publicKey), t, w[..p.size]);
    }
  }

  /** Hence a record shown with the proof has the hashed fields of the logged one. */
  lemma AcceptedProofPinsFields(c: Suite, p: InclusionProof, file: File, sealKey: Option<Bytes>, publicKey: Option<Bytes>,
                                t: Trust, rs: seq<Record>, shown: Record, key: Option<Bytes>)
    requires InjectivePayloads(c)
    requires ValidChain(c, t, rs) && AnchorsEndOf(c, file, rs)
    requires VerifyProofAgainst(c, p, None, Some(file), sealKey, publicKey) == Ok(true)
    requires |shown.prevHash| == 2 * DIGEST_LENGTH && RecordHash(c, shown, key) == Some(shown.hash)
    requires FromHex(shown.hash) == FromHex(p.leaf)
    ensures 0 <= p.index < |rs|
    ensures || SameFields(shown, rs[p.index])
            || Collision(c.sha, ProofInputs(c.sha, p), ChainRootInputs(c, rs))
            || RecordCollision(c, shown, key, rs[p.index], KeyFor(t, rs[p.index]))
  {
    AcceptedProofPinsRecord(c, p, file, sealKey, publicKey, t, rs);
    var logged := rs[p.index];
    assert ValidAt(c, t, rs, p.index);
    if FromHex(p.leaf) == FromHex(logged.hash) {
      HexRoundTrip(Seal(c, key, HashInput(c, shown).value));
      HexRoundTrip(Seal(c, KeyFor(t, logged), HashInput(c, logged).value));
      ValidPrevLength(c, t, rs, p.index);
      SameHashSamePayload(c, shown, key, logged, KeyFor(t, logged));
    }
  }

  /** Held against a bare root only membership is left: the claimed position says nothing. */
  lemma AcceptedProofAgainstRootIsMember(c: Suite, p: InclusionProof, t: Trust, rs: seq<Record>)
    requires ValidChain(c, t, rs) && MerkleRoot(c.sha, Hashes(rs)).Some?
    requires VerifyProofAgainst(c, p, MerkleRoot(c.sha, Hashes(rs)), None, None, None) == Ok(true)
    ensures || (exists i :: 0 <= i < |rs| && FromHex(rs[i].hash) == FromHex(p.leaf))
            || Collision(c.sha, ProofInputs(c.sha, p), ChainRootInputs(c, rs))
  {
    AcceptedProofFolds(c.sha, p, Hashes(rs));
    var datas := DecodeAll(Hashes(rs)).value;
    ProofsAreSound(c.sha, p, datas);
    if FromHex(p.leaf).value in datas {
      var i :| 0 <= i < |datas| && datas[i] == FromHex(p.leaf).value;
      assert FromHex(Hashes(rs)[i]) == FromHex(rs[i].hash);
    }
  }

  /** And every record of a valid chain has a proof that passes against its saved checkpoint. */
  lemma HonestProofPasses(c: Suite, st: State, t: Trust, i: nat)
    requires HonestSignatures(c) && ValidChain(c, t, st.store) && i < |st.store|
    ensures MerkleProof(c.sha, Hashes(st.store), i).Ok? && TakeCheckpoint(c, st).Ok?
    ensures var publicKey := if st.who.signingKey.Some? then Some(c.publicKey(st.who.signingKey.value)) else None;
            VerifyProofAgainst(c, MerkleProof(c.sha, Hashes(st.store), i).value, None,
                               Some(Save(TakeCheckpoint(c, st).value)), st.who.sealKey, publicKey) == Ok(true)
  {
    var rs := st.store;
    var last := rs[|rs| - 1];
    ValidHasRoot(c, t, rs);
    ProofsAreComplete(c.sha, Hashes(rs), i);
    SavedCheckpointLoads(c, last, st.who.sealKey, MerkleRoot(c.sha, Hashes(rs)).value, st.who.signingKey, st.who.signerId);
    assert ValidAt(c, t, rs, |rs| - 1);
  }
}
