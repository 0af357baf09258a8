/** What an accepted chain is, where a rejected one breaks, and what its hashes pin. */
module VerifyTheorems {
  import opened Prelude
  import opened Encoding
  import opened Records
  import opened Crypto
  import opened Hashing
  import opened Merkle
  import opened MerkleTheorems
  import opened Checkpoints
  import opened Verify

  // ------------------------------------------ the declarative chain rules

  /** In its place, linked to the record before it. */
  predicate Linked(rs: seq<Record>, i: nat)
    requires i < |rs|
  {
    rs[i].seqNo == i && rs[i].prevHash == if i == 0 then GENESIS_HASH else rs[i - 1].hash
  }

  /** Sealed with a key the verifier knows for it. */
  predicate Sealed(c: Suite, t: Trust, r: Record) {
    && (r.keyId != "" ==> KeyFor(t, r).Some?)
    && RecordHash(c, r, KeyFor(t, r)) == Some(r.hash)
  }

  /** Signed by a known signer, when signers are demanded. */
  predicate Signed(c: Suite, t: Trust, r: Record) {
    t.signers.Some? ==>
      && r.signature != ""
      && r.signerId in t.signers.value
      && SignatureHolds(c, r.signature, SigningMessage(r), t.signers.value[r.signerId])
  }

  predicate ValidAt(c: Suite, t: Trust, rs: seq<Record>, i: nat)
    requires i < |rs|
  {
    Linked(rs, i) && Sealed(c, t, rs[i]) && Signed(c, t, rs[i])
  }

  predicate ValidChain(c: Suite, t: Trust, rs: seq<Record>) {
    forall i :: 0 <= i < |rs| ==> ValidAt(c, t, rs, i)
  }

  /** Where the anchor points, as Python indexes. */
  function AnchorAt(rs: seq<Record>, cp: Checkpoint): int {
    if cp.seqNo < 0 then cp.seqNo + |rs| else cp.seqNo
  }

  predicate AnchorIsThere(rs: seq<Record>, cp: Checkpoint) {
    0 <= AnchorAt(rs, cp) < |rs| && rs[AnchorAt(rs, cp)].hash == cp.hash
  }

  /** The anchor's record is there and unchanged, and so is the root over everything. A negative
      position counts from the end, as Python indexes. */
  predicate MeetsAnchor(c: Suite, rs: seq<Record>, cp: Checkpoint) {
    && AnchorIsThere(rs, cp)
    && (cp.merkleRoot != "" ==> MerkleRoot(c.sha, Hashes(rs)) == Some(cp.merkleRoot))
  }

  lemma ValidIsFaultless(c: Suite, t: Trust, rs: seq<Record>, i: nat)
    requires i < |rs|
    ensures ValidAt(c, t, rs, i) <==> FaultAt(c, t, rs, i).NoFault?
  {
  }

  lemma PrefixKeepsValidity(c: Suite, t: Trust, rs: seq<Record>, n: nat, i: nat)
    requires i < n <= |rs|
    ensures ValidAt(c, t, rs[..n], i) <==> FaultAt(c, t, rs, i).NoFault?
  {
    assert rs[..n][i] == rs[i];
    assert PrevHash(rs[..n], i) == PrevHash(rs, i);
    ValidIsFaultless(c, t, rs[..n], i);
  }

  lemma ValidUpTo(c: Suite, t: Trust, rs: seq<Record>, n: nat)
    requires n <= |rs|
    ensures ValidChain(c, t, rs[..n]) <==> n <= FirstFault(c, t, rs, 0)
  {
    var f := FirstFault(c, t, rs, 0);
    if f < n {
      PrefixKeepsValidity(c, t, rs, n, f);
    } else {
      forall i | 0 <= i < n
        ensures ValidAt(c, t, rs[..n], i)
      {
        PrefixKeepsValidity(c, t, rs, n, i);
      }
    }
  }

  lemma ValidIffNoFault(c: Suite, t: Trust, rs: seq<Record>)
    ensures ValidChain(c, t, rs) <==> FirstFault(c, t, rs, 0) == |rs|
  {
    assert rs[..|rs|] == rs;
    ValidUpTo(c, t, rs, |rs|);
  }

  /** A valid chain's hashes are hex, so its root exists. */
  lemma ValidHasRoot(c: Suite, t: Trust, rs: seq<Record>)
    requires ValidChain(c, t, rs)
    ensures MerkleRoot(c.sha, Hashes(rs)).Some?
    ensures forall i :: 0 <= i < |rs| ==> FromHex(rs[i].hash).Some? && |rs[i].hash| == 2 * DIGEST_LENGTH
  {
    forall i | 0 <= i < |rs|
      ensures FromHex(rs[i].hash).Some? && |rs[i].hash| == 2 * DIGEST_LENGTH
    {
      assert ValidAt(c, t, rs, i);
      HexRoundTrip(Seal(c, KeyFor(t, rs[i]), HashInput(c, rs[i]).value));
    }
  }

  lemma NoAnchorFaultMeans(rs: seq<Record>, cp: Checkpoint)
    ensures AnchorFault(rs, cp).None? <==> AnchorIsThere(rs, cp)
    ensures AnchorFault(rs, cp).Some? ==> !Accepted(AnchorFault(rs, cp).value)
  {
  }

  /** Once the pass is over an accepted report counts every record and signature, and has the root. */
  lemma AcceptedAfterPass(c: Suite, t: Trust, rs: seq<Record>, cp: Option<Checkpoint>)
    ensures Accepted(ChainVerdict(c, t, rs, cp)) <==>
            && ValidChain(c, t, rs)
            && (cp.Some? && cp.value.merkleRoot != "" ==>
                  MerkleRoot(c.sha, Hashes(rs)) == Some(cp.value.merkleRoot))
    ensures Accepted(ChainVerdict(c, t, rs, cp)) ==>
              && MerkleRoot(c.sha, Hashes(rs)).Some?
              && ChainVerdict(c, t, rs, cp).report
                 == VerifyReport(true, |rs|, None, None, if t.signers.Some? then |rs| else 0,
                                 MerkleRoot(c.sha, Hashes(rs)).value)
  {
    ValidIffNoFault(c, t, rs);
    if ValidChain(c, t, rs) {
      ValidHasRoot(c, t, rs);
    }
  }

  /** `verify_chain` accepts exactly the valid chains of the expected length that meet the anchor,
      and then its report counts every record and every signature and carries the root. */
  lemma {:induction false} AcceptsExactlyValidChains(c: Suite, t: Trust, rs: seq<Record>, expected: Option<int>, cp: Option<Checkpoint>)
    ensures Accepted(Verdict(c, t, rs, expected, cp)) <==>
            && (expected.Some? ==> |rs| == expected.value)
            && (cp.Some? ==> MeetsAnchor(c, rs, cp.value))
            && ValidChain(c, t, rs)
    ensures Accepted(Verdict(c, t, rs, expected, cp)) ==>
              && MerkleRoot(c.sha, Hashes(rs)).Some?
              && Verdict(c, t, rs, expected, cp).report
                 == VerifyReport(true, |rs|, None, None, if t.signers.Some? then |rs| else 0,
                                 MerkleRoot(c.sha, Hashes(rs)).value)
  {
    AcceptedAfterPass(c, t, rs, cp);
    if cp.Some? {
      NoAnchorFaultMeans(rs, cp.value);
    }
  }

  /** The rule that a reason names is broken at record `i`, and the rules before it are kept. */
  predicate Breaks(c: Suite, t: Trust, rs: seq<Record>, i: nat, reason: Reason)
    requires i < |rs|
  {
    var r := rs[i];
    var known := r.keyId == "" || KeyFor(t, r).Some?;
    match reason
    case SequenceGap => r.seqNo != i
    case PrevMismatch => r.seqNo == i && !Linked(rs, i)
    case UnknownKeyId => Linked(rs, i) && !known
    case HashMismatch => Linked(rs, i) && known && RecordHash(c, r, KeyFor(t, r)).Some? && !Sealed(c, t, r)
    case MissingSignature => Linked(rs, i) && Sealed(c, t, r) && !Signed(c, t, r) && r.signature == ""
    case UnknownSigner =>
      Linked(rs, i) && Sealed(c, t, r) && !Signed(c, t, r) && r.signature != "" && r.signerId !in t.signers.value
    case BadSignature =>
      Linked(rs, i) && Sealed(c, t, r) && !Signed(c, t, r) && r.signature != "" && r.signerId in t.signers.value
    case _ => false
  }

  /** What `verify_chain` checks a record's signature for, when the record is otherwise sound. */
  lemma SignatureReasonsAreExact(c: Suite, t: Trust, rs: seq<Record>, i: nat, reason: Reason)
    requires i < |rs| && Linked(rs, i) && Sealed(c, t, rs[i])
    ensures SignatureFault(c, t, rs[i]) == Bad(reason) <==> Breaks(c, t, rs, i, reason)
  {
  }

  lemma {:induction false} ReasonsAreExact(c: Suite, t: Trust, rs: seq<Record>, i: nat, reason: Reason)
    requires i < |rs|
    ensures FaultAt(c, t, rs, i) == Bad(reason) <==> Breaks(c, t, rs, i, reason)
    ensures FaultAt(c, t, rs, i) == Raises <==>
            && Linked(rs, i) && (rs[i].keyId == "" || KeyFor(t, rs[i]).Some?)
            && RecordHash(c, rs[i], KeyFor(t, rs[i])).None?
  {
    if Linked(rs, i) && Sealed(c, t, rs[i]) {
      assert FaultAt(c, t, rs, i) == SignatureFault(c, t, rs[i]);
      SignatureReasonsAreExact(c, t, rs, i, reason);
    }
  }

  /** What the pass reports of the first fault. */
  lemma FirstFaultIsReported(c: Suite, t: Trust, rs: seq<Record>, cp: Option<Checkpoint>)
    requires FirstFault(c, t, rs, 0) < |rs|
    ensures var n := FirstFault(c, t, rs, 0);
            match FaultAt(c, t, rs, n)
            case NoFault => false
            case Raises => ChainVerdict(c, t, rs, cp) == Raised && HashInput(c, rs[n]).None?
            case Bad(reason) =>
              && ChainVerdict(c, t, rs, cp)
                 == Returned(VerifyReport(false, n, Some(rs[n].seqNo), Some(reason), 0, ""))
              && Breaks(c, t, rs, n, reason)
  {
    var n := FirstFault(c, t, rs, 0);
    if FaultAt(c, t, rs, n).Bad? {
      ReasonsAreExact(c, t, rs, n, FaultAt(c, t, rs, n).reason);
    }
  }

  /** A break inside the chain is found where it is, and called what it is: the records before it,
      and no longer prefix, verify on their own, and the reason names the rule it breaks. */
  lemma FirstBreakIsLocated(c: Suite, t: Trust, rs: seq<Record>, expected: Option<int>, cp: Option<Checkpoint>, m: nat)
    requires cp.Some? ==> AnchorFault(rs, cp.value).None?
    requires expected.Some? ==> |rs| == expected.value
    requires !ValidChain(c, t, rs) && m <= |rs|
    ensures var n := FirstFault(c, t, rs, 0);
            && n < |rs|
            && (Accepted(Verdict(c, t, rs[..m], None, None)) <==> m <= n)
            && match FaultAt(c, t, rs, n)
               case NoFault => false
               case Raises => Verdict(c, t, rs, expected, cp) == Raised && HashInput(c, rs[n]).None?
               case Bad(reason) =>
                 && Verdict(c, t, rs, expected, cp)
                    == Returned(VerifyReport(false, n, Some(rs[n].seqNo), Some(reason), 0, ""))
                 && Breaks(c, t, rs, n, reason)
  {
    ValidIffNoFault(c, t, rs);
    ValidUpTo(c, t, rs, m);
    AcceptsExactlyValidChains(c, t, rs[..m], None, None);
    FirstFaultIsReported(c, t, rs, cp);
    assert Verdict(c, t, rs, expected, cp) == ChainVerdict(c, t, rs, cp);
  }

  /** The report names the reason. */
  predicate Says(out: Outcome, reason: Reason) {
    out.Returned? && !out.report.ok && out.report.reason == Some(reason)
  }

  /** A fault in the loop is none of the reasons of the checks around it. */
  lemma LoopReasons(c: Suite, t: Trust, rs: seq<Record>, i: nat)
    requires i < |rs| && FaultAt(c, t, rs, i).Bad?
    ensures FaultAt(c, t, rs, i).reason !in {Truncated, AnchorMismatch, CountMismatch, RootMismatch, Unreadable}
  {
    ReasonsAreExact(c, t, rs, i, FaultAt(c, t, rs, i).reason);
  }

  lemma RootReasons(c: Suite, t: Trust, rs: seq<Record>, cp: Option<Checkpoint>)
    requires MerkleRoot(c.sha, Hashes(rs)).Some?
    ensures var root := MerkleRoot(c.sha, Hashes(rs)).value;
            var signed := if t.signers.Some? then |rs| else 0;
            RootVerdict(c, t, rs, cp)
            == if cp.Some? && cp.value.merkleRoot != "" && root != cp.value.merkleRoot
               then Returned(VerifyReport(false, |rs|, None, Some(RootMismatch), signed, root))
               else Returned(VerifyReport(true, |rs|, None, None, signed, root))
  {
  }

  /** The pass over the records and the root says nothing of the checks before it. */
  lemma PassReasons(c: Suite, t: Trust, rs: seq<Record>, cp: Option<Checkpoint>)
    ensures var out := ChainVerdict(c, t, rs, cp);
            && !Says(out, Truncated) && !Says(out, AnchorMismatch) && !Says(out, CountMismatch)
            && (Says(out, RootMismatch) <==>
                  && ValidChain(c, t, rs) && cp.Some? && cp.value.merkleRoot != ""
                  && MerkleRoot(c.sha, Hashes(rs)) != Some(cp.value.merkleRoot))
            && (Says(out, RootMismatch) ==>
                  && out.report.recordsChecked == |rs| && out.report.firstErrorSeq == None
                  && out.report.signedRecords == (if t.signers.Some? then |rs| else 0)
                  && Some(out.report.merkleRoot) == MerkleRoot(c.sha, Hashes(rs)))
  {
    ValidIffNoFault(c, t, rs);
    var n := FirstFault(c, t, rs, 0);
    if n == |rs| {
      ValidHasRoot(c, t, rs);
      RootReasons(c, t, rs, cp);
      assert ChainVerdict(c, t, rs, cp) == RootVerdict(c, t, rs, cp);
    } else if FaultAt(c, t, rs, n).Bad? {
      LoopReasons(c, t, rs, n);
    }
  }

  lemma AnchorReasons(rs: seq<Record>, cp: Checkpoint)
    ensures AnchorFault(rs, cp).Some? <==> !AnchorIsThere(rs, cp)
    ensures AnchorFault(rs, cp).Some? ==>
              var out := AnchorFault(rs, cp).value;
              && (|rs| <= cp.seqNo ==> out == Returned(VerifyReport(false, |rs|, None, Some(Truncated), 0, "")))
              && (AnchorAt(rs, cp) < 0 ==> out == Raised)
              && (0 <= AnchorAt(rs, cp) < |rs| ==>
                    out == Returned(VerifyReport(false, cp.seqNo, Some(rs[AnchorAt(rs, cp)].seqNo), Some(AnchorMismatch), 0, "")))
  {
  }

  /** The checks outside the loop: each is reported exactly when it fails and those before it hold,
      with these figures. */
  lemma OuterReasonsAreExact(c: Suite, t: Trust, rs: seq<Record>, expected: Option<int>, cp: Option<Checkpoint>)
    ensures var out := Verdict(c, t, rs, expected, cp);
            var anchored := cp.Some? ==> AnchorIsThere(rs, cp.value);
            var counted := expected.Some? ==> |rs| == expected.value;
            && (Says(out, Truncated) <==> cp.Some? && |rs| <= cp.value.seqNo)
            && (Says(out, AnchorMismatch) <==>
                  cp.Some? && 0 <= AnchorAt(rs, cp.value) < |rs| && rs[AnchorAt(rs, cp.value)].hash != cp.value.hash)
            && (Says(out, CountMismatch) <==> anchored && !counted)
            && (Says(out, RootMismatch) <==>
                  && anchored && counted && ValidChain(c, t, rs)
                  && cp.Some? && cp.value.merkleRoot != "" && MerkleRoot(c.sha, Hashes(rs)) != Some(cp.value.merkleRoot))
            && (Says(out, Truncated) || Says(out, CountMismatch) ==>
                  out.report.recordsChecked == |rs| && out.report.firstErrorSeq == None)
            && (Says(out, AnchorMismatch) ==>
                  && out.report.recordsChecked == cp.value.seqNo
                  && out.report.firstErrorSeq == Some(rs[AnchorAt(rs, cp.value)].seqNo))
            && (Says(out, RootMismatch) ==>
                  && out.report.recordsChecked == |rs| && out.report.firstErrorSeq == None
                  && out.report.signedRecords == (if t.signers.Some? then |rs| else 0)
                  && Some(out.report.merkleRoot) == MerkleRoot(c.sha, Hashes(rs)))
  {
    PassReasons(c, t, rs, cp);
    if cp.Some? {
      AnchorReasons(rs, cp.value);
    }
  }

  // ------------------------------------------------------- a rewritten record

  lemma {:induction false} FirstFaultIs(c: Suite, t: Trust, rs: seq<Record>, rs': seq<Record>, i: nat)
    requires ValidChain(c, t, rs) && i < |rs| == |rs'| && rs'[..i] == rs[..i] && !FaultAt(c, t, rs', i).NoFault?
    ensures FirstFault(c, t, rs', 0) == i
  {
    forall j | 0 <= j < i
      ensures FaultAt(c, t, rs', j).NoFault?
    {
      assert rs'[..i][j] == rs[..i][j] && (j > 0 ==> rs'[..i][j - 1] == rs[..i][j - 1]);
      assert ValidAt(c, t, rs, j);
      ValidIsFaultless(c, t, rs, j);
    }
  }

  /** A record of an accepted chain that is rewritten in any hashed field and keeps its hash is
      caught, unless its new bytes collide with the old; with its number, link and key id kept, it is
      reported in its place as modified. */
  lemma RewrittenRecordIsCaught(c: Suite, t: Trust, rs: seq<Record>, i: nat, r: Record)
    requires InjectivePayloads(c) && ValidChain(c, t, rs) && i < |rs|
    requires r.hash == rs[i].hash && !SameFields(r, rs[i])
    ensures || RecordCollision(c, r, KeyFor(t, r), rs[i], KeyFor(t, rs[i]))
            || !Accepted(Verdict(c, t, rs[i := r], None, None))
    ensures r.seqNo == rs[i].seqNo && r.prevHash == rs[i].prevHash && r.keyId == rs[i].keyId && HashInput(c, r).Some? ==>
              || RecordCollision(c, r, KeyFor(t, r), rs[i], KeyFor(t, rs[i]))
              || Verdict(c, t, rs[i := r], None, None)
                 == Returned(VerifyReport(false, i, Some(i), Some(HashMismatch), 0, ""))
  {
    var rs' := rs[i := r];
    assert ValidAt(c, t, rs, i);
    ValidPrevLength(c, t, rs, i);
    if Linked(rs', i) && Sealed(c, t, r) {
      SamePrevHash(c, t, rs, rs', i);
      SameHashSamePayload(c, r, KeyFor(t, r), rs[i], KeyFor(t, rs[i]));
    } else {
      assert !ValidAt(c, t, rs', i);
      AcceptsExactlyValidChains(c, t, rs', None, None);
      ValidIsFaultless(c, t, rs', i);
      FirstFaultIs(c, t, rs, rs', i);
      ReasonsAreExact(c, t, rs', i, HashMismatch);
    }
  }

  lemma SamePrevHash(c: Suite, t: Trust, rs: seq<Record>, rs': seq<Record>, i: nat)
    requires ValidChain(c, t, rs) && i < |rs| == |rs'| && rs'[..i] == rs[..i] && Linked(rs', i)
    ensures rs'[i].prevHash == rs[i].prevHash
  {
    assert ValidAt(c, t, rs, i);
    assert i > 0 ==> rs'[..i][i - 1] == rs[..i][i - 1];
  }

  /** The first record of an accepted chain follows sixty-four zeros. */
  lemma ChainBeginsAtZeros(c: Suite, t: Trust, rs: seq<Record>)
    requires ValidChain(c, t, rs) && rs != []
    ensures |rs[0].prevHash| == 64 && forall i :: 0 <= i < 64 ==> rs[0].prevHash[i] == '0'
  {
    assert ValidAt(c, t, rs, 0);
  }

  // ------------------------------------------------- the same chain, other keys

  /** Both keys give the record one hash. */
  predicate SealsAlike(c: Suite, r: Record, key: Option<Bytes>, key': Option<Bytes>) {
    HashInput(c, r).Some? && Seal(c, key, HashInput(c, r).value) == Seal(c, key', HashInput(c, r).value)
  }

  lemma SameRecordHashIff(c: Suite, r: Record, key: Option<Bytes>, key': Option<Bytes>)
    requires RecordHash(c, r, key).Some?
    ensures RecordHash(c, r, key) == RecordHash(c, r, key') <==> SealsAlike(c, r, key, key')
  {
    if RecordHash(c, r, key) == RecordHash(c, r, key') {
      HexInjective(Seal(c, key, HashInput(c, r).value), Seal(c, key', HashInput(c, r).value));
    }
  }

  /** A record accepted with one trust is accepted with another. */
  predicate HoldsUnder(c: Suite, t: Trust, t': Trust, r: Record) {
    && (r.keyId != "" ==> KeyFor(t', r).Some?)
    && SealsAlike(c, r, KeyFor(t, r), KeyFor(t', r))
    && Signed(c, t', r)
  }

  /** Exactly when an accepted chain is also accepted with other keys and signers. */
  lemma AcceptedUnderOtherTrustIff(c: Suite, t: Trust, t': Trust, rs: seq<Record>)
    requires ValidChain(c, t, rs)
    ensures ValidChain(c, t', rs) <==> forall i :: 0 <= i < |rs| ==> HoldsUnder(c, t, t', rs[i])
  {
    forall i | 0 <= i < |rs|
      ensures ValidAt(c, t', rs, i) <==> HoldsUnder(c, t, t', rs[i])
    {
      assert ValidAt(c, t, rs, i);
      SameRecordHashIff(c, rs[i], KeyFor(t, rs[i]), KeyFor(t', rs[i]));
    }
  }

  // ------------------------------------------------ hashes pin the history

  /** One of the first `n` records of `a` and one of the first `m` of `b` share a hash over
      different bytes. */
  ghost predicate HistoriesCollide(c: Suite, t: Trust, a: seq<Record>, n: nat, t': Trust, b: seq<Record>, m: nat)
    requires n <= |a| && m <= |b|
  {
    exists i, j :: 0 <= i < n && 0 <= j < m &&
                   RecordCollision(c, a[i], KeyFor(t, a[i]), b[j], KeyFor(t', b[j]))
  }

  lemma ValidPrevLength(c: Suite, t: Trust, rs: seq<Record>, i: nat)
    requires ValidChain(c, t, rs) && i < |rs|
    ensures |rs[i].prevHash| == 2 * DIGEST_LENGTH
  {
    ValidHasRoot(c, t, rs);
    assert ValidAt(c, t, rs, i);
  }

  /**
   A tail hash pins everything before it: two accepted chains that agree on one hash agree on
   its position and on every hashed field up to there, or two sealed inputs collide.
   */
  lemma {:induction false} TailHashPinsHistory(c: Suite, t: Trust, a: seq<Record>, s: nat, t': Trust, b: seq<Record>, u: nat)
    requires InjectivePayloads(c)
    requires ValidChain(c, t, a) && ValidChain(c, t', b)
    requires s < |a| && u < |b| && a[s].hash == b[u].hash
    ensures || HistoriesCollide(c, t, a, s + 1, t', b, u + 1)
            || (s == u && forall i :: 0 <= i <= s ==> SameFields(a[i], b[i]) && a[i].hash == b[i].hash)
  {
    assert ValidAt(c, t, a, s) && ValidAt(c, t', b, u);
    ValidPrevLength(c, t, a, s);
    ValidPrevLength(c, t', b, u);
    SameHashSamePayload(c, a[s], KeyFor(t, a[s]), b[u], KeyFor(t', b[u]));
    if SameFields(a[s], b[u]) && s > 0 {
      TailHashPinsHistory(c, t, a, s - 1, t', b, u - 1);
    }
  }

  /** The inputs hashed for the root of a chain's hashes. */
  ghost function ChainRootInputs(c: Suite, rs: seq<Record>): set<Bytes> {
    match DecodeAll(Hashes(rs))
    case None => {}
    case Some(datas) => RootInputs(c.sha, datas)
  }

  lemma SameHexSameHash(c: Suite, t: Trust, a: Record, t': Trust, b: Record)
    requires Sealed(c, t, a) && Sealed(c, t', b) && FromHex(a.hash) == FromHex(b.hash)
    ensures a.hash == b.hash
  {
    HexRoundTrip(Seal(c, KeyFor(t, a), HashInput(c, a).value));
    HexRoundTrip(Seal(c, KeyFor(t', b), HashInput(c, b).value));
  }

  /** Two accepted chains with one Merkle root carry the same hashes, or a collision. */
  lemma SameRootSameHashes(c: Suite, t: Trust, a: seq<Record>, t': Trust, b: seq<Record>)
    requires ValidChain(c, t, a) && ValidChain(c, t', b)
    requires MerkleRoot(c.sha, Hashes(a)) == MerkleRoot(c.sha, Hashes(b))
    ensures Hashes(a) == Hashes(b) || Collision(c.sha, ChainRootInputs(c, a), ChainRootInputs(c, b))
  {
    ValidHasRoot(c, t, a);
    ValidHasRoot(c, t', b);
    var x, y := DecodeAll(Hashes(a)).value, DecodeAll(Hashes(b)).value;
    HexInjective(Root(c.sha, x), Root(c.sha, y));
    RootIsInjective(c.sha, x, y);
    if x == y {
      forall i | 0 <= i < |a|
        ensures a[i].hash == b[i].hash
      {
        assert FromHex(Hashes(a)[i]) == FromHex(Hashes(b)[i]);
        assert ValidAt(c, t, a, i) && ValidAt(c, t', b, i);
        SameHexSameHash(c, t, a[i], t', b[i]);
      }
      assert Hashes(a) == Hashes(b);
    }
  }

  /**
   A rooted anchor pins the log: a log accepted against the root of another accepted log has
   that log's records, neither truncated nor extended nor rewritten, or a collision is shown.
   */
  lemma RootedAnchorPinsLog(c: Suite, t: Trust, log: seq<Record>, expected: Option<int>, cp: Checkpoint,
                            t': Trust, anchored: seq<Record>)
    requires InjectivePayloads(c)
    requires ValidChain(c, t', anchored) && MerkleRoot(c.sha, Hashes(anchored)) == Some(cp.merkleRoot)
    requires cp.merkleRoot != ""
    requires Accepted(Verdict(c, t, log, expected, Some(cp)))
    ensures || Collision(c.sha, ChainRootInputs(c, log), ChainRootInputs(c, anchored))
            || HistoriesCollide(c, t, log, |log|, t', anchored, |anchored|)
            || (|log| == |anchored| &&
                forall i :: 0 <= i < |log| ==>
                  SameFields(log[i], anchored[i]) && log[i].hash == anchored[i].hash)
  {
    AcceptsExactlyValidChains(c, t, log, expected, Some(cp));
    SameRootSameHashes(c, t, log, t', anchored);
    if Hashes(log) == Hashes(anchored) && log != [] {
      var last := |log| - 1;
      assert |anchored| == |Hashes(anchored)| == |log|;
      assert Hashes(log)[last] == Hashes(anchored)[last];
      TailHashPinsHistory(c, t, log, last, t', anchored, last);
    }
  }
}
