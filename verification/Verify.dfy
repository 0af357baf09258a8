/** Chain verification: one pass that accepts the valid chains and names the first break. */
module Verify {
  import opened Prelude
  import opened Encoding
  import opened Records
  import opened Crypto
  import opened Hashing
  import opened Merkle
  import opened Checkpoints

  /** The keys a chain is verified with. */
  datatype Trust = Trust(
    sealKey: Option<Bytes>,
    keyring: Option<map<string, Bytes>>,
    signers: Option<map<string, Bytes>>)

  datatype Reason =
    | Truncated | AnchorMismatch | CountMismatch
    | SequenceGap | PrevMismatch | UnknownKeyId | HashMismatch
    | MissingSignature | UnknownSigner | BadSignature
    | RootMismatch
    | Unreadable      // the store, not a record; `AuditLog.verify` alone reports it

  datatype VerifyReport = VerifyReport(
    ok: bool,
    recordsChecked: int,
    firstErrorSeq: Option<int>,
    reason: Option<Reason>,
    signedRecords: int,
    merkleRoot: string)

  /** A report, or an exception that leaves `verify_chain`. */
  datatype Outcome = Returned(report: VerifyReport) | Raised

  predicate Accepted(out: Outcome) {
    out.Returned? && out.report.ok
  }

  function Failed(checked: int, at: Option<int>, reason: Reason): Outcome {
    Returned(VerifyReport(false, checked, at, Some(reason), 0, ""))
  }

  /** `_key_for`. */
  function KeyFor(t: Trust, r: Record): Option<Bytes> {
    if r.keyId == "" then t.sealKey
    else if t.keyring.None? || r.keyId !in t.keyring.value then None
    else Some(t.keyring.value[r.keyId])
  }

  /** `record_signing_message`, before it is encoded. */
  function SigningMessage(r: Record): string {
    Dec(r.seqNo) + ":" + r.hash + ":" + r.signerId
  }

  function PrevHash(rs: seq<Record>, i: nat): string
    requires i <= |rs|
  {
    if i == 0 then GENESIS_HASH else rs[i - 1].hash
  }

  // --------------------------------------------- one record, in code order

  datatype Fault = NoFault | Bad(reason: Reason) | Raises

  function SignatureFault(c: Suite, t: Trust, r: Record): Fault {
    if t.signers.None? then NoFault
    else if r.signature == "" then Bad(MissingSignature)
    else if r.signerId !in t.signers.value then Bad(UnknownSigner)
    else if !SignatureHolds(c, r.signature, SigningMessage(r), t.signers.value[r.signerId]) then Bad(BadSignature)
    else NoFault
  }

  /** The checks of the loop body, in their order. */
  function RecordFault(c: Suite, t: Trust, index: int, prevHash: string, r: Record): Fault {
    if r.seqNo != index then Bad(SequenceGap)
    else if r.prevHash != prevHash then Bad(PrevMismatch)
    else if r.keyId != "" && KeyFor(t, r).None? then Bad(UnknownKeyId)
    else match RecordHash(c, r, KeyFor(t, r))
      case None => Raises
      case Some(hash) => if r.hash != hash then Bad(HashMismatch) else SignatureFault(c, t, r)
  }

  function FaultAt(c: Suite, t: Trust, rs: seq<Record>, i: nat): Fault
    requires i < |rs|
  {
    RecordFault(c, t, i, PrevHash(rs, i), rs[i])
  }

  /** The first record with a fault, or the length of the chain. */
  function FirstFault(c: Suite, t: Trust, rs: seq<Record>, from: nat): (n: nat)
    requires from <= |rs|
    ensures from <= n <= |rs|
    ensures forall i :: from <= i < n ==> FaultAt(c, t, rs, i).NoFault?
    ensures n < |rs| ==> !FaultAt(c, t, rs, n).NoFault?
    decreases |rs| - from
  {
    if from == |rs| || !FaultAt(c, t, rs, from).NoFault? then from
    else FirstFault(c, t, rs, from + 1)
  }

  /** The checkpoint's tail check; a negative position counts from the end, as in Python. */
  function AnchorFault(rs: seq<Record>, cp: Checkpoint): Option<Outcome> {
    if |rs| <= cp.seqNo then Some(Failed(|rs|, None, Truncated))
    else
      var at := if cp.seqNo < 0 then cp.seqNo + |rs| else cp.seqNo;
      if at < 0 then Some(Raised)
      else if rs[at].hash != cp.hash then Some(Failed(cp.seqNo, Some(rs[at].seqNo), AnchorMismatch))
      else None
  }

  /** After the loop: the root over every record, and the checkpoint's root if it has one. */
  function RootVerdict(c: Suite, t: Trust, rs: seq<Record>, cp: Option<Checkpoint>): Outcome {
    var signed := if t.signers.Some? then |rs| else 0;
    match MerkleRoot(c.sha, Hashes(rs))
    case None => Raised
    case Some(root) =>
      if cp.Some? && cp.value.merkleRoot != "" && cp.value.merkleRoot != root then
        Returned(VerifyReport(false, |rs|, None, Some(RootMismatch), signed, root))
      else
        Returned(VerifyReport(true, |rs|, None, None, signed, root))
  }

  function ChainVerdict(c: Suite, t: Trust, rs: seq<Record>, cp: Option<Checkpoint>): Outcome {
    var n := FirstFault(c, t, rs, 0);
    if n == |rs| then RootVerdict(c, t, rs, cp)
    else match FaultAt(c, t, rs, n)
      case Bad(reason) => Failed(n, Some(rs[n].seqNo), reason)
      case _ => Raised
  }

  /** What `verify_chain` reports. */
  function Verdict(c: Suite, t: Trust, rs: seq<Record>, expected: Option<int>, cp: Option<Checkpoint>): Outcome {
    if cp.Some? && AnchorFault(rs, cp.value).Some? then AnchorFault(rs, cp.value).value
    else if expected.Some? && |rs| != expected.value then Failed(|rs|, None, CountMismatch)
    else ChainVerdict(c, t, rs, cp)
  }

  /** `verify_chain`: one pass with the running previous hash and signature count. */
  method VerifyChain(c: Suite, t: Trust, rs: seq<Record>, expected: Option<int>, cp: Option<Checkpoint>)
    returns (out: Outcome)
    ensures out == Verdict(c, t, rs, expected, cp)
  {
    if cp.Some? {
      var fault := AnchorFault(rs, cp.value);
      if fault.Some? {
        return fault.value;
      }
    }
    if expected.Some? && |rs| != expected.value {
      return Failed(|rs|, None, CountMismatch);
    }
    var signed, prevHash := 0, GENESIS_HASH;
    for index := 0 to |rs|
      invariant prevHash == PrevHash(rs, index)
      invariant signed == if t.signers.Some? then index else 0
      invariant FirstFault(c, t, rs, 0) == FirstFault(c, t, rs, index)
    {
      var r := rs[index];
      if r.seqNo != index {
        return Failed(index, Some(r.seqNo), SequenceGap);
      }
      if r.prevHash != prevHash {
        return Failed(index, Some(r.seqNo), PrevMismatch);
      }
      var key := KeyFor(t, r);
      if r.keyId != "" && key.None? {
        return Failed(index, Some(r.seqNo), UnknownKeyId);
      }
      var hash := RecordHash(c, r, key);
      if hash.None? {
        return Raised;
      }
      if r.hash != hash.value {
        return Failed(index, Some(r.seqNo), HashMismatch);
      }
      if t.signers.Some? {
        if r.signature == "" {
          return Failed(index, Some(r.seqNo), MissingSignature);
        }
        if r.signerId !in t.signers.value {
          return Failed(index, Some(r.seqNo), UnknownSigner);
        }
        if !SignatureHolds(c, r.signature, SigningMessage(r), t.signers.value[r.signerId]) {
          return Failed(index, Some(r.seqNo), BadSignature);
        }
        signed := signed + 1;
      }
      prevHash := r.hash;
    }
    var root := MerkleRoot(c.sha, Hashes(rs));
    if root.None? {
      return Raised;
    }
    if cp.Some? && cp.value.merkleRoot != "" && cp.value.merkleRoot != root.value {
      return Returned(VerifyReport(false, |rs|, None, Some(RootMismatch), signed, root.value));
    }
    return Returned(VerifyReport(true, |rs|, None, None, signed, root.value));
  }
}
