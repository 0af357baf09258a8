# auditchain, modelled and proved in Dafny

auditchain is a hash-chained audit log with a Merkle layer on top. This project models its
verifying side (chain verification, checkpoints, inclusion proofs), its writing side (sealing,
batches, key rotation, several writers under a lock, the JSONL file, the logging handler), and
proves what the two promise each other.

`dafny verify dfyconfig.toml` checks everything.

## How it is built

| file | what it holds |
|---|---|
| `Prelude.dfy`, `Encoding.dfy`, `Crypto.dfy` | result types; UTF-8, hex and decimal written out; the cryptographic and JSON calls as parameters |
| `Records.dfy`, `Hashing.dfy` | the record, its hashed fields, the sealed bytes |
| `Merkle.dfy`, `MerkleTheorems.dfy` | the RFC 6962 tree, audit paths and their check; completeness, soundness, position, injectivity |
| `Checkpoints.dfy` | the signed message, making, saving and loading an anchor |
| `Verify.dfy`, `VerifyTheorems.dfy` | the verification pass; the chain rules it decides, and what hashes and roots pin |
| `Log.dfy`, `LogTheorems.dfy` | the log object; every run of one writer, rotation, reopening, batches |
| `Signatures.dfy` | what one Ed25519 key signs for a log, and what accepted anchors and logs can be traced back to |
| `Writers.dfy` | all interleavings of several writers, with crashes |
| `Locks.dfy`, `FileLocks.dfy` | the file lock as a state machine over threads and processes, and as an object |
| `Jsonl.dfy`, `JsonlTheorems.dfy` | the file backend; the backward scan and the full load |
| `Handler.dfy`, `HandlerRuns.dfy` | the logging handler as an object and over all interleavings |
| `Anchors.dfy` | `verify-proof`, end to end from a checkpoint to one record's fields |

Conventions:

- **Hashes are parameters.** SHA-256 and HMAC-SHA256 are arbitrary functions to 32 bytes, Ed25519
  an arbitrary triple of functions. Soundness is stated as "equal, or here is a collision", where
  the two colliding inputs come from the finite sets of inputs that the two computations really
  hash (`RootInputs`, `ClimbInputs`, `RecordCollision`). For keyed hashes only different data count
  as a collision.
- **Signatures are never assumed unforgeable.** Theorems about accepted signatures say "this was
  signed, or here is a forgery": a signature that holds for a text which is the message of no anchor
  made and no record signed (`Forged`).
- **Assumptions on libraries** are named where they are used: `HonestSignatures` (what a private key
  signs, its public key accepts), `InjectivePayloads` (canonical JSON of string-keyed payloads loses
  nothing), `DecodesUtf8` and `Prints` (a stored line reads back), `EndsLate` (no proper prefix of a
  JSON object parses).
- **Exceptions are values**: `None`, `Err` or `Raised`. Clock readings, what the world does during a
  call (`World`: unreadable storage, a lock timeout, a write that raises after n records), and how
  the OS lock answers a poll are parameters.
- **Objects** that the source updates in place are classes (`AuditLog`, `Backend`, `JsonlBackend`,
  `FileLock`, `ProcessMutex`, `AuditLogHandler`, `StepList`), each method proved equal to a function
  of the old state; the lemmas are about those functions.
- **Concurrency** is a step relation per component; lemmas range over every sequence of enabled
  steps. `Writers` uses the lock as one atomic holder; `Locks.HolderIsAtomic` proves that every step
  of the file lock's machine takes, keeps or gives up that one holder, and
  `FileLocks.AcquireRunsMachine` and `ReleaseRunsMachine` that the object runs that machine.

## Where the code and its documentation differ

The code is followed; each difference is a proved statement.

- `merkle.py` and the repository's README say that proofs commit to `(seq, size)`. Folding does not:
  an accepted proof keeps its root under another label exactly when both labels demand the same
  sibling sides (`RelabelledProofFoldsIff`), for instance record 2 of 3 relabelled as 4 of 5
  (`ReplayAtAnotherSize`). Membership holds under any label (`ProofsAreSound`); the position holds
  once the size is the log's own, which `verify-proof` checks against the checkpoint
  (`ProofsPinPositionAtTrueSize`, `AcceptedProofPinsRecord`).
- `signing.py` says that records and checkpoints sign different messages. They meet exactly when the
  signer id is what follows `seq:hash:` in the anchor's message (`RecordAndAnchorMessagesMeetIff`), so
  the signature of any record of a signing log passes for a rootless anchor that nobody issued
  (`SignedRecordIsAnAnchor`). An accepted anchor with a root was made (`LoadedAnchorWasMade`), which
  a caller can check; `verify-proof` refuses the others (`AcceptedSignedProofPinsRecord`). Either kind
  still pins the log up to its record (`AnchoredLogKeepsHistory`). A file with no signature at all
  loads unchecked, with or without keys, so these theorems ask for the signature.
- `rotate` accepts a log without a seal key and a key id that is already taken. Which rotations leave
  a log that verifies is decided by the log before the call: every record without a key id, or with
  the id to be taken, the marker included, must have the same seal under the new key
  (`RotatedLogVerifiesIff`). That is so whenever all of these were sealed with the new key itself or
  there are none, and otherwise only by a coincidence of two digests (`SafeRotationVerifies`). The two
  failing families are `RotatingUnsealedLogBreaksIt` and `ReusingKeyIdBreaksIt`. A caller who seals
  from the start and picks fresh ids is safe (`DisciplinedRunsAreCareful`).
- `append_many` is atomic only where the backend makes it so; the storage base class writes one record
  at a time. A batch stored in part leaves a log that verifies and a stale tail: the next append
  breaks the log exactly when the log has no lock and something had been stored
  (`PartialBatchIsHarmlessIff`).
- `load` splits on every character `str.splitlines` knows, `load_last` on newlines only. On written
  files `load` returns all the records, or, exactly when some line contains U+0085, U+2028 or U+2029,
  only an error; the scan is right in both cases (`ScanAgreesWithLoadIff`). One such record hides
  the whole log from `load` while appends go on (`LineSeparatorHidesTheLog`).
- The message a checkpoint signs is ambiguous in exactly one way: a key id that ends in a colon and
  another anchor's root (`SameMessageIff`, `ColonInKeyIdIsAmbiguous`). Colon-free ids decode uniquely.
- `FileLock` does not survive two things: an exception in `acquire` once the depth is set, which
  closes the file and frees the mutex but leaves the object held, and a last `release` by a thread
  that is not the owner, which drops the OS lock and only then fails on the mutex. Mutual exclusion
  and the mutex's count hold in all states of a run if and only if neither happens in it
  (`ExclusiveIffOrderly`); after the first, two processes can hold the lock (`BrinkIsReached`,
  `InterruptLetsTwoHold`).
- An entry that passes the handler's `_closed` check before `close` ends can be queued behind the
  sentinel; it is never written (`ClosedMeansAttemptedUpToSentinel`, `EntryBehindSentinelIsLost`).

## Model

| member | source | states |
|---|---|---|
| `Encoding.Utf8CharPrefixFree` | src/auditchain/checkpoint.py:70-70 | UTF-8 sequences form a prefix code, so encoded text reads back in one way |
| `Encoding.Utf8Injective` | src/auditchain/checkpoint.py:60-70 | encoded messages are equal only if the texts are |
| `Encoding.HexRoundTrip` | src/auditchain/merkle.py:43-45 | reading printed hex gives the bytes back, and printed hex is lower case |
| `Encoding.LowerIsHexIff` | src/auditchain/merkle.py:157-163 | a text, lower-cased, is some bytes' printed hex exactly when it reads as them, in digits of either case, and holds nothing else |
| `Encoding.HexSkipsSpace` | src/auditchain/merkle.py:43-45 | ASCII white space between two runs of hex digits is skipped |
| `Encoding.HexReadsIff` | src/auditchain/merkle.py:43-45 | a text without white space reads as hex exactly when it is an even number of digits of either case |
| `Encoding.DecInjective` | src/auditchain/checkpoint.py:67-67 | printed integers, negative ones included, are equal only if the integers are |
| `Encoding.DecReadsBack` | src/auditchain/checkpoint.py:67-67 | a printed integer reads back as decimal, without leading zeros, behind a minus sign if negative |
| `Records.PayloadKeepsFields` | src/auditchain/records.py:38-53 | two records have one payload exactly when seq, timestamp, actor, action, subject, metadata and previous hash are equal |
| `Hashing.RecordHashBytes` | src/auditchain/hash.py:13-22 | the stored hash, byte for byte, with and without a key, and when there is none |
| `Hashing.HashDependsOnFields` | src/auditchain/records.py:38-53 | the hash depends on the seven fields only |
| `Hashing.HashInputParses` | src/auditchain/hash.py:19-19 | sealed bytes with 64-character previous hashes fix all seven hashed fields |
| `Hashing.SameHashSamePayload` | src/auditchain/hash.py:13-22 | equal record hashes, under any keys, mean equal values in all seven hashed fields or a collision between the two sealed inputs |
| `Merkle.SplitLoop` | src/auditchain/merkle.py:52-57 | the doubling loop ends at the RFC 6962 split point |
| `Merkle.SplitIsPowerOfTwo` | src/auditchain/merkle.py:52-57 | the split point is a power of two |
| `Merkle.SplitIsLargest` | src/auditchain/merkle.py:52-57 | no larger power of two lies strictly below the size |
| `Merkle.PathDownReversed` | src/auditchain/merkle.py:188-214 | what is collected from the root down, reversed, is PATH of RFC 6962 section 2.1.1 |
| `Merkle.Collect` | src/auditchain/merkle.py:205-214 | appends exactly the siblings from the root down to the list it is given |
| `Merkle.BuildProof` | src/auditchain/merkle.py:188-202 | collecting in place and reversing yields the RFC 6962 path with its labels, or the error for a bad index or hash |
| `Merkle.FoldInPlace` | src/auditchain/merkle.py:166-185 | popping from the list computes the fold and leaves exactly the unused steps |
| `Merkle.CheckFold` | src/auditchain/merkle.py:140-155 | the whole check of a proof, each malformed case with its error, extra steps refused |
| `MerkleTheorems.TopDownIsBottomUp` | src/auditchain/merkle.py:9-14 | splitting top-down over any nodes gives the root of the documented bottom-up pass that pairs nodes behind the byte 1 and promotes an odd last one |
| `MerkleTheorems.MerkleRootIsDocumented` | src/auditchain/merkle.py:26-72 | from record hashes to the printed root: bytes hashed behind 0, pairs behind 1, an odd node promoted, nothing hashed as the empty string, at every length |
| `MerkleTheorems.NoRootIffNotHex` | src/auditchain/merkle.py:43-45 | there is no root exactly when some record hash is not hex |
| `MerkleTheorems.SmallRoots` | src/auditchain/merkle.py:26-72 | the roots of no, one and two records as SHA-256 of spelled-out bytes |
| `MerkleTheorems.RootOfPairUp` | src/auditchain/merkle.py:60-64 | pairing one level up leaves the split tree's root unchanged |
| `MerkleTheorems.FoldPopsFittingPath` | src/auditchain/merkle.py:166-185 | what an accepted fold pops is a path that fits the position, and its result is the climb along it |
| `MerkleTheorems.FittingPathFolds` | src/auditchain/merkle.py:166-185 | every fitting path is accepted and nothing below it is touched |
| `MerkleTheorems.FoldProofMeansClimb` | src/auditchain/merkle.py:140-155 | a proof folds if and only if its position is in range, its leaf is hex and its whole path fits |
| `MerkleTheorems.FoldProofErrors` | src/auditchain/merkle.py:140-155 | exactly when a proof is refused for its size, its position, or steps left over |
| `MerkleTheorems.PathFits` | src/auditchain/merkle.py:205-214 | the audit path fits its position and climbs to the root |
| `MerkleTheorems.ProofsAreComplete` | src/auditchain/merkle.py:140-202 | every record of every non-empty hex log has a proof that verifies against the log's root, with the right labels and a logarithmic path |
| `MerkleTheorems.VerifiesExactlyItsRoot` | src/auditchain/merkle.py:140-163 | a proof verifies if and only if its path fits its position and the root it is held to spells, in either case, the digest the path climbs to |
| `MerkleTheorems.DepthIsLogarithmic` | src/auditchain/merkle.py:166-185 | a position in a tree of n leaves has at most bit_length(n-1) siblings |
| `MerkleTheorems.AcceptedProofsAreShort` | src/auditchain/merkle.py:140-185 | no accepted proof, honest or forged, is longer than bit_length(size-1) |
| `MerkleTheorems.ClimbEndsInLog` | src/auditchain/merkle.py:43-64 | a path of any shape, with siblings of any length, that climbs to a log's root starts at a leaf of the log, or inputs collide |
| `MerkleTheorems.ProofsAreSound` | src/auditchain/merkle.py:140-185 | membership under any claimed index and size: an accepted leaf is a record, or inputs collide |
| `MerkleTheorems.ProofsPinPositionAtTrueSize` | src/auditchain/merkle.py:166-185 | at the log's own size the leaf is the record at the claimed index, or inputs collide |
| `MerkleTheorems.RootIsInjective` | src/auditchain/merkle.py:60-72 | two lists of any lengths, empty included, with one root are equal, or inputs collide |
| `MerkleTheorems.SidesArePrefixFree` | src/auditchain/merkle.py:179-185 | the sides demanded at distinct positions of one tree are never prefixes of each other |
| `MerkleTheorems.OnePathOnePosition` | src/auditchain/merkle.py:140-185 | one path is accepted at one position of a tree only |
| `MerkleTheorems.RelabelledProofFoldsIff` | src/auditchain/merkle.py:13-14 | exactly when a proof survives a change of index and size: the demanded sides are the same |
| `MerkleTheorems.ReplayAtAnotherSize` | src/auditchain/merkle.py:140-163 | two honest proofs that also verify under another size |
| `Checkpoints.SameMessageIff` | src/auditchain/checkpoint.py:60-70 | exactly when two anchors sign the same bytes |
| `Checkpoints.MessageDecodesUniquely` | src/auditchain/checkpoint.py:60-70 | with colon-free key ids the signed bytes fix seq, hash, key id and root |
| `Checkpoints.ColonInKeyIdIsAmbiguous` | src/auditchain/checkpoint.py:67-69 | two different anchors with one message |
| `Checkpoints.SavedCheckpointLoads` | src/auditchain/checkpoint.py:96-199 | a made checkpoint, saved, loads back unchanged with the keys that made it |
| `Checkpoints.MadeAnchorIsOfRecord` | src/auditchain/checkpoint.py:96-131 | a made anchor has the record's values and the root, and a signature for each key that is there over seq:hash:key_id[:root] |
| `Checkpoints.SavedReadsBackIff` | src/auditchain/checkpoint.py:134-150 | what is saved reads back, and the version says what is in it |
| `Checkpoints.LoadsIff` | src/auditchain/checkpoint.py:153-199 | exactly which files load with which keys, and the error for a missing key |
| `Checkpoints.SealedAnchorNeedsItsKey` | src/auditchain/checkpoint.py:187-199 | a file with a sealed anchor's HMAC does not load without the seal key, and with it only if its own message has that HMAC |
| `Checkpoints.SignedCheckpointNeedsOnlyPublicKey` | src/auditchain/checkpoint.py:177-187 | a signed checkpoint loads with the public key alone and not with a seal key alone |
| `Checkpoints.LoadedHmacAnchorIsGenuine` | src/auditchain/checkpoint.py:187-198 | an accepted HMAC anchor has the genuine four fields, or two messages share an HMAC |
| `Verify.VerifyChain` | src/auditchain/verify.py:45-176 | the one-pass loop with its running hash and count reports the verdict of the first fault |
| `VerifyTheorems.AcceptsExactlyValidChains` | src/auditchain/verify.py:71-176 | accepted if and only if count, anchor, seq, link, key, hash, signature and root conditions all hold; an accepted report counts all records and signatures and carries the root |
| `VerifyTheorems.FirstBreakIsLocated` | src/auditchain/verify.py:95-155 | a break in the loop is reported at the length of the longest prefix that verifies on its own, with a reason that names the rule broken there |
| `VerifyTheorems.OuterReasonsAreExact` | src/auditchain/verify.py:71-93 | truncation, anchor, count and root failures are each reported exactly when they occur and the checks before them hold, with their figures |
| `VerifyTheorems.RewrittenRecordIsCaught` | src/auditchain/verify.py:122-128 | a record rewritten in any hashed field that keeps its hash is reported as modified, or inputs collide |
| `VerifyTheorems.ChainBeginsAtZeros` | src/auditchain/records.py:10-10 | the first record of an accepted chain follows sixty-four zeros |
| `VerifyTheorems.AcceptedUnderOtherTrustIff` | src/auditchain/verify.py:34-42 | exactly when a chain accepted with some keys and signers is accepted with others |
| `VerifyTheorems.TailHashPinsHistory` | src/auditchain/verify.py:95-155 | two accepted chains that agree on a hash at s and u have s = u and equal values in all seven hashed fields up to there, or sealed inputs collide |
| `VerifyTheorems.SameRootSameHashes` | src/auditchain/verify.py:157-157 | accepted chains with one Merkle root have the same hashes, or inputs collide |
| `VerifyTheorems.RootedAnchorPinsLog` | src/auditchain/verify.py:157-168 | a log accepted against a rooted checkpoint is the anchored log, not truncated, extended or rewritten, or inputs collide |
| `Log.AuditLog.Open` | src/auditchain/log.py:53-82 | which configurations are refused, keys under 16 bytes and two locks included, in which order; whether the log is shared; its first state |
| `Log.Backend.AppendMany` | src/auditchain/backends/base.py:30-34 | the default batch stores one record at a time, up to the write that raises |
| `Log.AuditLog.Append` | src/auditchain/log.py:139-169 | open, lock, refresh, seal, store, cache: the new state and result, with storage that cannot be read, a lock timeout, an unsealable record or a failed write |
| `Log.SealAll` | src/auditchain/log.py:181-188 | the batch loop seals each record onto the one before, or fails as a whole |
| `Log.AuditLog.AppendMany` | src/auditchain/log.py:171-193 | the write of a fully sealed batch: the new state and result, with every failure of an append and a batch stored in part |
| `Log.AuditLog.Rotate` | src/auditchain/log.py:195-220 | the marker is appended under the old key before the keys change |
| `Log.AuditLog.Checkpoint` | src/auditchain/log.py:227-251 | the anchor of the last record over the root of all, or the error |
| `Log.AuditLog.Verify` | src/auditchain/log.py:268-296 | verification with the keyring, the current key and the log's own signer; a report, not an exception, when storage cannot be read |
| `LogTheorems.NextRecordIsWritten` | src/auditchain/log.py:101-137 | a sealed record follows its predecessor, hashes under its writer's key and carries that writer's signature |
| `LogTheorems.NextRecordCarries` | src/auditchain/log.py:101-137 | it carries the entry's fields, the clock's time where the entry says none, no signature where nobody signs; it is missing exactly when its fields cannot be encoded |
| `LogTheorems.BatchCarries` | src/auditchain/log.py:181-188 | each record of a batch carries its own entry, at its own time |
| `LogTheorems.AppendFailsIff` | src/auditchain/log.py:139-169 | each failure of an append has its one cause; a failed append stores nothing and changes no key |
| `LogTheorems.AppendManyFailsIff` | src/auditchain/log.py:171-193 | so with a batch, stored in part or whole; the empty batch succeeds and does nothing |
| `LogTheorems.WrittenChainIsValid` | src/auditchain/verify.py:95-155 | a chain written by its authors verifies with any keys that resolve them |
| `LogTheorems.ConsistentLogVerifies` | src/auditchain/log.py:268-296 | a log in the writer's invariant verifies with every record and signature counted |
| `LogTheorems.VerifyAcceptsIff` | src/auditchain/log.py:268-296 | exactly what `verify` accepts for any signers the caller names: every record linked, hashed under the key its id looks up, and signed by a signer named or the log's own |
| `LogTheorems.UnsignedLogFailsForAuditor` | src/auditchain/log.py:282-296 | an auditor who names signers is told of an unsigned log |
| `LogTheorems.AppendKeepsConsistent` | src/auditchain/log.py:139-160 | an append, successful or not, keeps the writer's invariant |
| `LogTheorems.AppendManyKeepsConsistent` | src/auditchain/log.py:171-193 | so does a batch, stored whole or, on a shared log, in part |
| `LogTheorems.PartialBatchIsHarmlessIff` | src/auditchain/backends/base.py:30-34 | a batch stored in part leaves a log that verifies; it still does after the next append exactly when the log is shared or nothing was stored |
| `LogTheorems.RotateKeepsConsistent` | src/auditchain/log.py:195-220 | so does a rotation that fails, or that was safe by the state before it |
| `LogTheorems.RotationIsDocumented` | src/auditchain/log.py:195-220 | a rotation appends one record that says so under the old key and then changes seal key, key id and keyring; a failed one, a key under 16 bytes included, changes none |
| `LogTheorems.RotatedLogVerifiesIff` | src/auditchain/log.py:195-220 | exactly when a rotated log verifies, for any rotation, in terms of the log before the call |
| `LogTheorems.SafeRotationVerifies` | src/auditchain/log.py:195-220 | the guard a caller can check is enough, and necessary up to two keys giving one record the same digest |
| `LogTheorems.RotatingUnsealedLogBreaksIt` | src/auditchain/log.py:204-220 | rotating an unsealed empty log leaves one that verifies only if HMAC and SHA-256 agree on the marker |
| `LogTheorems.ReusingKeyIdBreaksIt` | src/auditchain/log.py:217-219 | rotating an empty log to the key id it has leaves one that verifies only if both keys give the marker one HMAC |
| `LogTheorems.ReopenedLogVerifiesIff` | src/auditchain/log.py:53-82 | exactly when a log still verifies for whoever opens it next: its own key for its own id, the keyring it brings for the others |
| `LogTheorems.OwnKeyringReopens` | src/auditchain/log.py:53-82 | with its own key and keyring it verifies as before |
| `LogTheorems.RetiredKeysMakeTheDifference` | src/auditchain/log.py:74-76 | opened with a new key it verifies if the keyring has the retired keys, and reports an unknown key id if not |
| `LogTheorems.ReopenKeepsConsistent` | src/auditchain/log.py:53-82 | opening it with keys that resolve the earlier records keeps the writer's invariant |
| `LogTheorems.EveryRunVerifies` | src/auditchain/log.py:53-296 | after any sequence of appends, batches, safe rotations and safe reopenings, with failures anywhere, the log verifies completely and a checkpoint just taken passes |
| `LogTheorems.DisciplinedRunsAreCareful` | src/auditchain/log.py:195-220 | a log sealed from the start under a named key, with a fresh id on every rotation, meets the guards of all its operations |
| `LogTheorems.CheckpointJustTakenPasses` | src/auditchain/log.py:233-251 | the checkpoint anchors the last record and its log meets it |
| `LogTheorems.TakenCheckpointSays` | src/auditchain/log.py:233-251 | a checkpoint has the last record's values, the root over all records, and the signatures of the log's own keys over them |
| `LogTheorems.CheckpointFailsIff` | src/auditchain/log.py:233-244 | exactly when there is no checkpoint, and why |
| `LogTheorems.CheckpointOfSealedLogIsSealed` | src/auditchain/log.py:233-251 | the checkpoint of a sealed log loads with the seal key and not without |
| `LogTheorems.BatchRefinesSingles` | src/auditchain/log.py:171-193 | a batch leaves the storage, tail and records of its entries appended one by one |
| `LogTheorems.FailedBatchChangesNothing` | src/auditchain/log.py:183-190 | one entry that cannot be sealed, anywhere in the batch, and nothing is stored |
| `Signatures.RecordAndAnchorMessagesMeetIff` | src/auditchain/signing.py:110-128 | exactly when a record and an anchor sign the same bytes |
| `Signatures.SignedRecordIsAnAnchor` | src/auditchain/log.py:126-137 | every record of a signing log gives an anchor that loads and that the log meets, though no checkpoint it takes is that anchor |
| `Signatures.RootedMessageDecodes` | src/auditchain/checkpoint.py:60-70 | an anchor with a root, of any contents, has the bytes of a colon-free anchor only if it has its four fields |
| `Signatures.LoadedAnchorWasMade` | src/auditchain/checkpoint.py:177-187 | an accepted Ed25519 anchor with a root has the four fields of one its signer made; one without may be a signed record's; or the signature is forged |
| `Signatures.TakenAreAnchorsOf` | src/auditchain/log.py:233-251 | the checkpoints a log has taken at any earlier states are anchors of its prefixes |
| `Signatures.SignedLogIsPrefix` | src/auditchain/verify.py:67-69 | whoever holds the seal keys cannot rewrite a signed log: an accepted one is a prefix of what was signed, or inputs collide, or a signature is forged |
| `Signatures.AnchoredLogKeepsHistory` | src/auditchain/verify.py:71-86 | a log accepted against any signed anchor starts with the signer's records up to the anchor, or inputs collide, or the anchor is forged |
| `Signatures.SignedRootPinsLog` | src/auditchain/verify.py:157-168 | a log accepted against a signed anchor with a root is exactly the anchored prefix, or inputs collide, or the anchor is forged |
| `Writers.StepKeepsInvariant` | src/auditchain/log.py:151-169 | every step of every writer, batches stored in part included, keeps one chain and lets the store only grow |
| `Writers.InterleavingsKeepOneChain` | src/auditchain/log.py:139-193 | in every interleaving, with stale caches, different keys and crashes, storage is one linked chain, each hash under its writer's key |
| `Writers.StoredRecordsStay` | src/auditchain/log.py:158-159 | a stored record is found at its sequence number in every later state |
| `Writers.UndisturbedWriterAppends` | src/auditchain/log.py:139-160 | six steps of a writer left in peace are one `append` of a shared log, stale tail or not |
| `Writers.UndisturbedWriterAppendsBatch` | src/auditchain/log.py:171-193 | and one `append_many` |
| `Writers.WritersChooseKeys` | src/auditchain/log.py:53-82 | anybody may join with any keys, at the store's end, and an idle writer may change its seal key |
| `Writers.WritersCanMove` | src/auditchain/locks.py:96-101 | a writer inside an append can always go on or crash, and a crash of the holder lets any other take the lock |
| `Locks.StepKeepsInvariant` | src/auditchain/locks.py:150-201 | every step of acquire, release, timeout and crash keeps the lock's invariant, but an interrupt once the depth is set and the last release by a foreign thread |
| `Locks.ExclusiveIffOrderly` | src/auditchain/locks.py:150-201 | all states of a run are exclusive if and only if neither of those two steps is in it |
| `Locks.AtMostOneHolder` | src/auditchain/locks.py:150-201 | in every such interleaving at most one lock object is held; it has the OS lock and its owner the mutex |
| `Locks.BrinkIsReached` | src/auditchain/locks.py:150-166 | a run of two processes up to the point where the interrupt does its harm |
| `Locks.InterruptLetsTwoHold` | src/auditchain/locks.py:166-172 | after an interrupt once the depth is set another process acquires while the first object still counts as held |
| `Locks.HolderIsAtomic` | src/auditchain/locks.py:150-196 | seen from outside the lock is one holder that is taken in one step and given up in one step |
| `Locks.UncontendedAcquire` | src/auditchain/locks.py:150-168 | an uncontended acquire is four steps, with its whole new state |
| `Locks.UncontendedRelease` | src/auditchain/locks.py:184-196 | the owner's last release is three, with its whole new state |
| `Locks.FailureRestores` | src/auditchain/locks.py:158-172 | a timed-out acquire leaves the object closed and unowned and the mutex as before, whatever others did |
| `Locks.LoneTimeoutChangesNothing` | src/auditchain/locks.py:155-172 | an undisturbed timeout restores the whole state |
| `Locks.FailedOpenChangesNothing` | src/auditchain/locks.py:155-172 | so does a lock file that cannot be opened |
| `Locks.ThreadsCanMove` | src/auditchain/locks.py:150-196 | a thread inside a call always has a next step, and outside one what it may start is decided by owner and mutex alone |
| `Locks.FreeLockIsGranted` | src/auditchain/locks.py:96-101 | a poll takes the OS lock exactly when it is free, and a crash of its process frees it |
| `Locks.NestedAcquire` | src/auditchain/locks.py:152-154 | re-entry goes one deeper and nothing else, and a release takes it back |
| `Locks.NestedReleases` | src/auditchain/locks.py:184-196 | an object held n deep stays held through n-1 releases and starts unlocking at the n-th |
| `FileLocks.FileLock.Acquire` | src/auditchain/locks.py:150-172 | re-entry, waiting for the mutex, a lock file that cannot be opened, success after polling, timeout with everything restored, or an interrupt once the depth is set |
| `FileLocks.FileLock.Release` | src/auditchain/locks.py:184-201 | nested, final, idle and foreign release in any state, each with its whole new state |
| `FileLocks.AcquireRunsMachine` | src/auditchain/locks.py:150-172 | the object's uncontended acquire is the machine's four steps |
| `FileLocks.ReleaseRunsMachine` | src/auditchain/locks.py:184-201 | its last release is the machine's three |
| `FileLocks.NestAndUnwind` | src/auditchain/locks.py:150-196 | n acquires and n releases bring lock and mutex back to where they were |
| `Jsonl.ScanForLastLine` | src/auditchain/backends/jsonl.py:89-106 | for every content and every chunk size the backward scan returns the last non-blank line |
| `Jsonl.SuffixDecides` | src/auditchain/backends/jsonl.py:101-105 | two non-blank pieces in a suffix decide the file's last line |
| `Jsonl.JoinedIsOneByOne` | src/auditchain/backends/jsonl.py:58-67 | the joined batch with its final newline is the text of single appends |
| `JsonlTheorems.LineEndsAtBreak` | src/auditchain/backends/jsonl.py:74-74 | `splitlines` ends a line at each of its ten break characters and at no other, a carriage return with its newline being one end |
| `JsonlTheorems.BlankAlike` | src/auditchain/backends/jsonl.py:78-101 | both readers call the same ASCII lines blank but for the separators 28 to 31 |
| `JsonlTheorems.BlankLinesAreSkipped` | src/auditchain/backends/jsonl.py:77-79 | a blank line anywhere changes nothing of what is loaded |
| `JsonlTheorems.CorruptLineFailsLoad` | src/auditchain/backends/jsonl.py:80-83 | a line that does not parse, anywhere, fails the load |
| `JsonlTheorems.ReadersReport` | src/auditchain/backends/jsonl.py:69-114 | exactly when each reader raises the decoding error, and when the scan finds nothing or corruption |
| `JsonlTheorems.WideBreaks` | src/auditchain/backends/jsonl.py:49-49 | in printed lines the breaks are U+0085, U+2028 and U+2029 |
| `Jsonl.JsonlBackend.Append` | src/auditchain/backends/jsonl.py:51-56 | adds the printed record and a newline |
| `Jsonl.JsonlBackend.AppendMany` | src/auditchain/backends/jsonl.py:58-67 | adds, in one write, what single appends add |
| `Jsonl.JsonlBackend.Load` | src/auditchain/backends/jsonl.py:69-84 | parses every non-blank line in order, or reports corruption, or raises the decoding error |
| `Jsonl.JsonlBackend.LoadLast` | src/auditchain/backends/jsonl.py:86-114 | parses the last non-blank line of any bytes, or reports corruption, or raises the decoding error |
| `JsonlTheorems.LoadSeesWrittenLinesIff` | src/auditchain/backends/jsonl.py:69-74 | exactly when the full load sees the written lines |
| `JsonlTheorems.LineSeparatorSplitsALine` | src/auditchain/backends/jsonl.py:74-74 | any printed line with U+2028 in it is two lines to the full load |
| `JsonlTheorems.ScanReturnsLastRecord` | src/auditchain/backends/jsonl.py:86-114 | on every written file the scan returns the last stored record |
| `JsonlTheorems.ScanAgreesWithLoad` | src/auditchain/backends/jsonl.py:69-114 | on written files free of wide line breaks the load returns the records and the scan its last |
| `JsonlTheorems.ScanAgreesWithLoadIff` | src/auditchain/backends/jsonl.py:69-114 | on every written file the load returns all records or, exactly when a line has a wide break, reports corruption; exactly then the two readers disagree |
| `JsonlTheorems.LineSeparatorHidesTheLog` | src/auditchain/backends/jsonl.py:49-84 | one record with U+2028 in it makes the whole file unreadable to the load, not to the scan |
| `JsonlTheorems.WritingExtendsStored` | src/auditchain/backends/jsonl.py:51-67 | writing a batch, or one record, to a file that stores a log stores the longer log |
| `JsonlTheorems.AppendSingly` | src/auditchain/backends/jsonl.py:51-67 | appending one by one leaves the text that one batch leaves |
| `Handler.AuditLogHandler.Write` | src/auditchain/handlers.py:202-211 | one append; a failure is counted and not raised |
| `Handler.AuditLogHandler.Emit` | src/auditchain/handlers.py:177-200 | dropped when closed or unresolvable, queued in background mode, refused inside an event loop, written at once otherwise |
| `Handler.AuditLogHandler.Work` | src/auditchain/handlers.py:221-238 | the worker's loop writes up to the sentinel or until it waits, splits the queue there, and closes the log if asked |
| `Handler.AuditLogHandler.Close` | src/auditchain/handlers.py:248-265 | undisturbed, close has everything queued written once and in order before it returns |
| `Handler.DrainWritesBeforeStop` | src/auditchain/handlers.py:225-232 | exactly the entries before the sentinel are written, in order |
| `Handler.DrainKeepsWhatIsBehind` | src/auditchain/handlers.py:225-232 | what was queued behind the sentinel stays queued |
| `Handler.WriteAllCounts` | src/auditchain/handlers.py:202-211 | writing entries adds a record for each but the counted failures and takes none away |
| `HandlerRuns.NothingIsLostOrReordered` | src/auditchain/handlers.py:177-265 | in every interleaving attempted, in hand and queued make up all that was queued, in order; successes are the new records in order, failures are counted once, the log verifies |
| `HandlerRuns.FlushMeansAllAttempted` | src/auditchain/handlers.py:243-246 | when the queue's count is zero everything queued has been attempted |
| `HandlerRuns.FlushReturnsIff` | src/auditchain/handlers.py:243-246 | `close` goes on from its flush exactly when all that was queued has been attempted |
| `HandlerRuns.ClosedMeansAttemptedUpToSentinel` | src/auditchain/handlers.py:248-265 | after close exactly what was queued before the sentinel has been attempted, each entry once |
| `HandlerRuns.EntryBehindSentinelIsLost` | src/auditchain/handlers.py:177-188 | a run in which an entry that found the handler open is queued behind the sentinel and never attempted |
| `HandlerRuns.ClosedLogIsFinal` | src/auditchain/handlers.py:228-229 | an exited worker never writes again |
| `HandlerRuns.ClosedLetsNobodyIn` | src/auditchain/handlers.py:178-180 | after close no thread gets in; only those already past the check can still queue |
| `HandlerRuns.UndisturbedCloseEnds` | src/auditchain/handlers.py:248-265 | undisturbed, close ends with everything queued attempted in order, with the outcome of the handler object's own close |
| `Anchors.AcceptedProofPinsRecord` | src/auditchain/__main__.py:148-166 | a proof accepted against the checkpoint of a valid chain is for the record at its claimed index, or inputs collide |
| `Anchors.ProofAgainstTakenCheckpoint` | src/auditchain/__main__.py:148-166 | in particular against the saved checkpoint that the log takes |
| `Anchors.AcceptedSignedProofPinsRecord` | src/auditchain/__main__.py:148-166 | a proof accepted against any Ed25519-signed file is for the record of the signer's log at its index, or inputs collide, or the file is forged |
| `Anchors.AcceptedProofPinsFields` | src/auditchain/__main__.py:148-166 | hence a record shown with it has the logged record's hashed fields, or inputs collide |
| `Anchors.AcceptedProofAgainstRootIsMember` | src/auditchain/__main__.py:149-166 | against a bare root only membership follows |
| `Anchors.VerifyProofAgainstIff` | src/auditchain/__main__.py:148-166 | exactly when `verify-proof` accepts against a file, and which error each refusal is |
| `Anchors.GivenRootWins` | src/auditchain/__main__.py:148-165 | a root given outright is what counts, whatever file there is; with neither there is an error |
| `Anchors.HonestProofPasses` | src/auditchain/__main__.py:141-166 | every record of a valid log has a proof that passes against the log's saved checkpoint |

## Left out

- SHA-256, HMAC, Ed25519, the `json` module and the UTF-8 decoder: library code, taken as parameters.
- SQLite and PostgreSQL storage: foreign calls; the log is proved over a store whose batch write stops after any number of records, none and all included.
- `Writers.InterleavingsKeepOneChain`: writers are threads or processes with one append in flight each; two coroutines of one thread share the re-entrant lock and are not serialised by it.
- `Writers.InterleavingsKeepOneChain`: a write or a crash can store part of a batch, but not part of a record; a half-written line is not modelled.
- `Locks.StepKeepsInvariant`: an exception inside `release`, between its single assignments, is not a step of the machine.
- `FileLocks.FileLock.Acquire`: the passing of time between polls is not modelled; the polls are a list of answers.
- `HandlerRuns.NothingIsLostOrReordered`: one closing thread; two threads inside `close` at once are not modelled.
- `Handler.AuditLogHandler.Emit`: how an entry is resolved, or fails to be, is a parameter; actor and metadata resolution and tracebacks are single-branch facts.
- `JsonlTheorems.ScanAgreesWithLoadIff`: files written by the backend; for hand-edited files each reader is specified by itself (`Jsonl.JsonlBackend.Load`, `Jsonl.JsonlBackend.LoadLast`).
- Sibling sides are the values left, right and any other string, instead of strings.
- Metadata keys are strings; keys of other types re-sort when a log is read back.
- Unusable public keys that make signature checks raise, the JSON type checks of proof files, the rest of the command line, and `sync.py`: plumbing.
