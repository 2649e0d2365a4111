# A verified model of the transparency-log core

This project models the part of cryptovalid that makes a ledger tamper-evident, and proves what it
promises: the RFC 6962 / RFC 9162 Merkle algebra, the c2sp.org/tlog-witness protocol with its quorum
rule, and the components that reuse both (append-only monitor, receipts, SCITT registration,
segmented ingest with crash recovery, Merkle sum tree, CBOR and signed-note codecs, Ed25519 key rules).

Hashes are symbolic: a digest is the term that was hashed, so collision-freeness and the 0x00/0x01
domain separation are structural, while proof elements stay arbitrary digests. Signatures are symbolic:
a signature records who signed what. Clocks, disk failures, crash positions and the Ed25519 check of a
SCITT issuer are parameters. Integers are unbounded; reduction modulo p, 64-bit limits, byte budgets and
line limits are written out.

Code that only computes became functions; loops became methods with invariants; the witness, the
ingest writer, the monitor, the SCITT service and the key cache, which update state in place, became
classes whose methods are proved equal to functions on values, about which the theorems are proved.

## Main results

1. **Merkle verifiers are exact.** Against the true root of n leaves, `verify_inclusion`, the strict
   walkers and `verify_consistency` accept exactly the true leaf or old root with exactly the prover's
   path, overlong paths included (`InclusionExact`, `StrictInclusionExact`, `ConsistencyExact`).
   The bridge is a third definition of the tree, level by level (`RootIsMth`, `SubproofIsLevelPath`).
2. **Witness runs.** Over every sequence of requests from the empty state: the cosigned checkpoints of an
   origin form an append-only history; memory stays within its budgets; the saved state is the one in
   memory on every exit; every evidence record is true; an honest log is never accused; and two different
   roots of one size, presented at any two moments of a run, end up as a pair in the evidence file as long
   as nothing remembered of that origin was dropped in between, and as a proof with both signed notes if the
   first note has at most 16384 bytes and was no rollback (`CosignedHistoryIsAppendOnly`, `RunIsReachable`,
   `MemoryIsSaved`, `HonestLogIsNeverAccused`, `SplitViewIsCaughtInRun`, `SplitViewIsProvedInRun`).
3. **Quorum safety.** With M witnesses, f of them dishonest, and thresholds that add up to more than M + f,
   any two checkpoints accepted by any two relying parties are consistent; what an honest witness returns is
   accepted; and which notes are accepted at all is stated exactly, by lines, keys and times
   (`QuorumSafety`, `CosignedNoteIsWitnessed`, `Submit`, `WitnessedExactly`).
4. **Codecs are exact.** Checkpoint texts and request bodies are accepted if and only if they are what the
   printer writes for some valid fields (`CheckpointTextExact`, `BodyExact`). Notes are read more loosely
   than they are printed: `NoteExact` says which strings split, `SigLineExact` and `NotePrintedExactly`
   which of them are printed forms. CBOR decoding inverts encoding and the index-advancing decoder equals
   a reference reader.
5. **Storage.** Conservation of events over append, flush, seal, rotation, failed seals and crashes
   (`Ingestor`), an exact account of `_resume` on any file (`ResumeExact`), the exact condition under which
   the writer's archive verifies (`ArchiveVerifiesExactly`), what an auditor accepts (`AcceptedExactly`), and
   with pinned keys a HEAD that binds the archive to what the writer wrote (`PinnedArchiveIsWritten`).
6. **Receipts, SCITT, sum tree, monitor**: each with both directions, from the signature of the log or the
   issuer on (`InclusionReceiptExact`, `StatementExactly`); for SCITT end to end, from signing and
   registration to the verdict on the transparent statement and back (`IssuedStatementVerifies`,
   `RegisteredStatementVerifies`, `VerifiedStatementIsRegistered`).
7. **Ed25519.** Decoding finds exactly the curve points, one for each accepted string, by Fermat's little
   theorem, which is proved here; encoding and decoding undo each other (`DecodeExactly`, `DecodeEncode`,
   `EncodeDecode`). That 2^255 - 19 is prime is the one premise. The two small-order checks agree on every octet string, because the addition formula
   applied to a point and itself gives -4 times the dedicated doubling, and doubling keeps the curve
   equation (`SelfAddIsDouble`, `DoubleRawOnCurve`, `ActaKeyProblem`).

Properties that turned out false of the code, each with its input and its exact condition:

- `verify_inclusion` has no stop at the root and no test for a negative index, so it accepts inputs the
  strict walkers refuse (`LaxIsNotStrict`, `NegativeIndexIsWalked`). What it accepts is strictly accepted
  exactly when the index is not negative and the proof has the length that index and size call for
  (`LaxIsStrictExactly`). In any case an accepted leaf is in the tree (`AcceptedLeafIsInTree`).
- The old size in a consistency receipt is unsigned, and a negative one is walked: the size can lie
  (`NegativeSizeIsAccepted`). On accepted receipts it is the true size exactly when it is positive, and
  whatever it says the remembered ledger is a prefix (`AcceptedConsistencyMeansPrefix`).
- A receipt with an unsupported vds is refused, except that an inclusion receipt which says "ok": false skips
  that test (`FailedInclusionIsAccepted`); the iff is `InclusionVdsExactly`.
- A registered statement that carries anything but byte strings under label 394 never gets a transparent
  statement that verifies (`OneUnderReceiptsBlocks`); the iff is `RegisteredStatementVerifies`.
- The archive of a writer verifies exactly when it has 1 to 10^6 sealed segments, HEAD is missing or counts
  them all, and a sidecar left by a seal that failed at HEAD covers its segment (`ArchiveVerifiesExactly`).
  Above 10^6 the listing by name is out of numeric order (`ListedInOrderExactly`); after a crash between
  sidecar and HEAD it verifies only if there was no HEAD yet (`CrashInSeal`); after a failed HEAD write the
  next completed seal repairs everything, unless a crash comes first and the segment has grown, which no
  later seal repairs (`AdoptInvExactly`, `BrokenSegmentStays`).
- Reopening takes the active segment for the last one exactly when its number is below 10^6 or all its
  digits but the last are nines (`ReopensActiveExactly`); otherwise the reopened
  writer is valid exactly when it lands on the active file and that file is empty (`CrashAndReopen`), and a
  writer that restarts on a file with lines breaks its chain (`RestartBreaksChain`).
- A signature line can be accepted without being what the printer writes (`StrayBitIsRead`); it is printed
  exactly when the name has at most 255 bytes and no base64 bits are left over (`SigLineExact`).
- A submission that the witness cosigns can still be refused by the client: `split_note` is applied to the
  note and the answer together, and counts an old line of the witness that both sides replace.
  `Submit` states the exact condition, `CrowdedNote` shows the family.
- A detached payload and an attached empty one give one `statement_id` (`DetachedAndEmptyCollide`);
  `StatementIdBinds` says exactly which statements share an identity.
- The pairing loop just before a cosignature never finds a partner in a reachable state
  (`PairingAtCosignNeverFires`): the look before the gate has already paired.

## Model

| member | source | states |
|---|---|---|
| MerkleTree.LargestPow2Below | cryptovalid_merkle.py:34-38 | the split point is a power of two k with k < n <= 2k |
| MerkleVerifiers.DoubleToPow2Below | cryptovalid_merkle.py:34-38 | the doubling loop finds that split point, and 0 below two leaves |
| MerkleTree.Pow2BelowIsUnique | cryptovalid_merkle.py:34-38 | the split point is unique |
| MerkleTree.BitTrickIsPow2 | cryptovalid_merkle.py:109 | m & (m-1) is zero exactly for powers of two, never for a negative m |
| MerkleTree.MthInjective | cryptovalid_merkle.py:41-49 | equal tree hashes come from equal leaf lists, lengths not assumed |
| MerkleTree.LeafInTreeIsALeaf | cryptovalid_merkle.py:26-49 | a leaf hash occurring anywhere inside a tree hash is the hash of one of its leaves |
| MerkleLevels.RootIsMth | cryptovalid_merkle.py:41-49 | the recursive tree hash equals level-by-level pairing with odd promotion |
| MerkleLevels.InclusionProofIsLevelPath | cryptovalid_merkle.py:52-61 | the recursive audit path is the list of siblings met going up level by level |
| MerkleLevels.SubproofIsLevelPath | cryptovalid_merkle.py:92-99 | the recursive consistency proof is the level path of the last old leaf |
| MerkleLevels.ConsistencyProofLength | cryptovalid_merkle.py:83-99 | at most ceil(log2 n) + 1 hashes |
| MerkleLevels.InclusionProofLength | cryptovalid_merkle.py:52-61 | at most ceil(log2 n) hashes |
| MerkleWalk.WalkAlongLevelPath | cryptovalid_merkle.py:64-80 | walking a true path from any position of any level ends at its root |
| MerkleWalk.StrictWalkSound | cryptovalid_receipt.py:298-317 | a strict walk that ends at the root of a level started from its node with the true path |
| MerkleWalk.LaxWalkSound | cryptovalid_merkle.py:64-80 | the same without the stop at the root: overlong paths never reach a true root |
| MerkleWalk.WalkContains | cryptovalid_scitt.py:211-227 | any walked root contains the starting hash, whatever size was claimed |
| MerkleWalk.InclusionExact | cryptovalid_merkle.py:52-80 | accepted against the true root iff the leaf is data[m] and the path is the prover's |
| MerkleWalk.StrictInclusionExact | cryptovalid_receipt.py:298-317 | the same for the strict walkers, from a leaf hash |
| MerkleWalk.StrictImpliesLax | cryptovalid_merkle.py:64-80 | on every input, what the strict walk reaches the lax walk reaches |
| MerkleWalk.WalkTakes | cryptovalid_merkle.py:64-80 | a strict walk succeeds iff the proof has the length the position calls for, a lax one iff at least that |
| MerkleWalk.LaxIsStrictExactly | cryptovalid_merkle.py:64-80 | an accepted lax proof is strictly accepted iff the index is not negative and the length fits |
| MerkleWalk.LaxIsNotStrict | cryptovalid_merkle.py:70-80 | the overlong input: one leaf, one path element |
| MerkleWalk.NegativeIndexIsWalked | cryptovalid_merkle.py:66-69 | the negative input: the last of two leaves is accepted at index -1 |
| MerkleWalk.AcceptedLeafIsInTree | cryptovalid_merkle.py:64-80 | whatever index and size are claimed, a leaf accepted under a true root is one of its leaves |
| MerkleWalk.ConsistencyRootsSound | cryptovalid_receipt.py:320-348 | recomputing the true new root forces the old root and the path to be the true ones |
| MerkleWalk.ConsistencyRootsComplete | cryptovalid_receipt.py:320-348 | the prover's path recomputes both roots |
| MerkleWalk.ConsistencyExact | cryptovalid_merkle.py:83-131 | accepted against the true new root iff the old root is that of the first m leaves and the path is the prover's |
| MerkleWalk.ConsistentTreesArePrefixes | cryptovalid_merkle.py:102-131 | two accepted trees are prefix-related |
| MerkleWalk.WalkBothTrims | cryptovalid_merkle.py:117-130 | whatever the positions, the old running root is the new one with right subtrees dropped |
| MerkleWalk.TrimmedIsPrefix | cryptovalid_merkle.py:41-49 | a tree with right subtrees dropped along a path is the tree of a prefix |
| MerkleWalk.AcceptedOldRootIsAPrefix | cryptovalid_merkle.py:102-131 | for all claimed sizes, negative ones included, an old root accepted under a true root is that of a prefix |
| MerkleWalk.NegativeSizeIsWalked | cryptovalid_merkle.py:104-113 | the negative input: old size -1 is accepted |
| MerkleVerifiers.VerifyInclusion | cryptovalid_merkle.py:64-80 | the (fn, sn) loop computes the lax walk |
| MerkleVerifiers.VerifyInclusionFromLeafHash | cryptovalid_receipt.py:298-317 | true iff the strict walk from an index in range gives the root, on all integers |
| MerkleVerifiers.RootFromInclusion | cryptovalid_scitt.py:211-227 | the loop with the stop computes the strict walk |
| MerkleVerifiers.RebuildRoots | cryptovalid_merkle.py:113-131 | the loop computes both roots of the paired walk |
| MerkleVerifiers.VerifyConsistency | cryptovalid_merkle.py:102-131 | on all integers: the sizes are not refused and the paired walk gives (old, new) |
| MerkleVerifiers.RecomputeConsistencyRoots | cryptovalid_receipt.py:320-348 | None for m <= 0 or m > n; for 0 < m <= n returns (old, new) exactly when verify_consistency holds for new |
| MerkleVerifiers.ConsistencyVerdict | cryptovalid_merkle.py:134-140 | could not compare iff not 0 < m <= n; consistent iff verify_consistency holds |
| Notes.VerifyNote | cryptovalid_checkpoint.py:342-424 | the loops compute the verdict of the specification, missing libraries included |
| Notes.VerifyEachLine | cryptovalid_checkpoint.py:369-424 | the line loop: a known line that fails wins over one that cannot be checked |
| Notes.MissingLibraryWithholds | cryptovalid_checkpoint.py:366-420 | a missing library withholds a verdict and never changes one |
| Notes.VerifyLinesExact | cryptovalid_checkpoint.py:369-417 | the line loop succeeds iff every line of a known key verifies, and collects each of them |
| Notes.ValidExactly | cryptovalid_checkpoint.py:342-424 | valid iff keys are unambiguous, every known line verifies and there is one |
| Notes.VerifiedComesFromALine | cryptovalid_checkpoint.py:370-415 | each verified entry comes from a line that verifies under one of the given keys |
| WitnessSpec.Evict | cryptovalid_witness.py:336-342 | eviction ends within 100 roots and 256 KiB |
| WitnessSpec.DropOldestShrinks | cryptovalid_witness.py:336-342 | each turn of the eviction loop makes progress |
| WitnessSpec.Partner | cryptovalid_witness.py:323-324 | the partner is a different known root; none only if every root is this one |
| WitnessRequests.FrontGoIsSigned | cryptovalid_witness.py:166-208 | only log-signed checkpoints of the trusted origin reach the lock, and the kept lines prove it |
| WitnessRequests.KeptLinesExact | cryptovalid_witness.py:198-201 | the kept lines are the ones that are not the witness's own |
| WitnessInvariants.CandidatesFrom | cryptovalid_witness.py:300-302 | a candidate was refused, is pending or was cosigned at that size |
| WitnessInvariants.EvictSub | cryptovalid_witness.py:336-342 | eviction only removes |
| WitnessInvariants.MemoryIsSaved | cryptovalid_witness.py:233-410 | on every exit the saved state is the one in memory; at most one save and one record, of the note and the time of the request; logs only grow |
| WitnessInvariants.RequestKeepsBounds | cryptovalid_witness.py:211-410 | rings, pending budgets and pair keys stay bounded on every exit, and each root is pending once at a size |
| WitnessEvidence.WriteProofTruthful | cryptovalid_witness.py:239-256 | a pair of a log-signed note and another root keeps the evidence file true and is in it |
| WitnessEvidence.RequestKeepsTruth | cryptovalid_witness.py:211-410 | every request keeps evidence, pending notes, history and stored notes log-signed |
| WitnessEvidence.RequestSparesHonestLog | cryptovalid_witness.py:211-410 | a request of an honest log adds no record against it |
| WitnessRuns.DecisionExtends | cryptovalid_witness.py:362-378 | a cosigned checkpoint extends the stored one, also from size 0 |
| WitnessRuns.LockedMovesHead | cryptovalid_witness.py:346-410 | only a cosigning answer moves a stored head, only its origin's, to the cosigned checkpoint |
| WitnessRuns.LockedKeepsReachable | cryptovalid_witness.py:211-410 | each request past the checks keeps the whole invariant |
| WitnessRuns.RunIsReachable | cryptovalid_witness.py:211-410 | after every run: bounded, truthful, nothing pending at the stored size, size 0 means the empty root |
| WitnessRuns.HandleExtends | cryptovalid_witness.py:545-566 | no request moves a stored head except by extending it |
| WitnessRuns.StoredHeadsExtend | cryptovalid_witness.py:346-408 | stored heads only extend along a run |
| WitnessRuns.CosignedHistoryIsAppendOnly | cryptovalid_witness.py:346-408 | of two cosigned checkpoints of an origin in a run, the later extends the earlier |
| WitnessRuns.HonestLogIsNeverAccused | cryptovalid_witness.py:225-354 | if all log-signed checkpoints presented are prefixes of one leaf list, no run records anything against it |
| WitnessLiveness.CosignableExactly | cryptovalid_witness.py:362-378 | some proof gets a cosignature iff the stored head is that of a prefix; the prover's proof then does |
| WitnessLiveness.ProofFits | cryptovalid_witness.py:126 | an honest proof for up to 2^62 leaves fits the 63 lines |
| WitnessLiveness.HonestSubmissionSucceeds | cryptovalid_witness.py:355-410 | discovery is cosigned, or answered 409 and then the proof is cosigned |
| WitnessLiveness.LockedAnswer | cryptovalid_witness.py:355-378 | the answer is 200 exactly for the cosigning decision, else that decision's status and the stored size |
| WitnessLiveness.EquivocationIsRecorded | cryptovalid_witness.py:350-352 | a second root at the stored size is refused and recorded |
| WitnessLiveness.FutureConflictIsRecorded | cryptovalid_witness.py:323-329 | a second root beyond the stored size pairs with a pending one, with one whose note was kept if there is one, whatever old size is stated |
| WitnessLiveness.PairingAtCosignNeverFires | cryptovalid_witness.py:382-388 | in reachable states the pairing loop before cosigning finds nothing |
| WitnessSplitView.EvictKeepsLargest | cryptovalid_witness.py:336-342 | smaller sizes go before larger, older roots before newer |
| WitnessSplitView.RefusalIsRemembered | cryptovalid_witness.py:288-298 | after a rollback or an unproven extension the refusal is in the ring on disk |
| WitnessSplitView.RollbackConflictIsRecorded | cryptovalid_witness.py:299-308 | a rollback to a size with a different root refused, pending or recently cosigned leaves a pair, a full one if that root is known with its note |
| WitnessSplitView.FutureRootStaysPending | cryptovalid_witness.py:333-342 | a root beyond the stored size stays pending unless the budget evicts, with its note if that has at most 16384 bytes |
| WitnessSplitView.SecondRootIsRecorded | cryptovalid_witness.py:346-354 | the second of two roots at one size is paired with the stored or pending one, in full if its note was kept |
| WitnessSplitView.SplitViewIsCaught | cryptovalid_witness.py:312-354 | two roots at one size, presented one right after the other at or beyond the stored size, leave a pair, a full one if the first note has at most 16384 bytes |
| WitnessSplitView.SmallNoteIsKept | cryptovalid_witness.py:330-335 | beyond the stored size a note of at most 16384 bytes stays pending with its root, log-signed, unless cosigned or evicted |
| WitnessSplitView.SplitViewIsProved | cryptovalid_witness.py:239-354 | then the evidence file holds a split-view record that is proof: two notes of that size, signed by the log, with different roots |
| WitnessSplitView.FullPairHasNotes | cryptovalid_witness.py:229-256 | a full pair in a truthful evidence file is such a record |
| WitnessSplitRuns.RequestWritesStored | cryptovalid_witness.py:404-407 | every stored head has its line in the history file |
| WitnessSplitRuns.OthersUntouched | cryptovalid_witness.py:211-410 | a request changes nothing that is remembered of other origins |
| WitnessSplitRuns.PendingStays | cryptovalid_witness.py:319-342 | without eviction, pending roots stay with their notes, except at the size that is cosigned |
| WitnessSplitRuns.PresentedIsKnown | cryptovalid_witness.py:346-410 | a presented root is stored, pending or in the ring afterwards, or a pair is recorded; with its note if that can be kept |
| WitnessSplitRuns.KnownStays | cryptovalid_witness.py:211-410 | what is known of an origin stays known, with its note, over any request that drops nothing, or a pair is recorded |
| WitnessSplitRuns.KnownIsCaught | cryptovalid_witness.py:288-354 | a different root at the size of a known one leaves a pair, a full one if it is known with its note |
| WitnessSplitRuns.SplitViewIsCaughtInRun | cryptovalid_witness.py:211-410 | two roots of one size at any two moments of a run leave a pair, if nothing of the origin was dropped between; a full one if the first note is small and no rollback |
| WitnessSplitRuns.SplitViewIsCaughtInSmallHistory | cryptovalid_witness.py:262-273 | the same without a premise on the history lines while the file has at most 4 MiB |
| WitnessSplitRuns.SplitViewIsProvedInRun | cryptovalid_witness.py:211-410 | in a run, under the same conditions, some record proves the split view with two log-signed notes |
| WitnessAnswers.TimestampRefusedExactly | cryptovalid_witness.py:217-222 | a stated timestamp is refused iff it is outside 1..2^63-1 or older than the last cosignature; then nothing changes |
| WitnessAnswers.CosignedAtTheTime | cryptovalid_witness.py:395-410 | a cosignature carries the stated time or the clock; so do the stored checkpoint and the history line |
| WitnessAnswers.AnswerTable | cryptovalid_witness.py:355-378 | the HTTP status of every answer past the first checks, by what is stated and what is stored |
| WitnessAnswers.RefusalGivesBoth | cryptovalid_witness.py:288-354 | a rollback, an unproven extension or a conflict gives back the note presented and the stored note or that of the recorded pair |
| WitnessAnswers.FrontGoExactly | cryptovalid_witness.py:166-208 | which requests reach the lock: log keys only, valid note, its origin, 63 proof lines, 100 lines with its own |
| WitnessAnswers.TrustedLinesExactly | cryptovalid_witness.py:194-197 | the trusted lines are the lines of trusted keys, each once |
| WitnessAnswers.MemoryInNumbers | cryptovalid_witness.py:294-342 | after every run an origin has at most 100 pending roots, in 262144 bytes of notes, 100 refusals and 10000 pair keys in all |
| WitnessAnswers.EvictsOnlyOverBudget | cryptovalid_witness.py:336-342 | within 100 roots and 262144 bytes nothing is evicted |
| WitnessAnswers.EvictsNoMoreThanNeeded | cryptovalid_witness.py:336-342 | eviction drops one root at a time: with the last one put back the budget is still exceeded |
| WitnessAnswers.CountsAreSums | cryptovalid_witness.py:336-337 | count and bytes are sums over the pending sizes |
| WitnessAnswers.WindowIsLongest | cryptovalid_witness.py:262-272 | the scanned window is the longest end of the history within 4194304 bytes |
| WitnessAnswers.RefusalIsCounted | cryptovalid_witness.py:294-298 | a refusal that is not in the ring is counted and put last, the last 100 are kept; one that is changes nothing |
| WitnessAnswers.ReplayAddsNothing | cryptovalid_witness.py:239-256 | a conflict with the stored checkpoint presented again changes nothing |
| WitnessService.Witness.constructor | cryptovalid_witness.py:522-543 | a fresh witness has empty files |
| WitnessService.Witness.Load | cryptovalid_witness.py:60-92 | memory becomes the saved state; a malformed file is refused whole |
| WitnessService.Witness.Save | cryptovalid_witness.py:108-118 | the saved state becomes memory, nothing else changes |
| WitnessService.Witness.FlushIfDirty | cryptovalid_witness.py:235-237 | saves once, and only when dirty |
| WitnessService.Witness.RecordPair | cryptovalid_witness.py:239-256 | a new pair is recorded once and its key remembered, the last 10000 kept |
| WitnessService.Witness.FindPartner | cryptovalid_witness.py:323-324 | the first root with a kept note, else the first other root |
| WitnessService.Witness.EvictPending | cryptovalid_witness.py:336-342 | the while loop ends, within budget, with the specified result |
| WitnessService.Witness.LookAhead | cryptovalid_witness.py:312-342 | new memory and evidence of _note_future |
| WitnessService.Witness.ScanHistory | cryptovalid_witness.py:258-286 | the cosigned roots of the window at one size, first one wins |
| WitnessService.Witness.RingCandidates | cryptovalid_witness.py:300 | roots of remembered refusals at this size |
| WitnessService.Witness.RememberRefusal | cryptovalid_witness.py:294-298 | a replayed refusal changes nothing, a new one enters the ring of 100 |
| WitnessService.Witness.GatherCandidates | cryptovalid_witness.py:300-302 | refused, pending and cosigned roots in that order of precedence |
| WitnessService.Witness.Refuse | cryptovalid_witness.py:288-310 | new memory and evidence of _refused |
| WitnessService.Witness.LookBeforeGate | cryptovalid_witness.py:346-354 | what happens before the old-size gate |
| WitnessService.Witness.CheckProof | cryptovalid_checkpoint.py:442-457 | true iff all lines are hashes and the consistency check holds |
| WitnessService.Witness.CosignNow | cryptovalid_witness.py:382-410 | new files, memory and answer of the cosigning exit |
| WitnessService.Witness.Serve | cryptovalid_witness.py:211-410 | files, memory and answer are those of the specification, exit by exit |
| WitnessService.Witness.AddCheckpoint | cryptovalid_witness.py:545-566 | a whole request: unknown origin, checks before the lock, then the locked part; no effect with a malformed state file |
| WitnessClient.MergedIsCosigned | cryptovalid_witness.py:652-662 | the client's merge of a witness's lines is the note the witness built |
| WitnessClient.Ask | cryptovalid_witness.py:634-643 | an honest submission is cosigned in at most two requests |
| WitnessClient.AnswerMergesAndVerifies | cryptovalid_witness.py:652-668 | a cosigning answer merges into a note that verify_witnessed accepts |
| WitnessClient.Submit | cryptovalid_witness.py:623-669 | only an accepted note is returned; an honest submission ends with one iff note and answer stay within 100 lines |
| WitnessClient.CrowdedNote | cryptovalid_witness.py:654 | a note of 100 lines with an old line of the witness passes its checks and overflows the client's |
| Quorum.NewestPerWitness | cryptovalid_witness.py:461-464 | the newest timestamp of each distinct witness name |
| Quorum.VerifyWitnessed | cryptovalid_witness.py:413-480 | the whole verdict of the specification, bad policies and missing libraries included |
| Quorum.FreshWitnessSigned | cryptovalid_witness.py:468-478 | with an age limit, each counted witness has a verifying line in the time window |
| QuorumExact.WitnessedExactly | cryptovalid_witness.py:413-480 | accepted iff the call is proper, no line of a trusted key fails, a log line is there, the origin is right, and enough witnesses cosigned, enough of them in time; then all of them are returned |
| QuorumExact.WithheldExactly | cryptovalid_witness.py:448-450 | with a library missing the same answer or none, and exactly when none |
| QuorumExact.BadCallExactly | cryptovalid_witness.py:429-447 | the calls that raise an error: thresholds, key types, log names, two keys of one name and id |
| QuorumExact.CosignatureSays | cryptovalid_checkpoint.py:389-412 | a cosignature that verifies states a time in 1..2^63-1, over this text or this checkpoint |
| Quorum.ReplacedLinesVerify | cryptovalid_witness.py:397-400 | replacing a witness's lines keeps the note valid for the log's and the witness's keys |
| Quorum.CosignedNoteIsWitnessed | cryptovalid_witness.py:397-410 | the note in a cosigning answer is accepted by verify_witnessed |
| Quorum.CountedWitnessCosigned | cryptovalid_witness.py:461-467 | every honest witness counted by an acceptance cosigned that checkpoint |
| Quorum.QuorumSafety | cryptovalid_witness.py:413-480 | two accepted checkpoints of an origin: the larger extends the smaller |
| Monitor.Auditor.constructor | cryptovalid_monitor.py:50-54 | no state file, no baseline |
| Monitor.Auditor.CompareWithBaseline | cryptovalid_monitor.py:135-152 | no alert iff the saved root is that of the first n1 leaves; each alert exactly when it applies |
| Monitor.Auditor.CheckSavedHead | cryptovalid_monitor.py:112-134 | the saved head is unsigned, tampered with, or signed by the key over the baseline's own size and root |
| Monitor.Auditor.CheckBaseline | cryptovalid_monitor.py:111-163 | each alert about the baseline, exactly when it applies |
| Monitor.Auditor.Run | cryptovalid_monitor.py:87-213 | each alert exactly when it applies, green iff none; the baseline advances only on a green run with a signed head where one is needed |
| Monitor.BaselineIsLastWritten | cryptovalid_monitor.py:180-212 | the baseline is the tree head of the last run that wrote |
| Monitor.WrittenRunsGrow | cryptovalid_monitor.py:135-152 | leaves of a run that wrote are a prefix of those of every later such run |
| Monitor.HonestGrowthIsGreen | cryptovalid_monitor.py:87-213 | a writer whose ledger only grows is green in every run |
| Monitor.AuditorBaselineIsSigned | cryptovalid_monitor.py:188-209 | an auditor's baseline always has a signature of the trusted key over its own size and root |
| Monitor.AuditorAdvancesExactly | cryptovalid_monitor.py:188-212 | a green auditor run writes iff it has a head of this very tree signed by the trusted key, or the tree has not changed |
| Receipts.VerifyReceipt | cryptovalid_receipt.py:241-295 | the checks in order amount to the acceptance predicate |
| Receipts.AcceptedHeadIsSigned | cryptovalid_receipt.py:184-203 | the head of every accepted receipt is signed by the trusted key over its size and root |
| Receipts.InclusionReceiptExact | cryptovalid_receipt.py:262-274 | accepted iff the head is signed by the log, the ledger holds the entry at that index and the path is the prover's |
| Receipts.InclusionVdsExactly | cryptovalid_receipt.py:253-254 | an inclusion receipt that passes the other checks is accepted iff its vds is supported or it says "ok": false |
| Receipts.FailedInclusionIsAccepted | cryptovalid_receipt.py:253-273 | the input: an issued receipt without a vds and with "ok": false |
| Receipts.ConsistencyReceiptExact | cryptovalid_receipt.py:275-292 | with a positive old size, accepted iff the head is signed by the log and the remembered ledger is a prefix of that size |
| Receipts.AcceptedConsistencyMeansPrefix | cryptovalid_receipt.py:275-292 | on every accepted receipt the remembered ledger is a prefix, and the old size is true iff it is positive |
| Receipts.NegativeSizeIsAccepted | cryptovalid_receipt.py:278-291 | the failing input: old size -1 is accepted |
| Receipts.IssuedInclusionVerifies | cryptovalid_receipt.py:206-222 | an issued receipt verifies for its entry and for no other |
| Receipts.IssuedConsistencyVerifies | cryptovalid_receipt.py:225-238 | an issued receipt verifies iff the ledger only grew since the old head |
| SumTree.PairUp | committed_attestation.py:166-171 | one level up, odd node promoted |
| SumTree.BuildLevels | committed_attestation.py:160-174 | all levels, each from the one below, up to the single top |
| SumTree.CommitsExactly | committed_attestation.py:149-207 | a ledger commits iff it has a record and no contribution is negative |
| SumTree.TopHoldsTheSums | committed_attestation.py:142-174 | the top carries the sums of the leaf level |
| SumTree.CommittedTotals | committed_attestation.py:200-206 | published totals are the sums of the records' contributions |
| SumTree.InclusionPath | committed_attestation.py:335-349 | the loop over the levels gives the path of the index |
| SumTree.VerifyOpen | committed_attestation.py:365-411 | all_ok iff there are openings and each passes the four checks |
| SumTree.HonestOpeningVerifies | committed_attestation.py:352-362 | every index of every committed ledger opens and verifies |
| SumTree.AcceptedOpeningIsCommitted | committed_attestation.py:388-407 | an opening accepted against an honest commitment is a committed record with its exact contributions |
| SumTree.AcceptedOpeningIsBounded | committed_attestation.py:381-387 | for any prover, an opened record is inside the published tree with what the metric gives it, between zero and the published totals |
| SumTree.PublishedRootBinds | committed_attestation.py:190-206 | one published root commits to one list of records, salt, metric and date |
| Octets.BigRoundTrip | cryptovalid_receipt.py:62-71 | big-endian integers round trip |
| Cbor.HeadReads | cryptovalid_receipt.py:62-71 | a head is read back with its major type, argument and rest |
| Cbor.EncodeKeyInjective | cryptovalid_receipt.py:87-90 | different keys have different encodings |
| Cbor.KeysAreSorted | cryptovalid_receipt.py:88-90 | map keys are written in strictly increasing bytewise order of their encodings |
| Octets.LexLeExactly | cryptovalid_receipt.py:88-90 | that order: equal, or smaller at the first difference, or a proper prefix |
| Cbor.EncodedReads | cryptovalid_receipt.py:61-91 | an encoded value followed by anything reads back and leaves the rest |
| Cbor.RoundTrip | cryptovalid_receipt.py:61-150 | decoding undoes encoding for every encodable value of depth at most 64 |
| Cbor.EncodeInjective | cryptovalid_receipt.py:61-91 | the encoding is injective |
| Cbor.DecodedIsEncodable | cryptovalid_receipt.py:97-150 | a decoded value can be encoded again and input is consumed |
| CborDecoder.Rd | cryptovalid_receipt.py:98-146 | the index-advancing reader computes the specified item and position |
| CborDecoder.RdItems | cryptovalid_receipt.py:126-131 | the array loop reads its items in order |
| CborDecoder.RdPairs | cryptovalid_receipt.py:132-145 | the map loop refuses repeated and unhashable keys |
| CborDecoder.CborDecode | cryptovalid_receipt.py:97-150 | accepts exactly what the reference reader accepts, whole input consumed |
| CborDecoder.Agree | cryptovalid_receipt.py:97-150 | index reader and reference reader agree; a read past the end is never accepted |
| CborVectors.HeadIsShortest | cryptovalid_receipt.py:62-71 | every head is written in its shortest form |
| CborVectors.WideIntegerIsRead | cryptovalid_receipt.py:106-119 | a head written wider than needed is read all the same |
| CborVectors.RefusedHeads | cryptovalid_receipt.py:103-146 | reserved and indefinite lengths, tags and other simple values are refused |
| CborVectors.DepthLimit | cryptovalid_receipt.py:98-100 | nesting is accepted down to depth 64 and refused beyond |
| CborVectors.IntegerExamples | cryptovalid_receipt.py:61-79 | examples of appendix A of RFC 8949: integers from -1000 to 1000000 |
| CborVectors.ScalarExamples | cryptovalid_receipt.py:73-84 | the same for simple values and strings |
| CborVectors.ArrayExample | cryptovalid_receipt.py:85-86 | the same for arrays |
| CborVectors.MapExample | cryptovalid_receipt.py:87-90 | the same for maps |
| Scitt.Sign1RoundTrip | cryptovalid_scitt.py:118-129 | a printed COSE_Sign1 parses back to its parts |
| Scitt.ParseExactly | cryptovalid_scitt.py:118-129 | what parses is exactly the tagged array of the parts, with a protected map |
| Scitt.StatementIdBinds | cryptovalid_scitt.py:73-82 | one identity iff the signed parts agree |
| Scitt.DetachedAndEmptyCollide | cryptovalid_scitt.py:73-82 | counterexample: no payload and an empty payload |
| Scitt.TransparentKeepsIdentity | cryptovalid_scitt.py:230-239 | receipts are appended, every signed part and the identity stay |
| Scitt.TransparentIsDefined | cryptovalid_scitt.py:230-239 | transparent_statement does not fail on a statement that parses and receipts that are COSE_Sign1 |
| Scitt.TransparentVerifiesAlike | cryptovalid_scitt.py:132-160 | the issuer's signature verifies on the transparent statement iff on the statement |
| Scitt.StatementExactly | cryptovalid_scitt.py:132-160 | verifies iff it states EdDSA, claims and a key, has one payload, and the issuer's key verifies the signature over the content |
| Scitt.VerifiedIsSigned | cryptovalid_scitt.py:152-154 | a verified statement's signature verifies over bytes that say Signature1, its protected header, nothing, its payload |
| Scitt.IssuedParses | cryptovalid_scitt.py:100-115 | an issued statement parses to the header and payload it was made of |
| Scitt.IssuedStatementVerifies | cryptovalid_scitt.py:100-160 | an issued statement verifies under its issuer's key for its payload and no other |
| ScittLedger.Service.constructor | cryptovalid_scitt.py:163-189 | a fresh ledger is empty |
| ScittLedger.Service.Register | cryptovalid_scitt.py:163-189 | a verifying statement, and so one the issuer signed, is appended once at the end, chained, bound and with its claims; any other changes nothing |
| ScittLedger.RegisteredWasSigned | cryptovalid_scitt.py:163-189 | if the issuer signs certain contents only, an entry that registers a statement binds one of them |
| ScittLedger.CheckReceipt | cryptovalid_scitt.py:264-310 | true iff all checks on the receipt hold |
| ScittLedger.VerifyTransparent | cryptovalid_scitt.py:242-315 | ok iff the statement verifies, label 394 holds a non-empty array of byte strings, and one of them is a valid receipt |
| ScittLedger.LaterReceiptVerifies | cryptovalid_scitt.py:192-208 | a receipt taken at any later size verifies for the registered statement |
| ScittLedger.TransparentCarries | cryptovalid_scitt.py:238-260 | the transparent statement carries the items that were there and the receipts, or nothing usable |
| ScittLedger.ForeignItemsBlock | cryptovalid_scitt.py:259-261 | with anything but byte strings under label 394, no receipts ever make it verify |
| ScittLedger.RegisteredStatementVerifies | cryptovalid_scitt.py:163-315 | a registered statement with a later receipt verifies iff label 394 held byte strings only |
| ScittLedger.OneUnderReceiptsBlocks | cryptovalid_scitt.py:238-261 | the failing input: the array [1] under label 394 |
| ScittLedger.AcceptedReceiptIsRegistered | cryptovalid_scitt.py:279-307 | under an honest key the ledger entry at the reported index registers this statement, whatever size the proof names; the signed header names algorithm, tree, key and issuer |
| ScittLedger.VerifiedStatementIsRegistered | cryptovalid_scitt.py:242-315 | a transparent statement that verifies under an honest key is bound by an entry of the ledger, and the issuer signed it |
| Ledger.Resume | cryptovalid_ingest.py:173-206 | the scan's result, the truncated file, and the count of dropped bytes |
| Ledger.CrashKeepsCompleteLines | cryptovalid_ingest.py:229-235 | a cut batch write leaves its complete lines |
| Ledger.ScanGoodLines | cryptovalid_ingest.py:173-206 | a chain as written is resumed whole with the counters append needs |
| Ledger.CrashRecovery | cryptovalid_ingest.py:173-206 | after a crash at any byte, every flushed line and the complete lines of the batch remain and the chain goes on |
| Archive.ResumeExact | cryptovalid_ingest.py:173-206 | on any file, resuming succeeds iff the decodable lines pass the ledger verifier, and keeps exactly those |
| Archive.VerifyArchive | cryptovalid_ingest.py:377-459 | over the segments as listed: ok iff each passes, the chain of tree heads, HEAD and the signatures hold |
| Archive.SthChainBinds | cryptovalid_ingest.py:325-330 | equal last tree heads make all earlier segments equal |
| Archive.HeadBindsArchive | cryptovalid_ingest.py:309-323 | an archive accepted under a HEAD that says the same as another's has the same segments with the same entries |
| Archive.AcceptedExactly | cryptovalid_ingest.py:377-459 | accepted iff each segment passes with a tree head of its entries that names the one before, HEAD counts them and names the last, and with pinned keys each is signed by one of them |
| Archive.LedgerPassesExactly | cryptovalid_ingest.py:398 | what the ledger verdict is taken to be: index, link and self hash of every entry |
| Archive.PinnedArchiveIsWritten | cryptovalid_ingest.py:309-323 | with the writer's keys pinned, an accepted archive that has a HEAD holds what one of the writer's archives held |
| SegmentNames.NamesSort | cryptovalid_ingest.py:155-159 | below 10^6 segments string order is numeric order |
| SegmentNames.MillionthSortsFirst | cryptovalid_ingest.py:155-159 | the failing pair: 1000000 sorts before 999999 |
| SegmentNames.ListedIsPermutation | cryptovalid_ingest.py:158-159 | the listing shows every number once |
| SegmentNames.ListedInOrderExactly | cryptovalid_ingest.py:155-159 | segments 0..n-1 are listed in numeric order iff n <= 10^6 |
| SegmentNames.ReopensActiveExactly | cryptovalid_ingest.py:161-169 | file n is taken for the last iff n < 10^6 or all its digits but the last are nines |
| IngestWriter.QueueInv | cryptovalid_ingest.py:209-220 | queuing keeps the invariant, adds one event as an entry with the next index, its time and the link, and the ref locates it |
| IngestWriter.FlushKeeps | cryptovalid_ingest.py:229-235 | flushing moves lines and loses nothing |
| IngestWriter.RotateInv | cryptovalid_ingest.py:242-268 | sealing keeps every event and ref, numbers the tree head and leaves a HEAD that counts all segments |
| IngestWriter.SidecarInv | cryptovalid_ingest.py:250-263 | a seal that fails at HEAD keeps every event and ref and leaves a sidecar that covers the segment |
| IngestWriter.ListedSegmentsOk | cryptovalid_ingest.py:389-410 | numbered segments that verify in order verify as listed iff there are at most 10^6 |
| IngestWriter.ArchiveVerifiesExactly | cryptovalid_ingest.py:377-459 | the exact condition for the writer's archive to verify: count, HEAD and left-over sidecar |
| IngestWriter.AdoptInvExactly | cryptovalid_ingest.py:161-171 | reopening on a left-over sidecar keeps the invariant iff it covers the file as the crash left it |
| IngestWriter.BrokenSegmentStays | cryptovalid_ingest.py:389-410 | no directory that has a segment broken in itself ever verifies, whatever is sealed after it, at any count |
| IngestWriter.RestartBreaksChain | cryptovalid_ingest.py:165-169 | restarting at index 0 on a file with lines breaks its chain |
| IngestWriter.MisplacedInvExactly | cryptovalid_ingest.py:165-169 | a writer restarted at index 0 on the active file is in step iff that file is empty |
| IngestWriter.ResumeInv | cryptovalid_ingest.py:161-206 | resuming after a crash keeps a prefix of the events and all counters |
| Ingest.Ingestor.constructor | cryptovalid_ingest.py:117-152 | a fresh directory |
| Ingest.Ingestor.Flush | cryptovalid_ingest.py:229-239 | the whole batch or nothing; a failed write leaves it queued |
| Ingest.Ingestor.Enqueue | cryptovalid_ingest.py:211-222 | the locked part of append: state, log and ref |
| Ingest.Ingestor.Append | cryptovalid_ingest.py:209-227 | one event more, located by its ref; a full segment is sealed and the archive verifies iff it has at most 10^6 segments |
| Ingest.Ingestor.Seal | cryptovalid_ingest.py:242-268 | the new state of every exit (nothing due, failure at flush, sidecar or HEAD, success); after success the archive verifies iff it has at most 10^6 segments |
| Ingest.Ingestor.SealFlushed | cryptovalid_ingest.py:250-268 | the part after the flush, with its two failures |
| Ingest.Ingestor.Audit | cryptovalid_ingest.py:377-459 | verify_archive on the writer's directory as listed, with its exact condition |
| Ingest.Ingestor.CrashAndReopen | cryptovalid_ingest.py:161-206 | resumed, adopted with a left-over sidecar, or misplaced by the listing: the state in each case and exactly when it is valid |
| Ingest.Ingestor.ResumeActive | cryptovalid_ingest.py:173-206 | the resumed file and counters |
| Ingest.Ingestor.AdoptActive | cryptovalid_ingest.py:166-169 | a file with a sidecar is left as it is and the next number opened |
| Ingest.Ingestor.CrashInSeal | cryptovalid_ingest.py:161-171 | a crash between sidecar and HEAD loses no event and no ref; the archive then verifies iff there was no HEAD yet, up to 10^6 segments |
| Base64.RoundTrip | cryptovalid_checkpoint.py:70-79 | strict decoding undoes encoding |
| Base64.DecodedIsPlain | cryptovalid_checkpoint.py:70-79 | accepted strings hold alphabet and padding only, with matching lengths |
| Base64.CanonicalExact | cryptovalid_checkpoint.py:70-79 | an accepted string is a printed form iff no bits are left over |
| Decimal.SizeExact | cryptovalid_checkpoint.py:206-207 | the size pattern accepts exactly the printed form of each number below 10^20 |
| Wire.CheckpointTextExact | cryptovalid_checkpoint.py:179-214 | a text parses to these fields iff it is printed from them |
| Wire.PrintableExactly | cryptovalid_checkpoint.py:179-191 | the valid fields: origin and extensions without control characters, a size below 2^64, a root of 32 bytes |
| Wire.SigLineRoundTrip | cryptovalid_checkpoint.py:259-264 | a printed signature line of 5 to 8192 bytes reads back |
| Wire.SigLineExact | cryptovalid_checkpoint.py:242-255 | an accepted line is a printed one iff its name has at most 255 bytes and no base64 bits are left over |
| Wire.StrayBitIsRead | cryptovalid_checkpoint.py:248-255 | the failing input: a line with a stray bit is read as one without |
| Wire.SplitNote | cryptovalid_checkpoint.py:228-256 | the line loop computes the specified split |
| Wire.ReadEachLine | cryptovalid_checkpoint.py:239-255 | the loop over the signature lines stops at the 101st and reads all or none |
| Wire.NoteExact | cryptovalid_checkpoint.py:228-256 | a note splits into text and signatures iff it is the text, an empty line and one readable line each, 1 to 100 |
| Wire.NotePrintedExactly | cryptovalid_checkpoint.py:228-264 | an accepted note is a printed one iff all its signature lines are canonical |
| Wire.NoteRoundTrip | cryptovalid_checkpoint.py:259-277 | what is signed and cosigned line after line splits back |
| Wire.CosignatureAppends | cryptovalid_checkpoint.py:280-294 | a line appended to any accepted note adds one signature and changes nothing else |
| Wire.BodyExact | cryptovalid_witness.py:484-515 | a request body parses to these fields iff it is formatted from valid ones |
| WireLengths.CheckpointLength | cryptovalid_witness.py:333 | the length a checkpoint text is counted with is that of its printed form in UTF-8 |
| WireLengths.NoteLengthIs | cryptovalid_witness.py:333 | the length a note is counted with is that of its text, an empty line and its signature lines in UTF-8 |
| WireLengths.OwnLinesWidth | cryptovalid_checkpoint.py:259-264 | a witness's own lines have the width they are counted with |
| WireLengths.Base64Examples | cryptovalid_checkpoint.py:70-79 | examples of section 10 of RFC 4648 |
| ModArith.UnitKeepsZero | ed25519_order.py:78-80 | multiplying by a unit modulo p neither makes nor loses a zero |
| Fermat.LittleTheorem | ed25519_order.py:52-56 | a^(p-1) is 1 modulo a prime p, for a not 0 |
| Fermat.HalfPower | ed25519_order.py:37-43 | a^((p-1)/2) is 1 or -1 |
| EdwardsCurve.AddIsRaw | ed25519_order.py:59-66 | the reduced addition agrees with the unreduced polynomials, on congruent arguments |
| EdwardsCurve.DoubleIsRaw | cryptovalid_acta.py:449-454 | the same for the dedicated doubling |
| EdwardsCurve.DoubleRawOnCurve | cryptovalid_acta.py:449-454 | doubling keeps the curve equation |
| EdwardsCurve.SelfAddIsDouble | ed25519_order.py:59-66 | on curve points P + P is -4 times the coordinates of the dedicated doubling |
| Ed25519.ConstantsFit | ed25519_order.py:21-24 | d is -121665/121666, the square root of -1 is one, p is 1 modulo 4 |
| Ed25519.SignBit | cryptovalid_acta.py:434 | the two ways to read the sign bit agree |
| Ed25519.RootTests | cryptovalid_acta.py:439-442 | the two ways to test a square root agree |
| Ed25519.RootIsOnCurve | ed25519_order.py:36-49 | a decoded point satisfies the curve equation |
| Ed25519Decoding.ConstantsArePowers | ed25519_order.py:21-22 | p is 2^255 - 19 and L is 2^252 plus its tail |
| Ed25519Decoding.ConstantsAreField | ed25519_order.py:21-24 | d is not -1, so every curve point has a denominator, if p is prime |
| Ed25519Decoding.CandidateSquares | ed25519_order.py:37-43 | if u is v times a square, v times the square of the candidate is u or -u |
| Ed25519Decoding.DecodeExactly | ed25519_order.py:28-49 | 32 octets decode to a point iff they stand for it: y below p, the x on the curve with the parity of the sign bit |
| Ed25519Decoding.NoPointExactly | ed25519_order.py:40-45 | nothing is recovered from y iff no x makes a curve point with it |
| Ed25519Decoding.LittleRoundTrip | ed25519_order.py:32 | little-endian integers round trip, lowest octet first |
| Ed25519Decoding.DecodeEncode | ed25519_order.py:28-56 | encoding a curve point and decoding gives the same point with z = 1 |
| Ed25519Decoding.EncodeDecode | ed25519_order.py:28-56 | a string that decodes is the encoding of its point |
| Ed25519Decoding.AdditionLaw | ed25519_order.py:59-66 | the addition formula satisfies the addition law of the twisted Edwards curve, denominators cleared |
| Ed25519Decoding.NeutralExactly | ed25519_order.py:78-80 | is_neutral holds of the neutral point only, up to its coordinates |
| Ed25519.DoublingAgrees | ed25519_order.py:59-66 | both formulas take one projective point to one projective point on the curve |
| Ed25519.EightAgrees | ed25519_order.py:69-80 | [8]A is neutral by scalar_mul iff three dedicated doublings make it neutral |
| Ed25519.ActaDecode | cryptovalid_acta.py:431-448 | finds the same point as decode, or refuses when it does, with each reason exactly when it applies |
| Ed25519.ActaKeyProblem | cryptovalid_acta.py:426-457 | accepts iff key_problem finds nothing or mixed order; small order iff small order; not on the curve iff nothing is recovered |
| PointOrder.ScalarMulByBits | ed25519_order.py:69-75 | the bit loop computes the halving recursion |
| PointOrder.ScalarMulIsTimes | ed25519_order.py:69-75 | over any representation of an abelian group, scalar_mul(k, P) is k-fold addition |
| PointOrder.CoprimeOrders | ed25519_order.py:14-15 | only the neutral element is killed by both 8 and L |
| PointOrder.KeyRule | ed25519_order.py:83-92 | a key is usable iff it decodes to a non-neutral element of the subgroup of order L; small order iff 8 kills it; mixed iff neither does |
| PointOrder.RRule | ed25519_order.py:95-100 | R is usable iff the signature has 64 octets and its first half decodes to an element that 8 does not kill |
| PointOrder.SignatureRule | ed25519_order.py:14-17 | with the checks passed and S B = R + k A, R is in the subgroup and not neutral |
| PointOrder.KeyCache.constructor | ed25519_order.py:103-104 | an empty cache is valid |
| PointOrder.KeyCache.Strict | ed25519_order.py:103-111 | with any cache built by earlier calls, the answer is the uncached one |

## Left out

- Real SHA-256, Ed25519, ECDSA, ML-DSA and RFC 3161 primitives: hashes and signatures are symbolic.
- HTTP serving, command lines, exit-code conventions, network clients, and the modules that only render, fetch or list field checks (lotl, solana, qeas, report, mcp, kms, cedulon, aps, vaara_receipt, evidence_pack, tip, most of acta): they would add only easy members.
- The outcome "not verifiable here" inside a witness: the witness is modelled with all its libraries; Notes.VerifyNote and Quorum.VerifyWitnessed model it.
- verifier.py is not part of this model: whole-line appends, atomic replacement and the ledger verdict (index, link and self-hash all hold) are taken as what the ingest, SCITT and monitor code calls.
- UTF-8 at the wire: the text formats are modelled on decoded strings; the witness model works on parsed notes with a width in bytes for each line, so the step from a request body to a parsed note is composed by hand from module Wire.
- What exactly makes a state file malformed (it is a parameter), unreadable history lines, and a crash between an evidence append and the state save in the witness.
- Monotone cosignature timestamps: the default path uses the wall clock, and the code does not promise them.
- Evidence beyond what the rings, the pending budget and the 4 MiB history window hold: the code declares this loss.
- SCITT receipts are modelled on decoded fields and ledger entries with an abstract canonical form; a codec from bytes to those fields is a parameter. The keys of a map under label 394 are listed in canonical order, where Python lists them as they were read.
- Statements of 2^64 bytes or more: length prefixes of eight bytes cannot be written for them.
- RFC 3161 anchors and the signed chain tip of the ingest writer, and the fields of a sealed head that no check reads.
- The group law of the Edwards curve (associativity of the addition formula): PointOrder.KeyRule, PointOrder.RRule and PointOrder.SignatureRule take it as the premise `Represents`; the agreement of the two checks needs no such premise.
- That 2^255 - 19 is prime: Ed25519Decoding takes it as the premise `Prime`.
- The literal value of the square root of -1 stands for pow(2, (p-1)//4, p); what is proved of it is that it squares to -1.
- `_instant`, `_instant_exact` and `_outside_window`: single-branch date checks.
- Termination of `challenge` and every probability claim of the committed attestation.
- Receipts.VerifyReceipt: the letter case of hex roots is not modelled.
- MerkleVerifiers.RebuildRoots: verify_consistency and consistency_roots contain the same loop; it is written once.
- MerkleVerifiers.RootFromInclusion: the receipt verifier contains the same loop; it is written once.
- Ledger.CrashRecovery: lines are units with a length, so a tear inside a line leaves a count of bytes, not their content.
- SumTree.AcceptedOpeningIsCommitted: says nothing about the claimed index, which the code does not bind to the path.
- Archive.VerifyArchive: takes the segments as listed; the listing itself is modelled for the dense numbering a writer makes (SegmentNames).
- Ingest.Ingestor.CrashAndReopen: a writer that the listing has put on another file than the active one is described at that moment and not followed further.
- Archive.HeadBindsArchive: the shown archive carries a HEAD with the same content; without a pinned key whoever rewrites the archive can rewrite HEAD, and without a HEAD the tail can be cut, as the code states.
