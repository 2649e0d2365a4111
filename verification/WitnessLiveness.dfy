/** What an honest log gets, what a dishonest one leaves behind, and the exact condition for a cosignature. */
module WitnessLiveness {
  import opened MerkleTree
  import opened MerkleLevels
  import opened MerkleWalk
  import opened Notes
  import opened WitnessSpec
  import opened WitnessRequests
  import opened WitnessInvariants
  import opened WitnessEvidence
  import opened WitnessRuns

  // ---------------------------------------------------------------- when a cosignature is possible

  /** The proof submit_checkpoint sends from a stored size: none for size 0 or the same size. */
  function ProofFrom(size: nat, leaves: seq<LeafData>): seq<ProofLine>
    requires size <= |leaves|
  {
    if 0 < size < |leaves| then
      var p := ConsistencyProof(size, leaves);
      seq(|p|, i requires 0 <= i < |p| => Hash(p[i]))
    else []
  }

  lemma ProofFromIsAccepted(size: nat, leaves: seq<LeafData>)
    requires 0 < size < |leaves|
    ensures ProofAccepted(size, Mth(leaves[..size]), |leaves|, Mth(leaves), ProofFrom(size, leaves))
  {
    var p := ConsistencyProof(size, leaves);
    assert Digests(ProofFrom(size, leaves)) == p;
    ConsistencyExact(size, leaves, p, Mth(leaves[..size]));
  }

  /**
   For a checkpoint of `leaves`, some proof makes the witness cosign exactly when what it stored is
   the tree head of a prefix of those leaves; the prover's proof is then one that works.
   */
  lemma CosignableExactly(cp: Checkpoint, leaves: seq<LeafData>, prev: Stored, proof: seq<ProofLine>)
    requires |leaves| == cp.size && Mth(leaves) == cp.root
    requires prev.size == 0 ==> prev.root == EmptyRoot
    ensures Decide(cp, Some(prev), proof, None).Cosign? ==> Honest(leaves, prev.size, prev.root)
    ensures Honest(leaves, prev.size, prev.root) ==>
              && Decide(cp, Some(prev), ProofFrom(prev.size, leaves), None).Cosign?
              && Decide(cp, Some(prev), ProofFrom(prev.size, leaves), Some(prev.size)).Cosign?
  {
    hide ConsistencyAccepted, Mth;
    assert leaves[..|leaves|] == leaves;
    EmptyMth(leaves);
    if Decide(cp, Some(prev), proof, None).Cosign? {
      DecisionExtends(cp, Some(prev), proof, None);
    }
    if Honest(leaves, prev.size, prev.root) && 0 < prev.size < |leaves| {
      ProofFromIsAccepted(prev.size, leaves);
    }
  }

  lemma EmptyMth(leaves: seq<LeafData>)
    ensures Mth(leaves) == EmptyRoot <==> |leaves| == 0
  {
  }

  /** An honest proof for up to 2^62 leaves fits the 63 lines of the protocol. */
  lemma ProofFits(size: nat, leaves: seq<LeafData>)
    requires size <= |leaves| <= Pow2(62)
    ensures |ProofFrom(size, leaves)| <= MAX_PROOF
  {
    if 0 < size < |leaves| {
      ConsistencyProofLength(size, leaves);
      CeilLog2Bound(|leaves|, 62);
    }
  }

  // ---------------------------------------------------------------- honest submission

  /** The two requests of submit_checkpoint: discovery with old size 0, then the proof from the size in the 409. */
  function Discovery(note: Note, clock: Clock, lineBytes: nat): Request {
    Request(note, [], Some(0), None, clock, lineBytes)
  }

  function WithProof(note: Note, leaves: seq<LeafData>, size: nat, clock: Clock, lineBytes: nat): Request
    requires size <= |leaves|
  {
    Request(note, ProofFrom(size, leaves), Some(size), None, clock, lineBytes)
  }

  /** The checks before the lock do not look at the proof beyond its length. */
  lemma FrontIgnoresProof(w: Signer, keys: seq<VKey>, origin: string, r: Request, proof: seq<ProofLine>,
      oldSize: Option<int>)
    requires Front(w, keys, origin, r).Go? && |proof| <= MAX_PROOF
    ensures Front(w, keys, origin, r.(proof := proof, oldSize := oldSize)) ==
            Go(Front(w, keys, origin, r).locked.(proof := proof, oldSize := oldSize))
  {
  }

  /**
   A log whose tree extends what the witness stored is cosigned in at most two requests.  `r` is any
   request that passes the signature and room checks for this note.
   */
  lemma {:induction false} HonestSubmissionSucceeds(disk: Disk, w: Signer, logs: Logs, note: Note,
      leaves: seq<LeafData>,
                                                     clock: Clock, lineBytes: nat)
    requires EmptyHeadsOk(disk.state) && |leaves| <= Pow2(62)
    requires note.text.CheckpointText? && note.text.cp.origin in logs
    requires note.text.cp.size == |leaves| && note.text.cp.root == Mth(leaves)
    requires var o := note.text.cp.origin;
             Front(w, logs[o], o, Discovery(note, clock, lineBytes)).Go?
             && (o in disk.state.origins ==> Honest(leaves, disk.state.origins[o].size, disk.state.origins[o].root))
    ensures var first := Handle(disk, w, logs, Discovery(note, clock, lineBytes));
            || first.answer.Cosigned200?
            || (&& first.answer.Declined? && first.answer.status == 409
                && 0 < first.answer.storedSize <= |leaves|
                && Handle(first.disk, w, logs,
                     WithProof(note, leaves, first.answer.storedSize, clock, lineBytes)).answer.Cosigned200?)
  {
    hide CosignLocked, Front, Mth, Decide;
    var o := note.text.cp.origin;
    var r0 := Discovery(note, clock, lineBytes);
    var q := Front(w, logs[o], o, r0).locked;
    FrontGoIsSigned(w, logs, o, r0);
    FrontCopies(w, logs[o], o, r0);
    var first := CosignLocked(disk, w, q);
    LockedMovesHead(disk, w, q);
    var prev := PrevOf(disk.state, o);
    LockedAnswer(disk, w, q);
    if prev.None? || prev.value.size == 0 {
      EmptyMth(leaves);
      DecideFromEmpty(q.cp, prev, Some(0));
    } else {
      var s := prev.value.size;
      DecideWrongOldSize(q.cp, prev, 0);
      ProofFits(s, leaves);
      FrontIgnoresProof(w, logs[o], o, r0, ProofFrom(s, leaves), Some(s));
      var q1 := q.(proof := ProofFrom(s, leaves), oldSize := Some(s));
      CosignableExactly(q.cp, leaves, prev.value, []);
      assert PrevOf(first.disk.state, o) == prev;
      LockedAnswer(first.disk, w, q1);
    }
  }

  lemma FrontCopies(w: Signer, keys: seq<VKey>, origin: string, r: Request)
    requires Front(w, keys, origin, r).Go?
    ensures var q := Front(w, keys, origin, r).locked;
            r.note.text.CheckpointText? && q.cp == r.note.text.cp && q.proof == r.proof && q.oldSize == r.oldSize
                && q.timestamp == r.timestamp
  {
  }

  lemma DecideFromEmpty(cp: Checkpoint, prev: Option<Stored>, oldSize: Option<int>)
    requires oldSize == Some(0) && (cp.size == 0 ==> cp.root == EmptyRoot)
    requires prev.None? || (prev.value.size == 0 && prev.value.root == EmptyRoot)
    ensures Decide(cp, prev, [], oldSize).Cosign?
  {
  }

  lemma DecideWrongOldSize(cp: Checkpoint, prev: Option<Stored>, oldSize: nat)
    requires prev.Some? && oldSize <= cp.size && oldSize != prev.value.size
    ensures Decide(cp, prev, [], Some(oldSize)) == WrongOldSize
  {
  }

  /** The answer is the decision: 200 exactly for Cosign, else its status with the stored size. */
  lemma {:induction false} LockedAnswer(disk: Disk, w: Signer, q: Locked)
    requires !BadTimestamp(q, PrevOf(disk.state, q.cp.origin))
    ensures var a := CosignLocked(disk, w, q).answer;
            var d := Decide(q.cp, PrevOf(disk.state, q.cp.origin), q.proof, q.oldSize);
            if d.Cosign? then a.Cosigned200?
            else a.Declined? && a.status == HttpStatus(d) && a.storedSize == StoredSize(PrevOf(disk.state, q.cp.origin))
  {
    hide PreGate, Refused, Decide;
  }

  // ---------------------------------------------------------------- what a dishonest log leaves behind

  /**
   A second root at the stored size is never cosigned, and the pair is in the evidence file
   afterwards (at size 0 the second root is malformed, and no evidence is taken from it).
   */
  lemma {:induction false} EquivocationIsRecorded(logs: Logs, disk: Disk, w: Signer, q: Locked)
    requires Reachable(logs, disk) && TrueNote(logs, CtxOf(q).presented, q.cp)
    requires !BadTimestamp(q, PrevOf(disk.state, q.cp.origin))
    requires q.cp.origin in disk.state.origins
    requires var prev := disk.state.origins[q.cp.origin]; prev.size == q.cp.size && prev.root != q.cp.root
    ensures var r := CosignLocked(disk, w, q);
            var prev := disk.state.origins[q.cp.origin];
            !r.answer.Cosigned200? &&
            (q.cp.size > 0 ==> Recorded(PairKey(q.cp.origin, q.cp.size, {prev.root, q.cp.root}, true), r.disk.evidence))
  {
    hide WriteProof, Refused;
    var prev := disk.state.origins[q.cp.origin];
    LockedAnswer(disk, w, q);
    if q.cp.size > 0 {
      var m0, c := Mem(disk.state, false, disk), CtxOf(q);
      var other := Pend(prev.root, Some(prev.note));
      WriteProofTruthful(logs, m0, c, other);
      var m := PreGate(m0, c, Some(prev)).0;
      assert m == Flush(WriteProof(m0, c, other));
      assert CosignLocked(disk, w, q).disk.evidence == m.disk.evidence;
    }
  }

  /**
   Two log-signed roots at one size beyond the stored one: the second request pairs with a pending
   root of the same size, whatever old size and proof it states, and with one whose note was kept if
   there is one.
   */
  lemma {:induction false} FutureConflictIsRecorded(logs: Logs, disk: Disk, w: Signer, q: Locked)
    requires Reachable(logs, disk) && TrueNote(logs, CtxOf(q).presented, q.cp)
    requires !BadTimestamp(q, PrevOf(disk.state, q.cp.origin))
    requires q.cp.size > StoredSize(PrevOf(disk.state, q.cp.origin))
    requires exists x :: x in PendingAt(disk.state, q.cp.origin, q.cp.size) && x.root != q.cp.root
    ensures var d := PendingAt(disk.state, q.cp.origin, q.cp.size);
            exists x :: x in d && x.root != q.cp.root
              && ((exists y :: y in d && y.root != q.cp.root && y.note.Some?) ==> x.note.Some?)
              && Recorded(PairKey(q.cp.origin, q.cp.size, {x.root, q.cp.root}, x.note.Some?),
                   CosignLocked(disk, w, q).disk.evidence)
  {
    hide WriteProof, Refused, DoCosign, Evict, Remember, Decide, WorthKeeping, WithinBudget;
    var m0, c := Mem(disk.state, false, disk), CtxOf(q);
    var d := PendingAt(disk.state, q.cp.origin, q.cp.size);
    assert TrueDict(logs, q.cp.origin, q.cp.size, d);
    var x := Partner(d, q.cp.root).value;
    WriteProofTruthful(logs, m0, c, x);
    var prev := PrevOf(disk.state, q.cp.origin);
    var (m, ev) := PreGate(m0, c, prev);
    assert m.disk.evidence == WriteProof(m0, c, x).disk.evidence;
    PreGateStage(m0, c, prev);
    var r := CosignLocked(disk, w, q);
    if Decide(q.cp, prev, q.proof, q.oldSize).Unproven? {
      RefusedStage(m, c, UnprovenExtension, prev.value, ev);
    } else if Decide(q.cp, prev, q.proof, q.oldSize).Cosign? {
      DoCosignStage(m, w, q, prev, ev);
    }
    RecordedStays(KeyOf(c, x), m.disk.evidence, r.disk.evidence);
  }

  lemma RecordedStays(key: PairKey, before: seq<Evidence>, after: seq<Evidence>)
    requires Recorded(key, before) && before <= after
    ensures Recorded(key, after)
  {
    var i :| 0 <= i < |before| && RecordKey(before[i]) == Some(key);
    assert after[i] == before[i];
  }

  /**
   The pairing loop just before a cosignature never finds a partner in a reachable state: the look
   before the gate has already paired, and no root is pending at the stored size.
   */
  lemma {:induction false} PairingAtCosignNeverFires(logs: Logs, disk: Disk, q: Locked)
    requires Reachable(logs, disk)
    requires Decide(q.cp, PrevOf(disk.state, q.cp.origin), q.proof, q.oldSize).Cosign?
    ensures var (m, ev) := PreGate(Mem(disk.state, false, disk), CtxOf(q), PrevOf(disk.state, q.cp.origin));
            PairAtCosign(m, CtxOf(q), ev) == m
  {
    hide WriteProof, Refused, ProofAccepted, NoteFuture, Reachable;
    var m0, c := Mem(disk.state, false, disk), CtxOf(q);
    var prev := PrevOf(disk.state, q.cp.origin);
    var (m, ev) := PreGate(m0, c, prev);
    ReachableParts(logs, disk, q.cp.origin);
    if q.cp.size > StoredSize(prev) && ev.None? {
      UnpairedIsAlone(m0, c);
    }
  }

  lemma ReachableParts(logs: Logs, disk: Disk, o: string)
    requires Reachable(logs, disk)
    ensures Bounded(disk.state) && BeyondAt(disk.state, o) && EmptyHeadsOk(disk.state)
  {
  }

  /** When looking ahead found no partner, no other root is pending at that size afterwards. */
  lemma {:induction false} UnpairedIsAlone(m: Mem, c: Ctx)
    requires Bounded(m.st) && NoteFuture(m, c).1.None?
    ensures FirstOther(PendingAt(NoteFuture(m, c).0.st, c.cp.origin, c.cp.size), c.cp.root).None?
  {
    hide WithinBudget, WorthKeeping, Put, Evict, FirstOther;
    var o, s := c.cp.origin, c.cp.size;
    var p, d := PendingOf(m.st, o), PendingAt(m.st, o, s);
    RememberNoEmptyDict(p, c);
    EvictSub(Remember(p, c));
    forall x | x in Put(d, c.cp.root, SmallNote(c)) ensures x.root == c.cp.root {
      PutIn(d, c.cp.root, SmallNote(c), x);
    }
    var after := PendingAt(NoteFuture(m, c).0.st, o, s);
    assert forall x :: x in after ==> x.root == c.cp.root;
  }
}
