/**
 The evidence file: what it says is true, every remembered pair is in it, and it never names a log
 that signed prefixes of one leaf sequence only.
 */
module WitnessEvidence {
  import opened MerkleTree
  import opened Notes
  import opened WitnessSpec
  import opened WitnessRequests
  import opened WitnessInvariants

  // ---------------------------------------------------------------- what a record says

  /** Two log-signed notes of one origin and one size with different roots, or one note and the other root. */
  ghost predicate TrueRecord(logs: Logs, e: Evidence) {
    && e.sizeBefore == e.sizePresented
    && e.presented.text.CheckpointText?
    && TrueNote(logs, e.presented, Checkpoint(e.origin, e.sizePresented, e.presented.text.cp.root))
    && match e.kind
       case SplitView =>
         && e.proof && e.before.Some? && e.before.value.text.CheckpointText?
         && TrueNote(logs, e.before.value, Checkpoint(e.origin, e.sizePresented, e.before.value.text.cp.root))
         && e.before.value.text.cp.root != e.presented.text.cp.root
       case SplitViewUnkept => !e.proof && e.before.None? && e.beforeRoot.Some?
           && e.beforeRoot.value != e.presented.text.cp.root
       case _ => false
  }

  /** The pair a record is about. */
  function RecordKey(e: Evidence): Option<PairKey> {
    if !e.presented.text.CheckpointText? then None
    else if e.before.Some? && e.before.value.text.CheckpointText?
    then Some(PairKey(e.origin, e.sizePresented, {e.before.value.text.cp.root, e.presented.text.cp.root}, true))
    else if e.before.None? && e.beforeRoot.Some?
    then Some(PairKey(e.origin, e.sizePresented, {e.beforeRoot.value, e.presented.text.cp.root}, false))
    else None
  }

  ghost predicate Recorded(key: PairKey, evidence: seq<Evidence>) {
    exists i :: 0 <= i < |evidence| && RecordKey(evidence[i]) == Some(key)
  }

  // ---------------------------------------------------------------- the invariant

  ghost predicate TrueDict(logs: Logs, origin: string, size: nat, d: RootDict) {
    forall x :: x in d && x.note.Some? ==> TrueNote(logs, x.note.value, Checkpoint(origin, size, x.root))
  }

  ghost predicate TruePending(logs: Logs, origin: string, p: Pending) {
    forall s :: s in p ==> TrueDict(logs, origin, s, p[s])
  }

  ghost predicate TrueState(logs: Logs, st: State) {
    && (forall o :: o in st.origins ==>
         TrueNote(logs, st.origins[o].note, Checkpoint(o, st.origins[o].size, st.origins[o].root)))
    && (forall o :: o in st.pending ==> TruePending(logs, o, st.pending[o]))
  }

  ghost predicate TrueHistory(logs: Logs, h: seq<Cosigned>) {
    forall i :: 0 <= i < |h| ==> TrueNote(logs, h[i].note, Checkpoint(h[i].origin, h[i].size, h[i].root))
  }

  ghost predicate TrueEvidence(logs: Logs, evidence: seq<Evidence>) {
    forall i :: 0 <= i < |evidence| ==> TrueRecord(logs, evidence[i])
  }

  ghost predicate AllRecorded(seen: seq<PairKey>, evidence: seq<Evidence>) {
    forall i :: 0 <= i < |seen| ==> Recorded(seen[i], evidence)
  }

  ghost predicate Truthful(logs: Logs, m: Mem) {
    && TrueState(logs, m.st)
    && TrueHistory(logs, m.disk.history)
    && TrueEvidence(logs, m.disk.evidence)
    && AllRecorded(m.st.proofsSeen, m.disk.evidence)
  }

  /** A request past the checks presents a log-signed note of its checkpoint. */
  ghost predicate TrueCtx(logs: Logs, c: Ctx) {
    TrueNote(logs, c.presented, c.cp)
  }

  lemma WriteProofTruthful(logs: Logs, m: Mem, c: Ctx, other: Pend)
    requires Truthful(logs, m) && TrueCtx(logs, c) && other.root != c.cp.root
    requires other.note.Some? ==> TrueNote(logs, other.note.value, Checkpoint(c.cp.origin, c.cp.size, other.root))
    ensures var r := WriteProof(m, c, other);
            Truthful(logs, r) && r.disk.history == m.disk.history && Recorded(KeyOf(c, other), r.disk.evidence)
  {
    var key := KeyOf(c, other);
    if key !in m.st.proofsSeen {
      var e := PairEvidence(c, other);
      assert RecordKey(e) == Some(key) && TrueRecord(logs, e);
      var evidence := m.disk.evidence + [e];
      var seen := m.st.proofsSeen + [key];
      assert evidence[|m.disk.evidence|] == e;
      forall i | 0 <= i < |seen| ensures Recorded(seen[i], evidence) {
        if i < |m.st.proofsSeen| {
          RecordedGrows(seen[i], m.disk.evidence, e);
        }
      }
      assert AllRecorded(LastN(seen, PROOFS_SEEN), evidence);
    }
  }

  lemma RecordedGrows(key: PairKey, evidence: seq<Evidence>, e: Evidence)
    requires Recorded(key, evidence)
    ensures Recorded(key, evidence + [e])
  {
    var i :| 0 <= i < |evidence| && RecordKey(evidence[i]) == Some(key);
    assert (evidence + [e])[i] == evidence[i];
  }

  lemma RememberTruthful(logs: Logs, p: Pending, c: Ctx)
    requires TruePending(logs, c.cp.origin, p) && TrueCtx(logs, c) && NoEmptyDict(p)
    ensures TruePending(logs, c.cp.origin, Evict(Remember(p, c)))
  {
    var d := if c.cp.size in p then p[c.cp.size] else [];
    forall x | x in Put(d, c.cp.root, SmallNote(c)) && x.note.Some?
      ensures TrueNote(logs, x.note.value, Checkpoint(c.cp.origin, c.cp.size, x.root))
    {
      PutIn(d, c.cp.root, SmallNote(c), x);
    }
    var q := Remember(p, c);
    assert TruePending(logs, c.cp.origin, q);
    RememberNoEmptyDict(p, c);
    EvictSub(q);
    forall s | s in Evict(q) ensures TrueDict(logs, c.cp.origin, s, Evict(q)[s]) {
      assert TrueDict(logs, c.cp.origin, s, q[s]);
    }
  }

  lemma NoteFutureTruthful(logs: Logs, m: Mem, c: Ctx)
    requires Truthful(logs, m) && TrueCtx(logs, c) && Bounded(m.st)
    ensures Truthful(logs, NoteFuture(m, c).0)
  {
    hide WriteProof, Remember, Evict, WorthKeeping, WithinBudget, TrueNote, TrueRecord;
    var o := c.cp.origin;
    var d := PendingAt(m.st, o, c.cp.size);
    assert TrueDict(logs, o, c.cp.size, d);
    var partner := Partner(d, c.cp.root);
    if partner.Some? {
      WriteProofTruthful(logs, m, c, partner.value);
    }
    RememberTruthful(logs, PendingOf(m.st, o), c);
  }

  lemma AddToRingOnlyRing(logs: Logs, m: Mem, kind: Kind, c: Ctx)
    requires Truthful(logs, m)
    ensures var r := AddToRing(m, kind, c);
            && r.disk == m.disk && Truthful(logs, r)
            && PendingAt(r.st, c.cp.origin, c.cp.size) == PendingAt(m.st, c.cp.origin, c.cp.size)
  {
    hide InRing, TrueNote;
  }

  lemma CandidateIsTrue(logs: Logs, m: Mem, c: Ctx, x: Pend)
    requires Truthful(logs, m) && x in Candidates(m, c)
    ensures x.note.Some? ==> TrueNote(logs, x.note.value, Checkpoint(c.cp.origin, c.cp.size, x.root))
  {
    hide Candidates, TrueNote;
    CandidatesFrom(m, c, x);
    assert TrueDict(logs, c.cp.origin, c.cp.size, PendingAt(m.st, c.cp.origin, c.cp.size));
  }

  lemma FlushTruthful(logs: Logs, m: Mem)
    requires Truthful(logs, m)
    ensures Truthful(logs, Flush(m))
  {
    hide TrueNote, TrueRecord;
  }

  lemma RefusedTruthful(logs: Logs, m: Mem, c: Ctx, kind: Kind, prev: Stored, ev: Option<Evidence>)
    requires Truthful(logs, m) && TrueCtx(logs, c)
    ensures Truthful(logs, Refused(m, c, kind, prev, ev).0)
  {
    hide WriteProof, Candidates, TrueNote, AddToRing, Truthful, Flush, FirstKept, FirstOther;
    var m1 := AddToRing(m, kind, c);
    AddToRingOnlyRing(logs, m, kind, c);
    var partner := if c.cp.size < prev.size then Partner(Candidates(m1, c), c.cp.root) else None;
    if partner.Some? {
      CandidateIsTrue(logs, m1, c, partner.value);
      WriteProofTruthful(logs, m1, c, partner.value);
      FlushTruthful(logs, WriteProof(m1, c, partner.value));
    } else {
      FlushTruthful(logs, m1);
    }
  }

  lemma PreGateTruthful(logs: Logs, m: Mem, c: Ctx)
    requires Truthful(logs, m) && TrueCtx(logs, c) && Bounded(m.st)
    ensures Truthful(logs, PreGate(m, c, PrevOf(m.st, c.cp.origin)).0)
  {
    var prev := PrevOf(m.st, c.cp.origin);
    if c.cp.size == 0 && c.cp.root != EmptyRoot {
    } else if prev.Some? && c.cp.size < prev.value.size {
      RefusedTruthful(logs, m, c, Rollback, prev.value, None);
    } else if prev.Some? && c.cp.size == prev.value.size && c.cp.root != prev.value.root {
      WriteProofTruthful(logs, m, c, Pend(prev.value.root, Some(prev.value.note)));
    } else if c.cp.size > StoredSize(prev) {
      NoteFutureTruthful(logs, m, c);
    }
  }

  /** Adding the witness's own lines keeps a note log-signed. */
  lemma MoreLinesStillSigned(logs: Logs, note: Note, cp: Checkpoint, more: seq<SigLine>)
    requires TrueNote(logs, note, cp)
    ensures TrueNote(logs, Note(note.text, note.sigs + more), cp)
  {
    var line, key :| line in note.sigs && key in logs[cp.origin] && IsLogType(key.typ)
        && LineVerifies(key, note.text, line);
    assert line in note.sigs + more;
  }

  lemma PairAtCosignTruthful(logs: Logs, m: Mem, c: Ctx, ev: Option<Evidence>)
    requires Truthful(logs, m) && TrueCtx(logs, c)
    ensures Truthful(logs, PairAtCosign(m, c, ev))
  {
    var d := PendingAt(m.st, c.cp.origin, c.cp.size);
    assert TrueDict(logs, c.cp.origin, c.cp.size, d);
    var other := FirstOther(d, c.cp.root);
    if other.Some? {
      WriteProofTruthful(logs, m, c, other.value);
    }
  }

  lemma DropPendingTrue(logs: Logs, st: State, origin: string, size: nat)
    requires TrueState(logs, st)
    ensures TrueState(logs, DropPendingAt(st, origin, size))
  {
  }

  lemma DoCosignTruthful(logs: Logs, m: Mem, w: Signer, q: Locked, prev: Option<Stored>, ev: Option<Evidence>)
    requires Truthful(logs, m) && TrueCtx(logs, CtxOf(q)) && 1 <= CtxOf(q).recorded
    ensures Truthful(logs, DoCosign(m, w, q, prev, ev).0)
  {
    var c := CtxOf(q);
    var m1 := PairAtCosign(m, c, ev);
    PairAtCosignTruthful(logs, m, c, ev);
    MoreLinesStillSigned(logs, c.presented, c.cp, OwnLines(w, q.cp, q.extensions, c.recorded));
    DropPendingTrue(logs, m1.st, q.cp.origin, q.cp.size);
  }

  /** Every request keeps the evidence truthful and every remembered pair recorded. */
  lemma {:induction false} RequestKeepsTruth(logs: Logs, disk: Disk, w: Signer, q: Locked)
    requires Bounded(disk.state) && TrueCtx(logs, CtxOf(q))
    requires Truthful(logs, Mem(disk.state, false, disk))
    ensures var r := CosignLocked(disk, w, q); Truthful(logs, Mem(r.disk.state, false, r.disk))
  {
    hide PreGate, Refused, DoCosign, Decide;
    MemoryIsSaved(disk, w, q);
    var prev := PrevOf(disk.state, q.cp.origin);
    if !BadTimestamp(q, prev) {
      var m0 := Mem(disk.state, false, disk);
      var c := CtxOf(q);
      var (m, ev) := PreGate(m0, c, prev);
      PreGateTruthful(logs, m0, c);
      var d := Decide(q.cp, prev, q.proof, q.oldSize);
      if d.Cosign? {
        DoCosignTruthful(logs, m, w, q, prev, ev);
      } else if d.Unproven? {
        RefusedTruthful(logs, m, c, UnprovenExtension, prev.value, ev);
      }
    }
  }

  // ---------------------------------------------------------------- an honest log is never accused

  /** A checkpoint of the first `size` leaves of one leaf sequence. */
  ghost predicate Honest(leaves: seq<LeafData>, size: nat, root: Root) {
    size <= |leaves| && root == Mth(leaves[..size])
  }

  ghost predicate HonestDict(leaves: seq<LeafData>, size: nat, d: RootDict) {
    forall x :: x in d ==> Honest(leaves, size, x.root)
  }

  ghost predicate HonestPending(leaves: seq<LeafData>, p: Pending) {
    forall s :: s in p ==> HonestDict(leaves, s, p[s])
  }

  ghost predicate HonestRing(leaves: seq<LeafData>, last: seq<Refusal>) {
    forall i :: 0 <= i < |last| ==> Honest(leaves, last[i].size, last[i].root)
  }

  ghost predicate HonestHistory(o: string, leaves: seq<LeafData>, h: seq<Cosigned>) {
    forall i :: 0 <= i < |h| && h[i].origin == o ==> Honest(leaves, h[i].size, h[i].root)
  }

  /** All that the witness remembers of origin o is honest. */
  ghost predicate HonestMemory(o: string, leaves: seq<LeafData>, m: Mem) {
    && (o in m.st.origins ==> Honest(leaves, m.st.origins[o].size, m.st.origins[o].root))
    && HonestPending(leaves, PendingOf(m.st, o))
    && HonestRing(leaves, RingOf(m.st, o).last)
    && HonestHistory(o, leaves, m.disk.history)
  }

  ghost predicate HonestCtx(o: string, leaves: seq<LeafData>, c: Ctx) {
    c.cp.origin == o ==> Honest(leaves, c.cp.size, c.cp.root)
  }

  /** What a stage of a request does to an honest log: nothing in the evidence names it. */
  ghost predicate Spared(o: string, leaves: seq<LeafData>, c: Ctx, m: Mem, r: Mem) {
    && HonestMemory(o, leaves, r)
    && (c.cp.origin == o ==> r.disk.evidence == m.disk.evidence)
  }

  lemma NoPartner(leaves: seq<LeafData>, size: nat, root: Root, d: RootDict)
    requires Honest(leaves, size, root) && HonestDict(leaves, size, d)
    ensures Partner(d, root).None? && FirstOther(d, root).None?
  {
  }

  lemma RememberHonest(leaves: seq<LeafData>, p: Pending, c: Ctx)
    requires Honest(leaves, c.cp.size, c.cp.root) && NoEmptyDict(p)
    requires HonestPending(leaves, p)
    ensures HonestPending(leaves, Evict(Remember(p, c)))
  {
    var d := if c.cp.size in p then p[c.cp.size] else [];
    forall x | x in Put(d, c.cp.root, SmallNote(c)) ensures Honest(leaves, c.cp.size, x.root) {
      PutIn(d, c.cp.root, SmallNote(c), x);
    }
    var q := Remember(p, c);
    assert HonestPending(leaves, q);
    RememberNoEmptyDict(p, c);
    EvictSub(q);
    forall s | s in Evict(q) ensures HonestDict(leaves, s, Evict(q)[s]) {
      assert HonestDict(leaves, s, q[s]);
    }
  }

  lemma NoteFutureSpares(o: string, leaves: seq<LeafData>, m: Mem, c: Ctx)
    requires HonestMemory(o, leaves, m) && HonestCtx(o, leaves, c) && Bounded(m.st)
    ensures Spared(o, leaves, c, m, NoteFuture(m, c).0)
  {
    if c.cp.origin == o {
      assert HonestDict(leaves, c.cp.size, PendingAt(m.st, o, c.cp.size));
      NoPartner(leaves, c.cp.size, c.cp.root, PendingAt(m.st, o, c.cp.size));
      RememberHonest(leaves, PendingOf(m.st, o), c);
    }
  }

  lemma WriteProofKeepsMemory(o: string, leaves: seq<LeafData>, m: Mem, c: Ctx, other: Pend)
    requires HonestMemory(o, leaves, m)
    ensures HonestMemory(o, leaves, WriteProof(m, c, other)) && HonestMemory(o, leaves, Flush(WriteProof(m, c, other)))
  {
  }

  lemma AddToRingHonest(o: string, leaves: seq<LeafData>, m: Mem, kind: Kind, c: Ctx)
    requires HonestMemory(o, leaves, m) && HonestCtx(o, leaves, c)
    ensures HonestMemory(o, leaves, AddToRing(m, kind, c))
  {
    var r := RingOf(m.st, c.cp.origin);
    var longer := r.last + [Refusal(kind, c.cp.size, c.cp.root, c.recorded)];
    if c.cp.origin == o {
      assert HonestRing(leaves, longer);
      assert HonestRing(leaves, LastN(longer, RING));
    }
  }

  lemma CandidatesHonest(o: string, leaves: seq<LeafData>, m: Mem, c: Ctx)
    requires HonestMemory(o, leaves, m) && c.cp.origin == o
    ensures HonestDict(leaves, c.cp.size, Candidates(m, c))
  {
    forall x | x in Candidates(m, c) ensures Honest(leaves, c.cp.size, x.root) {
      CandidatesFrom(m, c, x);
      assert HonestDict(leaves, c.cp.size, PendingAt(m.st, o, c.cp.size));
    }
  }

  lemma RefusedSpares(o: string, leaves: seq<LeafData>, m: Mem, c: Ctx, kind: Kind, prev: Stored, ev: Option<Evidence>)
    requires HonestMemory(o, leaves, m) && HonestCtx(o, leaves, c)
    ensures Spared(o, leaves, c, m, Refused(m, c, kind, prev, ev).0)
  {
    var m1 := AddToRing(m, kind, c);
    AddToRingHonest(o, leaves, m, kind, c);
    if c.cp.origin == o {
      CandidatesHonest(o, leaves, m1, c);
      NoPartner(leaves, c.cp.size, c.cp.root, Candidates(m1, c));
      assert Refused(m, c, kind, prev, ev).0 == Flush(m1);
    } else {
      var partner := if c.cp.size < prev.size then Partner(Candidates(m1, c), c.cp.root) else None;
      if partner.Some? {
        WriteProofKeepsMemory(o, leaves, m1, c, partner.value);
      }
    }
  }

  lemma PreGateSpares(o: string, leaves: seq<LeafData>, m: Mem, c: Ctx)
    requires HonestMemory(o, leaves, m) && HonestCtx(o, leaves, c) && Bounded(m.st)
    ensures Spared(o, leaves, c, m, PreGate(m, c, PrevOf(m.st, c.cp.origin)).0)
  {
    var prev := PrevOf(m.st, c.cp.origin);
    if c.cp.size == 0 && c.cp.root != EmptyRoot {
    } else if prev.Some? && c.cp.size < prev.value.size {
      RefusedSpares(o, leaves, m, c, Rollback, prev.value, None);
    } else if prev.Some? && c.cp.size == prev.value.size && c.cp.root != prev.value.root {
    } else if c.cp.size > StoredSize(prev) {
      NoteFutureSpares(o, leaves, m, c);
    }
  }

  lemma DoCosignSpares(o: string, leaves: seq<LeafData>, m: Mem, w: Signer, q: Locked, prev: Option<Stored>,
      ev: Option<Evidence>)
    requires HonestMemory(o, leaves, m) && HonestCtx(o, leaves, CtxOf(q)) && 1 <= CtxOf(q).recorded
    ensures Spared(o, leaves, CtxOf(q), m, DoCosign(m, w, q, prev, ev).0)
  {
    var c := CtxOf(q);
    var m1 := PairAtCosign(m, c, ev);
    PairAtCosignSpares(o, leaves, m, c, ev);
    hide HonestMemory, PairAtCosign, CosignExit;
    CosignExitHonest(o, leaves, m1, w, q, prev);
  }

  lemma PairAtCosignSpares(o: string, leaves: seq<LeafData>, m: Mem, c: Ctx, ev: Option<Evidence>)
    requires HonestMemory(o, leaves, m) && HonestCtx(o, leaves, c)
    ensures HonestMemory(o, leaves, PairAtCosign(m, c, ev)) && (c.cp.origin == o ==> PairAtCosign(m, c, ev) == m)
  {
    hide FirstOther, Honest, WriteProof;
    if c.cp.origin == o {
      assert HonestDict(leaves, c.cp.size, PendingAt(m.st, o, c.cp.size));
      NoPartner(leaves, c.cp.size, c.cp.root, PendingAt(m.st, o, c.cp.size));
    } else if PairAtCosign(m, c, ev) != m {
      WriteProofKeepsMemory(o, leaves, m, c, FirstOther(PendingAt(m.st, c.cp.origin, c.cp.size), c.cp.root).value);
    }
  }

  /** The new stored head and history line are honest when the checkpoint is. */
  lemma CosignExitHonest(o: string, leaves: seq<LeafData>, m: Mem, w: Signer, q: Locked, prev: Option<Stored>)
    requires HonestMemory(o, leaves, m) && HonestCtx(o, leaves, CtxOf(q)) && 1 <= CtxOf(q).recorded
    ensures HonestMemory(o, leaves, CosignExit(m, w, q, prev))
    ensures CosignExit(m, w, q, prev).disk.evidence == m.disk.evidence
  {
    hide OwnLines, Honest;
  }

  /** A request that presents an honest checkpoint, or another origin's, adds nothing against o. */
  lemma {:induction false} RequestSparesHonestLog(o: string, leaves: seq<LeafData>, disk: Disk, w: Signer, q: Locked)
    requires Bounded(disk.state)
    requires HonestMemory(o, leaves, Mem(disk.state, false, disk))
    requires q.cp.origin == o ==> Honest(leaves, q.cp.size, q.cp.root)
    ensures var r := CosignLocked(disk, w, q);
            && HonestMemory(o, leaves, Mem(r.disk.state, false, r.disk))
            && (q.cp.origin == o ==> r.disk.evidence == disk.evidence)
  {
    hide PreGate, Refused, DoCosign, Decide;
    MemoryIsSaved(disk, w, q);
    var prev := PrevOf(disk.state, q.cp.origin);
    if !BadTimestamp(q, prev) {
      var m0 := Mem(disk.state, false, disk);
      var c := CtxOf(q);
      var (m, ev) := PreGate(m0, c, prev);
      PreGateSpares(o, leaves, m0, c);
      var d := Decide(q.cp, prev, q.proof, q.oldSize);
      if d.Cosign? {
        DoCosignSpares(o, leaves, m, w, q, prev, ev);
      } else if d.Unproven? {
        RefusedSpares(o, leaves, m, c, UnprovenExtension, prev.value, ev);
      }
    }
  }
}
