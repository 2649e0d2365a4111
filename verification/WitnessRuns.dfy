/**
 Whole runs of one witness: from the empty state, any sequence of requests for any set of trusted
 logs, honest or not.
 */
module WitnessRuns {
  import opened MerkleTree
  import opened MerkleWalk
  import opened Notes
  import opened WitnessSpec
  import opened WitnessRequests
  import opened WitnessInvariants
  import opened WitnessEvidence

  // ---------------------------------------------------------------- append-only

  /** A tree head: a size and a root. */
  datatype Head = Head(size: nat, root: Root)

  /**
   `b` extends `a`: not smaller, the same root at the same size, and whatever leaves `b` commits
   to, `a` commits to their prefix.
   */
  ghost predicate Extends(a: Head, b: Head) {
    && a.size <= b.size
    && (a.size == b.size ==> a.root == b.root)
    && forall leaves: seq<LeafData> :: |leaves| == b.size && Mth(leaves) == b.root ==> a.root == Mth(leaves[..a.size])
  }

  lemma ExtendsReflexive(a: Head)
    ensures Extends(a, a)
  {
    forall leaves: seq<LeafData> | |leaves| == a.size && Mth(leaves) == a.root
      ensures a.root == Mth(leaves[..a.size])
    {
      assert leaves[..a.size] == leaves;
    }
  }

  lemma ExtendsTransitive(a: Head, b: Head, c: Head)
    requires Extends(a, b) && Extends(b, c)
    ensures Extends(a, c)
  {
    forall leaves: seq<LeafData> | |leaves| == c.size && Mth(leaves) == c.root
      ensures a.root == Mth(leaves[..a.size])
    {
      var shorter := leaves[..b.size];
      assert Mth(shorter) == b.root;
      assert shorter[..a.size] == leaves[..a.size];
    }
  }

  function HeadOf(s: Stored): Head { Head(s.size, s.root) }
  function HeadOfCheckpoint(cp: Checkpoint): Head { Head(cp.size, cp.root) }

  /** An accepted proof is an extension. */
  lemma ProofMeansExtends(a: Head, b: Head, proof: seq<ProofLine>)
    requires 0 < a.size && ProofAccepted(a.size, a.root, b.size, b.root, proof)
    ensures Extends(a, b)
  {
    if a.size == b.size {
      ExtendsReflexive(a);
    } else {
      forall leaves: seq<LeafData> | |leaves| == b.size && Mth(leaves) == b.root
        ensures a.root == Mth(leaves[..a.size])
      {
        ConsistencyExact(a.size, leaves, Digests(proof), a.root);
      }
    }
  }

  /** A cosigning decision is an extension of what was stored, also from size 0. */
  lemma DecisionExtends(cp: Checkpoint, prev: Option<Stored>, proof: seq<ProofLine>, oldSize: Option<int>)
    requires Decide(cp, prev, proof, oldSize).Cosign?
    requires prev.Some? && (prev.value.size == 0 ==> prev.value.root == EmptyRoot)
    ensures Extends(HeadOf(prev.value), HeadOfCheckpoint(cp))
  {
    var a, b := HeadOf(prev.value), HeadOfCheckpoint(cp);
    if a.size == b.size {
      ExtendsReflexive(a);
    } else if a.size == 0 {
      assert forall leaves: seq<LeafData> :: Mth(leaves[..0]) == EmptyRoot;
    } else {
      ProofMeansExtends(a, b, proof);
    }
  }

  // ---------------------------------------------------------------- what one request does to the stored heads

  ghost predicate EmptyHeadsOk(st: State) {
    forall o :: o in st.origins && st.origins[o].size == 0 ==> st.origins[o].root == EmptyRoot
  }

  /** Only a cosigning answer moves a stored head, and only its own origin's, to the cosigned checkpoint. */
  lemma {:induction false} LockedMovesHead(disk: Disk, w: Signer, q: Locked)
    ensures var r := CosignLocked(disk, w, q);
            if r.answer.Cosigned200? then
              && Decide(q.cp, PrevOf(disk.state, q.cp.origin), q.proof, q.oldSize).Cosign?
              && q.cp.origin in r.disk.state.origins
              && HeadOf(r.disk.state.origins[q.cp.origin]) == HeadOfCheckpoint(q.cp)
              && (forall o :: o != q.cp.origin ==> PrevOf(r.disk.state, o) == PrevOf(disk.state, o))
              && r.answer.note.text == CheckpointText(q.cp, q.extensions)
              && r.answer.note.sigs == q.kept + r.answer.lines
              && r.answer.lines == OwnLines(w, q.cp, q.extensions, CtxOf(q).recorded)
            else r.disk.state.origins == disk.state.origins
  {
    hide PreGate, Refused, Decide;
    MemoryIsSaved(disk, w, q);
    var prev := PrevOf(disk.state, q.cp.origin);
    if !BadTimestamp(q, prev) {
      var c := CtxOf(q);
      var (m, ev) := PreGate(Mem(disk.state, false, disk), c, prev);
      PreGateStage(Mem(disk.state, false, disk), c, prev);
      if Decide(q.cp, prev, q.proof, q.oldSize).Unproven? {
        RefusedStage(m, c, UnprovenExtension, prev.value, ev);
      }
    }
  }

  // ---------------------------------------------------------------- runs

  ghost function DiskAfter(w: Signer, logs: Logs, reqs: seq<Request>): Disk {
    if reqs == [] then EMPTY_DISK
    else Handle(DiskAfter(w, logs, reqs[..|reqs| - 1]), w, logs, reqs[|reqs| - 1]).disk
  }

  ghost function AnswerAt(w: Signer, logs: Logs, reqs: seq<Request>, i: nat): Answer
    requires i < |reqs|
  {
    Handle(DiskAfter(w, logs, reqs[..i]), w, logs, reqs[i]).answer
  }

  lemma DiskAfterStep(w: Signer, logs: Logs, reqs: seq<Request>, i: nat)
    requires i < |reqs|
    ensures DiskAfter(w, logs, reqs[..i + 1]) == Handle(DiskAfter(w, logs, reqs[..i]), w, logs, reqs[i]).disk
  {
    assert reqs[..i + 1][..i] == reqs[..i];
  }

  /** What holds of the files after every request of every run. */
  ghost predicate Reachable(logs: Logs, disk: Disk) {
    && Bounded(disk.state)
    && EmptyHeadsOk(disk.state)
    && PendingBeyond(disk.state)
    && Truthful(logs, Mem(disk.state, false, disk))
  }

  /** No root is pending at the very size last cosigned. */
  ghost predicate BeyondAt(st: State, o: string) {
    StoredSize(PrevOf(st, o)) !in PendingOf(st, o)
  }

  ghost predicate PendingBeyond(st: State) {
    forall o :: BeyondAt(st, o)
  }

  /** The condition at an origin depends on that origin's part of the state only. */
  lemma BeyondElsewhere(st: State, st': State, origin: string)
    requires PendingBeyond(st) && BeyondAt(st', origin)
    requires st'.origins - {origin} == st.origins - {origin} && st'.pending - {origin} == st.pending - {origin}
    ensures PendingBeyond(st')
  {
    forall o ensures BeyondAt(st', o) {
      if o != origin {
        assert BeyondAt(st, o);
        assert o in st.origins <==> o in st.origins - {origin};
        assert o in st'.origins <==> o in st'.origins - {origin};
        assert o in st.pending <==> o in st.pending - {origin};
        assert o in st'.pending <==> o in st'.pending - {origin};
      }
    }
  }

  lemma BeyondUnmoved(st: State, st': State)
    requires PendingBeyond(st) && st'.origins == st.origins && st'.pending == st.pending
    ensures PendingBeyond(st')
  {
    forall o ensures BeyondAt(st', o) {
      assert BeyondAt(st, o);
    }
  }

  lemma NoteFutureBeyond(m: Mem, c: Ctx)
    requires PendingBeyond(m.st) && Bounded(m.st) && Synced(m) && c.cp.size > StoredSize(PrevOf(m.st, c.cp.origin))
    ensures PendingBeyond(NoteFuture(m, c).0.st)
  {
    hide WriteProof, Evict, Partner, WorthKeeping, WithinBudget;
    var o := c.cp.origin;
    var p := PendingOf(m.st, o);
    RememberNoEmptyDict(p, c);
    EvictSub(Remember(p, c));
    NoteFutureStage(m, c);
    assert BeyondAt(m.st, o);
    BeyondElsewhere(m.st, NoteFuture(m, c).0.st, o);
  }

  lemma PreGateBeyond(m: Mem, c: Ctx)
    requires PendingBeyond(m.st) && Bounded(m.st) && Synced(m)
    ensures PendingBeyond(PreGate(m, c, PrevOf(m.st, c.cp.origin)).0.st)
  {
    hide Refused, NoteFuture;
    var prev := PrevOf(m.st, c.cp.origin);
    if c.cp.size == 0 && c.cp.root != EmptyRoot {
    } else if prev.Some? && c.cp.size < prev.value.size {
      RefusedStage(m, c, Rollback, prev.value, None);
      BeyondUnmoved(m.st, PreGate(m, c, prev).0.st);
    } else if prev.Some? && c.cp.size == prev.value.size && c.cp.root != prev.value.root {
      BeyondUnmoved(m.st, PreGate(m, c, prev).0.st);
    } else if c.cp.size > StoredSize(prev) {
      NoteFutureBeyond(m, c);
    }
  }

  lemma DoCosignBeyond(m: Mem, w: Signer, q: Locked, prev: Option<Stored>, ev: Option<Evidence>)
    requires PendingBeyond(m.st) && 1 <= CtxOf(q).recorded
    ensures PendingBeyond(DoCosign(m, w, q, prev, ev).0.st)
  {
    BeyondElsewhere(m.st, DoCosign(m, w, q, prev, ev).0.st, q.cp.origin);
  }

  lemma {:induction false} RequestKeepsBeyond(disk: Disk, w: Signer, q: Locked)
    requires Bounded(disk.state) && PendingBeyond(disk.state)
    ensures PendingBeyond(CosignLocked(disk, w, q).disk.state)
  {
    hide PreGate, Refused, Decide, DoCosign, BeyondAt;
    MemoryIsSaved(disk, w, q);
    var prev := PrevOf(disk.state, q.cp.origin);
    if !BadTimestamp(q, prev) {
      var m0 := Mem(disk.state, false, disk);
      var c := CtxOf(q);
      var (m, ev) := PreGate(m0, c, prev);
      PreGateBeyond(m0, c);
      var d := Decide(q.cp, prev, q.proof, q.oldSize);
      if d.Cosign? {
        DoCosignBeyond(m, w, q, prev, ev);
      } else if d.Unproven? {
        PreGateStage(m0, c, prev);
        RefusedStage(m, c, UnprovenExtension, prev.value, ev);
        BeyondUnmoved(m.st, Refused(m, c, UnprovenExtension, prev.value, ev).0.st);
      }
    }
  }

  lemma {:induction false} EmptyHeadsStayOk(disk: Disk, w: Signer, q: Locked)
    requires EmptyHeadsOk(disk.state)
    ensures EmptyHeadsOk(CosignLocked(disk, w, q).disk.state)
  {
    LockedMovesHead(disk, w, q);
    var r := CosignLocked(disk, w, q);
    forall o | o in r.disk.state.origins && r.disk.state.origins[o].size == 0
      ensures r.disk.state.origins[o].root == EmptyRoot
    {
      if r.answer.Cosigned200? && o != q.cp.origin {
        assert PrevOf(r.disk.state, o) == PrevOf(disk.state, o);
      }
    }
  }

  /** Every request past the checks keeps the invariant. */
  lemma {:induction false} LockedKeepsReachable(logs: Logs, disk: Disk, w: Signer, q: Locked)
    requires Reachable(logs, disk) && TrueNote(logs, CtxOf(q).presented, q.cp)
    ensures Reachable(logs, CosignLocked(disk, w, q).disk)
  {
    hide CosignLocked;
    RequestKeepsBounds(disk, w, q);
    RequestKeepsTruth(logs, disk, w, q);
    RequestKeepsBeyond(disk, w, q);
    EmptyHeadsStayOk(disk, w, q);
  }

  lemma {:induction false} HandleKeepsReachable(disk: Disk, w: Signer, logs: Logs, r: Request)
    requires Reachable(logs, disk)
    ensures Reachable(logs, Handle(disk, w, logs, r).disk)
  {
    var origin := FirstLine(r.note.text);
    if origin in logs && Front(w, logs[origin], origin, r).Go? {
      FrontGoIsSigned(w, logs, origin, r);
      LockedKeepsReachable(logs, disk, w, Front(w, logs[origin], origin, r).locked);
    }
  }

  /** After every run: bounded memory, truthful evidence, every remembered pair recorded. */
  lemma {:induction false} RunIsReachable(w: Signer, logs: Logs, reqs: seq<Request>)
    ensures Reachable(logs, DiskAfter(w, logs, reqs))
  {
    if reqs != [] {
      var before := reqs[..|reqs| - 1];
      RunIsReachable(w, logs, before);
      HandleKeepsReachable(DiskAfter(w, logs, before), w, logs, reqs[|reqs| - 1]);
    }
  }

  /** One request never moves a stored head except by extending it. */
  lemma {:induction false} HandleExtends(disk: Disk, w: Signer, logs: Logs, r: Request, o: string)
    requires EmptyHeadsOk(disk.state) && o in disk.state.origins
    ensures var s := Handle(disk, w, logs, r).disk.state;
            o in s.origins && Extends(HeadOf(disk.state.origins[o]), HeadOf(s.origins[o]))
  {
    ExtendsReflexive(HeadOf(disk.state.origins[o]));
    var origin := FirstLine(r.note.text);
    if origin in logs && Front(w, logs[origin], origin, r).Go? {
      var q := Front(w, logs[origin], origin, r).locked;
      LockedMovesHead(disk, w, q);
      var out := CosignLocked(disk, w, q);
      if out.answer.Cosigned200? && q.cp.origin == o {
        DecisionExtends(q.cp, PrevOf(disk.state, o), q.proof, q.oldSize);
      } else {
        assert PrevOf(out.disk.state, o) == PrevOf(disk.state, o);
      }
    }
  }

  /** The checkpoint of an answer that cosigned. */
  ghost predicate CosignedHead(w: Signer, logs: Logs, reqs: seq<Request>, i: nat, cp: Checkpoint) {
    i < |reqs| && AnswerAt(w, logs, reqs, i).Cosigned200? && reqs[i].note.text.CheckpointText?
        && reqs[i].note.text.cp == cp
  }

  /** Right after cosigning, the stored head is the cosigned checkpoint. */
  lemma {:induction false} CosignedIsStored(w: Signer, logs: Logs, reqs: seq<Request>, i: nat, cp: Checkpoint)
    requires CosignedHead(w, logs, reqs, i, cp)
    ensures var s := DiskAfter(w, logs, reqs[..i + 1]).state;
            cp.origin in s.origins && HeadOf(s.origins[cp.origin]) == HeadOfCheckpoint(cp)
  {
    DiskAfterStep(w, logs, reqs, i);
    var disk := DiskAfter(w, logs, reqs[..i]);
    var origin := FirstLine(reqs[i].note.text);
    var q := Front(w, logs[origin], origin, reqs[i]).locked;
    LockedMovesHead(disk, w, q);
  }

  /** Stored heads only extend along a run. */
  lemma {:induction false} StoredHeadsExtend(w: Signer, logs: Logs, reqs: seq<Request>, i: nat, j: nat, o: string)
    requires i <= j <= |reqs| && o in DiskAfter(w, logs, reqs[..i]).state.origins
    ensures var a, b := DiskAfter(w, logs, reqs[..i]).state, DiskAfter(w, logs, reqs[..j]).state;
            o in b.origins && Extends(HeadOf(a.origins[o]), HeadOf(b.origins[o]))
    decreases j - i
  {
    var a := DiskAfter(w, logs, reqs[..i]);
    if i == j {
      ExtendsReflexive(HeadOf(a.state.origins[o]));
    } else {
      StoredHeadsExtend(w, logs, reqs, i, j - 1, o);
      var mid := DiskAfter(w, logs, reqs[..j - 1]);
      RunIsReachable(w, logs, reqs[..j - 1]);
      HandleExtends(mid, w, logs, reqs[j - 1], o);
      DiskAfterStep(w, logs, reqs, j - 1);
      var b := DiskAfter(w, logs, reqs[..j]);
      ExtendsTransitive(HeadOf(a.state.origins[o]), HeadOf(mid.state.origins[o]), HeadOf(b.state.origins[o]));
    }
  }

  /**
   The cosigned checkpoints of one origin over a whole run form an append-only history: sizes never
   shrink, equal sizes have equal roots, and each commits to a prefix of what the later ones commit to.
   */
  lemma {:induction false} CosignedHistoryIsAppendOnly(w: Signer, logs: Logs, reqs: seq<Request>, i: nat, j: nat,
      a: Checkpoint, b: Checkpoint)
    requires i <= j && CosignedHead(w, logs, reqs, i, a) && CosignedHead(w, logs, reqs, j, b) && a.origin == b.origin
    ensures Extends(HeadOfCheckpoint(a), HeadOfCheckpoint(b))
  {
    CosignedIsStored(w, logs, reqs, i, a);
    CosignedIsStored(w, logs, reqs, j, b);
    StoredHeadsExtend(w, logs, reqs, i + 1, j + 1, a.origin);
  }

  // ---------------------------------------------------------------- honest logs

  /** Every log-signed checkpoint of origin o presented in the run is a prefix of one leaf sequence. */
  ghost predicate HonestLogRun(logs: Logs, reqs: seq<Request>, o: string, leaves: seq<LeafData>) {
    forall i, cp: Checkpoint :: 0 <= i < |reqs| && cp.origin == o && TrueNote(logs, reqs[i].note, cp) ==>
        Honest(leaves, cp.size, cp.root)
  }

  lemma {:induction false} HandleSparesHonestLog(disk: Disk, w: Signer, logs: Logs, r: Request, o: string,
      leaves: seq<LeafData>)
    requires Reachable(logs, disk) && HonestMemory(o, leaves, Mem(disk.state, false, disk))
    requires forall cp: Checkpoint :: cp.origin == o && TrueNote(logs, r.note, cp) ==> Honest(leaves, cp.size, cp.root)
    requires forall e :: e in disk.evidence ==> e.origin != o
    ensures var d := Handle(disk, w, logs, r).disk;
            HonestMemory(o, leaves, Mem(d.state, false, d)) && forall e :: e in d.evidence ==> e.origin != o
  {
    var origin := FirstLine(r.note.text);
    if origin in logs && Front(w, logs[origin], origin, r).Go? {
      var q := Front(w, logs[origin], origin, r).locked;
      FrontGoIsSigned(w, logs, origin, r);
      RequestSparesHonestLog(o, leaves, disk, w, q);
      if q.cp.origin != o {
        MemoryIsSaved(disk, w, q);
      }
    }
  }

  /** No run ever writes a split-view or split-view-unkept record against an honest log. */
  lemma {:induction false} HonestLogIsNeverAccused(w: Signer, logs: Logs, reqs: seq<Request>, o: string,
      leaves: seq<LeafData>)
    requires HonestLogRun(logs, reqs, o, leaves)
    ensures var d := DiskAfter(w, logs, reqs);
            HonestMemory(o, leaves, Mem(d.state, false, d)) && forall e :: e in d.evidence ==> e.origin != o
  {
    if reqs != [] {
      var before := reqs[..|reqs| - 1];
      HonestLogIsNeverAccused(w, logs, before, o, leaves);
      RunIsReachable(w, logs, before);
      HandleSparesHonestLog(DiskAfter(w, logs, before), w, logs, reqs[|reqs| - 1], o, leaves);
    }
  }
}
