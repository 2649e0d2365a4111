/**
 Split views over whole runs: two different roots of one size, presented at any two moments of a
 run with any requests between them, end up as a pair in the evidence file as long as nothing that the
 witness remembers of that origin was dropped in between.
 */
module WitnessSplitRuns {
  import opened MerkleTree
  import opened Notes
  import opened WitnessSpec
  import opened WitnessRequests
  import opened WitnessInvariants
  import opened WitnessRuns
  import opened WitnessLiveness
  import opened WitnessSplitView

  // ---------------------------------------------------------------- one request

  /** Where a root of this origin and size is remembered, with its note if asked for. */
  ghost predicate Known(d: Disk, o: string, size: nat, root: Root, full: bool) {
    var prev := PrevOf(d.state, o);
    || (prev.Some? && prev.value.size == size && prev.value.root == root)
    || (size != StoredSize(prev) && Holds(PendingAt(d.state, o, size), root, full))
    || (!full && size < StoredSize(prev) && RefusedBefore(RingOf(d.state, o).last, size, root))
    || (size < StoredSize(prev) && CosignedRoot(d.history, o, size, root))
  }

  /** Each stored head has its line in the history file. */
  ghost predicate StoredIsWritten(d: Disk) {
    forall o :: o in d.state.origins ==> CosignedRoot(d.history, o, d.state.origins[o].size, d.state.origins[o].root)
  }

  lemma HistoryKeeps(a: seq<Cosigned>, b: seq<Cosigned>, o: string, size: nat, root: Root)
    requires a <= b && CosignedRoot(a, o, size, root)
    ensures CosignedRoot(b, o, size, root)
  {
    var i :| 0 <= i < |a| && a[i].origin == o && a[i].size == size && a[i].root == root;
    assert b[i] == a[i];
  }

  lemma {:induction false} CosignWrites(m: Mem, w: Signer, q: Locked, prev: Option<Stored>, ev: Option<Evidence>)
    requires 1 <= CtxOf(q).recorded
    requires prev.Some? ==> CosignedRoot(m.disk.history, q.cp.origin, prev.value.size, prev.value.root)
    ensures CosignedRoot(DoCosign(m, w, q, prev, ev).0.disk.history, q.cp.origin, q.cp.size, q.cp.root)
  {
    hide PairAtCosign, OwnLines, DropPendingAt;
    PairAtCosignHistory(m, CtxOf(q), ev);
    var h := DoCosign(m, w, q, prev, ev).0.disk.history;
    if prev.None? || prev.value.root != q.cp.root || prev.value.size != q.cp.size {
      assert h[|h| - 1].origin == q.cp.origin && h[|h| - 1].size == q.cp.size && h[|h| - 1].root == q.cp.root;
    }
  }

  lemma PairAtCosignHistory(m: Mem, c: Ctx, ev: Option<Evidence>)
    ensures PairAtCosign(m, c, ev).disk.history == m.disk.history
  {
  }

  /** Every request keeps the line of each stored head. */
  lemma {:induction false} RequestWritesStored(disk: Disk, w: Signer, q: Locked)
    requires StoredIsWritten(disk)
    ensures StoredIsWritten(CosignLocked(disk, w, q).disk)
  {
    hide PreGate, Refused, Decide, DoCosign, CosignedRoot;
    MemoryIsSaved(disk, w, q);
    LockedMovesHead(disk, w, q);
    var r := CosignLocked(disk, w, q);
    var prev := PrevOf(disk.state, q.cp.origin);
    if r.answer.Cosigned200? {
      var m0, c := Mem(disk.state, false, disk), CtxOf(q);
      var (m, ev) := PreGate(m0, c, prev);
      PreGateStage(m0, c, prev);
      CosignWrites(m, w, q, prev, ev);
    }
    forall o | o in r.disk.state.origins
      ensures CosignedRoot(r.disk.history, o, r.disk.state.origins[o].size, r.disk.state.origins[o].root)
    {
      if !(r.answer.Cosigned200? && o == q.cp.origin) {
        assert PrevOf(r.disk.state, o) == PrevOf(disk.state, o);
        HistoryKeeps(disk.history, r.disk.history, o, disk.state.origins[o].size, disk.state.origins[o].root);
      }
    }
  }

  /** What is remembered of other origins does not change. */
  lemma {:induction false} OthersUntouched(disk: Disk, w: Signer, q: Locked, o: string)
    requires o != q.cp.origin
    ensures var s := CosignLocked(disk, w, q).disk.state;
            PendingOf(s, o) == PendingOf(disk.state, o) && RingOf(s, o) == RingOf(disk.state, o)
  {
    hide PreGate, Refused, Decide, DoCosign;
    MemoryIsSaved(disk, w, q);
    var prev := PrevOf(disk.state, q.cp.origin);
    if !BadTimestamp(q, prev) {
      var m0, c := Mem(disk.state, false, disk), CtxOf(q);
      var (m, ev) := PreGate(m0, c, prev);
      PreGateElsewhere(m0, c, prev, o);
      var d := Decide(q.cp, prev, q.proof, q.oldSize);
      if d.Cosign? {
        DoCosignElsewhere(m, w, q, prev, ev, o);
      } else if d.Unproven? {
        RefusedElsewhere(m, c, UnprovenExtension, prev.value, ev, o);
      }
    }
  }

  ghost predicate SameAt(a: State, b: State, o: string) {
    PendingOf(a, o) == PendingOf(b, o) && RingOf(a, o) == RingOf(b, o)
  }

  lemma RefusedElsewhere(m: Mem, c: Ctx, kind: Kind, prev: Stored, ev: Option<Evidence>, o: string)
    requires o != c.cp.origin
    ensures SameAt(Refused(m, c, kind, prev, ev).0.st, m.st, o)
  {
    hide Candidates, Partner, InRing;
  }

  lemma PreGateElsewhere(m: Mem, c: Ctx, prev: Option<Stored>, o: string)
    requires o != c.cp.origin
    ensures SameAt(PreGate(m, c, prev).0.st, m.st, o)
  {
    hide Refused, Partner, Evict, Remember, WorthKeeping, WithinBudget;
    if prev.Some? {
      RefusedElsewhere(m, c, Rollback, prev.value, None, o);
    }
  }

  lemma DoCosignElsewhere(m: Mem, w: Signer, q: Locked, prev: Option<Stored>, ev: Option<Evidence>, o: string)
    requires o != q.cp.origin && 1 <= CtxOf(q).recorded
    ensures SameAt(DoCosign(m, w, q, prev, ev).0.st, m.st, o)
  {
    hide OwnLines, FirstOther;
  }

  /** Remembering one more root evicts nothing. */
  predicate NoEviction(d: Disk, q: Locked) {
    WithinBudget(Remember(PendingOf(d.state, q.cp.origin), CtxOf(q)))
  }

  lemma NoteFutureHolds(m: Mem, c: Ctx, size: nat, root: Root, full: bool)
    requires WithinBudget(Remember(PendingOf(m.st, c.cp.origin), c)) && Bounded(m.st)
    requires Holds(PendingAt(m.st, c.cp.origin, size), root, full)
    ensures Holds(PendingAt(NoteFuture(m, c).0.st, c.cp.origin, size), root, full)
  {
    hide WithinBudget, Partner, WriteProof, Bounded, NoteOf, Put;
    if size == c.cp.size {
      var d := PendingAt(m.st, c.cp.origin, size);
      PendingDistinct(m.st, c.cp.origin, size);
      if WorthKeeping(d, c) {
        if full && root == c.cp.root {
          KeptRootStays(d, c, root, full);
        }
        PutHolds(d, c.cp.root, SmallNote(c), root, full);
      }
    }
  }

  /** A note that was kept is never replaced by none. */
  lemma KeptRootStays(d: RootDict, c: Ctx, root: Root, full: bool)
    requires Distinct(d) && WorthKeeping(d, c) && Holds(d, root, full) && full && root == c.cp.root
    ensures SmallNote(c).Some?
  {
    var i :| 0 <= i < |d| && d[i].root == root;
    NoteOfIs(d, d[i]);
  }

  /** Pending roots stay, except at the size that is cosigned. */
  lemma {:induction false} PendingStays(disk: Disk, w: Signer, q: Locked, size: nat, root: Root, full: bool)
    requires NoEviction(disk, q) && Holds(PendingAt(disk.state, q.cp.origin, size), root, full) && Bounded(disk.state)
    requires CosignLocked(disk, w, q).answer.Cosigned200? ==> size != q.cp.size
    ensures Holds(PendingAt(CosignLocked(disk, w, q).disk.state, q.cp.origin, size), root, full)
  {
    hide Refused, Decide, DoCosign, NoteFuture, Holds, Remember, WithinBudget, WriteProof, Bounded;
    MemoryIsSaved(disk, w, q);
    var o, prev := q.cp.origin, PrevOf(disk.state, q.cp.origin);
    if !BadTimestamp(q, prev) {
      LockedAnswer(disk, w, q);
      var m0, c := Mem(disk.state, false, disk), CtxOf(q);
      var (m, ev) := PreGate(m0, c, prev);
      PreGateHolds(m0, c, prev, size, root, full);
      PreGateStage(m0, c, prev);
      var d := Decide(q.cp, prev, q.proof, q.oldSize);
      if d.Cosign? {
        DoCosignHolds(m, w, q, prev, ev, size, root, full);
      } else if d.Unproven? {
        RefusedStage(m, c, UnprovenExtension, prev.value, ev);
      }
    }
  }

  lemma PreGateHolds(m: Mem, c: Ctx, prev: Option<Stored>, size: nat, root: Root, full: bool)
    requires Synced(m) && Bounded(m.st) && WithinBudget(Remember(PendingOf(m.st, c.cp.origin), c))
    requires Holds(PendingAt(m.st, c.cp.origin, size), root, full)
    ensures Holds(PendingAt(PreGate(m, c, prev).0.st, c.cp.origin, size), root, full)
  {
    hide Refused, NoteFuture, Holds, Remember, WithinBudget, Bounded;
    NoteFutureHolds(m, c, size, root, full);
    if prev.Some? {
      RefusedStage(m, c, Rollback, prev.value, None);
      WriteProofStage(m, c, Pend(prev.value.root, Some(prev.value.note)));
    }
  }

  lemma DoCosignHolds(
      m: Mem, w: Signer, q: Locked, prev: Option<Stored>, ev: Option<Evidence>, size: nat, root: Root, full: bool)
    requires 1 <= CtxOf(q).recorded && size != q.cp.size && Holds(PendingAt(m.st, q.cp.origin, size), root, full)
    ensures Holds(PendingAt(DoCosign(m, w, q, prev, ev).0.st, q.cp.origin, size), root, full)
  {
    hide OwnLines, FirstOther, Holds;
  }

  /** The note is small enough to be kept, and its checkpoint is not a rollback. */
  predicate Keepable(d: Disk, q: Locked) {
    NoteLength(CtxOf(q).presented) <= 16384 && q.cp.size >= StoredSize(PrevOf(d.state, q.cp.origin))
  }

  /** What a request presents is known afterwards, with a note if it can be kept, or a pair is recorded. */
  lemma {:induction false} PresentedIsKnown(logs: Logs, disk: Disk, w: Signer, q: Locked, full: bool)
    requires Reachable(logs, disk) && TrueNote(logs, CtxOf(q).presented, q.cp) && q.cp.size > 0
    requires !BadTimestamp(q, PrevOf(disk.state, q.cp.origin)) && NoEviction(disk, q)
    requires full ==> Keepable(disk, q)
    ensures var d := CosignLocked(disk, w, q).disk;
            || Known(d, q.cp.origin, q.cp.size, q.cp.root, full)
            || PairRecorded(d.evidence, q.cp.origin, q.cp.size, q.cp.root, full)
  {
    ReachableParts(logs, disk, q.cp.origin);
    hide CosignLocked, Reachable, TrueNote, PairRecorded, Holds, Bounded, Decide, PendingAt, InRing, RefusedBefore;
    hide CosignedRoot, WithinBudget, Remember;
    LockedMovesHead(disk, w, q);
    LockedAnswer(disk, w, q);
    var o, prev := q.cp.origin, PrevOf(disk.state, q.cp.origin);
    if !CosignLocked(disk, w, q).answer.Cosigned200? {
      if q.cp.size > StoredSize(prev) {
        FutureRootStaysPending(disk, w, q, full);
      } else if q.cp.size < StoredSize(prev) {
        RefusalIsRemembered(disk, w, q);
        InRingIsRefused(RingOf(CosignLocked(disk, w, q).disk.state, o), Rollback, CtxOf(q));
      } else if prev.value.root != q.cp.root {
        SecondRootIsRecorded(logs, disk, w, q, prev.value.root, full);
      }
    }
  }

  lemma InRingIsRefused(r: Ring, kind: Kind, c: Ctx)
    requires InRing(r, kind, c)
    ensures RefusedBefore(r.last, c.cp.size, c.cp.root)
  {
  }

  /** What is known stays known over one more request, or a pair is recorded. */
  lemma {:induction false} KnownStays(
      logs: Logs, disk: Disk, w: Signer, q: Locked, o: string, size: nat, root: Root, full: bool)
    requires Reachable(logs, disk) && TrueNote(logs, CtxOf(q).presented, q.cp) && StoredIsWritten(disk)
    requires Known(disk, o, size, root, full) && size > 0
    requires q.cp.origin == o ==> NoEviction(disk, q)
    requires RingKept(disk.state, CosignLocked(disk, w, q).disk.state, o)
    ensures var d := CosignLocked(disk, w, q).disk;
            Known(d, o, size, root, full) || PairRecorded(d.evidence, o, size, q.cp.root, full)
  {
    hide CosignLocked, TrueNote, PairRecorded, Holds, PendingAt, RefusedBefore, CosignedRoot, WithinBudget, Remember,
        Decide, Bounded;
    MemoryIsSaved(disk, w, q);
    LockedMovesHead(disk, w, q);
    var r := CosignLocked(disk, w, q);
    var prev := PrevOf(disk.state, o);
    HeadGrows(logs, disk, w, q, o);
    if CosignedRoot(disk.history, o, size, root) {
      HistoryKeeps(disk.history, r.disk.history, o, size, root);
    }
    RefusedLonger(RingOf(disk.state, o).last, RingOf(r.disk.state, o).last, size, root);
    if prev.Some? && prev.value.size == size && prev.value.root == root {
      HistoryKeeps(disk.history, r.disk.history, o, size, root);
    } else if q.cp.origin != o {
      OthersUntouched(disk, w, q, o);
      PendingAtSame(disk.state, r.disk.state, o, size);
    } else if size != StoredSize(prev) && Holds(PendingAt(disk.state, o, size), root, full) {
      if !(r.answer.Cosigned200? && q.cp.size == size) {
        PendingStays(disk, w, q, size, root, full);
      } else if q.cp.root != root {
        CosignedInTimely(disk, w, q);
        SecondRootIsRecorded(logs, disk, w, q, root, full);
      }
    }
  }

  lemma PendingAtSame(a: State, b: State, o: string, size: nat)
    requires PendingOf(a, o) == PendingOf(b, o)
    ensures PendingAt(a, o, size) == PendingAt(b, o, size)
  {
  }

  lemma CosignedInTimely(disk: Disk, w: Signer, q: Locked)
    requires CosignLocked(disk, w, q).answer.Cosigned200?
    ensures !BadTimestamp(q, PrevOf(disk.state, q.cp.origin))
  {
  }

  /** A stored head never shrinks, a cosigned one is not smaller, and at the same size it is the same. */
  lemma {:induction false} HeadGrows(logs: Logs, disk: Disk, w: Signer, q: Locked, o: string)
    requires Reachable(logs, disk)
    ensures var a, b := PrevOf(disk.state, o), PrevOf(CosignLocked(disk, w, q).disk.state, o);
            && StoredSize(a) <= StoredSize(b)
            && (a.Some? ==> b.Some? && (StoredSize(a) == StoredSize(b) ==> a.value.root == b.value.root))
  {
    hide CosignLocked, Decide, Extends;
    LockedMovesHead(disk, w, q);
    var prev := PrevOf(disk.state, o);
    if CosignLocked(disk, w, q).answer.Cosigned200? && q.cp.origin == o && prev.Some? {
      DecisionExtends(q.cp, prev, q.proof, q.oldSize);
      ExtendsMeans(HeadOf(prev.value), HeadOfCheckpoint(q.cp));
    }
  }

  lemma ExtendsMeans(a: Head, b: Head)
    requires Extends(a, b)
    ensures a.size <= b.size && (a.size == b.size ==> a.root == b.root)
  {
  }

  /** A different root at the size of a known one leaves a pair. */
  lemma {:induction false} KnownIsCaught(logs: Logs, disk: Disk, w: Signer, q: Locked, root: Root, full: bool)
    requires Reachable(logs, disk) && TrueNote(logs, CtxOf(q).presented, q.cp)
    requires !BadTimestamp(q, PrevOf(disk.state, q.cp.origin))
    requires q.cp.size > 0 && root != q.cp.root && Known(disk, q.cp.origin, q.cp.size, root, full)
    requires HistoryInWindow(disk.history, q.cp.origin)
    requires RingKept(disk.state, CosignLocked(disk, w, q).disk.state, q.cp.origin)
    ensures PairRecorded(CosignLocked(disk, w, q).disk.evidence, q.cp.origin, q.cp.size, q.cp.root, full)
  {
    hide CosignLocked, Reachable, TrueNote, PairRecorded, Holds, PendingAt, RefusedBefore, CosignedRoot, Window;
    var o, prev := q.cp.origin, PrevOf(disk.state, q.cp.origin);
    if q.cp.size < StoredSize(prev) {
      if CosignedRoot(disk.history, o, q.cp.size, root) {
        WindowHas(disk.history, o, q.cp.size, root);
      }
      RollbackConflictIsRecorded(logs, disk, w, q, root, full);
    } else {
      SecondRootIsRecorded(logs, disk, w, q, root, full);
    }
  }

  /** No history line of this origin has left the window that a rollback scans. */
  ghost predicate HistoryInWindow(h: seq<Cosigned>, o: string) {
    forall i :: 0 <= i < |h| && h[i].origin == o ==> CosignedRoot(Window(h), o, h[i].size, h[i].root)
  }

  lemma WindowHas(h: seq<Cosigned>, o: string, size: nat, root: Root)
    requires HistoryInWindow(h, o) && CosignedRoot(h, o, size, root)
    ensures CosignedRoot(Window(h), o, size, root)
  {
    hide Window;
    var i :| 0 <= i < |h| && h[i].origin == o && h[i].size == size && h[i].root == root;
  }

  /** A history file of at most 4 MiB is scanned whole. */
  lemma SmallHistoryInWindow(h: seq<Cosigned>, o: string)
    requires HistoryBytes(h) <= 4194304
    ensures HistoryInWindow(h, o)
  {
    hide HistoryBytes;
    forall i | 0 <= i < |h| && h[i].origin == o ensures CosignedRoot(Window(h), o, h[i].size, h[i].root) {
      assert Window(h)[i] == h[i];
    }
  }

  // ---------------------------------------------------------------- runs

  /** The request passes the checks before the lock, with this content. */
  ghost predicate Reaches(w: Signer, logs: Logs, r: Request, q: Locked) {
    var o := FirstLine(r.note.text);
    o in logs && Front(w, logs[o], o, r) == Go(q)
  }

  /**
   Request i presents a log-signed checkpoint, and its timestamp, if it states one, is in order; if
   asked for, with a note that can be kept.
   */
  ghost predicate Presents(w: Signer, logs: Logs, reqs: seq<Request>, i: nat, cp: Checkpoint, full: bool) {
    && i < |reqs|
    && exists q :: Reaches(w, logs, reqs[i], q) && q.cp == cp
                   && !BadTimestamp(q, PrevOf(DiskAfter(w, logs, reqs[..i]).state, cp.origin))
                   && (full ==> Keepable(DiskAfter(w, logs, reqs[..i]), q))
  }

  /** Request t drops nothing that is remembered of this origin in the pending roots and the ring. */
  ghost predicate DropsNothing(w: Signer, logs: Logs, reqs: seq<Request>, t: nat, o: string)
    requires t < |reqs|
  {
    var d := DiskAfter(w, logs, reqs[..t]);
    && RingKept(d.state, Handle(d, w, logs, reqs[t]).disk.state, o)
    && forall q :: Reaches(w, logs, reqs[t], q) && q.cp.origin == o ==> NoEviction(d, q)
  }

  lemma {:induction false} RunWritesStored(w: Signer, logs: Logs, reqs: seq<Request>)
    ensures StoredIsWritten(DiskAfter(w, logs, reqs))
  {
    hide CosignLocked, CosignedRoot, Front;
    if reqs != [] {
      var r := reqs[|reqs| - 1];
      RunWritesStored(w, logs, reqs[..|reqs| - 1]);
      var o := FirstLine(r.note.text);
      if o in logs && Front(w, logs[o], o, r).Go? {
        RequestWritesStored(DiskAfter(w, logs, reqs[..|reqs| - 1]), w, Front(w, logs[o], o, r).locked);
      }
    }
  }

  /** A pair of two different roots of this origin and size is in the evidence file, in full if asked for. */
  ghost predicate SplitRecorded(evidence: seq<Evidence>, o: string, size: nat, full: bool) {
    exists root :: PairRecorded(evidence, o, size, root, full)
  }

  lemma {:induction false} EvidenceGrows(w: Signer, logs: Logs, reqs: seq<Request>, i: nat, j: nat)
    requires i <= j <= |reqs|
    ensures DiskAfter(w, logs, reqs[..i]).evidence <= DiskAfter(w, logs, reqs[..j]).evidence
    decreases j
  {
    hide CosignLocked, Front, DiskAfter;
    if i < j {
      EvidenceGrows(w, logs, reqs, i, j - 1);
      DiskAfterStep(w, logs, reqs, j - 1);
      var d, r := DiskAfter(w, logs, reqs[..j - 1]), reqs[j - 1];
      var o := FirstLine(r.note.text);
      if o in logs && Front(w, logs[o], o, r).Go? {
        MemoryIsSaved(d, w, Front(w, logs[o], o, r).locked);
      }
    }
  }

  lemma SplitStays(w: Signer, logs: Logs, reqs: seq<Request>, i: nat, j: nat, o: string, size: nat,
      full: bool)
    requires i <= j <= |reqs| && SplitRecorded(DiskAfter(w, logs, reqs[..i]).evidence, o, size, full)
    ensures SplitRecorded(DiskAfter(w, logs, reqs[..j]).evidence, o, size, full)
  {
    hide PairRecorded;
    var root :| PairRecorded(DiskAfter(w, logs, reqs[..i]).evidence, o, size, root, full);
    EvidenceGrows(w, logs, reqs, i, j);
    PairStays(DiskAfter(w, logs, reqs[..i]).evidence, DiskAfter(w, logs, reqs[..j]).evidence, o, size, root, full);
  }

  /** From the request that presents a root to any later moment of the run: known, or already paired. */
  lemma {:induction false} KnownAlongRun(
      w: Signer, logs: Logs, reqs: seq<Request>, i: nat, t: nat, cp: Checkpoint, full: bool)
    requires Presents(w, logs, reqs, i, cp, full) && i < t <= |reqs| && cp.size > 0
    requires forall k :: i <= k < t ==> DropsNothing(w, logs, reqs, k, cp.origin)
    ensures var d := DiskAfter(w, logs, reqs[..t]);
            Known(d, cp.origin, cp.size, cp.root, full) || SplitRecorded(d.evidence, cp.origin, cp.size, full)
    decreases t
  {
    hide *;
    assert DropsNothing(w, logs, reqs, t - 1, cp.origin);
    if t - 1 == i {
      PresentedStep(w, logs, reqs, i, cp, full);
    } else {
      KnownAlongRun(w, logs, reqs, i, t - 1, cp, full);
      if SplitRecorded(DiskAfter(w, logs, reqs[..t - 1]).evidence, cp.origin, cp.size, full) {
        SplitStays(w, logs, reqs, t - 1, t, cp.origin, cp.size, full);
      } else {
        KnownStep(w, logs, reqs, t - 1, cp, full);
      }
    }
  }

  /** The request that presents a root. */
  lemma {:induction false} PresentedStep(
      w: Signer, logs: Logs, reqs: seq<Request>, i: nat, cp: Checkpoint, full: bool)
    requires Presents(w, logs, reqs, i, cp, full) && cp.size > 0 && DropsNothing(w, logs, reqs, i, cp.origin)
    ensures var d := DiskAfter(w, logs, reqs[..i + 1]);
            Known(d, cp.origin, cp.size, cp.root, full) || SplitRecorded(d.evidence, cp.origin, cp.size, full)
  {
    hide Known, PairRecorded, CosignLocked, Front, RingKept, NoEviction, BadTimestamp, TrueNote, DiskAfter, Reachable,
        Keepable;
    var d := DiskAfter(w, logs, reqs[..i]);
    RunIsReachable(w, logs, reqs[..i]);
    DiskAfterStep(w, logs, reqs, i);
    var q :| Reaches(w, logs, reqs[i], q) && q.cp == cp && !BadTimestamp(q, PrevOf(d.state, cp.origin))
      && (full ==> Keepable(d, q));
    FrontGoIsSigned(w, logs, FirstLine(reqs[i].note.text), reqs[i]);
    PresentedIsKnown(logs, d, w, q, full);
  }

  lemma {:induction false} KnownStep(
      w: Signer, logs: Logs, reqs: seq<Request>, t: nat, cp: Checkpoint, full: bool)
    requires t < |reqs| && cp.size > 0 && DropsNothing(w, logs, reqs, t, cp.origin)
    requires Known(DiskAfter(w, logs, reqs[..t]), cp.origin, cp.size, cp.root, full)
    ensures var d := DiskAfter(w, logs, reqs[..t + 1]);
            Known(d, cp.origin, cp.size, cp.root, full) || SplitRecorded(d.evidence, cp.origin, cp.size, full)
  {
    hide Known, PairRecorded, CosignLocked, Front, StoredIsWritten, RingKept, NoEviction, TrueNote;
    hide DiskAfter, Reachable;
    var d, r := DiskAfter(w, logs, reqs[..t]), reqs[t];
    RunIsReachable(w, logs, reqs[..t]);
    RunWritesStored(w, logs, reqs[..t]);
    DiskAfterStep(w, logs, reqs, t);
    var o := FirstLine(r.note.text);
    if o in logs && Front(w, logs[o], o, r).Go? {
      var q := Front(w, logs[o], o, r).locked;
      assert Reaches(w, logs, r, q);
      FrontGoIsSigned(w, logs, o, r);
      KnownStays(logs, d, w, q, cp.origin, cp.size, cp.root, full);
    }
  }

  /**
   Split views over runs: two log-signed checkpoints of one origin and positive size with different
   roots, presented by any two requests of a run, leave a pair of different roots of that size in the
   evidence file, with any requests between and after them, as long as no pending root and no ring entry
   of the origin was dropped from the first to the second, and its history lines are still scanned then.
   The pair is full if the first note has at most 16384 bytes and its checkpoint was no rollback.
   */
  lemma {:induction false} SplitViewIsCaughtInRun(
      w: Signer, logs: Logs, reqs: seq<Request>, i: nat, j: nat, a: Checkpoint, b: Checkpoint, full: bool)
    requires i < j && Presents(w, logs, reqs, i, a, full) && Presents(w, logs, reqs, j, b, false)
    requires a.origin == b.origin && a.size == b.size > 0 && a.root != b.root
    requires forall k :: i <= k <= j ==> DropsNothing(w, logs, reqs, k, a.origin)
    requires HistoryInWindow(DiskAfter(w, logs, reqs[..j]).history, a.origin)
    ensures SplitRecorded(DiskAfter(w, logs, reqs).evidence, a.origin, a.size, full)
  {
    hide Known, PairRecorded, CosignLocked, Front, RingKept, NoEviction, BadTimestamp, TrueNote, HistoryInWindow,
        Keepable;
    var d := DiskAfter(w, logs, reqs[..j]);
    KnownAlongRun(w, logs, reqs, i, j, a, full);
    assert reqs[..|reqs|] == reqs;
    if SplitRecorded(d.evidence, a.origin, a.size, full) {
      SplitStays(w, logs, reqs, j, |reqs|, a.origin, a.size, full);
    } else {
      var q :| Reaches(w, logs, reqs[j], q) && q.cp == b && !BadTimestamp(q, PrevOf(d.state, b.origin));
      RunIsReachable(w, logs, reqs[..j]);
      FrontGoIsSigned(w, logs, FirstLine(reqs[j].note.text), reqs[j]);
      DiskAfterStep(w, logs, reqs, j);
      assert DropsNothing(w, logs, reqs, j, a.origin);
      KnownIsCaught(logs, d, w, q, a.root, full);
      assert SplitRecorded(DiskAfter(w, logs, reqs[..j + 1]).evidence, a.origin, a.size, full);
      SplitStays(w, logs, reqs, j + 1, |reqs|, a.origin, a.size, full);
    }
  }

  /** While the history file has at most 4 MiB, all of it is scanned and nothing need be known about its lines. */
  lemma SplitViewIsCaughtInSmallHistory(
      w: Signer, logs: Logs, reqs: seq<Request>, i: nat, j: nat, a: Checkpoint, b: Checkpoint, full: bool)
    requires i < j && Presents(w, logs, reqs, i, a, full) && Presents(w, logs, reqs, j, b, false)
    requires a.origin == b.origin && a.size == b.size > 0 && a.root != b.root
    requires forall k :: i <= k <= j ==> DropsNothing(w, logs, reqs, k, a.origin)
    requires HistoryBytes(DiskAfter(w, logs, reqs[..j]).history) <= 4194304
    ensures SplitRecorded(DiskAfter(w, logs, reqs).evidence, a.origin, a.size, full)
  {
    assert j < |reqs|;
    hide *;
    SmallHistoryInWindow(DiskAfter(w, logs, reqs[..j]).history, a.origin);
    SplitViewIsCaughtInRun(w, logs, reqs, i, j, a, b, full);
  }

  /** In full: some record proves the split view with two notes of this size that the log signed. */
  lemma SplitViewIsProvedInRun(
      w: Signer, logs: Logs, reqs: seq<Request>, i: nat, j: nat, a: Checkpoint, b: Checkpoint)
    requires i < j && Presents(w, logs, reqs, i, a, true) && Presents(w, logs, reqs, j, b, false)
    requires a.origin == b.origin && a.size == b.size > 0 && a.root != b.root
    requires forall k :: i <= k <= j ==> DropsNothing(w, logs, reqs, k, a.origin)
    requires HistoryBytes(DiskAfter(w, logs, reqs[..j]).history) <= 4194304
    ensures exists e, root, other ::
              e in DiskAfter(w, logs, reqs).evidence && TwoNotes(logs, e, a.origin, a.size, root, other)
  {
    SplitViewIsCaughtInSmallHistory(w, logs, reqs, i, j, a, b, true);
    var evidence := DiskAfter(w, logs, reqs).evidence;
    hide PairRecorded, DiskAfter, Presents, DropsNothing, HistoryBytes, TwoNotes, Reachable;
    var root :| PairRecorded(evidence, a.origin, a.size, root, true);
    RunIsReachable(w, logs, reqs);
    ReachableEvidence(logs, DiskAfter(w, logs, reqs));
    FullPairHasNotes(logs, evidence, a.origin, a.size, root);
  }
}
