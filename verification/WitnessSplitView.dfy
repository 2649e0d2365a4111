/** What is kept, and for how long: eviction order, remembered refusals, and split views that are caught. */
module WitnessSplitView {
  import opened MerkleTree
  import opened Notes
  import opened WitnessSpec
  import opened WitnessRequests
  import opened WitnessInvariants
  import opened WitnessEvidence
  import opened WitnessRuns
  import opened WitnessLiveness

  // ---------------------------------------------------------------- eviction order

  /** `d` is what is left of `e` after dropping its oldest entries. */
  predicate NewestOf(d: RootDict, e: RootDict) {
    |d| <= |e| && d == e[|e| - |d|..]
  }

  /** Something was dropped at this size. */
  predicate LostAt(q: Pending, p: Pending, s: nat) {
    s in p && (s !in q || q[s] != p[s])
  }

  /** Eviction drops smaller sizes before larger ones and older roots before newer ones. */
  lemma {:induction false} EvictKeepsLargest(p: Pending)
    requires NoEmptyDict(p)
    ensures forall s, t :: LostAt(Evict(p), p, s) && t in Evict(p) ==> s <= t
    ensures forall t :: t in Evict(p) ==> t in p && NewestOf(Evict(p)[t], p[t])
    decreases Count(p), |p|
  {
    hide WithinBudget, Count, Bytes;
    EvictSub(p);
    if !WithinBudget(p) {
      BudgetOfEmpty(p);
      DropOldestShrinks(p);
      var k, d := Smallest(p.Keys), DropOldest(p);
      DropOldestOnlySmallest(p);
      EvictSub(d);
      EvictKeepsLargest(d);
      var q := Evict(p);
      assert q == Evict(d);
      forall s, t | LostAt(q, p, s) && t in q ensures s <= t {
        if s != k {
          assert LostAt(q, d, s);
        }
      }
      forall t | t in q ensures t in p && NewestOf(q[t], p[t]) {
        assert NewestOf(q[t], d[t]);
      }
    }
  }

  lemma DropOldestOnlySmallest(p: Pending)
    requires p != map[] && NoEmptyDict(p)
    ensures var k, d := Smallest(p.Keys), DropOldest(p);
            && NoEmptyDict(d)
            && (forall s :: s != k ==> (s in d <==> s in p) && (s in p ==> d[s] == p[s]))
            && (k in d ==> d[k] == p[k][1..])
  {
  }

  // ---------------------------------------------------------------- refusals are remembered

  lemma AddToRingHas(m: Mem, kind: Kind, c: Ctx)
    ensures InRing(RingOf(AddToRing(m, kind, c).st, c.cp.origin), kind, c)
  {
    var r := RingOf(m.st, c.cp.origin);
    if !InRing(r, kind, c) {
      var longer := r.last + [Refusal(kind, c.cp.size, c.cp.root, c.recorded)];
      var kept := LastN(longer, RING);
      assert kept[|kept| - 1] == longer[|longer| - 1];
      var ring := RingOf(AddToRing(m, kind, c).st, c.cp.origin);
      assert ring.last == kept;
      assert ring.last[|kept| - 1].kind == kind;
    }
  }

  lemma RefusedRemembers(m: Mem, c: Ctx, kind: Kind, prev: Stored, ev: Option<Evidence>)
    ensures InRing(RingOf(Refused(m, c, kind, prev, ev).0.st, c.cp.origin), kind, c)
  {
    hide InRing, AddToRing, Candidates, Partner;
    AddToRingHas(m, kind, c);
  }

  /** After a rollback or an unproven extension the refusal is in the ring on disk, whatever the old size stated. */
  lemma {:induction false} RefusalIsRemembered(disk: Disk, w: Signer, q: Locked)
    requires !BadTimestamp(q, PrevOf(disk.state, q.cp.origin)) && q.cp.origin in disk.state.origins
    ensures var prev := disk.state.origins[q.cp.origin];
            var ring := RingOf(CosignLocked(disk, w, q).disk.state, q.cp.origin);
            && (q.cp.size < prev.size && (q.cp.size == 0 ==> q.cp.root == EmptyRoot) ==>
                 InRing(ring, Rollback, CtxOf(q)))
            && (Decide(q.cp, Some(prev), q.proof, q.oldSize).Unproven? ==> InRing(ring, UnprovenExtension, CtxOf(q)))
  {
    hide Refused, NoteFuture, InRing, ProofAccepted, DoCosign;
    MemoryIsSaved(disk, w, q);
    var prev, m0, c := disk.state.origins[q.cp.origin], Mem(disk.state, false, disk), CtxOf(q);
    RefusedRemembers(m0, c, Rollback, prev, None);
    var (m, ev) := PreGate(m0, c, Some(prev));
    RefusedRemembers(m, c, UnprovenExtension, prev, ev);
  }

  // ---------------------------------------------------------------- split views are caught

  /**
   The evidence file holds a pair of different roots of this origin and size, one of them `root`;
   a full pair holds the log-signed notes of both.
   */
  ghost predicate PairRecorded(evidence: seq<Evidence>, origin: string, size: nat, root: Root, full: bool) {
    exists other, f :: other != root && (full ==> f) && Recorded(PairKey(origin, size, {other, root}, f), evidence)
  }

  /** What a full pair says: a record of kind split-view that proves it with two notes signed by the log. */
  ghost predicate TwoNotes(logs: Logs, e: Evidence, origin: string, size: nat, root: Root, other: Root) {
    && e.kind == SplitView && e.proof && e.origin == origin && e.sizePresented == size && root != other
    && e.before.Some? && e.before.value.text.CheckpointText? && e.presented.text.CheckpointText?
    && {e.before.value.text.cp.root, e.presented.text.cp.root} == {root, other}
    && TrueNote(logs, e.before.value, Checkpoint(origin, size, e.before.value.text.cp.root))
    && TrueNote(logs, e.presented, Checkpoint(origin, size, e.presented.text.cp.root))
  }

  lemma FullPairHasNotes(logs: Logs, evidence: seq<Evidence>, origin: string, size: nat, root: Root)
    requires TrueEvidence(logs, evidence) && PairRecorded(evidence, origin, size, root, true)
    ensures exists e, other :: e in evidence && TwoNotes(logs, e, origin, size, root, other)
  {
    hide TrueNote;
    var other :| other != root && Recorded(PairKey(origin, size, {other, root}, true), evidence);
    var i :| 0 <= i < |evidence| && RecordKey(evidence[i]) == Some(PairKey(origin, size, {other, root}, true));
    assert TrueRecord(logs, evidence[i]);
    assert TwoNotes(logs, evidence[i], origin, size, root, other);
  }

  /** The root is there, and if asked for, with its note wherever it is. */
  ghost predicate Holds(d: RootDict, root: Root, full: bool) {
    Has(d, root) && (full ==> forall x :: x in d && x.root == root ==> x.note.Some?)
  }

  lemma {:induction false} PutHolds(d: RootDict, root: Root, note: Option<Note>, r: Root, full: bool)
    requires Distinct(d) && (r == root || Holds(d, r, full)) && (r == root && full ==> note.Some?)
    ensures Holds(Put(d, root, note), r, full)
  {
    PutHas(d, root, note, r);
    PutDistinct(d, root, note);
    var q := Put(d, root, note);
    if full {
      forall x | x in q && x.root == r ensures x.note.Some? {
        PutIn(d, root, note, x);
        if r == root {
          PutSets(d, root, note, x);
        }
      }
    }
  }

  lemma {:induction false} PutSets(d: RootDict, root: Root, note: Option<Note>, x: Pend)
    requires Distinct(d) && x in Put(d, root, note) && x.root == root
    ensures x == Pend(root, note)
  {
    if d != [] && d[0].root != root {
      PutSets(d[1..], root, note, x);
    }
  }

  lemma {:induction false} PutHas(d: RootDict, root: Root, note: Option<Note>, r: Root)
    requires r == root || Has(d, r)
    ensures Has(Put(d, root, note), r)
  {
    if d == [] || d[0].root == root {
      assert Put(d, root, note)[0].root == root;
      if r != root {
        var i :| 0 <= i < |d| && d[i].root == r;
        assert Put(d, root, note)[i] == d[i];
      }
    } else {
      var rest := Put(d[1..], root, note);
      assert Put(d, root, note) == [d[0]] + rest;
      if d[0].root == r {
        assert Put(d, root, note)[0].root == r;
      } else {
        if r != root {
          var i :| 0 <= i < |d| && d[i].root == r;
          assert d[1..][i - 1].root == r;
        }
        PutHas(d[1..], root, note, r);
        var j :| 0 <= j < |rest| && rest[j].root == r;
        assert Put(d, root, note)[j + 1].root == r;
      }
    }
  }

  lemma {:induction false} UpdateHolds(d: RootDict, other: RootDict, r: Root, full: bool)
    requires Distinct(d) && (full ==> forall x :: x in other && x.root == r ==> x.note.Some?)
    requires Holds(d, r, full) || Has(other, r)
    ensures Holds(Update(d, other), r, full) && Distinct(Update(d, other))
    decreases |other|
  {
    if other != [] {
      var first := other[0];
      hide Holds;
      PutDistinct(d, first.root, first.note);
      if Holds(d, r, full) || first.root == r {
        PutHolds(d, first.root, first.note, r, full);
      } else {
        var i :| 0 <= i < |other| && other[i].root == r;
        assert other[1..][i - 1].root == r;
      }
      UpdateHolds(Put(d, first.root, first.note), other[1..], r, full);
    }
  }

  /** This origin's checkpoint of this size and root is in the lines scanned. */
  ghost predicate CosignedRoot(h: seq<Cosigned>, origin: string, size: nat, root: Root) {
    exists i :: 0 <= i < |h| && h[i].origin == origin && h[i].size == size && h[i].root == root
  }

  lemma {:induction false} CosignedAtHas(h: seq<Cosigned>, origin: string, size: nat, found: RootDict, root: Root)
    requires Has(found, root) || CosignedRoot(h, origin, size, root)
    ensures Has(CosignedAt(h, origin, size, found), root)
    decreases |h|
  {
    if h != [] {
      if !Has(found, root) {
        var i :| 0 <= i < |h| && h[i].origin == origin && h[i].size == size && h[i].root == root;
        assert i > 0 ==> h[1..][i - 1] == h[i];
      }
      if h[0].origin == origin && h[0].size == size && !Has(found, h[0].root) {
        var more := found + [Pend(h[0].root, Some(h[0].note))];
        assert more[|found|].root == h[0].root;
        if Has(found, root) {
          var i :| 0 <= i < |found| && found[i].root == root;
          assert more[i].root == root;
        }
        CosignedAtHas(h[1..], origin, size, more, root);
      } else {
        CosignedAtHas(h[1..], origin, size, found, root);
      }
    }
  }

  lemma {:induction false} RingRootsDistinct(last: seq<Refusal>, c: Ctx, d: RootDict)
    requires Distinct(d)
    ensures Distinct(RingRoots(last, c, d))
    decreases |last|
  {
    hide Distinct;
    if last != [] {
      var r := last[0];
      PutDistinct(d, r.root, None);
      RingRootsDistinct(last[1..], c, d);
      if r.size == c.cp.size && r.root != c.cp.root {
        RingRootsDistinct(last[1..], c, Put(d, r.root, None));
      }
    }
  }

  lemma {:induction false} RingRootsHave(last: seq<Refusal>, c: Ctx, d: RootDict, root: Root)
    requires root != c.cp.root && (Has(d, root) || RefusedBefore(last, c.cp.size, root))
    ensures Has(RingRoots(last, c, d), root)
    decreases |last|
  {
    if last != [] {
      var r := last[0];
      if !Has(d, root) {
        var i :| 0 <= i < |last| && last[i].size == c.cp.size && last[i].root == root;
        assert i > 0 ==> last[1..][i - 1] == last[i];
      }
      if r.size == c.cp.size && r.root != c.cp.root {
        if Has(d, root) || r.root == root {
          PutHas(d, r.root, None, root);
        }
        RingRootsHave(last[1..], c, Put(d, r.root, None), root);
      } else {
        RingRootsHave(last[1..], c, d, root);
      }
    }
  }

  /**
   This root was refused, is pending, or was cosigned in the scanned window, at this size; with its
   note if asked for, which a refusal does not keep.
   */
  ghost predicate Seen(m: Mem, origin: string, size: nat, root: Root, full: bool) {
    || (!full && RefusedBefore(RingOf(m.st, origin).last, size, root))
    || Holds(PendingAt(m.st, origin, size), root, full)
    || CosignedRoot(Window(m.disk.history), origin, size, root)
  }

  /** All three sources of candidates count. */
  lemma {:induction false} CandidatesHold(m: Mem, c: Ctx, root: Root, full: bool)
    requires Seen(m, c.cp.origin, c.cp.size, root, full) && root != c.cp.root && Bounded(m.st)
    ensures Holds(Candidates(m, c), root, full)
  {
    hide RingRoots, Window, CosignedRoot, Update, CosignedAt, Has, RefusedBefore, Bounded;
    var last := RingOf(m.st, c.cp.origin).last;
    var d := RingRoots(last, c, []);
    var pend := PendingAt(m.st, c.cp.origin, c.cp.size);
    var hist := CosignedAt(Window(m.disk.history), c.cp.origin, c.cp.size, []);
    RingRootsDistinct(last, c, []);
    PendingDistinct(m.st, c.cp.origin, c.cp.size);
    HistoryHasNotes(Window(m.disk.history), c.cp.origin, c.cp.size);
    if !full && RefusedBefore(last, c.cp.size, root) {
      RingRootsHave(last, c, [], root);
    }
    UpdateDistinct(d, pend);
    if (!full && Holds(d, root, full)) || Holds(pend, root, full) {
      UpdateHolds(d, pend, root, full);
    } else {
      CosignedAtHas(Window(m.disk.history), c.cp.origin, c.cp.size, [], root);
    }
    UpdateHolds(Update(d, pend), hist, root, full);
  }

  lemma PendingDistinct(st: State, origin: string, size: nat)
    requires Bounded(st)
    ensures Distinct(PendingAt(st, origin, size))
  {
  }

  lemma {:induction false} UpdateDistinct(d: RootDict, other: RootDict)
    requires Distinct(d)
    ensures Distinct(Update(d, other))
    decreases |other|
  {
    if other != [] {
      PutDistinct(d, other[0].root, other[0].note);
      UpdateDistinct(Put(d, other[0].root, other[0].note), other[1..]);
    }
  }

  lemma HistoryHasNotes(h: seq<Cosigned>, origin: string, size: nat)
    ensures forall x :: x in CosignedAt(h, origin, size, []) ==> x.note.Some?
  {
    forall x | x in CosignedAt(h, origin, size, []) ensures x.note.Some? {
      CosignedAtIn(h, origin, size, [], x);
    }
  }

  lemma PairFromKey(evidence: seq<Evidence>, c: Ctx, other: Pend, full: bool)
    requires other.root != c.cp.root && Recorded(KeyOf(c, other), evidence) && (full ==> other.note.Some?)
    ensures PairRecorded(evidence, c.cp.origin, c.cp.size, c.cp.root, full)
  {
  }

  /** No remembered refusal of this origin is dropped. */
  ghost predicate RingKept(before: State, after: State, origin: string) {
    RingOf(before, origin).last <= RingOf(after, origin).last
  }

  lemma {:induction false} RefusedPairs(logs: Logs, m: Mem, c: Ctx, prev: Stored, root: Root, full: bool)
    requires Truthful(logs, m) && TrueCtx(logs, c) && c.cp.size < prev.size && root != c.cp.root && Bounded(m.st)
    requires Seen(m, c.cp.origin, c.cp.size, root, full)
    requires RingKept(m.st, AddToRing(m, Rollback, c).st, c.cp.origin)
    ensures PairRecorded(Refused(m, c, Rollback, prev, None).0.disk.evidence, c.cp.origin, c.cp.size, c.cp.root, full)
  {
    hide WriteProof, Candidates, TrueNote, PendingAt, Window, CosignedRoot, PairRecorded, Recorded, KeyOf, Bounded;
    var m1 := AddToRing(m, Rollback, c);
    AddToRingBounded(m, Rollback, c);
    AddToRingOnlyRing(logs, m, Rollback, c);
    hide AddToRing;
    RefusedLonger(RingOf(m.st, c.cp.origin).last, RingOf(m1.st, c.cp.origin).last, c.cp.size, root);
    CandidatesHold(m1, c, root, full);
    var cands := Candidates(m1, c);
    PartnerHolds(cands, root, c.cp.root, full);
    var x := Partner(cands, c.cp.root).value;
    CandidateIsTrue(logs, m1, c, x);
    WriteProofTruthful(logs, m1, c, x);
    PairFromKey(WriteProof(m1, c, x).disk.evidence, c, x, full);
  }

  lemma AddToRingBounded(m: Mem, kind: Kind, c: Ctx)
    requires Bounded(m.st)
    ensures Bounded(AddToRing(m, kind, c).st)
  {
    hide WithinBudget, NoEmptyDict, DistinctRoots, InRing;
  }

  /** With another root there, there is a partner, and one with a note if that root has one. */
  lemma PartnerHolds(d: RootDict, root: Root, own: Root, full: bool)
    requires Holds(d, root, full) && root != own
    ensures Partner(d, own).Some? && (full ==> Partner(d, own).value.note.Some?)
  {
    var i :| 0 <= i < |d| && d[i].root == root;
    assert d[i] in d;
  }

  lemma RefusedLonger(a: seq<Refusal>, b: seq<Refusal>, size: nat, root: Root)
    requires a <= b
    ensures RefusedBefore(a, size, root) ==> RefusedBefore(b, size, root)
  {
    if RefusedBefore(a, size, root) {
      var i :| 0 <= i < |a| && a[i].size == size && a[i].root == root;
      assert b[i] == a[i];
    }
  }

  /**
   A rollback to a size where a different root was refused, is pending, or was cosigned in the scanned
   window leaves a pair in the evidence file, whatever old size and proof the request states, unless
   remembering this refusal pushes an older one out of the ring.  The pair is full if that root is
   known with its note.
   */
  lemma {:induction false} RollbackConflictIsRecorded(
      logs: Logs, disk: Disk, w: Signer, q: Locked, root: Root, full: bool)
    requires Reachable(logs, disk) && TrueNote(logs, CtxOf(q).presented, q.cp)
    requires !BadTimestamp(q, PrevOf(disk.state, q.cp.origin))
    requires q.cp.origin in disk.state.origins && 0 < q.cp.size < disk.state.origins[q.cp.origin].size
    requires root != q.cp.root && Seen(Mem(disk.state, false, disk), q.cp.origin, q.cp.size, root, full)
    requires RingKept(disk.state, CosignLocked(disk, w, q).disk.state, q.cp.origin)
    ensures PairRecorded(CosignLocked(disk, w, q).disk.evidence, q.cp.origin, q.cp.size, q.cp.root, full)
  {
    hide NoteFuture, ProofAccepted, DoCosign, PairRecorded, Seen, TrueNote, RefusedBefore, Candidates, Partner, InRing;
    var prev := disk.state.origins[q.cp.origin];
    var m := Mem(disk.state, false, disk);
    MemoryIsSaved(disk, w, q);
    RefusedRing(m, CtxOf(q), Rollback, prev, None);
    hide Refused, AddToRing;
    RefusedPairs(logs, m, CtxOf(q), prev, root, full);
  }

  lemma RefusedRing(m: Mem, c: Ctx, kind: Kind, prev: Stored, ev: Option<Evidence>)
    ensures RingOf(Refused(m, c, kind, prev, ev).0.st, c.cp.origin) == RingOf(AddToRing(m, kind, c).st, c.cp.origin)
  {
    hide Candidates, Partner, AddToRing;
  }

  /** A root beyond the stored size that is not cosigned now stays pending, unless the budget evicts. */
  lemma {:induction false} FutureRootStaysPending(disk: Disk, w: Signer, q: Locked, full: bool)
    requires !BadTimestamp(q, PrevOf(disk.state, q.cp.origin)) && Bounded(disk.state)
            && q.cp.size > StoredSize(PrevOf(disk.state, q.cp.origin))
    requires WithinBudget(Remember(PendingOf(disk.state, q.cp.origin), CtxOf(q)))
    requires !CosignLocked(disk, w, q).answer.Cosigned200?
    requires full ==> NoteLength(CtxOf(q).presented) <= 16384
    ensures Holds(PendingAt(CosignLocked(disk, w, q).disk.state, q.cp.origin, q.cp.size), q.cp.root, full)
  {
    hide Refused, ProofAccepted, DoCosign, WithinBudget, Partner, WriteProof, Holds, Put, WorthKeeping, Bounded;
    MemoryIsSaved(disk, w, q);
    LockedAnswer(disk, w, q);
    var m0, c := Mem(disk.state, false, disk), CtxOf(q);
    var prev := PrevOf(disk.state, q.cp.origin);
    var (m, ev) := PreGate(m0, c, prev);
    NoteFutureKeeps(m0, c, full);
    PreGateStage(m0, c, prev);
    if Decide(q.cp, prev, q.proof, q.oldSize).Unproven? {
      RefusedStage(m, c, UnprovenExtension, prev.value, ev);
    }
  }

  lemma NoteFutureKeeps(m: Mem, c: Ctx, full: bool)
    requires WithinBudget(Remember(PendingOf(m.st, c.cp.origin), c)) && Bounded(m.st)
    requires full ==> NoteLength(c.presented) <= 16384
    ensures Holds(PendingAt(NoteFuture(m, c).0.st, c.cp.origin, c.cp.size), c.cp.root, full)
  {
    hide WithinBudget, Partner, WriteProof, Has, NoteOf, Bounded;
    var d := PendingAt(m.st, c.cp.origin, c.cp.size);
    PendingDistinct(m.st, c.cp.origin, c.cp.size);
    if WorthKeeping(d, c) {
      PutHolds(d, c.cp.root, SmallNote(c), c.cp.root, full);
    } else {
      NoteOfHolds(d, c.cp.root, full);
    }
    assert PendingAt(NoteFuture(m, c).0.st, c.cp.origin, c.cp.size)
           == if WorthKeeping(d, c) then Put(d, c.cp.root, SmallNote(c)) else d;
  }

  lemma {:induction false} NoteOfHolds(d: RootDict, root: Root, full: bool)
    requires Distinct(d) && Has(d, root) && (full ==> NoteOf(d, root).Some?)
    ensures Holds(d, root, full)
  {
    if full {
      forall x | x in d && x.root == root ensures x.note.Some? {
        NoteOfIs(d, x);
      }
    }
  }

  lemma {:induction false} NoteOfIs(d: RootDict, x: Pend)
    requires Distinct(d) && x in d
    ensures NoteOf(d, x.root) == x.note
  {
    if d[0] != x {
      NoteOfIs(d[1..], x);
    }
  }

  /**
   A note of at most 16384 bytes is kept with its root: beyond the stored size, if the checkpoint is not
   cosigned and the budget evicts nothing, the root is pending afterwards with a log-signed note of it.
   */
  lemma {:induction false} SmallNoteIsKept(logs: Logs, disk: Disk, w: Signer, q: Locked)
    requires Reachable(logs, disk) && TrueNote(logs, CtxOf(q).presented, q.cp)
    requires !BadTimestamp(q, PrevOf(disk.state, q.cp.origin))
    requires q.cp.size > StoredSize(PrevOf(disk.state, q.cp.origin))
    requires WithinBudget(Remember(PendingOf(disk.state, q.cp.origin), CtxOf(q)))
    requires !CosignLocked(disk, w, q).answer.Cosigned200?
    requires NoteLength(CtxOf(q).presented) <= 16384
    ensures exists x :: x in PendingAt(CosignLocked(disk, w, q).disk.state, q.cp.origin, q.cp.size)
              && x.root == q.cp.root && x.note.Some? && TrueNote(logs, x.note.value, q.cp)
  {
    hide CosignLocked, TrueNote, WithinBudget, Remember, PendingOf, BadTimestamp, CtxOf;
    FutureRootStaysPending(disk, w, q, true);
    LockedKeepsReachable(logs, disk, w, q);
    var st := CosignLocked(disk, w, q).disk.state;
    var d := PendingAt(st, q.cp.origin, q.cp.size);
    PendingIsTrue(logs, st, q.cp.origin, q.cp.size);
    var i :| 0 <= i < |d| && d[i].root == q.cp.root;
    assert d[i] in d;
  }

  lemma PendingIsTrue(logs: Logs, st: State, origin: string, size: nat)
    requires TrueState(logs, st)
    ensures TrueDict(logs, origin, size, PendingAt(st, origin, size))
  {
  }

  /**
   The second of two roots at one size, at or beyond the stored size, with the first one stored or
   pending; the pair is full if the first one is stored or its note was kept.
   */
  lemma {:induction false} SecondRootIsRecorded(logs: Logs, disk: Disk, w: Signer, q: Locked, root: Root, full: bool)
    requires Reachable(logs, disk) && TrueNote(logs, CtxOf(q).presented, q.cp)
    requires !BadTimestamp(q, PrevOf(disk.state, q.cp.origin))
    requires root != q.cp.root && q.cp.size > 0
    requires var prev := PrevOf(disk.state, q.cp.origin);
             || (prev.Some? && prev.value.size == q.cp.size && prev.value.root == root)
             || (q.cp.size > StoredSize(prev) && Holds(PendingAt(disk.state, q.cp.origin, q.cp.size), root, full))
    ensures PairRecorded(CosignLocked(disk, w, q).disk.evidence, q.cp.origin, q.cp.size, q.cp.root, full)
  {
    hide CosignLocked, Reachable, TrueNote, Recorded;
    var prev := PrevOf(disk.state, q.cp.origin);
    if prev.Some? && prev.value.size == q.cp.size {
      EquivocationIsRecorded(logs, disk, w, q);
    } else {
      var d := PendingAt(disk.state, q.cp.origin, q.cp.size);
      var i :| 0 <= i < |d| && d[i].root == root;
      assert d[i] in d;
      FutureConflictIsRecorded(logs, disk, w, q);
    }
  }

  /**
   A split view is caught at once: two log-signed checkpoints of one origin and size with different roots,
   presented one after the other at or beyond the stored size, leave a pair of different roots of
   that size in the evidence file, whatever old sizes and proofs the two requests state.  The one
   condition is that remembering the first does not overflow the pending budget.  If the first note has
   at most 16384 bytes the pair is full.
   */
  lemma {:induction false} SplitViewIsCaught(
      logs: Logs, disk: Disk, w: Signer, q1: Locked, q2: Locked, full: bool)
    requires Reachable(logs, disk) && !BadTimestamp(q1, PrevOf(disk.state, q1.cp.origin))
    requires !BadTimestamp(q2, PrevOf(CosignLocked(disk, w, q1).disk.state, q2.cp.origin))
    requires TrueNote(logs, CtxOf(q1).presented, q1.cp) && TrueNote(logs, CtxOf(q2).presented, q2.cp)
    requires q1.cp.origin == q2.cp.origin && q1.cp.size == q2.cp.size > 0 && q1.cp.root != q2.cp.root
    requires q1.cp.size >= StoredSize(PrevOf(disk.state, q1.cp.origin))
    requires WithinBudget(Remember(PendingOf(disk.state, q1.cp.origin), CtxOf(q1)))
    requires full ==> NoteLength(CtxOf(q1).presented) <= 16384
    ensures var d := CosignLocked(CosignLocked(disk, w, q1).disk, w, q2).disk;
            PairRecorded(d.evidence, q1.cp.origin, q1.cp.size, q1.cp.root, full)
                || PairRecorded(d.evidence, q1.cp.origin, q1.cp.size, q2.cp.root, full)
  {
    hide CosignLocked, Reachable, TrueNote, PairRecorded, WithinBudget, Remember, Holds, Decide, PendingAt;
    var o := q1.cp.origin;
    var prev := PrevOf(disk.state, o);
    var mid := CosignLocked(disk, w, q1).disk;
    LockedKeepsReachable(logs, disk, w, q1);
    LockedMovesHead(disk, w, q1);
    if prev.Some? && prev.value.size == q1.cp.size && prev.value.root != q1.cp.root {
      SecondRootIsRecorded(logs, disk, w, q1, prev.value.root, full);
      MemoryIsSaved(mid, w, q2);
      PairStays(mid.evidence, CosignLocked(mid, w, q2).disk.evidence, o, q1.cp.size, q1.cp.root, full);
    } else {
      if !CosignLocked(disk, w, q1).answer.Cosigned200? && q1.cp.size > StoredSize(prev) {
        ReachableParts(logs, disk, o);
        FutureRootStaysPending(disk, w, q1, full);
      }
      SecondRootIsRecorded(logs, mid, w, q2, q1.cp.root, full);
    }
  }

  /** With a first note of at most 16384 bytes, the record proves the split view with both notes. */
  lemma {:induction false} SplitViewIsProved(logs: Logs, disk: Disk, w: Signer, q1: Locked, q2: Locked)
    requires Reachable(logs, disk) && !BadTimestamp(q1, PrevOf(disk.state, q1.cp.origin))
    requires !BadTimestamp(q2, PrevOf(CosignLocked(disk, w, q1).disk.state, q2.cp.origin))
    requires TrueNote(logs, CtxOf(q1).presented, q1.cp) && TrueNote(logs, CtxOf(q2).presented, q2.cp)
    requires q1.cp.origin == q2.cp.origin && q1.cp.size == q2.cp.size > 0 && q1.cp.root != q2.cp.root
    requires q1.cp.size >= StoredSize(PrevOf(disk.state, q1.cp.origin))
    requires WithinBudget(Remember(PendingOf(disk.state, q1.cp.origin), CtxOf(q1)))
    requires NoteLength(CtxOf(q1).presented) <= 16384
    ensures var d := CosignLocked(CosignLocked(disk, w, q1).disk, w, q2).disk;
            exists e, root, other :: e in d.evidence && TwoNotes(logs, e, q1.cp.origin, q1.cp.size, root, other)
                && root in {q1.cp.root, q2.cp.root}
  {
    hide *;
    SplitViewIsCaught(logs, disk, w, q1, q2, true);
    LockedKeepsReachable(logs, disk, w, q1);
    var mid := CosignLocked(disk, w, q1).disk;
    LockedKeepsReachable(logs, mid, w, q2);
    var d := CosignLocked(mid, w, q2).disk;
    ReachableEvidence(logs, d);
    var root := if PairRecorded(d.evidence, q1.cp.origin, q1.cp.size, q1.cp.root, true) then q1.cp.root else q2.cp.root;
    FullPairHasNotes(logs, d.evidence, q1.cp.origin, q1.cp.size, root);
  }

  lemma ReachableEvidence(logs: Logs, disk: Disk)
    requires Reachable(logs, disk)
    ensures TrueEvidence(logs, disk.evidence)
  {
  }

  lemma PairStays(before: seq<Evidence>, after: seq<Evidence>, origin: string, size: nat, root: Root, full: bool)
    requires before <= after && PairRecorded(before, origin, size, root, full)
    ensures PairRecorded(after, origin, size, root, full)
  {
    var other, f :| other != root && (full ==> f) && Recorded(PairKey(origin, size, {other, root}, f), before);
    RecordedStays(PairKey(origin, size, {other, root}, f), before, after);
  }
}
