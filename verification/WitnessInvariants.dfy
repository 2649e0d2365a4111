/** What every request keeps: bounded memory, nothing lost, truthful evidence. */
module WitnessInvariants {
  import opened MerkleTree
  import opened Notes
  import opened WitnessSpec

  // ---------------------------------------------------------------- where dictionary entries come from

  lemma {:induction false} PutIn(d: RootDict, root: Root, note: Option<Note>, x: Pend)
    requires x in Put(d, root, note)
    ensures x in d || x == Pend(root, note)
  {
    if d != [] && d[0].root != root && x != d[0] {
      PutIn(d[1..], root, note, x);
    }
  }

  lemma {:induction false} UpdateIn(d: RootDict, other: RootDict, x: Pend)
    requires x in Update(d, other)
    ensures x in d || x in other
    decreases |other|
  {
    if other != [] {
      UpdateIn(Put(d, other[0].root, other[0].note), other[1..], x);
      if x in Put(d, other[0].root, other[0].note) {
        PutIn(d, other[0].root, other[0].note, x);
      }
    }
  }

  ghost predicate RefusedBefore(last: seq<Refusal>, size: nat, root: Root) {
    exists i :: 0 <= i < |last| && last[i].size == size && last[i].root == root
  }

  lemma {:induction false} RingRootsIn(last: seq<Refusal>, c: Ctx, d: RootDict, x: Pend)
    requires x in RingRoots(last, c, d)
    ensures x in d || (x.note.None? && RefusedBefore(last, c.cp.size, x.root))
    decreases |last|
  {
    if last != [] {
      var r := last[0];
      if r.size == c.cp.size && r.root != c.cp.root {
        RingRootsIn(last[1..], c, Put(d, r.root, None), x);
        if x in Put(d, r.root, None) {
          PutIn(d, r.root, None, x);
          assert last[0].root == r.root;
        }
      } else {
        RingRootsIn(last[1..], c, d, x);
      }
      if RefusedBefore(last[1..], c.cp.size, x.root) {
        var i :| 0 <= i < |last[1..]| && last[1..][i].size == c.cp.size && last[1..][i].root == x.root;
        assert last[i + 1].root == x.root;
      }
    }
  }

  ghost predicate CosignedBefore(h: seq<Cosigned>, origin: string, size: nat, x: Pend) {
    exists i :: 0 <= i < |h| && h[i].origin == origin && h[i].size == size && x == Pend(h[i].root, Some(h[i].note))
  }

  lemma CosignedBeforeTail(h: seq<Cosigned>, origin: string, size: nat, x: Pend)
    requires h != [] && CosignedBefore(h[1..], origin, size, x)
    ensures CosignedBefore(h, origin, size, x)
  {
    var t := h[1..];
    var i :| 0 <= i < |t| && t[i].origin == origin && t[i].size == size && x == Pend(t[i].root, Some(t[i].note));
    assert h[i + 1] == t[i];
  }

  lemma {:induction false} CosignedAtIn(h: seq<Cosigned>, origin: string, size: nat, found: RootDict, x: Pend)
    requires x in CosignedAt(h, origin, size, found)
    ensures x in found || CosignedBefore(h, origin, size, x)
    decreases |h|
  {
    if h != [] {
      var more := Pend(h[0].root, Some(h[0].note));
      if h[0].origin == origin && h[0].size == size && !Has(found, h[0].root) {
        CosignedAtIn(h[1..], origin, size, found + [more], x);
      } else {
        CosignedAtIn(h[1..], origin, size, found, x);
      }
      if CosignedBefore(h[1..], origin, size, x) {
        CosignedBeforeTail(h, origin, size, x);
      }
    }
  }

  lemma {:induction false} WindowIn(h: seq<Cosigned>, origin: string, size: nat, x: Pend)
    requires CosignedBefore(Window(h), origin, size, x)
    ensures CosignedBefore(h, origin, size, x)
    decreases |h|
  {
    if HistoryBytes(h) > HISTORY_SCAN {
      WindowIn(h[1..], origin, size, x);
      CosignedBeforeTail(h, origin, size, x);
    }
  }

  /** A candidate of a rollback was refused, is pending, or was cosigned, at that size. */
  lemma {:induction false} CandidatesFrom(m: Mem, c: Ctx, x: Pend)
    requires x in Candidates(m, c)
    ensures || (x.note.None? && RefusedBefore(RingOf(m.st, c.cp.origin).last, c.cp.size, x.root))
            || x in PendingAt(m.st, c.cp.origin, c.cp.size)
            || CosignedBefore(m.disk.history, c.cp.origin, c.cp.size, x)
  {
    var ring := RingOf(m.st, c.cp.origin).last;
    var d := RingRoots(ring, c, []);
    var pend := PendingAt(m.st, c.cp.origin, c.cp.size);
    var d1 := Update(d, pend);
    var hist := CosignedAt(Window(m.disk.history), c.cp.origin, c.cp.size, []);
    UpdateIn(d1, hist, x);
    if x in hist {
      CosignedAtIn(Window(m.disk.history), c.cp.origin, c.cp.size, [], x);
      WindowIn(m.disk.history, c.cp.origin, c.cp.size, x);
    } else {
      UpdateIn(d, pend, x);
      if x in d {
        RingRootsIn(ring, c, [], x);
      }
    }
  }

  /** Eviction only removes. */
  ghost predicate SubPending(q: Pending, p: Pending) {
    forall s :: s in q ==> s in p && q[s] != [] && forall x :: x in q[s] ==> x in p[s]
  }

  lemma {:induction false} EvictSub(p: Pending)
    requires forall s :: s in p ==> p[s] != []
    ensures SubPending(Evict(p), p)
    decreases Count(p), |p|
  {
    if !WithinBudget(p) {
      DropOldestShrinks(p);
      var q := DropOldest(p);
      assert SubPending(q, p);
      EvictSub(q);
    }
  }

  // ---------------------------------------------------------------- nothing is lost, nothing is written twice

  /** An unwritten change is marked. */
  ghost predicate Synced(m: Mem) {
    m.dirty || m.st == m.disk.state
  }

  lemma NoteFutureSynced(m: Mem, c: Ctx)
    requires Synced(m)
    ensures Synced(NoteFuture(m, c).0)
  {
    var o := c.cp.origin;
    var p := PendingOf(m.st, o);
    var d := PendingAt(m.st, o, c.cp.size);
    if !WorthKeeping(d, c) && WithinBudget(Remember(p, c)) {
      assert Has(d, c.cp.root);
      assert o in m.st.pending && c.cp.size in p;
      assert Remember(p, c) == p;
      assert m.st.pending[o := p] == m.st.pending;
    }
  }

  /** The records added are about the checkpoint and the note presented, at the time of the request. */
  ghost predicate NewRecordsName(c: Ctx, before: seq<Evidence>, after: seq<Evidence>) {
    forall i :: |before| <= i < |after| ==>
      && after[i].origin == c.cp.origin && after[i].sizePresented == c.cp.size
      && after[i].presented == c.presented && after[i].recorded == c.recorded
  }

  /** How one stage of a request moves the files: at most one save and one record, both only forward. */
  ghost predicate Stage(c: Ctx, m: Mem, r: Mem) {
    && Synced(r)
    && r.st.origins == m.st.origins
    && r.st.pending - {c.cp.origin} == m.st.pending - {c.cp.origin}
    && m.disk.saves <= r.disk.saves <= m.disk.saves + 1
    && (r.disk.saves == m.disk.saves ==> r.disk.state == m.disk.state)
    && m.disk.evidence <= r.disk.evidence && |r.disk.evidence| <= |m.disk.evidence| + 1
    && NewRecordsName(c, m.disk.evidence, r.disk.evidence)
    && r.disk.history == m.disk.history
  }

  lemma WriteProofStage(m: Mem, c: Ctx, other: Pend)
    requires Synced(m)
    ensures var r := WriteProof(m, c, other);
            Stage(c, m, r) && r.disk.saves == m.disk.saves && r.st.pending == m.st.pending
  {
  }

  lemma RefusedStage(m: Mem, c: Ctx, kind: Kind, prev: Stored, ev: Option<Evidence>)
    requires Synced(m)
    ensures var r := Refused(m, c, kind, prev, ev).0;
            Stage(c, m, r) && !r.dirty && r.st.pending == m.st.pending
                && (c.cp.size >= prev.size ==> r.disk.evidence == m.disk.evidence)
  {
    hide WriteProof, Candidates, Partner;
    var m1 := AddToRing(m, kind, c);
    assert Synced(m1);
    var partner := if c.cp.size < prev.size then Partner(Candidates(m1, c), c.cp.root) else None;
    if partner.Some? {
      WriteProofStage(m1, c, partner.value);
    }
  }

  lemma NoteFutureStage(m: Mem, c: Ctx)
    requires Synced(m)
    ensures var (r, ev) := NoteFuture(m, c);
            Stage(c, m, r) && r.disk.saves == m.disk.saves && (ev.None? ==> r.disk == m.disk)
  {
    NoteFutureSynced(m, c);
    hide Partner, Evict, Remember, WorthKeeping, WithinBudget, WriteProof, Synced, NewRecordsName;
    var o := c.cp.origin;
    var partner := Partner(PendingAt(m.st, o, c.cp.size), c.cp.root);
    UpdatedElsewhere(m.st.pending, o, Evict(Remember(PendingOf(m.st, o), c)));
    if partner.Some? {
      WriteProofStage(m, c, partner.value);
    } else {
      NoNewRecords(c, m.disk.evidence);
    }
  }

  lemma UpdatedElsewhere(p: map<string, Pending>, o: string, x: Pending)
    ensures p[o := x] - {o} == p - {o}
  {
  }

  lemma NoNewRecords(c: Ctx, evidence: seq<Evidence>)
    ensures NewRecordsName(c, evidence, evidence)
  {
  }

  /** Before the gate, a save happens only for a rollback or an equivocation, which are never cosigned. */
  lemma PreGateStage(m: Mem, c: Ctx, prev: Option<Stored>)
    requires Synced(m)
    ensures var (r, ev) := PreGate(m, c, prev);
            && Stage(c, m, r)
            && (r.disk.evidence != m.disk.evidence ==> ev.Some?)
            && (r.disk.saves != m.disk.saves ==>
                  !r.dirty && prev.Some? && c.cp.size <= prev.value.size
                      && (c.cp.size == prev.value.size ==> c.cp.root != prev.value.root)
                  && (c.cp.size == 0 ==> c.cp.root == EmptyRoot))
  {
    if c.cp.size == 0 && c.cp.root != EmptyRoot {
    } else if prev.Some? && c.cp.size < prev.value.size {
      RefusedStage(m, c, Rollback, prev.value, None);
    } else if prev.Some? && c.cp.size == prev.value.size && c.cp.root != prev.value.root {
      WriteProofStage(m, c, Pend(prev.value.root, Some(prev.value.note)));
    } else if c.cp.size > StoredSize(prev) {
      NoteFutureStage(m, c);
    }
  }

  lemma DoCosignStage(m: Mem, w: Signer, q: Locked, prev: Option<Stored>, ev: Option<Evidence>)
    requires Synced(m) && 1 <= CtxOf(q).recorded
    ensures var r := DoCosign(m, w, q, prev, ev).0;
            && r.st == r.disk.state && r.disk.saves == m.disk.saves + 1
            && m.disk.history <= r.disk.history
            && m.disk.evidence <= r.disk.evidence && |r.disk.evidence| <= |m.disk.evidence| + 1
            && NewRecordsName(CtxOf(q), m.disk.evidence, r.disk.evidence)
            && (ev.Some? ==> r.disk.evidence == m.disk.evidence)
  {
    var c := CtxOf(q);
    var m1 := PairAtCosign(m, c, ev);
    if m1 != m {
      WriteProofStage(m, c, FirstOther(PendingAt(m.st, c.cp.origin, c.cp.size), c.cp.root).value);
    }
  }

  /**
   On every return path the saved state is the state in memory; the state file is rewritten at
   most once and only when the state changed hands; at most one pair is recorded, with the note
   presented and the time of the request, and both log files only grow.
   */
  lemma {:induction false} MemoryIsSaved(disk: Disk, w: Signer, q: Locked)
    ensures var r := CosignLocked(disk, w, q);
            && r.memory == r.disk.state
            && disk.saves <= r.disk.saves <= disk.saves + 1
            && (r.disk.saves == disk.saves ==> r.disk.state == disk.state)
            && disk.evidence <= r.disk.evidence && |r.disk.evidence| <= |disk.evidence| + 1
            && NewRecordsName(CtxOf(q), disk.evidence, r.disk.evidence)
            && disk.history <= r.disk.history
  {
    hide PreGate, Refused, DoCosign;
    var prev := PrevOf(disk.state, q.cp.origin);
    if !BadTimestamp(q, prev) {
      var m0 := Mem(disk.state, false, disk);
      var c := CtxOf(q);
      var (m, ev) := PreGate(m0, c, prev);
      PreGateStage(m0, c, prev);
      var d := Decide(q.cp, prev, q.proof, q.oldSize);
      if d.Cosign? {
        DoCosignStage(m, w, q, prev, ev);
      } else if d.Unproven? {
        RefusedStage(m, c, UnprovenExtension, prev.value, ev);
      }
    }
  }

  // ---------------------------------------------------------------- bounded memory

  ghost predicate Bounded(st: State) {
    && (forall o :: o in st.pending ==>
          WithinBudget(st.pending[o]) && NoEmptyDict(st.pending[o]) && DistinctRoots(st.pending[o]))
    && (forall o :: o in st.refusals ==> |st.refusals[o].last| <= RING)
    && |st.proofsSeen| <= PROOFS_SEEN
  }

  ghost predicate NoEmptyDict(p: Pending) {
    forall s :: s in p ==> p[s] != []
  }

  ghost predicate Distinct(d: RootDict) {
    forall i, j :: 0 <= i < j < |d| ==> d[i].root != d[j].root
  }

  /** Each root is pending once at a size. */
  ghost predicate DistinctRoots(p: Pending) {
    forall s :: s in p ==> Distinct(p[s])
  }

  lemma {:induction false} PutDistinct(d: RootDict, root: Root, note: Option<Note>)
    requires Distinct(d)
    ensures Distinct(Put(d, root, note))
  {
    if d != [] && d[0].root != root {
      var rest := Put(d[1..], root, note);
      PutDistinct(d[1..], root, note);
      forall x | x in rest ensures x.root != d[0].root {
        PutIn(d[1..], root, note, x);
      }
    }
  }

  lemma {:induction false} EvictDistinct(p: Pending)
    requires DistinctRoots(p)
    ensures DistinctRoots(Evict(p))
    decreases Count(p), |p|
  {
    hide WithinBudget, Count, Bytes;
    if Evict(p) != p {
      BudgetOfEmpty(p);
      DropOldestShrinks(p);
      EvictDistinct(DropOldest(p));
    }
  }

  lemma BudgetOfEmpty(p: Pending)
    requires Evict(p) != p || !WithinBudget(p)
    ensures p != map[] && Evict(p) == Evict(DropOldest(p))
  {
  }

  lemma RememberDistinct(p: Pending, c: Ctx)
    requires DistinctRoots(p)
    ensures DistinctRoots(Remember(p, c)) && DistinctRoots(Evict(Remember(p, c)))
  {
    hide WorthKeeping;
    var d := if c.cp.size in p then p[c.cp.size] else [];
    PutDistinct(d, c.cp.root, SmallNote(c));
    EvictDistinct(Remember(p, c));
  }

  lemma {:induction false} RemoveShrinks(p: Pending, k: nat)
    ensures Count(p - {k}) <= Count(p) && Bytes(p - {k}) <= Bytes(p)
    decreases |p|
  {
    if k !in p {
      assert p - {k} == p;
    } else if k != Smallest(p.Keys) {
      var q := p - {k};
      assert Smallest(p.Keys) in q;
      assert IsLeast(Smallest(p.Keys), q.Keys);
      assert Rest(q) == Rest(p) - {k};
      RemoveShrinks(Rest(p), k);
    }
  }

  lemma RememberNoEmptyDict(p: Pending, c: Ctx)
    requires NoEmptyDict(p)
    ensures NoEmptyDict(Remember(p, c)) && NoEmptyDict(Evict(Remember(p, c)))
  {
    EvictSub(Remember(p, c));
  }

  lemma NoteFutureBounded(m: Mem, c: Ctx)
    requires Bounded(m.st)
    ensures Bounded(NoteFuture(m, c).0.st)
  {
    hide Remember, Evict, WithinBudget, Partner, WorthKeeping, Distinct;
    RememberNoEmptyDict(PendingOf(m.st, c.cp.origin), c);
    RememberDistinct(PendingOf(m.st, c.cp.origin), c);
  }

  lemma WriteProofBounded(m: Mem, c: Ctx, other: Pend)
    requires Bounded(m.st)
    ensures Bounded(WriteProof(m, c, other).st)
  {
  }

  lemma RefusedBounded(m: Mem, c: Ctx, kind: Kind, prev: Stored, ev: Option<Evidence>)
    requires Bounded(m.st)
    ensures Bounded(Refused(m, c, kind, prev, ev).0.st)
  {
    hide WriteProof, WithinBudget, NoEmptyDict, DistinctRoots, Candidates, Partner;
    var m1 := AddToRing(m, kind, c);
    assert Bounded(m1.st);
    var partner := if c.cp.size < prev.size then Partner(Candidates(m1, c), c.cp.root) else None;
    if partner.Some? {
      WriteProofBounded(m1, c, partner.value);
    }
  }

  lemma PreGateBounded(m: Mem, c: Ctx, prev: Option<Stored>)
    requires Bounded(m.st)
    ensures Bounded(PreGate(m, c, prev).0.st)
  {
    if prev.Some? {
      RefusedBounded(m, c, Rollback, prev.value, None);
      WriteProofBounded(m, c, Pend(prev.value.root, Some(prev.value.note)));
    }
    NoteFutureBounded(m, c);
  }

  lemma DropPendingBounded(st: State, origin: string, size: nat)
    requires Bounded(st)
    ensures Bounded(DropPendingAt(st, origin, size))
  {
    hide Count, Bytes, Distinct;
    RemoveShrinks(PendingOf(st, origin), size);
  }

  lemma DoCosignBounded(m: Mem, w: Signer, q: Locked, prev: Option<Stored>, ev: Option<Evidence>)
    requires Bounded(m.st) && 1 <= CtxOf(q).recorded
    ensures Bounded(DoCosign(m, w, q, prev, ev).0.st)
  {
    hide WriteProof, OwnLines, WithinBudget, DropPendingAt, NoEmptyDict, DistinctRoots, FirstOther;
    var c := CtxOf(q);
    var m1 := PairAtCosign(m, c, ev);
    if m1 != m {
      WriteProofBounded(m, c, FirstOther(PendingAt(m.st, c.cp.origin, c.cp.size), c.cp.root).value);
    }
    assert Bounded(m1.st);
    DropPendingBounded(m1.st, q.cp.origin, q.cp.size);
  }

  /** Memory stays bounded on every exit of every request. */
  lemma {:induction false} RequestKeepsBounds(disk: Disk, w: Signer, q: Locked)
    requires Bounded(disk.state)
    ensures Bounded(CosignLocked(disk, w, q).disk.state)
  {
    hide PreGate, Refused, DoCosign, Decide, Bounded;
    MemoryIsSaved(disk, w, q);
    var prev := PrevOf(disk.state, q.cp.origin);
    if !BadTimestamp(q, prev) {
      var m0 := Mem(disk.state, false, disk);
      var c := CtxOf(q);
      var (m, ev) := PreGate(m0, c, prev);
      PreGateBounded(m0, c, prev);
      var d := Decide(q.cp, prev, q.proof, q.oldSize);
      if d.Cosign? {
        DoCosignBounded(m, w, q, prev, ev);
      } else if d.Unproven? {
        RefusedBounded(m, c, UnprovenExtension, prev.value, ev);
      }
    }
  }
}
