/** What a witness answers and how much it remembers, in the numbers of the protocol. */
module WitnessAnswers {
  import opened MerkleTree
  import opened Notes
  import opened WitnessSpec
  import opened WitnessRequests
  import opened WitnessInvariants
  import opened WitnessRuns
  import opened WitnessLiveness
  import opened WitnessSplitView

  // ---------------------------------------------------------------- answers

  /**
   A stated timestamp is refused exactly when it is not between 1 and 2^63 - 1 or is older than the
   last cosignature for this origin; the request then changes nothing.
   */
  lemma TimestampRefusedExactly(disk: Disk, w: Signer, q: Locked)
    ensures var r, o := CosignLocked(disk, w, q), disk.state.origins;
            && (r.answer.Error? <==>
                 && q.timestamp.Some?
                 && (|| q.timestamp.value < 1 || q.timestamp.value > 9223372036854775807
                     || (q.cp.origin in o && q.timestamp.value < o[q.cp.origin].cosignedAt)))
            && (r.answer.Error? ==> r.disk == disk && r.memory == disk.state)
  {
    hide PreGate, Refused, Decide, DoCosign;
    var prev := PrevOf(disk.state, q.cp.origin);
    if !BadTimestamp(q, prev) {
      LockedAnswer(disk, w, q);
    }
  }

  /** A cosignature states the given time, or the clock's, and so do the stored checkpoint and the history line. */
  lemma {:induction false} CosignedAtTheTime(disk: Disk, w: Signer, q: Locked)
    requires CosignLocked(disk, w, q).answer.Cosigned200?
    ensures var r, o := CosignLocked(disk, w, q), q.cp.origin;
            var time: nat := if q.timestamp.Some? then q.timestamp.value else q.clock;
            && r.answer.lines != [] && r.answer.lines[0].kid == w.kid && r.answer.lines[0].name == w.name
            && r.answer.lines[0].sig == Cosig(time, w.pub, CheckpointText(q.cp, q.extensions))
            && (w.pq.Some? <==> |r.answer.lines| == 2)
            && (w.pq.Some? ==>
                 && r.answer.lines[1].kid == w.pq.value.0 && r.answer.lines[1].name == w.name
                 && r.answer.lines[1].sig == PqCosig(time, w.pq.value.1, w.name, q.cp))
            && o in r.disk.state.origins && r.disk.state.origins[o].cosignedAt == time
            && r.disk.state.origins[o].note == Note(CheckpointText(q.cp, q.extensions), q.trustedLines + r.answer.lines)
            && (r.disk.history != disk.history ==>
                 && |r.disk.history| == |disk.history| + 1
                 && r.disk.history[|disk.history|] ==
                    Cosigned(o, q.cp.size, q.cp.root, r.disk.state.origins[o].note, time, q.lineBytes))
  {
    hide PreGate, Refused, Decide, PairAtCosign, DropPendingAt;
    var prev, m0, c := PrevOf(disk.state, q.cp.origin), Mem(disk.state, false, disk), CtxOf(q);
    var (m, ev) := PreGate(m0, c, prev);
    PreGateStage(m0, c, prev);
    HistoryAtCosign(m, c, ev);
    LockedAnswer(disk, w, q);
  }

  lemma HistoryAtCosign(m: Mem, c: Ctx, ev: Option<Evidence>)
    ensures PairAtCosign(m, c, ev).disk.history == m.disk.history
  {
  }

  /** The status of every answer past the first checks, by what the request states and what is stored. */
  lemma {:induction false} AnswerTable(disk: Disk, w: Signer, q: Locked)
    requires !CosignLocked(disk, w, q).answer.Error?
    ensures var a, o := CosignLocked(disk, w, q).answer, disk.state.origins;
            var known := q.cp.origin in o;
            var size: nat := if known then o[q.cp.origin].size else 0;
            var root := if known then o[q.cp.origin].root else EmptyRoot;
            if q.oldSize.Some? && !(0 <= q.oldSize.value <= q.cp.size) then a.Declined? && a.status == 400
            else if q.oldSize.Some? && q.oldSize.value != size then
              a.Declined? && a.status == 409 && a.storedSize == size
            else if q.cp.size == 0 && q.cp.root != EmptyRoot then a.Declined? && a.status == 422
            else if q.cp.size < size then a.Declined? && a.status == 400
            else if known && q.cp.size == size && q.cp.root != root then a.Declined? && a.status == 422
            else if size == 0 || q.cp.size == size then
              if q.proof == [] then a.Cosigned200? else a.Declined? && a.status == 422
            else if ProofAccepted(size, root, q.cp.size, q.cp.root, q.proof) then a.Cosigned200?
            else a.Declined? && a.status == 422
  {
    hide ProofAccepted, CosignLocked;
    TimestampRefusedExactly(disk, w, q);
    LockedAnswer(disk, w, q);
  }

  /**
   A refusal that involves two log-signed checkpoints gives both back: the stored note, or that of a recorded
   pair, with the note presented.
   */
  lemma {:induction false} RefusalGivesBoth(disk: Disk, w: Signer, q: Locked)
    requires !BadTimestamp(q, PrevOf(disk.state, q.cp.origin)) && q.cp.origin in disk.state.origins
    requires var prev := disk.state.origins[q.cp.origin];
             && q.cp.size > 0
             && (|| q.cp.size < prev.size || (q.cp.size == prev.size && q.cp.root != prev.root)
                 || Decide(q.cp, Some(prev), q.proof, q.oldSize).Unproven?)
    ensures var a, prev := CosignLocked(disk, w, q).answer, disk.state.origins[q.cp.origin];
            && a.Declined? && a.evidence.Some?
            && var e := a.evidence.value;
               && e.origin == q.cp.origin && e.sizePresented == q.cp.size && e.presented == CtxOf(q).presented
               && e.recorded == CtxOf(q).recorded
               && (e.kind in {Rollback, UnprovenExtension} ==>
                    !e.proof && e.sizeBefore == prev.size && e.before == Some(prev.note))
               && (e.kind == Rollback ==> q.cp.size < prev.size)
               && (e.kind == UnprovenExtension ==> q.cp.size > prev.size)
               && (e.kind == SplitView ==> e.proof && e.sizeBefore == q.cp.size && e.before.Some?)
               && (e.kind == SplitViewUnkept ==> !e.proof && e.before.None? && e.beforeRoot.Some?)
  {
    hide Candidates, Partner, ProofAccepted, DoCosign, WriteProof, AddToRing, Remember, Evict, WorthKeeping;
    LockedAnswer(disk, w, q);
  }

  /** The checks before the lock pass exactly these requests, for log keys that are all of a log's types. */
  lemma FrontGoExactly(w: Signer, keys: seq<VKey>, origin: string, r: Request)
    ensures Front(w, keys, origin, r).Go? <==>
            && keys != [] && (forall k :: k in keys ==> IsLogType(k.typ))
            && VerifyNoteSpec(r.note, keys).Valid?
            && r.note.text.CheckpointText? && r.note.text.cp.origin == origin
            && |r.proof| <= 63 && (w.pq.Some? ==> Utf8Length(origin) <= 255)
            && |KeptLines(r.note.sigs, w)| + (if w.pq.Some? then 2 else 1) <= 100
    ensures VerifyNoteSpec(r.note, keys).NotValid? && keys != [] && (forall k :: k in keys ==> IsLogType(k.typ)) ==>
              Front(w, keys, origin, r) == Stop(403)
    ensures Front(w, keys, origin, r).Stop? ==> Front(w, keys, origin, r).status in {400, 403}
  {
    hide VerifyLines, Ambiguous, KeptLines, IsLogType;
    assert (forall k :: k in keys ==> IsLogType(k.typ)) <==> !(exists i :: 0 <= i < |keys| && !IsLogType(keys[i].typ));
  }

  /** The trusted lines of a note are those of its lines whose name and key id a trusted key has, each once. */
  lemma {:induction false} TrustedLinesExactly(sigs: seq<SigLine>, keys: seq<VKey>, taken: seq<SigLine>)
    requires forall i, j :: 0 <= i < j < |taken| ==> taken[i] != taken[j]
    ensures var t := TrustedLines(sigs, keys, taken);
            && taken <= t
            && (forall i, j :: 0 <= i < j < |t| ==> t[i] != t[j])
            && (forall x :: x in t <==>
                  x in taken || (x in sigs && exists k :: k in keys && k.name == x.name && k.kid == x.kid))
    decreases |sigs|
  {
    if sigs != [] {
      var taken' := if Trusted(keys, sigs[0]) && sigs[0] !in taken then taken + [sigs[0]] else taken;
      TrustedLinesExactly(sigs[1..], keys, taken');
      assert Trusted(keys, sigs[0]) <==> exists k :: k in keys && k.name == sigs[0].name && k.kid == sigs[0].kid;
      assert forall x :: x in sigs <==> x == sigs[0] || x in sigs[1..];
    }
  }

  // ---------------------------------------------------------------- memory

  /** The pending roots of an origin number at most 100, in notes of at most 262144 bytes together. */
  lemma {:induction false} MemoryInNumbers(w: Signer, logs: Logs, reqs: seq<Request>, o: string)
    ensures var st := DiskAfter(w, logs, reqs).state;
            && Count(PendingOf(st, o)) <= 100 && Bytes(PendingOf(st, o)) <= 262144
            && |RingOf(st, o).last| <= 100 && |st.proofsSeen| <= 10000
  {
    RunIsReachable(w, logs, reqs);
    EmptyCounts();
    hide Count, Bytes, DiskAfter;
  }

  lemma EmptyCounts()
    ensures Count(map[]) == 0 && Bytes(map[]) == 0
  {
  }

  /** Nothing is evicted while those numbers are kept. */
  lemma EvictsOnlyOverBudget(p: Pending)
    ensures Count(p) <= 100 && Bytes(p) <= 262144 ==> Evict(p) == p
  {
    hide Count, Bytes;
  }

  /**
   Eviction drops one root at a time and no more than it must: with the last one put back the budget is still
   exceeded.
   */
  lemma {:induction false} EvictsNoMoreThanNeeded(p: Pending) returns (r: Pending)
    requires NoEmptyDict(p) && !(Count(p) <= 100 && Bytes(p) <= 262144)
    ensures !(Count(r) <= 100 && Bytes(r) <= 262144) && Count(r) == Count(Evict(p)) + 1
    ensures forall s :: s in Evict(p) ==> s in r && NewestOf(Evict(p)[s], r[s])
    ensures forall s :: s in r ==> s in p && NewestOf(r[s], p[s])
    decreases Count(p), |p|
  {
    hide Count, Bytes, Evict;
    var d := DropsOne(p);
    if Count(d) <= 100 && Bytes(d) <= 262144 {
      EvictsOnlyOverBudget(d);
      r := p;
    } else {
      r := EvictsNoMoreThanNeeded(d);
      forall s | s in r ensures s in p && NewestOf(r[s], p[s]) {
        NewestOfNewest(r[s], d[s], p[s]);
      }
    }
  }

  lemma NewestOfNewest(a: RootDict, b: RootDict, c: RootDict)
    requires NewestOf(a, b) && NewestOf(b, c)
    ensures NewestOf(a, c)
  {
  }

  /** One turn of the eviction loop. */
  lemma DropsOne(p: Pending) returns (d: Pending)
    requires NoEmptyDict(p) && !(Count(p) <= 100 && Bytes(p) <= 262144)
    ensures Evict(p) == Evict(d) && NoEmptyDict(d) && Count(d) == Count(p) - 1
    ensures forall s :: s in d ==> s in p && NewestOf(d[s], p[s])
  {
    BudgetOfEmpty(p);
    hide Count, Bytes, Evict, Smallest, DropOldest;
    d := DropOldest(p);
    DropOldestOnlySmallest(p);
    OneRootLess(p);
    forall s | s in d ensures s in p && NewestOf(d[s], p[s]) {
    }
  }

  lemma OneRootLess(p: Pending)
    requires p != map[] && NoEmptyDict(p)
    ensures Count(DropOldest(p)) == Count(p) - 1
  {
    hide Count, Bytes;
    var k, d := Smallest(p.Keys), DropOldest(p);
    CountsAreSums(p, k);
    if |p[k]| > 1 {
      CountsAreSums(d, k);
      assert d - {k} == p - {k};
    }
  }

  /** The counts are sums over the sizes, whichever is taken out. */
  lemma {:induction false} CountsAreSums(p: Pending, k: nat)
    requires k in p
    ensures Count(p) == |p[k]| + Count(p - {k})
    ensures Bytes(p) == DictBytes(p[k]) + Bytes(p - {k})
    decreases |p|
  {
    var s := Smallest(p.Keys);
    if k != s {
      var q := p - {k};
      assert s in q && IsLeast(s, q.Keys);
      assert Rest(q) == Rest(p) - {k};
      CountsAreSums(Rest(p), k);
    }
  }

  /** The bytes of a dictionary are those of its notes; a root alone takes none. */
  lemma {:induction false} DictBytesAre(d: RootDict, root: Root, note: Note)
    ensures DictBytes([]) == 0
    ensures DictBytes(d + [Pend(root, None)]) == DictBytes(d)
    ensures DictBytes(d + [Pend(root, Some(note))]) == DictBytes(d) + NoteLength(note)
  {
    if d != [] {
      DictBytesAre(d[1..], root, note);
      assert (d + [Pend(root, None)])[1..] == d[1..] + [Pend(root, None)];
      assert (d + [Pend(root, Some(note))])[1..] == d[1..] + [Pend(root, Some(note))];
    }
  }

  /** The scanned window is the longest end of the history that fits in 4194304 bytes. */
  lemma {:induction false} WindowIsLongest(h: seq<Cosigned>) returns (k: nat)
    ensures k <= |h| && Window(h) == h[k..] && HistoryBytes(h[k..]) <= 4194304
    ensures k > 0 ==> HistoryBytes(h[k - 1..]) > 4194304
  {
    if HistoryBytes(h) <= 4194304 {
      k := 0;
    } else {
      var j := WindowIsLongest(h[1..]);
      k := j + 1;
      assert h[1..][j..] == h[k..];
      assert j > 0 ==> h[1..][j - 1..] == h[k - 1..];
    }
  }

  /** A refusal that is not in the ring yet is counted and put last, and only the last 100 are kept. */
  lemma {:induction false} RefusalIsCounted(disk: Disk, w: Signer, q: Locked)
    requires !BadTimestamp(q, PrevOf(disk.state, q.cp.origin)) && q.cp.origin in disk.state.origins
    requires 0 < q.cp.size < disk.state.origins[q.cp.origin].size
    ensures var r, after := RingOf(disk.state, q.cp.origin), RingOf(CosignLocked(disk, w, q).disk.state, q.cp.origin);
            var time := if q.timestamp.Some? then q.timestamp.value else q.clock;
            var more := r.last + [Refusal(Rollback, q.cp.size, q.cp.root, time)];
            if exists x :: x in r.last && x.kind == Rollback && x.size == q.cp.size && x.root == q.cp.root then
              after == r
            else
              && after.count == r.count + 1
              && after.last == (if |more| > 100 then more[|more| - 100..] else more)
  {
    hide Candidates, Partner, ProofAccepted, NoteFuture, DoCosign;
    var prev, m0, c := disk.state.origins[q.cp.origin], Mem(disk.state, false, disk), CtxOf(q);
    MemoryIsSaved(disk, w, q);
    RefusedRing(m0, c, Rollback, prev, None);
    RingMembers(RingOf(disk.state, q.cp.origin), c);
  }

  lemma RingMembers(r: Ring, c: Ctx)
    ensures InRing(r, Rollback, c) <==>
            exists x :: x in r.last && x.kind == Rollback && x.size == c.cp.size && x.root == c.cp.root
  {
    if InRing(r, Rollback, c) {
      var i :| 0 <= i < |r.last| && r.last[i].kind == Rollback && r.last[i].size == c.cp.size
        && r.last[i].root == c.cp.root;
      assert r.last[i] in r.last;
    }
  }

  /** A conflict with the stored checkpoint that is presented again adds no second record. */
  lemma {:induction false} ReplayAddsNothing(disk: Disk, w: Signer, q: Locked)
    requires !BadTimestamp(q, PrevOf(disk.state, q.cp.origin)) && q.cp.origin in disk.state.origins
    requires var prev := disk.state.origins[q.cp.origin]; 0 < prev.size == q.cp.size && prev.root != q.cp.root
    ensures var first := CosignLocked(disk, w, q).disk; CosignLocked(first, w, q).disk == first
  {
    hide ProofAccepted, NoteFuture, DoCosign, Refused;
    var prev, c := disk.state.origins[q.cp.origin], CtxOf(q);
    var other := Pend(prev.root, Some(prev.note));
    ConflictExit(disk, w, q);
    var first := CosignLocked(disk, w, q).disk;
    WrittenIsSeen(Mem(disk.state, false, disk), c, other);
    ConflictExit(first, w, q);
  }

  lemma ConflictExit(disk: Disk, w: Signer, q: Locked)
    requires !BadTimestamp(q, PrevOf(disk.state, q.cp.origin)) && q.cp.origin in disk.state.origins
    requires var prev := disk.state.origins[q.cp.origin]; 0 < prev.size == q.cp.size && prev.root != q.cp.root
    ensures var prev := disk.state.origins[q.cp.origin];
            var m := Flush(WriteProof(Mem(disk.state, false, disk), CtxOf(q), Pend(prev.root, Some(prev.note))));
            CosignLocked(disk, w, q).disk == m.disk && m.disk.state == m.st
  {
    hide ProofAccepted, NoteFuture, DoCosign, Refused;
  }

  lemma WrittenIsSeen(m: Mem, c: Ctx, other: Pend)
    ensures KeyOf(c, other) in WriteProof(m, c, other).st.proofsSeen
    ensures WriteProof(m, c, other).st.origins == m.st.origins
  {
    if KeyOf(c, other) !in m.st.proofsSeen {
      var seen := m.st.proofsSeen + [KeyOf(c, other)];
      var kept := LastN(seen, PROOFS_SEEN);
      assert kept[|kept| - 1] == seen[|seen| - 1];
    }
  }
}
