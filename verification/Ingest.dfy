/**
 The segmented writer of cryptovalid_ingest.py as an object: append, flush, seal and rotation over
 one directory, and reopening after a crash.  Every public operation runs under the writer's lock, so
 an interleaving of callers is a sequence of these calls.
 */
module Ingest {
  import opened MerkleTree
  import opened Ledger
  import opened Archive
  import opened SegmentNames
  import opened IngestWriter

  /** What goes wrong in a call, if anything: a full disk at the flush, at the sidecar, or at HEAD. */
  datatype Fault = NoFault | FlushFails | SidecarFails | HeadFails

  class Ingestor {
    const batchSize: nat
    const rotateEntries: nat
    const key: Option<nat>                  // the signing backend

    // the directory
    var sealed: seq<Sealed>
    var active: File
    var sidecar: Option<Sth>                // of the active file, when a seal failed after writing it
    var head: HeadFile

    // the writer's memory
    var number: nat                         // of the file it appends to
    var idx: nat
    var prev: Link
    var first: Link
    var buf: seq<Line>

    ghost var log: seq<Event>               // every event accepted by append, in lock order

    ghost function Value(): Writer
      reads this
    {
      Writer(sealed, active, sidecar, head, idx, prev, first, buf)
    }

    ghost predicate Valid()
      reads this
    {
      batchSize >= 1 && rotateEntries >= 1 && number == |sealed| && Inv(Value(), key, log)
    }

    /** Refs handed out before still locate their events. */
    twostate predicate RefsKept()
      reads this
    {
      forall r, e :: Locates(old(Value()), r, e) ==> Locates(Value(), r, e)
    }

    constructor (batchSize: nat, rotateEntries: nat, key: Option<nat>)
      requires batchSize >= 1 && rotateEntries >= 1
      ensures Valid() && log == [] && sealed == [] && head == NoHead && sidecar == None
      ensures this.batchSize == batchSize && this.rotateEntries == rotateEntries && this.key == key
    {
      this.batchSize, this.rotateEntries, this.key := batchSize, rotateEntries, key;
      sealed, active, sidecar, head := [], File([], 0), None, NoHead;
      number, idx, prev, first, buf := 0, 0, Genesis, Genesis, [];
      log := [];
    }

    /** flush: the whole batch or nothing; a failed write leaves the batch queued. */
    method Flush(fault: Fault) returns (ok: bool)
      requires Valid()
      modifies this`active, this`buf
      ensures Valid() && RefsKept()
      ensures ok <==> old(buf) == [] || !fault.FlushFails?
      ensures Value() == if ok then Flushed(old(Value())) else old(Value())
    {
      hide Inv, Locates;
      FlushKeeps(Value(), key, log);
      InvTorn(Value(), key, log);
      ok := true;
      if buf != [] {
        if fault.FlushFails? {
          return false;
        }
        active := File(active.lines + buf, 0);
        buf := [];
      } else {
        assert active.lines + buf == active.lines;
      }
    }

    /** The part of append under the lock: queue the event, flush a full batch. */
    method Enqueue(data: Event, ts: nat, bytes: nat, fault: Fault) returns (r: Ref, ok: bool)
      requires Valid() && bytes > 0
      modifies this
      ensures Valid() && RefsKept() && log == old(log) + [data] && sealed == old(sealed) && head == old(head)
      ensures r == Ref(|old(sealed)|, old(idx)) && Locates(Value(), r, data)
      ensures var queued := Queue(old(Value()), data, ts, bytes);
              Value() == if |queued.buf| >= batchSize && !fault.FlushFails? then Flushed(queued) else queued
      ensures ok <==> |old(buf)| + 1 < batchSize || !fault.FlushFails?
    {
      hide Inv, Locates;
      ghost var w := Value();
      QueueInv(w, key, log, data, ts, bytes);
      InvTorn(w, key, log);
      forall q, d | Locates(w, q, d) ensures Locates(Queue(w, data, ts, bytes), q, d) {
        QueueKeepsRefs(w, data, ts, bytes, q, d);
      }
      var e := Entry(idx, ts, data, prev);
      var selfHash := SelfHash(e);
      buf := buf + [Line(EntryLine(e, selfHash), bytes)];
      if idx == 0 {
        first := selfHash;
      }
      prev := selfHash;
      idx := idx + 1;
      log := log + [data];
      assert Value() == Queue(w, data, ts, bytes);
      r := Ref(number, e.idx);
      ok := true;
      if |buf| >= batchSize {
        ok := Flush(fault);                  // when it fails the exception propagates; the event stays queued
      }
    }

    /** append: queue, then seal a full segment; other callers may run between the two locked parts. */
    method Append(data: Event, ts: nat, bytes: nat, now: nat, fault: Fault) returns (r: Ref, ok: bool)
      requires Valid() && bytes > 0
      modifies this
      ensures Valid() && RefsKept() && log == old(log) + [data]
      ensures r == Ref(|old(sealed)|, old(idx)) && Locates(Value(), r, data)
      ensures ok && old(idx) + 1 >= rotateEntries ==>
                && |sealed| == |old(sealed)| + 1 && ActiveLines(Value()) == []
                && (ArchiveOk(View(Value()), Pinned(key)) <==> |sealed| <= 1000000)
    {
      hide Inv, Locates, ArchiveOk, View;
      r, ok := Enqueue(data, ts, bytes, fault);
      if ok && idx >= rotateEntries {
        ok := Seal(rotateEntries, now, fault);
      }
    }

    /** seal: flush, write the tree head chained to the previous one, rewrite HEAD, rotate. */
    method Seal(minEntries: nat, now: nat, fault: Fault) returns (ok: bool)
      requires Valid()
      modifies this
      ensures Valid() && RefsKept() && log == old(log)
      ensures var due := old(idx) >= 1 && old(idx) >= minEntries;
              var flushed := Flushed(old(Value()));
              && (fault.FlushFails? && old(buf) != [] ==> !ok && Value() == old(Value()))
              && (!(fault.FlushFails? && old(buf) != []) ==>
                    if !due then ok && Value() == flushed
                    else if fault.SidecarFails? then !ok && Value() == flushed
                    else GoodLines(flushed.active.lines) &&
                         if fault.HeadFails? then !ok && Value() == WithSidecar(flushed, now, key)
                         else ok && Value() == Rotated(flushed, now, key))
      ensures ok && old(idx) >= 1 && old(idx) >= minEntries ==>
                && |sealed| == |old(sealed)| + 1 && sealed[|old(sealed)|].lines == old(ActiveLines(Value()))
                && ActiveLines(Value()) == [] && (ArchiveOk(View(Value()), Pinned(key)) <==> |sealed| <= 1000000)
    {
      hide Inv, Locates, ArchiveOk, View, GoodLines, WithSidecar, Rotated;
      ok := Flush(fault);
      if !ok || idx < (if minEntries > 1 then minEntries else 1) {
        return;
      }
      ok := SealFlushed(now, fault);
    }

    /** The part of seal after the flush, for a segment that is due. */
    method SealFlushed(now: nat, fault: Fault) returns (ok: bool)
      requires Valid() && buf == [] && idx >= 1
      modifies this
      ensures Valid() && RefsKept() && log == old(log) && GoodLines(old(active).lines)
      ensures ok <==> !fault.SidecarFails? && !fault.HeadFails?
      ensures Value() == if fault.SidecarFails? then old(Value())
                         else if fault.HeadFails? then WithSidecar(old(Value()), now, key)
                         else Rotated(old(Value()), now, key)
      ensures ok ==>
                && |sealed| == |old(sealed)| + 1 && sealed[|old(sealed)|].lines == old(ActiveLines(Value()))
                && ActiveLines(Value()) == [] && (ArchiveOk(View(Value()), Pinned(key)) <==> |sealed| <= 1000000)
    {
      hide Inv, Locates, ArchiveOk, View, Mth, GoodLines;
      ghost var w := Value();
      SidecarInv(w, key, log, now);
      RotateInv(w, key, log, now);
      if fault.SidecarFails? {
        return false;
      }
      var body := SealBody(sealed, active.lines, now);
      sidecar := Some(Sth(body, SignWith(key, body)));
      assert Value() == WithSidecar(w, now, key);
      if fault.HeadFails? {
        return false;
      }
      sealed := sealed + [Sealed(active.lines, sidecar)];
      head := HeadFile(HeadFor(sealed, now, key));
      active, sidecar := File([], 0), None;
      number := number + 1;
      idx, prev, first := 0, Genesis, Genesis;
      assert Value() == Rotated(w, now, key);
      ArchiveVerifiesExactly(Value(), key, log);
      ok := true;
    }

    /** verify_archive on the writer's own directory, with its key pinned. */
    method Audit() returns (ok: bool)
      requires Valid()
      ensures ok <==>
                && Directory(Value()) != [] && |Directory(Value())| <= 1000000
                && (head.NoHead? || HeadCounts(head, |Directory(Value())|))
                && (sidecar.Some? ==> sidecar.value.body.treeSize == |active.lines|)
    {
      hide Inv, ArchiveOk;
      ArchiveVerifiesExactly(Value(), key, log);
      var files := sealed + if sidecar.Some? then [Sealed(active.lines, sidecar)] else [];
      var verdict, _ := VerifyArchive(ArchiveView(Listing(files), head), Pinned(key));
      ok := verdict;
    }

    /**
     A crash while a flush had let k bytes of its batch reach the file, then a reopen, which takes the
     last file of the listing for the active one.
     */
    method CrashAndReopen(k: nat) returns (recoveredBytes: nat, picked: nat)
      requires Valid()
      modifies this
      ensures picked == LastListed(|old(sealed)|) && head == old(head) && buf == []
      // the active file, with no sidecar: every flushed entry and the complete lines of the batch remain
      ensures picked == |old(sealed)| && old(sidecar).None? ==>
                && Valid() && sealed == old(sealed)
                && active.lines == old(active.lines) + old(buf)[..CompleteLines(old(buf), k)]
                && log <= old(log) && |log| == |old(log)| - |old(buf)| + CompleteLines(old(buf), k)
      // the active file, with a sidecar: it counts as sealed as it is
      ensures picked == |old(sealed)| && old(sidecar).Some? ==>
                && old(active).torn == 0 && Value() == Adopted(old(Value()), k)
                && var whole := old(sidecar).value.body.treeSize == |old(active).lines|
                                && Crashed(old(Value()), k) == old(active);
                   && (whole ==> Valid() && log <= old(log) && |log| == |old(log)| - |old(buf)|)
                   && (!whole ==> !Valid() && Broken(sealed[|old(sealed)|], Pinned(key)))
      // a sealed file: the writer goes on after it, from index 0, which is right only on an empty active file
      ensures picked != |old(sealed)| ==>
                && old(active).torn == 0 && Value() == Misplaced(old(Value()), k) && number == picked + 1
                && (Valid() <==> picked + 1 == |old(sealed)| && active == File([], 0))
    {
      hide Inv, CrashWrite, GoodLines, SegmentsOk, LastListed, CompleteLines, ResumedWriter, Adopted, Pinned,
        Broken, Misplaced;
      ghost var w := Value();
      ReopenFacts(w, key, log, k);
      ghost var j := CompleteLines(buf, k);
      var crashed := CrashWrite(active, buf, k);
      log := log[..|log| - (|buf| - j)];
      buf, recoveredBytes := [], 0;
      picked := LastListed(|sealed|);
      if picked == |sealed| && sidecar.None? {
        recoveredBytes := ResumeActive(w, k, crashed);
        number := picked;
      } else if picked == |sealed| {
        AdoptActive(w, k, crashed);
        InvSegments(Value(), key, log);
      } else {
        active, number := crashed, picked + 1;
        idx, prev, first := 0, Genesis, Genesis;
        MisplacedState(w, k);
      }
    }

    /** _resume on the crashed active file. */
    method ResumeActive(ghost w: Writer, ghost k: nat, crashed: File) returns (recoveredBytes: nat)
      requires w.active.torn == 0 && GoodLines(ActiveLines(w)) && crashed == Crashed(w, k)
      requires sealed == w.sealed && sidecar.None? && head == w.head && buf == []
      modifies this`active, this`idx, this`prev, this`first
      ensures Value() == ResumedWriter(w, k)
    {
      hide Scan, CrashWrite, GoodLines;
      CrashRecovery(w.active, w.buf, k);
      ghost var kept := w.active.lines + w.buf[..CompleteLines(w.buf, k)];
      assert kept[..|kept|] == kept;
      var r, after, dropped := Resume(crashed);
      active := after;
      idx, prev, first := r.idx, r.prev, r.first;
      recoveredBytes := dropped;
    }

    /** A file with a sidecar is left as it is, and the next number is opened. */
    method AdoptActive(ghost w: Writer, ghost k: nat, crashed: File)
      requires w.active.torn == 0 && crashed == Crashed(w, k)
      requires sealed == w.sealed && sidecar == w.sidecar && head == w.head && buf == []
      modifies this`sealed, this`active, this`sidecar, this`number, this`idx, this`prev, this`first
      ensures Value() == Adopted(w, k) && number == |sealed|
    {
      sealed := sealed + [Sealed(LinesOf(crashed), sidecar)];
      active, sidecar, number := File([], 0), None, |sealed|;
      idx, prev, first := 0, Genesis, Genesis;
    }

    /**
     A crash inside seal after the sidecar and before HEAD, then a reopen that finds the segment: no
     event and no ref is lost, and the archive verifies exactly when there was no HEAD yet.
     */
    method CrashInSeal(now: nat) returns (picked: nat)
      requires Valid() && idx >= 1
      modifies this
      ensures picked == LastListed(|old(sealed)|) && head == old(head)
      ensures picked == |old(sealed)| ==>
                && Valid() && RefsKept() && log == old(log) && |sealed| == |old(sealed)| + 1
                     && ActiveLines(Value()) == []
                && (ArchiveOk(View(Value()), Pinned(key)) <==> old(head).NoHead? && |sealed| <= 1000000)
    {
      hide Inv, Locates, ArchiveOk, View, Mth, GoodLines, SegmentsOk, LastListed, CrashWrite;
      InvTorn(Value(), key, log);
      InvHead(Value(), key, log);
      var _ := Seal(1, now, HeadFails);
      ghost var w := Value();
      NothingQueued(w);
      assert w.active.lines + [] == w.active.lines;
      var _, last := CrashAndReopen(0);
      picked := last;
      if picked == |old(sealed)| {
        forall r, e | Locates(w, r, e) ensures Locates(Value(), r, e) {
          AdoptKeepsRefs(w, 0, r, e);
        }
        ArchiveVerifiesExactly(Value(), key, log);
      }
    }
  }

  /** What a reopen finds, in all cases. */
  lemma {:induction false} ReopenFacts(w: Writer, key: Option<nat>, log: seq<Event>, k: nat)
    requires Inv(w, key, log)
    ensures w.active.torn == 0 && GoodLines(ActiveLines(w))
    ensures var j := CompleteLines(w.buf, k);
            && |log| >= |w.buf| - j && Inv(ResumedWriter(w, k), key, log[..|log| - (|w.buf| - j)])
            && ResumedWriter(w, k).active.lines == w.active.lines + w.buf[..j]
            && (Crashed(w, k) == w.active ==> j == 0)
    ensures w.sidecar.Some? ==>
              && |Adopted(w, k).sealed| == |w.sealed| + 1
              && if w.sidecar.value.body.treeSize == |w.active.lines| && Crashed(w, k) == w.active
                 then |log| >= |w.buf| && Inv(Adopted(w, k), key, log[..|log| - |w.buf|])
                 else && Broken(Adopted(w, k).sealed[|w.sealed|], Pinned(key))
                      && !SegmentsOk(Adopted(w, k).sealed, |w.sealed| + 1, Pinned(key))
    ensures var j := CompleteLines(w.buf, k);
            Inv(Misplaced(w, k), key, log[..|log| - (|w.buf| - j)]) <==> Crashed(w, k) == File([], 0)
  {
    MisplacedInvExactly(w, key, log, k);
    ResumeInv(w, key, log, k);
    InvTorn(w, key, log);
    CrashKeepsCompleteLines(w.active, w.buf, k);
    hide Inv, CrashWrite, CompleteLines, SegmentsOk, GoodLines;
    var j := CompleteLines(w.buf, k);
    assert |w.active.lines + w.buf[..j]| == |w.active.lines| + j;
    if w.sidecar.Some? {
      AdoptInvExactly(w, key, log, k);
    }
  }

  lemma MisplacedState(w: Writer, k: nat)
    requires w.active.torn == 0
    ensures Misplaced(w, k) ==
            w.(active := CrashWrite(w.active, w.buf, k), idx := 0, prev := Genesis, first := Genesis, buf := [])
  {
  }

  lemma NothingQueued(w: Writer)
    requires w.active.torn == 0 && w.buf == []
    ensures Crashed(w, 0) == w.active
  {
  }

  lemma InvSegments(w: Writer, key: Option<nat>, log: seq<Event>)
    ensures Inv(w, key, log) ==> SegmentsOk(w.sealed, |w.sealed|, Pinned(key))
  {
  }

  lemma InvHead(w: Writer, key: Option<nat>, log: seq<Event>)
    requires Inv(w, key, log)
    ensures w.head.HeadFile? ==> w.head.head.body.segmentsSealed <= |w.sealed|
  {
  }
}
