/**
 The witness as it runs: a state loaded into memory for each request, updated in place, flushed to
 the state file when it changed, with an evidence file and a history file beside it.
 */
module WitnessService {
  import opened MerkleTree
  import opened MerkleWalk
  import opened MerkleVerifiers
  import opened Notes
  import opened WitnessSpec
  import opened WitnessRequests

  class Witness {
    const signer: Signer
    const logs: Logs

    // the state in memory, for the request being served
    var origins: map<string, Stored>
    var pending: map<string, Pending>
    var refusals: map<string, Ring>
    var proofsSeen: seq<PairKey>
    var dirty: bool

    // the files
    var saved: State
    var evidence: seq<Evidence>
    var history: seq<Cosigned>
    var saves: nat

    ghost function Files(): Disk
      reads this
    {
      Disk(saved, evidence, history, saves)
    }

    ghost function Memory(): Mem
      reads this
    {
      Mem(State(origins, pending, refusals, proofsSeen), dirty, Files())
    }

    constructor (signer: Signer, logs: Logs)
      ensures this.signer == signer && this.logs == logs && Files() == EMPTY_DISK
    {
      this.signer, this.logs := signer, logs;
      origins, pending, refusals, proofsSeen, dirty := map[], map[], map[], [], false;
      saved, evidence, history, saves := EMPTY_STATE, [], [], 0;
    }

    /** _load_state, with a clean dirty flag; a file that is unreadable or malformed is refused whole. */
    method Load(wellFormed: bool) returns (ok: bool)
      modifies this
      ensures ok == wellFormed && Files() == old(Files())
      ensures Memory() == if ok then Mem(saved, false, Files()) else old(Memory())
    {
      if !wellFormed {
        return false;
      }
      origins, pending, refusals, proofsSeen := saved.origins, saved.pending, saved.refusals, saved.proofsSeen;
      dirty := false;
      ok := true;
    }

    method Save()
      modifies this
      ensures Memory() == old(Memory()).(disk := old(Files()).(state := old(Memory()).st, saves := old(saves) + 1))
    {
      saved := State(origins, pending, refusals, proofsSeen);
      saves := saves + 1;
    }

    /** _flush. */
    method FlushIfDirty()
      modifies this
      ensures Memory() == Flush(old(Memory()))
    {
      if dirty {
        Save();
        dirty := false;
      }
    }

    /** _proof. */
    method RecordPair(c: Ctx, other: Pend)
      modifies this
      ensures Memory() == WriteProof(old(Memory()), c, other)
    {
      var key := KeyOf(c, other);
      if key in proofsSeen {
        return;
      }
      dirty := true;
      proofsSeen := proofsSeen + [key];
      if |proofsSeen| > PROOFS_SEEN {
        proofsSeen := proofsSeen[|proofsSeen| - PROOFS_SEEN..];
      }
      evidence := evidence + [PairEvidence(c, other)];
    }

    /** next(... kept note ...) or next(... any other root ...). */
    method FindPartner(d: RootDict, root: Root) returns (r: Option<Pend>)
      ensures r == Partner(d, root)
    {
      for i := 0 to |d|
        invariant FirstKept(d, root) == FirstKept(d[i..], root)
      {
        assert d[i..][1..] == d[i + 1..];
        if d[i].root != root && d[i].note.Some? {
          return Some(d[i]);
        }
      }
      for i := 0 to |d|
        invariant FirstOther(d, root) == FirstOther(d[i..], root)
      {
        assert d[i..][1..] == d[i + 1..];
        if d[i].root != root {
          return Some(d[i]);
        }
      }
      r := None;
    }

    /** The eviction loop of _note_future. */
    method EvictPending(p: Pending) returns (q: Pending, evicted: bool)
      ensures q == Evict(p) && WithinBudget(q)
      ensures evicted <==> !WithinBudget(p)
    {
      q, evicted := p, false;
      while q != map[] && (Count(q) > RING || Bytes(q) > PENDING_BYTES)
        invariant Evict(q) == Evict(p)
        invariant !evicted ==> q == p
        invariant evicted ==> !WithinBudget(p)
        decreases Count(q), |q|
      {
        DropOldestShrinks(q);
        var oldest := Smallest(q.Keys);
        if |q[oldest]| <= 1 {
          q := Rest(q);
        } else {
          q := q[oldest := q[oldest][1..]];
        }
        evicted := true;
      }
    }

    /** _note_future. */
    method LookAhead(c: Ctx) returns (ev: Option<Evidence>)
      modifies this
      ensures var r := NoteFuture(old(Memory()), c); Memory() == r.0 && ev == r.1
    {
      hide WriteProof, Evict, Partner, WithinBudget, WorthKeeping;
      var o := c.cp.origin;
      var pendO := if o in pending then pending[o] else map[];
      var pend := if c.cp.size in pendO then pendO[c.cp.size] else [];
      var partner := FindPartner(pend, c.cp.root);
      ev := None;
      if partner.Some? {
        RecordPair(c, partner.value);
        ev := Some(PairEvidence(c, partner.value));
      }
      ghost var p := Remember(pendO, c);
      if WorthKeeping(pend, c) {
        pendO := pendO[c.cp.size := Put(pend, c.cp.root, SmallNote(c))];
        dirty := true;
      } else {
        pendO := pendO[c.cp.size := pend];
      }
      assert pendO == p;
      var q, evicted := EvictPending(pendO);
      pending := pending[o := q];
      if evicted {
        dirty := true;
      }
    }

    /** _cosigned_at, over the lines of the window. */
    method ScanHistory(origin: string, size: nat) returns (found: RootDict)
      ensures found == CosignedAt(Window(history), origin, size, [])
    {
      found := [];
      var lines := Window(history);
      for i := 0 to |lines|
        invariant CosignedAt(lines[i..], origin, size, found) == CosignedAt(lines, origin, size, [])
      {
        assert lines[i..][1..] == lines[i + 1..];
        var rec := lines[i];
        if rec.origin == origin && rec.size == size && !Has(found, rec.root) {
          found := found + [Pend(rec.root, Some(rec.note))];
        }
      }
    }

    /** {e["root_b64"]: None for e in ring["last"] if ...}. */
    method RingCandidates(last: seq<Refusal>, c: Ctx) returns (d: RootDict)
      ensures d == RingRoots(last, c, [])
    {
      d := [];
      for i := 0 to |last|
        invariant RingRoots(last[i..], c, d) == RingRoots(last, c, [])
      {
        assert last[i..][1..] == last[i + 1..];
        if last[i].size == c.cp.size && last[i].root != c.cp.root {
          d := Put(d, last[i].root, None);
        }
      }
    }

    /** The ring of remembered refusals: a replay of one already in it changes nothing. */
    method RememberRefusal(c: Ctx, kind: Kind)
      modifies this
      ensures Memory() == AddToRing(old(Memory()), kind, c)
    {
      hide InRing;
      var ring := if c.cp.origin in refusals then refusals[c.cp.origin] else Ring(0, []);
      if !InRing(ring, kind, c) {
        ring := Ring(ring.count + 1, LastN(ring.last + [Refusal(kind, c.cp.size, c.cp.root, c.recorded)], RING));
        refusals := refusals[c.cp.origin := ring];
        dirty := true;
      }
    }

    method GatherCandidates(c: Ctx) returns (candidates: RootDict)
      ensures candidates == Candidates(Memory(), c)
    {
      hide RingRoots, CosignedAt, Update;
      var ring := if c.cp.origin in refusals then refusals[c.cp.origin] else Ring(0, []);
      candidates := RingCandidates(ring.last, c);
      var pendO := if c.cp.origin in pending then pending[c.cp.origin] else map[];
      candidates := Update(candidates, if c.cp.size in pendO then pendO[c.cp.size] else []);
      var cosigned := ScanHistory(c.cp.origin, c.cp.size);
      candidates := Update(candidates, cosigned);
    }

    /** _refused. */
    method Refuse(c: Ctx, kind: Kind, prev: Stored, ev: Option<Evidence>) returns (e: Evidence)
      modifies this
      ensures var r := Refused(old(Memory()), c, kind, prev, ev); Memory() == r.0 && e == r.1
    {
      hide WriteProof, Partner, Candidates, AddToRing;
      e := if ev.Some? then ev.value
           else Evidence(kind, false, c.cp.origin, prev.size, c.cp.size, Some(prev.note), None, c.presented,
               c.recorded);
      RememberRefusal(c, kind);
      if c.cp.size < prev.size {
        var candidates := GatherCandidates(c);
        var partner := FindPartner(candidates, c.cp.root);
        if partner.Some? {
          RecordPair(c, partner.value);
          e := PairEvidence(c, partner.value);
        }
      }
      FlushIfDirty();
    }

    /** What is looked at before the old-size gate. */
    method LookBeforeGate(c: Ctx, prev: Option<Stored>) returns (ev: Option<Evidence>)
      modifies this
      ensures var r := PreGate(old(Memory()), c, prev); Memory() == r.0 && ev == r.1
    {
      hide WriteProof, Refused, NoteFuture;
      ev := None;
      if c.cp.size == 0 && c.cp.root != EmptyRoot {
      } else if prev.Some? && c.cp.size < prev.value.size {
        var e := Refuse(c, Rollback, prev.value, None);
        ev := Some(e);
      } else if prev.Some? && c.cp.size == prev.value.size && c.cp.root != prev.value.root {
        var other := Pend(prev.value.root, Some(prev.value.note));
        RecordPair(c, other);
        ev := Some(PairEvidence(c, other));
        FlushIfDirty();
      } else if c.cp.size > (if prev.Some? then prev.value.size else 0) {
        ev := LookAhead(c);
      }
    }

    /** verify_consistency_b64. */
    method CheckProof(oldSize: nat, oldRoot: Root, newSize: nat, newRoot: Root, proof: seq<ProofLine>)
        returns (ok: bool)
      ensures ok == ProofAccepted(oldSize, oldRoot, newSize, newRoot, proof)
    {
      hide ConsistencyAccepted;
      if !AllHashes(proof) {
        return false;
      }
      if oldSize == newSize {
        return oldRoot == newRoot && proof == [];
      }
      if !(0 < oldSize < newSize) {
        return false;
      }
      ok := VerifyConsistency(oldSize, newSize, Digests(proof), oldRoot, newRoot);
    }

    /** The cosigning exit. */
    method CosignNow(q: Locked, prev: Option<Stored>, ev: Option<Evidence>) returns (a: Answer)
      requires 1 <= CtxOf(q).recorded
      modifies this
      ensures var r := DoCosign(old(Memory()), signer, q, prev, ev);
              Files() == r.0.disk && Memory().st == r.0.st && a == r.1
    {
      hide WriteProof, OwnLines;
      var c := CtxOf(q);
      var o := q.cp.origin;
      if ev.None? {
        var pendO := if o in pending then pending[o] else map[];
        var other := FirstOther(if q.cp.size in pendO then pendO[q.cp.size] else [], q.cp.root);
        if other.Some? {
          RecordPair(c, other.value);
        }
      }
      assert Memory() == PairAtCosign(old(Memory()), c, ev);
      if o in pending {
        pending := pending[o := pending[o] - {q.cp.size}];
      }
      var ts: nat := c.recorded;
      var own := OwnLines(signer, q.cp, q.extensions, ts);
      var text := CheckpointText(q.cp, q.extensions);
      var stored := Note(text, q.trustedLines + own);
      if prev.None? || prev.value.root != q.cp.root || prev.value.size != q.cp.size {
        history := history + [Cosigned(o, q.cp.size, q.cp.root, stored, ts, q.lineBytes)];
      }
      origins := origins[o := Stored(q.cp.size, q.cp.root, stored, ts)];
      Save();
      a := Cosigned200(Note(text, q.kept + own), own, ev, StoredSize(prev));
    }

    /** _cosign_locked. */
    method Serve(q: Locked, wellFormed: bool) returns (a: Answer)
      modifies this
      ensures wellFormed ==> var r := CosignLocked(old(Files()), signer, q);
              Files() == r.disk && Memory().st == r.memory && a == r.answer
      ensures !wellFormed ==> Files() == old(Files()) && a == Error
    {
      hide PreGate, Refused, DoCosign, ProofAccepted;
      var loaded := Load(wellFormed);
      if !loaded {
        return Error;
      }
      var prev := if q.cp.origin in origins then Some(origins[q.cp.origin]) else None;
      var storedSize := if prev.Some? then prev.value.size else 0;
      if BadTimestamp(q, prev) {
        return Error;
      }
      var c := CtxOf(q);
      var ev := LookBeforeGate(c, prev);
      ghost var d := Decide(q.cp, prev, q.proof, q.oldSize);
      if q.oldSize.Some? {
        if q.oldSize.value < 0 || q.oldSize.value > q.cp.size {
          FlushIfDirty();
          return Declined(400, ev, storedSize);
        }
        if q.oldSize.value != storedSize {
          FlushIfDirty();
          return Declined(409, ev, storedSize);
        }
      }
      if q.cp.size == 0 && q.cp.root != EmptyRoot {
        FlushIfDirty();
        return Declined(422, ev, storedSize);
      }
      if prev.Some? {
        if q.cp.size < prev.value.size {
          FlushIfDirty();
          return Declined(400, ev, storedSize);
        }
        if q.cp.size == prev.value.size && q.cp.root != prev.value.root {
          FlushIfDirty();
          return Declined(422, ev, storedSize);
        }
        if prev.value.size == 0 || q.cp.size == prev.value.size {
          if q.proof != [] {
            FlushIfDirty();
            return Declined(422, ev, storedSize);
          }
        } else {
          var ok := CheckProof(prev.value.size, prev.value.root, q.cp.size, q.cp.root, q.proof);
          if !ok {
            var e := Refuse(c, UnprovenExtension, prev.value, ev);
            return Declined(422, Some(e), storedSize);
          }
        }
      } else if q.proof != [] {
        FlushIfDirty();
        return Declined(422, ev, storedSize);
      }
      a := CosignNow(q, prev, ev);
    }

    /** add_checkpoint and the checks of witness_cosign before the lock; `wellFormed` is about the state file. */
    method AddCheckpoint(r: Request, wellFormed: bool) returns (a: Answer)
      modifies this
      ensures wellFormed ==> var out := Handle(old(Files()), signer, logs, r); Files() == out.disk && a == out.answer
      ensures !wellFormed ==> Files() == old(Files()) && !a.Cosigned200?
    {
      hide CosignLocked, TrustedLines, KeptLines, VerifyLines, Ambiguous, TextLength;
      var origin := FirstLine(r.note.text);
      if origin !in logs {
        return Declined(404, None, 0);
      }
      var keys := logs[origin];
      if keys == [] || (exists i :: 0 <= i < |keys| && !IsLogType(keys[i].typ)) {
        return Error;
      }
      var v := VerifyNote(r.note, keys, ALL_LIBRARIES);
      MissingLibraryWithholds(r.note, keys, ALL_LIBRARIES);
      if v.Raised? {
        return Error;
      }
      if v.NotValid? {
        return Declined(403, None, 0);
      }
      if !r.note.text.CheckpointText? || r.note.text.cp.origin != origin || |r.proof| > MAX_PROOF {
        return Declined(400, None, 0);
      }
      var kept := KeptLines(r.note.sigs, signer);
      if (signer.pq.Some? && Utf8Length(origin) > 255) || |kept| + OwnLineCount(signer) > MAX_SIGS {
        return Declined(400, None, 0);
      }
      a := Serve(Locked(r.note.text.cp, r.note.text.extensions, TrustedLines(r.note.sigs, keys, []), kept,
                        r.proof, r.oldSize, r.timestamp, r.clock, r.lineBytes), wellFormed);
    }
  }
}
