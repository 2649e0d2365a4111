/**
 What one request does to a witness (cryptovalid_witness.py, _cosign_locked), as functions of the
 state file, the evidence file and the cosigned history.  The class in module WitnessService
 carries the loops and the updates in place and is proved equal to these functions.
 */
module WitnessSpec {
  import opened MerkleTree
  import opened MerkleWalk
  import opened Notes

  const RING := 100
  const PENDING_BYTES := 256 * 1024
  const PENDING_NOTE := 16 * 1024
  const HISTORY_SCAN := 4 * 1024 * 1024
  const PROOFS_SEEN := 10000
  const MAX_PROOF := 63

  // ---------------------------------------------------------------- state

  /** The last cosigned checkpoint of an origin. */
  datatype Stored = Stored(size: nat, root: Root, note: Note, cosignedAt: int)

  /** One entry of a dictionary {root: note or None}, in insertion order. */
  datatype Pend = Pend(root: Root, note: Option<Note>)
  type RootDict = seq<Pend>

  /** Roots seen beyond the stored size, by size. */
  type Pending = map<nat, RootDict>

  datatype Kind = SplitView | SplitViewUnkept | Rollback | UnprovenExtension

  datatype Refusal = Refusal(kind: Kind, size: nat, root: Root, when: int)
  datatype Ring = Ring(count: nat, last: seq<Refusal>)

  /** SHA-256 over origin, size and the sorted pair of roots, with the "|full" or "|half" mark. */
  datatype PairKey = PairKey(origin: string, size: nat, roots: set<Root>, full: bool)

  datatype State = State(
    origins: map<string, Stored>,
    pending: map<string, Pending>,
    refusals: map<string, Ring>,
    proofsSeen: seq<PairKey>)

  const EMPTY_STATE := State(map[], map[], map[], [])

  datatype Evidence = Evidence(
    kind: Kind, proof: bool, origin: string, sizeBefore: nat, sizePresented: nat,
    before: Option<Note>, beforeRoot: Option<Root>, presented: Note, recorded: int)

  /** One line of the cosigned history file, with its length in bytes. */
  datatype Cosigned = Cosigned(origin: string, size: nat, root: Root, note: Note, cosignedAt: int, lineBytes: nat)

  /** Everything on disk; `saves` counts the rewrites of the state file. */
  datatype Disk = Disk(state: State, evidence: seq<Evidence>, history: seq<Cosigned>, saves: nat)

  const EMPTY_DISK := Disk(EMPTY_STATE, [], [], 0)

  // ---------------------------------------------------------------- dictionaries in insertion order

  predicate Has(d: RootDict, root: Root) {
    exists i :: 0 <= i < |d| && d[i].root == root
  }

  /** dict[root] = note: replaces in place, or appends. */
  function Put(d: RootDict, root: Root, note: Option<Note>): RootDict {
    if d == [] then [Pend(root, note)]
    else if d[0].root == root then [Pend(root, note)] + d[1..]
    else [d[0]] + Put(d[1..], root, note)
  }

  /** dict.update(other). */
  function Update(d: RootDict, other: RootDict): RootDict
    decreases |other|
  {
    if other == [] then d else Update(Put(d, other[0].root, other[0].note), other[1..])
  }

  function NoteOf(d: RootDict, root: Root): Option<Note> {
    if d == [] then None else if d[0].root == root then d[0].note else NoteOf(d[1..], root)
  }

  function FirstKept(d: RootDict, root: Root): (r: Option<Pend>)
    ensures r.Some? ==> r.value in d && r.value.root != root && r.value.note.Some?
    ensures r.None? ==> forall i :: 0 <= i < |d| && d[i].root != root ==> d[i].note.None?
  {
    if d == [] then None
    else if d[0].root != root && d[0].note.Some? then Some(d[0])
    else FirstKept(d[1..], root)
  }

  function FirstOther(d: RootDict, root: Root): (r: Option<Pend>)
    ensures r.Some? ==> r.value in d && r.value.root != root
    ensures r.None? ==> forall i :: 0 <= i < |d| ==> d[i].root == root
  {
    if d == [] then None else if d[0].root != root then Some(d[0]) else FirstOther(d[1..], root)
  }

  /** The root to pair with: one whose note was kept if there is one, else any other root. */
  function Partner(d: RootDict, root: Root): (r: Option<Pend>)
    ensures r.Some? ==> r.value in d && r.value.root != root
    ensures r.None? ==> forall i :: 0 <= i < |d| ==> d[i].root == root
  {
    var kept := FirstKept(d, root);
    if kept.Some? then kept else FirstOther(d, root)
  }

  // ---------------------------------------------------------------- the pending budget

  predicate IsLeast(m: nat, s: set<nat>) {
    m in s && forall x :: x in s ==> m <= x
  }

  lemma {:induction false} HasLeast(s: set<nat>) returns (m: nat)
    requires s != {}
    ensures IsLeast(m, s)
  {
    m :| m in s;
    if s != {m} {
      var t := s - {m};
      var n := HasLeast(t);
      assert s == t + {m};
      m := if m < n then m else n;
    }
  }

  function Smallest(s: set<nat>): (m: nat)
    requires s != {}
    ensures IsLeast(m, s)
  {
    assert exists m :: IsLeast(m, s) by { var m := HasLeast(s); }
    var m :| IsLeast(m, s);
    m
  }

  function Rest(p: Pending): (r: Pending)
    requires p != map[]
    ensures r == p - {Smallest(p.Keys)} && |r| < |p|
  {
    var k := Smallest(p.Keys);
    assert (p - {k}).Keys == p.Keys - {k};
    p - {k}
  }

  function Count(p: Pending): nat
    decreases |p|
  {
    if p == map[] then 0 else |p[Smallest(p.Keys)]| + Count(Rest(p))
  }

  function DictBytes(d: RootDict): nat {
    if d == [] then 0 else (if d[0].note.Some? then NoteLength(d[0].note.value) else 0) + DictBytes(d[1..])
  }

  function Bytes(p: Pending): nat
    decreases |p|
  {
    if p == map[] then 0 else DictBytes(p[Smallest(p.Keys)]) + Bytes(Rest(p))
  }

  predicate WithinBudget(p: Pending) {
    Count(p) <= RING && Bytes(p) <= PENDING_BYTES
  }

  /** Drop the oldest root of the smallest pending size, and the size with its last root. */
  function DropOldest(p: Pending): Pending
    requires p != map[]
  {
    var k := Smallest(p.Keys);
    if |p[k]| <= 1 then Rest(p) else p[k := p[k][1..]]
  }

  lemma DropOldestShrinks(p: Pending)
    requires p != map[]
    ensures var q := DropOldest(p); Count(q) < Count(p) || (Count(q) == Count(p) && |q| < |p|)
  {
    var k := Smallest(p.Keys);
    if |p[k]| > 1 {
      var q := p[k := p[k][1..]];
      assert q.Keys == p.Keys;
      assert Rest(q) == Rest(p);
    }
  }

  function Evict(p: Pending): (q: Pending)
    ensures WithinBudget(q)
    decreases Count(p), |p|
  {
    if WithinBudget(p) then p
    else
      DropOldestShrinks(p);
      Evict(DropOldest(p))
  }

  // ---------------------------------------------------------------- history window

  function HistoryBytes(h: seq<Cosigned>): nat {
    if h == [] then 0 else h[0].lineBytes + HistoryBytes(h[1..])
  }

  /** The lines lying whole in the last HISTORY_SCAN bytes of the history file. */
  function Window(h: seq<Cosigned>): seq<Cosigned> {
    if HistoryBytes(h) <= HISTORY_SCAN then h else Window(h[1..])
  }

  /** _cosigned_at: {root: note} of the lines of the window at this origin and size, first one wins. */
  function CosignedAt(h: seq<Cosigned>, origin: string, size: nat, found: RootDict): RootDict
    decreases |h|
  {
    if h == [] then found
    else if h[0].origin == origin && h[0].size == size && !Has(found, h[0].root)
    then CosignedAt(h[1..], origin, size, found + [Pend(h[0].root, Some(h[0].note))])
    else CosignedAt(h[1..], origin, size, found)
  }

  // ---------------------------------------------------------------- one request

  /** What the checks before the lock hand to _cosign_locked. */
  datatype Ctx = Ctx(cp: Checkpoint, presented: Note, kept: seq<SigLine>, recorded: int)

  /** The state in memory and the files. */
  datatype Mem = Mem(st: State, dirty: bool, disk: Disk)

  function Flush(m: Mem): Mem {
    if m.dirty then m.(dirty := false, disk := m.disk.(state := m.st, saves := m.disk.saves + 1)) else m
  }

  function LastN<T>(s: seq<T>, n: nat): seq<T> {
    if |s| <= n then s else s[|s| - n..]
  }

  function PairEvidence(c: Ctx, other: Pend): Evidence {
    if other.note.Some?
    then Evidence(SplitView, true, c.cp.origin, c.cp.size, c.cp.size, other.note, None, c.presented, c.recorded)
    else Evidence(SplitViewUnkept, false, c.cp.origin, c.cp.size, c.cp.size, None, Some(other.root), c.presented,
        c.recorded)
  }

  function KeyOf(c: Ctx, other: Pend): PairKey {
    PairKey(c.cp.origin, c.cp.size, {other.root, c.cp.root}, other.note.Some?)
  }

  /** _proof: a split-view pair, written once to the evidence file. */
  function WriteProof(m: Mem, c: Ctx, other: Pend): Mem {
    var key := KeyOf(c, other);
    if key in m.st.proofsSeen then m
    else m.(dirty := true,
            st := m.st.(proofsSeen := LastN(m.st.proofsSeen + [key], PROOFS_SEEN)),
            disk := m.disk.(evidence := m.disk.evidence + [PairEvidence(c, other)]))
  }

  function PendingOf(st: State, origin: string): Pending {
    if origin in st.pending then st.pending[origin] else map[]
  }

  function PendingAt(st: State, origin: string, size: nat): RootDict {
    var p := PendingOf(st, origin);
    if size in p then p[size] else []
  }

  function SmallNote(c: Ctx): Option<Note> {
    if NoteLength(c.presented) <= PENDING_NOTE then Some(c.presented) else None
  }

  /** Is the root new at this size, or known by its root only and now small enough to keep? */
  predicate WorthKeeping(d: RootDict, c: Ctx) {
    !Has(d, c.cp.root) || (NoteOf(d, c.cp.root).None? && SmallNote(c).Some?)
  }

  /** The pending roots of an origin with one more log-signed root beyond the stored size. */
  function Remember(p: Pending, c: Ctx): Pending {
    var d := if c.cp.size in p then p[c.cp.size] else [];
    p[c.cp.size := if WorthKeeping(d, c) then Put(d, c.cp.root, SmallNote(c)) else d]
  }

  /** _note_future.  A root added and evicted at once still marks the state as changed. */
  function NoteFuture(m: Mem, c: Ctx): (Mem, Option<Evidence>) {
    var o := c.cp.origin;
    var d := PendingAt(m.st, o, c.cp.size);
    var partner := Partner(d, c.cp.root);
    var m1 := if partner.Some? then WriteProof(m, c, partner.value) else m;
    var p := Remember(PendingOf(m.st, o), c);
    (m1.(st := m1.st.(pending := m1.st.pending[o := Evict(p)]),
         dirty := m1.dirty || WorthKeeping(d, c) || !WithinBudget(p)),
     if partner.Some? then Some(PairEvidence(c, partner.value)) else None)
  }

  function RingOf(st: State, origin: string): Ring {
    if origin in st.refusals then st.refusals[origin] else Ring(0, [])
  }

  predicate InRing(r: Ring, kind: Kind, c: Ctx) {
    exists i :: 0 <= i < |r.last| && r.last[i].kind == kind && r.last[i].size == c.cp.size
        && r.last[i].root == c.cp.root
  }

  function AddToRing(m: Mem, kind: Kind, c: Ctx): Mem {
    var r := RingOf(m.st, c.cp.origin);
    if InRing(r, kind, c) then m
    else
      var r' := Ring(r.count + 1, LastN(r.last + [Refusal(kind, c.cp.size, c.cp.root, c.recorded)], RING));
      m.(dirty := true, st := m.st.(refusals := m.st.refusals[c.cp.origin := r']))
  }

  /** Roots of earlier refusals at this size (root only). */
  function RingRoots(last: seq<Refusal>, c: Ctx, d: RootDict): RootDict
    decreases |last|
  {
    if last == [] then d
    else if last[0].size == c.cp.size && last[0].root != c.cp.root
    then RingRoots(last[1..], c, Put(d, last[0].root, None))
    else RingRoots(last[1..], c, d)
  }

  /** All roots known at the size of a rollback: refused, pending, and cosigned in the window. */
  function Candidates(m: Mem, c: Ctx): RootDict {
    var d := RingRoots(RingOf(m.st, c.cp.origin).last, c, []);
    var d1 := Update(d, PendingAt(m.st, c.cp.origin, c.cp.size));
    Update(d1, CosignedAt(Window(m.disk.history), c.cp.origin, c.cp.size, []))
  }

  /** _refused. */
  function Refused(m: Mem, c: Ctx, kind: Kind, prev: Stored, ev: Option<Evidence>): (Mem, Evidence) {
    var ev0 := if ev.Some? then ev.value
               else Evidence(kind, false, c.cp.origin, prev.size, c.cp.size, Some(prev.note), None, c.presented,
                   c.recorded);
    var m1 := AddToRing(m, kind, c);
    var partner := if c.cp.size < prev.size then Partner(Candidates(m1, c), c.cp.root) else None;
    if partner.Some?
    then (Flush(WriteProof(m1, c, partner.value)), PairEvidence(c, partner.value))
    else (Flush(m1), ev0)
  }

  function PrevOf(st: State, origin: string): Option<Stored> {
    if origin in st.origins then Some(st.origins[origin]) else None
  }

  function StoredSize(prev: Option<Stored>): nat {
    if prev.Some? then prev.value.size else 0
  }

  /** What is looked at before the old-size gate, and the evidence it yields. */
  function PreGate(m: Mem, c: Ctx, prev: Option<Stored>): (Mem, Option<Evidence>) {
    if c.cp.size == 0 && c.cp.root != EmptyRoot then (m, None)
    else if prev.Some? && c.cp.size < prev.value.size then
      var r := Refused(m, c, Rollback, prev.value, None);
      (r.0, Some(r.1))
    else if prev.Some? && c.cp.size == prev.value.size && c.cp.root != prev.value.root then
      var other := Pend(prev.value.root, Some(prev.value.note));
      (Flush(WriteProof(m, c, other)), Some(PairEvidence(c, other)))
    else if c.cp.size > StoredSize(prev) then NoteFuture(m, c)
    else (m, None)
  }

  /** A proof line after base64 decoding: 32 bytes, or something else. */
  datatype ProofLine = Hash(digest: Root) | BadLine

  predicate AllHashes(proof: seq<ProofLine>) {
    forall i :: 0 <= i < |proof| ==> proof[i].Hash?
  }

  function Digests(proof: seq<ProofLine>): seq<Root>
    requires AllHashes(proof)
  {
    seq(|proof|, i requires 0 <= i < |proof| => proof[i].digest)
  }

  /** verify_consistency_b64. */
  predicate ProofAccepted(oldSize: nat, oldRoot: Root, newSize: nat, newRoot: Root, proof: seq<ProofLine>) {
    AllHashes(proof) &&
    if oldSize == newSize then oldRoot == newRoot && proof == []
    else 0 < oldSize < newSize && ConsistencyAccepted(oldSize, newSize, Digests(proof), oldRoot, newRoot)
  }

  datatype Decision =
    | BadOldSize | WrongOldSize | BadEmptyRoot | IsRollback | Equivocation | ProofNotPossible | Unproven | Cosign

  /** The gates in the order of the source; the decision does not depend on the pending roots or the rings. */
  function Decide(cp: Checkpoint, prev: Option<Stored>, proof: seq<ProofLine>, oldSize: Option<int>): (d: Decision)
    ensures d.Unproven? ==> prev.Some?
  {
    if oldSize.Some? && (oldSize.value < 0 || oldSize.value > cp.size) then BadOldSize
    else if oldSize.Some? && oldSize.value != StoredSize(prev) then WrongOldSize
    else if cp.size == 0 && cp.root != EmptyRoot then BadEmptyRoot
    else if prev.None? then (if proof != [] then ProofNotPossible else Cosign)
    else if cp.size < prev.value.size then IsRollback
    else if cp.size == prev.value.size && cp.root != prev.value.root then Equivocation
    else if prev.value.size == 0 || cp.size == prev.value.size then (if proof != [] then ProofNotPossible else Cosign)
    else if !ProofAccepted(prev.value.size, prev.value.root, cp.size, cp.root, proof) then Unproven
    else Cosign
  }

  function HttpStatus(d: Decision): nat {
    match d
    case BadOldSize => 400
    case WrongOldSize => 409
    case IsRollback => 400
    case Cosign => 200
    case _ => 422
  }

  /** The witness's own keys: Ed25519 cosigner, and optionally ML-DSA-44. */
  datatype Signer = Signer(name: string, kid: nat, pub: nat, pq: Option<(nat, nat)>)

  /** The cosignature lines of a checkpoint text at a time. */
  function OwnLines(w: Signer, cp: Checkpoint, extensions: seq<string>, ts: nat): seq<SigLine> {
    var base := 3 + 1 + Utf8Length(w.name) + 1 + 1;
    [SigLine(w.name, w.kid, Cosig(ts, w.pub, CheckpointText(cp, extensions)), base + 104)]
    + if w.pq.Some? then [SigLine(w.name, w.pq.value.0, PqCosig(ts, w.pq.value.1, w.name, cp), base + 3244)] else []
  }

  datatype Answer =
    | Error
    | Declined(status: nat, evidence: Option<Evidence>, storedSize: nat)
    | Cosigned200(note: Note, lines: seq<SigLine>, evidence: Option<Evidence>, storedSize: nat)

  datatype Outcome = Outcome(memory: State, disk: Disk, answer: Answer)

  /** A request as it reaches _cosign_locked; `clock` is the host clock, `lineBytes` the length of the history line. */
  datatype Locked = Locked(
    cp: Checkpoint, extensions: seq<string>, trustedLines: seq<SigLine>, kept: seq<SigLine>,
    proof: seq<ProofLine>, oldSize: Option<int>, timestamp: Option<int>, clock: Clock, lineBytes: nat)

  function CtxOf(q: Locked): Ctx {
    Ctx(q.cp, Note(CheckpointText(q.cp, q.extensions), q.trustedLines), q.kept,
        if q.timestamp.Some? then q.timestamp.value else q.clock)
  }

  predicate BadTimestamp(q: Locked, prev: Option<Stored>) {
    q.timestamp.Some? &&
    ((prev.Some? && q.timestamp.value < prev.value.cosignedAt) || !(1 <= q.timestamp.value <= MAX_TIMESTAMP))
  }

  /** About to cosign: pair with a root still pending at this very size, unless this request already paired. */
  function PairAtCosign(m: Mem, c: Ctx, ev: Option<Evidence>): Mem {
    var other := if ev.None? then FirstOther(PendingAt(m.st, c.cp.origin, c.cp.size), c.cp.root) else None;
    if other.Some? then WriteProof(m, c, other.value) else m
  }

  function DropPendingAt(st: State, origin: string, size: nat): State {
    if origin in st.pending then st.(pending := st.pending[origin := st.pending[origin] - {size}]) else st
  }

  /** What cosigning writes: a history line for a new checkpoint, the new stored checkpoint, one save. */
  function CosignExit(m: Mem, w: Signer, q: Locked, prev: Option<Stored>): Mem
    requires 1 <= CtxOf(q).recorded
  {
    var ts: nat := CtxOf(q).recorded;
    var own := OwnLines(w, q.cp, q.extensions, ts);
    var stored := Note(CheckpointText(q.cp, q.extensions), q.trustedLines + own);
    var isNew := prev.None? || prev.value.root != q.cp.root || prev.value.size != q.cp.size;
    var line := Cosigned(q.cp.origin, q.cp.size, q.cp.root, stored, ts, q.lineBytes);
    var history := if isNew then m.disk.history + [line] else m.disk.history;
    var st0 := DropPendingAt(m.st, q.cp.origin, q.cp.size);
    var st1 := st0.(origins := st0.origins[q.cp.origin := Stored(q.cp.size, q.cp.root, stored, ts)]);
    Mem(st1, false, m.disk.(state := st1, history := history, saves := m.disk.saves + 1))
  }

  /** The cosigning exit: pairing, then the writes. */
  function DoCosign(m: Mem, w: Signer, q: Locked, prev: Option<Stored>, ev: Option<Evidence>): (Mem, Answer)
    requires 1 <= CtxOf(q).recorded
  {
    var c := CtxOf(q);
    var own := OwnLines(w, q.cp, q.extensions, c.recorded);
    (CosignExit(PairAtCosign(m, c, ev), w, q, prev),
     Cosigned200(Note(CheckpointText(q.cp, q.extensions), q.kept + own), own, ev, StoredSize(prev)))
  }

  /** _cosign_locked. */
  function CosignLocked(disk: Disk, w: Signer, q: Locked): Outcome
  {
    var st := disk.state;
    var prev := PrevOf(st, q.cp.origin);
    if BadTimestamp(q, prev) then Outcome(st, disk, Error)
    else
      var c := CtxOf(q);
      var (m, ev) := PreGate(Mem(st, false, disk), c, prev);
      var d := Decide(q.cp, prev, q.proof, q.oldSize);
      if d.Cosign? then
        var (m1, a) := DoCosign(m, w, q, prev, ev);
        Outcome(m1.st, m1.disk, a)
      else if d.Unproven? then
        var r := Refused(m, c, UnprovenExtension, prev.value, ev);
        Outcome(r.0.st, r.0.disk, Declined(HttpStatus(d), Some(r.1), StoredSize(prev)))
      else
        var m1 := Flush(m);
        Outcome(m1.st, m1.disk, Declined(HttpStatus(d), ev, StoredSize(prev)))
  }
}
