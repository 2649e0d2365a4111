/**
 The checks of witness_cosign before the lock, and whole requests: what a trusted-log table, a
 note, a proof and an old size turn into.
 */
module WitnessRequests {
  import opened MerkleTree
  import opened Notes
  import opened WitnessSpec

  /** A request: the note presented, the consistency proof, the stated old size. */
  datatype Request = Request(
    note: Note, proof: seq<ProofLine>, oldSize: Option<int>, timestamp: Option<int>, clock: Clock, lineBytes: nat)

  datatype FrontResult = Stop(status: nat) | FrontError | Go(locked: Locked)

  predicate Trusted(keys: seq<VKey>, line: SigLine) {
    exists i :: 0 <= i < |keys| && keys[i].name == line.name && keys[i].kid == line.kid
  }

  /** The lines of trusted log keys, each once, in order. */
  function TrustedLines(sigs: seq<SigLine>, keys: seq<VKey>, taken: seq<SigLine>): seq<SigLine>
    decreases |sigs|
  {
    if sigs == [] then taken
    else if Trusted(keys, sigs[0]) && sigs[0] !in taken then TrustedLines(sigs[1..], keys, taken + [sigs[0]])
    else TrustedLines(sigs[1..], keys, taken)
  }

  predicate OwnLine(w: Signer, line: SigLine) {
    line.name == w.name && (line.kid == w.kid || (w.pq.Some? && line.kid == w.pq.value.0))
  }

  /** The lines that are not this witness's own. */
  function KeptLines(sigs: seq<SigLine>, w: Signer): seq<SigLine> {
    if sigs == [] then []
    else (if OwnLine(w, sigs[0]) then [] else [sigs[0]]) + KeptLines(sigs[1..], w)
  }

  lemma {:induction false} KeptLinesExact(sigs: seq<SigLine>, w: Signer, line: SigLine)
    ensures line in KeptLines(sigs, w) <==> line in sigs && !OwnLine(w, line)
  {
    if sigs != [] {
      KeptLinesExact(sigs[1..], w, line);
    }
  }

  function OwnLineCount(w: Signer): nat {
    if w.pq.Some? then 2 else 1
  }

  /** The checks in the order of the source, for the keys trusted for `origin`. */
  ghost function Front(w: Signer, keys: seq<VKey>, origin: string, r: Request): FrontResult {
    if keys == [] || (exists i :: 0 <= i < |keys| && !IsLogType(keys[i].typ)) then FrontError
    else
      match VerifyNoteSpec(r.note, keys)
      case Raised => FrontError
      case NotValid => Stop(403)
      case Valid(verified) =>
        if !r.note.text.CheckpointText? then Stop(400)
        else if r.note.text.cp.origin != origin then Stop(400)
        else if |r.proof| > MAX_PROOF then Stop(400)
        else if w.pq.Some? && Utf8Length(origin) > 255 then Stop(400)
        else if |KeptLines(r.note.sigs, w)| + OwnLineCount(w) > MAX_SIGS then Stop(400)
        else Go(Locked(r.note.text.cp, r.note.text.extensions,
                       TrustedLines(r.note.sigs, keys, []), KeptLines(r.note.sigs, w),
                       r.proof, r.oldSize, r.timestamp, r.clock, r.lineBytes))
  }

  type Logs = map<string, seq<VKey>>

  /** The first line of a note text: what add_checkpoint looks the log up by. */
  function FirstLine(t: Text): string {
    if t.CheckpointText? then t.cp.origin else UpToNewline(t.chars)
  }

  function UpToNewline(s: string): string {
    if s == [] || s[0] == '\n' then [] else [s[0]] + UpToNewline(s[1..])
  }

  /** One request to the service: 404 for an unknown origin, no effect for a stopped one. */
  ghost function Handle(disk: Disk, w: Signer, logs: Logs, r: Request): Outcome
  {
    var origin := FirstLine(r.note.text);
    if origin !in logs then Outcome(disk.state, disk, Declined(404, None, 0))
    else
      match Front(w, logs[origin], origin, r)
      case Stop(status) => Outcome(disk.state, disk, Declined(status, None, 0))
      case FrontError => Outcome(disk.state, disk, Error)
      case Go(q) => CosignLocked(disk, w, q)
  }

  // ---------------------------------------------------------------- what passing the checks means

  /** A note of a checkpoint that carries a verifying signature of a key trusted for its origin. */
  ghost predicate TrueNote(logs: Logs, note: Note, cp: Checkpoint) {
    note.text.CheckpointText? && note.text.cp == cp && cp.origin in logs && LogSigned(note, logs[cp.origin])
  }

  lemma {:induction false} TrustedLinesKeep(sigs: seq<SigLine>, keys: seq<VKey>, taken: seq<SigLine>, line: SigLine)
    requires line in taken || (line in sigs && Trusted(keys, line))
    ensures line in TrustedLines(sigs, keys, taken)
    decreases |sigs|
  {
    if sigs != [] {
      if Trusted(keys, sigs[0]) && sigs[0] !in taken {
        TrustedLinesKeep(sigs[1..], keys, taken + [sigs[0]], line);
      } else {
        TrustedLinesKeep(sigs[1..], keys, taken, line);
      }
    }
  }

  /** Only log-signed checkpoints of the trusted origin get past the checks, and the kept note proves it. */
  lemma {:induction false} FrontGoIsSigned(w: Signer, logs: Logs, origin: string, r: Request)
    requires origin in logs && Front(w, logs[origin], origin, r).Go?
    ensures var q := Front(w, logs[origin], origin, r).locked;
            q.cp.origin == origin && q.clock == r.clock && TrueNote(logs, CtxOf(q).presented, q.cp)
            && TrueNote(logs, r.note, q.cp)
  {
    var keys := logs[origin];
    var verified := VerifyNoteSpec(r.note, keys).verified;
    var line, key := VerifiedComesFromALine(r.note.text, r.note.sigs, keys, {}, verified[0]);
    var i :| 0 <= i < |keys| && keys[i] == key;
    assert Trusted(keys, line);
    TrustedLinesKeep(r.note.sigs, keys, [], line);
    var q := Front(w, keys, origin, r).locked;
    assert line in CtxOf(q).presented.sigs;
  }
}
