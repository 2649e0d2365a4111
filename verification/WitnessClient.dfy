/**
 The submitting side of the protocol: submit_checkpoint's two requests to one witness, and what it
 does with the cosignature lines that come back.
 */
module WitnessClient {
  import opened MerkleTree
  import opened MerkleLevels
  import opened Notes
  import opened WitnessSpec
  import opened WitnessRequests
  import opened WitnessEvidence
  import opened WitnessRuns
  import opened WitnessLiveness
  import opened WitnessService
  import opened Quorum

  // ---------------------------------------------------------------- merging the answer into the note

  type KeyIds = set<(string, nat)>

  function IdsOf(keys: seq<VKey>): KeyIds {
    set k | k in keys :: (k.name, k.kid)
  }

  function LineIds(lines: seq<SigLine>): KeyIds {
    set line | line in lines :: (line.name, line.kid)
  }

  /** The lines whose key is in `ids`, or those whose key is not. */
  function Select(lines: seq<SigLine>, ids: KeyIds, inside: bool): seq<SigLine> {
    if lines == [] then []
    else (if ((lines[0].name, lines[0].kid) in ids) == inside then [lines[0]] else []) + Select(lines[1..], ids, inside)
  }

  /** The note with the trusted lines of the answer, each replacing older lines of its key; None when there are none. */
  function Merged(note: Note, answer: seq<SigLine>, witnessKeys: seq<VKey>): Option<Note> {
    var answered := Select(answer, IdsOf(witnessKeys), true);
    if answered == [] then None else Some(Note(note.text, Select(note.sigs, LineIds(answered), false) + answered))
  }

  lemma {:induction false} SelectAll(lines: seq<SigLine>, ids: KeyIds)
    requires LineIds(lines) <= ids
    ensures Select(lines, ids, true) == lines
  {
    if lines != [] {
      assert (lines[0].name, lines[0].kid) in LineIds(lines);
      assert LineIds(lines[1..]) <= LineIds(lines);
      SelectAll(lines[1..], ids);
    }
  }

  lemma {:induction false} SelectOutIsKept(lines: seq<SigLine>, ids: KeyIds, w: Signer)
    requires forall line: SigLine :: (line.name, line.kid) in ids <==> OwnLine(w, line)
    ensures Select(lines, ids, false) == KeptLines(lines, w)
  {
    if lines != [] {
      SelectOutIsKept(lines[1..], ids, w);
      assert (lines[0].name, lines[0].kid) in ids <==> OwnLine(w, lines[0]);
    }
  }

  lemma OwnIds(w: Signer, cp: Checkpoint, extensions: seq<string>, ts: nat)
    ensures var own := OwnLines(w, cp, extensions, ts);
            && own != [] && LineIds(own) <= IdsOf(WitnessKeys(w))
            && forall line: SigLine :: (line.name, line.kid) in LineIds(own) <==> OwnLine(w, line)
  {
    var own := OwnLines(w, cp, extensions, ts);
    assert own[0] in own && WitnessKeys(w)[0] in WitnessKeys(w);
    if w.pq.Some? {
      assert own[1] in own && WitnessKeys(w)[1] in WitnessKeys(w);
    }
  }

  /** The client's merge of a witness's own lines is the note the witness itself built. */
  lemma MergedIsCosigned(w: Signer, note: Note, cp: Checkpoint, extensions: seq<string>, ts: nat)
    ensures var own := OwnLines(w, cp, extensions, ts);
            Merged(note, own, WitnessKeys(w)) == Some(Note(note.text, KeptLines(note.sigs, w) + own))
  {
    hide OwnLines, WitnessKeys;
    var own := OwnLines(w, cp, extensions, ts);
    OwnIds(w, cp, extensions, ts);
    SelectAll(own, IdsOf(WitnessKeys(w)));
    SelectOutIsKept(note.sigs, LineIds(own), w);
  }

  // ---------------------------------------------------------------- submission

  /** The witness holds nothing for this origin, or the tree head of a prefix of these leaves. */
  ghost predicate Extensible(disk: Disk, origin: string, leaves: seq<LeafData>) {
    origin in disk.state.origins ==> Honest(leaves, disk.state.origins[origin].size, disk.state.origins[origin].root)
  }

  /** An honest submission: the log-signed checkpoint of at most 2^62 leaves that extend what the witness stored. */
  ghost predicate HonestSubmission(disk: Disk, w: Signer, logs: Logs, note: Note, leaves: seq<LeafData>,
      clock: Clock, lineBytes: nat) {
    && EmptyHeadsOk(disk.state) && |leaves| <= Pow2(62)
    && note.text.CheckpointText? && note.text.cp.origin in logs
    && note.text.cp.size == |leaves| && note.text.cp.root == Mth(leaves)
    && Front(w, logs[note.text.cp.origin], note.text.cp.origin, Discovery(note, clock, lineBytes)).Go?
    && Extensible(disk, note.text.cp.origin, leaves)
  }

  /** The client knows the log by its keys, and the witness by its own. */
  ghost predicate PolicyFits(w: Signer, logs: Logs, note: Note, p: Policy) {
    && note.text.CheckpointText? && note.text.cp.origin in logs
    && p == PolicyOf(w, logs[note.text.cp.origin], note.text.cp.origin) && !BadPolicySpec(p)
  }

  datatype Submission = NotCosigned(answer: Answer) | UnreadableAnswer | NoTrustedLine | NotVerified
      | Submitted(note: Note)

  /** Discovery with old size 0; on a 409, once more with the size the witness answered and the proof from that size. */
  method Ask(w: Witness, note: Note, leaves: seq<LeafData>, clock: Clock, lineBytes: nat) returns (a: Answer)
    modifies w
    ensures HonestSubmission(old(w.Files()), w.signer, w.logs, note, leaves, clock, lineBytes) ==> a.Cosigned200?
    ensures a.Cosigned200? ==> exists d, r :: a == Handle(d, w.signer, w.logs, r).answer && r.note == note
  {
    hide Handle, Front, Mth, Pow2;
    ghost var d, r := w.Files(), Discovery(note, clock, lineBytes);
    a := w.AddCheckpoint(Discovery(note, clock, lineBytes), true);
    if HonestSubmission(old(w.Files()), w.signer, w.logs, note, leaves, clock, lineBytes) {
      HonestSubmissionSucceeds(old(w.Files()), w.signer, w.logs, note, leaves, clock, lineBytes);
    }
    assert a == Handle(d, w.signer, w.logs, r).answer;
    if a.Declined? && a.status == 409 {
      var stored := a.storedSize;
      if !(0 < stored <= |leaves|) {
        return Error;
      }
      d, r := w.Files(), WithProof(note, leaves, stored, clock, lineBytes);
      a := w.AddCheckpoint(WithProof(note, leaves, stored, clock, lineBytes), true);
      assert a == Handle(d, w.signer, w.logs, r).answer;
    }
  }

  /** What comes back from a witness merges into a note that the relying party's check accepts. */
  lemma {:induction false} AnswerMergesAndVerifies(d: Disk, w: Signer, logs: Logs, r: Request, p: Policy)
    requires Handle(d, w, logs, r).answer.Cosigned200? && PolicyFits(w, logs, r.note, p)
    ensures var a := Handle(d, w, logs, r).answer;
            && |a.lines| == OwnLineCount(w)
            && Merged(r.note, a.lines, WitnessKeys(w)) == Some(a.note) && WitnessedSpec(a.note, p).Accepted?
  {
    hide CosignLocked, BadPolicySpec, WitnessedSpec, Merged, WitnessKeys, OwnLines, KeptLines;
    CosignedNoteIsWitnessed(d, w, logs, r);
    var o := r.note.text.cp.origin;
    var q := Front(w, logs[o], o, r).locked;
    LockedMovesHead(d, w, q);
    CosignedInTime(d, w, q);
    OwnLinesCount(w, q);
    MergedIsCosigned(w, r.note, q.cp, q.extensions, CtxOf(q).recorded);
  }

  /**
   submit_checkpoint.  Whatever the witness answers, only a note that verify_witnessed accepts is
   returned; and an honest submission always ends with one, in at most two requests, exactly when the
   note and the answer together stay within 100 signature lines.
   */
  method Submit(w: Witness, note: Note, leaves: seq<LeafData>, p: Policy, clock: Clock, lineBytes: nat)
      returns (r: Submission)
    modifies w
    ensures r.Submitted? ==> WitnessedSpec(r.note, p).Accepted? && r.note.text == note.text
    ensures HonestSubmission(old(w.Files()), w.signer, w.logs, note, leaves, clock, lineBytes)
            && PolicyFits(w.signer, w.logs, note, p) ==>
              (r.Submitted? <==> |note.sigs| + OwnLineCount(w.signer) <= MAX_SIGS)
  {
    hide Handle, HonestSubmission, WitnessedSpec, Merged, BadPolicySpec, WitnessKeys;
    var a := Ask(w, note, leaves, clock, lineBytes);
    if !a.Cosigned200? {
      return NotCosigned(a);
    }
    ghost var fits := PolicyFits(w.signer, w.logs, note, p);
    if fits {
      ghost var d, q :| a == Handle(d, w.signer, w.logs, q).answer && q.note == note;
      AnswerMergesAndVerifies(d, w.signer, w.logs, q, p);
    }
    if |note.sigs| + |a.lines| > MAX_SIGS {
      return UnreadableAnswer;               // split_note refuses note and answer together
    }
    var merged := Merged(note, a.lines, p.witnessKeys);
    if merged.None? {
      return NoTrustedLine;
    }
    MergedText(note, a.lines, p.witnessKeys);
    var v := VerifyWitnessed(merged.value, p, ALL_LIBRARIES);
    MissingLibraryWithholds(merged.value, p.logKeys + Usable(p.witnessKeys), ALL_LIBRARIES);
    r := if v.Accepted? then Submitted(merged.value) else NotVerified;
  }

  lemma MergedText(note: Note, answer: seq<SigLine>, witnessKeys: seq<VKey>)
    ensures Merged(note, answer, witnessKeys).Some? ==> Merged(note, answer, witnessKeys).value.text == note.text
  {
  }

  /**
   The line limit is reached in practice: a witness accepts a note of 100 lines when one of them is its
   own old line, which it replaces, but the client cannot read that note and the answer together.
   */
  lemma CrowdedNote(w: Signer, keys: seq<VKey>, origin: string, r: Request, own: SigLine)
    requires Front(w, keys, origin, r).Go? && KeyFor(keys, w.name, w.kid).None?
    requires |r.note.sigs| == MAX_SIGS - OwnLineCount(w) && own.name == w.name && own.kid == w.kid
    ensures var crowded := Note(r.note.text, r.note.sigs + [own]);
            Front(w, keys, origin, r.(note := crowded)).Go? && |crowded.sigs| + OwnLineCount(w) > MAX_SIGS
  {
    hide LineVerifies, KeyFor, Ambiguous;
    var crowded := Note(r.note.text, r.note.sigs + [own]);
    ValidExactly(r.note, keys);
    ValidExactly(crowded, keys);
    var line :| line in r.note.sigs && KeyFor(keys, line.name, line.kid).Some?;
    assert line in crowded.sigs;
    KeptOfOwn(r.note.sigs, w, own);
  }

  lemma {:induction false} KeptOfOwn(sigs: seq<SigLine>, w: Signer, own: SigLine)
    requires OwnLine(w, own)
    ensures KeptLines(sigs + [own], w) == KeptLines(sigs, w)
  {
    if sigs == [] {
      assert [own][1..] == [] && sigs + [own] == [own];
    } else {
      assert (sigs + [own])[1..] == sigs[1..] + [own];
      KeptOfOwn(sigs[1..], w, own);
    }
  }
}
