/**
 The relying party's check (verify_witnessed) and what a quorum of witnesses gives: no two accepted
 checkpoints of one origin can disagree.
 */
module Quorum {
  import opened MerkleTree
  import opened Notes
  import opened WitnessSpec
  import opened WitnessRequests
  import opened WitnessRuns

  // ---------------------------------------------------------------- verify_witnessed

  datatype Policy = Policy(
    logKeys: seq<VKey>, witnessKeys: seq<VKey>, minWitnesses: int,
    maxAge: Option<int>, now: int, clockSkew: int, expectedOrigin: Option<string>)

  datatype Witnessed = BadPolicy | NotCheckable | Refused | Accepted(cp: Checkpoint, witnesses: set<string>)

  function Names(keys: seq<VKey>): set<string> {
    set k | k in keys :: k.name
  }

  /** Cosigner keys of types that can be verified; other types are ignored. */
  function Usable(keys: seq<VKey>): (r: seq<VKey>)
    ensures forall k :: k in r <==> k in keys && IsCosignerType(k.typ)
  {
    if keys == [] then []
    else (if IsCosignerType(keys[0].typ) then [keys[0]] else []) + Usable(keys[1..])
  }

  /** The policies that raise an error before the note is looked at. */
  ghost predicate BadPolicySpec(p: Policy) {
    || p.minWitnesses < 1 || p.clockSkew < 0 || p.logKeys == []
    || (exists k :: k in p.logKeys && !IsLogType(k.typ))
    || (exists k :: k in p.witnessKeys && IsLogType(k.typ))
    || (p.expectedOrigin.None? && |Names(p.logKeys)| != 1)
    || Ambiguous(p.logKeys + Usable(p.witnessKeys))
  }

  /** The witness names among the verified lines: two keys of one name are one witness. */
  function WitnessNames(vs: seq<Verified>): set<string> {
    set v | v in vs && IsCosignerType(v.typ) :: v.name
  }

  /** The newest verified cosignature of a witness. */
  function Newest(vs: seq<Verified>, name: string): nat {
    if vs == [] then 0
    else
      var rest := Newest(vs[1..], name);
      if IsCosignerType(vs[0].typ) && vs[0].name == name && vs[0].timestamp > rest then vs[0].timestamp else rest
  }

  predicate Fresh(p: Policy, timestamp: nat)
    requires p.maxAge.Some?
  {
    timestamp <= p.now + p.clockSkew && p.now - timestamp <= p.maxAge.value
  }

  function FreshNames(p: Policy, vs: seq<Verified>): set<string> {
    if p.maxAge.None? then WitnessNames(vs)
    else set n | n in WitnessNames(vs) && Fresh(p, Newest(vs, n))
  }

  ghost predicate OriginMatches(p: Policy, origin: string) {
    if p.expectedOrigin.Some? then origin == p.expectedOrigin.value else Names(p.logKeys) == {origin}
  }

  /** The whole check, where every signature can be checked. */
  ghost function WitnessedSpec(note: Note, p: Policy): Witnessed {
    if BadPolicySpec(p) then BadPolicy
    else
      var v := VerifyNoteSpec(note, p.logKeys + Usable(p.witnessKeys));
      if !v.Valid? then Refused
      else if !(exists s :: s in v.verified && s.name in Names(p.logKeys) && IsLogType(s.typ)) then Refused
      else if !note.text.CheckpointText? || !OriginMatches(p, note.text.cp.origin) then Refused
      else if |WitnessNames(v.verified)| < p.minWitnesses || |FreshNames(p, v.verified)| < p.minWitnesses then Refused
      else Accepted(note.text.cp, WitnessNames(v.verified))
  }

  /** The same where libraries may be missing: the verdict is then withheld, never changed. */
  ghost function WitnessedHere(note: Note, p: Policy, libs: Libraries): Witnessed {
    if !BadPolicySpec(p) && VerifyNoteHere(note, p.logKeys + Usable(p.witnessKeys), libs).NotVerifiable?
    then NotCheckable
    else WitnessedSpec(note, p)
  }

  lemma {:induction false} NewestAppend(vs: seq<Verified>, v: Verified, name: string)
    ensures Newest(vs + [v], name) ==
            if IsCosignerType(v.typ) && v.name == name && v.timestamp > Newest(vs, name)
            then v.timestamp else Newest(vs, name)
    decreases |vs|
  {
    if vs == [] {
      assert [v][1..] == [];
      assert vs + [v] == [v];
    } else {
      assert (vs + [v])[1..] == vs[1..] + [v];
      NewestAppend(vs[1..], v, name);
    }
  }

  lemma SingleName(names: set<string>, n: string)
    requires |names| == 1 && n in names
    ensures names == {n}
  {
    assert |names - {n}| == 0;
    assert names == {n} + (names - {n});
  }

  /** The loop over the verified lines that keeps the newest timestamp per witness. */
  method NewestPerWitness(vs: seq<Verified>) returns (wits: map<string, nat>)
    ensures wits.Keys == WitnessNames(vs)
    ensures forall n :: n in wits ==> wits[n] == Newest(vs, n)
  {
    hide Newest, WitnessNames;
    NoWitnessYet();
    assert vs[..0] == [];
    wits := map[];
    for i := 0 to |vs|
      invariant wits.Keys == WitnessNames(vs[..i])
      invariant forall n :: n in wits ==> wits[n] == Newest(vs[..i], n)
      invariant forall n :: n !in wits ==> Newest(vs[..i], n) == 0
    {
      var s := vs[i];
      assert vs[..i + 1] == vs[..i] + [s];
      forall n ensures Newest(vs[..i + 1], n) ==
                       if IsCosignerType(s.typ) && s.name == n && s.timestamp > Newest(vs[..i], n)
                       then s.timestamp else Newest(vs[..i], n)
      {
        NewestAppend(vs[..i], s, n);
      }
      WitnessNamesAppend(vs[..i], s);
      if IsCosignerType(s.typ) {
        var before := if s.name in wits then wits[s.name] else 0;
        wits := wits[s.name := if before > s.timestamp then before else s.timestamp];
      }
    }
    assert vs[..|vs|] == vs;
  }

  lemma NoWitnessYet()
    ensures WitnessNames([]) == {} && forall n :: Newest([], n) == 0
  {
  }

  lemma WitnessNamesAppend(vs: seq<Verified>, v: Verified)
    ensures WitnessNames(vs + [v]) == WitnessNames(vs) + (if IsCosignerType(v.typ) then {v.name} else {})
  {
  }

  /** verify_witnessed. */
  method VerifyWitnessed(note: Note, p: Policy, libs: Libraries) returns (r: Witnessed)
    ensures r == WitnessedHere(note, p, libs)
  {
    hide VerifyLines, Newest, Usable, VerifyNoteHere;
    if p.minWitnesses < 1 || p.clockSkew < 0 || p.logKeys == [] {
      return BadPolicy;
    }
    if (exists k :: k in p.logKeys && !IsLogType(k.typ)) || (exists k :: k in p.witnessKeys && IsLogType(k.typ)) {
      return BadPolicy;
    }
    var logNames := Names(p.logKeys);
    if p.expectedOrigin.None? && |logNames| != 1 {
      return BadPolicy;
    }
    var v := VerifyNote(note, p.logKeys + Usable(p.witnessKeys), libs);
    MissingLibraryWithholds(note, p.logKeys + Usable(p.witnessKeys), libs);
    RaisedMeansAmbiguous(note, p.logKeys + Usable(p.witnessKeys), libs);
    if v.Raised? {
      return BadPolicy;
    }
    if v.NotVerifiable? {
      return NotCheckable;
    }
    if v.NotValid? || !(exists s :: s in v.verified && s.name in logNames && IsLogType(s.typ))
        || !note.text.CheckpointText? {
      return Refused;
    }
    var origin := note.text.cp.origin;
    if p.expectedOrigin.Some? {
      if origin != p.expectedOrigin.value {
        return Refused;
      }
    } else {
      if origin !in logNames {
        return Refused;
      }
      SingleName(logNames, origin);
    }
    var wits := NewestPerWitness(v.verified);
    if |wits| < p.minWitnesses {
      return Refused;
    }
    if p.maxAge.Some? {
      var young := set n | n in wits.Keys && Fresh(p, wits[n]);
      assert young == FreshNames(p, v.verified);
      if |young| < p.minWitnesses {
        return Refused;
      }
    }
    r := Accepted(note.text.cp, wits.Keys);
  }

  lemma RaisedMeansAmbiguous(note: Note, keys: seq<VKey>, libs: Libraries)
    ensures VerifyNoteHere(note, keys, libs).Raised? <==> Ambiguous(keys)
  {
    hide VerifyLines, Ambiguous;
  }

  // ---------------------------------------------------------------- what freshness means

  /** The newest timestamp is that of a verified line, and no verified line of the witness is newer. */
  lemma {:induction false} NewestIsOne(vs: seq<Verified>, name: string) returns (v: Verified)
    requires name in WitnessNames(vs)
    ensures v in vs && IsCosignerType(v.typ) && v.name == name && v.timestamp == Newest(vs, name)
    ensures forall u :: u in vs && IsCosignerType(u.typ) && u.name == name ==> u.timestamp <= v.timestamp
  {
    var first, rest := vs[0], vs[1..];
    if name in WitnessNames(rest) {
      v := NewestIsOne(rest, name);
      if IsCosignerType(first.typ) && first.name == name && first.timestamp > v.timestamp {
        v := first;
      }
    } else {
      NewestOfNone(rest, name);
      v := first;
    }
    assert forall u :: u in vs ==> u == first || u in rest;
  }

  lemma {:induction false} NewestOfNone(vs: seq<Verified>, name: string)
    requires name !in WitnessNames(vs)
    ensures Newest(vs, name) == 0
  {
    if vs != [] {
      assert WitnessNames(vs[1..]) <= WitnessNames(vs);
      NewestOfNone(vs[1..], name);
    }
  }

  function TimestampOf(sig: Signature): nat {
    match sig
    case Cosig(t, _, _) => t
    case PqCosig(t, _, _, _) => t
    case _ => 0
  }

  /**
   With an age limit, acceptance means that enough distinct witnesses have a verifying cosignature line
   on this very note whose timestamp is neither too old nor too far ahead.
   */
  lemma {:induction false} FreshWitnessSigned(note: Note, p: Policy, name: string) returns (line: SigLine, key: VKey)
    requires WitnessedSpec(note, p).Accepted? && p.maxAge.Some?
    requires name in FreshNames(p, VerifyNoteSpec(note, p.logKeys + Usable(p.witnessKeys)).verified)
    ensures |FreshNames(p, VerifyNoteSpec(note, p.logKeys + Usable(p.witnessKeys)).verified)| >= p.minWitnesses
    ensures line in note.sigs && key in p.witnessKeys && key.name == name && LineVerifies(key, note.text, line)
    ensures p.now - p.maxAge.value <= TimestampOf(line.sig) <= p.now + p.clockSkew
  {
    hide Ambiguous;
    var keys := p.logKeys + Usable(p.witnessKeys);
    var vs := VerifyNoteSpec(note, keys).verified;
    var v := NewestIsOne(vs, name);
    line, key := VerifiedComesFromALine(note.text, note.sigs, keys, {}, v);
  }

  // ---------------------------------------------------------------- what a witness returns is accepted

  /** The cosigner keys of a witness, as a relying party lists them. */
  function WitnessKeys(w: Signer): seq<VKey> {
    [VKey(w.name, w.kid, CosignatureV1, w.pub)]
    + if w.pq.Some? then [VKey(w.name, w.pq.value.0, MlDsa44, w.pq.value.1)] else []
  }

  lemma UsableWitnessKeys(w: Signer)
    ensures Usable(WitnessKeys(w)) == WitnessKeys(w)
  {
    var ks := WitnessKeys(w);
    assert ks[1..] == if w.pq.Some? then [VKey(w.name, w.pq.value.0, MlDsa44, w.pq.value.1)] else [];
    assert Usable([]) == [];
    if w.pq.Some? {
      assert ks[1..][1..] == [];
      assert Usable(ks[1..]) == ks[1..];
    }
  }

  /** A key of the witness shares its name and id with no log key, and its two keys differ in id. */
  lemma OwnKeysAreApart(w: Signer, logKeys: seq<VKey>)
    requires !Ambiguous(logKeys + WitnessKeys(w)) && forall k :: k in logKeys ==> IsLogType(k.typ)
    ensures forall k :: k in logKeys ==> !(k.name == w.name && k.kid == w.kid)
    ensures w.pq.Some? ==> w.pq.value.0 != w.kid && forall k :: k in logKeys ==>
            !(k.name == w.name && k.kid == w.pq.value.0)
  {
    var keys := logKeys + WitnessKeys(w);
    var n := |logKeys|;
    forall i | 0 <= i < n ensures !Clash(logKeys[i], keys[n]) && (w.pq.Some? ==> !Clash(logKeys[i], keys[n + 1])) {
      assert keys[i] == logKeys[i];
    }
    assert w.pq.Some? ==> !Clash(keys[n], keys[n + 1]);
  }

  /** Lines that are not the witness's own are judged as before; its own are judged by its own keys. */
  lemma {:induction false} KeysSideBySide(w: Signer, logKeys: seq<VKey>, line: SigLine)
    requires !Ambiguous(logKeys + WitnessKeys(w)) && forall k :: k in logKeys ==> IsLogType(k.typ)
    ensures var r := KeyFor(logKeys + WitnessKeys(w), line.name, line.kid);
            if OwnLine(w, line) then
              KeyFor(logKeys, line.name, line.kid).None?
              && r == Some(if line.kid == w.kid then WitnessKeys(w)[0] else WitnessKeys(w)[1])
            else r == KeyFor(logKeys, line.name, line.kid)
  {
    hide Ambiguous;
    OwnKeysAreApart(w, logKeys);
    KeyForAppend(logKeys, WitnessKeys(w), line.name, line.kid);
    var ks := WitnessKeys(w);
    assert ks[1..] == if w.pq.Some? then [VKey(w.name, w.pq.value.0, MlDsa44, w.pq.value.1)] else [];
    assert w.pq.Some? ==> ks[1..][1..] == [];
    assert KeyFor(ks, line.name, line.kid) ==
           if line.name == w.name && line.kid == w.kid then Some(ks[0]) else KeyFor(ks[1..], line.name, line.kid);
  }

  lemma OwnLinesVerify(w: Signer, cp: Checkpoint, extensions: seq<string>, ts: nat, line: SigLine)
    requires 1 <= ts <= MAX_TIMESTAMP && line in OwnLines(w, cp, extensions, ts)
    requires w.pq.Some? ==> w.pq.value.0 != w.kid
    ensures OwnLine(w, line)
    ensures var key := if line.kid == w.kid then WitnessKeys(w)[0] else WitnessKeys(w)[1];
            LineVerifies(key, CheckpointText(cp, extensions), line)
  {
  }

  /** The relying party of one witness: this log's keys, the witness's keys, one cosignature required, no age limit. */
  function PolicyOf(w: Signer, logKeys: seq<VKey>, origin: string): Policy {
    Policy(logKeys, WitnessKeys(w), 1, None, 0, 0, Some(origin))
  }

  /** The note with the witness's old lines replaced by new ones verifies with the log's and the witness's keys. */
  lemma {:induction false} ReplacedLinesVerify(w: Signer, logKeys: seq<VKey>, note: Note, ts: nat)
    requires note.text.CheckpointText? && 1 <= ts <= MAX_TIMESTAMP
    requires VerifyNoteSpec(note, logKeys).Valid? && !Ambiguous(logKeys + WitnessKeys(w))
            && forall k :: k in logKeys ==> IsLogType(k.typ)
    ensures var own := OwnLines(w, note.text.cp, note.text.extensions, ts);
            var v := VerifyNoteSpec(Note(note.text, KeptLines(note.sigs, w) + own), logKeys + WitnessKeys(w));
            && v.Valid?
            && (exists s :: s in v.verified && s.name in Names(logKeys) && IsLogType(s.typ))
            && w.name in WitnessNames(v.verified)
  {
    hide Ambiguous, LineVerifies, KeyFor, VerifyLines, OwnLines, OwnLine;
    var keys, text := logKeys + WitnessKeys(w), note.text;
    var own, kept := OwnLines(w, text.cp, text.extensions, ts), KeptLines(note.sigs, w);
    var out := Note(text, kept + own);
    ValidExactly(note, logKeys);
    OwnKeysAreApart(w, logKeys);
    forall line | line in out.sigs ensures LineGood(text, keys, line) {
      KeysSideBySide(w, logKeys, line);
      if line in own {
        OwnLinesVerify(w, text.cp, text.extensions, ts, line);
      } else {
        KeptLinesExact(note.sigs, w, line);
      }
    }
    VerifyLinesExact(text, out.sigs, keys, {});
    var logLine :| logLine in note.sigs && KeyFor(logKeys, logLine.name, logLine.kid).Some?;
    KeysSideBySide(w, logKeys, logLine);
    KeptLinesExact(note.sigs, w, logLine);
    assert logLine in out.sigs;
    var vs := VerifyLines(text, out.sigs, keys, {}).value;
    assert VerifiedOf(KeyFor(logKeys, logLine.name, logLine.kid).value, logLine) in vs;
    var mine := FirstOwnLine(w, text.cp, text.extensions, ts);
    OwnLinesVerify(w, text.cp, text.extensions, ts, mine);
    KeysSideBySide(w, logKeys, mine);
    assert mine in out.sigs;
    assert VerifiedOf(WitnessKeys(w)[0], mine) in vs;
  }

  lemma FirstOwnLine(w: Signer, cp: Checkpoint, extensions: seq<string>, ts: nat) returns (line: SigLine)
    ensures line in OwnLines(w, cp, extensions, ts) && line.name == w.name && line.kid == w.kid
  {
    line := OwnLines(w, cp, extensions, ts)[0];
  }

  /**
   The other half of quorum safety: the note a witness gives back is accepted by verify_witnessed
   with the log's and that witness's keys.  A line of this witness already in the note is replaced.
   */
  lemma {:induction false} CosignedNoteIsWitnessed(disk: Disk, w: Signer, logs: Logs, r: Request)
    requires Handle(disk, w, logs, r).answer.Cosigned200? && r.note.text.CheckpointText?
    requires r.note.text.cp.origin in logs
            && !BadPolicySpec(PolicyOf(w, logs[r.note.text.cp.origin], r.note.text.cp.origin))
    ensures var o := r.note.text.cp.origin;
            var a := Handle(disk, w, logs, r).answer;
            && a.note == Note(r.note.text, KeptLines(r.note.sigs, w) + a.lines) && |a.note.sigs| <= MAX_SIGS
            && WitnessedSpec(a.note, PolicyOf(w, logs[o], o)).Accepted?
            && WitnessedSpec(a.note, PolicyOf(w, logs[o], o)).cp == r.note.text.cp
            && w.name in WitnessedSpec(a.note, PolicyOf(w, logs[o], o)).witnesses
  {
    hide CosignLocked, Ambiguous, KeptLines, OwnLines, LineVerifies;
    var o := r.note.text.cp.origin;
    var p := PolicyOf(w, logs[o], o);
    var q := Front(w, logs[o], o, r).locked;
    LockedMovesHead(disk, w, q);
    CosignedInTime(disk, w, q);
    UsableWitnessKeys(w);
    OwnLinesCount(w, q);
    ReplacedLinesVerify(w, logs[o], r.note, CtxOf(q).recorded);
    var a := Handle(disk, w, logs, r).answer;
    var v := VerifyNoteSpec(a.note, logs[o] + WitnessKeys(w)).verified;
    assert |WitnessNames(v)| >= 1 by {
      assert w.name in WitnessNames(v);
    }
  }

  lemma OwnLinesCount(w: Signer, q: Locked)
    requires CtxOf(q).recorded >= 0
    ensures |OwnLines(w, q.cp, q.extensions, CtxOf(q).recorded)| == OwnLineCount(w)
  {
  }

  lemma CosignedInTime(disk: Disk, w: Signer, q: Locked)
    requires CosignLocked(disk, w, q).answer.Cosigned200?
    ensures 1 <= CtxOf(q).recorded <= MAX_TIMESTAMP
  {
    hide PreGate, Decide, WitnessSpec.Refused;
  }

  // ---------------------------------------------------------------- a system of witnesses

  /** One witness: its keys, the logs it trusts, and every request it has ever served. */
  datatype Member = Member(signer: Signer, logs: Logs, requests: seq<Request>)

  /** The deployment: the witnesses by name, and the names of the dishonest ones. */
  datatype System = System(members: map<string, Member>, dishonest: set<string>)

  /** A cosignature made by one of this witness's own keys. */
  predicate MadeBy(w: Signer, sig: Signature) {
    || (sig.Cosig? && sig.pub == w.pub)
    || (sig.PqCosig? && w.pq.Some? && sig.pub == w.pq.value.1)
  }

  /** The witness issued this signature in answer to one of its requests. */
  ghost predicate Issued(m: Member, sig: Signature) {
    exists i :: 0 <= i < |m.requests| && AnswerAt(m.signer, m.logs, m.requests, i).Cosigned200?
                && (exists line :: line in AnswerAt(m.signer, m.logs, m.requests, i).lines && line.sig == sig)
  }

  /**
   Honest witnesses keep their keys: a signature of theirs on any note around is one they issued.
   The dishonest ones sign anything.
   */
  ghost predicate Unforged(s: System, note: Note) {
    forall n, line :: n in s.members && n !in s.dishonest && line in note.sigs && MadeBy(s.members[n].signer, line.sig)
      ==> Issued(s.members[n], line.sig)
  }

  /** The relying party's witness keys are those of the deployment. */
  ghost predicate KeysOf(s: System, p: Policy) {
    && (forall k :: k in p.witnessKeys && IsCosignerType(k.typ) ==> k.name in s.members)
    && (forall k :: k in p.witnessKeys && IsCosignerType(k.typ) && k.name in s.members && k.name !in s.dishonest ==>
          var w := s.members[k.name].signer;
          w.name == k.name && (k.typ == CosignatureV1 ==> k.pub == w.pub)
          && (k.typ == MlDsa44 ==> w.pq.Some? && k.pub == w.pq.value.1))
  }

  /** Lemma on sets: two large subsets of a small set meet outside any small set. */
  lemma SetsMeet<T>(all: set<T>, a: set<T>, b: set<T>, bad: set<T>) returns (x: T)
    requires a <= all && b <= all && |a| + |b| > |all| + |bad|
    ensures x in a && x in b && x !in bad
  {
    var both := a * b;
    assert |a + b| == |a| + |b| - |both|;
    SubsetSize(a + b, all);
    if both <= bad {
      SubsetSize(both, bad);
    }
    x :| x in both && x !in bad;
  }

  lemma {:induction false} SubsetSize<T>(a: set<T>, b: set<T>)
    requires a <= b
    ensures |a| <= |b|
  {
    assert b == a + (b - a);
  }

  /** An accepted checkpoint was cosigned by every honest witness it counts. */
  lemma {:induction false} CountedWitnessCosigned(s: System, note: Note, p: Policy, name: string) returns (i: nat)
    requires Unforged(s, note) && KeysOf(s, p)
    requires WitnessedSpec(note, p).Accepted? && name in WitnessedSpec(note, p).witnesses
    requires name in s.members && name !in s.dishonest
    ensures var m := s.members[name]; CosignedHead(m.signer, m.logs, m.requests, i, note.text.cp)
  {
    var keys := p.logKeys + Usable(p.witnessKeys);
    var vs := VerifyNoteSpec(note, keys).verified;
    var v :| v in vs && IsCosignerType(v.typ) && v.name == name;
    var line, key := VerifiedComesFromALine(note.text, note.sigs, keys, {}, v);
    assert key in p.witnessKeys;
    var m := s.members[name];
    assert MadeBy(m.signer, line.sig);
    i :| 0 <= i < |m.requests| && AnswerAt(m.signer, m.logs, m.requests, i).Cosigned200?
         && exists l :: l in AnswerAt(m.signer, m.logs, m.requests, i).lines && l.sig == line.sig;
    var l :| l in AnswerAt(m.signer, m.logs, m.requests, i).lines && l.sig == line.sig;
    IssuedLineCosigns(m, i, l, note.text.cp);
  }

  /** A line in a cosigning answer names the checkpoint of the request it answers. */
  lemma {:induction false} IssuedLineCosigns(m: Member, i: nat, line: SigLine, cp: Checkpoint)
    requires i < |m.requests| && AnswerAt(m.signer, m.logs, m.requests, i).Cosigned200?
    requires line in AnswerAt(m.signer, m.logs, m.requests, i).lines
    requires (line.sig.Cosig? && line.sig.text.CheckpointText? && line.sig.text.cp == cp)
            || (line.sig.PqCosig? && line.sig.cp == cp)
    ensures CosignedHead(m.signer, m.logs, m.requests, i, cp)
  {
    hide CosignLocked;
    var disk := DiskAfter(m.signer, m.logs, m.requests[..i]);
    var r := m.requests[i];
    var origin := FirstLine(r.note.text);
    var q := Front(m.signer, m.logs[origin], origin, r).locked;
    LockedMovesHead(disk, m.signer, q);
  }

  /**
   Quorum safety: with M witnesses of which at most f are dishonest, two checkpoints of one origin,
   accepted by any two relying parties at any time, whose thresholds add up to more than M + f, never
   disagree: same size means same root, and the smaller is a prefix of whatever the larger commits to.
   */
  lemma {:induction false} QuorumSafety(s: System, note1: Note, p1: Policy, note2: Note, p2: Policy)
    requires Unforged(s, note1) && Unforged(s, note2) && KeysOf(s, p1) && KeysOf(s, p2)
    requires WitnessedSpec(note1, p1).Accepted? && WitnessedSpec(note2, p2).Accepted?
    requires note1.text.cp.origin == note2.text.cp.origin
    requires p1.minWitnesses + p2.minWitnesses > |s.members| + |s.dishonest|
    requires note1.text.cp.size <= note2.text.cp.size
    ensures Extends(HeadOfCheckpoint(note1.text.cp), HeadOfCheckpoint(note2.text.cp))
  {
    hide Extends, AnswerAt, VerifyNoteSpec;
    var a, b := WitnessedSpec(note1, p1).witnesses, WitnessedSpec(note2, p2).witnesses;
    CountedAreMembers(s, note1, p1);
    CountedAreMembers(s, note2, p2);
    assert |s.members.Keys| == |s.members|;
    var name := SetsMeet(s.members.Keys, a, b, s.dishonest);
    var m := s.members[name];
    var i := CountedWitnessCosigned(s, note1, p1, name);
    var j := CountedWitnessCosigned(s, note2, p2, name);
    var c1, c2 := note1.text.cp, note2.text.cp;
    if i <= j {
      CosignedHistoryIsAppendOnly(m.signer, m.logs, m.requests, i, j, c1, c2);
    } else {
      CosignedHistoryIsAppendOnly(m.signer, m.logs, m.requests, j, i, c2, c1);
      SameSizeSymmetric(HeadOfCheckpoint(c2), HeadOfCheckpoint(c1));
    }
  }

  lemma SameSizeSymmetric(a: Head, b: Head)
    requires Extends(a, b) && b.size <= a.size
    ensures Extends(b, a)
  {
    assert a == b;
  }

  lemma {:induction false} CountedAreMembers(s: System, note: Note, p: Policy)
    requires KeysOf(s, p) && WitnessedSpec(note, p).Accepted?
    ensures WitnessedSpec(note, p).witnesses <= s.members.Keys
    ensures |WitnessedSpec(note, p).witnesses| >= p.minWitnesses
  {
    var keys := p.logKeys + Usable(p.witnessKeys);
    var vs := VerifyNoteSpec(note, keys).verified;
    forall n | n in WitnessNames(vs) ensures n in s.members {
      var v :| v in vs && IsCosignerType(v.typ) && v.name == n;
      var line, key := VerifiedComesFromALine(note.text, note.sigs, keys, {}, v);
      assert key in p.witnessKeys;
    }
  }
}
