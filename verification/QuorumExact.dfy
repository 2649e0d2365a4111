/**
 What verify_witnessed accepts, said without its steps: by the lines of the note, the keys the
 relying party trusts, and the times of the cosignatures.
 */
module QuorumExact {
  import opened MerkleTree
  import opened Notes
  import opened Quorum

  predicate CosignerKey(p: Policy, key: VKey) {
    key in p.witnessKeys && key.typ in {CosignatureV1, MlDsa44}
  }

  /** The keys that count: the log's, and the witness keys of the two cosigner types. */
  predicate Trusts(p: Policy, key: VKey) {
    key in p.logKeys || CosignerKey(p, key)
  }

  predicate KeyOf(key: VKey, line: SigLine) {
    key.name == line.name && key.kid == line.kid
  }

  /** Two different trusted keys with one name and id. */
  ghost predicate TwoKeys(p: Policy, a: VKey, b: VKey) {
    Trusts(p, a) && Trusts(p, b) && a != b && a.name == b.name && a.kid == b.kid
  }

  /** The caller's mistakes: they raise an error whatever the note. */
  ghost predicate BadCall(p: Policy) {
    || p.minWitnesses < 1 || p.clockSkew < 0 || p.logKeys == []
    || (exists k :: k in p.logKeys && k.typ !in {Ed25519, Ecdsa})
    || (exists k :: k in p.witnessKeys && k.typ in {Ed25519, Ecdsa})
    || (p.expectedOrigin.None? && exists a, b :: a in p.logKeys && b in p.logKeys && a.name != b.name)
    || (exists a, b :: TwoKeys(p, a, b))
  }

  /** A line of the note that verifies under a trusted cosigner key of its name and id. */
  ghost predicate Cosigned(note: Note, p: Policy, line: SigLine) {
    line in note.sigs && exists key :: CosignerKey(p, key) && KeyOf(key, line) && LineVerifies(key, note.text, line)
  }

  /** The names under which it is cosigned: two keys of one name are one witness. */
  ghost function Cosigners(note: Note, p: Policy): set<string> {
    set line | line in note.sigs && Cosigned(note, p, line) :: line.name
  }

  /** The newest cosignature of its name, and inside the window. */
  ghost predicate NewestInTime(note: Note, p: Policy, line: SigLine, maxAge: int) {
    && Cosigned(note, p, line)
    && p.now - maxAge <= TimestampOf(line.sig) <= p.now + p.clockSkew
    && forall l :: Cosigned(note, p, l) && l.name == line.name ==> TimestampOf(l.sig) <= TimestampOf(line.sig)
  }

  ghost function FreshCosigners(note: Note, p: Policy, maxAge: int): set<string> {
    set line | line in note.sigs && NewestInTime(note, p, line, maxAge) :: line.name
  }

  /** The origin of the checkpoint: the expected one, or the common name of the log keys. */
  ghost predicate RightOrigin(p: Policy, origin: string) {
    if p.expectedOrigin.Some? then origin == p.expectedOrigin.value else forall k :: k in p.logKeys ==> k.name == origin
  }

  /** Every line that names a trusted key verifies under it. */
  ghost predicate NoBadLine(note: Note, p: Policy) {
    forall line, key :: line in note.sigs && Trusts(p, key) && KeyOf(key, line) ==> LineVerifies(key, note.text, line)
  }

  /** The whole condition for acceptance. */
  ghost predicate EnoughWitnesses(note: Note, p: Policy) {
    && NoBadLine(note, p)
    && (exists line, key :: line in note.sigs && key in p.logKeys && KeyOf(key, line))
    && note.text.CheckpointText? && RightOrigin(p, note.text.cp.origin)
    && |Cosigners(note, p)| >= p.minWitnesses
    && (p.maxAge.Some? ==> |FreshCosigners(note, p, p.maxAge.value)| >= p.minWitnesses)
  }

  // ---------------------------------------------------------------- the keys

  lemma TrustedAreKeys(p: Policy, key: VKey)
    ensures Trusts(p, key) <==> key in p.logKeys + Usable(p.witnessKeys)
  {
  }

  lemma ClashesExactly(p: Policy)
    requires forall k :: k in p.logKeys ==> k.typ in {Ed25519, Ecdsa}
    ensures Ambiguous(p.logKeys + Usable(p.witnessKeys)) <==> exists a, b :: TwoKeys(p, a, b)
  {
    hide Usable, Trusts, Clash;
    var keys := p.logKeys + Usable(p.witnessKeys);
    if i, j :| 0 <= i < j < |keys| && Clash(keys[i], keys[j]) {
      assert keys[i] in keys && keys[j] in keys;
      TrustedAreKeys(p, keys[i]);
      TrustedAreKeys(p, keys[j]);
      ClashMeans(p, keys[i], keys[j]);
    }
    if a, b :| TwoKeys(p, a, b) {
      TrustedAreKeys(p, a);
      TrustedAreKeys(p, b);
      ClashMeans(p, a, b);
      var i :| 0 <= i < |keys| && keys[i] == a;
      var j :| 0 <= j < |keys| && keys[j] == b;
      assert if i < j then Clash(keys[i], keys[j]) else Clash(keys[j], keys[i]);
    }
  }

  lemma ClashMeans(p: Policy, a: VKey, b: VKey)
    requires forall k :: k in p.logKeys ==> k.typ in {Ed25519, Ecdsa}
    requires Trusts(p, a) && Trusts(p, b)
    ensures Clash(a, b) == Clash(b, a) == TwoKeys(p, a, b)
  {
  }

  lemma OneName(keys: seq<VKey>, origin: string)
    requires keys != []
    ensures |Names(keys)| == 1 <==> forall a, b :: a in keys && b in keys ==> a.name == b.name
    ensures |Names(keys)| == 1 ==> (Names(keys) == {origin} <==> forall k :: k in keys ==> k.name == origin)
  {
    var names, first := Names(keys), keys[0].name;
    assert first in names;
    if |names| == 1 {
      SingleName(names, first);
      forall a, b | a in keys && b in keys ensures a.name == b.name {
        assert a.name in names && b.name in names;
      }
    }
    if forall a, b :: a in keys && b in keys ==> a.name == b.name {
      assert names == {first};
    }
  }

  lemma {:induction false} BadCallExactly(p: Policy)
    ensures BadPolicySpec(p) <==> BadCall(p)
  {
    hide Ambiguous, Names;
    if p.logKeys != [] {
      OneName(p.logKeys, "");
    }
    if forall k :: k in p.logKeys ==> k.typ in {Ed25519, Ecdsa} {
      ClashesExactly(p);
    }
  }

  /** With unambiguous keys, the key found for a line is the one trusted key of its name and id. */
  lemma KeyFoundIs(p: Policy, line: SigLine, key: VKey)
    requires !BadCall(p) && Trusts(p, key) && KeyOf(key, line)
    ensures KeyFor(p.logKeys + Usable(p.witnessKeys), line.name, line.kid) == Some(key)
  {
    var keys := p.logKeys + Usable(p.witnessKeys);
    TrustedAreKeys(p, key);
    KeyForFinds(keys, key);
    var found := KeyFor(keys, line.name, line.kid).value;
    TrustedAreKeys(p, found);
    assert !TwoKeys(p, key, found);
  }

  lemma NoBadLineExactly(note: Note, p: Policy)
    requires !BadCall(p)
    ensures NoBadLine(note, p) <==>
            forall line :: line in note.sigs ==> LineGood(note.text, p.logKeys + Usable(p.witnessKeys), line)
  {
    hide LineVerifies, KeyFor, BadCall;
    var keys := p.logKeys + Usable(p.witnessKeys);
    forall line: SigLine, key: VKey | line in note.sigs && Trusts(p, key) && KeyOf(key, line)
      ensures KeyFor(keys, line.name, line.kid) == Some(key)
    {
      KeyFoundIs(p, line, key);
    }
    forall line: SigLine | KeyFor(keys, line.name, line.kid).Some?
      ensures var key := KeyFor(keys, line.name, line.kid).value; Trusts(p, key) && KeyOf(key, line)
    {
      TrustedAreKeys(p, KeyFor(keys, line.name, line.kid).value);
    }
    if NoBadLine(note, p) {
      forall line | line in note.sigs ensures LineGood(note.text, keys, line) {
        var key := KeyFor(keys, line.name, line.kid);
        if key.Some? {
          assert LineVerifies(key.value, note.text, line);
        }
      }
    }
    if forall line :: line in note.sigs ==> LineGood(note.text, keys, line) {
      forall line, key | line in note.sigs && Trusts(p, key) && KeyOf(key, line)
        ensures LineVerifies(key, note.text, line)
      {
        assert LineGood(note.text, keys, line);
      }
    }
  }

  /** What a cosignature line that verifies says: a time in range, over this text or this checkpoint. */
  lemma CosignatureSays(note: Note, p: Policy, line: SigLine)
    requires Cosigned(note, p, line)
    ensures 1 <= TimestampOf(line.sig) <= 9223372036854775807
    ensures line.sig.Cosig? || line.sig.PqCosig?
    ensures line.sig.Cosig? ==> line.sig.text == note.text && TextNewlines(note.text) >= 2
    ensures line.sig.PqCosig? ==> note.text.CheckpointText? && line.sig.cp == note.text.cp && line.sig.name == line.name
  {
  }

  // ---------------------------------------------------------------- the witnesses

  /** Each cosigning line gives a verified entry of its name and time. */
  lemma CosignedIsVerified(note: Note, p: Policy, vs: seq<Verified>, line: SigLine)
    requires !BadCall(p) && Cosigned(note, p, line)
    requires VerifyLines(note.text, note.sigs, p.logKeys + Usable(p.witnessKeys), {}) == Some(vs)
    ensures exists v :: v in vs && IsCosignerType(v.typ) && v.name == line.name && v.timestamp == TimestampOf(line.sig)
  {
    hide BadCall, VerifyLines;
    var keys := p.logKeys + Usable(p.witnessKeys);
    VerifyLinesExact(note.text, note.sigs, keys, {});
    var key :| CosignerKey(p, key) && KeyOf(key, line) && LineVerifies(key, note.text, line);
    KeyFoundIs(p, line, key);
    assert VerifiedOf(key, line) in vs;
  }

  /** Each verified entry of a cosigner comes from a cosigning line of its name and time. */
  lemma VerifiedIsCosigned(note: Note, p: Policy, vs: seq<Verified>, v: Verified) returns (line: SigLine)
    requires !BadCall(p) && v in vs && IsCosignerType(v.typ)
    requires VerifyLines(note.text, note.sigs, p.logKeys + Usable(p.witnessKeys), {}) == Some(vs)
    ensures Cosigned(note, p, line) && v.name == line.name && v.timestamp == TimestampOf(line.sig)
  {
    hide VerifyLines;
    var key;
    line, key := VerifiedComesFromALine(note.text, note.sigs, p.logKeys + Usable(p.witnessKeys), {}, v);
    TrustedAreKeys(p, key);
  }

  lemma {:induction false} WitnessesAreCosigners(note: Note, p: Policy, vs: seq<Verified>)
    requires !BadCall(p) && VerifyLines(note.text, note.sigs, p.logKeys + Usable(p.witnessKeys), {}) == Some(vs)
    ensures WitnessNames(vs) == Cosigners(note, p)
  {
    hide BadCall, VerifyLines, Cosigned;
    forall n | n in WitnessNames(vs) ensures n in Cosigners(note, p) {
      var v :| v in vs && IsCosignerType(v.typ) && v.name == n;
      var line := VerifiedIsCosigned(note, p, vs, v);
      CosignedIsThere(note, p, line);
    }
    forall n | n in Cosigners(note, p) ensures n in WitnessNames(vs) {
      var line :| line in note.sigs && Cosigned(note, p, line) && line.name == n;
      CosignedIsVerified(note, p, vs, line);
    }
  }

  lemma CosignedIsThere(note: Note, p: Policy, line: SigLine)
    requires Cosigned(note, p, line)
    ensures line in note.sigs
  {
  }

  /** The newest verified entry of a witness is its newest cosigning line. */
  lemma {:induction false} NewestLine(note: Note, p: Policy, vs: seq<Verified>, name: string) returns (line: SigLine)
    requires !BadCall(p) && VerifyLines(note.text, note.sigs, p.logKeys + Usable(p.witnessKeys), {}) == Some(vs)
    requires name in WitnessNames(vs)
    ensures Cosigned(note, p, line) && line.name == name && TimestampOf(line.sig) == Newest(vs, name)
    ensures forall l :: Cosigned(note, p, l) && l.name == name ==> TimestampOf(l.sig) <= TimestampOf(line.sig)
  {
    hide BadCall, VerifyLines, Cosigned, Newest;
    var v := NewestIsOne(vs, name);
    line := VerifiedIsCosigned(note, p, vs, v);
    forall l | Cosigned(note, p, l) && l.name == name ensures TimestampOf(l.sig) <= TimestampOf(line.sig) {
      CosignedIsVerified(note, p, vs, l);
    }
  }

  lemma {:induction false} FreshAreFreshCosigners(note: Note, p: Policy, vs: seq<Verified>)
    requires !BadCall(p) && VerifyLines(note.text, note.sigs, p.logKeys + Usable(p.witnessKeys), {}) == Some(vs)
    requires p.maxAge.Some?
    ensures FreshNames(p, vs) == FreshCosigners(note, p, p.maxAge.value)
  {
    hide BadCall, VerifyLines, Cosigned, Newest, WitnessNames;
    WitnessesAreCosigners(note, p, vs);
    forall n | n in FreshNames(p, vs) ensures n in FreshCosigners(note, p, p.maxAge.value) {
      var line := NewestLine(note, p, vs, n);
      CosignedIsThere(note, p, line);
      assert NewestInTime(note, p, line, p.maxAge.value);
    }
    forall n | n in FreshCosigners(note, p, p.maxAge.value) ensures n in FreshNames(p, vs) {
      var line :| line in note.sigs && NewestInTime(note, p, line, p.maxAge.value) && line.name == n;
      assert n in Cosigners(note, p);
      var newest := NewestLine(note, p, vs, n);
    }
  }

  /** A verified log signature is a line of a log key. */
  lemma {:induction false} LogLineExactly(note: Note, p: Policy, vs: seq<Verified>)
    requires !BadCall(p) && VerifyLines(note.text, note.sigs, p.logKeys + Usable(p.witnessKeys), {}) == Some(vs)
    ensures (exists s :: s in vs && s.name in Names(p.logKeys) && IsLogType(s.typ)) <==>
            exists line, key :: line in note.sigs && key in p.logKeys && KeyOf(key, line)
  {
    hide VerifyLines, LineVerifies;
    var keys := p.logKeys + Usable(p.witnessKeys);
    if s :| s in vs && s.name in Names(p.logKeys) && IsLogType(s.typ) {
      var line, key := VerifiedComesFromALine(note.text, note.sigs, keys, {}, s);
      assert key in p.logKeys && KeyOf(key, line);
    }
    if line, key :| line in note.sigs && key in p.logKeys && KeyOf(key, line) {
      VerifyLinesExact(note.text, note.sigs, keys, {});
      KeyFoundIs(p, line, key);
      assert VerifiedOf(key, line) in vs;
    }
  }

  /**
   verify_witnessed with both signature libraries accepts a note exactly when the call is proper, no line
   of a trusted key fails, the log has signed a checkpoint of the right origin, and enough different
   witnesses have cosigned it, enough of them lately if there is an age limit.  What it returns is that
   checkpoint and all those witnesses.
   */
  lemma {:induction false} WitnessedExactly(note: Note, p: Policy)
    ensures WitnessedHere(note, p, Libraries(true, true)) ==
            if BadCall(p) then BadPolicy
            else if EnoughWitnesses(note, p) then Accepted(note.text.cp, Cosigners(note, p))
            else Quorum.Refused
  {
    hide Ambiguous, VerifyLines, LineVerifies, Cosigners, FreshCosigners, BadCall, Names, BadPolicySpec, WitnessNames;
    hide FreshNames, KeyFor, LineGood;
    var keys := p.logKeys + Usable(p.witnessKeys);
    BadCallExactly(p);
    MissingLibraryWithholds(note, keys, Libraries(true, true));
    if !BadCall(p) {
      ValidExactly(note, keys);
      NoBadLineExactly(note, p);
      GoodCallParts(p, if note.text.CheckpointText? then note.text.cp.origin else "");
      if NoBadLine(note, p) {
        VerifyLinesExact(note.text, note.sigs, keys, {});
        var vs := VerifyLines(note.text, note.sigs, keys, {}).value;
        LogLineExactly(note, p, vs);
        WitnessesAreCosigners(note, p, vs);
        if p.maxAge.Some? {
          FreshAreFreshCosigners(note, p, vs);
        } else {
          AllFresh(p, vs);
        }
      }
    }
  }

  lemma AllFresh(p: Policy, vs: seq<Verified>)
    requires p.maxAge.None?
    ensures FreshNames(p, vs) == WitnessNames(vs)
  {
  }

  lemma GoodCallParts(p: Policy, origin: string)
    requires !BadCall(p)
    ensures !Ambiguous(p.logKeys + Usable(p.witnessKeys))
    ensures OriginMatches(p, origin) <==> RightOrigin(p, origin)
  {
    hide Ambiguous;
    ClashesExactly(p);
    OneName(p.logKeys, origin);
  }

  lemma {:induction false} CheckableMeans(sigs: seq<SigLine>, vkeys: seq<VKey>, libs: Libraries)
    requires !libs.mldsa
    ensures forall line :: line in Checkable(sigs, vkeys, libs) <==> line in sigs && !IsMlDsaLine(vkeys, line)
    ensures |Checkable(sigs, vkeys, libs)| < |sigs| <==> exists line :: line in sigs && IsMlDsaLine(vkeys, line)
  {
    hide IsMlDsaLine;
    if sigs != [] {
      CheckableMeans(sigs[1..], vkeys, libs);
      assert forall l :: l in sigs <==> l == sigs[0] || l in sigs[1..];
    }
  }

  /** The lines of trusted ML-DSA-44 keys. */
  lemma MlDsaLineExactly(p: Policy, line: SigLine)
    requires !BadCall(p)
    ensures IsMlDsaLine(p.logKeys + Usable(p.witnessKeys), line) <==>
            exists key :: Trusts(p, key) && KeyOf(key, line) && key.typ == MlDsa44
  {
    hide BadCall;
    var keys := p.logKeys + Usable(p.witnessKeys);
    var found := KeyFor(keys, line.name, line.kid);
    if found.Some? {
      TrustedAreKeys(p, found.value);
    }
    if key :| Trusts(p, key) && KeyOf(key, line) && key.typ == MlDsa44 {
      KeyFoundIs(p, line, key);
    }
  }

  /** Of the lines that can be checked, those of trusted keys of other types verify. */
  ghost predicate NoBadOtherLine(note: Note, p: Policy) {
    forall line, key :: line in note.sigs && Trusts(p, key) && KeyOf(key, line) && key.typ != MlDsa44
      ==> LineVerifies(key, note.text, line)
  }

  lemma {:induction false} OtherLinesExactly(note: Note, p: Policy, libs: Libraries)
    requires !BadCall(p) && !libs.mldsa
    ensures var keys := p.logKeys + Usable(p.witnessKeys);
            VerifyLines(note.text, Checkable(note.sigs, keys, libs), keys, {}).Some? <==> NoBadOtherLine(note, p)
  {
    hide BadCall, LineVerifies, VerifyLines, Checkable;
    var keys := p.logKeys + Usable(p.witnessKeys);
    var lines := Checkable(note.sigs, keys, libs);
    CheckableMeans(note.sigs, keys, libs);
    VerifyLinesExact(note.text, lines, keys, {});
    if NoBadOtherLine(note, p) {
      forall line | line in lines ensures LineGood(note.text, keys, line) {
        var key := KeyFor(keys, line.name, line.kid);
        if key.Some? {
          TrustedAreKeys(p, key.value);
        }
      }
    }
    if forall line :: line in lines ==> LineGood(note.text, keys, line) {
      forall line: SigLine, key: VKey | line in note.sigs && Trusts(p, key) && KeyOf(key, line) && key.typ != MlDsa44
        ensures LineVerifies(key, note.text, line)
      {
        KeyFoundIs(p, line, key);
        assert line in lines;
      }
    }
  }

  /**
   With a library missing, the same answer or none: none exactly when the Ed25519 library is missing, or
   the ML-DSA-44 one is, some line is of a trusted key of that type, and no other line of a trusted key fails.
   */
  lemma {:induction false} WithheldExactly(note: Note, p: Policy, libs: Libraries)
    ensures WitnessedHere(note, p, libs) in {NotCheckable, WitnessedHere(note, p, Libraries(true, true))}
    ensures WitnessedHere(note, p, libs).NotCheckable? <==>
            && !BadCall(p)
            && (|| !libs.ed25519
                || (!libs.mldsa && NoBadOtherLine(note, p)
                    && exists line, key ::
                         line in note.sigs && Trusts(p, key) && KeyOf(key, line) && key.typ == MlDsa44))
  {
    hide Ambiguous, VerifyLines, LineVerifies, BadPolicySpec, BadCall, IsMlDsaLine, NoBadOtherLine, Checkable;
    var keys := p.logKeys + Usable(p.witnessKeys);
    BadCallExactly(p);
    MissingLibraryWithholds(note, keys, libs);
    MissingLibraryWithholds(note, keys, Libraries(true, true));
    CheckableAll(note.sigs, keys, libs);
    if !BadCall(p) {
      GoodCallParts(p, "");
      if !libs.mldsa {
        CheckableMeans(note.sigs, keys, libs);
        OtherLinesExactly(note, p, libs);
        forall line ensures IsMlDsaLine(keys, line) <==>
            exists key :: Trusts(p, key) && KeyOf(key, line) && key.typ == MlDsa44
        {
          MlDsaLineExactly(p, line);
        }
      }
    }
  }
}
