/**
 Checkpoint notes after parsing (cryptovalid_checkpoint.py), with symbolic signatures: a signature
 is the record of who signed what, so "it verifies" means "the holder of that key produced it over
 exactly this message".
 */
module Notes {
  import opened MerkleTree
  import opened Octets

  /** Canonical bytes of one ledger entry: what a Merkle leaf commits to. */
  type LeafData = Bytes
  type Root = Digest<LeafData>

  const MAX_SIGS := 100
  const MAX_TIMESTAMP := 0x7FFF_FFFF_FFFF_FFFF

  /** A host clock reading, in the range a cosignature timestamp may take. */
  type Clock = t: int | 1 <= t <= MAX_TIMESTAMP witness 1

  datatype Checkpoint = Checkpoint(origin: string, size: nat, root: Root)

  /** The text of a note: what parse_checkpoint accepts, or any other text. */
  datatype Text =
    | CheckpointText(cp: Checkpoint, extensions: seq<string>)
    | OtherText(chars: string)

  datatype KeyType = Ed25519 | Ecdsa | CosignatureV1 | MlDsa44 | UnknownType

  datatype VKey = VKey(name: string, kid: nat, typ: KeyType, pub: nat)

  datatype Signature =
    | EdSig(pub: nat, text: Text)                                   // log signature, type 0x01
    | EcdsaSig(pub: nat, text: Text)                                // log signature, type 0x02
    | Cosig(timestamp: nat, pub: nat, text: Text)                   // type 0x04, covers the whole text
    | PqCosig(timestamp: nat, pub: nat, name: string, cp: Checkpoint)  // type 0x06, not the extensions
    | Garbage(id: nat)

  /** One signature line; `width` is its length in bytes on the wire. */
  datatype SigLine = SigLine(name: string, kid: nat, sig: Signature, width: nat)

  datatype Note = Note(text: Text, sigs: seq<SigLine>)

  predicate IsLogType(t: KeyType) { t == Ed25519 || t == Ecdsa }
  predicate IsCosignerType(t: KeyType) { t == CosignatureV1 || t == MlDsa44 }

  // ---------------------------------------------------------------- sizes on the wire

  function Utf8Width(c: char): nat {
    if c < '\U{80}' then 1 else if c < '\U{800}' then 2 else if c < '\U{10000}' then 3 else 4
  }

  function Utf8Length(s: string): nat {
    if s == [] then 0 else Utf8Width(s[0]) + Utf8Length(s[1..])
  }

  function Digits(n: nat): nat {
    if n < 10 then 1 else 1 + Digits(n / 10)
  }

  function LinesLength(lines: seq<string>): nat {
    if lines == [] then 0 else Utf8Length(lines[0]) + 1 + LinesLength(lines[1..])
  }

  function TextLength(t: Text): nat {
    match t
    case CheckpointText(cp, ext) => Utf8Length(cp.origin) + 1 + Digits(cp.size) + 1 + 44 + 1 + LinesLength(ext)
    case OtherText(s) => Utf8Length(s)
  }

  function WidthOf(sigs: seq<SigLine>): nat {
    if sigs == [] then 0 else sigs[0].width + WidthOf(sigs[1..])
  }

  /** len(note.encode("utf-8")): the text, the blank line and the signature lines. */
  function NoteLength(n: Note): nat {
    TextLength(n.text) + 1 + WidthOf(n.sigs)
  }

  function Newlines(s: string): nat {
    if s == [] then 0 else (if s[0] == '\n' then 1 else 0) + Newlines(s[1..])
  }

  function TextNewlines(t: Text): nat {
    if t.CheckpointText? then 3 + |t.extensions| else Newlines(t.chars)
  }

  // ---------------------------------------------------------------- verification

  /** Does this line verify under the key it names? */
  predicate LineVerifies(key: VKey, text: Text, line: SigLine) {
    match key.typ
    case Ed25519 => line.sig == EdSig(key.pub, text)
    case Ecdsa => line.sig == EcdsaSig(key.pub, text)
    case CosignatureV1 =>
      line.sig.Cosig? && TextNewlines(text) >= 2 && 1 <= line.sig.timestamp <= MAX_TIMESTAMP
      && line.sig == Cosig(line.sig.timestamp, key.pub, text)
    case MlDsa44 =>
      line.sig.PqCosig? && text.CheckpointText? && 1 <= line.sig.timestamp <= MAX_TIMESTAMP
      && line.sig == PqCosig(line.sig.timestamp, key.pub, line.name, text.cp)
    case UnknownType => false
  }

  /** The known key of a (name, id) pair: vkeys of types that cannot be verified are ignored. */
  function KeyFor(vkeys: seq<VKey>, name: string, kid: nat): (r: Option<VKey>)
    ensures r.Some? ==> r.value in vkeys && r.value.name == name && r.value.kid == kid && r.value.typ != UnknownType
  {
    if vkeys == [] then None
    else if vkeys[0].typ != UnknownType && vkeys[0].name == name && vkeys[0].kid == kid then Some(vkeys[0])
    else KeyFor(vkeys[1..], name, kid)
  }

  /** Two different usable keys under one (name, id) pair. */
  ghost predicate Ambiguous(vkeys: seq<VKey>) {
    exists i, j :: 0 <= i < j < |vkeys| && Clash(vkeys[i], vkeys[j])
  }

  predicate Clash(a: VKey, b: VKey) {
    && a.typ != UnknownType && b.typ != UnknownType
    && a.name == b.name && a.kid == b.kid && (a.typ, a.pub) != (b.typ, b.pub)
  }

  datatype Verified = Verified(name: string, typ: KeyType, timestamp: nat)

  function VerifiedOf(key: VKey, line: SigLine): Verified {
    Verified(line.name, key.typ,
             if key.typ == CosignatureV1 && line.sig.Cosig? then line.sig.timestamp
             else if key.typ == MlDsa44 && line.sig.PqCosig? then line.sig.timestamp
             else 0)
  }

  /** Every line of a known key must verify; lines of unknown keys and repeats are skipped. */
  function VerifyLines(text: Text, sigs: seq<SigLine>, vkeys: seq<VKey>, seen: set<SigLine>): Option<seq<Verified>>
    decreases |sigs|
  {
    if sigs == [] then Some([])
    else
      var line := sigs[0];
      var key := KeyFor(vkeys, line.name, line.kid);
      if key.None? || line in seen then VerifyLines(text, sigs[1..], vkeys, seen)
      else if !LineVerifies(key.value, text, line) then None
      else
        var rest := VerifyLines(text, sigs[1..], vkeys, seen + {line});
        if rest.None? then None else Some([VerifiedOf(key.value, line)] + rest.value)
  }

  /** Which signature libraries this process has. */
  datatype Libraries = Libraries(ed25519: bool, mldsa: bool)
  const ALL_LIBRARIES := Libraries(true, true)

  datatype NoteVerdict = Raised | NotVerifiable | NotValid | Valid(verified: seq<Verified>)

  /** verify_note where every signature can be checked. */
  ghost function VerifyNoteSpec(note: Note, vkeys: seq<VKey>): NoteVerdict {
    if Ambiguous(vkeys) then Raised
    else
      var r := VerifyLines(note.text, note.sigs, vkeys, {});
      if r.None? || r.value == [] then NotValid else Valid(r.value)
  }

  /** A line of a known ML-DSA-44 key. */
  predicate IsMlDsaLine(vkeys: seq<VKey>, line: SigLine) {
    var key := KeyFor(vkeys, line.name, line.kid);
    key.Some? && key.value.typ == MlDsa44
  }

  /** The lines that can be checked: without the library, not those of ML-DSA-44 keys. */
  function Checkable(sigs: seq<SigLine>, vkeys: seq<VKey>, libs: Libraries): (r: seq<SigLine>)
    ensures |r| <= |sigs|
  {
    if sigs == [] then []
    else (if !libs.mldsa && IsMlDsaLine(vkeys, sigs[0]) then [] else [sigs[0]]) + Checkable(sigs[1..], vkeys, libs)
  }

  /** verify_note: the whole verdict.  A known line that fails wins over one that cannot be checked. */
  ghost function VerifyNoteHere(note: Note, vkeys: seq<VKey>, libs: Libraries): NoteVerdict {
    if Ambiguous(vkeys) then Raised
    else if !libs.ed25519 then NotVerifiable
    else
      var lines := Checkable(note.sigs, vkeys, libs);
      var r := VerifyLines(note.text, lines, vkeys, {});
      if r.None? then NotValid
      else if |lines| < |note.sigs| then NotVerifiable
      else if r.value == [] then NotValid
      else Valid(r.value)
  }

  /** The loop of verify_note over the trusted keys and then over the signature lines. */
  method VerifyNote(note: Note, vkeys: seq<VKey>, libs: Libraries) returns (v: NoteVerdict)
    ensures v == VerifyNoteHere(note, vkeys, libs)
  {
    hide LineVerifies, KeyFor;
    for i := 0 to |vkeys|
      invariant forall a, b :: 0 <= a < b < |vkeys| && b < i ==> !Clash(vkeys[a], vkeys[b])
    {
      for j := 0 to i
        invariant forall a :: 0 <= a < j ==> !Clash(vkeys[a], vkeys[i])
      {
        if Clash(vkeys[j], vkeys[i]) {
          return Raised;
        }
      }
    }
    if !libs.ed25519 {
      return NotVerifiable;
    }
    v := VerifyEachLine(note, vkeys, libs);
  }

  method VerifyEachLine(note: Note, vkeys: seq<VKey>, libs: Libraries) returns (v: NoteVerdict)
    requires !Ambiguous(vkeys) && libs.ed25519
    ensures v == VerifyNoteHere(note, vkeys, libs)
  {
    hide LineVerifies, KeyFor, Ambiguous, Checkable;
    CheckableEmpty(vkeys, libs);
    var seen: set<SigLine>, verified, unverifiable: nat := {}, [], 0;
    ghost var lines := Checkable(note.sigs, vkeys, libs);
    ghost var target := VerifyLines(note.text, lines, vkeys, {});
    assert note.sigs[0..] == note.sigs;
    assert target.Some? ==> verified + target.value == target.value;
    for i := 0 to |note.sigs|
      invariant |lines| + unverifiable == i + |Checkable(note.sigs[i..], vkeys, libs)|
      invariant var rest := VerifyLines(note.text, Checkable(note.sigs[i..], vkeys, libs), vkeys, seen);
                target == if rest.None? then None else Some(verified + rest.value)
    {
      var line := note.sigs[i];
      ghost var left, tail := Checkable(note.sigs[i..], vkeys, libs), Checkable(note.sigs[i + 1..], vkeys, libs);
      CheckableStep(note.sigs, i, vkeys, libs);
      var key := KeyFor(vkeys, line.name, line.kid);
      if key.Some? && key.value.typ == MlDsa44 && !libs.mldsa {
        unverifiable := unverifiable + 1;
      } else {
        assert left == [line] + tail && left[0] == line && left[1..] == tail;
        if key.Some? && line !in seen {
          if !LineVerifies(key.value, note.text, line) {
            return NotValid;
          }
          ghost var rest := VerifyLines(note.text, tail, vkeys, seen + {line});
          assert rest.Some? ==> verified + ([VerifiedOf(key.value, line)] + rest.value)
                                == (verified + [VerifiedOf(key.value, line)]) + rest.value;
          seen := seen + {line};
          verified := verified + [VerifiedOf(key.value, line)];
        }
      }
    }
    if unverifiable > 0 {
      return NotVerifiable;
    }
    v := if verified == [] then NotValid else Valid(verified);
  }

  lemma CheckableStep(sigs: seq<SigLine>, i: nat, vkeys: seq<VKey>, libs: Libraries)
    requires i < |sigs|
    ensures var tail := Checkable(sigs[i + 1..], vkeys, libs);
            Checkable(sigs[i..], vkeys, libs) ==
            if !libs.mldsa && IsMlDsaLine(vkeys, sigs[i]) then tail else [sigs[i]] + tail
  {
    assert sigs[i..][0] == sigs[i] && sigs[i..][1..] == sigs[i + 1..];
  }

  lemma CheckableEmpty(vkeys: seq<VKey>, libs: Libraries)
    ensures Checkable([], vkeys, libs) == []
  {
  }

  lemma {:induction false} CheckableAll(sigs: seq<SigLine>, vkeys: seq<VKey>, libs: Libraries)
    ensures |Checkable(sigs, vkeys, libs)| == |sigs| ==> Checkable(sigs, vkeys, libs) == sigs
    ensures libs.mldsa ==> Checkable(sigs, vkeys, libs) == sigs
    ensures forall line :: line in Checkable(sigs, vkeys, libs) ==> line in sigs
  {
    if sigs != [] {
      CheckableAll(sigs[1..], vkeys, libs);
    }
  }

  /**
   A missing library never changes a verdict into another one, it only withholds it: what is found
   valid or not valid here is found so where every signature can be checked.
   */
  lemma {:induction false} MissingLibraryWithholds(note: Note, vkeys: seq<VKey>, libs: Libraries)
    ensures var here := VerifyNoteHere(note, vkeys, libs);
            here != NotVerifiable ==> here == VerifyNoteSpec(note, vkeys)
    ensures VerifyNoteHere(note, vkeys, ALL_LIBRARIES) == VerifyNoteSpec(note, vkeys)
  {
    hide LineVerifies, KeyFor, Ambiguous;
    CheckableAll(note.sigs, vkeys, libs);
    CheckableAll(note.sigs, vkeys, ALL_LIBRARIES);
    VerifyLinesExact(note.text, note.sigs, vkeys, {});
    VerifyLinesExact(note.text, Checkable(note.sigs, vkeys, libs), vkeys, {});
  }

  /** Every verified entry comes from a line of the note that verifies under one of the given keys. */
  lemma {:induction false} VerifiedComesFromALine(text: Text, sigs: seq<SigLine>, vkeys: seq<VKey>,
      seen: set<SigLine>, v: Verified)
    returns (line: SigLine, key: VKey)
    requires var r := VerifyLines(text, sigs, vkeys, seen); r.Some? && v in r.value
    ensures line in sigs && key in vkeys && key.name == line.name == v.name && key.typ == v.typ && key.kid == line.kid
    ensures LineVerifies(key, text, line) && v == VerifiedOf(key, line)
    decreases |sigs|
  {
    line := sigs[0];
    var k := KeyFor(vkeys, line.name, line.kid);
    if k.Some? && line !in seen && v == VerifiedOf(k.value, line) {
      key := k.value;
    } else if k.None? || line in seen {
      line, key := VerifiedComesFromALine(text, sigs[1..], vkeys, seen, v);
    } else {
      line, key := VerifiedComesFromALine(text, sigs[1..], vkeys, seen + {line}, v);
    }
  }

  /** A note that carries a verifying signature of one of the given log keys over its own text. */
  ghost predicate LogSigned(note: Note, logKeys: seq<VKey>) {
    exists line, key :: line in note.sigs && key in logKeys && IsLogType(key.typ) && LineVerifies(key, note.text, line)
  }

  /** The line belongs to no known key, or verifies under its key. */
  predicate LineGood(text: Text, vkeys: seq<VKey>, line: SigLine) {
    var key := KeyFor(vkeys, line.name, line.kid);
    key.None? || LineVerifies(key.value, text, line)
  }

  /** What the loop over the lines decides and collects, whatever the order and the repeats. */
  lemma {:induction false} VerifyLinesExact(text: Text, sigs: seq<SigLine>, vkeys: seq<VKey>, seen: set<SigLine>)
    requires forall line :: line in seen ==> LineGood(text, vkeys, line)
    ensures VerifyLines(text, sigs, vkeys, seen).Some? <==> forall line :: line in sigs ==> LineGood(text, vkeys, line)
    ensures VerifyLines(text, sigs, vkeys, seen).Some? ==>
              forall line :: line in sigs && line !in seen && KeyFor(vkeys, line.name, line.kid).Some?
                ==> VerifiedOf(KeyFor(vkeys, line.name, line.kid).value, line)
                    in VerifyLines(text, sigs, vkeys, seen).value
    decreases |sigs|
  {
    hide LineVerifies, KeyFor;
    if sigs != [] {
      var line := sigs[0];
      assert forall l :: l in sigs <==> l == line || l in sigs[1..];
      if KeyFor(vkeys, line.name, line.kid).None? || line in seen {
        VerifyLinesExact(text, sigs[1..], vkeys, seen);
      } else if LineGood(text, vkeys, line) {
        VerifyLinesExact(text, sigs[1..], vkeys, seen + {line});
      }
    }
  }

  /**
   verify_note, exactly: a note is valid when no two keys share a name and id, every line of a known
   key verifies, and there is at least one such line.
   */
  lemma {:induction false} ValidExactly(note: Note, vkeys: seq<VKey>)
    ensures VerifyNoteSpec(note, vkeys).Valid? <==>
            && !Ambiguous(vkeys)
            && (forall line :: line in note.sigs ==> LineGood(note.text, vkeys, line))
            && (exists line :: line in note.sigs && KeyFor(vkeys, line.name, line.kid).Some?)
  {
    hide LineVerifies, KeyFor;
    VerifyLinesExact(note.text, note.sigs, vkeys, {});
    var r := VerifyLines(note.text, note.sigs, vkeys, {});
    if r.Some? && r.value != [] {
      var line, key := VerifiedComesFromALine(note.text, note.sigs, vkeys, {}, r.value[0]);
      KeyForFinds(vkeys, key);
    }
  }

  lemma {:induction false} KeyForFinds(vkeys: seq<VKey>, key: VKey)
    requires key in vkeys && key.typ != UnknownType
    ensures KeyFor(vkeys, key.name, key.kid).Some?
  {
    if vkeys[0] != key {
      KeyForFinds(vkeys[1..], key);
    }
  }

  lemma {:induction false} KeyForAppend(a: seq<VKey>, b: seq<VKey>, name: string, kid: nat)
    ensures KeyFor(a + b, name, kid) == if KeyFor(a, name, kid).Some? then KeyFor(a, name, kid)
            else KeyFor(b, name, kid)
    decreases |a|
  {
    if a == [] {
      assert a + b == b;
    } else {
      assert (a + b)[1..] == a[1..] + b;
      KeyForAppend(a[1..], b, name, kid);
    }
  }
}
