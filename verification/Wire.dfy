/**
 The text formats of cryptovalid_checkpoint.py and cryptovalid_witness.py, on decoded strings:
 checkpoint text, signed note, add-checkpoint body.  Checkpoint texts and request bodies are accepted
 if and only if they are what the printer writes for some valid fields.  Signature lines are read more
 loosely than they are printed, and which accepted lines and notes are printed forms is stated exactly.
 */
module Wire {
  import opened MerkleTree
  import opened Octets
  import opened Decimal
  import opened TextLines
  import Base64
  import Notes
  import WitnessSpec

  const MAX_SIZE := 0xFFFF_FFFF_FFFF_FFFF
  const MAX_SIGS := Notes.MAX_SIGS
  const MAX_SIG_BYTES := 8192
  const MAX_NAME_BYTES := 255
  const MAX_PROOF := WitnessSpec.MAX_PROOF

  // ---------------------------------------------------------------- checkpoint text

  datatype Fields = Fields(origin: string, size: int, root: Bytes, extensions: seq<string>)

  /** checkpoint_text; None where it raises. */
  function PrintCheckpoint(f: Fields): Option<string> {
    if f.origin == "" || !NoControl(f.origin) then None
    else if !(0 <= f.size <= MAX_SIZE) then None
    else if |f.root| != 32 then None
    else if !SolidLines(f.extensions) then None
    else Some(Join([f.origin, Print(f.size), Base64.Encode(f.root)] + f.extensions, '\n') + "\n")
  }

  /** parse_checkpoint; None where it raises. */
  function ParseCheckpoint(text: string): Option<Fields> {
    if text == "" || text[|text| - 1] != '\n' then None
    else
      var lines := Split(text[..|text| - 1], '\n');
      if |lines| < 3 || (exists i :: 0 <= i < |lines| && lines[i] == "") then None
      else if !Allowed(text[..|text| - 1], '\n') then None
      else if !IsSize(lines[1]) || Value(lines[1]) > MAX_SIZE then None
      else
        var root := Base64.Decode(lines[2]);
        if root.None? || |root.value| != 32 || Base64.Encode(root.value) != lines[2] then None
        else Some(Fields(lines[0], Value(lines[1]), root.value, lines[3..]))
  }

  lemma Base64Lines(b: Bytes)
    requires b != []
    ensures Base64.Encode(b) != "" && NoControl(Base64.Encode(b)) && Without(Base64.Encode(b), ' ')
    ensures 4 * |b| <= 3 * |Base64.Encode(b)| <= 4 * |b| + 8
  {
    hide Base64.Encode, Base64.Decode, Base64.Base64Char;
    var s := Base64.Encode(b);
    Base64.RoundTrip(b);
    Base64.DecodedIsPlain(s);
    forall i | 0 <= i < |s| ensures s[i] > ' ' {
      PlainIsSolid(s[i]);
    }
  }

  lemma PlainIsSolid(c: char)
    requires Base64.Base64Char(c)
    ensures c > ' '
  {
  }

  lemma SolidIsAllowed(lines: seq<string>)
    requires |lines| >= 1 && SolidLines(lines)
    ensures AllWithout(lines, '\n') && Allowed(Join(lines, '\n'), '\n')
  {
    JoinAllowed(lines, '\n');
  }

  lemma {:induction false} PrintedParses(f: Fields)
    requires PrintCheckpoint(f).Some?
    ensures ParseCheckpoint(PrintCheckpoint(f).value) == Some(f)
  {
    hide Base64.Encode, Base64.Decode, Join, Split, Print, Value;
    var lines := [f.origin, Print(f.size), Base64.Encode(f.root)] + f.extensions;
    var text := Join(lines, '\n') + "\n";
    Base64Lines(f.root);
    Base64.RoundTrip(f.root);
    TwentyDigits();
    SizeExact(lines[1], f.size);
    assert SolidLines(lines) by {
      assert forall i :: 3 <= i < |lines| ==> lines[i] == f.extensions[i - 3];
    }
    SolidIsAllowed(lines);
    SplitOfJoin(lines, '\n');
    assert text[..|text| - 1] == Join(lines, '\n');
    assert lines[3..] == f.extensions;
  }

  lemma {:induction false} ParsedPrints(text: string)
    requires ParseCheckpoint(text).Some?
    ensures PrintCheckpoint(ParseCheckpoint(text).value) == Some(text)
  {
    hide Base64.Encode, Base64.Decode, Join, Split, Print, Value;
    var body := text[..|text| - 1];
    var lines := Split(body, '\n');
    var f := ParseCheckpoint(text).value;
    JoinOfSplit(body, '\n');
    JoinAllowed(lines, '\n');
    TwentyDigits();
    SizeExact(lines[1], f.size);
    assert [f.origin, Print(f.size), Base64.Encode(f.root)] + f.extensions == lines;
    assert text == body + "\n";
  }

  /**
   Checkpoint text is canonical: the strict parser accepts exactly the printed form of each valid
   checkpoint, so a text and its fields determine each other.
   */
  lemma CheckpointTextExact(text: string, f: Fields)
    ensures ParseCheckpoint(text) == Some(f) <==> PrintCheckpoint(f) == Some(text)
  {
    if ParseCheckpoint(text).Some? {
      ParsedPrints(text);
    }
    if PrintCheckpoint(f).Some? {
      PrintedParses(f);
    }
  }

  /** The fields that can be printed, and so the ones that are ever read. */
  lemma PrintableExactly(f: Fields)
    ensures PrintCheckpoint(f).Some? <==>
            && f.origin != "" && (forall c :: c in f.origin ==> c >= ' ')
            && 0 <= f.size <= 18446744073709551615 && |f.root| == 32
            && (forall e :: e in f.extensions ==> e != "" && forall c :: c in e ==> c >= ' ')
  {
    hide Join, Print, Base64.Encode, SolidLines, NoControl;
    NoControlExactly(f.origin);
    SolidExactly(f.extensions);
  }

  lemma SolidExactly(lines: seq<string>)
    ensures SolidLines(lines) <==> forall e :: e in lines ==> e != "" && forall c :: c in e ==> c >= ' '
  {
    hide NoControl;
    forall e: string ensures NoControl(e) <==> forall c :: c in e ==> c >= ' ' {
      NoControlExactly(e);
    }
    if SolidLines(lines) {
      forall e | e in lines ensures e != "" && forall c :: c in e ==> c >= ' ' {
        var i :| 0 <= i < |lines| && lines[i] == e;
        assert NoControl(e);
      }
    } else {
      var i :| 0 <= i < |lines| && !(lines[i] != "" && NoControl(lines[i]));
      assert lines[i] in lines;
    }
  }

  lemma NoControlExactly(s: string)
    ensures NoControl(s) <==> forall c :: c in s ==> c >= ' '
  {
    assert forall i :: 0 <= i < |s| ==> s[i] in s;
  }

  // ---------------------------------------------------------------- signature lines

  /** A signature line read: key name, then key id and signature bytes. */
  datatype RawSig = RawSig(name: string, raw: Bytes)

  /** Unicode white space, as \s matches it. */
  predicate IsSpace(c: char) {
    || '\t' <= c <= '\r' || '\U{1c}' <= c <= ' ' || c == '\U{85}' || c == '\U{a0}' || c == '\U{1680}'
    || '\U{2000}' <= c <= '\U{200a}' || c == '\U{2028}' || c == '\U{2029}' || c == '\U{202f}'
    || c == '\U{205f}' || c == '\U{3000}'
  }

  predicate NameOk(name: string) {
    name != "" && forall i :: 0 <= i < |name| ==> !IsSpace(name[i]) && name[i] != '+' && name[i] >= ' '
  }

  const EM_DASH := "\U{2014}"

  /** _sig_line without its newline; None where it raises. */
  function PrintSigLine(s: RawSig): Option<string> {
    if !NameOk(s.name) || Notes.Utf8Length(s.name) > MAX_NAME_BYTES then None
    else Some(EM_DASH + " " + s.name + " " + Base64.Encode(s.raw))
  }

  function ReadSigLine(line: string): Option<RawSig> {
    var parts := Split(line, ' ');
    if |parts| != 3 || parts[0] != EM_DASH || !NameOk(parts[1]) then None
    else if |parts[2]| > (MAX_SIG_BYTES * 4 + 2) / 3 + 3 then None
    else
      var raw := Base64.Decode(parts[2]);
      if raw.None? || |raw.value| < 5 || |raw.value| > MAX_SIG_BYTES then None else Some(RawSig(parts[1], raw.value))
  }

  /** Every line the printer writes for a signature of 5 to 8192 bytes reads back. */
  lemma {:induction false} SigLineRoundTrip(s: RawSig)
    requires PrintSigLine(s).Some? && 5 <= |s.raw| <= 8192
    ensures var line := PrintSigLine(s).value; ReadSigLine(line) == Some(s) && line != "" && NoControl(line)
  {
    hide Base64.Encode, Base64.Decode;
    var text := Base64.Encode(s.raw);
    Base64Lines(s.raw);
    Base64.RoundTrip(s.raw);
    var parts := [EM_DASH, s.name, text];
    var line := PrintSigLine(s).value;
    assert parts[1..] == [s.name, text] && parts[1..][1..] == [text];
    assert Join([text], ' ') == text && Join([s.name, text], ' ') == s.name + [' '] + text;
    assert Join(parts, ' ') == EM_DASH + [' '] + (s.name + [' '] + text);
    assert line == Join(parts, ' ');
    assert AllWithout(parts, ' ') by {
      assert Without(s.name, ' ') && Without(EM_DASH, ' ');
    }
    SplitOfJoin(parts, ' ');
  }

  /** The line is written as the printer writes it: a name of at most 255 bytes, no stray base64 bits. */
  predicate CanonicalLine(line: string) {
    var parts := Split(line, ' ');
    |parts| == 3 && Notes.Utf8Length(parts[1]) <= 255 && Base64.Canonical(parts[2])
  }

  lemma JoinThree(a: string, b: string, c: string)
    ensures Join([a, b, c], ' ') == a + " " + b + " " + c
  {
    assert [a, b, c][1..] == [b, c] && [b, c][1..] == [c];
    assert Join([c], ' ') == c && Join([b, c], ' ') == b + [' '] + c;
  }

  /** An accepted signature line is a printed one exactly when it is canonical. */
  lemma {:induction false} SigLineExact(line: string)
    requires ReadSigLine(line).Some?
    ensures PrintSigLine(ReadSigLine(line).value) == Some(line) <==> CanonicalLine(line)
  {
    hide Base64.Encode, Base64.Decode, Base64.Canonical, Split, Join;
    var parts := Split(line, ' ');
    var s := ReadSigLine(line).value;
    JoinOfSplit(line, ' ');
    JoinThree(parts[0], parts[1], parts[2]);
    assert parts == [parts[0], parts[1], parts[2]];
    Base64.CanonicalExact(parts[2]);
    var front, text := EM_DASH + " " + s.name + " ", Base64.Encode(s.raw);
    assert line == front + parts[2];
    assert (front + text)[|front|..] == text && (front + parts[2])[|front|..] == parts[2];
  }

  /** A line no printer writes: five zero bytes with a stray bit are read as five zero bytes. */
  lemma StrayBitIsRead()
    ensures var line := EM_DASH + " a AAAAAAB=";
            ReadSigLine(line) == Some(RawSig("a", [0, 0, 0, 0, 0])) && !CanonicalLine(line)
  {
    var text := "AAAAAAB=";
    var parts := [EM_DASH, "a", text];
    JoinThree(EM_DASH, "a", text);
    assert EM_DASH + " a AAAAAAB=" == EM_DASH + " " + "a" + " " + text;
    SplitOfJoin(parts, ' ');
    StrayBits();
    assert [0, 0, 0] + [0, 0] == [0 as byte, 0, 0, 0, 0];
  }

  lemma StrayBits()
    ensures Base64.Decode("AAAAAAB=") == Some([0, 0, 0] + [0, 0]) && !Base64.Canonical("AAAAAAB=")
  {
    var text := "AAAAAAB=";
    assert text[..4] == "AAAA" && text[4..] == "AAB=";
    assert Base64.SextetOf('A') == 0 && Base64.SextetOf('B') == 1;
    assert [0 as byte, 0, 0][..3] == [0, 0, 0] && [0 as byte, 0, 64][..2] == [0, 0];
    assert Base64.ReadQuantum("AAAA", 3) == Some([0, 0, 0]);
    assert "AAB="[2..] == "B=" && "B="[0] == 'B';
    assert Base64.ReadQuantum("AAB=", 2) == Some([0, 0]);
    assert Base64.Decode("AAB=") == Some([0, 0]);
    assert !Base64.Canonical("AAB=");
  }

  // ---------------------------------------------------------------- notes

  datatype RawNote = RawNote(text: string, sigs: seq<RawSig>)

  function ReadSigs(lines: seq<string>): Option<seq<RawSig>> {
    if lines == [] then Some([])
    else
      var front, last := ReadSigs(lines[..|lines| - 1]), ReadSigLine(lines[|lines| - 1]);
      if front.None? || last.None? then None else Some(front.value + [last.value])
  }

  /** All lines are read, one by one, or none. */
  lemma {:induction false} ReadSigsExact(lines: seq<string>)
    ensures ReadSigs(lines).Some? <==> forall i :: 0 <= i < |lines| ==> ReadSigLine(lines[i]).Some?
    ensures ReadSigs(lines).Some? ==>
              && |ReadSigs(lines).value| == |lines|
              && forall i :: 0 <= i < |lines| ==> ReadSigLine(lines[i]) == Some(ReadSigs(lines).value[i])
    decreases |lines|
  {
    hide ReadSigLine;
    if lines != [] {
      var front := lines[..|lines| - 1];
      ReadSigsExact(front);
      assert forall i :: 0 <= i < |front| ==> lines[i] == front[i];
    }
  }

  /** block[:-1]. */
  function DropLast(s: string): string {
    if s == "" then "" else s[..|s| - 1]
  }

  /** The lines after the last blank line. */
  function NoteLines(s: string): seq<string>
    requires LastBlank(s) >= 0
  {
    Split(DropLast(s[LastBlank(s) + 2..]), '\n')
  }

  /** split_note: text up to the last blank line, at most 100 signature lines after it. */
  function SplitNoteSpec(s: string): Option<RawNote> {
    if !Allowed(s, '\n') || s == "" || s[|s| - 1] != '\n' || LastBlank(s) < 0 then None
    else
      var lines := NoteLines(s);
      var sigs := ReadSigs(lines);
      if |lines| > MAX_SIGS || sigs.None? then None else Some(RawNote(s[..LastBlank(s) + 1], sigs.value))
  }

  method SplitNote(s: string) returns (r: Option<RawNote>)
    ensures r == SplitNoteSpec(s)
  {
    hide ReadSigLine, Split, ReadSigs, Allowed;
    if !Allowed(s, '\n') || s == "" || s[|s| - 1] != '\n' {
      return None;
    }
    var i := LastBlank(s);
    if i < 0 {
      return None;
    }
    var sigs := ReadEachLine(Split(DropLast(s[i + 2..]), '\n'));
    r := if sigs.None? then None else Some(RawNote(s[..i + 1], sigs.value));
  }

  /** The loop over the signature lines, which stops at the 101st. */
  method ReadEachLine(lines: seq<string>) returns (r: Option<seq<RawSig>>)
    ensures r == if |lines| > MAX_SIGS then None else ReadSigs(lines)
  {
    hide ReadSigLine;
    ReadSigsExact(lines);
    var sigs := [];
    for k := 0 to |lines|
      invariant |sigs| == k <= MAX_SIGS && ReadSigs(lines[..k]) == Some(sigs)
    {
      if |sigs| >= MAX_SIGS {
        return None;
      }
      var sig := ReadSigLine(lines[k]);
      if sig.None? {
        return None;
      }
      assert lines[..k + 1][..k] == lines[..k];
      sigs := sigs + [sig.value];
    }
    assert lines[..|lines|] == lines;
    r := Some(sigs);
  }

  /** The lines are readable as these signatures, one by one. */
  ghost predicate ReadAs(lines: seq<string>, sigs: seq<RawSig>) {
    |lines| == |sigs| && SolidLines(lines) && forall i :: 0 <= i < |lines| ==> ReadSigLine(lines[i]) == Some(sigs[i])
  }

  /** A text that may stand before the signatures: it ends with a newline, blank lines inside allowed. */
  predicate NoteText(text: string) {
    text != "" && text[|text| - 1] == '\n' && Allowed(text, '\n')
  }

  lemma BlankBeforeBlock(text: string, block: string)
    requires text != "" && text[|text| - 1] == '\n' && NoBlank("\n" + block)
    ensures LastBlank(text + "\n" + block) == |text| - 1
  {
    var s := text + "\n" + block;
    assert BlankAt(s, |text| - 1);
    forall i | |text| <= i < |s| ensures !BlankAt(s, i) {
      assert BlankAt(s, i) ==> BlankAt("\n" + block, i - |text|);
    }
  }

  /** The signature block of solid lines: no blank line in it, and its lines come back. */
  lemma {:induction false} BlockOfLines(lines: seq<string>)
    requires SolidLines(lines) && |lines| >= 1
    ensures NoBlank("\n" + Block(lines)) && Allowed(Block(lines), '\n')
    ensures Block(lines) != "" && Block(lines)[|Block(lines)| - 1] == '\n'
            && Split(DropLast(Block(lines)), '\n') == lines
  {
    hide Block, Split, Join;
    BlockIsJoin(lines);
    SolidIsAllowed(lines);
    SplitOfJoin(lines, '\n');
    BlockHasNoBlank(lines);
    assert DropLast(Block(lines)) == Join(lines, '\n');
  }

  lemma {:induction false} ReadAsSigs(lines: seq<string>, sigs: seq<RawSig>)
    requires ReadAs(lines, sigs)
    ensures ReadSigs(lines) == Some(sigs)
  {
    hide ReadSigLine, ReadSigs;
    ReadSigsExact(lines);
    assert ReadSigs(lines).value == sigs;
  }

  lemma {:induction false} NoteFromParts(text: string, block: string, lines: seq<string>, sigs: seq<RawSig>)
    requires text != "" && block != "" && block[|block| - 1] == '\n' && |lines| <= MAX_SIGS
    requires Allowed(text + "\n" + block, '\n') && LastBlank(text + "\n" + block) == |text| - 1
    requires Split(DropLast(block), '\n') == lines && ReadSigs(lines) == Some(sigs)
    ensures SplitNoteSpec(text + "\n" + block) == Some(RawNote(text, sigs))
  {
    hide ReadSigLine, Split, ReadSigs, LastBlank, DropLast, Allowed;
    var s := text + "\n" + block;
    assert s[..|text|] == text && s[|text| + 1..] == block;
  }

  lemma {:induction false} NoteParses(text: string, lines: seq<string>, sigs: seq<RawSig>)
    requires NoteText(text) && ReadAs(lines, sigs) && 1 <= |lines| <= MAX_SIGS
    ensures SplitNoteSpec(text + "\n" + Block(lines)) == Some(RawNote(text, sigs))
  {
    hide ReadSigLine, Block, Split, ReadSigs, LastBlank, NoBlank, DropLast, SplitNoteSpec;
    BlockOfLines(lines);
    ReadAsSigs(lines, sigs);
    BlankBeforeBlock(text, Block(lines));
    NoteFromParts(text, Block(lines), lines, sigs);
  }

  /** A block that is not empty and ends with a newline is its lines, each with its newline. */
  lemma {:induction false} LinesOfBlock(block: string)
    requires block != "" && block[|block| - 1] == '\n' && Allowed(block, '\n')
    ensures block == Block(Split(DropLast(block), '\n')) && AllNoControl(Split(DropLast(block), '\n'))
  {
    hide Block, Split, Join;
    var lines := Split(DropLast(block), '\n');
    JoinOfSplit(DropLast(block), '\n');
    JoinAllowed(lines, '\n');
    BlockIsJoin(lines);
    assert block == DropLast(block) + "\n";
  }

  lemma {:induction false} ParsedNoteShape(s: string) returns (lines: seq<string>)
    requires SplitNoteSpec(s).Some?
    ensures var n := SplitNoteSpec(s).value;
            NoteText(n.text) && ReadAs(lines, n.sigs) && 1 <= |lines| <= MAX_SIGS && s == n.text + "\n" + Block(lines)
    ensures LastBlank(s) >= 0 && lines == NoteLines(s)
  {
    hide Block, Split, ReadSigLine, ReadSigs, Allowed, LastBlank;
    var i := LastBlank(s);
    var block := s[i + 2..];
    lines := NoteLines(s);
    ReadSigsExact(lines);
    NoEmptyLines(lines);
    EmptyBlockLine();
    assert lines[0] != "" && lines == Split(DropLast(block), '\n');
    NotePieces(s, i);
    LinesOfBlock(block);
    ReadAsRead(lines, ReadSigs(lines).value);
  }

  lemma NoEmptyLines(lines: seq<string>)
    requires forall i :: 0 <= i < |lines| ==> ReadSigLine(lines[i]).Some?
    ensures forall i :: 0 <= i < |lines| ==> lines[i] != ""
  {
    hide ReadSigLine;
    EmptyLineIsNoSig();
  }

  lemma EmptyBlockLine()
    ensures Split(DropLast(""), '\n') == [""]
  {
    SplitOfPiece("", '\n');
  }

  lemma NotePieces(s: string, i: nat)
    requires Allowed(s, '\n') && s != "" && s[|s| - 1] == '\n' && BlankAt(s, i) && s[i + 2..] != ""
    ensures var block := s[i + 2..];
            && NoteText(s[..i + 1]) && Allowed(block, '\n') && block[|block| - 1] == '\n'
            && s == s[..i + 1] + "\n" + block
  {
  }

  lemma ReadAsRead(lines: seq<string>, sigs: seq<RawSig>)
    requires |sigs| == |lines| && (forall i :: 0 <= i < |lines| ==> ReadSigLine(lines[i]) == Some(sigs[i]))
    requires AllNoControl(lines) && forall i :: 0 <= i < |lines| ==> lines[i] != ""
    ensures ReadAs(lines, sigs)
  {
    hide ReadSigLine, NoControl;
  }

  lemma EmptyLineIsNoSig()
    ensures ReadSigLine("").None?
  {
    SplitOfPiece("", ' ');
  }

  /**
   Notes, exactly: a string splits into a text and signatures if and only if it is that text, an
   empty line, and one readable line for each of those signatures, 1 to 100 of them.  The text may
   itself hold empty lines.
   */
  lemma NoteExact(s: string, n: RawNote)
    ensures SplitNoteSpec(s) == Some(n) <==>
            && NoteText(n.text) && 1 <= |n.sigs| <= 100
            && exists lines :: ReadAs(lines, n.sigs) && s == n.text + "\n" + Block(lines)
  {
    if SplitNoteSpec(s) == Some(n) {
      var lines := ParsedNoteShape(s);
      assert ReadAs(lines, n.sigs);
    }
    if && NoteText(n.text) && 1 <= |n.sigs| <= MAX_SIGS
       && exists lines :: ReadAs(lines, n.sigs) && s == n.text + "\n" + Block(lines) {
      var lines :| ReadAs(lines, n.sigs) && s == n.text + "\n" + Block(lines);
      NoteParses(n.text, lines, n.sigs);
    }
  }

  predicate Printable(sigs: seq<RawSig>) {
    forall i :: 0 <= i < |sigs| ==> PrintSigLine(sigs[i]).Some? && 5 <= |sigs[i].raw| <= MAX_SIG_BYTES
  }

  function PrintSigs(sigs: seq<RawSig>): (r: seq<string>)
    requires Printable(sigs)
    ensures |r| == |sigs|
  {
    seq(|sigs|, i requires 0 <= i < |sigs| => PrintSigLine(sigs[i]).value)
  }

  /** A note as sign_note and the cosigners write it, line after line: it splits back into what was written. */
  lemma {:induction false} NoteRoundTrip(n: RawNote)
    requires NoteText(n.text) && 1 <= |n.sigs| <= MAX_SIGS && Printable(n.sigs)
    ensures SplitNoteSpec(n.text + "\n" + Block(PrintSigs(n.sigs))) == Some(n)
  {
    hide PrintSigLine, ReadSigLine, SplitNoteSpec, NoControl;
    var lines := PrintSigs(n.sigs);
    forall i | 0 <= i < |lines| ensures ReadSigLine(lines[i]) == Some(n.sigs[i]) && lines[i] != ""
        && NoControl(lines[i]) {
      SigLineRoundTrip(n.sigs[i]);
    }
    NoteParses(n.text, lines, n.sigs);
  }

  /**
   Which accepted notes are printed ones: exactly those whose signature lines are all canonical.  Any
   other accepted note reads as the same text and signatures as a printed one, with other bytes.
   */
  lemma {:induction false} NotePrintedExactly(s: string)
    requires SplitNoteSpec(s).Some?
    ensures LastBlank(s) >= 0
    ensures var n := SplitNoteSpec(s).value;
            Printable(n.sigs) && s == n.text + "\n" + Block(PrintSigs(n.sigs))
            <==> forall i :: 0 <= i < |NoteLines(s)| ==> CanonicalLine(NoteLines(s)[i])
  {
    var lines := ParsedNoteShape(s);
    var n := SplitNoteSpec(s).value;
    hide SplitNoteSpec, CanonicalLine, Printable, NoteLines, Block, LastBlank, ReadAs, NoteText;
    PrintedLinesExact(lines, n.sigs);
    var front := n.text + "\n";
    if Printable(n.sigs) && s == front + Block(PrintSigs(n.sigs)) {
      var printed := PrintSigs(n.sigs);
      assert (front + Block(printed))[|front|..] == Block(printed) && (front + Block(lines))[|front|..] == Block(lines);
      SameBlock(lines, n.sigs);
    }
  }

  lemma {:induction false} PrintedLinesExact(lines: seq<string>, sigs: seq<RawSig>)
    requires ReadAs(lines, sigs)
    ensures Printable(sigs) && PrintSigs(sigs) == lines <==> forall i :: 0 <= i < |lines| ==> CanonicalLine(lines[i])
  {
    hide CanonicalLine, PrintSigLine, ReadSigLine, NoControl;
    forall i | 0 <= i < |lines| ensures PrintSigLine(sigs[i]) == Some(lines[i]) <==> CanonicalLine(lines[i]) {
      SigLineExact(lines[i]);
    }
    SigBytes(lines, sigs);
    if Printable(sigs) && PrintSigs(sigs) == lines {
      forall i | 0 <= i < |lines| ensures CanonicalLine(lines[i]) {
        assert PrintSigs(sigs)[i] == lines[i];
      }
    }
  }

  lemma SameBlock(lines: seq<string>, sigs: seq<RawSig>)
    requires ReadAs(lines, sigs) && |lines| >= 1 && Printable(sigs) && Block(PrintSigs(sigs)) == Block(lines)
    ensures PrintSigs(sigs) == lines
  {
    hide Block, PrintSigLine, ReadSigLine, NoControl, NoBlank, Allowed;
    SolidPrinted(sigs);
    BlockOfLines(PrintSigs(sigs));
    BlockOfLines(lines);
  }

  lemma SigBytes(lines: seq<string>, sigs: seq<RawSig>)
    requires ReadAs(lines, sigs)
    ensures forall i :: 0 <= i < |sigs| ==> 5 <= |sigs[i].raw| <= MAX_SIG_BYTES
  {
    hide Split, Base64.Decode;
    forall i | 0 <= i < |sigs| ensures 5 <= |sigs[i].raw| <= MAX_SIG_BYTES {
      assert ReadSigLine(lines[i]) == Some(sigs[i]);
    }
  }

  lemma {:induction false} SolidPrinted(sigs: seq<RawSig>)
    requires Printable(sigs)
    ensures SolidLines(PrintSigs(sigs))
  {
    hide PrintSigLine, ReadSigLine, NoControl;
    forall i | 0 <= i < |sigs| ensures PrintSigs(sigs)[i] != "" && NoControl(PrintSigs(sigs)[i]) {
      SigLineRoundTrip(sigs[i]);
    }
  }

  /** cosign: a line appended to any accepted note leaves its text and its signatures and adds one. */
  lemma {:induction false} CosignatureAppends(s: string, sig: RawSig)
    requires SplitNoteSpec(s).Some? && |SplitNoteSpec(s).value.sigs| < MAX_SIGS
    requires PrintSigLine(sig).Some? && 5 <= |sig.raw| <= MAX_SIG_BYTES
    ensures var n := SplitNoteSpec(s).value;
            SplitNoteSpec(s + (PrintSigLine(sig).value + "\n")) == Some(RawNote(n.text, n.sigs + [sig]))
  {
    hide PrintSigLine, ReadSigLine, SplitNoteSpec, NoteLines, LastBlank, Block, NoControl, NoteText;
    var n := SplitNoteSpec(s).value;
    var line := PrintSigLine(sig).value;
    var lines := ParsedNoteShape(s);
    SigLineRoundTrip(sig);
    BlockAppend(lines, line);
    NoteParses(n.text, lines + [line], n.sigs + [sig]);
    assert n.text + "\n" + Block(lines + [line]) == s + (line + "\n");
  }

  // ---------------------------------------------------------------- add-checkpoint body

  datatype Body = Body(oldSize: nat, proof: seq<string>, note: string)

  /** format_add_checkpoint_body. */
  function FormatBody(b: Body): string {
    "old " + Print(b.oldSize) + "\n" + Block(b.proof) + "\n" + b.note
  }

  predicate ProofLineOk(p: string) {
    var h := Base64.Decode(p);
    h.Some? && |h.value| == 32
  }

  predicate ProofLinesOk(proof: seq<string>) {
    forall i :: 0 <= i < |proof| ==> ProofLineOk(proof[i])
  }

  /** parse_add_checkpoint_body; None where it raises. */
  function ParseBody(s: string): Option<Body> {
    var i := FirstBlank(s);
    if i < 0 || i + 2 == |s| || s[i + 2] == '\n' then None
    else
      var lines := Split(s[..i], '\n');
      var first := lines[0];
      if |first| < 4 || first[..4] != "old " || !IsSize(first[4..]) then None
      else if |lines| - 1 > MAX_PROOF || !ProofLinesOk(lines[1..]) then None
      else Some(Body(Value(first[4..]), lines[1..], s[i + 2..]))
  }

  /** What a client may send: sizes of at most 20 digits, 63 proof hashes, a note that does not start with a newline. */
  predicate BodyOk(b: Body) {
    b.oldSize < Pow10(20) && |b.proof| <= MAX_PROOF && ProofLinesOk(b.proof) && b.note != "" && b.note[0] != '\n'
  }

  lemma ProofLineIsSolid(p: string)
    requires ProofLineOk(p)
    ensures p != "" && NoControl(p)
  {
    Base64.DecodedIsPlain(p);
    assert forall i :: 0 <= i < |p| ==> Base64.Base64Char(p[i]);
  }

  function BodyLines(b: Body): seq<string> {
    ["old " + Print(b.oldSize)] + b.proof
  }

  lemma {:induction false} BodyLinesAreSolid(b: Body)
    requires ProofLinesOk(b.proof)
    ensures SolidLines(BodyLines(b)) && AllWithout(BodyLines(b), '\n')
    ensures FormatBody(b) == Join(BodyLines(b), '\n') + "\n\n" + b.note
  {
    hide ProofLineOk, Base64.Decode;
    var lines := BodyLines(b);
    forall i | 0 <= i < |lines| ensures lines[i] != "" && NoControl(lines[i]) {
      if i > 0 {
        assert lines[i] == b.proof[i - 1];
        ProofLineIsSolid(b.proof[i - 1]);
      } else {
        assert AllDigits(Print(b.oldSize));
      }
    }
    BlockIsJoin(lines);
    assert lines[1..] == b.proof;
    assert Block(lines) == lines[0] + "\n" + Block(b.proof);
    assert FormatBody(b) == Block(lines) + ("\n" + b.note);
  }

  /** The empty line the formatter writes is the first one in the body. */
  lemma {:induction false} FirstBlankOfBody(b: Body)
    requires ProofLinesOk(b.proof)
    ensures FirstBlank(FormatBody(b)) == |Join(BodyLines(b), '\n')|
  {
    hide Block, Join, ProofLinesOk;
    var s, head := FormatBody(b), Join(BodyLines(b), '\n');
    BodyLinesAreSolid(b);
    BlockHasNoBlank(BodyLines(b));
    BlockIsJoin(BodyLines(b));
    assert BlankAt(s, |head|);
    var t := "\n" + (head + "\n");
    assert NoBlank(t);
    forall i | 0 <= i < |head| ensures !BlankAt(s, i) {
      assert BlankAt(s, i) ==> BlankAt(t, i + 1);
    }
  }

  lemma {:induction false} FormattedParses(b: Body)
    requires BodyOk(b)
    ensures ParseBody(FormatBody(b)) == Some(b)
  {
    hide Block, Join, ProofLinesOk, Split;
    var s, lines := FormatBody(b), BodyLines(b);
    FirstBlankOfBody(b);
    BodyLinesAreSolid(b);
    SplitOfJoin(lines, '\n');
    var i := FirstBlank(s);
    assert s[..i] == Join(lines, '\n') && s[i + 2..] == b.note && s[i + 2] == b.note[0];
    assert lines[1..] == b.proof && lines[0][..4] == "old " && lines[0][4..] == Print(b.oldSize);
    SizeExact(Print(b.oldSize), b.oldSize);
  }

  lemma {:induction false} ParsedFormats(s: string)
    requires ParseBody(s).Some?
    ensures BodyOk(ParseBody(s).value) && FormatBody(ParseBody(s).value) == s
  {
    hide Block, Join, ProofLinesOk, Split, FormatBody, Print, Value, IsSize, Pow10;
    var b := ParseBody(s).value;
    var i := FirstBlank(s);
    var lines := Split(s[..i], '\n');
    JoinOfSplit(s[..i], '\n');
    var digits := lines[0][4..];
    SizeBelow(digits);
    SizeExact(digits, b.oldSize);
    assert lines[0] == "old " + digits;
    assert BodyLines(b) == lines;
    BodyLinesAreSolid(b);
    assert s == s[..i] + "\n\n" + s[i + 2..];
  }

  lemma SizeBelow(s: string)
    requires IsSize(s)
    ensures Value(s) < Pow10(20)
  {
    PrintOfValue(s);
    Pow10Monotone(|s|, 20);
  }

  lemma {:induction false} Pow10Monotone(a: nat, b: nat)
    requires a <= b
    ensures Pow10(a) <= Pow10(b)
    decreases b
  {
    if a < b {
      Pow10Monotone(a, b - 1);
    }
  }

  /** Request bodies, exactly: what is parsed is what was formatted, and nothing else is accepted. */
  lemma BodyExact(s: string, b: Body)
    ensures ParseBody(s) == Some(b) <==>
            && b.oldSize < 100000000000000000000 && |b.proof| <= 63
            && (forall i :: 0 <= i < |b.proof| ==>
                 Base64.Decode(b.proof[i]).Some? && |Base64.Decode(b.proof[i]).value| == 32)
            && b.note != "" && b.note[0] != '\n'
            && s == "old " + Print(b.oldSize) + "\n" + Block(b.proof) + "\n" + b.note
  {
    hide Base64.Decode, Print, Block, ParseBody;
    TwentyDigits();
    if ParseBody(s).Some? {
      ParsedFormats(s);
    }
    if BodyOk(b) {
      FormattedParses(b);
    }
  }
}
