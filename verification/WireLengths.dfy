/**
 The lengths that the budgets of the witness count in are the lengths of what is written: checkpoint
 texts and signature lines in UTF-8; and base64 in the examples of its standard.
 */
module WireLengths {
  import opened Octets
  import opened Decimal
  import opened TextLines
  import Base64
  import opened Notes
  import opened Wire

  lemma {:induction false} LengthOfSum(a: string, b: string)
    ensures Utf8Length(a + b) == Utf8Length(a) + Utf8Length(b)
    decreases |a|
  {
    if a == [] {
      assert a + b == b;
    } else {
      assert (a + b)[1..] == a[1..] + b;
      LengthOfSum(a[1..], b);
    }
  }

  lemma {:induction false} AsciiLength(s: string)
    requires forall i :: 0 <= i < |s| ==> s[i] < '\U{80}'
    ensures Utf8Length(s) == |s|
  {
    if s != [] {
      AsciiLength(s[1..]);
    }
  }

  lemma {:induction false} PrintedDigits(n: nat)
    ensures |Print(n)| == Digits(n) && Utf8Length(Print(n)) == Digits(n)
  {
    if n >= 10 {
      PrintedDigits(n / 10);
    }
    AsciiLength(Print(n));
  }

  lemma {:induction false} JoinedLength(lines: seq<string>)
    requires |lines| >= 1
    ensures Utf8Length(Join(lines, '\n') + "\n") == LinesLength(lines)
    decreases |lines|
  {
    assert Utf8Length("\n") == 1;
    LengthOfSum(Join(lines, '\n'), "\n");
    if |lines| > 1 {
      JoinedLength(lines[1..]);
      LengthOfSum(Join(lines[1..], '\n'), "\n");
      LengthOfSum(lines[0] + "\n", Join(lines[1..], '\n'));
      LengthOfSum(lines[0], "\n");
      assert Join(lines, '\n') == (lines[0] + "\n") + Join(lines[1..], '\n');
    } else {
      assert lines[1..] == [];
    }
  }

  lemma PlainIsAscii(c: char)
    requires Base64.Base64Char(c)
    ensures c < '\U{80}'
  {
  }

  /** Four characters for each three octets begun, all of them ASCII. */
  lemma {:induction false} Base64Length(b: Bytes)
    ensures |Base64.Encode(b)| == 4 * ((|b| + 2) / 3) && Utf8Length(Base64.Encode(b)) == |Base64.Encode(b)|
  {
    var s := Base64.Encode(b);
    WholeQuanta(b);
    Base64.RoundTrip(b);
    Base64.DecodedIsPlain(s);
    hide Base64.Encode, Base64.Decode, Base64.Base64Char;
    forall i | 0 <= i < |s| ensures s[i] < '\U{80}' {
      PlainIsAscii(s[i]);
    }
    AsciiLength(s);
  }

  lemma {:induction false} WholeQuanta(b: Bytes)
    ensures |Base64.Encode(b)| == 4 * ((|b| + 2) / 3)
    decreases |b|
  {
    hide Base64.Quantum, Base64.Triple;
    if |b| > 2 {
      WholeQuanta(b[3..]);
    }
  }

  /** The length of a checkpoint text is that of its printed form. */
  lemma {:induction false} CheckpointLength(f: Fields, root: Root)
    requires PrintCheckpoint(f).Some?
    ensures Utf8Length(PrintCheckpoint(f).value) ==
            TextLength(CheckpointText(Checkpoint(f.origin, f.size, root), f.extensions))
  {
    hide Base64.Encode, Join, Print, Utf8Length, NoControl, SolidLines;
    var three := [f.origin, Print(f.size), Base64.Encode(f.root)];
    JoinedLength(three + f.extensions);
    PrintedDigits(f.size);
    Base64Length(f.root);
    ThreeLines(f.origin, Print(f.size), Base64.Encode(f.root), f.extensions);
  }

  lemma ThreeLines(a: string, b: string, c: string, rest: seq<string>)
    ensures LinesLength([a, b, c] + rest) ==
            Utf8Length(a) + 1 + Utf8Length(b) + 1 + Utf8Length(c) + 1 + LinesLength(rest)
  {
    hide Utf8Length;
    assert ([a, b, c] + rest)[1..] == [b, c] + rest;
    assert ([b, c] + rest)[1..] == [c] + rest;
    assert ([c] + rest)[1..] == rest;
    assert LinesLength([c] + rest) == Utf8Length(c) + 1 + LinesLength(rest);
    assert LinesLength([b, c] + rest) == Utf8Length(b) + 1 + LinesLength([c] + rest);
  }

  /** A signature line with its newline: the dash takes three octets, then the name and the base64 text. */
  lemma {:induction false} LineLength(s: RawSig)
    requires PrintSigLine(s).Some?
    ensures Utf8Length(PrintSigLine(s).value + "\n") == Utf8Length(s.name) + 4 * ((|s.raw| + 2) / 3) + 6
  {
    var start, end := EM_DASH + " ", Base64.Encode(s.raw);
    assert PrintSigLine(s).value + "\n" == (start + s.name) + ((" " + end) + "\n");
    assert start == "\U{2014} ";
    DashLength();
    Base64Length(s.raw);
    hide Utf8Length, PrintSigLine, Base64.Encode;
    LengthOfSum(start + s.name, (" " + end) + "\n");
    LengthOfSum(start, s.name);
    LengthOfSum(" " + end, "\n");
    LengthOfSum(" ", end);
  }

  lemma DashLength()
    ensures Utf8Length("\U{2014} ") == 4 && Utf8Length(" ") == 1 && Utf8Length("\n") == 1
  {
    assert "\U{2014} "[1..] == " ";
    assert " "[1..] == "" && "\n"[1..] == "";
  }

  /**
   A witness's lines have the width they are counted with: 76 octets of key id, timestamp and Ed25519
   signature, 2432 with an ML-DSA-44 signature.
   */
  lemma {:induction false} OwnLinesWidth(w: WitnessSpec.Signer, cp: Checkpoint, extensions: seq<string>, ts: nat,
      ed: Bytes, pq: Bytes)
    requires NameOk(w.name) && Utf8Length(w.name) <= 255
    requires |ed| == 4 + 8 + 64 && |pq| == 4 + 8 + 2420
    ensures var own := WitnessSpec.OwnLines(w, cp, extensions, ts);
            && PrintSigLine(RawSig(w.name, ed)).Some? && PrintSigLine(RawSig(w.name, pq)).Some?
            && own[0].width == Utf8Length(PrintSigLine(RawSig(w.name, ed)).value + "\n")
            && (w.pq.Some? ==> own[1].width == Utf8Length(PrintSigLine(RawSig(w.name, pq)).value + "\n"))
  {
    hide PrintSigLine, NameOk;
    NamePrints(w.name, ed);
    NamePrints(w.name, pq);
    LineLength(RawSig(w.name, ed));
    LineLength(RawSig(w.name, pq));
  }

  lemma NamePrints(name: string, raw: Bytes)
    requires NameOk(name) && Utf8Length(name) <= 255
    ensures PrintSigLine(RawSig(name, raw)).Some?
  {
    hide NameOk;
  }

  /** Each line is as wide as its printed form with its newline. */
  predicate Widths(sigs: seq<SigLine>, lines: seq<string>) {
    |sigs| == |lines| && forall i :: 0 <= i < |sigs| ==> sigs[i].width == Utf8Length(lines[i] + "\n")
  }

  lemma {:induction false} BlockLength(sigs: seq<SigLine>, lines: seq<string>)
    requires Widths(sigs, lines)
    ensures Utf8Length(Block(lines)) == WidthOf(sigs)
    decreases |sigs|
  {
    if sigs != [] {
      BlockLength(sigs[1..], lines[1..]);
      LengthOfSum(lines[0] + "\n", Block(lines[1..]));
      assert Block(lines) == (lines[0] + "\n") + Block(lines[1..]);
    }
  }

  /** The length of a note is that of its text, the empty line and its signature lines, as written in UTF-8. */
  lemma {:induction false} NoteLengthIs(f: Fields, root: Root, sigs: seq<SigLine>, lines: seq<string>)
    requires PrintCheckpoint(f).Some? && Widths(sigs, lines)
    ensures Utf8Length(PrintCheckpoint(f).value + "\n" + Block(lines)) ==
            NoteLength(Note(CheckpointText(Checkpoint(f.origin, f.size, root), f.extensions), sigs))
  {
    var text := PrintCheckpoint(f).value;
    DashLength();
    hide PrintCheckpoint, Block, Utf8Length, TextLength;
    CheckpointLength(f, root);
    BlockLength(sigs, lines);
    LengthOfSum(text + "\n", Block(lines));
    LengthOfSum(text, "\n");
  }

  /** The examples of section 10 of RFC 4648, and the last two letters of the alphabet. */
  lemma Base64Examples()
    ensures Base64.Encode([]) == "" && Base64.Encode([0x66]) == "Zg==" && Base64.Encode([0x66, 0x6F]) == "Zm8="
    ensures Base64.Encode([0x66, 0x6F, 0x6F]) == "Zm9v" && Base64.Encode([0xFB, 0xFF]) == "+/8="
  {
    OneOctet();
    TwoOctets();
    ThreeOctets();
    LastLetters();
  }

  lemma OneOctet()
    ensures Base64.Encode([0x66]) == "Zg=="
  {
  }

  lemma TwoOctets()
    ensures Base64.Encode([0x66, 0x6F]) == "Zm8="
  {
  }

  lemma ThreeOctets()
    ensures Base64.Encode([0x66, 0x6F, 0x6F]) == "Zm9v"
  {
    assert [0x66, 0x6F, 0x6F][3..] == [];
  }

  lemma LastLetters()
    ensures Base64.Encode([0xFB, 0xFF]) == "+/8="
  {
  }
}
