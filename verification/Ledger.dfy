/**
 Hash-chained ledger lines and files, as cryptovalid_ingest.py writes and resumes them.  A line is a
 unit with a length in bytes; a torn tail is what a crash leaves of a line cut before its newline.
 */
module Ledger {
  type Event = string

  /** The self_hash of an entry, as the term that was hashed. */
  datatype Link = Genesis | SelfHash(entry: Entry)

  /** The hashed fields of an entry. */
  datatype Entry = Entry(idx: nat, ts: nat, data: Event, prev: Link)

  datatype LineKind = EntryLine(entry: Entry, selfHash: Link) | BlankLine | NotJson
  datatype Line = Line(kind: LineKind, bytes: nat)

  /** Complete lines, then `torn` bytes of an incomplete one. */
  datatype File = File(lines: seq<Line>, torn: nat)

  function FileBytes(lines: seq<Line>): nat {
    if lines == [] then 0 else FileBytes(lines[..|lines| - 1]) + lines[|lines| - 1].bytes
  }

  /** A line as append writes it: an entry with its own hash. */
  predicate Written(l: Line) {
    l.kind.EntryLine? && l.kind.selfHash == SelfHash(l.kind.entry) && l.bytes > 0
  }

  predicate AllWritten(lines: seq<Line>) {
    forall i :: 0 <= i < |lines| ==> Written(lines[i])
  }

  function LinkAt(lines: seq<Line>, i: nat): Link
    requires i <= |lines| && AllWritten(lines)
  {
    if i == 0 then Genesis else lines[i - 1].kind.selfHash
  }

  /** idx from 0, each entry linked to the one before it, the first to the genesis value. */
  predicate Chained(lines: seq<Line>)
    requires AllWritten(lines)
  {
    forall i :: 0 <= i < |lines| ==> lines[i].kind.entry.idx == i && lines[i].kind.entry.prev == LinkAt(lines, i)
  }

  /** A chain of written lines. */
  predicate GoodLines(lines: seq<Line>) {
    AllWritten(lines) && Chained(lines)
  }

  function LastLink(lines: seq<Line>): Link
    requires AllWritten(lines)
  {
    LinkAt(lines, |lines|)
  }

  lemma GoodPrefix(lines: seq<Line>, k: nat)
    requires GoodLines(lines) && k <= |lines|
    ensures GoodLines(lines[..k])
  {
    forall i | 0 <= i < k ensures lines[..k][i].kind.entry.prev == LinkAt(lines[..k], i) {
      assert LinkAt(lines[..k], i) == LinkAt(lines, i);
    }
  }

  /** The line append would queue next. */
  function NextLine(lines: seq<Line>, ts: nat, data: Event, bytes: nat): Line
    requires AllWritten(lines)
  {
    var e := Entry(|lines|, ts, data, LastLink(lines));
    Line(EntryLine(e, SelfHash(e)), bytes)
  }

  lemma AppendKeepsGood(lines: seq<Line>, ts: nat, data: Event, bytes: nat)
    requires GoodLines(lines) && bytes > 0
    ensures GoodLines(lines + [NextLine(lines, ts, data, bytes)])
  {
    var longer := lines + [NextLine(lines, ts, data, bytes)];
    assert AllWritten(longer);
    forall i | 0 <= i < |longer| ensures longer[i].kind.entry.idx == i
        && longer[i].kind.entry.prev == LinkAt(longer, i) {
      assert LinkAt(longer, i) == LinkAt(lines, i);
    }
  }

  function EntriesOf(lines: seq<Line>): (r: seq<Entry>)
    requires AllWritten(lines)
    ensures |r| == |lines|
  {
    seq(|lines|, i requires 0 <= i < |lines| => lines[i].kind.entry)
  }

  function EventsOf(lines: seq<Line>): (r: seq<Event>)
    requires AllWritten(lines)
    ensures |r| == |lines|
  {
    seq(|lines|, i requires 0 <= i < |lines| => lines[i].kind.entry.data)
  }

  // ---------------------------------------------------------------- crash and recovery

  /** The file after a crash that let k bytes of the batch reach it. */
  function CrashWrite(file: File, batch: seq<Line>, k: nat): File
    requires file.torn == 0
    decreases |batch|
  {
    if batch == [] then file
    else if k >= batch[0].bytes then CrashWrite(File(file.lines + [batch[0]], 0), batch[1..], k - batch[0].bytes)
    else File(file.lines, k)
  }

  /** How many lines of the batch are complete in its first k bytes. */
  function CompleteLines(batch: seq<Line>, k: nat): (j: nat)
    ensures j <= |batch|
  {
    if batch == [] || k < batch[0].bytes then 0 else 1 + CompleteLines(batch[1..], k - batch[0].bytes)
  }

  lemma {:induction false} CrashKeepsCompleteLines(file: File, batch: seq<Line>, k: nat)
    requires file.torn == 0
    ensures CrashWrite(file, batch, k).lines == file.lines + batch[..CompleteLines(batch, k)]
    decreases |batch|
  {
    if batch != [] && k >= batch[0].bytes {
      var j := CompleteLines(batch[1..], k - batch[0].bytes);
      CrashKeepsCompleteLines(File(file.lines + [batch[0]], 0), batch[1..], k - batch[0].bytes);
      assert [batch[0]] + batch[1..][..j] == batch[..j + 1];
    }
  }

  /** What _resume ends with: the lines kept, the counters and links, or a refusal of a tampered chain. */
  datatype Resumed = Tampered(at: nat) | Resumed(kept: nat, idx: nat, prev: Link, first: Link)

  /** The scan over the complete lines: blank lines are skipped, undecodable ones end it, a broken chain is refused. */
  function Scan(lines: seq<Line>, kept: nat, idx: nat, prev: Link, first: Link): Resumed
    decreases |lines| - kept
  {
    if kept >= |lines| then Resumed(kept, idx, prev, first)
    else
      match lines[kept].kind
      case BlankLine => Scan(lines, kept + 1, idx, prev, first)
      case NotJson => Resumed(kept, idx, prev, first)
      case EntryLine(e, h) =>
        if e.idx != idx || e.prev != prev || h != SelfHash(e) then Tampered(idx)
        else Scan(lines, kept + 1, idx + 1, h, if idx == 0 then h else first)
  }

  /** _resume: the counters, the truncated file and the bytes dropped. */
  method Resume(file: File) returns (r: Resumed, after: File, recoveredBytes: nat)
    ensures r == Scan(file.lines, 0, 0, Genesis, Genesis)
    ensures r.Tampered? ==> after == file
    ensures r.Resumed? ==> r.kept <= |file.lines| && after == File(file.lines[..r.kept], 0)
    ensures r.Resumed? ==> recoveredBytes + FileBytes(after.lines) == FileBytes(file.lines) + file.torn
  {
    var goodEnd: nat, idx: nat, prev, first := 0, 0, Genesis, Genesis;
    var i := 0;
    recoveredBytes := 0;
    while i < |file.lines|
      invariant i <= |file.lines|
      invariant goodEnd == FileBytes(file.lines[..i]) <= FileBytes(file.lines)
      invariant Scan(file.lines, i, idx, prev, first) == Scan(file.lines, 0, 0, Genesis, Genesis)
    {
      var line := file.lines[i];
      if line.kind.NotJson? {
        break;
      }
      if line.kind.EntryLine? {
        var e := line.kind.entry;
        if e.idx != idx || e.prev != prev || line.kind.selfHash != SelfHash(e) {
          return Tampered(idx), file, 0;
        }
        if idx == 0 {
          first := line.kind.selfHash;
        }
        idx, prev := idx + 1, line.kind.selfHash;
      }
      assert file.lines[..i + 1][..i] == file.lines[..i];
      goodEnd := goodEnd + line.bytes;
      i := i + 1;
      PrefixBytes(file.lines, i);
    }
    PrefixBytes(file.lines, i);
    assert file.lines[..|file.lines|] == file.lines;
    r := Resumed(i, idx, prev, first);
    var size := FileBytes(file.lines) + file.torn;
    if size > goodEnd {
      recoveredBytes := size - goodEnd;
    }
    after := File(file.lines[..i], 0);
  }

  lemma {:induction false} PrefixBytes(lines: seq<Line>, k: nat)
    requires k <= |lines|
    ensures FileBytes(lines[..k]) <= FileBytes(lines)
    decreases |lines|
  {
    if k < |lines| {
      var shorter := lines[..|lines| - 1];
      PrefixBytes(shorter, k);
      assert shorter[..k] == lines[..k];
    } else {
      assert lines[..k] == lines;
    }
  }

  /** The self_hash of entry 0, once it has been seen. */
  function FirstLink(lines: seq<Line>, kept: nat): Link
    requires kept <= |lines| && AllWritten(lines)
  {
    if kept == 0 then Genesis else LinkAt(lines, 1)
  }

  lemma ScanStep(lines: seq<Line>, kept: nat)
    requires GoodLines(lines) && kept < |lines|
    ensures Scan(lines, kept, kept, LinkAt(lines, kept), FirstLink(lines, kept))
            == Scan(lines, kept + 1, kept + 1, LinkAt(lines, kept + 1), FirstLink(lines, kept + 1))
  {
    assert Written(lines[kept]);
  }

  /** A chain of written lines is resumed whole, with the counters append needs. */
  lemma {:induction false} ScanGoodLines(lines: seq<Line>, kept: nat)
    requires GoodLines(lines) && kept <= |lines|
    ensures Scan(lines, kept, kept, LinkAt(lines, kept), FirstLink(lines, kept))
            == Resumed(|lines|, |lines|, LastLink(lines), FirstLink(lines, |lines|))
    decreases |lines| - kept
  {
    hide *;
    if kept < |lines| {
      ScanStep(lines, kept);
      ScanGoodLines(lines, kept + 1);
    } else {
      ScanEnd(lines);
    }
  }

  lemma ScanEnd(lines: seq<Line>)
    requires GoodLines(lines)
    ensures Scan(lines, |lines|, |lines|, LinkAt(lines, |lines|), FirstLink(lines, |lines|))
            == Resumed(|lines|, |lines|, LastLink(lines), FirstLink(lines, |lines|))
  {
  }

  /**
   Crash recovery: after a crash at any byte of a batch write, resuming keeps every flushed line
   plus the complete lines of the batch, drops the torn bytes, and continues a valid chain.
   */
  lemma {:induction false} CrashRecovery(file: File, batch: seq<Line>, k: nat)
    requires file.torn == 0 && GoodLines(file.lines + batch)
    ensures var crashed := CrashWrite(file, batch, k);
            var kept := file.lines + batch[..CompleteLines(batch, k)];
            && GoodLines(kept) && crashed.lines == kept
            && Scan(crashed.lines, 0, 0, Genesis, Genesis)
               == Resumed(|kept|, |kept|, LastLink(kept), FirstLink(kept, |kept|))
  {
    hide Scan;
    CrashKeepsCompleteLines(file, batch, k);
    var j := CompleteLines(batch, k);
    var all := file.lines + batch;
    GoodPrefix(all, |file.lines| + j);
    assert all[..|file.lines| + j] == file.lines + batch[..j];
    ScanGoodLines(file.lines + batch[..j], 0);
  }
}
