/**
 The segmented writer of cryptovalid_ingest.py as a value: the directory, the writer's memory, what
 each operation makes of them, and when the archive it leaves verifies.
 */
module IngestWriter {
  import opened MerkleTree
  import opened Ledger
  import opened Archive
  import opened SegmentNames

  /** Where append says the event is: a segment number and an index in it. */
  datatype Ref = Ref(segment: nat, idx: nat)

  /** All lines of the sealed segments are chains, and all their sidecars readable. */
  ghost predicate SealedGood(sealed: seq<Sealed>) {
    forall i :: 0 <= i < |sealed| ==> GoodLines(sealed[i].lines)
  }

  /** The events of the sealed segments, in order. */
  ghost function SealedEvents(sealed: seq<Sealed>): seq<Event>
    requires SealedGood(sealed)
  {
    if sealed == [] then []
    else SealedEvents(sealed[..|sealed| - 1]) + EventsOf(sealed[|sealed| - 1].lines)
  }

  lemma SealedEventsAppend(sealed: seq<Sealed>, s: Sealed)
    requires SealedGood(sealed) && GoodLines(s.lines)
    ensures SealedGood(sealed + [s]) && SealedEvents(sealed + [s]) == SealedEvents(sealed) + EventsOf(s.lines)
  {
    assert (sealed + [s])[..|sealed|] == sealed;
  }

  lemma {:induction false} EventsAppend(a: seq<Line>, b: seq<Line>)
    requires AllWritten(a) && AllWritten(b)
    ensures AllWritten(a + b) && EventsOf(a + b) == EventsOf(a) + EventsOf(b)
  {
  }

  /** A ledger of written lines parses back to its entries. */
  lemma {:induction false} WrittenParses(lines: seq<Line>)
    requires AllWritten(lines)
    ensures ParsedEntries(lines) == EntriesOf(lines)
    decreases |lines|
  {
    if lines != [] {
      var front := lines[..|lines| - 1];
      WrittenParses(front);
      assert EntriesOf(lines) == EntriesOf(front) + [lines[|lines| - 1].kind.entry];
    } else {
      assert EntriesOf(lines) == [];
    }
  }

  lemma {:induction false} GoodPasses(lines: seq<Line>)
    requires GoodLines(lines)
    ensures LedgerPasses(lines)
  {
    hide ParsedEntries;
    WrittenParses(lines);
    GoodEntriesChained(lines);
    assert forall i :: 0 <= i < |lines| ==> Written(lines[i]);
  }

  lemma {:induction false} GoodEntriesChained(lines: seq<Line>)
    requires GoodLines(lines)
    ensures EntriesChained(EntriesOf(lines))
  {
    hide Chained, Written, EntryLinked;
    forall i | 0 <= i < |lines| ensures EntryLinked(EntriesOf(lines), i) {
      GoodEntryLinked(lines, i);
    }
  }

  lemma GoodEntryLinked(lines: seq<Line>, i: nat)
    requires GoodLines(lines) && i < |lines|
    ensures EntryLinked(EntriesOf(lines), i)
  {
    assert AllWritten(lines);
    GoodLineAt(lines, i);
    EntryAt(lines, i);
    EntryAt(lines, if i > 0 then i - 1 else i);
    hide *;
    LinkedFromLines(EntriesOf(lines), lines, i);
  }

  lemma LinkedFromLines(es: seq<Entry>, lines: seq<Line>, i: nat)
    requires i < |lines| == |es| && lines[i].kind.EntryLine? && es[i] == lines[i].kind.entry && es[i].idx == i
    requires i == 0 ==> es[i].prev == Genesis
    requires i > 0 ==> lines[i - 1].kind.EntryLine? && es[i - 1] == lines[i - 1].kind.entry
    requires i > 0 ==> es[i].prev == SelfHash(lines[i - 1].kind.entry)
    ensures EntryLinked(es, i)
  {
  }

  lemma EntryAt(lines: seq<Line>, i: nat)
    requires AllWritten(lines) && i < |lines|
    ensures lines[i].kind.EntryLine? && EntriesOf(lines)[i] == lines[i].kind.entry
  {
    assert Written(lines[i]);
  }

  lemma GoodLineAt(lines: seq<Line>, i: nat)
    requires GoodLines(lines) && i < |lines|
    ensures lines[i].kind.EntryLine? && lines[i].kind.entry.idx == i && (i > 0 ==> lines[i - 1].kind.EntryLine?)
    ensures lines[i].kind.entry.prev == if i == 0 then Genesis else SelfHash(lines[i - 1].kind.entry)
  {
    assert Written(lines[i]);
    assert i > 0 ==> Written(lines[i - 1]);
    assert lines[i].kind.entry.prev == LinkAt(lines, i);
  }

  /** A document signed with the backend's key, or unsigned without one. */
  function SignWith<B>(key: Option<nat>, body: B): DocSig<B> {
    if key.None? then Unsigned else Signed(key.value, key.value, body)
  }

  function SealBody(sealed: seq<Sealed>, lines: seq<Line>, now: nat): SthBody
    requires GoodLines(lines)
  {
    SthBody(|lines|, Mth(EntriesOf(lines)), |sealed|, now, LastLink(lines), PrevSth(sealed, |sealed|))
  }

  function HeadFor(sealed: seq<Sealed>, now: nat, key: Option<nat>): Head
    requires sealed != []
  {
    var body := HeadBody(|sealed|, |sealed| - 1, PrevSth(sealed, |sealed|), now);
    Head(body, SignWith(key, body))
  }

  lemma {:induction false} SegmentsOkFrame(a: seq<Sealed>, b: seq<Sealed>, n: nat, trusted: Option<set<nat>>)
    requires n <= |a| && a <= b && SegmentsOk(a, n, trusted)
    ensures SegmentsOk(b, n, trusted)
  {
    hide SegmentOk;
    if n > 0 {
      SegmentsOkFrame(a, b, n - 1, trusted);
    }
  }

  // ---------------------------------------------------------------- the writer as a value

  /**
   The directory (sealed segments, active file, its sidecar if a seal did not get past it, HEAD) and
   the writer's memory.  Segment i has number i; the active file has number |sealed|.
   */
  datatype Writer = Writer(
    sealed: seq<Sealed>, active: File, sidecar: Option<Sth>, head: HeadFile, idx: nat, prev: Link, first: Link,
        buf: seq<Line>)

  /** The lines of the active segment, written or still queued. */
  function ActiveLines(w: Writer): seq<Line> {
    w.active.lines + w.buf
  }

  /** Keys an auditor pins: the backend's, or none. */
  function Pinned(key: Option<nat>): Option<set<nat>> {
    if key.None? then None else Some({key.value})
  }

  /** The files that have a sidecar, by number. */
  function Directory(w: Writer): seq<Sealed> {
    w.sealed + if w.sidecar.Some? then [Sealed(w.active.lines, w.sidecar)] else []
  }

  /** What an auditor of the directory reads. */
  function View(w: Writer): ArchiveView {
    ArchiveView(Listing(Directory(w)), w.head)
  }

  /** Every tree head carries the number of its segment. */
  ghost predicate Numbered(sealed: seq<Sealed>) {
    forall i :: 0 <= i < |sealed| ==> sealed[i].sth.Some? && sealed[i].sth.value.body.segment == i
  }

  /** HEAD is not there yet, or is what the writer wrote when it had sealed that many segments. */
  ghost predicate HeadFits(head: HeadFile, sealed: seq<Sealed>, key: Option<nat>) {
    match head
    case NoHead => true
    case UnreadableHead => false
    case HeadFile(h) =>
      && 0 < h.body.segmentsSealed <= |sealed| && h.body.lastSth == PrevSth(sealed, h.body.segmentsSealed)
      && h.sig == SignWith(key, h.body)
  }

  /** A sidecar of the active segment was made for the lines it then had. */
  ghost predicate SidecarFits(w: Writer, key: Option<nat>) {
    w.sidecar.Some? ==>
      var b := w.sidecar.value.body;
      && 0 < b.treeSize <= |w.active.lines| && GoodLines(w.active.lines[..b.treeSize])
      && b == SealBody(w.sealed, w.active.lines[..b.treeSize], b.sealedAt)
      && w.sidecar.value.sig == SignWith(key, b)
  }

  ghost predicate CountersOk(w: Writer) {
    && GoodLines(ActiveLines(w))
    && w.idx == |ActiveLines(w)| && w.prev == LastLink(ActiveLines(w)) && w.first == FirstLink(ActiveLines(w), w.idx)
  }

  /** The sealed part: chains of events, numbered tree heads that verify in order, a HEAD that fits them. */
  ghost predicate SealedFits(sealed: seq<Sealed>, head: HeadFile, key: Option<nat>) {
    SealedGood(sealed) && SegmentsOk(sealed, |sealed|, Pinned(key)) && Numbered(sealed) && HeadFits(head, sealed, key)
  }

  /** The writer's invariant: valid chains, counters in step, nothing lost. */
  ghost predicate Inv(w: Writer, key: Option<nat>, log: seq<Event>) {
    && w.active.torn == 0
    && CountersOk(w)
    && SealedFits(w.sealed, w.head, key)
    && SidecarFits(w, key)
    && log == SealedEvents(w.sealed) + EventsOf(ActiveLines(w))
  }

  function LineAt(w: Writer, r: Ref): Option<Line> {
    if r.segment < |w.sealed| then
      if r.idx < |w.sealed[r.segment].lines| then Some(w.sealed[r.segment].lines[r.idx]) else None
    else if r.segment == |w.sealed| && r.idx < |ActiveLines(w)| then Some(ActiveLines(w)[r.idx])
    else None
  }

  /** A ref locates an event: in a sealed segment, or among the active lines. */
  predicate Locates(w: Writer, r: Ref, e: Event) {
    LineAt(w, r).Some? && LineAt(w, r).value.kind.EntryLine? && LineAt(w, r).value.kind.entry.data == e
  }

  // ---------------------------------------------------------------- the operations

  /** append, the part under the lock before the flush. */
  function Queue(w: Writer, data: Event, ts: nat, bytes: nat): Writer {
    var e := Entry(w.idx, ts, data, w.prev);
    w.(buf := w.buf + [Line(EntryLine(e, SelfHash(e)), bytes)], idx := w.idx + 1, prev := SelfHash(e),
       first := if w.idx == 0 then SelfHash(e) else w.first)
  }

  function Flushed(w: Writer): Writer {
    w.(active := File(ActiveLines(w), w.active.torn), buf := [])
  }

  /** seal after the flush, up to the sidecar: what is left when writing HEAD fails. */
  function WithSidecar(w: Writer, now: nat, key: Option<nat>): Writer
    requires GoodLines(w.active.lines)
  {
    var body := SealBody(w.sealed, w.active.lines, now);
    w.(sidecar := Some(Sth(body, SignWith(key, body))))
  }

  /** seal after the flush: sidecar, HEAD, fresh segment. */
  function Rotated(w: Writer, now: nat, key: Option<nat>): Writer
    requires GoodLines(w.active.lines)
  {
    var sealed := Directory(WithSidecar(w, now, key));
    Writer(sealed, File([], 0), None, HeadFile(HeadFor(sealed, now, key)), 0, Genesis, Genesis, w.buf)
  }

  lemma {:induction false} QueueCounters(w: Writer, data: Event, ts: nat, bytes: nat)
    requires CountersOk(w) && bytes > 0
    ensures CountersOk(Queue(w, data, ts, bytes))
    ensures ActiveLines(Queue(w, data, ts, bytes)) == ActiveLines(w) + [NextLine(ActiveLines(w), ts, data, bytes)]
  {
    var lines := ActiveLines(w);
    var line := NextLine(lines, ts, data, bytes);
    AppendKeepsGood(lines, ts, data, bytes);
    assert ActiveLines(Queue(w, data, ts, bytes)) == lines + [line];
    assert w.idx > 0 ==> FirstLink(lines + [line], w.idx + 1) == FirstLink(lines, w.idx);
  }

  /** Queuing adds one event, which the returned ref locates. */
  lemma {:induction false} QueueInv(w: Writer, key: Option<nat>, log: seq<Event>, data: Event, ts: nat, bytes: nat)
    requires Inv(w, key, log) && bytes > 0
    ensures var q := Queue(w, data, ts, bytes);
            Inv(q, key, log + [data]) && Locates(q, Ref(|w.sealed|, |ActiveLines(w)|), data)
    ensures var e := Entry(|ActiveLines(w)|, ts, data, LastLink(ActiveLines(w)));
            ActiveLines(Queue(w, data, ts, bytes)) == ActiveLines(w) + [Line(EntryLine(e, SelfHash(e)), bytes)]
  {
    SealedPart(w, key);
    hide SealedEvents, SealedFits, SealedGood, GoodLines, CountersOk, SealBody;
    CountersGood(w);
    QueueCounters(w, data, ts, bytes);
    var lines := ActiveLines(w);
    var line := NextLine(lines, ts, data, bytes);
    assert AllWritten([line]);
    EventsAppend(lines, [line]);
    assert EventsOf([line]) == [data];
    assert SealedEvents(w.sealed) + (EventsOf(lines) + [data]) == (SealedEvents(w.sealed) + EventsOf(lines)) + [data];
  }

  lemma SealedPart(w: Writer, key: Option<nat>)
    requires SealedFits(w.sealed, w.head, key)
    ensures SealedGood(w.sealed)
  {
  }

  lemma CountersGood(w: Writer)
    requires CountersOk(w)
    ensures GoodLines(ActiveLines(w)) && AllWritten(ActiveLines(w)) && w.idx == |ActiveLines(w)|
  {
  }

  /** What was located stays located when lines are only added. */
  lemma QueueKeepsRefs(w: Writer, data: Event, ts: nat, bytes: nat, r: Ref, e: Event)
    requires Locates(w, r, e)
    ensures Locates(Queue(w, data, ts, bytes), r, e)
  {
  }

  /** Flushing moves lines and loses nothing. */
  lemma {:induction false} FlushKeeps(w: Writer, key: Option<nat>, log: seq<Event>)
    requires Inv(w, key, log)
    ensures Inv(Flushed(w), key, log) && ActiveLines(Flushed(w)) == ActiveLines(w)
    ensures forall r, e :: Locates(w, r, e) ==> Locates(Flushed(w), r, e)
  {
    hide GoodLines, SealedEvents, SealedFits, EventsOf, LastLink, FirstLink, SealBody;
    var f := Flushed(w);
    assert ActiveLines(f) == ActiveLines(w);
    assert w.sidecar.Some? ==>
        var k := w.sidecar.value.body.treeSize; f.active.lines[..k] == w.active.lines[..k];
  }

  /** HEAD failing leaves a sidecar that fits all the lines there are. */
  lemma {:induction false} SidecarInv(w: Writer, key: Option<nat>, log: seq<Event>, now: nat)
    requires Inv(w, key, log) && w.buf == [] && w.idx >= 1
    ensures GoodLines(w.active.lines) && w.active.lines == ActiveLines(w)
    ensures var s := WithSidecar(w, now, key);
            && Inv(s, key, log) && (forall r, e :: Locates(w, r, e) ==> Locates(s, r, e))
            && s.sidecar.value.body.treeSize == |s.active.lines|
  {
    hide GoodLines, SealedEvents, SealedFits, EventsOf, LastLink, FirstLink, Mth;
    CountersGood(w);
    assert w.active.lines == ActiveLines(w);
    var s := WithSidecar(w, now, key);
    assert ActiveLines(s) == ActiveLines(w);
    assert s.active.lines[..|s.active.lines|] == s.active.lines;
  }

  lemma {:induction false} SegmentPasses(sealed: seq<Sealed>, lines: seq<Line>, now: nat, key: Option<nat>)
    requires GoodLines(lines)
    ensures var body := SealBody(sealed, lines, now);
            SegmentOk(Sealed(lines, Some(Sth(body, SignWith(key, body)))), PrevSth(sealed, |sealed|), Pinned(key))
  {
    hide Mth, LedgerPasses;
    GoodPasses(lines);
    WrittenParses(lines);
  }

  /** One more segment that passes. */
  lemma {:induction false} SegmentsExtend(sealed: seq<Sealed>, s: Sealed, trusted: Option<set<nat>>)
    requires SegmentsOk(sealed, |sealed|, trusted) && SegmentOk(s, PrevSth(sealed, |sealed|), trusted)
    ensures SegmentsOk(sealed + [s], |sealed| + 1, trusted)
  {
    hide SegmentOk;
    var all := sealed + [s];
    SegmentsOkFrame(sealed, all, |sealed|, trusted);
    assert PrevSth(all, |sealed|) == PrevSth(sealed, |sealed|);
  }

  /** A sidecar that covers all the lines makes the segment fit; the directory with it is as good as sealed. */
  lemma {:induction false} DirectoryFits(w: Writer, key: Option<nat>)
    requires SealedFits(w.sealed, w.head, key) && SidecarFits(w, key)
    requires w.sidecar.Some? ==> w.sidecar.value.body.treeSize == |w.active.lines|
    ensures SealedFits(Directory(w), w.head, key)
  {
    if w.sidecar.Some? {
      var lines, b := w.active.lines, w.sidecar.value.body;
      assert lines[..|lines|] == lines;
      NumberedExtends(w.sealed, lines, w.sidecar.value);
      SealedGoodExtends(w.sealed, Sealed(lines, w.sidecar));
      hide SegmentOk, SegmentsOk, SealedGood, Numbered, GoodLines, HeadFits;
      SegmentPasses(w.sealed, lines, b.sealedAt, key);
      SegmentsExtend(w.sealed, Sealed(lines, w.sidecar), Pinned(key));
      HeadStillFits(w.head, w.sealed, Directory(w), key);
    } else {
      assert Directory(w) == w.sealed;
    }
  }

  lemma NumberedExtends(sealed: seq<Sealed>, lines: seq<Line>, sth: Sth)
    requires Numbered(sealed) && sth.body.segment == |sealed|
    ensures Numbered(sealed + [Sealed(lines, Some(sth))])
  {
  }

  lemma SealedGoodExtends(sealed: seq<Sealed>, s: Sealed)
    requires SealedGood(sealed) && GoodLines(s.lines)
    ensures SealedGood(sealed + [s])
  {
    hide GoodLines;
  }

  lemma HeadStillFits(head: HeadFile, a: seq<Sealed>, b: seq<Sealed>, key: Option<nat>)
    requires HeadFits(head, a, key) && a <= b
    ensures HeadFits(head, b, key)
  {
  }

  /** Sealing loses nothing and keeps every ref. */
  lemma {:induction false} RotateInv(w: Writer, key: Option<nat>, log: seq<Event>, now: nat)
    requires Inv(w, key, log) && w.buf == [] && w.idx >= 1
    ensures GoodLines(w.active.lines) && w.active.lines == ActiveLines(w)
    ensures var s := Rotated(w, now, key);
            && Inv(s, key, log) && (forall r, e :: Locates(w, r, e) ==> Locates(s, r, e))
            && HeadCounts(s.head, |s.sealed|) && s.sidecar.None?
  {
    SidecarInv(w, key, log, now);
    var m, s := WithSidecar(w, now, key), Rotated(w, now, key);
    DirectoryFits(m, key);
    SealedAway(m, log);
    NewHeadFits(m, now, key);
    forall r, e | Locates(w, r, e) ensures Locates(s, r, e) {
      RotateKeepsRefs(w, now, key, r, e);
    }
    EmptyEvents();
    EmptyCounters(s);
    NoSidecar(s, key);
    hide SealedFits, SealedEvents, GoodLines, SealBody, SealedGood, SidecarFits, CountersOk, EventsOf, Locates, HeadFor;
    assert ActiveLines(s) == [];
  }

  lemma NewHeadFits(m: Writer, now: nat, key: Option<nat>)
    requires SealedFits(Directory(m), m.head, key) && m.sidecar.Some?
    ensures var files := Directory(m); var head := HeadFile(HeadFor(files, now, key));
            SealedFits(files, head, key) && HeadCounts(head, |files|)
  {
    hide SealedGood, SegmentsOk, Numbered;
  }

  lemma RotateKeepsRefs(w: Writer, now: nat, key: Option<nat>, r: Ref, e: Event)
    requires GoodLines(w.active.lines) && w.buf == [] && Locates(w, r, e)
    ensures Locates(Rotated(w, now, key), r, e)
  {
    hide GoodLines, SealBody, HeadFor;
    assert ActiveLines(w) == w.active.lines;
  }

  lemma EmptyCounters(w: Writer)
    requires ActiveLines(w) == [] && w.idx == 0 && w.prev == Genesis && w.first == Genesis
    ensures CountersOk(w)
  {
  }

  /** Counting the active segment as sealed changes no event. */
  lemma {:induction false} SealedAway(w: Writer, log: seq<Event>)
    requires SealedGood(w.sealed) && GoodLines(w.active.lines) && w.sidecar.Some?
    ensures SealedGood(Directory(w)) && SealedEvents(Directory(w)) == SealedEvents(w.sealed) + EventsOf(w.active.lines)
  {
    SealedEventsAppend(w.sealed, Sealed(w.active.lines, w.sidecar));
  }

  /** HEAD is the manifest of a directory of n sealed segments. */
  predicate HeadCounts(head: HeadFile, n: nat) {
    head.HeadFile? && head.head.body.segmentsSealed == n
  }

  // ---------------------------------------------------------------- when the archive verifies

  lemma {:induction false} FirstOutOfPlace(s: seq<nat>, n: nat) returns (i: nat)
    requires |s| == n && s != Numbers(n)
    ensures i < n && s[i] != i && forall k :: 0 <= k < i ==> s[k] == k
  {
    i := 0;
    while i < n && s[i] == i
      invariant i <= n && forall k :: 0 <= k < i ==> s[k] == k
    {
      i := i + 1;
    }
  }

  /** Numbered tree heads tell the order: a listing out of numeric order breaks the chain of tree heads. */
  lemma {:induction false} ListedSegmentsOk(files: seq<Sealed>, trusted: Option<set<nat>>)
    requires SegmentsOk(files, |files|, trusted) && Numbered(files)
    ensures SegmentsOk(Listing(files), |files|, trusted) <==> |files| <= 1000000
  {
    hide SegmentOk, SegmentsOk, Listed;
    var n, listed := |files|, Listing(files);
    ListedInOrderExactly(n);
    ListedIsPermutation(n);
    if n <= 1000000 {
      assert listed == files;
    } else {
      var i := FirstOutOfPlace(Listed(n), n);
      var at := Listed(n)[i];
      assert listed[i] == files[at];
      EachSegmentOk(files, n, at, trusted);
      if SegmentsOk(listed, n, trusted) {
        EachSegmentOk(listed, n, i, trusted);
        OutOfPlace(files, listed, at, i, trusted);
      }
    }
  }

  lemma OutOfPlace(files: seq<Sealed>, listed: seq<Sealed>, at: nat, i: nat, trusted: Option<set<nat>>)
    requires Numbered(files) && at < |files| && i < |files| == |listed| && at != i && listed[i] == files[at]
    requires i > 0 ==> listed[i - 1] == files[i - 1]
    requires SegmentOk(files[at], PrevSth(files, at), trusted)
    ensures !SegmentOk(listed[i], PrevSth(listed, i), trusted)
  {
    hide LedgerPasses, ParsedEntries, Mth;
  }

  /** A sidecar for fewer lines than the segment has fails wherever the segment is listed. */
  lemma {:induction false} OldSidecarFails(w: Writer, key: Option<nat>, trusted: Option<set<nat>>)
    requires SidecarFits(w, key) && w.sidecar.Some? && GoodLines(w.active.lines)
    requires w.sidecar.value.body.treeSize < |w.active.lines|
    ensures !ArchiveOk(View(w), trusted)
  {
    hide SegmentOk, SegmentsOk, Listed, ArchiveOk, Broken;
    var files := Directory(w);
    assert files[|w.sealed|] == Sealed(w.active.lines, w.sidecar);
    MismatchIsBroken(files[|w.sealed|], trusted);
    BrokenSegmentStays(files, |w.sealed|, trusted);
  }

  /**
   When the archive of a writer verifies: exactly when there is a sealed segment, at most 10^6 of
   them, HEAD is missing or counts them all, and a sidecar left on the active segment covers its lines.
   */
  lemma {:induction false} ArchiveVerifiesExactly(w: Writer, key: Option<nat>, log: seq<Event>)
    requires Inv(w, key, log)
    ensures ArchiveOk(View(w), Pinned(key)) <==>
            && Directory(w) != [] && |Directory(w)| <= 1000000
            && (w.head.NoHead? || HeadCounts(w.head, |Directory(w)|))
            && (w.sidecar.Some? ==> w.sidecar.value.body.treeSize == |w.active.lines|)
  {
    hide SegmentsOk, Listed, SealedEvents, Mth, SealBody;
    var files := Directory(w);
    if w.sidecar.Some? && w.sidecar.value.body.treeSize < |w.active.lines| {
      ActiveIsGood(w);
      OldSidecarFails(w, key, Pinned(key));
    } else {
      DirectoryFits(w, key);
      ListedSegmentsOk(files, Pinned(key));
      if |files| <= 1000000 {
        ListedInOrderExactly(|files|);
        assert Listing(files) == files;
        CurrentHead(w.head, files, key);
      }
    }
  }

  lemma ActiveIsGood(w: Writer)
    requires CountersOk(w)
    ensures GoodLines(w.active.lines)
  {
    GoodPrefix(ActiveLines(w), |w.active.lines|);
    assert ActiveLines(w)[..|w.active.lines|] == w.active.lines;
  }

  lemma CurrentHead(head: HeadFile, files: seq<Sealed>, key: Option<nat>)
    requires HeadFits(head, files, key)
    ensures HeadOk(ArchiveView(files, head), Pinned(key)) <==> head.NoHead? || HeadCounts(head, |files|)
  {
  }

  // ---------------------------------------------------------------- crashes

  /** The active file after a crash that let k bytes of the queued batch reach it. */
  function Crashed(w: Writer, k: nat): File
    requires w.active.torn == 0
  {
    CrashWrite(w.active, w.buf, k)
  }

  /** Reopening with the active file found last and no sidecar on it: it is resumed. */
  ghost function ResumedWriter(w: Writer, k: nat): Writer
    requires GoodLines(ActiveLines(w))
  {
    var kept := w.active.lines + w.buf[..CompleteLines(w.buf, k)];
    assert kept == ActiveLines(w)[..|w.active.lines| + CompleteLines(w.buf, k)];
    Writer(w.sealed, File(kept, 0), None, w.head, |kept|, LastLink(kept), FirstLink(kept, |kept|), [])
  }

  /** A file as an auditor reads it: a torn tail is a line that does not decode. */
  function LinesOf(f: File): seq<Line> {
    f.lines + if f.torn > 0 then [Line(NotJson, f.torn)] else []
  }

  /** Reopening with a sidecar on the active file: the segment counts as sealed as it is, a fresh one is opened. */
  function Adopted(w: Writer, k: nat): Writer
    requires w.active.torn == 0
  {
    Writer(w.sealed + [Sealed(LinesOf(Crashed(w, k)), w.sidecar)], File([], 0), None, w.head, 0, Genesis, Genesis, [])
  }

  lemma CutLines(a: seq<Line>, b: seq<Line>, j: nat)
    requires j <= |b|
    ensures (a + b)[..|a| + j] == a + b[..j] && a + b == (a + b[..j]) + b[j..]
    ensures AllWritten(a + b) ==> AllWritten(b[j..])
  {
    hide Written;
    assert forall i :: 0 <= i < |b| - j ==> b[j..][i] == (a + b)[|a| + j + i];
  }

  /** The lines a crash keeps, and those it loses, as a cut of the active lines. */
  lemma {:induction false} ResumedLines(w: Writer, k: nat)
    requires GoodLines(ActiveLines(w))
    ensures var v := ResumedWriter(w, k);
            var lost := w.buf[CompleteLines(w.buf, k)..];
            && ActiveLines(w) == ActiveLines(v) + lost && GoodLines(ActiveLines(v)) && AllWritten(lost) && CountersOk(v)
  {
    var j := CompleteLines(w.buf, k);
    var v := ResumedWriter(w, k);
    GoodPrefix(ActiveLines(w), |w.active.lines| + j);
    CutLines(w.active.lines, w.buf, j);
    assert AllWritten(ActiveLines(w));
    hide CompleteLines, GoodLines, AllWritten;
    assert ActiveLines(v) == v.active.lines;
  }

  /** Resuming keeps a prefix of the events and all counters. */
  lemma {:induction false} ResumeInv(w: Writer, key: Option<nat>, log: seq<Event>, k: nat)
    requires Inv(w, key, log)
    ensures GoodLines(ActiveLines(w))
    ensures var j := CompleteLines(w.buf, k);
            |log| >= |w.buf| - j && Inv(ResumedWriter(w, k), key, log[..|log| - (|w.buf| - j)])
  {
    CountersGood(w);
    ResumedLines(w, k);
    hide SealedEvents, SealedFits, CompleteLines, GoodLines, CountersOk, EventsOf, ActiveLines;
    var v := ResumedWriter(w, k);
    var lost := w.buf[CompleteLines(w.buf, k)..];
    CountersGood(v);
    EventsAppend(ActiveLines(v), lost);
    assert log == (SealedEvents(w.sealed) + EventsOf(ActiveLines(v))) + EventsOf(lost);
  }

  /**
   Adopting a segment with a left-over sidecar keeps the invariant exactly when the sidecar covers all
   its lines and the crash let nothing more reach the file.
   */
  lemma {:induction false} AdoptInvExactly(w: Writer, key: Option<nat>, log: seq<Event>, k: nat)
    requires Inv(w, key, log) && w.sidecar.Some?
    ensures w.sidecar.value.body.treeSize == |w.active.lines| && Crashed(w, k) == w.active ==>
              |log| >= |w.buf| && Inv(Adopted(w, k), key, log[..|log| - |w.buf|])
    ensures !(w.sidecar.value.body.treeSize == |w.active.lines| && Crashed(w, k) == w.active) ==>
              && Broken(Adopted(w, k).sealed[|w.sealed|], Pinned(key))
              && !SegmentsOk(Adopted(w, k).sealed, |w.sealed| + 1, Pinned(key))
  {
    ActiveIsGood(w);
    CountersGood(w);
    if w.sidecar.value.body.treeSize == |w.active.lines| && Crashed(w, k) == w.active {
      AdoptWhole(w, key, log, k);
    } else {
      GrownFails(w, key, k);
      hide Broken, SegmentOk;
      BrokenAmong(Adopted(w, k).sealed, |w.sealed|, |w.sealed| + 1, Pinned(key));
    }
  }

  lemma {:induction false} AdoptWhole(w: Writer, key: Option<nat>, log: seq<Event>, k: nat)
    requires Inv(w, key, log) && w.sidecar.Some? && GoodLines(w.active.lines) && GoodLines(ActiveLines(w))
    requires w.sidecar.value.body.treeSize == |w.active.lines| && Crashed(w, k) == w.active
    ensures |log| >= |w.buf| && Inv(Adopted(w, k), key, log[..|log| - |w.buf|])
  {
    SealedPart(w, key);
    DirectoryFits(w, key);
    SealedAway(w, log);
    AllWrittenParts(w);
    var v := Adopted(w, k);
    assert LinesOf(w.active) == w.active.lines;
    assert v.sealed == Directory(w) && ActiveLines(v) == [];
    EmptyCounters(v);
    NoSidecar(v, key);
    EventsAppend(w.active.lines, w.buf);
    EmptyEvents();
    hide SealedEvents, SealedFits, GoodLines, SidecarFits, Directory, CountersOk, SealedGood, EventsOf;
    WholeInv(w, v, key, log);
  }

  lemma CutLog(log: seq<Event>, a: seq<Event>, b: seq<Event>, c: seq<Event>)
    ensures log == a + (b + c) ==> |log| >= |c| && log[..|log| - |c|] == a + b
  {
  }

  lemma WholeInv(w: Writer, v: Writer, key: Option<nat>, log: seq<Event>)
    requires Inv(w, key, log) && v.active.torn == 0 && CountersOk(v) && SealedFits(v.sealed, v.head, key)
    requires SidecarFits(v, key) && ActiveLines(v) == [] && v.sealed == Directory(w)
    requires AllWritten(w.active.lines) && AllWritten(w.buf) && SealedGood(w.sealed) && SealedGood(v.sealed)
    requires EventsOf(ActiveLines(w)) == EventsOf(w.active.lines) + EventsOf(w.buf)
    requires SealedEvents(v.sealed) == SealedEvents(w.sealed) + EventsOf(w.active.lines)
    ensures |log| >= |w.buf| && Inv(v, key, log[..|log| - |w.buf|])
  {
    hide SealedEvents, SealedFits, GoodLines, SidecarFits, Directory, CountersOk, SealedGood;
    CutLog(log, SealedEvents(w.sealed), EventsOf(w.active.lines), EventsOf(w.buf));
  }

  /** With nothing queued and nothing more in the file, adopting keeps every ref. */
  lemma AdoptKeepsRefs(w: Writer, k: nat, r: Ref, e: Event)
    requires w.active.torn == 0 && w.buf == [] && Crashed(w, k) == w.active && Locates(w, r, e)
    ensures Locates(Adopted(w, k), r, e)
  {
    assert LinesOf(w.active) == w.active.lines == ActiveLines(w);
  }

  lemma NoSidecar(w: Writer, key: Option<nat>)
    requires w.sidecar.None?
    ensures SidecarFits(w, key)
  {
  }

  lemma EmptyEvents()
    ensures EventsOf([]) == []
  {
  }

  lemma AllWrittenParts(w: Writer)
    requires AllWritten(ActiveLines(w))
    ensures AllWritten(w.active.lines) && AllWritten(w.buf)
  {
    assert forall i :: 0 <= i < |w.active.lines| ==> w.active.lines[i] == ActiveLines(w)[i];
    assert forall i :: 0 <= i < |w.buf| ==> w.buf[i] == ActiveLines(w)[|w.active.lines| + i];
  }

  /** A segment that fails whatever tree head comes before it. */
  ghost predicate Broken(s: Sealed, trusted: Option<set<nat>>) {
    forall prev :: !SegmentOk(s, prev, trusted)
  }

  lemma {:induction false} GrownFails(w: Writer, key: Option<nat>, k: nat)
    requires SidecarFits(w, key) && w.sidecar.Some? && w.active.torn == 0 && GoodLines(ActiveLines(w))
    requires w.sidecar.value.body.treeSize < |w.active.lines| || Crashed(w, k) != w.active
    ensures Broken(Adopted(w, k).sealed[|w.sealed|], Pinned(key))
  {
    hide SegmentOk, SealBody, Mth, CrashWrite, GoodLines, Broken;
    var f := Crashed(w, k);
    var s := Sealed(LinesOf(f), w.sidecar);
    assert Adopted(w, k).sealed[|w.sealed|] == s;
    if f.torn > 0 {
      TornIsBroken(s, Pinned(key));
    } else {
      CrashedLines(w, k);
      assert LinesOf(f) == f.lines;
      MismatchIsBroken(s, Pinned(key));
    }
  }

  /** A crashed file that is not torn: a chain, longer than before or the same file. */
  lemma {:induction false} CrashedLines(w: Writer, k: nat)
    requires w.active.torn == 0 && GoodLines(ActiveLines(w)) && Crashed(w, k).torn == 0
    ensures var f := Crashed(w, k);
            GoodLines(f.lines) && |f.lines| >= |w.active.lines| && (|f.lines| == |w.active.lines| ==> f == w.active)
  {
    CrashKeepsCompleteLines(w.active, w.buf, k);
    var j := CompleteLines(w.buf, k);
    hide CrashWrite, CompleteLines;
    GoodPrefix(ActiveLines(w), |w.active.lines| + j);
    CutLines(w.active.lines, w.buf, j);
    assert j == 0 ==> w.active.lines + w.buf[..0] == w.active.lines;
  }

  lemma TornIsBroken(s: Sealed, trusted: Option<set<nat>>)
    requires s.lines != [] && s.lines[|s.lines| - 1].kind.NotJson?
    ensures Broken(s, trusted)
  {
    hide EntriesChained, Mth;
  }

  lemma MismatchIsBroken(s: Sealed, trusted: Option<set<nat>>)
    requires GoodLines(s.lines) && s.sth.Some? && s.sth.value.body.treeSize != |s.lines|
    ensures Broken(s, trusted)
  {
    hide LedgerPasses, Mth, ParsedEntries;
    WrittenParses(s.lines);
  }

  /** A broken segment among those listed makes the list fail. */
  lemma BrokenAmong(s: seq<Sealed>, i: nat, n: nat, trusted: Option<set<nat>>)
    requires i < n <= |s| && Broken(s[i], trusted)
    ensures !SegmentsOk(s, n, trusted)
  {
    hide SegmentOk, SegmentsOk;
    if SegmentsOk(s, n, trusted) {
      EachSegmentOk(s, n, i, trusted);
    }
  }

  /** A broken segment is never repaired: no directory that has it verifies, whatever is sealed after it. */
  lemma {:induction false} BrokenSegmentStays(files: seq<Sealed>, i: nat, trusted: Option<set<nat>>)
    requires i < |files| && Broken(files[i], trusted)
    ensures forall head :: !ArchiveOk(ArchiveView(Listing(files), head), trusted)
  {
    hide SegmentsOk, Broken, Listed, HeadOk;
    var n, listed := |files|, Listing(files);
    ListedIsPermutation(n);
    assert i in Listed(n);
    var at :| 0 <= at < n && Listed(n)[at] == i;
    assert listed[at] == files[i];
    BrokenAmong(listed, at, n, trusted);
  }

  /** An append that restarts at index 0 on a file with lines, as after a wrong reopen, breaks its chain. */
  lemma {:induction false} RestartBreaksChain(lines: seq<Line>, ts: nat, data: Event, bytes: nat)
    requires GoodLines(lines) && lines != []
    ensures var e := Entry(0, ts, data, Genesis); !LedgerPasses(lines + [Line(EntryLine(e, SelfHash(e)), bytes)])
  {
    var e := Entry(0, ts, data, Genesis);
    var all := lines + [Line(EntryLine(e, SelfHash(e)), bytes)];
    WrittenParses(lines);
    PassesStep(all, |lines|);
    assert all[..|lines|] == lines && all[..|lines| + 1] == all;
  }

  /** A writer put on the file after the last listed one, when that was not the active file. */
  function Misplaced(w: Writer, k: nat): Writer
    requires w.active.torn == 0
  {
    w.(active := Crashed(w, k), idx := 0, prev := Genesis, first := Genesis, buf := [])
  }

  /** Its counters are right exactly when the active file is empty. */
  lemma {:induction false} MisplacedInvExactly(w: Writer, key: Option<nat>, log: seq<Event>, k: nat)
    requires Inv(w, key, log)
    ensures w.active.torn == 0
    ensures var j := CompleteLines(w.buf, k);
            && |log| >= |w.buf| - j
            && (Inv(Misplaced(w, k), key, log[..|log| - (|w.buf| - j)]) <==> Crashed(w, k) == File([], 0))
  {
    hide *;
    ResumeInv(w, key, log, k);
    InvTorn(w, key, log);
    var cut := log[..|log| - (|w.buf| - CompleteLines(w.buf, k))];
    if Crashed(w, k) == File([], 0) {
      MisplacedOnEmpty(w, key, log, k);
    } else {
      MisplacedOnLines(w, key, cut, k);
    }
  }

  lemma MisplacedOnLines(w: Writer, key: Option<nat>, log: seq<Event>, k: nat)
    requires w.active.torn == 0 && Crashed(w, k) != File([], 0)
    ensures !Inv(Misplaced(w, k), key, log)
  {
    hide SealedFits, SidecarFits, CountersOk, CrashWrite, GoodLines, SealedEvents, EventsOf;
    NotEmptyNotCounted(Misplaced(w, k));
  }

  lemma {:induction false} MisplacedOnEmpty(w: Writer, key: Option<nat>, log: seq<Event>, k: nat)
    requires Inv(w, key, log) && w.active.torn == 0 && Crashed(w, k) == File([], 0) && GoodLines(ActiveLines(w))
    requires |log| >= |w.buf| - CompleteLines(w.buf, k)
    requires Inv(ResumedWriter(w, k), key, log[..|log| - (|w.buf| - CompleteLines(w.buf, k))])
    ensures Inv(Misplaced(w, k), key, log[..|log| - (|w.buf| - CompleteLines(w.buf, k))])
  {
    CrashKeepsCompleteLines(w.active, w.buf, k);
    assert w.active.lines == [] && w.sidecar.None?;
    assert Misplaced(w, k) == ResumedWriter(w, k);
  }

  lemma NotEmptyNotCounted(w: Writer)
    requires w.buf == [] && w.idx == 0 && w.active != File([], 0)
    ensures !(w.active.torn == 0 && CountersOk(w))
  {
    assert ActiveLines(w) == w.active.lines;
  }

  lemma InvTorn(w: Writer, key: Option<nat>, log: seq<Event>)
    requires Inv(w, key, log)
    ensures w.active.torn == 0 && GoodLines(ActiveLines(w)) && w.idx == |ActiveLines(w)|
  {
  }
}
