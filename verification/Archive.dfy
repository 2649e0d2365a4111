/**
 The archive of cryptovalid_ingest.py as an auditor sees it: sealed segments with their tree heads,
 chained across segments, and the HEAD manifest that commits to the count and the last tree head.
 */
module Archive {
  import opened MerkleTree
  import opened Ledger

  /** The hash of a tree head without its signature, as the term that was hashed. */
  datatype SthLink = GenesisSth | SthHash(body: SthBody)

  datatype SthBody = SthBody(treeSize: nat, root: Digest<Entry>, segment: nat, sealedAt: nat, lastSelfHash: Link,
      prev: SthLink)

  datatype HeadBody = HeadBody(segmentsSealed: nat, lastSegment: nat, lastSth: SthLink, updatedAt: nat)

  /** An Ed25519 signature over the canonical hash of a document, by the key it names. */
  datatype DocSig<B> = Unsigned | Signed(signer: nat, madeBy: nat, over: B)

  datatype Sth = Sth(body: SthBody, sig: DocSig<SthBody>)
  datatype Head = Head(body: HeadBody, sig: DocSig<HeadBody>)

  /** A sealed segment: its ledger file and its sidecar, unreadable when it is not a JSON object. */
  datatype Sealed = Sealed(lines: seq<Line>, sth: Option<Sth>)

  datatype HeadFile = NoHead | UnreadableHead | HeadFile(head: Head)

  /** What an auditor reads: the sealed segments in the order their names are listed, and HEAD. */
  datatype ArchiveView = ArchiveView(sealed: seq<Sealed>, head: HeadFile)

  /** The non-blank entries of a ledger file, in order (canonical forms, attestation fields left out). */
  function ParsedEntries(lines: seq<Line>): seq<Entry> {
    if lines == [] then []
    else ParsedEntries(lines[..|lines| - 1]) +
         match lines[|lines| - 1].kind
         case EntryLine(e, _) => [e]
         case _ => []
  }

  /** verify_ledger PASS: every line decodes, and idx, link and self_hash hold all along. */
  predicate LedgerPasses(lines: seq<Line>) {
    && (forall i :: 0 <= i < |lines| ==> !lines[i].kind.NotJson?)
    && (forall i :: 0 <= i < |lines| && lines[i].kind.EntryLine? ==>
         lines[i].kind.selfHash == SelfHash(lines[i].kind.entry))
    && EntriesChained(ParsedEntries(lines))
  }

  predicate EntriesChained(entries: seq<Entry>) {
    forall i :: 0 <= i < |entries| ==> EntryLinked(entries, i)
  }

  predicate EntryLinked(entries: seq<Entry>, i: nat)
    requires i < |entries|
  {
    entries[i].idx == i && entries[i].prev == LinkBefore(entries, i)
  }

  /** The hash an entry at position i must name. */
  function LinkBefore(entries: seq<Entry>, i: nat): Link
    requires i <= |entries|
  {
    if i == 0 then Genesis else SelfHash(entries[i - 1])
  }

  function LastSelf(entries: seq<Entry>): Link {
    LinkBefore(entries, |entries|)
  }

  /** What one more line asks of a ledger that passes so far. */
  predicate LineFits(entries: seq<Entry>, l: Line) {
    match l.kind
    case BlankLine => true
    case NotJson => false
    case EntryLine(e, h) => e.idx == |entries| && e.prev == LastSelf(entries) && h == SelfHash(e)
  }

  lemma {:induction false} ChainedAppend(es: seq<Entry>, e: Entry)
    ensures EntriesChained(es + [e]) <==> EntriesChained(es) && e.idx == |es| && e.prev == LastSelf(es)
  {
    var fs := es + [e];
    assert forall i :: 0 <= i < |es| ==> EntryLinked(fs, i) == EntryLinked(es, i);
    assert LinkBefore(fs, |es|) == LastSelf(es) && fs[|es|] == e;
    assert EntriesChained(fs) ==> EntryLinked(fs, |es|);
  }

  lemma {:induction false} PassesStep(lines: seq<Line>, k: nat)
    requires k < |lines|
    ensures LedgerPasses(lines[..k + 1]) <==> LedgerPasses(lines[..k]) && LineFits(ParsedEntries(lines[..k]), lines[k])
    ensures ParsedEntries(lines[..k + 1]) ==
            ParsedEntries(lines[..k]) + (if lines[k].kind.EntryLine? then [lines[k].kind.entry] else [])
  {
    hide EntriesChained;
    var a, b := lines[..k], lines[..k + 1];
    assert b[..|b| - 1] == a && b[k] == lines[k];
    assert forall i :: 0 <= i < k ==> b[i] == a[i];
    var es := ParsedEntries(a);
    if lines[k].kind.EntryLine? {
      ChainedAppend(es, lines[k].kind.entry);
    } else {
      assert es + [] == es;
    }
  }

  lemma {:induction false} PassesPrefix(lines: seq<Line>, j: nat, k: nat)
    requires j <= k <= |lines| && LedgerPasses(lines[..k])
    ensures LedgerPasses(lines[..j])
    decreases k
  {
    hide LedgerPasses, ParsedEntries;
    if j < k {
      PassesStep(lines, k - 1);
      PassesPrefix(lines, j, k - 1);
    }
  }

  /** The first line that does not decode, from line k on. */
  function FirstUndecodable(lines: seq<Line>, k: nat): (n: nat)
    requires k <= |lines|
    ensures k <= n <= |lines|
    decreases |lines| - k
  {
    if k == |lines| || lines[k].kind.NotJson? then k else FirstUndecodable(lines, k + 1)
  }

  /**
   Resuming, on any file: it succeeds exactly when the lines before the first undecodable one are a
   ledger the verifier passes, keeps exactly those, and goes on with their count and last hash.
   */
  lemma {:induction false} ResumeExact(lines: seq<Line>, k: nat, idx: nat, prev: Link, first: Link)
    requires k <= |lines| && LedgerPasses(lines[..k])
    requires idx == |ParsedEntries(lines[..k])| && prev == LastSelf(ParsedEntries(lines[..k]))
    ensures var r, n := Scan(lines, k, idx, prev, first), FirstUndecodable(lines, k);
            && (r.Resumed? <==> LedgerPasses(lines[..n]))
            && (r.Resumed? ==>
                  && r.kept == n && r.idx == |ParsedEntries(lines[..n])|
                  && r.prev == LastSelf(ParsedEntries(lines[..n])))
    decreases |lines| - k
  {
    hide LedgerPasses, ParsedEntries;
    if k < |lines| && !lines[k].kind.NotJson? {
      PassesStep(lines, k);
      var n := FirstUndecodable(lines, k);
      if LedgerPasses(lines[..n]) {
        PassesPrefix(lines, k + 1, n);
      }
      if LineFits(ParsedEntries(lines[..k]), lines[k]) {
        match lines[k].kind
        case BlankLine => ResumeExact(lines, k + 1, idx, prev, first);
        case EntryLine(e, h) => ResumeExact(lines, k + 1, idx + 1, h, if idx == 0 then h else first);
      }
    }
  }

  /** _check_signature with a set of trusted keys; none, or an empty set, pins nothing. */
  predicate SigOk<B(==)>(sig: DocSig<B>, body: B, trusted: Option<set<nat>>) {
    var pinned := trusted.Some? && trusted.value != {};
    match sig
    case Unsigned => !pinned
    case Signed(signer, madeBy, over) => (pinned ==> signer in trusted.value) && madeBy == signer && over == body
  }

  /** The STH hash that segment i must name as its predecessor. */
  function PrevSth(sealed: seq<Sealed>, i: nat): SthLink
    requires i <= |sealed|
  {
    if i == 0 || sealed[i - 1].sth.None? then GenesisSth else SthHash(sealed[i - 1].sth.value.body)
  }

  predicate SegmentOk(s: Sealed, prev: SthLink, trusted: Option<set<nat>>) {
    && LedgerPasses(s.lines) && s.sth.Some?
    && s.sth.value.body.root == Mth(ParsedEntries(s.lines)) && s.sth.value.body.treeSize == |ParsedEntries(s.lines)|
    && s.sth.value.body.prev == prev
    && SigOk(s.sth.value.sig, s.sth.value.body, trusted)
  }

  predicate HeadOk(a: ArchiveView, trusted: Option<set<nat>>) {
    match a.head
    case NoHead => true
    case UnreadableHead => false
    case HeadFile(h) =>
      && h.body.segmentsSealed == |a.sealed|
      && (a.sealed != [] ==> h.body.lastSth == PrevSth(a.sealed, |a.sealed|))
      && SigOk(h.sig, h.body, trusted)
  }

  /** The first n segments pass, each against the tree head of the one before. */
  predicate SegmentsOk(sealed: seq<Sealed>, n: nat, trusted: Option<set<nat>>)
    requires n <= |sealed|
  {
    n == 0 || (SegmentsOk(sealed, n - 1, trusted) && SegmentOk(sealed[n - 1], PrevSth(sealed, n - 1), trusted))
  }

  /** verify_archive reports ok. */
  ghost predicate ArchiveOk(a: ArchiveView, trusted: Option<set<nat>>) {
    && a.sealed != []
    && SegmentsOk(a.sealed, |a.sealed|, trusted)
    && HeadOk(a, trusted)
  }

  /** The loop of verify_archive, which goes on after a failure; prevSth is None after an unreadable sidecar. */
  method VerifyArchive(a: ArchiveView, trusted: Option<set<nat>>) returns (ok: bool, failures: nat)
    ensures ok <==> ArchiveOk(a, trusted)
    ensures ok ==> failures == 0
  {
    hide Mth, LedgerPasses, ParsedEntries;
    failures := 0;
    var prevSth: Option<SthLink> := Some(GenesisSth);
    for i := 0 to |a.sealed|
      invariant failures == 0 <==> SegmentsOk(a.sealed, i, trusted)
      invariant failures == 0 ==> prevSth == Some(PrevSth(a.sealed, i))
    {
      var s := a.sealed[i];
      if !LedgerPasses(s.lines) {
        failures := failures + 1;
      } else if s.sth.None? {
        failures := failures + 1;
        prevSth := None;
      } else {
        var sth := s.sth.value;
        var leaves := ParsedEntries(s.lines);
        if Mth(leaves) != sth.body.root || |leaves| != sth.body.treeSize {
          failures := failures + 1;
        }
        if prevSth != Some(sth.body.prev) {
          failures := failures + 1;
        }
        if !SigOk(sth.sig, sth.body, trusted) {
          failures := failures + 1;
        }
        prevSth := Some(SthHash(sth.body));
      }
    }
    if a.head.UnreadableHead? {
      failures := failures + 1;
    } else if a.head.HeadFile? {
      var h := a.head.head;
      if h.body.segmentsSealed != |a.sealed| {
        failures := failures + 1;
      }
      if a.sealed != [] && Some(h.body.lastSth) != prevSth {
        failures := failures + 1;
      }
      if !SigOk(h.sig, h.body, trusted) {
        failures := failures + 1;
      }
    }
    ok := a.sealed != [] && failures == 0;
  }

  // ---------------------------------------------------------------- binding

  /** The canonical entries of each segment. */
  function SegmentEntries(sealed: seq<Sealed>): (r: seq<seq<Entry>>)
    ensures |r| == |sealed|
  {
    seq(|sealed|, i requires 0 <= i < |sealed| => ParsedEntries(sealed[i].lines))
  }

  /** Equal tree heads at position i make the segments up to i equal, entry by entry. */
  lemma {:induction false} SthChainBinds(a: seq<Sealed>, b: seq<Sealed>, i: nat, trusted: Option<set<nat>>,
      trusted2: Option<set<nat>>)
    requires i <= |a| && i <= |b| && PrevSth(a, i) == PrevSth(b, i)
    requires SegmentsOk(a, i, trusted) && SegmentsOk(b, i, trusted2)
    ensures forall k :: 0 <= k < i ==> ParsedEntries(a[k].lines) == ParsedEntries(b[k].lines)
  {
    hide Mth, LedgerPasses, ParsedEntries;
    if i > 0 {
      MthInjective(ParsedEntries(a[i - 1].lines), ParsedEntries(b[i - 1].lines));
      SthChainBinds(a, b, i - 1, trusted, trusted2);
    }
  }

  /**
   Binding: an archive accepted under a HEAD that says the same as another accepted archive's has the same
   number of sealed segments with the same entries in the same order, whoever copied, cut or rebuilt the files.
   */
  lemma {:induction false} HeadBindsArchive(written: ArchiveView, shown: ArchiveView, trusted: Option<set<nat>>,
      trusted2: Option<set<nat>>)
    requires ArchiveOk(written, trusted) && ArchiveOk(shown, trusted2)
    requires written.head.HeadFile? && shown.head.HeadFile? && shown.head.head.body == written.head.head.body
    ensures SegmentEntries(shown.sealed) == SegmentEntries(written.sealed)
  {
    SthChainBinds(written.sealed, shown.sealed, |written.sealed|, trusted, trusted2);
  }

  // ---------------------------------------------------------------- pinned keys

  /** Signed by one of these keys, over this very document. */
  predicate SignedBy<B(==)>(sig: DocSig<B>, body: B, keys: set<nat>) {
    exists k :: k in keys && sig == Signed(k, k, body)
  }

  lemma {:induction false} EachSegmentOk(sealed: seq<Sealed>, n: nat, i: nat, trusted: Option<set<nat>>)
    requires i < n <= |sealed| && SegmentsOk(sealed, n, trusted)
    ensures SegmentOk(sealed[i], PrevSth(sealed, i), trusted)
    decreases n
  {
    hide SegmentOk;
    if i < n - 1 {
      EachSegmentOk(sealed, n - 1, i, trusted);
    }
  }

  /** With pinned keys, signed by one of them; without, unsigned or signed by the key it names. */
  predicate Genuine<B(==)>(sig: DocSig<B>, body: B, trusted: Option<set<nat>>) {
    if trusted.Some? && trusted.value != {} then SignedBy(sig, body, trusted.value)
    else sig.Signed? ==> sig == Signed(sig.signer, sig.signer, body)
  }

  lemma SigOkExactly<B>(sig: DocSig<B>, body: B, trusted: Option<set<nat>>)
    ensures SigOk(sig, body, trusted) <==> Genuine(sig, body, trusted)
  {
  }

  /** What verify_ledger asks, line by line and entry by entry. */
  lemma LedgerPassesExactly(lines: seq<Line>)
    ensures LedgerPasses(lines) <==>
            && (forall i :: 0 <= i < |lines| ==> !lines[i].kind.NotJson?)
            && (forall i :: 0 <= i < |lines| && lines[i].kind.EntryLine? ==>
                 lines[i].kind.selfHash == SelfHash(lines[i].kind.entry))
            && var es := ParsedEntries(lines);
               && (forall i :: 0 <= i < |es| ==> es[i].idx == i)
               && (es != [] ==> es[0].prev == Genesis)
               && (forall i :: 0 < i < |es| ==> es[i].prev == SelfHash(es[i - 1]))
  {
    hide ParsedEntries;
    var es := ParsedEntries(lines);
    if EntriesChained(es) {
      forall i | 0 <= i < |es| ensures es[i].idx == i {
        assert EntryLinked(es, i);
      }
      forall i | 0 < i < |es| ensures es[i].prev == SelfHash(es[i - 1]) {
        assert EntryLinked(es, i);
      }
      assert es != [] ==> EntryLinked(es, 0);
    }
  }

  /** A segment that fits: its ledger passes, and its tree head is of its entries and names the one before. */
  predicate Fitting(sealed: seq<Sealed>, i: nat)
    requires i < |sealed|
  {
    && LedgerPasses(sealed[i].lines) && sealed[i].sth.Some?
    && var body, es := sealed[i].sth.value.body, ParsedEntries(sealed[i].lines);
       && body.treeSize == |es| && body.root == Mth(es)
       && (i == 0 ==> body.prev == GenesisSth)
       && (i > 0 ==> sealed[i - 1].sth.Some? && body.prev == SthHash(sealed[i - 1].sth.value.body))
  }

  predicate SignedFitting(sealed: seq<Sealed>, i: nat, trusted: Option<set<nat>>)
    requires i < |sealed|
  {
    Fitting(sealed, i) && Genuine(sealed[i].sth.value.sig, sealed[i].sth.value.body, trusted)
  }

  /** HEAD, if there is one, counts the segments and names the last tree head. */
  predicate HeadCloses(a: ArchiveView)
    requires a.sealed != []
  {
    && !a.head.UnreadableHead?
    && (a.head.HeadFile? ==>
          var last := a.sealed[|a.sealed| - 1];
          a.head.head.body.segmentsSealed == |a.sealed|
          && last.sth.Some? && a.head.head.body.lastSth == SthHash(last.sth.value.body))
  }

  lemma {:induction false} SegmentsFit(sealed: seq<Sealed>, n: nat, trusted: Option<set<nat>>)
    requires n <= |sealed|
    ensures SegmentsOk(sealed, n, trusted) <==>
            forall i :: 0 <= i < n ==> SignedFitting(sealed, i, trusted)
  {
    hide LedgerPasses, ParsedEntries, Mth, SigOk, Fitting, SegmentOk, Genuine;
    if n > 0 {
      SegmentsFit(sealed, n - 1, trusted);
      if n == 1 || (sealed[n - 2].sth.Some? && SegmentsOk(sealed, n - 1, trusted)) {
        OneSegmentFits(sealed, n - 1, trusted);
      }
      if SegmentsOk(sealed, n - 1, trusted) && n > 1 {
        EachSegmentOk(sealed, n - 1, n - 2, trusted);
        SegmentHasHead(sealed[n - 2], PrevSth(sealed, n - 2), trusted);
      }
    }
  }

  lemma SegmentHasHead(s: Sealed, prev: SthLink, trusted: Option<set<nat>>)
    requires SegmentOk(s, prev, trusted)
    ensures s.sth.Some?
  {
  }

  lemma OneSegmentFits(sealed: seq<Sealed>, i: nat, trusted: Option<set<nat>>)
    requires i < |sealed| && (i > 0 ==> sealed[i - 1].sth.Some?)
    ensures SegmentOk(sealed[i], PrevSth(sealed, i), trusted) <==> SignedFitting(sealed, i, trusted)
  {
    hide LedgerPasses, ParsedEntries, Mth, SigOk, Genuine;
    if sealed[i].sth.Some? {
      SigOkExactly(sealed[i].sth.value.sig, sealed[i].sth.value.body, trusted);
    }
  }

  /**
   An archive is accepted exactly when it has a segment, each fits, HEAD closes them, and with pinned keys every
   tree head and HEAD is signed by one of them over its own content; without, what is signed is signed right.
   */
  lemma {:induction false} AcceptedExactly(a: ArchiveView, trusted: Option<set<nat>>)
    ensures ArchiveOk(a, trusted) <==>
            && a.sealed != [] && HeadCloses(a)
            && (forall i :: 0 <= i < |a.sealed| ==> SignedFitting(a.sealed, i, trusted))
            && (a.head.HeadFile? ==> Genuine(a.head.head.sig, a.head.head.body, trusted))
  {
    hide LedgerPasses, ParsedEntries, Mth, SigOk, SegmentsOk, Genuine;
    if a.head.HeadFile? {
      SigOkExactly(a.head.head.sig, a.head.head.body, trusted);
    }
    SegmentsFit(a.sealed, |a.sealed|, trusted);
    if a.sealed != [] {
      assert SignedFitting(a.sealed, |a.sealed| - 1, trusted) ==> a.sealed[|a.sealed| - 1].sth.Some?;
    }
  }

  /** These keys sign no HEAD but those of these archives, each accepted when it was written. */
  ghost predicate SignsHeadsOf(keys: set<nat>, h: Head, written: seq<ArchiveView>) {
    SignedBy(h.sig, h.body, keys) ==>
      exists w :: w in written && w.head.HeadFile? && w.head.head.body == h.body && ArchiveOk(w, Some(keys))
  }

  /** An archive with a HEAD, accepted with the writer's keys pinned, holds what one of the writer's archives held. */
  lemma {:induction false} PinnedArchiveIsWritten(a: ArchiveView, keys: set<nat>, written: seq<ArchiveView>)
    returns (w: ArchiveView)
    requires ArchiveOk(a, Some(keys)) && keys != {} && a.head.HeadFile? && SignsHeadsOf(keys, a.head.head, written)
    ensures w in written && SegmentEntries(a.sealed) == SegmentEntries(w.sealed)
  {
    hide ArchiveOk, SignedBy, SegmentEntries, Fitting;
    AcceptedExactly(a, Some(keys));
    w :| w in written && w.head.HeadFile? && w.head.head.body == a.head.head.body && ArchiveOk(w, Some(keys));
    HeadBindsArchive(w, a, Some(keys), Some(keys));
  }
}
