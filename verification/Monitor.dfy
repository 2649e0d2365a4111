/**
 The append-only monitor (cryptovalid_monitor.py): each run compares the ledger with the baseline
 of the last green run and advances the baseline only on a green run.
 */
module Monitor {
  import opened MerkleTree
  import opened MerkleWalk
  import opened MerkleVerifiers
  import opened Notes
  import opened Receipts

  type Sth = TreeHead<LeafData>

  /** The state file. */
  datatype Baseline = Baseline(size: nat, root: Root, ts: nat, sth: Option<Sth>, logPub: Option<nat>)

  /** Everything one run is given: the ledger, the verifier's verdict on it, keys, a published tree head, the clock. */
  datatype Inputs = Inputs(
    leaves: seq<LeafData>, snapshotPasses: bool, timestampsMonotonic: bool,
    keyfile: Option<nat>, trusted: Option<nat>, sthFile: Option<Sth>, silentTooLong: bool, now: nat)

  datatype Alert =
    | SnapshotFailed | TimestampsNotMonotonic | StateUnsigned | StateTampered
    | Truncation | Rewrite | ForkOrRewrite | LogKeyChanged | Silence

  /** The key the saved head is checked with: the given one, else the log key of a writer. */
  function TrustedKey(in_: Inputs): Option<nat> {
    if in_.trusted.Some? then in_.trusted else in_.keyfile
  }

  /** The baseline is what its own signed head says, when a key is there to check it. */
  predicate BaselineAuthentic(b: Baseline, in_: Inputs) {
    TrustedKey(in_).Some? ==>
      b.sth.Some? && TreeHeadOk(b.sth.value, TrustedKey(in_).value) && b.sth.value.size == b.size
          && b.sth.value.root == b.root
  }

  /** The ledger extends the baseline: its first leaves are the ones the baseline commits to. */
  ghost predicate Grew(b: Baseline, leaves: seq<LeafData>) {
    b.size <= |leaves| && ((b.size == 0 && |leaves| > 0) || b.root == Mth(leaves[..b.size]))
  }

  /** No alert is raised exactly when all of this holds. */
  ghost predicate Green(b: Option<Baseline>, in_: Inputs) {
    && in_.snapshotPasses && in_.timestampsMonotonic
    && (b.Some? ==>
          && BaselineAuthentic(b.value, in_)
          && Grew(b.value, in_.leaves)
          && !(b.value.logPub.Some? && in_.keyfile.Some? && b.value.logPub != in_.keyfile)
          && !(in_.silentTooLong && |in_.leaves| == b.value.size))
  }

  /** A published head for exactly this tree, signed by the trusted key. */
  predicate PublishedHead(in_: Inputs) {
    && in_.trusted.Some? && in_.sthFile.Some? && TreeHeadOk(in_.sthFile.value, in_.trusted.value)
    && in_.sthFile.value.size == |in_.leaves| && in_.sthFile.value.root == Mth(in_.leaves)
  }

  /** The saved head still describes the tree. */
  predicate UnchangedHead(b: Option<Baseline>, leaves: seq<LeafData>) {
    b.Some? && b.value.sth.Some? && b.value.size == |leaves| && b.value.root == Mth(leaves)
  }

  /** What a green run writes: a writer signs, an auditor needs a signed head, a keyless run trusts itself. */
  function Advance(b: Option<Baseline>, in_: Inputs): Option<Baseline> {
    var plain := Baseline(|in_.leaves|, Mth(in_.leaves), in_.now, None, None);
    if in_.keyfile.Some? then
      Some(plain.(sth := Some(SignHead(in_.leaves, in_.keyfile.value, in_.now)), logPub := in_.keyfile))
    else if in_.trusted.Some? then
      if PublishedHead(in_) then Some(plain.(sth := in_.sthFile, logPub := in_.trusted))
      else if UnchangedHead(b, in_.leaves) then Some(plain.(sth := b.value.sth, logPub := b.value.logPub))
      else None
    else Some(plain)
  }

  /** Each alert, and exactly when it is raised. */
  ghost predicate AlertsExact(baseline: Option<Baseline>, in_: Inputs, alerts: seq<Alert>) {
    && (SnapshotFailed in alerts <==> !in_.snapshotPasses)
    && (TimestampsNotMonotonic in alerts <==> !in_.timestampsMonotonic)
    && (baseline.None? ==> forall a :: a in alerts ==> a in {SnapshotFailed, TimestampsNotMonotonic})
    && (baseline.Some? ==> BaselineAlertsExact(baseline.value, in_, alerts))
  }

  /** The saved head is signed by this key and is the baseline's own. */
  predicate SignedBaseline(b: Baseline, key: nat)
    requires b.sth.Some?
  {
    var sth := b.sth.value;
    && sth.kindOk && sth.logKey == key && sth.size == b.size && sth.root == b.root
    && sth.sig == HeadSig(key, b.size, b.root, sth.ts)
  }

  ghost predicate BaselineAlertsExact(b: Baseline, in_: Inputs, alerts: seq<Alert>) {
    var key := if in_.trusted.Some? then in_.trusted else in_.keyfile;
    var n := |in_.leaves|;
    && (StateUnsigned in alerts <==> key.Some? && b.sth.None?)
    && (StateTampered in alerts <==> key.Some? && b.sth.Some? && !SignedBaseline(b, key.value))
    && (Truncation in alerts <==> n < b.size)
    && (Rewrite in alerts <==> n == b.size && b.root != Mth(in_.leaves))
    && (ForkOrRewrite in alerts <==> 0 < b.size < n && b.root != Mth(in_.leaves[..b.size]))
    && (LogKeyChanged in alerts <==> b.logPub.Some? && in_.keyfile.Some? && b.logPub != in_.keyfile)
    && (Silence in alerts <==> in_.silentTooLong && n == b.size)
  }

  /** Alerts of the first two kinds put before change nothing. */
  lemma MoreAlerts(b: Baseline, in_: Inputs, first: seq<Alert>, more: seq<Alert>)
    requires BaselineAlertsExact(b, in_, more)
    requires forall a :: a in first ==> a in {SnapshotFailed, TimestampsNotMonotonic}
    ensures BaselineAlertsExact(b, in_, first + more)
  {
    hide Mth;
  }

  lemma NoAlertIsGreen(b: Option<Baseline>, in_: Inputs, alerts: seq<Alert>)
    requires AlertsExact(b, in_, alerts)
    ensures alerts == [] <==> Green(b, in_)
  {
    hide Mth;
    assert b.Some? && b.value.size == |in_.leaves| ==> in_.leaves[..b.value.size] == in_.leaves;
    if alerts != [] {
      var first := alerts[0];
      assert first in alerts;
      assert b.Some? ==> BaselineAlertsExact(b.value, in_, alerts);
      match first {
        case SnapshotFailed =>
        case TimestampsNotMonotonic =>
        case StateUnsigned =>
        case StateTampered =>
        case Truncation =>
        case Rewrite =>
        case ForkOrRewrite =>
        case LogKeyChanged =>
        case Silence =>
      }
    }
  }

  class Auditor {
    var baseline: Option<Baseline>

    constructor ()
      ensures baseline == None
    {
      baseline := None;
    }

    /** The consistency part: with its own proof, the check is "the saved root is the root of the first n1 leaves". */
    method CompareWithBaseline(b: Baseline, leaves: seq<LeafData>) returns (alert: Option<Alert>)
      ensures alert.None? <==> Grew(b, leaves)
      ensures alert in {None, Some(Truncation), Some(Rewrite), Some(ForkOrRewrite)}
      ensures alert == Some(Truncation) <==> |leaves| < b.size
      ensures alert == Some(Rewrite) <==> |leaves| == b.size && b.root != Mth(leaves)
      ensures alert == Some(ForkOrRewrite) <==> 0 < b.size < |leaves| && b.root != Mth(leaves[..b.size])
    {
      hide Mth, ConsistencyAccepted;
      var n2, root2 := |leaves|, Mth(leaves);
      assert leaves[..n2] == leaves;
      if n2 < b.size {
        alert := Some(Truncation);
      } else if n2 == b.size {
        alert := if b.root == root2 then None else Some(Rewrite);
      } else if b.size == 0 {
        alert := None;
      } else {
        var proof := ConsistencyProof(b.size, leaves);
        var ok := VerifyConsistency(b.size, n2, proof, b.root, root2);
        ConsistencyExact(b.size, leaves, proof, b.root);
        alert := if ok then None else Some(ForkOrRewrite);
      }
    }

    /** The saved head, when a key is there to check it. */
    method CheckSavedHead(b: Baseline, key: Option<nat>) returns (alert: Option<Alert>)
      ensures alert in {None, Some(StateUnsigned), Some(StateTampered)}
      ensures alert == Some(StateUnsigned) <==> key.Some? && b.sth.None?
      ensures alert == Some(StateTampered) <==> key.Some? && b.sth.Some? && !SignedBaseline(b, key.value)
    {
      alert := None;
      if key.Some? {
        if b.sth.None? {
          alert := Some(StateUnsigned);
        } else if !TreeHeadOk(b.sth.value, key.value) || b.sth.value.size != b.size || b.sth.value.root != b.root {
          alert := Some(StateTampered);
        }
      }
    }

    /** The part of a run that looks at the baseline. */
    method CheckBaseline(b: Baseline, in_: Inputs) returns (alerts: seq<Alert>)
      ensures BaselineAlertsExact(b, in_, alerts)
      ensures SnapshotFailed !in alerts && TimestampsNotMonotonic !in alerts
    {
      hide Mth, SignedBaseline, Grew;
      var saved := CheckSavedHead(b, if in_.trusted.Some? then in_.trusted else in_.keyfile);
      alerts := if saved.Some? then [saved.value] else [];
      var compared := CompareWithBaseline(b, in_.leaves);
      if compared.Some? {
        alerts := alerts + [compared.value];
      }
      if b.logPub.Some? && in_.keyfile.Some? && b.logPub != in_.keyfile {
        alerts := alerts + [LogKeyChanged];
      }
      if in_.silentTooLong && |in_.leaves| == b.size {
        alerts := alerts + [Silence];
      }
    }

    /** One monitor run. */
    method Run(in_: Inputs) returns (alerts: seq<Alert>, written: bool)
      modifies this
      ensures alerts == [] <==> Green(old(baseline), in_)
      ensures AlertsExact(old(baseline), in_, alerts)
      ensures written <==> alerts == [] && Advance(old(baseline), in_).Some?
      ensures baseline == if written then Advance(old(baseline), in_) else old(baseline)
    {
      hide Mth, BaselineAlertsExact, Green;
      alerts := [];
      if !in_.snapshotPasses {
        alerts := alerts + [SnapshotFailed];
      }
      if !in_.timestampsMonotonic {
        alerts := alerts + [TimestampsNotMonotonic];
      }
      if baseline.Some? {
        var more := CheckBaseline(baseline.value, in_);
        MoreAlerts(baseline.value, in_, alerts, more);
        alerts := alerts + more;
      }
      NoAlertIsGreen(baseline, in_, alerts);
      written := false;
      if alerts == [] {
        var next := Advance(baseline, in_);
        if next.Some? {
          baseline := next;
          written := true;
        }
      }
    }
  }

  // ---------------------------------------------------------------- runs of the monitor

  ghost function Wrote(b: Option<Baseline>, in_: Inputs): bool {
    Green(b, in_) && Advance(b, in_).Some?
  }

  ghost function BaselineAfter(runs: seq<Inputs>): Option<Baseline> {
    if runs == [] then None
    else
      var b := BaselineAfter(runs[..|runs| - 1]);
      if Wrote(b, runs[|runs| - 1]) then Advance(b, runs[|runs| - 1]) else b
  }

  ghost predicate WroteAt(runs: seq<Inputs>, i: nat) {
    i < |runs| && Wrote(BaselineAfter(runs[..i]), runs[i])
  }

  /** The last run before k that wrote the state, if any, and then the baseline is its tree head. */
  lemma {:induction false} BaselineIsLastWritten(runs: seq<Inputs>, k: nat) returns (i: nat)
    requires k <= |runs|
    ensures BaselineAfter(runs[..k]).None? ==> forall j :: 0 <= j < k ==> !WroteAt(runs, j)
    ensures BaselineAfter(runs[..k]).Some? ==>
              && i < k && WroteAt(runs, i)
              && BaselineAfter(runs[..k]).value.size == |runs[i].leaves|
              && BaselineAfter(runs[..k]).value.root == Mth(runs[i].leaves)
              && forall j :: i < j < k ==> !WroteAt(runs, j)
  {
    hide Green, Mth;
    i := 0;
    if k > 0 {
      assert runs[..k][..k - 1] == runs[..k - 1];
      if WroteAt(runs, k - 1) {
        i := k - 1;
      } else {
        i := BaselineIsLastWritten(runs, k - 1);
      }
    }
  }

  /** The leaf list of any run that wrote state is a prefix of that of every later such run. */
  lemma {:induction false} WrittenRunsGrow(runs: seq<Inputs>, i: nat, j: nat)
    requires i <= j && WroteAt(runs, i) && WroteAt(runs, j)
    ensures runs[i].leaves <= runs[j].leaves
    decreases j
  {
    if i < j {
      var k := BaselineIsLastWritten(runs, j);
      assert BaselineAfter(runs[..j]).Some?;
      assert i <= k;
      WrittenRunsGrow(runs, i, k);
      GrownIsPrefix(BaselineAfter(runs[..j]).value, runs[k].leaves, runs[j].leaves);
    }
  }

  lemma GrownIsPrefix(b: Baseline, older: seq<LeafData>, newer: seq<LeafData>)
    requires b.size == |older| && b.root == Mth(older) && Grew(b, newer)
    ensures older <= newer
  {
    if b.root == Mth(newer[..b.size]) {
      MthInjective(older, newer[..b.size]);
    }
  }

  /** A writer with one key over a ledger that only grows. */
  ghost predicate HonestWriter(runs: seq<Inputs>, key: nat) {
    && (forall i :: 0 <= i < |runs| ==>
          && runs[i].keyfile == Some(key) && (runs[i].trusted.None? || runs[i].trusted == Some(key))
          && runs[i].snapshotPasses && runs[i].timestampsMonotonic && !runs[i].silentTooLong)
    && (forall i, j :: 0 <= i < j < |runs| ==> runs[i].leaves <= runs[j].leaves)
  }

  /** Conversely, a ledger that only grows never raises an alert: every run is green and advances the baseline. */
  lemma {:induction false} HonestGrowthIsGreen(runs: seq<Inputs>, key: nat, k: nat)
    requires HonestWriter(runs, key) && k < |runs|
    ensures WroteAt(runs, k)
    ensures BaselineAfter(runs[..k + 1]) ==
            Some(Baseline(|runs[k].leaves|, Mth(runs[k].leaves), runs[k].now,
                          Some(SignHead(runs[k].leaves, key, runs[k].now)), Some(key)))
  {
    hide Mth;
    assert runs[..k + 1][..k] == runs[..k];
    if k == 0 {
      assert runs[..0] == [];
    } else {
      HonestGrowthIsGreen(runs, key, k - 1);
      var older, newer := runs[k - 1].leaves, runs[k].leaves;
      assert older == newer[..|older|];
    }
  }

  /** The head is of exactly this tree, signed by the key. */
  ghost predicate HeadOfTree(sth: Sth, leaves: seq<LeafData>, key: nat) {
    && sth.kindOk && sth.logKey == key && sth.size == |leaves| && sth.root == Mth(leaves)
    && sth.sig == HeadSig(key, |leaves|, Mth(leaves), sth.ts)
  }

  /**
   A green auditor run writes exactly when it is given a head of this very tree signed by the trusted key, or the
   tree has not changed since its baseline; a keyless run always writes, without a head.
   */
  lemma AuditorAdvancesExactly(b: Option<Baseline>, in_: Inputs)
    requires in_.keyfile.None?
    ensures in_.trusted.Some? ==>
              (Advance(b, in_).Some? <==>
                 || (in_.sthFile.Some? && HeadOfTree(in_.sthFile.value, in_.leaves, in_.trusted.value))
                 || (b.Some? && b.value.sth.Some? && b.value.size == |in_.leaves| && b.value.root == Mth(in_.leaves)))
    ensures Advance(b, in_).Some? ==>
              var next := Advance(b, in_).value;
              && next.size == |in_.leaves| && next.root == Mth(in_.leaves) && next.ts == in_.now
              && (next.sth.Some? <==> in_.trusted.Some?)
              && (in_.trusted.Some? && next.sth != in_.sthFile ==> b.Some? && next.sth == b.value.sth)
  {
    hide Mth;
  }

  /** An auditor never keeps an unsigned baseline: it is always the tree of a head signed by the trusted key. */
  lemma {:induction false} AuditorBaselineIsSigned(runs: seq<Inputs>, key: nat)
    requires forall i :: 0 <= i < |runs| ==> runs[i].trusted == Some(key) && runs[i].keyfile.None?
    ensures var b := BaselineAfter(runs);
            b.Some? ==> b.value.sth.Some? && b.value.sth.value.sig
                        == HeadSig(key, b.value.size, b.value.root, b.value.sth.value.ts)
  {
    hide Mth, Grew;
    if runs != [] {
      AuditorBaselineIsSigned(runs[..|runs| - 1], key);
    }
  }
}
