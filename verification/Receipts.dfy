/**
 Receipts of cryptovalid_receipt.py: a tree head signed by the log and an inclusion or consistency
 path under it, checked by a relying party that trusts one key and brings its own entry or root.
 */
module Receipts {
  import opened MerkleTree
  import opened MerkleWalk
  import opened MerkleVerifiers

  /** A signature over a tree head payload, as the record of who signed what. */
  datatype HeadSig<D> = HeadSig(signer: nat, size: int, root: Digest<D>, ts: nat) | NotASignature

  datatype TreeHead<D> = TreeHead(kindOk: bool, size: int, root: Digest<D>, ts: nat, logKey: nat, sig: HeadSig<D>)

  datatype Receipt<D> =
    | Inclusion(vdsOk: bool, failed: bool, index: int, size: int, leafHash: Digest<D>, path: seq<Digest<D>>,
                sth: TreeHead<D>)
    | Consistency(vdsOk: bool, failed: bool, size1: int, size2: int, root1: Digest<D>, root2: Digest<D>,
                  path: seq<Digest<D>>, sth: TreeHead<D>)
    | OtherReceipt

  /** verify_sth under a trusted key. */
  predicate TreeHeadOk<D(==)>(sth: TreeHead<D>, trusted: nat) {
    sth.kindOk && sth.logKey == trusted && sth.sig == HeadSig(trusted, sth.size, sth.root, sth.ts)
  }

  predicate ReceiptOk<D(==)>(r: Receipt<D>, trusted: nat, leaf: Option<D>, root1: Option<Digest<D>>) {
    match r
    case Inclusion(vdsOk, failed, index, size, leafHash, path, sth) =>
      && (vdsOk || failed) && TreeHeadOk(sth, trusted) && leaf.Some? && size == sth.size
      && leafHash == LeafHash(leaf.value) && StrictRoot(index, size, LeafHash(leaf.value), path) == Some(sth.root)
    case Consistency(vdsOk, failed, size1, size2, r1, r2, path, sth) =>
      && vdsOk && TreeHeadOk(sth, trusted) && !failed && root1 == Some(r1) && r2 == sth.root && size2 == sth.size
      && size1 != 0 && if size1 == size2 then r1 == r2 else ConsistencyAccepted(size1, size2, path, r1, r2)
    case OtherReceipt => false
  }

  /** verify_receipt, check by check. */
  method VerifyReceipt<D(==)>(r: Receipt<D>, trusted: nat, leaf: Option<D>, root1: Option<Digest<D>>) returns (ok: bool)
    ensures ok <==> ReceiptOk(r, trusted, leaf, root1)
  {
    if r.OtherReceipt? {
      return false;
    }
    if !r.failed && !r.vdsOk {
      return false;
    }
    if !TreeHeadOk(r.sth, trusted) {
      return false;
    }
    if r.Inclusion? {
      if leaf.None? || r.size != r.sth.size || LeafHash(leaf.value) != r.leafHash {
        return false;
      }
      ok := VerifyInclusionFromLeafHash(r.index, r.size, r.leafHash, r.path, r.sth.root);
    } else {
      if r.failed || root1.None? || r.root1 != root1.value || r.sth.root != r.root2 || r.size2 != r.sth.size {
        return false;
      }
      if r.size1 == 0 {
        return false;
      }
      if r.size1 == r.size2 {
        return r.root1 == r.root2;
      }
      ok := VerifyConsistency(r.size1, r.size2, r.path, r.root1, r.root2);
    }
  }

  /** What an honest log signs: tree heads of its own ledger as it grows. */
  ghost predicate HonestHead<D>(sth: TreeHead<D>, ledger: seq<D>) {
    0 <= sth.size <= |ledger| && sth.root == Mth(ledger[..sth.size])
  }

  /** The log's key signs nothing else: this signature, if it is of that key, is over such a head. */
  ghost predicate HonestSigner<D>(sig: HeadSig<D>, trusted: nat, ledger: seq<D>) {
    sig.HeadSig? && sig.signer == trusted ==> 0 <= sig.size <= |ledger| && sig.root == Mth(ledger[..sig.size])
  }

  /** The head of every accepted receipt is signed by the trusted key, and so a head of the log's ledger. */
  lemma AcceptedHeadIsSigned<D>(
      r: Receipt<D>, trusted: nat, leaf: Option<D>, root1: Option<Digest<D>>, ledger: seq<D>)
    requires ReceiptOk(r, trusted, leaf, root1)
    ensures !r.OtherReceipt? && r.sth.sig == HeadSig(trusted, r.sth.size, r.sth.root, r.sth.ts)
    ensures HonestSigner(r.sth.sig, trusted, ledger) ==> HonestHead(r.sth, ledger)
  {
  }

  /**
   An inclusion receipt is accepted for an entry exactly when its head is signed by the log, the
   ledger holds that entry at that index, and the path is the prover's.
   */
  lemma InclusionReceiptExact<D>(r: Receipt<D>, trusted: nat, leaf: D, root1: Option<Digest<D>>, ledger: seq<D>)
    requires r.Inclusion? && HonestSigner(r.sth.sig, trusted, ledger)
    ensures ReceiptOk(r, trusted, Some(leaf), root1) <==>
            && (r.vdsOk || r.failed)
            && r.sth.kindOk && r.sth.logKey == trusted
            && r.sth.sig == HeadSig(trusted, r.sth.size, r.sth.root, r.sth.ts)
            && r.size == r.sth.size && 0 <= r.index < r.size <= |ledger| && ledger[r.index] == leaf
            && r.leafHash == LeafHash(leaf) && r.path == InclusionProof(r.index, ledger[..r.size])
  {
    hide Mth, StrictRoot, InclusionProof;
    if 0 <= r.index < r.sth.size && HonestHead(r.sth, ledger) {
      StrictInclusionExact(r.index, ledger[..r.sth.size], LeafHash(leaf), r.path);
    }
    StrictRootInRange(r.index, r.size, LeafHash(leaf), r.path);
  }

  lemma StrictRootInRange<D>(index: int, size: int, leafHash: Digest<D>, path: seq<Digest<D>>)
    ensures StrictRoot(index, size, leafHash, path).Some? ==> 0 <= index < size
  {
  }

  /** The same inclusion receipt with other vds and ok fields. */
  function Marked<D>(r: Receipt<D>, vdsOk: bool, failed: bool): Receipt<D>
    requires r.Inclusion?
  {
    Inclusion(vdsOk, failed, r.index, r.size, r.leafHash, r.path, r.sth)
  }

  /**
   The vds test is skipped for a receipt that says "ok": false, and an inclusion receipt is not looked
   at for that again: one that passes the other checks is accepted exactly when its vds is the
   supported one or it declares its own failure.
   */
  lemma InclusionVdsExactly<D>(r: Receipt<D>, trusted: nat, leaf: Option<D>, root1: Option<Digest<D>>)
    requires r.Inclusion? && ReceiptOk(Marked(r, true, r.failed), trusted, leaf, root1)
    ensures ReceiptOk(r, trusted, leaf, root1) <==> r.vdsOk || r.failed
  {
  }

  /** The path of a consistency receipt is looked at only when the sizes differ. */
  ghost predicate PathFits<D>(r: Receipt<D>, ledger: seq<D>)
    requires r.Consistency? && 0 <= r.size2 <= |ledger|
  {
    r.size1 == r.size2 || (0 < r.size1 < r.size2 && r.path == ConsistencyProof(r.size1, ledger[..r.size2]))
  }

  /**
   A consistency receipt with a positive old size is accepted against the root of a remembered ledger
   exactly when its head is signed by the log and that ledger is a non-empty prefix of the one signed,
   of that size: although only the unsigned part names it, a positive size cannot lie.
   */
  lemma ConsistencyReceiptExact<D>(r: Receipt<D>, trusted: nat, leaf: Option<D>, older: seq<D>, ledger: seq<D>)
    requires r.Consistency? && HonestSigner(r.sth.sig, trusted, ledger) && r.size1 > 0
    ensures ReceiptOk(r, trusted, leaf, Some(Mth(older))) <==>
            && r.vdsOk && !r.failed
            && r.sth.kindOk && r.sth.logKey == trusted
            && r.sth.sig == HeadSig(trusted, r.sth.size, r.sth.root, r.sth.ts)
            && r.root1 == Mth(older) && r.root2 == r.sth.root && r.size2 == r.sth.size && r.size1 == |older|
            && 0 <= r.size2 <= |ledger| && older <= ledger[..r.size2] && PathFits(r, ledger)
  {
    hide Mth, ConsistencyProof, ConsistencyRoots;
    if r.root1 == Mth(older) && r.root2 == r.sth.root && r.size2 == r.sth.size && HonestHead(r.sth, ledger) {
      var newer := ledger[..r.size2];
      assert older <= newer ==> older == newer[..|older|];
      assert newer[..|newer|] == newer;
      if r.size1 == r.size2 && Mth(older) == Mth(newer) {
        MthInjective(older, newer);
      }
      if 0 < r.size1 < r.size2 {
        ConsistencyExact(r.size1, newer, r.path, Mth(older));
        if Mth(older) == Mth(newer[..r.size1]) {
          MthInjective(older, newer[..r.size1]);
        }
      }
    }
  }

  /**
   On every accepted consistency receipt, whatever old size it names: the remembered ledger is a
   prefix of the one signed, and the named size is the true one exactly when it is positive.
   */
  lemma {:induction false} AcceptedConsistencyMeansPrefix<D>(r: Receipt<D>, trusted: nat, leaf: Option<D>,
      older: seq<D>, ledger: seq<D>)
    requires r.Consistency? && HonestSigner(r.sth.sig, trusted, ledger)
    requires ReceiptOk(r, trusted, leaf, Some(Mth(older)))
    ensures 0 <= r.sth.size <= |ledger| && older <= ledger[..r.sth.size]
    ensures r.size1 == |older| <==> r.size1 > 0
  {
    hide Mth, ConsistencyAccepted;
    AcceptedHeadIsSigned(r, trusted, leaf, Some(Mth(older)), ledger);
    var newer := ledger[..r.sth.size];
    if r.size1 == r.size2 {
      MthInjective(older, newer);
    } else {
      var k := AcceptedOldRootIsAPrefix(r.size1, r.size2, r.path, r.root1, newer);
      MthInjective(older, newer[..k]);
    }
    if r.size1 > 0 {
      ConsistencyReceiptExact(r, trusted, leaf, older, ledger);
    }
  }

  /** A size that lies: the receipt that names -1 is accepted by whoever remembers one leaf of two. */
  lemma NegativeSizeIsAccepted<D>(a: D, b: D, key: nat, ts: nat, leaf: Option<D>)
    ensures var sth := SignHead([a, b], key, ts);
            var path := [LeafHash(a), LeafHash(b)];
            ReceiptOk(Consistency(true, false, -1, 2, Mth([a]), sth.root, path, sth), key, leaf, Some(Mth([a])))
  {
    NegativeSizeIsWalked(a, b);
  }

  // ---------------------------------------------------------------- issuing

  function SignHead<D>(ledger: seq<D>, key: nat, ts: nat): TreeHead<D> {
    var root := Mth(ledger);
    TreeHead(true, |ledger|, root, ts, key, HeadSig(key, |ledger|, root, ts))
  }

  function InclusionReceipt<D>(ledger: seq<D>, index: nat, key: nat, ts: nat): Receipt<D>
    requires index < |ledger|
  {
    Inclusion(true, false, index, |ledger|, LeafHash(ledger[index]), InclusionProof(index, ledger),
              SignHead(ledger, key, ts))
  }

  /** consistency_receipt against an old tree head; it declares failure on an empty or a larger old tree. */
  function ConsistencyReceipt<D>(size1: nat, root1: Digest<D>, ledger: seq<D>, key: nat, ts: nat): Receipt<D> {
    var failed := size1 == 0 || |ledger| < size1;
    var sth := SignHead(ledger, key, ts);
    var path := if 0 < size1 < |ledger| then ConsistencyProof(size1, ledger) else [];
    Consistency(!failed, failed, size1, |ledger|, root1, sth.root, path, sth)
  }

  /** Every receipt issued for an entry verifies for that entry and for no other. */
  lemma IssuedInclusionVerifies<D>(ledger: seq<D>, index: nat, key: nat, ts: nat, leaf: D, root1: Option<Digest<D>>)
    requires index < |ledger|
    ensures ReceiptOk(InclusionReceipt(ledger, index, key, ts), key, Some(leaf), root1) <==> leaf == ledger[index]
  {
    var r := InclusionReceipt(ledger, index, key, ts);
    assert ledger[..|ledger|] == ledger;
    InclusionReceiptExact(r, key, leaf, root1, ledger);
  }

  /** The input: an issued receipt with its vds removed and "ok": false added is still accepted. */
  lemma FailedInclusionIsAccepted<D>(ledger: seq<D>, index: nat, key: nat, ts: nat, root1: Option<Digest<D>>)
    requires index < |ledger|
    ensures ReceiptOk(Marked(InclusionReceipt(ledger, index, key, ts), false, true), key, Some(ledger[index]), root1)
  {
    IssuedInclusionVerifies(ledger, index, key, ts, ledger[index], root1);
    InclusionVdsExactly(Marked(InclusionReceipt(ledger, index, key, ts), false, true), key, Some(ledger[index]), root1);
  }

  /** A consistency receipt issued for a remembered tree head verifies exactly when the ledger only grew since. */
  lemma IssuedConsistencyVerifies<D>(older: seq<D>, ledger: seq<D>, key: nat, ts: nat, leaf: Option<D>)
    ensures ReceiptOk(ConsistencyReceipt(|older|, Mth(older), ledger, key, ts), key, leaf, Some(Mth(older)))
            <==> older != [] && older <= ledger
  {
    hide Mth, ConsistencyProof, ConsistencyRoots;
    var r := ConsistencyReceipt(|older|, Mth(older), ledger, key, ts);
    assert ledger[..|ledger|] == ledger;
    if !r.failed {
      ConsistencyReceiptExact(r, key, leaf, older, ledger);
    }
  }
}
