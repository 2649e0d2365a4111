/**
 The loops of cryptovalid_merkle.py, cryptovalid_receipt.py and cryptovalid_scitt.py that verify
 Merkle proofs, each proved against the walk of module MerkleWalk.  `fn & 1` is `fn % 2 == 1` and
 `fn >>= 1` is `fn / 2`, on negative integers too.
 */
module MerkleVerifiers {
  import opened MerkleTree
  import opened MerkleWalk

  /** _largest_pow2_below. */
  method DoubleToPow2Below(n: nat) returns (r: nat)
    ensures n >= 2 ==> r == LargestPow2Below(n)
    ensures n < 2 ==> r == 0
  {
    var k := 1;
    ghost var half: nat := 0;
    assert IsPow2(1);
    hide IsPow2, LargestPow2Below;
    while k < n
      invariant IsPow2(k)
      invariant k / 2 == half && (k > 1 ==> k == 2 * half && IsPow2(half) && half < n)
    {
      DoublePow2(k);
      half, k := k, 2 * k;
    }
    r := k / 2;
    if n >= 2 {
      Pow2BelowIsUnique(n, r, LargestPow2Below(n));
    }
  }

  method VerifyInclusion<D(==)>(m: int, n: int, leaf: D, proof: seq<Digest<D>>, root: Digest<D>) returns (ok: bool)
    ensures ok == InclusionAccepted(m, n, leaf, proof, root)
  {
    if m >= n {
      return false;
    }
    var h, fn: int, sn: int := LeafHash(leaf), m, n - 1;
    for i := 0 to |proof|
      invariant Walk(fn, sn, h, proof[i..], false) == Walk(m, n - 1, LeafHash(leaf), proof, false)
    {
      ghost var rest := proof[i..];
      assert rest[0] == proof[i] && rest[1..] == proof[i + 1..];
      if fn == sn || fn % 2 == 1 {
        ghost var before := h;
        h := NodeHash(proof[i], h);
        while fn % 2 == 0 && fn != 0
          invariant fn % 2 == 1 || fn == sn
          invariant Walk(fn, sn, before, rest, false) == Walk(m, n - 1, LeafHash(leaf), proof, false)
          decreases Abs(fn)
        {
          fn, sn := fn / 2, sn / 2;
        }
      } else {
        h := NodeHash(h, proof[i]);
      }
      fn, sn := fn / 2, sn / 2;
    }
    ok := sn == 0 && h == root;
  }

  /** cryptovalid_receipt._verify_inclusion_from_leaf_hash; a negative index is refused there. */
  method VerifyInclusionFromLeafHash<D(==)>(m: int, n: int, leaf: Digest<D>, proof: seq<Digest<D>>, root: Digest<D>)
    returns (ok: bool)
    ensures ok <==> StrictRoot(m, n, leaf, proof) == Some(root)
  {
    if m >= n || (n > 0 && m < 0) {
      return false;
    }
    var r := RootFromInclusion(m, n, leaf, proof);
    ok := r == Some(root);
  }

  /** cryptovalid_scitt._root_from_inclusion, whose loop is also the one of the receipt verifier. */
  method RootFromInclusion<D>(m: int, n: int, leaf: Digest<D>, proof: seq<Digest<D>>) returns (root: Option<Digest<D>>)
    ensures root == StrictRoot(m, n, leaf, proof)
  {
    if m >= n || m < 0 {
      return None;
    }
    var fn: nat, sn: nat, r := m, n - 1, leaf;
    for i := 0 to |proof|
      invariant Walk(fn, sn, r, proof[i..], true) == Walk(m, n - 1, leaf, proof, true)
    {
      ghost var rest := proof[i..];
      assert rest[0] == proof[i] && rest[1..] == proof[i + 1..];
      if sn == 0 {
        return None;
      }
      if fn % 2 == 1 || fn == sn {
        ghost var before := r;
        r := NodeHash(proof[i], r);
        while fn % 2 == 0 && fn != 0
          invariant fn % 2 == 1 || (fn == sn && fn != 0)
          invariant sn > 0
          invariant Walk(fn, sn, before, rest, true) == Walk(m, n - 1, leaf, proof, true)
        {
          fn, sn := fn / 2, sn / 2;
        }
      } else {
        r := NodeHash(r, proof[i]);
      }
      fn, sn := fn / 2, sn / 2;
    }
    root := if sn == 0 then Some(r) else None;
  }

  /** The loop shared by verify_consistency and consistency_roots. */
  method RebuildRoots<D>(m: int, n: int, path: seq<Digest<D>>) returns (roots: Option<(Digest<D>, Digest<D>)>)
    requires m != 0 && m < n && path != []
    ensures var (fn, sn) := ClimbOdd(m - 1, n - 1);
            roots == WalkBoth(fn, sn, path[0], path[0], path[1..])
  {
    var fn, sn := m - 1, n - 1;
    while fn % 2 == 1
      invariant fn != -1 && ClimbOdd(fn, sn) == ClimbOdd(m - 1, n - 1)
      decreases Abs(fn)
    {
      fn, sn := fn / 2, sn / 2;
    }
    var fr, sr := path[0], path[0];
    ghost var target := WalkBoth(fn, sn, fr, sr, path[1..]);
    for i := 1 to |path|
      invariant WalkBoth(fn, sn, fr, sr, path[i..]) == target
    {
      ghost var rest := path[i..];
      assert rest[0] == path[i] && rest[1..] == path[i + 1..];
      if sn == 0 {
        return None;
      }
      if fn % 2 == 1 || fn == sn {
        ghost var fr0, sr0 := fr, sr;
        fr, sr := NodeHash(path[i], fr), NodeHash(path[i], sr);
        while fn % 2 == 0 && fn != 0
          invariant fn % 2 == 1 || fn == sn
          invariant sn != 0 && WalkBoth(fn, sn, fr0, sr0, rest) == target
          decreases Abs(fn)
        {
          fn, sn := fn / 2, sn / 2;
        }
      } else {
        sr := NodeHash(sr, path[i]);
      }
      fn, sn := fn / 2, sn / 2;
    }
    roots := if sn == 0 then Some((fr, sr)) else None;
  }

  method VerifyConsistency<D(==)>(m: int, n: int, proof: seq<Digest<D>>, oldRoot: Digest<D>, newRoot: Digest<D>)
    returns (ok: bool)
    ensures ok == ConsistencyAccepted(m, n, proof, oldRoot, newRoot)
  {
    if m == 0 || m > n {
      return false;
    }
    if m == n {
      return proof == [] && oldRoot == newRoot;
    }
    var p := proof;
    BitTrickIsPow2(m);
    if BitAnd(m, m - 1) == 0 {
      p := [oldRoot] + p;
    }
    if p == [] {
      return false;
    }
    var roots := RebuildRoots(m, n, p);
    ok := roots == Some((oldRoot, newRoot));
  }

  /** cryptovalid_receipt.consistency_roots, which also answers for two empty trees. */
  method RecomputeConsistencyRoots<D>(m: int, n: int, proof: seq<Digest<D>>, oldRoot: Digest<D>)
    returns (roots: Option<(Digest<D>, Digest<D>)>)
    ensures m == n ==> roots == if proof == [] then Some((oldRoot, oldRoot)) else None
    ensures m != n && (m <= 0 || m > n) ==> roots == None
    ensures 0 < m < n ==> roots == ConsistencyRoots(m, n, proof, oldRoot)
    ensures 0 < m <= n ==>
              forall new_ :: ConsistencyAccepted(m, n, proof, oldRoot, new_) <==> roots == Some((oldRoot, new_))
  {
    if m == n {
      return if proof == [] then Some((oldRoot, oldRoot)) else None;
    }
    if m <= 0 || m > n {
      return None;
    }
    BitTrickIsPow2(m);
    var path := if BitAnd(m, m - 1) == 0 then [oldRoot] + proof else proof;
    if path == [] {
      return None;
    }
    roots := RebuildRoots(m, n, path);
  }

  datatype Verdict = CouldNotCompare | Consistent | Inconsistent

  /** The three-valued check: only a proof that exists between the two sizes can be inconsistent. */
  method ConsistencyVerdict<D(==)>(m: int, n: int, proof: seq<Digest<D>>, oldRoot: Digest<D>, newRoot: Digest<D>)
    returns (v: Verdict)
    ensures v == CouldNotCompare <==> !(0 < m <= n)
    ensures v == Consistent <==> 0 < m <= n && ConsistencyAccepted(m, n, proof, oldRoot, newRoot)
  {
    if m <= 0 || m > n {
      return CouldNotCompare;
    }
    var ok := VerifyConsistency(m, n, proof, oldRoot, newRoot);
    v := if ok then Consistent else Inconsistent;
  }
}
