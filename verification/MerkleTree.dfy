/**
 The RFC 6962 Merkle tree of cryptovalid_merkle.py: the recursive tree hash, the recursive
 provers, and the "level list" view of the same tree on which the proofs about the bit-shifting
 verifiers rest.

 Hashing is symbolic: a digest is the term that was hashed.  Equality of digests is therefore
 equality of the hashed data (no collisions), and the 0x00 / 0x01 prefixes of leaf_hash and
 node_hash are the two different constructors.  A proof element that is not the hash of anything
 known is a `Foreign` digest, so proofs stay arbitrary lists of arbitrary digests.
 */
module MerkleTree {

  datatype Option<+T> = None | Some(value: T)

  datatype Digest<D> =
    | EmptyRoot                                       // SHA-256 of the empty string
    | LeafHash(data: D)                               // SHA-256(0x00 || data)
    | NodeHash(left: Digest<D>, right: Digest<D>)     // SHA-256(0x01 || left || right)
    | Foreign(id: nat)                                // 32 bytes that are no known hash

  // ---------------------------------------------------------------- powers of two

  predicate IsPow2(n: nat) {
    n == 1 || (n > 0 && n % 2 == 0 && IsPow2(n / 2))
  }

  /** The largest power of two strictly below n. */
  function LargestPow2Below(n: nat): (k: nat)
    requires n >= 2
    ensures IsPow2(k) && k < n <= 2 * k
  {
    if n == 2 then 1 else 2 * LargestPow2Below((n + 1) / 2)
  }

  lemma DoublePow2(k: nat)
    requires IsPow2(k)
    ensures 2 * k / 2 == k && IsPow2(2 * k)
  {
    var n := 2 * k;
    assert n / 2 == k && n % 2 == 0;
  }

  lemma {:induction false} Pow2BelowIsUnique(n: nat, a: nat, b: nat)
    requires IsPow2(a) && a < n <= 2 * a
    requires IsPow2(b) && b < n <= 2 * b
    ensures a == b
  {
    if a > 1 && b > 1 {
      Pow2BelowIsUnique((n + 1) / 2, a / 2, b / 2);
    }
  }

  /** Distance from zero, the measure of a right shift that has not reached 0 or -1. */
  function Abs(a: int): nat {
    if a < 0 then -a else a
  }

  /** Bitwise `and` of two integers, as Python's `&` computes it on unbounded two's complement. */
  function BitAnd(a: int, b: int): int
    decreases Abs(a) + Abs(b)
  {
    if a == 0 || b == 0 then 0
    else if a == -1 then b
    else if b == -1 then a
    else 2 * BitAnd(a / 2, b / 2) + (if a % 2 == 1 && b % 2 == 1 then 1 else 0)
  }

  /** The test `m & (m - 1) == 0` recognises exactly the powers of two, and never a negative number. */
  lemma {:induction false} BitTrickIsPow2(m: int)
    requires m != 0
    ensures BitAnd(m, m - 1) == 0 <==> m > 0 && IsPow2(m)
    decreases Abs(m)
  {
    if m < 0 {
      BitAndNegative(m, m - 1);
    } else if m > 1 {
      if m % 2 == 0 {
        assert (m - 1) / 2 == m / 2 - 1;
        BitTrickIsPow2(m / 2);
      } else {
        assert m / 2 == (m - 1) / 2;
        BitAndSelf(m / 2);
      }
    }
  }

  lemma {:induction false} BitAndNegative(a: int, b: int)
    requires a < 0 && b < 0
    ensures BitAnd(a, b) < 0
    decreases Abs(a) + Abs(b)
  {
    if a != -1 && b != -1 {
      BitAndNegative(a / 2, b / 2);
    }
  }

  lemma {:induction false} BitAndSelf(a: nat)
    ensures BitAnd(a, a) == a
  {
    if a > 0 {
      BitAndSelf(a / 2);
    }
  }

  // ---------------------------------------------------------------- tree hash and provers

  /** Merkle tree hash of a list of leaf data (section 2.1 of RFC 6962). */
  function Mth<D>(leaves: seq<D>): Digest<D>
    decreases |leaves|
  {
    if |leaves| == 0 then EmptyRoot
    else if |leaves| == 1 then LeafHash(leaves[0])
    else
      var k := LargestPow2Below(|leaves|);
      NodeHash(Mth(leaves[..k]), Mth(leaves[k..]))
  }

  /** Audit path for leaf m (section 2.1.1 of RFC 6962). */
  function InclusionProof<D>(m: nat, leaves: seq<D>): seq<Digest<D>>
    requires m < |leaves|
    decreases |leaves|
  {
    if |leaves| == 1 then []
    else
      var k := LargestPow2Below(|leaves|);
      if m < k then InclusionProof(m, leaves[..k]) + [Mth(leaves[k..])]
      else InclusionProof(m - k, leaves[k..]) + [Mth(leaves[..k])]
  }

  /** Consistency proof from the first m leaves (section 2.1.2 of RFC 6962). */
  function ConsistencyProof<D>(m: nat, leaves: seq<D>): seq<Digest<D>>
    requires 0 < m <= |leaves|
  {
    if m == |leaves| then [] else Subproof(m, leaves, true)
  }

  function Subproof<D>(m: nat, leaves: seq<D>, b: bool): seq<Digest<D>>
    requires 0 < m <= |leaves|
    decreases |leaves|
  {
    if m == |leaves| then (if b then [] else [Mth(leaves)])
    else
      var k := LargestPow2Below(|leaves|);
      if m <= k then Subproof(m, leaves[..k], b) + [Mth(leaves[k..])]
      else Subproof(m - k, leaves[k..], false) + [Mth(leaves[..k])]
  }

  /** Equal tree hashes come from equal lists, whatever lengths are claimed: leaves and nodes are hashed apart. */
  lemma {:induction false} MthInjective<D>(a: seq<D>, b: seq<D>)
    requires Mth(a) == Mth(b)
    ensures a == b
    decreases |a|
  {
    hide LargestPow2Below, IsPow2;
    if |a| >= 2 {
      var k, j := LargestPow2Below(|a|), LargestPow2Below(|b|);
      MthInjective(a[..k], b[..j]);
      MthInjective(a[k..], b[j..]);
      assert a == a[..k] + a[k..] && b == b[..j] + b[j..];
    }
  }

  /** Does the term `x` occur inside the digest `d`? */
  predicate Occurs<D(==)>(x: Digest<D>, d: Digest<D>) {
    x == d || (d.NodeHash? && (Occurs(x, d.left) || Occurs(x, d.right)))
  }

  /** A leaf hash that occurs inside a tree hash is the hash of one of the leaves. */
  lemma {:induction false} LeafInTreeIsALeaf<D>(x: D, leaves: seq<D>)
    requires Occurs(LeafHash(x), Mth(leaves))
    ensures exists j :: 0 <= j < |leaves| && leaves[j] == x
    decreases |leaves|
  {
    if |leaves| >= 2 {
      var k := LargestPow2Below(|leaves|);
      if Occurs(LeafHash(x), Mth(leaves[..k])) {
        LeafInTreeIsALeaf(x, leaves[..k]);
        var j :| 0 <= j < k && leaves[..k][j] == x;
        assert leaves[j] == x;
      } else {
        LeafInTreeIsALeaf(x, leaves[k..]);
        var j :| 0 <= j < |leaves| - k && leaves[k..][j] == x;
        assert leaves[k + j] == x;
      }
    } else {
      assert leaves[0] == x;
    }
  }
}

/**
 The same tree seen level by level: a level is the list of its node digests, and the next level
 pairs neighbours, promoting an odd last node unchanged.
 */
module MerkleLevels {
  import opened MerkleTree

  function Leaves<D>(data: seq<D>): (r: seq<Digest<D>>)
    ensures |r| == |data|
  {
    seq(|data|, i requires 0 <= i < |data| => LeafHash(data[i]))
  }

  lemma {:induction false} LeavesSplit<D>(data: seq<D>, k: nat)
    requires k <= |data|
    ensures Leaves(data)[..k] == Leaves(data[..k])
    ensures Leaves(data)[k..] == Leaves(data[k..])
  {
  }

  function Pairs<D>(level: seq<Digest<D>>): (r: seq<Digest<D>>)
    ensures |r| == (|level| + 1) / 2
  {
    seq((|level| + 1) / 2, i requires 0 <= i < (|level| + 1) / 2 =>
      if 2 * i + 1 < |level| then NodeHash(level[2 * i], level[2 * i + 1]) else level[2 * i])
  }

  /** Where node f of a level goes on the next level. */
  lemma {:induction false} PairAt<D>(level: seq<Digest<D>>, f: nat)
    requires f < |level|
    ensures |Pairs(level)| - 1 == (|level| - 1) / 2 && f / 2 < |Pairs(level)|
    ensures Pairs(level)[f / 2] ==
            if f % 2 == 1 then NodeHash(level[f - 1], level[f])
            else if f + 1 < |level| then NodeHash(level[f], level[f + 1])
            else level[f]
  {
    assert f % 2 == 1 ==> f == 2 * (f / 2) + 1;
  }

  function Root<D>(level: seq<Digest<D>>): Digest<D>
    requires |level| > 0
    decreases |level|
  {
    if |level| == 1 then level[0] else Root(Pairs(level))
  }

  /** The siblings met on the way up from node f of a level. */
  function LevelPath<D>(level: seq<Digest<D>>, f: nat): seq<Digest<D>>
    requires f < |level|
    decreases |level|
  {
    if |level| == 1 then []
    else if f % 2 == 1 then [level[f - 1]] + LevelPath(Pairs(level), f / 2)
    else if f + 1 == |level| then LevelPath(Pairs(level), f / 2)
    else [level[f + 1]] + LevelPath(Pairs(level), f / 2)
  }

  /** The consistency path seen from below: climb while f is odd, name that node, then its siblings. */
  function LevelConsistencyPath<D>(level: seq<Digest<D>>, f: nat): (r: seq<Digest<D>>)
    requires f < |level|
    ensures |r| > 0
    decreases |level|
  {
    if f % 2 == 1 then LevelConsistencyPath(Pairs(level), f / 2)
    else [level[f]] + LevelPath(level, f)
  }

  // ---------------------------------------------------------------- splitting at the top

  lemma {:induction false} PairsSplit<D>(level: seq<Digest<D>>, k: nat)
    requires k % 2 == 0 && k <= |level|
    ensures Pairs(level)[..k / 2] == Pairs(level[..k])
    ensures Pairs(level)[k / 2..] == Pairs(level[k..])
  {
  }

  lemma {:induction false} SinglePair<D>(level: seq<Digest<D>>)
    requires |level| == 1
    ensures Pairs(level) == level
  {
  }

  lemma {:induction false} RootOfPairs<D>(level: seq<Digest<D>>)
    requires |level| > 0
    ensures Root(Pairs(level)) == Root(level)
  {
    assert |level| == 1 ==> Pairs(level) == level;
  }

  /** The level-by-level root splits at the largest power of two below the length. */
  lemma {:induction false} RootSplit<D>(level: seq<Digest<D>>, k: nat)
    requires IsPow2(k) && k < |level| <= 2 * k
    ensures Root(level) == NodeHash(Root(level[..k]), Root(level[k..]))
    decreases k
  {
    if k == 1 {
      assert Pairs(level) == [NodeHash(level[0], level[1])];
    } else {
      PairsSplit(level, k);
      RootSplit(Pairs(level), k / 2);
      RootOfPairs(level[k..]);
    }
  }

  /** Bottom-up and top-down tree hashes agree. */
  lemma {:induction false} RootIsMth<D>(data: seq<D>)
    requires |data| > 0
    ensures Root(Leaves(data)) == Mth(data)
    decreases |data|
  {
    hide Pairs;
    if |data| >= 2 {
      var k := LargestPow2Below(|data|);
      LeavesSplit(data, k);
      RootSplit(Leaves(data), k);
      RootIsMth(data[..k]);
      RootIsMth(data[k..]);
    }
  }

  lemma {:induction false} LevelPathLeft<D>(level: seq<Digest<D>>, k: nat, f: nat)
    requires IsPow2(k) && k < |level| <= 2 * k && f < k
    ensures LevelPath(level, f) == LevelPath(level[..k], f) + [Root(level[k..])]
    decreases k
  {
    hide Pairs;
    if k > 1 {
      PairsSplit(level, k);
      LevelPathLeft(Pairs(level), k / 2, f / 2);
      RootOfPairs(level[k..]);
    }
  }

  /** Positions in the right part keep their parity and halve together with the split. */
  lemma {:induction false} HalvePosition(n: nat, k: nat, f: nat)
    requires k % 2 == 0 && k <= f < n <= 2 * k
    ensures (f - k) % 2 == f % 2 && (f - k) / 2 == f / 2 - k / 2
    ensures k / 2 <= f / 2 && k / 2 < (n + 1) / 2 <= 2 * (k / 2)
    ensures f % 2 == 1 && f + 1 < n ==> f / 2 + 1 < (n + 1) / 2
  {
  }

  lemma {:induction false} LevelPathRight<D>(level: seq<Digest<D>>, k: nat, f: nat)
    requires IsPow2(k) && k < |level| <= 2 * k && k <= f < |level|
    ensures LevelPath(level, f) == LevelPath(level[k..], f - k) + [Root(level[..k])]
    decreases k
  {
    hide Pairs;
    if k > 1 {
      HalvePosition(|level|, k, f);
      PairsSplit(level, k);
      LevelPathRight(Pairs(level), k / 2, f / 2);
      var right := level[k..];
      if |right| == 1 {
        SinglePair(right);
      } else if f % 2 == 1 {
        assert right[f - k - 1] == level[f - 1];
      } else if f + 1 < |level| {
        assert right[f - k + 1] == level[f + 1];
      }
    }
  }

  lemma {:induction false} ConsistencyPathLeft<D>(level: seq<Digest<D>>, k: nat, m: nat)
    requires IsPow2(k) && k < |level| <= 2 * k && 0 < m <= k
    ensures LevelConsistencyPath(level, m - 1) == LevelConsistencyPath(level[..k], m - 1) + [Root(level[k..])]
    decreases k
  {
    hide Pairs, LevelPath;
    if m % 2 == 1 {
      LevelPathLeft(level, k, m - 1);
    } else {
      PairsSplit(level, k);
      ConsistencyPathLeft(Pairs(level), k / 2, m / 2);
      RootOfPairs(level[k..]);
      assert (m - 1) / 2 == m / 2 - 1;
    }
  }

  lemma {:induction false} ConsistencyPathRight<D>(level: seq<Digest<D>>, k: nat, f: nat)
    requires IsPow2(k) && k < |level| <= 2 * k && k <= f && f + 1 < |level|
    ensures LevelConsistencyPath(level, f) == LevelConsistencyPath(level[k..], f - k) + [Root(level[..k])]
    decreases k
  {
    hide Pairs, LevelPath;
    HalvePosition(|level|, k, f);
    if f % 2 == 0 {
      LevelPathRight(level, k, f);
    } else {
      PairsSplit(level, k);
      ConsistencyPathRight(Pairs(level), k / 2, f / 2);
      RootOfPairs(level[..k]);
    }
  }

  lemma {:induction false} FullLevelConsistencyPath<D>(level: seq<Digest<D>>)
    requires IsPow2(|level|)
    ensures LevelConsistencyPath(level, |level| - 1) == [Root(level)]
    decreases |level|
  {
    hide Pairs, LevelPath, Root, IsPow2;
    HalfOfPow2(|level|);
    if |level| > 1 {
      RootOfPairs(level);
      FullLevelConsistencyPath(Pairs(level));
    } else {
      SingleLevel(level);
    }
  }

  lemma HalfOfPow2(n: nat)
    requires IsPow2(n)
    ensures n >= 1
    ensures n > 1 ==> n % 2 == 0 && IsPow2(n / 2) && (n - 1) % 2 == 1 && (n - 1) / 2 == (n + 1) / 2 - 1 == n / 2 - 1
  {
    hide IsPow2;
    Pow2Unfolds(n);
    if n > 1 {
      AroundEven(n / 2);
    }
  }

  lemma Pow2Unfolds(n: nat)
    requires IsPow2(n)
    ensures n >= 1 && (n > 1 ==> n == 2 * (n / 2) && IsPow2(n / 2))
  {
  }

  lemma AroundEven(h: nat)
    requires h > 0
    ensures (2 * h) % 2 == 0 && (2 * h - 1) % 2 == 1 && (2 * h - 1) / 2 == h - 1 && (2 * h + 1) / 2 == h
  {
  }

  lemma SingleLevel<D>(level: seq<Digest<D>>)
    requires |level| == 1
    ensures LevelPath(level, 0) == [] && Root(level) == level[0]
  {
  }

  // ---------------------------------------------------------------- the recursive provers, level by level

  lemma {:induction false} InclusionProofIsLevelPath<D>(m: nat, data: seq<D>)
    requires m < |data|
    ensures InclusionProof(m, data) == LevelPath(Leaves(data), m)
    decreases |data|
  {
    hide Pairs, Root;
    if |data| >= 2 {
      var k := LargestPow2Below(|data|);
      LeavesSplit(data, k);
      if m < k {
        LevelPathLeft(Leaves(data), k, m);
        InclusionProofIsLevelPath(m, data[..k]);
        RootIsMth(data[k..]);
      } else {
        LevelPathRight(Leaves(data), k, m);
        InclusionProofIsLevelPath(m - k, data[k..]);
        RootIsMth(data[..k]);
      }
    }
  }

  lemma {:induction false} SubproofIsLevelPath<D>(m: nat, data: seq<D>, b: bool)
    requires 0 < m <= |data|
    requires m < |data| || IsPow2(m)
    ensures var path := LevelConsistencyPath(Leaves(data), m - 1);
            Subproof(m, data, b) == if b && IsPow2(m) then path[1..] else path
    decreases |data|
  {
    hide Pairs, LevelPath, LevelConsistencyPath, Root, Mth, IsPow2, LargestPow2Below, Leaves;
    if m == |data| {
      FullLevelConsistencyPath(Leaves(data));
      RootIsMth(data);
    } else {
      var k := LargestPow2Below(|data|);
      LeavesSplit(data, k);
      if m <= k {
        ConsistencyPathLeft(Leaves(data), k, m);
        SubproofIsLevelPath(m, data[..k], b);
        RootIsMth(data[k..]);
      } else {
        ConsistencyPathRight(Leaves(data), k, m - 1);
        SubproofIsLevelPath(m - k, data[k..], false);
        RootIsMth(data[..k]);
        if IsPow2(m) {
          Pow2BelowIsUnique(|data|, m, k);
        }
      }
    }
  }

  // ---------------------------------------------------------------- path lengths

  /** The number of halvings that bring n down to 1: ceil(log2 n). */
  function CeilLog2(n: nat): nat
    requires n > 0
  {
    if n == 1 then 0 else 1 + CeilLog2((n + 1) / 2)
  }

  function Pow2(e: nat): nat {
    if e == 0 then 1 else 2 * Pow2(e - 1)
  }

  lemma {:induction false} CeilLog2Bound(n: nat, e: nat)
    requires 0 < n <= Pow2(e)
    ensures CeilLog2(n) <= e
  {
    if n > 1 {
      CeilLog2Bound((n + 1) / 2, e - 1);
    }
  }

  lemma {:induction false} LevelPathLength<D>(level: seq<Digest<D>>, f: nat)
    requires f < |level|
    ensures |LevelPath(level, f)| <= CeilLog2(|level|)
    decreases |level|
  {
    if |level| > 1 {
      LevelPathLength(Pairs(level), f / 2);
    }
  }

  lemma {:induction false} LevelConsistencyPathLength<D>(level: seq<Digest<D>>, f: nat)
    requires f < |level|
    ensures |LevelConsistencyPath(level, f)| <= CeilLog2(|level|) + 1
    decreases |level|
  {
    if f % 2 == 1 {
      LevelConsistencyPathLength(Pairs(level), f / 2);
    } else {
      LevelPathLength(level, f);
    }
  }

  /** A consistency proof has at most ceil(log2 n) + 1 hashes. */
  lemma {:induction false} ConsistencyProofLength<D>(m: nat, data: seq<D>)
    requires 0 < m <= |data|
    ensures |ConsistencyProof(m, data)| <= CeilLog2(|data|) + 1
  {
    hide Subproof, LevelConsistencyPath;
    if m < |data| {
      SubproofIsLevelPath(m, data, true);
      LevelConsistencyPathLength(Leaves(data), m - 1);
    }
  }

  /** An audit path has at most ceil(log2 n) hashes. */
  lemma {:induction false} InclusionProofLength<D>(m: nat, data: seq<D>)
    requires m < |data|
    ensures |InclusionProof(m, data)| <= CeilLog2(|data|)
  {
    InclusionProofIsLevelPath(m, data);
    LevelPathLength(Leaves(data), m);
  }
}
