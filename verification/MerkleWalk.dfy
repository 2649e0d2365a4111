/**
 The value computed by the bit-shifting verifiers, as a function of the positions (fn, sn), the
 running hashes and the remaining proof, and what that value means on the level lists.
 */
module MerkleWalk {
  import opened MerkleTree
  import opened MerkleLevels

  // ---------------------------------------------------------------- inclusion

  /**
   Walk an audit path.  `strict` walkers (receipts, SCITT) stop with None on a path element met
   after the root has been reached; the walker of cryptovalid_merkle keeps hashing.  Positions are
   integers, as in the source: `/ 2` and `% 2` are Python's `>> 1` and `& 1`, on negatives too.
   */
  function Walk<D>(fn: int, sn: int, h: Digest<D>, proof: seq<Digest<D>>, strict: bool): Option<Digest<D>>
    decreases |proof|, Abs(fn)
  {
    if proof == [] then (if sn == 0 then Some(h) else None)
    else if strict && sn == 0 then None
    else if fn % 2 == 1 then Walk(fn / 2, sn / 2, NodeHash(proof[0], h), proof[1..], strict)
    else if fn != sn then Walk(fn / 2, sn / 2, NodeHash(h, proof[0]), proof[1..], strict)
    else if fn == 0 then Walk(0, 0, NodeHash(proof[0], h), proof[1..], strict)
    else Walk(fn / 2, sn / 2, h, proof, strict)
  }

  /** The path of a node on a level is walked to the level's root. */
  lemma {:induction false} WalkAlongLevelPath<D>(level: seq<Digest<D>>, f: nat, strict: bool)
    requires f < |level|
    ensures Walk(f, |level| - 1, level[f], LevelPath(level, f), strict) == Some(Root(level))
    decreases |level|
  {
    hide Pairs, Root;
    if |level| > 1 {
      PairAt(level, f);
      RootOfPairs(level);
      WalkAlongLevelPath(Pairs(level), f / 2, strict);
      var path, rest := LevelPath(level, f), LevelPath(Pairs(level), f / 2);
      if f % 2 == 1 {
        assert path == [level[f - 1]] + rest && path[1..] == rest;
      } else if f + 1 < |level| {
        assert path == [level[f + 1]] + rest && path[1..] == rest;
      } else {
        WalkPromoted(f, Pairs(level)[f / 2], path, strict);
      }
    } else {
      SingleLevel(level);
    }
  }

  /** Climbing from an even last position changes nothing but the position. */
  lemma {:induction false} WalkPromoted<D>(f: nat, h: Digest<D>, proof: seq<Digest<D>>, strict: bool)
    requires f % 2 == 0 && f > 0
    ensures Walk(f, f, h, proof, strict) == Walk(f / 2, f / 2, h, proof, strict)
  {
  }

  /** A strict walk that reaches the root of a level started at that level's node. */
  lemma {:induction false} StrictWalkSound<D>(level: seq<Digest<D>>, f: nat, h: Digest<D>, proof: seq<Digest<D>>)
    requires f < |level|
    requires Walk(f, |level| - 1, h, proof, true) == Some(Root(level))
    ensures h == level[f] && proof == LevelPath(level, f)
    decreases |level|
  {
    hide Pairs;
    var sn := |level| - 1;
    if sn > 0 {
      assert proof != [];
      var p, up, rest := proof[0], Pairs(level), proof[1..];
      assert proof == [p] + rest;
      PairAt(level, f);
      if f % 2 == 1 {
        StrictWalkSound(up, f / 2, NodeHash(p, h), rest);
      } else if f != sn {
        StrictWalkSound(up, f / 2, NodeHash(h, p), rest);
      } else {
        StrictWalkSound(up, f / 2, h, proof);
      }
    }
  }

  // ---------------------------------------------------------------- overlong paths

  function Height<D>(d: Digest<D>): nat {
    if d.NodeHash? then 1 + (if Height(d.left) > Height(d.right) then Height(d.left) else Height(d.right)) else 0
  }

  /** Somewhere along the right spine, the part below h is at least as high as the part below x. */
  predicate Dominates<D>(h: Digest<D>, x: Digest<D>) {
    Height(h) >= Height(x) || (h.NodeHash? && x.NodeHash? && Dominates(h.right, x.right))
  }

  /** The lax walker at the root: it keeps putting the old value on the right. */
  function Wrap<D>(h: Digest<D>, proof: seq<Digest<D>>): Digest<D>
    decreases |proof|
  {
    if proof == [] then h else Wrap(NodeHash(proof[0], h), proof[1..])
  }

  lemma {:induction false} LaxWalkAtRoot<D>(h: Digest<D>, proof: seq<Digest<D>>)
    ensures Walk(0, 0, h, proof, false) == Some(Wrap(h, proof))
    decreases |proof|
  {
    if proof != [] {
      LaxWalkAtRoot(NodeHash(proof[0], h), proof[1..]);
    }
  }

  lemma {:induction false} WrapGrows<D>(h: Digest<D>, proof: seq<Digest<D>>)
    ensures Height(Wrap(h, proof)) >= Height(h) + |proof|
    decreases |proof|
  {
    if proof != [] {
      WrapGrows(NodeHash(proof[0], h), proof[1..]);
    }
  }

  /** Peeling the outermost node of a wrapped node. */
  lemma {:induction false} WrapRight<D>(p: Digest<D>, h: Digest<D>, proof: seq<Digest<D>>)
    ensures Wrap(NodeHash(p, h), proof).NodeHash?
    ensures Wrap(NodeHash(p, h), proof).right == Wrap(h, ([p] + proof)[..|proof|])
    decreases |proof|
  {
    if proof != [] {
      WrapRight(proof[0], NodeHash(p, h), proof[1..]);
      var all := [p] + proof;
      assert ([proof[0]] + proof[1..])[..|proof| - 1] == all[..|proof|][1..];
    }
  }

  lemma {:induction false} WrappedIsNot<D>(h: Digest<D>, x: Digest<D>, proof: seq<Digest<D>>)
    requires Dominates(h, x) && proof != []
    ensures Wrap(h, proof) != x
    decreases h
  {
    WrapGrows(h, proof);
    if Height(h) < Height(x) {
      WrapRight(h.left, h.right, proof);
      WrappedIsNot(h.right, x.right, ([h.left] + proof)[..|proof|]);
    }
  }

  ghost predicate HeightsAtMost<D>(level: seq<Digest<D>>, t: nat) {
    forall i :: 0 <= i < |level| ==> Height(level[i]) <= t
  }

  lemma {:induction false} PairHeights<D>(level: seq<Digest<D>>, t: nat)
    requires HeightsAtMost(level, t)
    ensures HeightsAtMost(Pairs(level), t + 1)
  {
  }

  /**
   The lax walker against a true root: reaching the root of a level means having started at that
   level's node, with no path element left over.  `t` bounds the heights on the level.
   */
  lemma {:induction false} LaxWalkSound<D>(level: seq<Digest<D>>, f: nat, h: Digest<D>, proof: seq<Digest<D>>, t: nat)
    requires f < |level|
    requires HeightsAtMost(level, t)
    requires Dominates(h, level[f]) && (f + 1 < |level| ==> Height(h) >= t)
    requires Walk(f, |level| - 1, h, proof, false) == Some(Root(level))
    ensures h == level[f] && proof == LevelPath(level, f)
    decreases |level|
  {
    hide Pairs;
    var sn := |level| - 1;
    if sn == 0 {
      LaxWalkAtRoot(h, proof);
      if proof != [] {
        WrappedIsNot(h, level[0], proof);
      }
    } else {
      assert proof != [];
      var p, up, rest := proof[0], Pairs(level), proof[1..];
      assert proof == [p] + rest;
      PairHeights(level, t);
      PairAt(level, f);
      if f % 2 == 1 {
        assert Dominates(NodeHash(p, h).right, up[f / 2].right);
        LaxWalkSound(up, f / 2, NodeHash(p, h), rest, t + 1);
      } else if f != sn {
        LaxWalkSound(up, f / 2, NodeHash(h, p), rest, t + 1);
      } else {
        LaxWalkSound(up, f / 2, h, proof, t + 1);
      }
    }
  }

  /** A walk builds its result around the hash it started from, whatever the positions say. */
  lemma {:induction false} WalkContains<D>(fn: int, sn: int, h: Digest<D>, proof: seq<Digest<D>>, strict: bool)
    ensures var r := Walk(fn, sn, h, proof, strict); r.Some? ==> Occurs(h, r.value)
    decreases |proof|, Abs(fn)
  {
    if proof != [] && !(strict && sn == 0) {
      if fn % 2 == 1 || (fn == sn && fn == 0) {
        WalkContains(fn / 2, sn / 2, NodeHash(proof[0], h), proof[1..], strict);
        WalkContainsPart(NodeHash(proof[0], h), h, Walk(fn, sn, h, proof, strict));
      } else if fn != sn {
        WalkContains(fn / 2, sn / 2, NodeHash(h, proof[0]), proof[1..], strict);
        WalkContainsPart(NodeHash(h, proof[0]), h, Walk(fn, sn, h, proof, strict));
      } else {
        WalkContains(fn / 2, sn / 2, h, proof, strict);
      }
    }
  }

  lemma {:induction false} OccursTransitive<D>(x: Digest<D>, y: Digest<D>, z: Digest<D>)
    requires Occurs(x, y) && Occurs(y, z)
    ensures Occurs(x, z)
    decreases z
  {
    if y != z {
      if Occurs(y, z.left) {
        OccursTransitive(x, y, z.left);
      } else {
        OccursTransitive(x, y, z.right);
      }
    }
  }

  lemma {:induction false} WalkContainsPart<D>(whole: Digest<D>, part: Digest<D>, r: Option<Digest<D>>)
    requires whole.NodeHash? && (whole.left == part || whole.right == part)
    requires r.Some? ==> Occurs(whole, r.value)
    ensures r.Some? ==> Occurs(part, r.value)
  {
    if r.Some? {
      assert Occurs(part, whole);
      OccursTransitive(part, whole, r.value);
    }
  }

  // ---------------------------------------------------------------- consistency

  /** Walk a consistency path with both running roots; None when the path is too long or too short. */
  function WalkBoth<D>(fn: int, sn: int, fr: Digest<D>, sr: Digest<D>, path: seq<Digest<D>>)
    : Option<(Digest<D>, Digest<D>)>
    decreases |path|, Abs(fn)
  {
    if path == [] then (if sn == 0 then Some((fr, sr)) else None)
    else if sn == 0 then None
    else if fn % 2 == 1 then WalkBoth(fn / 2, sn / 2, NodeHash(path[0], fr), NodeHash(path[0], sr), path[1..])
    else if fn != sn then WalkBoth(fn / 2, sn / 2, fr, NodeHash(sr, path[0]), path[1..])
    else WalkBoth(fn / 2, sn / 2, fr, sr, path)
  }

  /** The two positions after the initial climb `while fn & 1`, which never meets -1 unless it starts there. */
  function ClimbOdd(fn: int, sn: int): (int, int)
    requires fn != -1
    decreases Abs(fn)
  {
    if fn % 2 == 1 then ClimbOdd(fn / 2, sn / 2) else (fn, sn)
  }

  /** The path handed to the walker, the old root in front of it for a power-of-two size. */
  function FullPath<D>(m: int, proof: seq<Digest<D>>, oldRoot: Digest<D>): seq<Digest<D>> {
    if m > 0 && IsPow2(m) then [oldRoot] + proof else proof
  }

  /**
   The two roots that a consistency path from size m to size n rebuilds.  A power-of-two old tree
   is itself the first node of the path.
   */
  function ConsistencyRoots<D>(m: int, n: int, proof: seq<Digest<D>>, oldRoot: Digest<D>)
    : Option<(Digest<D>, Digest<D>)>
    requires m != 0 && m < n
  {
    var path := FullPath(m, proof, oldRoot);
    if path == [] then None
    else
      var (fn, sn) := ClimbOdd(m - 1, n - 1);
      WalkBoth(fn, sn, path[0], path[0], path[1..])
  }

  /**
   Two levels of an old tree and of a tree that extends it: all nodes but the last one of the old
   level are nodes of the new level.
   */
  ghost predicate OldLevel<D>(old_: seq<Digest<D>>, level: seq<Digest<D>>) {
    0 < |old_| <= |level| && old_[..|old_| - 1] == level[..|old_| - 1]
  }

  lemma {:induction false} OldLevelUp<D>(old_: seq<Digest<D>>, level: seq<Digest<D>>)
    requires OldLevel(old_, level)
    ensures OldLevel(Pairs(old_), Pairs(level))
  {
    var k := |Pairs(old_)| - 1;
    forall i | 0 <= i < k ensures Pairs(old_)[i] == Pairs(level)[i] {
      assert old_[2 * i] == old_[..|old_| - 1][2 * i] == level[2 * i];
      assert old_[2 * i + 1] == old_[..|old_| - 1][2 * i + 1] == level[2 * i + 1];
    }
  }

  /** Completeness of the walk along the true siblings. */
  lemma {:induction false} WalkBothAlongPath<D>(old_: seq<Digest<D>>, level: seq<Digest<D>>)
    requires OldLevel(old_, level)
    ensures WalkBoth(|old_| - 1, |level| - 1, old_[|old_| - 1], level[|old_| - 1], LevelPath(level, |old_| - 1))
            == Some((Root(old_), Root(level)))
    decreases |level|
  {
    hide Pairs;
    var fn, sn := |old_| - 1, |level| - 1;
    if sn > 0 {
      OldLevelUp(old_, level);
      RootOfPairs(old_);
      WalkBothAlongPath(Pairs(old_), Pairs(level));
      PairAt(old_, fn);
      PairAt(level, fn);
      if fn % 2 == 1 {
        assert old_[fn - 1] == old_[..fn][fn - 1] == level[fn - 1];
      } else if fn == sn {
        LevelPathNotEmpty(level, fn);
      }
    }
  }

  /** The new running root alone is the strict inclusion walk. */
  lemma {:induction false} WalkBothSecond<D>(fn: nat, sn: nat, fr: Digest<D>, sr: Digest<D>, path: seq<Digest<D>>)
    requires fn <= sn && WalkBoth(fn, sn, fr, sr, path).Some?
    ensures Walk(fn, sn, sr, path, true) == Some(WalkBoth(fn, sn, fr, sr, path).value.1)
    decreases |path|, fn
  {
    if path != [] {
      if fn % 2 == 1 {
        WalkBothSecond(fn / 2, sn / 2, NodeHash(path[0], fr), NodeHash(path[0], sr), path[1..]);
      } else if fn != sn {
        WalkBothSecond(fn / 2, sn / 2, fr, NodeHash(sr, path[0]), path[1..]);
      } else {
        WalkBothSecond(fn / 2, sn / 2, fr, sr, path);
      }
    }
  }

  /**
   Soundness of the walk: rebuilding the new root forces the new running value to be the true node,
   and then an old running value that is the true old node is carried to the true old root.
   */
  lemma {:induction false} WalkBothSound<D>(old_: seq<Digest<D>>, level: seq<Digest<D>>,
                                            fr: Digest<D>, sr: Digest<D>, path: seq<Digest<D>>)
    requires OldLevel(old_, level)
    requires var r := WalkBoth(|old_| - 1, |level| - 1, fr, sr, path); r.Some? && r.value.1 == Root(level)
    ensures sr == level[|old_| - 1] && path == LevelPath(level, |old_| - 1)
    ensures fr == old_[|old_| - 1] ==> WalkBoth(|old_| - 1, |level| - 1, fr, sr, path).value.0 == Root(old_)
  {
    hide Walk, WalkBoth, Root, LevelPath;
    WalkBothSecond(|old_| - 1, |level| - 1, fr, sr, path);
    StrictWalkSound(level, |old_| - 1, sr, path);
    WalkBothAlongPath(old_, level);
  }

  lemma {:induction false} LevelPathNotEmpty<D>(level: seq<Digest<D>>, f: nat)
    requires f < |level| && |level| > 1
    ensures LevelPath(level, f) != []
    decreases |level|
  {
    if f % 2 == 0 && f + 1 == |level| {
      LevelPathNotEmpty(Pairs(level), f / 2);
    }
  }

  /** The initial climb: full pairs on both levels, so the last old node stays a node of the new level. */
  lemma {:induction false} ClimbSound<D>(old_: seq<Digest<D>>, level: seq<Digest<D>>, path: seq<Digest<D>>)
    requires OldLevel(old_, level) && old_[|old_| - 1] == level[|old_| - 1] && path != []
    requires var (fn, sn) := ClimbOdd(|old_| - 1, |level| - 1);
             var r := WalkBoth(fn, sn, path[0], path[0], path[1..]); r.Some? && r.value.1 == Root(level)
    ensures var (fn, sn) := ClimbOdd(|old_| - 1, |level| - 1);
            WalkBoth(fn, sn, path[0], path[0], path[1..]).value.0 == Root(old_)
    ensures path == LevelConsistencyPath(level, |old_| - 1)
    decreases |level|
  {
    hide Pairs, LevelPath, WalkBoth;
    if (|old_| - 1) % 2 == 1 {
      ClimbStep(old_, level);
      ClimbSound(Pairs(old_), Pairs(level), path);
    } else {
      WalkBothSound(old_, level, path[0], path[0], path[1..]);
    }
  }

  lemma {:induction false} ClimbStep<D>(old_: seq<Digest<D>>, level: seq<Digest<D>>)
    requires OldLevel(old_, level) && old_[|old_| - 1] == level[|old_| - 1] && (|old_| - 1) % 2 == 1
    ensures OldLevel(Pairs(old_), Pairs(level))
    ensures |Pairs(old_)| - 1 == (|old_| - 1) / 2 && |Pairs(level)| - 1 == (|level| - 1) / 2
    ensures Pairs(old_)[|Pairs(old_)| - 1] == Pairs(level)[|Pairs(old_)| - 1]
    ensures Root(Pairs(old_)) == Root(old_) && Root(Pairs(level)) == Root(level)
  {
    OldLevelUp(old_, level);
    RootOfPairs(old_);
    RootOfPairs(level);
    var f := |old_| - 1;
    PairAt(old_, f);
    PairAt(level, f);
    assert old_[f - 1] == old_[..f][f - 1] == level[f - 1];
  }

  lemma {:induction false} ClimbComplete<D>(old_: seq<Digest<D>>, level: seq<Digest<D>>)
    requires OldLevel(old_, level) && old_[|old_| - 1] == level[|old_| - 1]
    ensures var path := LevelConsistencyPath(level, |old_| - 1);
            var (fn, sn) := ClimbOdd(|old_| - 1, |level| - 1);
            WalkBoth(fn, sn, path[0], path[0], path[1..]) == Some((Root(old_), Root(level)))
    decreases |level|
  {
    hide Pairs, WalkBoth, LevelPath, Root;
    if (|old_| - 1) % 2 == 1 {
      ClimbStep(old_, level);
      ClimbComplete(Pairs(old_), Pairs(level));
    } else {
      WalkBothAlongPath(old_, level);
    }
  }

  lemma {:induction false} LeavesOldLevel<D>(m: nat, data: seq<D>)
    requires 0 < m <= |data|
    ensures OldLevel(Leaves(data[..m]), Leaves(data))
    ensures Leaves(data[..m])[m - 1] == Leaves(data)[m - 1]
  {
  }

  /** Any path that rebuilds the true new root rebuilds the true root of the first m leaves. */
  lemma {:induction false} ConsistencyRootsSound<D>(m: nat, data: seq<D>, proof: seq<Digest<D>>, oldRoot: Digest<D>)
    requires 0 < m < |data|
    requires var r := ConsistencyRoots(m, |data|, proof, oldRoot); r.Some? && r.value.1 == Mth(data)
    ensures ConsistencyRoots(m, |data|, proof, oldRoot).value.0 == Mth(data[..m])
    ensures FullPath(m, proof, oldRoot) == LevelConsistencyPath(Leaves(data), m - 1)
  {
    hide Pairs, WalkBoth, Mth, Root, ClimbOdd;
    var path := FullPath(m, proof, oldRoot);
    LeavesOldLevel(m, data);
    RootIsMth(data);
    RootIsMth(data[..m]);
    ClimbSound(Leaves(data[..m]), Leaves(data), path);
  }

  /** The climb from a power-of-two tree ends at the tree's own root. */
  lemma {:induction false} Pow2ConsistencyPathHead<D>(old_: seq<Digest<D>>, level: seq<Digest<D>>)
    requires OldLevel(old_, level) && old_[|old_| - 1] == level[|old_| - 1] && IsPow2(|old_|)
    ensures LevelConsistencyPath(level, |old_| - 1)[0] == Root(old_)
    decreases |level|
  {
    hide Pairs, LevelPath;
    if |old_| > 1 {
      ClimbStep(old_, level);
      Pow2ConsistencyPathHead(Pairs(old_), Pairs(level));
    }
  }

  lemma {:induction false} ProverPath<D>(m: nat, data: seq<D>)
    requires 0 < m < |data|
    ensures FullPath(m, ConsistencyProof(m, data), Mth(data[..m])) == LevelConsistencyPath(Leaves(data), m - 1)
  {
    hide Pairs, Root, LevelConsistencyPath, Subproof, Mth;
    SubproofIsLevelPath(m, data, true);
    if IsPow2(m) {
      LeavesOldLevel(m, data);
      RootIsMth(data[..m]);
      Pow2ConsistencyPathHead(Leaves(data[..m]), Leaves(data));
    }
  }

  /** The recursive prover's path rebuilds both true roots. */
  lemma {:induction false} ConsistencyRootsComplete<D>(m: nat, data: seq<D>)
    requires 0 < m < |data|
    ensures ConsistencyRoots(m, |data|, ConsistencyProof(m, data), Mth(data[..m])) == Some((Mth(data[..m]), Mth(data)))
  {
    hide Pairs, WalkBoth, Mth, Root, ClimbOdd, LevelConsistencyPath;
    ProverPath(m, data);
    LeavesOldLevel(m, data);
    RootIsMth(data);
    RootIsMth(data[..m]);
    ClimbComplete(Leaves(data[..m]), Leaves(data));
  }

  // ---------------------------------------------------------------- what acceptance means

  /** verify_inclusion: the lax walk from the leaf hash ends at the given root. */
  predicate InclusionAccepted<D(==)>(m: int, n: int, leaf: D, proof: seq<Digest<D>>, root: Digest<D>) {
    m < n && Walk(m, n - 1, LeafHash(leaf), proof, false) == Some(root)
  }

  /** The strict walk of the receipt and SCITT verifiers, from a leaf hash. */
  function StrictRoot<D>(m: int, n: int, leaf: Digest<D>, proof: seq<Digest<D>>): Option<Digest<D>> {
    if 0 <= m < n then Walk(m, n - 1, leaf, proof, true) else None
  }

  /** verify_consistency, which refuses an old size of 0 but not a negative one. */
  predicate ConsistencyAccepted<D(==)>(m: int, n: int, proof: seq<Digest<D>>, oldRoot: Digest<D>, newRoot: Digest<D>) {
    if m == 0 || m > n then false
    else if m == n then proof == [] && oldRoot == newRoot
    else ConsistencyRoots(m, n, proof, oldRoot) == Some((oldRoot, newRoot))
  }

  /**
   Inclusion, both directions: against the true root of |data| leaves the verifier accepts exactly
   the leaf at index m with exactly the prover's audit path; overlong paths never pass.
   */
  lemma {:induction false} InclusionExact<D>(m: nat, data: seq<D>, leaf: D, proof: seq<Digest<D>>)
    requires m < |data|
    ensures InclusionAccepted(m, |data|, leaf, proof, Mth(data))
            <==> leaf == data[m] && proof == InclusionProof(m, data)
  {
    hide Pairs, LevelPath, Mth, InclusionProof, Root;
    TruePathIsWalked(m, data, false);
    if InclusionAccepted(m, |data|, leaf, proof, Mth(data)) {
      RootIsMth(data);
      LaxWalkSound(Leaves(data), m, LeafHash(leaf), proof, 0);
    }
  }

  lemma {:induction false} TruePathIsWalked<D>(m: nat, data: seq<D>, strict: bool)
    requires m < |data|
    ensures InclusionProof(m, data) == LevelPath(Leaves(data), m)
    ensures Walk(m, |data| - 1, LeafHash(data[m]), InclusionProof(m, data), strict) == Some(Mth(data))
  {
    RootIsMth(data);
    InclusionProofIsLevelPath(m, data);
    WalkAlongLevelPath(Leaves(data), m, strict);
  }

  /** The same for the strict walkers, which take a leaf hash. */
  lemma {:induction false} StrictInclusionExact<D>(m: nat, data: seq<D>, leaf: Digest<D>, proof: seq<Digest<D>>)
    requires m < |data|
    ensures StrictRoot(m, |data|, leaf, proof) == Some(Mth(data))
            <==> leaf == LeafHash(data[m]) && proof == InclusionProof(m, data)
  {
    hide Pairs, LevelPath, Mth, InclusionProof, Root;
    TruePathIsWalked(m, data, true);
    if StrictRoot(m, |data|, leaf, proof) == Some(Mth(data)) {
      RootIsMth(data);
      StrictWalkSound(Leaves(data), m, leaf, proof);
    }
  }

  /** Whatever the strict walkers accept, verify_inclusion accepts, on every input. */
  lemma {:induction false} StrictImpliesLax<D>(fn: nat, sn: nat, h: Digest<D>, proof: seq<Digest<D>>)
    requires Walk(fn, sn, h, proof, true).Some?
    ensures Walk(fn, sn, h, proof, false) == Walk(fn, sn, h, proof, true)
    decreases |proof|, fn
  {
    if proof != [] {
      if fn % 2 == 1 {
        StrictImpliesLax(fn / 2, sn / 2, NodeHash(proof[0], h), proof[1..]);
      } else if fn != sn {
        StrictImpliesLax(fn / 2, sn / 2, NodeHash(h, proof[0]), proof[1..]);
      } else {
        StrictImpliesLax(fn / 2, sn / 2, h, proof);
      }
    }
  }

  /** How many path elements lead from position fn to the root of a tree whose last position is sn. */
  function PathLength(fn: nat, sn: nat): nat
    decreases sn
  {
    if sn == 0 then 0
    else (if fn % 2 == 1 || fn != sn then 1 else 0) + PathLength(fn / 2, sn / 2)
  }

  /** The strict walk takes exactly that many elements, the lax walk at least that many. */
  lemma {:induction false} WalkTakes<D>(fn: nat, sn: nat, h: Digest<D>, proof: seq<Digest<D>>)
    requires fn <= sn
    ensures Walk(fn, sn, h, proof, true).Some? <==> |proof| == PathLength(fn, sn)
    ensures Walk(fn, sn, h, proof, false).Some? <==> |proof| >= PathLength(fn, sn)
    decreases sn
  {
    if sn == 0 {
      LaxWalkAtRoot(h, proof);
    } else if fn % 2 == 0 && fn == sn {
      WalkTakes(fn / 2, sn / 2, h, proof);
      WalkPromoted(fn, h, proof, true);
      WalkPromoted(fn, h, proof, false);
      if proof == [] {
        PathNotEmpty(fn / 2, sn / 2);
      }
    } else if proof != [] {
      WalkTakes(fn / 2, sn / 2, if fn % 2 == 1 then NodeHash(proof[0], h) else NodeHash(h, proof[0]), proof[1..]);
    }
  }

  lemma {:induction false} PathNotEmpty(fn: nat, sn: nat)
    requires 0 < sn && fn <= sn
    ensures PathLength(fn, sn) > 0
    decreases sn
  {
    if fn % 2 == 0 && fn == sn {
      PathNotEmpty(fn / 2, sn / 2);
    }
  }

  /**
   When the two kinds of verifier differ, on every input: a proof that verify_inclusion accepts is
   accepted by the strict walkers exactly when the index is not negative and the proof has the
   length that index and size call for.
   */
  lemma LaxIsStrictExactly<D>(m: int, n: int, leaf: D, proof: seq<Digest<D>>, root: Digest<D>)
    requires InclusionAccepted(m, n, leaf, proof, root)
    ensures StrictRoot(m, n, LeafHash(leaf), proof) == Some(root) <==> m >= 0 && |proof| == PathLength(m, n - 1)
  {
    if m >= 0 {
      WalkTakes(m, n - 1, LeafHash(leaf), proof);
      if StrictRoot(m, n, LeafHash(leaf), proof).Some? {
        StrictImpliesLax(m, n - 1, LeafHash(leaf), proof);
      }
    }
  }

  /** An overlong proof: with one leaf, the lax walker accepts a path element that the strict ones refuse. */
  lemma LaxIsNotStrict<D>(leaf: D, p: Digest<D>)
    ensures InclusionAccepted(0, 1, leaf, [p], NodeHash(p, LeafHash(leaf)))
    ensures StrictRoot(0, 1, LeafHash(leaf), [p]) == None && PathLength(0, 0) == 0
  {
    LaxWalkAtRoot(LeafHash(leaf), [p]);
    assert [p][1..] == [];
  }

  /** A negative index: verify_inclusion accepts the last of two leaves at index -1. */
  lemma NegativeIndexIsWalked<D>(a: D, b: D)
    ensures InclusionAccepted(-1, 2, b, [LeafHash(a)], Mth([a, b]))
  {
    var path, root := [LeafHash(a)], NodeHash(LeafHash(a), LeafHash(b));
    assert [a, b][..1] == [a] && [a, b][1..] == [b];
    assert Mth([a]) == LeafHash(a) && Mth([b]) == LeafHash(b);
    assert Mth([a, b]) == root;
    assert path[1..] == [];
    assert Walk(-1, 0, root, [], false) == Some(root);
    assert Walk(-1, 1, LeafHash(b), path, false) == Walk(-1, 0, root, path[1..], false);
  }

  /** Whatever index and size are claimed, a leaf accepted under a true root is one of its leaves. */
  lemma AcceptedLeafIsInTree<D>(m: int, n: int, leaf: D, proof: seq<Digest<D>>, data: seq<D>)
    requires InclusionAccepted(m, n, leaf, proof, Mth(data))
    ensures leaf in data
  {
    WalkContains(m, n - 1, LeafHash(leaf), proof, false);
    LeafInTreeIsALeaf(leaf, data);
  }

  /**
   Consistency, both directions: against the true root of |data| leaves the verifier accepts
   exactly the root of the first m leaves with exactly the prover's path.
   */
  lemma {:induction false} ConsistencyExact<D>(m: nat, data: seq<D>, proof: seq<Digest<D>>, oldRoot: Digest<D>)
    requires 0 < m <= |data|
    ensures ConsistencyAccepted(m, |data|, proof, oldRoot, Mth(data))
            <==> oldRoot == Mth(data[..m]) && proof == ConsistencyProof(m, data)
  {
    if m == |data| {
      assert data[..m] == data;
    } else {
      ConsistencyRootsComplete(m, data);
      if ConsistencyAccepted(m, |data|, proof, oldRoot, Mth(data)) {
        ConsistencyRootsSound(m, data, proof, oldRoot);
        ProverPath(m, data);
      }
    }
  }

  /** Two accepted trees are prefix-related. */
  lemma {:induction false} ConsistentTreesArePrefixes<D>(older: seq<D>, newer: seq<D>, proof: seq<Digest<D>>)
    requires ConsistencyAccepted(|older|, |newer|, proof, Mth(older), Mth(newer))
    ensures older <= newer
  {
    ConsistencyExact(|older|, newer, proof, Mth(older));
    MthInjective(older, newer[..|older|]);
  }

  // ---------------------------------------------------------------- whatever sizes are claimed

  /** `x` is `y` with right subtrees dropped along one path. */
  predicate Trims<D(==)>(x: Digest<D>, y: Digest<D>) {
    x == y || (y.NodeHash? && (Trims(x, y.left) || (x.NodeHash? && x.left == y.left && Trims(x.right, y.right))))
  }

  /** Both running roots grow together: the old one is always the new one trimmed. */
  lemma {:induction false} WalkBothTrims<D>(fn: int, sn: int, fr: Digest<D>, sr: Digest<D>, path: seq<Digest<D>>)
    requires Trims(fr, sr)
    ensures var r := WalkBoth(fn, sn, fr, sr, path); r.Some? ==> Trims(r.value.0, r.value.1)
    decreases |path|, Abs(fn)
  {
    if path != [] && sn != 0 {
      if fn % 2 == 1 {
        WalkBothTrims(fn / 2, sn / 2, NodeHash(path[0], fr), NodeHash(path[0], sr), path[1..]);
      } else if fn != sn {
        WalkBothTrims(fn / 2, sn / 2, fr, NodeHash(sr, path[0]), path[1..]);
      } else {
        WalkBothTrims(fn / 2, sn / 2, fr, sr, path);
      }
    }
  }

  /** A tree trimmed is the tree of a prefix of its leaves. */
  lemma {:induction false} TrimmedIsPrefix<D>(x: Digest<D>, data: seq<D>) returns (k: nat)
    requires data != [] && Trims(x, Mth(data))
    ensures 0 < k <= |data| && x == Mth(data[..k])
    decreases |data|
  {
    if x == Mth(data) {
      k := |data|;
      assert data[..k] == data;
    } else {
      var half := LargestPow2Below(|data|);
      var left, right := data[..half], data[half..];
      if Trims(x, Mth(left)) {
        k := TrimmedIsPrefix(x, left);
        assert left[..k] == data[..k];
      } else {
        var j := TrimmedIsPrefix(x.right, right);
        k := half + j;
        var front := data[..k];
        Pow2BelowIsUnique(k, half, LargestPow2Below(k));
        assert front[..half] == left && front[half..] == right[..j];
      }
    }
  }

  /**
   Whatever sizes are claimed, negative ones included, an old root accepted against the true root of
   a leaf list is the root of a non-empty prefix of that list (of the empty list, its own root).
   */
  lemma {:induction false} AcceptedOldRootIsAPrefix<D>(m: int, n: int, proof: seq<Digest<D>>, oldRoot: Digest<D>,
      data: seq<D>)
    returns (k: nat)
    requires ConsistencyAccepted(m, n, proof, oldRoot, Mth(data))
    ensures k <= |data| && oldRoot == Mth(data[..k]) && (data != [] ==> k > 0)
  {
    k := 0;
    if m != n {
      var path := FullPath(m, proof, oldRoot);
      var (fn, sn) := ClimbOdd(m - 1, n - 1);
      WalkBothTrims(fn, sn, path[0], path[0], path[1..]);
    }
    assert Trims(oldRoot, Mth(data));
    if data == [] {
      assert data[..0] == data;
    } else {
      k := TrimmedIsPrefix(oldRoot, data);
    }
  }

  /** The claimed old size can be wrong: with size -1 the old root of one leaf is accepted under that of two. */
  lemma NegativeSizeIsWalked<D>(a: D, b: D)
    ensures ConsistencyAccepted(-1, 2, [LeafHash(a), LeafHash(b)], Mth([a]), Mth([a, b]))
  {
    var path := [LeafHash(a), LeafHash(b)];
    assert [a, b][..1] == [a] && [a, b][1..] == [b];
    assert Mth([a]) == LeafHash(a) && Mth([b]) == LeafHash(b);
    var root := NodeHash(LeafHash(a), LeafHash(b));
    assert Mth([a, b]) == root;
    assert path[1..] == [LeafHash(b)] && path[1..][1..] == [];
    assert WalkBoth(-1, 0, LeafHash(a), root, []) == Some((LeafHash(a), root));
    assert WalkBoth(-2, 1, path[0], path[0], path[1..]) == WalkBoth(-1, 0, LeafHash(a), root, path[1..][1..]);
  }
}
