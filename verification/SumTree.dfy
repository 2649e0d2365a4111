/**
 The Merkle sum tree of committed_attestation.py: every node carries the sums of the contributions
 below it and its hash covers them; an odd node is promoted unchanged.  Hashes are symbolic terms,
 as in module MerkleTree; the JSON encoding under each hash keeps the fields apart.
 */
module SumTree {
  import opened MerkleTree

  datatype Salt = LeafSalt(master: string, index: nat) | OtherSalt(chars: string)

  /** The hash binding a salt to a record. */
  datatype RecordCommit<R> = RecordCommit(salt: Salt, record: R)

  datatype SumHash<R> =
    | LeafTerm(commit: RecordCommit<R>, num: int, den: int)
    | NodeTerm(left: SumHash<R>, right: SumHash<R>, num: int, den: int)
    | OtherTerm(id: nat)

  datatype SumNode<R> = SumNode(hash: SumHash<R>, num: int, den: int)

  /** The definition of a metric: the contributions of one record. */
  datatype Metric<!R> = Metric(id: string, numOf: R -> int, denOf: R -> int)

  /** The published root: the tree root bound to the metadata and the totals. */
  datatype Published<R> = Published(metricId: string, asOf: string, n: nat, treeRoot: SumHash<R>, num: int, den: int)

  datatype Commitment<R> = Commitment(root: Published<R>, num: int, den: int, n: nat, metricId: string, asOf: string)

  // ---------------------------------------------------------------- building

  function LeafNode<R>(record: R, salt: Salt, num: int, den: int): SumNode<R> {
    SumNode(LeafTerm(RecordCommit(salt, record), num, den), num, den)
  }

  function Combine<R>(l: SumNode<R>, r: SumNode<R>): SumNode<R> {
    SumNode(NodeTerm(l.hash, r.hash, l.num + r.num, l.den + r.den), l.num + r.num, l.den + r.den)
  }

  function LeafLevel<R>(records: seq<R>, master: string, m: Metric<R>): (r: seq<SumNode<R>>)
    ensures |r| == |records|
  {
    seq(|records|, i requires 0 <= i < |records| =>
      LeafNode(records[i], LeafSalt(master, i), m.numOf(records[i]), m.denOf(records[i])))
  }

  function NextLevel<R>(level: seq<SumNode<R>>): (r: seq<SumNode<R>>)
    ensures |r| == (|level| + 1) / 2
  {
    seq((|level| + 1) / 2, i requires 0 <= i < (|level| + 1) / 2 =>
      if 2 * i + 1 < |level| then Combine(level[2 * i], level[2 * i + 1]) else level[2 * i])
  }

  function Top<R>(level: seq<SumNode<R>>): SumNode<R>
    requires |level| > 0
    decreases |level|
  {
    if |level| == 1 then level[0] else Top(NextLevel(level))
  }

  predicate NonNegative<R>(level: seq<SumNode<R>>) {
    forall i :: 0 <= i < |level| ==> level[i].num >= 0 && level[i].den >= 0
  }

  /** commit_ledger: None stands for the two errors, an empty ledger and a negative contribution. */
  function CommitLedger<R>(records: seq<R>, master: string, m: Metric<R>, asOf: string): Option<Commitment<R>> {
    var leaves := LeafLevel(records, master, m);
    if |records| == 0 || !NonNegative(leaves) then None
    else
      var top := Top(leaves);
      Some(Commitment(Published(m.id, asOf, |records|, top.hash, top.num, top.den), top.num, top.den, |records|,
          m.id, asOf))
  }

  /** It commits exactly when there is a record and no contribution is negative. */
  lemma CommitsExactly<R>(records: seq<R>, master: string, m: Metric<R>, asOf: string)
    ensures CommitLedger(records, master, m, asOf).Some? <==>
            records != [] && forall i :: 0 <= i < |records| ==> m.numOf(records[i]) >= 0 && m.denOf(records[i]) >= 0
  {
    var leaves := LeafLevel(records, master, m);
    if NonNegative(leaves) {
      forall i | 0 <= i < |records| ensures m.numOf(records[i]) >= 0 && m.denOf(records[i]) >= 0 {
        assert leaves[i].num >= 0;
      }
    }
  }

  /** The inner loop of _levels: pair neighbours, promote an odd last node. */
  method PairUp<R>(cur: seq<SumNode<R>>) returns (next: seq<SumNode<R>>)
    ensures next == NextLevel(cur)
  {
    next := [];
    var j := 0;
    while j < |cur|
      invariant j == 2 * |next| && |next| <= (|cur| + 1) / 2
      invariant next == NextLevel(cur)[..|next|]
    {
      next := next + [if j + 1 < |cur| then Combine(cur[j], cur[j + 1]) else cur[j]];
      j := j + 2;
    }
  }

  /** Level i + 1 of a list of levels is the next level of level i. */
  ghost predicate Chained<R>(levels: seq<seq<SumNode<R>>>) {
    forall i :: 0 <= i < |levels| - 1 ==> |levels[i]| > 1 && levels[i + 1] == NextLevel(levels[i])
  }

  /** The loop of _levels, which keeps all levels. */
  method BuildLevels<R>(leaves: seq<SumNode<R>>) returns (levels: seq<seq<SumNode<R>>>)
    requires |leaves| > 0
    ensures |levels| > 0 && levels[0] == leaves && Chained(levels) && levels[|levels| - 1] == [Top(leaves)]
  {
    hide NextLevel;
    levels := [leaves];
    var cur := leaves;
    while |cur| > 1
      invariant |levels| > 0 && levels[0] == leaves && levels[|levels| - 1] == cur && Chained(levels)
      invariant |cur| > 0 && Top(cur) == Top(leaves)
      decreases |cur|
    {
      var next := PairUp(cur);
      levels := levels + [next];
      cur := next;
    }
    assert cur == [Top(cur)];
  }

  // ---------------------------------------------------------------- conservation

  function SumNum<R>(level: seq<SumNode<R>>): int {
    if level == [] then 0 else level[0].num + SumNum(level[1..])
  }

  function SumDen<R>(level: seq<SumNode<R>>): int {
    if level == [] then 0 else level[0].den + SumDen(level[1..])
  }

  lemma {:induction false} NextLevelKeepsSums<R>(level: seq<SumNode<R>>)
    ensures SumNum(NextLevel(level)) == SumNum(level) && SumDen(NextLevel(level)) == SumDen(level)
    decreases |level|
  {
    if |level| >= 2 {
      NextLevelKeepsSums(level[2..]);
      assert NextLevel(level)[1..] == NextLevel(level[2..]);
      assert level[1..][1..] == level[2..];
    } else {
      assert NextLevel(level) == level;
    }
  }

  /** The totals at the root are the sums of all contributions. */
  lemma {:induction false} TopHoldsTheSums<R>(level: seq<SumNode<R>>)
    requires |level| > 0
    ensures Top(level).num == SumNum(level) && Top(level).den == SumDen(level)
    decreases |level|
  {
    if |level| == 1 {
      assert level[1..] == [];
    } else {
      NextLevelKeepsSums(level);
      TopHoldsTheSums(NextLevel(level));
    }
  }

  function Total<R>(records: seq<R>, of: R -> int): int {
    if records == [] then 0 else of(records[0]) + Total(records[1..], of)
  }

  lemma {:induction false} LeafSums<R>(level: seq<SumNode<R>>, records: seq<R>, m: Metric<R>)
    requires |level| == |records|
    requires forall i :: 0 <= i < |records| ==>
               level[i].num == m.numOf(records[i]) && level[i].den == m.denOf(records[i])
    ensures SumNum(level) == Total(records, m.numOf) && SumDen(level) == Total(records, m.denOf)
    decreases |level|
  {
    if level != [] {
      LeafSums(level[1..], records[1..], m);
    }
  }

  /** Published totals are the sums of the records' contributions. */
  lemma {:induction false} CommittedTotals<R>(records: seq<R>, master: string, m: Metric<R>, asOf: string)
    requires CommitLedger(records, master, m, asOf).Some?
    ensures var c := CommitLedger(records, master, m, asOf).value;
            c.num == Total(records, m.numOf) && c.den == Total(records, m.denOf) && c.n == |records|
  {
    var leaves := LeafLevel(records, master, m);
    TopHoldsTheSums(leaves);
    LeafSums(leaves, records, m);
  }

  // ---------------------------------------------------------------- opening

  datatype Step<R> = Step(hash: SumHash<R>, num: int, den: int, right: bool)
  datatype Opening<R> = Opening(index: int, record: R, salt: Salt, num: int, den: int, path: seq<Step<R>>)

  /** _inclusion_path from one level upwards. */
  function PathFrom<R>(level: seq<SumNode<R>>, idx: nat): seq<Step<R>>
    requires idx < |level|
    decreases |level|
  {
    if |level| == 1 then []
    else
      (if idx % 2 == 1 then [StepOf(level[idx - 1], false)]
       else if idx + 1 < |level| then [StepOf(level[idx + 1], true)]
       else [])
      + PathFrom(NextLevel(level), idx / 2)
  }

  function StepOf<R>(n: SumNode<R>, right: bool): Step<R> {
    Step(n.hash, n.num, n.den, right)
  }

  /** The loop of _inclusion_path over the levels. */
  method InclusionPath<R>(leaves: seq<SumNode<R>>, index: nat) returns (path: seq<Step<R>>)
    requires index < |leaves|
    ensures path == PathFrom(leaves, index)
  {
    hide NextLevel, Top, PathFrom;
    var levels := BuildLevels(leaves);
    PathAtTop(Top(leaves));
    path := [];
    var idx: nat := index;
    for l := 0 to |levels| - 1
      invariant idx < |levels[l]|
      invariant PathFrom(leaves, index) == path + PathFrom(levels[l], idx)
    {
      var lvl := levels[l];
      PathStep(lvl, idx, path);
      if idx % 2 == 0 {
        var sib := idx + 1;
        if sib < |lvl| {
          path := path + [StepOf(lvl[sib], true)];
        }
      } else {
        path := path + [StepOf(lvl[idx - 1], false)];
      }
      idx := idx / 2;
    }
  }

  lemma PathAtTop<R>(n: SumNode<R>)
    ensures PathFrom([n], 0) == []
  {
  }

  /** One level up: the sibling, if there is one, goes to the path so far. */
  lemma PathStep<R>(level: seq<SumNode<R>>, idx: nat, path: seq<Step<R>>)
    requires idx < |level| && |level| > 1
    ensures var up := PathFrom(NextLevel(level), idx / 2);
            path + PathFrom(level, idx) ==
            (if idx % 2 == 1 then path + [StepOf(level[idx - 1], false)]
             else if idx + 1 < |level| then path + [StepOf(level[idx + 1], true)]
             else path) + up
  {
    hide NextLevel;
  }

  function ClimbStep<R>(at: SumNode<R>, s: Step<R>): SumNode<R> {
    if s.right
    then SumNode(NodeTerm(at.hash, s.hash, at.num + s.num, at.den + s.den), at.num + s.num, at.den + s.den)
    else SumNode(NodeTerm(s.hash, at.hash, s.num + at.num, s.den + at.den), s.num + at.num, s.den + at.den)
  }

  function Climb<R>(at: SumNode<R>, path: seq<Step<R>>): SumNode<R>
    decreases |path|
  {
    if path == [] then at else Climb(ClimbStep(at, path[0]), path[1..])
  }

  predicate PathNonNegative<R>(path: seq<Step<R>>) {
    forall i :: 0 <= i < |path| ==> path[i].num >= 0 && path[i].den >= 0
  }

  /** The four checks of verify_open on one opening; the claimed index plays no part in them. */
  predicate OpeningOk<R(==)>(c: Commitment<R>, m: Metric<R>, o: Opening<R>) {
    var top := Climb(LeafNode(o.record, o.salt, o.num, o.den), o.path);
    && m.numOf(o.record) == o.num && m.denOf(o.record) == o.den
    && o.num >= 0 && o.den >= 0 && PathNonNegative(o.path)
    && Published(c.metricId, c.asOf, c.n, top.hash, c.num, c.den) == c.root
    && top.num == c.num && top.den == c.den
  }

  /** verify_open: an empty set of openings gives no assurance. */
  method VerifyOpen<R(==)>(c: Commitment<R>, m: Metric<R>, openings: seq<Opening<R>>)
      returns (allOk: bool, results: seq<bool>)
    ensures openings == [] ==> !allOk && results == []
    ensures |results| == |openings| && forall i :: 0 <= i < |openings| ==> results[i] == OpeningOk(c, m, openings[i])
    ensures openings != [] ==> (allOk <==> forall i :: 0 <= i < |openings| ==> OpeningOk(c, m, openings[i]))
  {
    results := [];
    if openings == [] {
      return false, [];
    }
    allOk := true;
    for i := 0 to |openings|
      invariant |results| == i && forall k :: 0 <= k < i ==> results[k] == OpeningOk(c, m, openings[k])
      invariant allOk <==> forall k :: 0 <= k < i ==> OpeningOk(c, m, openings[k])
    {
      var o := openings[i];
      var at := LeafNode(o.record, o.salt, o.num, o.den);
      for j := 0 to |o.path|
        invariant Climb(at, o.path[j..]) == Climb(LeafNode(o.record, o.salt, o.num, o.den), o.path)
      {
        assert o.path[j..][1..] == o.path[j + 1..];
        at := ClimbStep(at, o.path[j]);
      }
      var classified := m.numOf(o.record) == o.num && m.denOf(o.record) == o.den;
      var nonNegative := o.num >= 0 && o.den >= 0 && PathNonNegative(o.path);
      var included := Published(c.metricId, c.asOf, c.n, at.hash, c.num, c.den) == c.root;
      var sums := at.num == c.num && at.den == c.den;
      var leafOk := classified && included && sums && nonNegative;
      assert leafOk == OpeningOk(c, m, o);
      allOk := allOk && leafOk;
      results := results + [leafOk];
    }
  }

  // ---------------------------------------------------------------- completeness

  lemma NextLevelAt<R>(level: seq<SumNode<R>>, i: nat)
    requires i < |level|
    ensures i / 2 < |NextLevel(level)|
    ensures NextLevel(level)[i / 2] ==
            if i % 2 == 1 then Combine(level[i - 1], level[i])
            else if i + 1 < |level| then Combine(level[i], level[i + 1])
            else level[i]
  {
    assert i % 2 == 1 ==> i == 2 * (i / 2) + 1;
  }

  lemma {:induction false} ClimbAlongPath<R>(level: seq<SumNode<R>>, idx: nat)
    requires idx < |level| && NonNegative(level)
    ensures Climb(level[idx], PathFrom(level, idx)) == Top(level) && PathNonNegative(PathFrom(level, idx))
    decreases |level|
  {
    hide NextLevel;
    if |level| > 1 {
      NextLevelAt(level, idx);
      NextLevelNonNegative(level);
      ClimbAlongPath(NextLevel(level), idx / 2);
      var rest := PathFrom(NextLevel(level), idx / 2);
      if idx % 2 == 1 {
        assert ([StepOf(level[idx - 1], false)] + rest)[1..] == rest;
      } else if idx + 1 < |level| {
        assert ([StepOf(level[idx + 1], true)] + rest)[1..] == rest;
      } else {
        assert [] + rest == rest;
      }
    }
  }

  lemma NextLevelNonNegative<R>(level: seq<SumNode<R>>)
    requires NonNegative(level)
    ensures NonNegative(NextLevel(level))
  {
  }

  /** Every index of every committed ledger opens and verifies. */
  lemma {:induction false} HonestOpeningVerifies<R>(records: seq<R>, master: string, m: Metric<R>, asOf: string, i: nat)
    requires CommitLedger(records, master, m, asOf).Some? && i < |records|
    ensures var r := records[i];
            OpeningOk(CommitLedger(records, master, m, asOf).value, m,
                      Opening(i, r, LeafSalt(master, i), m.numOf(r), m.denOf(r),
                          PathFrom(LeafLevel(records, master, m), i)))
  {
    hide Top, Climb, PathFrom;
    var leaves := LeafLevel(records, master, m);
    ClimbAlongPath(leaves, i);
    assert leaves[i].num >= 0;
  }

  // ---------------------------------------------------------------- binding

  predicate Inside<R(==)>(x: SumHash<R>, h: SumHash<R>) {
    x == h || (h.NodeTerm? && (Inside(x, h.left) || Inside(x, h.right)))
  }

  lemma {:induction false} InsideTransitive<R>(x: SumHash<R>, y: SumHash<R>, z: SumHash<R>)
    requires Inside(x, y) && Inside(y, z)
    ensures Inside(x, z)
    decreases z
  {
    if y != z {
      if Inside(y, z.left) {
        InsideTransitive(x, y, z.left);
      } else {
        InsideTransitive(x, y, z.right);
      }
    }
  }

  lemma {:induction false} ClimbContains<R>(at: SumNode<R>, path: seq<Step<R>>)
    ensures Inside(at.hash, Climb(at, path).hash)
    decreases |path|
  {
    if path != [] {
      var next := ClimbStep(at, path[0]);
      ClimbContains(next, path[1..]);
      assert Inside(at.hash, next.hash);
      InsideTransitive(at.hash, next.hash, Climb(at, path).hash);
    }
  }

  /** A leaf term inside the root comes from a node of the level. */
  lemma {:induction false} LeafInsideTop<R>(x: SumHash<R>, level: seq<SumNode<R>>) returns (j: nat)
    requires |level| > 0 && x.LeafTerm? && Inside(x, Top(level).hash)
    ensures j < |level| && Inside(x, level[j].hash)
    decreases |level|
  {
    j := 0;
    if |level| > 1 {
      var k := LeafInsideTop(x, NextLevel(level));
      if 2 * k + 1 < |level| && !Inside(x, level[2 * k].hash) {
        j := 2 * k + 1;
      } else {
        j := 2 * k;
      }
    }
  }

  /**
   An opening accepted against an honest commitment opens a committed leaf: the record and the salt
   of one index, with exactly the contributions of that record.
   */
  lemma {:induction false} AcceptedOpeningIsCommitted<R>(records: seq<R>, master: string, m: Metric<R>, asOf: string,
      o: Opening<R>)
    returns (j: nat)
    requires CommitLedger(records, master, m, asOf).Some?
    requires OpeningOk(CommitLedger(records, master, m, asOf).value, m, o)
    ensures j < |records| && o.record == records[j] && o.salt == LeafSalt(master, j)
    ensures o.num == m.numOf(records[j]) && o.den == m.denOf(records[j])
  {
    var leaves := LeafLevel(records, master, m);
    var leaf := LeafNode(o.record, o.salt, o.num, o.den);
    ClimbContains(leaf, o.path);
    j := LeafInsideTop(leaf.hash, leaves);
  }

  lemma {:induction false} ClimbOnlyAdds<R>(at: SumNode<R>, path: seq<Step<R>>)
    requires PathNonNegative(path)
    ensures Climb(at, path).num >= at.num && Climb(at, path).den >= at.den
    decreases |path|
  {
    if path != [] {
      ClimbOnlyAdds(ClimbStep(at, path[0]), path[1..]);
    }
  }

  /**
   Whoever built the tree, an accepted opening contributes what the metric gives its record, between zero and
   the totals, and these totals are the published ones, with the metric's name, the date and the count.
   */
  lemma AcceptedOpeningIsBounded<R>(c: Commitment<R>, m: Metric<R>, o: Opening<R>)
    requires OpeningOk(c, m, o)
    ensures 0 <= m.numOf(o.record) == o.num <= c.num && 0 <= m.denOf(o.record) == o.den <= c.den
    ensures c.root.num == c.num && c.root.den == c.den && c.root.n == c.n && c.root.metricId == c.metricId
            && c.root.asOf == c.asOf
    ensures Inside(LeafTerm(RecordCommit(o.salt, o.record), o.num, o.den), c.root.treeRoot)
  {
    ClimbContains(LeafNode(o.record, o.salt, o.num, o.den), o.path);
    ClimbOnlyAdds(LeafNode(o.record, o.salt, o.num, o.den), o.path);
  }

  lemma {:induction false} TopDeterminesLevel<R>(a: seq<SumNode<R>>, b: seq<SumNode<R>>)
    requires |a| == |b| > 0 && Top(a).hash == Top(b).hash
    ensures forall i :: 0 <= i < |a| ==> a[i].hash == b[i].hash
    decreases |a|
  {
    if |a| > 1 {
      TopDeterminesLevel(NextLevel(a), NextLevel(b));
      forall i | 0 <= i < |a| ensures a[i].hash == b[i].hash {
        assert NextLevel(a)[i / 2].hash == NextLevel(b)[i / 2].hash;
        NextLevelAt(a, i);
        NextLevelAt(b, i);
      }
    }
  }

  /** One published root commits to one list of records, whatever salts and metrics were used. */
  lemma {:induction false} PublishedRootBinds<R>(r1: seq<R>, s1: string, m1: Metric<R>, d1: string,
                                                  r2: seq<R>, s2: string, m2: Metric<R>, d2: string)
    requires CommitLedger(r1, s1, m1, d1).Some? && CommitLedger(r2, s2, m2, d2).Some?
    requires CommitLedger(r1, s1, m1, d1).value.root == CommitLedger(r2, s2, m2, d2).value.root
    ensures r1 == r2 && s1 == s2 && m1.id == m2.id && d1 == d2
  {
    var a, b := LeafLevel(r1, s1, m1), LeafLevel(r2, s2, m2);
    TopDeterminesLevel(a, b);
    assert a[0].hash == b[0].hash;
    forall i | 0 <= i < |r1| ensures r1[i] == r2[i] {
      assert a[i].hash == b[i].hash;
    }
  }
}
