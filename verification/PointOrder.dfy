/**
 The order rules of ed25519_order.py over any representation of a group's elements: scalar
 multiplication, the key and R rules, and the key cache.
 */
module PointOrder {
  import opened MerkleTree
  import opened Octets

  /** The order of the base point (section 5.1 of RFC 8032). */
  const L: nat := 7237005577332262213973186563042994240857116359379907606001950938285454250989

  /** How elements are represented: addition, neutral element and its test, decoding of 32 octets. */
  datatype Points<!P> = Points(add: (P, P) -> P, neutral: P, isNeutral: P -> bool, decode: Bytes -> Option<P>)

  /** k times a, most significant bit first. */
  function ScalarMul<P>(pts: Points<P>, k: nat, a: P): P {
    if k == 0 then pts.neutral
    else
      var half := ScalarMul(pts, k / 2, a);
      var doubled := pts.add(half, half);
      if k % 2 == 1 then pts.add(doubled, a) else doubled
  }

  /** k >> i. */
  function Shift(k: nat, i: nat): nat {
    if i == 0 then k else Shift(k, i - 1) / 2
  }

  lemma {:induction false} ShiftHalf(k: nat, i: nat)
    ensures Shift(k, i + 1) == Shift(k / 2, i)
    decreases i
  {
    if i > 0 {
      ShiftHalf(k, i - 1);
    }
  }

  /** k.bit_length(). */
  function BitLength(k: nat): (n: nat)
    ensures Shift(k, n) == 0
    ensures n > 0 ==> Shift(k, n - 1) > 0
  {
    if k == 0 then 0
    else
      var n := BitLength(k / 2);
      ShiftHalf(k, n);
      assert n > 0 ==> Shift(k, n) > 0 by {
        if n > 0 {
          ShiftHalf(k, n - 1);
        }
      }
      n + 1
  }

  /** The loop of scalar_mul over the bits of k, highest first. */
  method ScalarMulByBits<P>(pts: Points<P>, k: nat, a: P) returns (r: P)
    ensures r == ScalarMul(pts, k, a)
  {
    r := pts.neutral;
    var i := BitLength(k);
    ghost var n := i;
    while i > 0
      invariant i <= n && r == ScalarMul(pts, Shift(k, i), a)
      invariant i < n ==> Shift(k, i) > 0
    {
      assert Shift(k, i) == Shift(k, i - 1) / 2;
      i := i - 1;
      r := pts.add(r, r);
      if Shift(k, i) % 2 == 1 {
        r := pts.add(r, a);
      }
    }
  }

  // ---------------------------------------------------------------- the rules

  datatype Problem = KeyNotDecodable | SmallOrderKey | MixedOrderKey | RNotDecodable | SmallOrderR

  /** key_problem; None when the key is usable. */
  function KeyProblem<P>(pts: Points<P>, pub: Bytes): Option<Problem> {
    var a := pts.decode(pub);
    if a.None? then Some(KeyNotDecodable)
    else if pts.isNeutral(ScalarMul(pts, 8, a.value)) then Some(SmallOrderKey)
    else if !pts.isNeutral(ScalarMul(pts, L, a.value)) then Some(MixedOrderKey)
    else None
  }

  /** r_problem on a 64-octet signature. */
  function RProblem<P>(pts: Points<P>, sig: Bytes): Option<Problem> {
    var r := if |sig| == 64 then pts.decode(sig[..32]) else None;
    if r.None? then Some(RNotDecodable)
    else if pts.isNeutral(ScalarMul(pts, 8, r.value)) then Some(SmallOrderR)
    else None
  }

  /** strict_problem without a cache. */
  function StrictProblem<P>(pts: Points<P>, pub: Bytes, sig: Bytes): Option<Problem> {
    var kp := KeyProblem(pts, pub);
    if kp.Some? then kp else RProblem(pts, sig)
  }

  /** The dictionary shared by calls of strict_problem. */
  class KeyCache<!P> {
    const pts: Points<P>
    var memo: map<Bytes, Option<Problem>>

    ghost predicate Valid()
      reads this
    {
      forall pub | pub in memo :: memo[pub] == KeyProblem(pts, pub)
    }

    constructor (pts: Points<P>)
      ensures Valid() && memo == map[] && this.pts == pts
    {
      this.pts := pts;
      memo := map[];
    }

    /** strict_problem with the cache: the answer is the uncached one, whatever calls came before. */
    method Strict(pub: Bytes, sig: Bytes) returns (problem: Option<Problem>)
      requires Valid()
      modifies this
      ensures Valid() && problem == StrictProblem(pts, pub, sig)
      ensures memo == old(memo)[pub := KeyProblem(pts, pub)]
    {
      var kp;
      if pub in memo {
        kp := memo[pub];
      } else {
        kp := KeyProblem(pts, pub);
        memo := memo[pub := kp];
      }
      problem := if kp.Some? then kp else RProblem(pts, sig);
    }
  }

  // ---------------------------------------------------------------- over a group

  datatype Group<!H> = Group(plus: (H, H) -> H, zero: H, minus: H -> H)

  ghost predicate Abelian<H(!new)>(g: Group<H>) {
    && (forall a, b, c :: g.plus(g.plus(a, b), c) == g.plus(a, g.plus(b, c)))
    && (forall a, b :: g.plus(a, b) == g.plus(b, a))
    && (forall a :: g.plus(g.zero, a) == a)
    && (forall a :: g.plus(a, g.minus(a)) == g.zero)
  }

  /** k-fold addition. */
  function Times<H>(g: Group<H>, k: nat, a: H): H {
    if k == 0 then g.zero else g.plus(Times(g, k - 1, a), a)
  }

  /** The representation computes in the group: on valid points, addition and the neutral test mean what they say. */
  ghost predicate Represents<P(!new), H(!new)>(pts: Points<P>, g: Group<H>, value: P -> H, valid: P -> bool) {
    && valid(pts.neutral) && value(pts.neutral) == g.zero
    && (forall a, b | valid(a) && valid(b) :: valid(pts.add(a, b))
         && value(pts.add(a, b)) == g.plus(value(a), value(b)))
    && (forall a | valid(a) :: pts.isNeutral(a) <==> value(a) == g.zero)
    && (forall s | pts.decode(s).Some? :: valid(pts.decode(s).value))
  }

  /** The group laws at given elements. */
  lemma Laws<H(!new)>(g: Group<H>, a: H, b: H, c: H)
    requires Abelian(g)
    ensures g.plus(g.plus(a, b), c) == g.plus(a, g.plus(b, c))
    ensures g.plus(a, b) == g.plus(b, a) && g.plus(g.zero, a) == a && g.plus(a, g.zero) == a
  {
    assert g.plus(a, g.zero) == g.plus(g.zero, a);
  }

  lemma AddMeans<P(!new), H(!new)>(pts: Points<P>, g: Group<H>, value: P -> H, valid: P -> bool, a: P, b: P)
    requires Represents(pts, g, value, valid) && valid(a) && valid(b)
    ensures valid(pts.add(a, b)) && value(pts.add(a, b)) == g.plus(value(a), value(b))
  {
  }

  lemma NeutralMeans<P(!new), H(!new)>(pts: Points<P>, g: Group<H>, value: P -> H, valid: P -> bool)
    requires Represents(pts, g, value, valid)
    ensures valid(pts.neutral) && value(pts.neutral) == g.zero
    ensures forall a | valid(a) :: pts.isNeutral(a) <==> value(a) == g.zero
    ensures forall s | pts.decode(s).Some? :: valid(pts.decode(s).value)
  {
  }

  lemma {:induction false} TimesSum<H(!new)>(g: Group<H>, j: nat, k: nat, a: H)
    requires Abelian(g)
    ensures Times(g, j + k, a) == g.plus(Times(g, j, a), Times(g, k, a))
    decreases k
  {
    hide Abelian;
    if k > 0 {
      TimesSum(g, j, k - 1, a);
      assert j + k - 1 == j + (k - 1);
      Laws(g, Times(g, j, a), Times(g, k - 1, a), a);
    } else {
      Laws(g, Times(g, j, a), g.zero, a);
    }
  }

  lemma TimesOne<H(!new)>(g: Group<H>, a: H)
    requires Abelian(g)
    ensures Times(g, 0, a) == g.zero && Times(g, 1, a) == a
  {
    hide Abelian;
    assert Times(g, 1, a) == g.plus(Times(g, 0, a), a);
    Laws(g, a, a, a);
  }

  /** MSB-first scalar multiplication is k-fold addition. */
  lemma {:induction false} ScalarMulIsTimes<P(!new), H(!new)>(
      pts: Points<P>, g: Group<H>, value: P -> H, valid: P -> bool, k: nat, a: P)
    requires Abelian(g) && Represents(pts, g, value, valid) && valid(a)
    ensures valid(ScalarMul(pts, k, a)) && value(ScalarMul(pts, k, a)) == Times(g, k, value(a))
    decreases k
  {
    hide Abelian, Represents, Times;
    NeutralMeans(pts, g, value, valid);
    TimesOne(g, value(a));
    if k > 0 {
      var half := ScalarMul(pts, k / 2, a);
      ScalarMulIsTimes(pts, g, value, valid, k / 2, a);
      AddMeans(pts, g, value, valid, half, half);
      TimesSum(g, k / 2, k / 2, value(a));
      if k % 2 == 1 {
        AddMeans(pts, g, value, valid, pts.add(half, half), a);
        TimesSum(g, k / 2 + k / 2, 1, value(a));
      }
    }
  }

  lemma {:induction false} TimesZero<H(!new)>(g: Group<H>, k: nat)
    requires Abelian(g)
    ensures Times(g, k, g.zero) == g.zero
  {
    hide Abelian;
    if k > 0 {
      TimesZero(g, k - 1);
      Laws(g, g.zero, g.zero, g.zero);
    }
  }

  lemma {:induction false} TimesTimes<H(!new)>(g: Group<H>, j: nat, k: nat, a: H)
    requires Abelian(g)
    ensures Times(g, j * k, a) == Times(g, j, Times(g, k, a))
    decreases j
  {
    hide Abelian;
    if j > 0 {
      TimesTimes(g, j - 1, k, a);
      TimesSum(g, (j - 1) * k, k, a);
      assert j * k == (j - 1) * k + k;
    } else {
      assert j * k == 0;
    }
  }

  lemma {:induction false} TimesPlus<H(!new)>(g: Group<H>, k: nat, a: H, b: H)
    requires Abelian(g)
    ensures Times(g, k, g.plus(a, b)) == g.plus(Times(g, k, a), Times(g, k, b))
  {
    hide Abelian;
    if k > 0 {
      TimesPlus(g, k - 1, a, b);
      FourSum(g, Times(g, k - 1, a), Times(g, k - 1, b), a, b);
    } else {
      Laws(g, g.zero, g.zero, g.zero);
    }
  }

  lemma FourSum<H(!new)>(g: Group<H>, a: H, b: H, c: H, d: H)
    requires Abelian(g)
    ensures g.plus(g.plus(a, b), g.plus(c, d)) == g.plus(g.plus(a, c), g.plus(b, d))
  {
    hide Abelian;
    Laws(g, a, b, g.plus(c, d));
    Laws(g, b, c, d);
    Laws(g, c, b, d);
    Laws(g, a, c, g.plus(b, d));
  }

  /** 8 and L are coprime: 5 L = 8 w + 1, so only the neutral element is killed by both. */
  lemma {:induction false} CoprimeOrders<H(!new)>(g: Group<H>, a: H)
    requires Abelian(g) && Times(g, 8, a) == g.zero && Times(g, L, a) == g.zero
    ensures a == g.zero
  {
    hide Abelian, Times;
    var w: nat := (5 * L - 1) / 8;
    assert 5 * L == w * 8 + 1;
    Coprime(g, a, L, w);
  }

  lemma {:induction false} Coprime<H(!new)>(g: Group<H>, a: H, l: nat, w: nat)
    requires Abelian(g) && Times(g, 8, a) == g.zero && Times(g, l, a) == g.zero && 5 * l == w * 8 + 1
    ensures a == g.zero
  {
    hide Abelian, Times;
    TimesTimes(g, 5, l, a);
    TimesTimes(g, w, 8, a);
    TimesZero(g, 5);
    TimesZero(g, w);
    TimesSum(g, w * 8, 1, a);
    TimesOne(g, a);
    Laws(g, a, a, a);
  }

  /**
   The key rule: a key is usable exactly when it decodes to a non-neutral element of the subgroup of
   order L, of small order exactly when 8 times it is zero, and mixed exactly when neither is.
   */
  lemma {:induction false} KeyRule<P(!new), H(!new)>(
      pts: Points<P>, g: Group<H>, value: P -> H, valid: P -> bool, pub: Bytes)
    requires Abelian(g) && Represents(pts, g, value, valid)
    ensures KeyProblem(pts, pub) == Some(KeyNotDecodable) <==> pts.decode(pub).None?
    ensures KeyProblem(pts, pub).None? <==>
            && pts.decode(pub).Some? && value(pts.decode(pub).value) != g.zero
            && Times(g, L, value(pts.decode(pub).value)) == g.zero
    ensures KeyProblem(pts, pub) == Some(SmallOrderKey) <==>
            pts.decode(pub).Some? && Times(g, 8, value(pts.decode(pub).value)) == g.zero
    ensures KeyProblem(pts, pub) == Some(MixedOrderKey) <==>
            && pts.decode(pub).Some? && Times(g, 8, value(pts.decode(pub).value)) != g.zero
            && Times(g, L, value(pts.decode(pub).value)) != g.zero
  {
    hide ScalarMul, Times, Abelian, Represents;
    NeutralMeans(pts, g, value, valid);
    if pts.decode(pub).Some? {
      var a := pts.decode(pub).value;
      ScalarMulIsTimes(pts, g, value, valid, 8, a);
      ScalarMulIsTimes(pts, g, value, valid, L, a);
      TimesZero(g, 8);
      if Times(g, 8, value(a)) == g.zero && Times(g, L, value(a)) == g.zero {
        CoprimeOrders(g, value(a));
      }
    }
  }

  /** The rule for R: 64 octets whose first half decodes to an element that 8 does not make zero. */
  lemma {:induction false} RRule<P(!new), H(!new)>(
      pts: Points<P>, g: Group<H>, value: P -> H, valid: P -> bool, sig: Bytes)
    requires Abelian(g) && Represents(pts, g, value, valid)
    ensures RProblem(pts, sig) == Some(RNotDecodable) <==> |sig| != 64 || pts.decode(sig[..32]).None?
    ensures RProblem(pts, sig) == Some(SmallOrderR) <==>
            && |sig| == 64 && pts.decode(sig[..32]).Some?
            && Times(g, 8, value(pts.decode(sig[..32]).value)) == g.zero
    ensures RProblem(pts, sig).None? <==>
            && |sig| == 64 && pts.decode(sig[..32]).Some?
            && Times(g, 8, value(pts.decode(sig[..32]).value)) != g.zero
  {
    hide ScalarMul, Times, Abelian, Represents;
    NeutralMeans(pts, g, value, valid);
    if |sig| == 64 && pts.decode(sig[..32]).Some? {
      ScalarMulIsTimes(pts, g, value, valid, 8, pts.decode(sig[..32]).value);
    }
  }

  /**
   The signature rule: when both checks pass and the cofactorless equation S B = R + k A holds for a
   base point of order L, R too lies in the subgroup of order L and is not neutral; an R of mixed
   order needs no check of its own.
   */
  lemma {:induction false} SignatureRule<P(!new), H(!new)>(
      pts: Points<P>, g: Group<H>, value: P -> H, valid: P -> bool, pub: Bytes, sig: Bytes, base: H, s: nat, k: nat)
    requires Abelian(g) && Represents(pts, g, value, valid)
    requires Times(g, L, base) == g.zero
    requires StrictProblem(pts, pub, sig).None?
    requires Times(g, s, base) == g.plus(value(pts.decode(sig[..32]).value), Times(g, k, value(pts.decode(pub).value)))
    ensures var r := value(pts.decode(sig[..32]).value); Times(g, L, r) == g.zero && r != g.zero
  {
    hide ScalarMul, Times, Abelian, Represents;
    NeutralMeans(pts, g, value, valid);
    var a, point := value(pts.decode(pub).value), pts.decode(sig[..32]).value;
    var r := value(point);
    KeyRule(pts, g, value, valid, pub);
    ScalarMulIsTimes(pts, g, value, valid, 8, point);
    TimesZero(g, 8);
    TimesPlus(g, L, r, Times(g, k, a));
    KilledMultiple(g, s, base);
    KilledMultiple(g, k, a);
    Laws(g, Times(g, L, r), g.zero, g.zero);
  }

  lemma {:induction false} KilledMultiple<H(!new)>(g: Group<H>, k: nat, a: H)
    requires Abelian(g) && Times(g, L, a) == g.zero
    ensures Times(g, L, Times(g, k, a)) == g.zero
  {
    hide Abelian, Times;
    TimesTimes(g, L, k, a);
    TimesTimes(g, k, L, a);
    TimesZero(g, k);
    assert L * k == k * L;
  }
}
