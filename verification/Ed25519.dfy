/**
 The two checks of a 32-octet Ed25519 key: key_problem of ed25519_order.py and _ed25519_problem of
 cryptovalid_acta.py, which decode and double in different ways.
 */
module Ed25519 {
  import opened MerkleTree
  import opened Octets
  import opened ModArith
  import opened EdwardsCurve
  import opened PointOrder

  /** p = 2^255 - 19, d = -121665/121666, and pow(2, (p-1)/4, p). */
  const ED25519 := Curve(
    57896044618658097711785492504343953926634992332820282019728792003956564819949,
    37095705934669439343138083508754565189542113879843219016388785533085940283555,
    19681161376707505956807079304988542015446066515923890162744021073123829784752)

  /** The constants are what the formulas need: d is -121665/121666, and i squares to -1. */
  lemma ConstantsFit()
    ensures Fit(ED25519) && Cong(121666 * ED25519.d, -121665, ED25519.p)
  {
    var p := ED25519.p;
    CongFromQuotient(ED25519.i * ED25519.i, -1,
        6690407189080634018507799843845558368979872843924222843531373839242004886245, p);
    CongFromQuotient(121666 * ED25519.d, -121665, 77955, p);
  }

  // ---------------------------------------------------------------- decoding

  /** int.from_bytes(b, "little"). */
  function FromLittle(b: Bytes): (n: nat)
    ensures n < Pow256(|b|)
  {
    if b == [] then 0
    else
      LittleBound(FromLittle(b[..|b| - 1]), Pow256(|b| - 1), b[|b| - 1] as int);
      FromLittle(b[..|b| - 1]) + Pow256(|b| - 1) * b[|b| - 1] as int
  }

  lemma LittleBound(low: nat, w: nat, top: nat)
    requires low < w && top < 256
    ensures low + w * top < 256 * w
  {
    assert w * top <= w * 255;
  }

  /** pow(b, e, m). */
  function ModPow(b: int, e: nat, m: int): int
    requires m > 0
  {
    if e == 0 then 1 % m else ModPow(b, e - 1, m) * b % m
  }

  function U(c: Curve, y: int): int
    requires c.p > 0
  {
    (y * y - 1) % c.p
  }

  function V(c: Curve, y: int): int
    requires c.p > 0
  {
    (c.d * y * y + 1) % c.p
  }

  /** The candidate root of u/v (section 5.1.3 of RFC 8032). */
  function Candidate(c: Curve, u: int, v: int): int
    requires c.p > 5
  {
    u * ModPow(v, 3, c.p) * ModPow(u * ModPow(v, 7, c.p), (c.p - 5) / 8, c.p) % c.p
  }

  const TWO_255: nat := 57896044618658097711785492504343953926634992332820282019728792003956564819968

  lemma Two255IsPower()
    ensures TWO_255 == Pow256(31) * 128
  {
    assert Pow256(4) == 0x1_0000_0000;
    assert Pow256(8) == 0x1_0000_0000_0000_0000;
    assert Pow256(12) == 0x1_0000_0000_0000_0000_0000_0000;
    assert Pow256(16) == 0x1_0000_0000_0000_0000_0000_0000_0000_0000;
    assert Pow256(20) == 0x1_0000_0000_0000_0000_0000_0000_0000_0000_0000_0000;
    assert Pow256(24) == 0x1_0000_0000_0000_0000_0000_0000_0000_0000_0000_0000_0000_0000;
    assert Pow256(28) == 0x1_0000_0000_0000_0000_0000_0000_0000_0000_0000_0000_0000_0000_0000_0000;
  }

  /** The last steps of both decoders: no sign bit on x = 0, then the parity the sign bit asks for. */
  function WithSign(c: Curve, x: int, y: int, sign: int): Option<Point>
    requires c.p > 0
  {
    if x == 0 && sign == 1 then None
    else
      var x' := if x % 2 != sign then c.p - x else x;
      Some(Point(x', y, 1, x' * y % c.p))
  }

  /** The point with this y whose x has the parity of the sign bit. */
  function Recover(c: Curve, y: int, sign: int): Option<Point>
    requires c.p > 5
  {
    var u, v := U(c, y), V(c, y);
    var x := Candidate(c, u, v);
    var vxx := v * x * x % c.p;
    if vxx == u then WithSign(c, x, y, sign)
    else if vxx == -u % c.p then WithSign(c, x * c.i % c.p, y, sign)
    else None
  }

  /** ed25519_order.decode. */
  function Decode(c: Curve, enc: Bytes): Option<Point>
    requires c.p > 5
  {
    if |enc| != 32 then None
    else
      var n := FromLittle(enc);
      if n % TWO_255 >= c.p then None else Recover(c, n % TWO_255, n / TWO_255)
  }

  /** The sign bit is the top bit of the last octet. */
  lemma SignBit(enc: Bytes)
    requires |enc| == 32
    ensures FromLittle(enc) / TWO_255 == enc[31] as int / 128
  {
    Two255IsPower();
    hide Pow256;
    var low, w, top := FromLittle(enc[..31]), Pow256(31), enc[31] as int;
    assert enc[..|enc| - 1] == enc[..31];
    TopBit(low, w, top);
  }

  lemma TopBit(low: nat, w: nat, top: nat)
    requires low < w && top < 256
    ensures (low + w * top) / (w * 128) == top / 128
  {
    var q, r := top / 128, top % 128;
    assert top == 128 * q + r;
    Spread(w, q, r);
    assert w * r + low < w * 128 by {
      LittleBound(low, w, r);
      MultipleGrows(128 - r, w);
      assert (128 - r) * w == w * 128 - w * r;
    }
    QuotientIs(low + w * top, w * 128, q, w * r + low);
  }

  lemma Spread(w: int, q: int, r: int)
    ensures w * (128 * q + r) == (w * 128) * q + w * r
  {
  }

  lemma QuotientIs(n: nat, w: nat, q: nat, r: nat)
    requires r < w && n == w * q + r
    ensures n / w == q
  {
    var j := n / w - q;
    assert j * w == r - n % w;
    MultipleGrows(j, w);
  }

  /** The two ways to test a root: on the value, and on the difference; with i, the second test is the first for -u. */
  lemma RootTests(c: Curve, u: int, v: int, x: int)
    requires Fit(c) && 0 <= u < c.p
    ensures (v * x * x - u) % c.p == 0 <==> v * x * x % c.p == u
    ensures var x' := x * c.i % c.p; (v * x' * x' - u) % c.p == 0 <==> v * x * x % c.p == -u % c.p
  {
    hide Cong;
    var p, w, x' := c.p, v * x * x, x * c.i % c.p;
    CongIff(w, u, p);
    Residue(w, u, p);
    TurnedSquare(c, v, x);
    CongIff(v * x' * x', u, p);
    NegatedCong(v * x' * x', w, u, p);
  }

  lemma Residue(w: int, u: int, p: int)
    requires 0 <= u < p
    ensures Cong(w, u, p) <==> w % p == u
    ensures Cong(w, -u, p) <==> w % p == -u % p
  {
    QuotientIs(u, p, 0, u);
    assert u % p == u - p * (u / p);
  }

  lemma TurnedSquare(c: Curve, v: int, x: int)
    requires Fit(c)
    ensures var x' := x * c.i % c.p; Cong(v * x' * x', -(v * x * x), c.p)
  {
    hide Cong;
    var p, x' := c.p, x * c.i % c.p;
    CongMod(x * c.i, p);
    CongMul(x', x * c.i, x', x * c.i, p);
    assert (x * c.i) * (x * c.i) == (x * x) * (c.i * c.i);
    Reflexive(x * x, p);
    CongMul(x * x, x * x, c.i * c.i, -1, p);
    assert (x * x) * -1 == -(x * x);
    CongTrans(x' * x', (x * x) * (c.i * c.i), -(x * x), p);
    Reflexive(v, p);
    CongMul(v, v, x' * x', -(x * x), p);
    assert v * (x' * x') == v * x' * x' && v * -(x * x) == -(v * x * x);
  }

  lemma CongTrans(a: int, b: int, x: int, p: int)
    requires p > 0 && Cong(a, b, p) && Cong(b, x, p)
    ensures Cong(a, x, p)
  {
  }

  lemma NegatedCong(a: int, w: int, u: int, p: int)
    requires p > 0 && Cong(a, -w, p)
    ensures Cong(a, u, p) <==> Cong(w, -u, p)
  {
    CongIff(-w, u, p);
    CongIff(w, -u, p);
    CongIff(-(w + u), 0, p);
    CongIff(w + u, 0, p);
    if Cong(w + u, 0, p) {
      CongAdd(0, 0, w + u, 0, p);
    }
    if Cong(-(w + u), 0, p) {
      CongAdd(0, 0, -(w + u), 0, p);
    }
  }

  // ---------------------------------------------------------------- decoded points

  /** v x^2 = u is the curve equation. */
  lemma RootIsOnCurve(c: Curve, x: int, y: int)
    requires c.p > 0 && Cong(V(c, y) * x * x, U(c, y), c.p)
    ensures OnCurve(c, Point(x, y, 1, x * y % c.p))
  {
    hide Cong, U, V;
    var p, xx, yy, t := c.p, x * x, y * y, x * y % c.p;
    RootEquation(c, x, y);
    ReducedProduct(c.d, x, y, p);
    CongTrans(yy - xx, 1 + c.d * (xx * yy), 1 + c.d * (t * t), p);
  }

  /** y^2 - x^2 is congruent to 1 + d x^2 y^2. */
  lemma RootEquation(c: Curve, x: int, y: int)
    requires c.p > 0 && Cong(V(c, y) * x * x, U(c, y), c.p)
    ensures Cong(y * y - x * x, 1 + c.d * ((x * x) * (y * y)), c.p)
  {
    hide Cong;
    var p, xx, yy := c.p, x * x, y * y;
    CongMod(y * y - 1, p);
    CongMod(c.d * y * y + 1, p);
    Reflexive(xx, p);
    CongMul(V(c, y), c.d * y * y + 1, xx, xx, p);
    Regrouped(V(c, y), x);
    Expanded(c.d, xx, y);
    Symmetric(V(c, y) * xx, c.d * (xx * yy) + xx, p);
    CongTrans(c.d * (xx * yy) + xx, V(c, y) * xx, U(c, y), p);
    CongTrans(c.d * (xx * yy) + xx, U(c, y), yy - 1, p);
    Symmetric(c.d * (xx * yy) + xx, yy - 1, p);
    Reflexive(1 - xx, p);
    CongAdd(yy - 1, c.d * (xx * yy) + xx, 1 - xx, 1 - xx, p);
  }

  lemma Expanded(d: int, xx: int, y: int)
    ensures (d * y * y + 1) * xx == d * (xx * (y * y)) + xx
  {
  }

  /** x^2 y^2 may be replaced by the square of the reduced product. */
  lemma ReducedProduct(d: int, x: int, y: int, p: int)
    requires p > 0
    ensures var t := x * y % p; Cong(1 + d * ((x * x) * (y * y)), 1 + d * (t * t), p) && Cong(x * y, t, p)
  {
    hide Cong;
    var xx, yy, t := x * x, y * y, x * y % p;
    CongMod(x * y, p);
    CongMul(t, x * y, t, x * y, p);
    SquareOfProduct(x, y);
    Symmetric(t * t, xx * yy, p);
    Reflexive(d, p);
    CongMul(d, d, xx * yy, t * t, p);
    Reflexive(1, p);
    CongAdd(1, 1, d * (xx * yy), d * (t * t), p);
    Symmetric(t, x * y, p);
  }

  lemma NegatedRoot(c: Curve, x: int, u: int, v: int)
    requires c.p > 0 && Cong(v * x * x, u, c.p)
    ensures Cong(v * (c.p - x) * (c.p - x), u, c.p)
  {
    hide Cong;
    var p, n := c.p, c.p - x;
    NegatedSquare(p, x);
    Reflexive(v, p);
    CongMul(v, v, n * n, x * x, p);
    Regrouped(v, n);
    Regrouped(v, x);
    CongTrans(v * n * n, v * x * x, u, p);
  }

  lemma NegatedSquare(p: int, x: int)
    requires p > 0
    ensures Cong((p - x) * (p - x), x * x, p)
  {
    hide Cong;
    CongFromQuotient(p - x, -x, 1, p);
    CongMul(p - x, -x, p - x, -x, p);
    assert -x * -x == x * x;
  }

  lemma Regrouped(v: int, x: int)
    ensures v * (x * x) == v * x * x
  {
  }

  /** A point that decodes, with Z = 1. */
  predicate Affine(c: Curve, P: Point)
    requires c.p > 0
  {
    OnCurve(c, P) && P.Z == 1
  }

  lemma SignedRootIsAffine(c: Curve, x: int, y: int, sign: int)
    requires c.p > 0 && Cong(V(c, y) * x * x, U(c, y), c.p) && WithSign(c, x, y, sign).Some?
    ensures Affine(c, WithSign(c, x, y, sign).value)
  {
    hide Cong;
    NegatedRoot(c, x, U(c, y), V(c, y));
    RootIsOnCurve(c, x, y);
    RootIsOnCurve(c, c.p - x, y);
  }

  // ---------------------------------------------------------------- eight times a point

  /** The arithmetic of ed25519_order.py as a representation of points. */
  function CurvePoints(c: Curve): Points<Point>
    requires c.p > 5
  {
    Points((a, b) => Add(c, a, b), NEUTRAL, a => IsNeutral(c, a), s => Decode(c, s))
  }

  /** Equal up to a factor that is a unit modulo p: the same projective point. */
  ghost predicate Projective(c: Curve, P: Point, Q: Point)
    requires c.p > 0
  {
    exists k :: Unit(k, c.p) && CongPoint(c, P, Scale(k, Q))
  }

  lemma NeutralUpToUnit(c: Curve, P: Point, Q: Point)
    requires c.p > 0 && Projective(c, P, Q)
    ensures IsNeutral(c, P) <==> IsNeutral(c, Q)
  {
    var p := c.p;
    var k :| Unit(k, p) && CongPoint(c, P, Scale(k, Q));
    UnitKeepsZero(k, Q.X, p);
    UnitKeepsZero(k, Q.Y - Q.Z, p);
    CongAdd(P.Y, k * Q.Y, P.Z, k * Q.Z, p);
    assert k * Q.Y - k * Q.Z == k * (Q.Y - Q.Z);
  }

  lemma MinusFourIsUnit(p: int)
    requires p > 1 && p % 4 == 1
    ensures Unit(-4, p) && Unit(64, p)
  {
    var q := p / 4;
    CongFromQuotient(-4 * q, 1, -1, p);
    assert Inverse(-4, q, p);
    Reflexive(1, p);
    assert Inverse(-1, -1, p);
    UnitProduct(-4, -4, p);
    UnitProduct(16, -4, p);
    UnitProduct(-64, -1, p);
  }

  /** Scaling both arguments by k scales the sum by k^4. */
  lemma AddOfScaled(c: Curve, k: int, P: Point)
    ensures AddRaw(c, Scale(k, P), Scale(k, P)) == Scale((k * k) * (k * k), AddRaw(c, P, P))
  {
    hide Products, Scale;
    var s := k * k;
    ScaledSquares(k, P.X, P.Y);
    ScaledT(k, c.d, P.T);
    ScaledZ(k, P.Z);
    var a, b := (P.Y - P.X) * (P.Y - P.X), (P.Y + P.X) * (P.Y + P.X);
    var cc, dd := P.T * 2 * c.d * P.T, P.Z * 2 * P.Z;
    Factored(s, a, b);
    Factored(s, cc, dd);
    ScaledFactors(s, b - a, dd - cc, dd + cc, b + a);
    ScaleOf(k, P);
  }

  lemma ScaleOf(k: int, P: Point)
    ensures Scale(k, P) == Point(k * P.X, k * P.Y, k * P.Z, k * P.T)
  {
  }

  lemma ScaledSquares(k: int, x: int, y: int)
    ensures (k * y - k * x) * (k * y - k * x) == (k * k) * ((y - x) * (y - x))
    ensures (k * y + k * x) * (k * y + k * x) == (k * k) * ((y + x) * (y + x))
  {
    ScaledSquare(k, y - x);
    ScaledSquare(k, y + x);
    assert k * y - k * x == k * (y - x) && k * y + k * x == k * (y + x);
  }

  lemma ScaledSquare(k: int, x: int)
    ensures (k * x) * (k * x) == (k * k) * (x * x)
  {
  }

  lemma ScaledT(k: int, d: int, t: int)
    ensures (k * t) * 2 * d * (k * t) == (k * k) * (t * 2 * d * t)
  {
    ScaledSquare(k, t);
    assert (k * t) * 2 * d * (k * t) == 2 * d * ((k * t) * (k * t));
    assert t * 2 * d * t == 2 * d * (t * t);
    Swapped(2 * d, k * k, t * t);
  }

  lemma ScaledZ(k: int, z: int)
    ensures (k * z) * 2 * (k * z) == (k * k) * (z * 2 * z)
  {
    ScaledSquare(k, z);
    assert (k * z) * 2 * (k * z) == 2 * ((k * z) * (k * z));
    assert z * 2 * z == 2 * (z * z);
    Swapped(2, k * k, z * z);
  }

  lemma Swapped(a: int, b: int, x: int)
    ensures a * (b * x) == b * (a * x)
  {
  }

  lemma Factored(s: int, a: int, b: int)
    ensures s * b - s * a == s * (b - a) && s * b + s * a == s * (b + a)
  {
  }

  lemma ScaledFactors(s: int, e: int, f: int, g: int, h: int)
    ensures Products(s * e, s * f, s * g, s * h) == Scale(s * s, Products(e, f, g, h))
  {
    assert (s * e) * (s * f) == (s * s) * (e * f);
    assert (s * g) * (s * h) == (s * s) * (g * h);
    assert (s * f) * (s * g) == (s * s) * (f * g);
    assert (s * e) * (s * h) == (s * s) * (e * h);
  }

  lemma ScaleCong(c: Curve, k: int, P: Point, Q: Point)
    requires c.p > 0 && CongPoint(c, P, Q)
    ensures CongPoint(c, Scale(k, P), Scale(k, Q)) && CongPoint(c, Q, P)
  {
    CongMul(k, k, P.X, Q.X, c.p);
    CongMul(k, k, P.Y, Q.Y, c.p);
    CongMul(k, k, P.Z, Q.Z, c.p);
    CongMul(k, k, P.T, Q.T, c.p);
  }

  lemma ScaleScale(j: int, k: int, P: Point)
    ensures Scale(j, Scale(k, P)) == Scale(j * k, P)
  {
    assert forall x :: j * (k * x) == (j * k) * x;
  }

  /** The addition formula and the dedicated doubling take the same projective point to the same projective point. */
  lemma DoublingAgrees(c: Curve, P: Point, Q: Point)
    requires c.p > 1 && c.p % 4 == 1 && Projective(c, P, Q) && OnCurve(c, Q)
    ensures Projective(c, Add(c, P, P), Double(c, Q)) && OnCurve(c, Double(c, Q))
  {
    hide OnCurve, Cong, Unit, CongPoint, Add, Double, AddRaw, DoubleRaw, Scale;
    var p := c.p;
    var k :| Unit(k, p) && CongPoint(c, P, Scale(k, Q));
    var k4 := (k * k) * (k * k);
    AddIsRaw(c, P, P, Scale(k, Q), Scale(k, Q));
    AddOfScaled(c, k, Q);
    SelfAddIsDouble(c, Q);
    ScaleCong(c, k4, AddRaw(c, Q, Q), Scale(-4, DoubleRaw(Q)));
    ScaleScale(k4, -4, DoubleRaw(Q));
    DoubleIsRaw(c, Q);
    ScaleCong(c, k4 * -4, Double(c, Q), DoubleRaw(Q));
    ScaleCong(c, 1, Scale(k4 * -4, Double(c, Q)), Scale(k4 * -4, DoubleRaw(Q)));
    CongPointTrans(c, Add(c, P, P), Scale(k4, AddRaw(c, Q, Q)), Scale(k4 * -4, DoubleRaw(Q)));
    CongPointTrans(c, Add(c, P, P), Scale(k4 * -4, DoubleRaw(Q)), Scale(k4 * -4, Double(c, Q)));
    MinusFourIsUnit(p);
    UnitProduct(k, k, p);
    UnitProduct(k * k, k * k, p);
    UnitProduct(k4, -4, p);
    DoubleRawOnCurve(c, Q);
    CongOnCurve(c, Double(c, Q), DoubleRaw(Q));
  }

  lemma CongOnCurve(c: Curve, P: Point, Q: Point)
    requires c.p > 0 && CongPoint(c, P, Q) && OnCurve(c, Q)
    ensures OnCurve(c, P)
  {
    hide Cong;
    var p := c.p;
    CongMul(P.X, Q.X, P.X, Q.X, p);
    CongMul(P.Y, Q.Y, P.Y, Q.Y, p);
    CongMul(P.Z, Q.Z, P.Z, Q.Z, p);
    CongMul(P.T, Q.T, P.T, Q.T, p);
    CongAdd(P.Y * P.Y, Q.Y * Q.Y, P.X * P.X, Q.X * Q.X, p);
    Reflexive(c.d, p);
    CongMul(c.d, c.d, P.T * P.T, Q.T * Q.T, p);
    CongAdd(P.Z * P.Z, Q.Z * Q.Z, c.d * (P.T * P.T), c.d * (Q.T * Q.T), p);
    CongMul(P.X, Q.X, P.Y, Q.Y, p);
    CongMul(P.Z, Q.Z, P.T, Q.T, p);
    BothSides(P.Y * P.Y - P.X * P.X, Q.Y * Q.Y - Q.X * Q.X, P.Z * P.Z + c.d * (P.T * P.T),
        Q.Z * Q.Z + c.d * (Q.T * Q.T), p);
    BothSides(P.X * P.Y, Q.X * Q.Y, P.Z * P.T, Q.Z * Q.T, p);
  }

  lemma BothSides(a: int, a': int, b: int, b': int, p: int)
    requires p > 0 && Cong(a, a', p) && Cong(b, b', p) && Cong(a', b', p)
    ensures Cong(a, b, p)
  {
  }

  /** The first bit of the scalar: neutral plus neutral plus A is 64 times the coordinates of A. */
  lemma FirstBit(c: Curve, A: Point)
    requires Fit(c) && Affine(c, A)
    ensures Projective(c, Add(c, Add(c, NEUTRAL, NEUTRAL), A), A)
  {
    hide Cong, Add, AddRaw;
    var p := c.p;
    var two, four := Add(c, NEUTRAL, NEUTRAL), Point(0, 4, 4, 0);
    ReflexivePoint(c, NEUTRAL);
    ReflexivePoint(c, A);
    AddIsRaw(c, NEUTRAL, NEUTRAL, NEUTRAL, NEUTRAL);
    AddToNeutral(c, A);
    AddIsRaw(c, two, A, four, A);
    Reflexive(64, p);
    CongMul(64, 64, A.X * A.Y, A.T, p);
    var sum := Add(c, two, A);
    CongTrans(sum.T, 64 * (A.X * A.Y), 64 * A.T, p);
    MinusFourIsUnit(p);
    assert CongPoint(c, sum, Scale(64, A));
  }

  lemma ReflexivePoint(c: Curve, P: Point)
    requires c.p > 0
    ensures CongPoint(c, P, P)
  {
  }

  lemma AddToNeutral(c: Curve, A: Point)
    requires A.Z == 1
    ensures AddRaw(c, NEUTRAL, NEUTRAL) == Point(0, 4, 4, 0)
    ensures AddRaw(c, Point(0, 4, 4, 0), A) == Point(64 * A.X, 64 * A.Y, 64, 64 * (A.X * A.Y))
  {
    assert (8 * A.X) * (8 * A.Y) == 64 * (A.X * A.Y);
  }

  /** [8]A is neutral by repeated addition exactly when three dedicated doublings make it neutral. */
  lemma EightAgrees(c: Curve, A: Point)
    requires Fit(c) && Affine(c, A)
    ensures IsNeutral(c, ScalarMul(CurvePoints(c), 8, A)) <==> IsNeutral(c, Double(c, Double(c, Double(c, A))))
  {
    var pts := CurvePoints(c);
    EightUnrolled(pts, A);
    hide OnCurve, Cong, Add, Double, IsNeutral, ScalarMul, Projective;
    FirstBit(c, A);
    var one := Add(c, Add(c, NEUTRAL, NEUTRAL), A);
    DoublingAgrees(c, one, A);
    var two := Add(c, one, one);
    DoublingAgrees(c, two, Double(c, A));
    var four := Add(c, two, two);
    DoublingAgrees(c, four, Double(c, Double(c, A)));
    NeutralUpToUnit(c, Add(c, four, four), Double(c, Double(c, Double(c, A))));
  }

  lemma EightUnrolled<P>(pts: Points<P>, a: P)
    ensures var one := pts.add(pts.add(pts.neutral, pts.neutral), a);
            var two := pts.add(one, one);
            var four := pts.add(two, two);
            ScalarMul(pts, 8, a) == pts.add(four, four)
  {
    assert ScalarMul(pts, 0, a) == pts.neutral;
    var one := ScalarMul(pts, 1, a);
    assert one == pts.add(pts.add(pts.neutral, pts.neutral), a);
    assert ScalarMul(pts, 2, a) == pts.add(one, one);
    var two := ScalarMul(pts, 2, a);
    assert ScalarMul(pts, 4, a) == pts.add(two, two);
  }

  // ---------------------------------------------------------------- the check of cryptovalid_acta.py

  datatype ActaProblem = WrongLength | NonCanonical | NotOnCurve | SignOnZero | SmallOrder

  /** key_problem, by what the key decodes to. */
  lemma KeyProblemCases(c: Curve, pk: Bytes)
    requires c.p > 5
    ensures var kp, a := KeyProblem(CurvePoints(c), pk), Decode(c, pk);
            && (a.None? ==> kp == Some(KeyNotDecodable))
            && (a.Some? && IsNeutral(c, ScalarMul(CurvePoints(c), 8, a.value)) ==> kp == Some(SmallOrderKey))
            && (a.Some? && !IsNeutral(c, ScalarMul(CurvePoints(c), 8, a.value)) ==> kp in {None, Some(MixedOrderKey)})
  {
    hide Decode, ScalarMul, IsNeutral;
  }

  /**
   The decoding part of _ed25519_problem: it finds the same point as ed25519_order.decode, or refuses
   when that does.
   */
  method ActaDecode(c: Curve, pk: Bytes) returns (r: Option<Point>, problem: Option<ActaProblem>)
    requires Fit(c)
    ensures r == Decode(c, pk) && (r.Some? ==> Affine(c, r.value))
    ensures r.Some? <==> problem.None?
    ensures problem != Some(SmallOrder) && (|pk| != 32 <==> problem == Some(WrongLength))
    ensures problem == Some(NonCanonical) <==> |pk| == 32 && FromLittle(pk) % TWO_255 >= c.p
    ensures problem == Some(NotOnCurve) <==>
            |pk| == 32 && FromLittle(pk) % TWO_255 < c.p && Recover(c, FromLittle(pk) % TWO_255, 0).None?
  {
    hide Candidate, OnCurve, Cong, U, V, WithSign, FromLittle;
    if |pk| != 32 {
      return None, Some(WrongLength);
    }
    var n := FromLittle(pk);
    var y, sign := n % TWO_255, pk[31] as int / 128;
    SignBit(pk);
    if y >= c.p {
      return None, Some(NonCanonical);
    }
    var u, v := U(c, y), V(c, y);
    CongMod(y * y - 1, c.p);
    UBounds(c, y);
    var x := Candidate(c, u, v);
    RootTests(c, u, v, x);
    if (v * x * x - u) % c.p != 0 {
      x := x * c.i % c.p;
      if (v * x * x - u) % c.p != 0 {
        return None, Some(NotOnCurve);
      }
    }
    CongIff(v * x * x, u, c.p);
    assert Decode(c, pk) == WithSign(c, x, y, sign);
    assert Recover(c, y, 0) == WithSign(c, x, y, 0);
    SignCases(c, x, y, 0);
    SignCases(c, x, y, sign);
    if x == 0 && sign == 1 {
      return None, Some(SignOnZero);
    }
    SignedRootIsAffine(c, x, y, sign);
    if x % 2 != sign {
      x := c.p - x;
    }
    r, problem := Some(Point(x, y, 1, x * y % c.p)), None;
  }

  lemma UBounds(c: Curve, y: int)
    requires c.p > 0
    ensures 0 <= U(c, y) < c.p
  {
  }

  lemma SignCases(c: Curve, x: int, y: int, sign: int)
    requires c.p > 0
    ensures x == 0 && sign == 1 ==> WithSign(c, x, y, sign) == None
    ensures !(x == 0 && sign == 1) ==>
              var x' := if x % 2 != sign then c.p - x else x;
              WithSign(c, x, y, sign) == Some(Point(x', y, 1, x' * y % c.p))
  {
  }

  /**
   _ed25519_problem.  It answers as key_problem does on every octet string, except that it accepts
   a key of mixed order.
   */
  method ActaKeyProblem(c: Curve, pk: Bytes) returns (r: Option<ActaProblem>)
    requires Fit(c)
    ensures r.None? <==> KeyProblem(CurvePoints(c), pk) in {None, Some(MixedOrderKey)}
    ensures r == Some(SmallOrder) <==> KeyProblem(CurvePoints(c), pk) == Some(SmallOrderKey)
    ensures |pk| != 32 <==> r == Some(WrongLength)
    ensures r == Some(NonCanonical) <==> |pk| == 32 && FromLittle(pk) % TWO_255 >= c.p
    ensures r == Some(NotOnCurve) <==>
            |pk| == 32 && FromLittle(pk) % TWO_255 < c.p && Recover(c, FromLittle(pk) % TWO_255, 0).None?
  {
    hide Recover, FromLittle, Decode, Double, IsNeutral, ScalarMul, OnCurve, Cong, KeyProblem, CurvePoints;
    KeyProblemCases(c, pk);
    var point, problem := ActaDecode(c, pk);
    if problem.Some? {
      return problem;
    }
    EightAgrees(c, point.value);
    var Q := point.value;
    for k := 0 to 3
      invariant k == 0 ==> Q == point.value
      invariant k == 1 ==> Q == Double(c, point.value)
      invariant k == 2 ==> Q == Double(c, Double(c, point.value))
      invariant k == 3 ==> Q == Double(c, Double(c, Double(c, point.value)))
    {
      Q := Double(c, Q);
    }
    r := if IsNeutral(c, Q) then Some(SmallOrder) else None;
  }
}
