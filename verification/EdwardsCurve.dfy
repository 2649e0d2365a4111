/**
 Ed25519 points of small order, checked in two places with two formulas: ed25519_order.py adds a
 point to itself with the addition formula of section 5.1.4 of RFC 8032, cryptovalid_acta.py uses a
 dedicated doubling.  Arithmetic is on integers with explicit reduction modulo p.
 */
module EdwardsCurve {
  import opened ModArith

  /** Extended coordinates. */
  datatype Point = Point(X: int, Y: int, Z: int, T: int)

  /** The prime, the curve constant, and a square root of -1. */
  datatype Curve = Curve(p: int, d: int, i: int)

  /** What the two checks rely on: p odd of the form 4q+1, i a square root of -1. */
  predicate Fit(c: Curve) {
    c.p > 5 && c.p % 4 == 1 && Cong(c.i * c.i, -1, c.p)
  }

  const NEUTRAL := Point(0, 1, 1, 0)

  /** ed25519_order.add. */
  function Add(c: Curve, P1: Point, P2: Point): Point
    requires c.p > 0
  {
    var p := c.p;
    var a, b := (P1.Y - P1.X) * (P2.Y - P2.X) % p, (P1.Y + P1.X) * (P2.Y + P2.X) % p;
    var cc, dd := P1.T * 2 * c.d * P2.T % p, P1.Z * 2 * P2.Z % p;
    var e, f, g, h := b - a, dd - cc, dd + cc, b + a;
    Point(e * f % p, g * h % p, f * g % p, e * h % p)
  }

  /** One turn of the loop in cryptovalid_acta._ed25519_problem. */
  function Double(c: Curve, P: Point): Point
    requires c.p > 0
  {
    var p := c.p;
    var A, B := P.X * P.X % p, P.Y * P.Y % p;
    var C, H := 2 * P.Z * P.Z % p, (A + B) % p;
    var E, G := (H - (P.X + P.Y) * (P.X + P.Y)) % p, (A - B) % p;
    var F := (C + G) % p;
    Point(E * F % p, G * H % p, F * G % p, E * H % p)
  }

  predicate IsNeutral(c: Curve, P: Point)
    requires c.p > 0
  {
    P.X % c.p == 0 && (P.Y - P.Z) % c.p == 0
  }

  /** The curve equation in extended coordinates. */
  predicate OnCurve(c: Curve, P: Point)
    requires c.p > 0
  {
    && Cong(P.Y * P.Y - P.X * P.X, P.Z * P.Z + c.d * (P.T * P.T), c.p)
    && Cong(P.X * P.Y, P.Z * P.T, c.p)
  }

  // ---------------------------------------------------------------- the formulas without reduction

  predicate CongPoint(c: Curve, P: Point, Q: Point)
    requires c.p > 0
  {
    Cong(P.X, Q.X, c.p) && Cong(P.Y, Q.Y, c.p) && Cong(P.Z, Q.Z, c.p) && Cong(P.T, Q.T, c.p)
  }

  function Scale(k: int, P: Point): Point {
    Point(k * P.X, k * P.Y, k * P.Z, k * P.T)
  }

  function Products(e: int, f: int, g: int, h: int): Point {
    Point(e * f, g * h, f * g, e * h)
  }

  function AddRaw(c: Curve, P1: Point, P2: Point): Point {
    var a, b := (P1.Y - P1.X) * (P2.Y - P2.X), (P1.Y + P1.X) * (P2.Y + P2.X);
    var cc, dd := P1.T * 2 * c.d * P2.T, P1.Z * 2 * P2.Z;
    Products(b - a, dd - cc, dd + cc, b + a)
  }

  function DoubleRaw(P: Point): Point {
    var A, B, C := P.X * P.X, P.Y * P.Y, 2 * P.Z * P.Z;
    Products(A + B - (P.X + P.Y) * (P.X + P.Y), C + (A - B), A - B, A + B)
  }

  lemma CongPointTrans(c: Curve, P: Point, Q: Point, R: Point)
    requires c.p > 0 && CongPoint(c, P, Q) && CongPoint(c, Q, R)
    ensures CongPoint(c, P, R)
  {
  }

  /** Reduced products of congruent factors. */
  lemma ProductsCong(c: Curve, e: int, f: int, g: int, h: int, e': int, f': int, g': int, h': int)
    requires c.p > 0 && Cong(e, e', c.p) && Cong(f, f', c.p) && Cong(g, g', c.p) && Cong(h, h', c.p)
    ensures CongPoint(c, Point(e * f % c.p, g * h % c.p, f * g % c.p, e * h % c.p), Products(e', f', g', h'))
    ensures CongPoint(c, Products(e, f, g, h), Products(e', f', g', h'))
  {
    hide Cong;
    var p := c.p;
    CongMulMod(e, e', f, f', p);
    CongMulMod(g, g', h, h', p);
    CongMulMod(f, f', g, g', p);
    CongMulMod(e, e', h, h', p);
    CongMul(e, e', f, f', p);
    CongMul(g, g', h, h', p);
    CongMul(f, f', g, g', p);
    CongMul(e, e', h, h', p);
  }

  lemma AddIsRaw(c: Curve, P1: Point, P2: Point, Q1: Point, Q2: Point)
    requires c.p > 0 && CongPoint(c, P1, Q1) && CongPoint(c, P2, Q2)
    ensures CongPoint(c, Add(c, P1, P2), AddRaw(c, Q1, Q2))
  {
    hide Cong;
    var p := c.p;
    CongAdd(P1.Y, Q1.Y, P1.X, Q1.X, p);
    CongAdd(P2.Y, Q2.Y, P2.X, Q2.X, p);
    var a, b := (P1.Y - P1.X) * (P2.Y - P2.X) % p, (P1.Y + P1.X) * (P2.Y + P2.X) % p;
    var a', b' := (Q1.Y - Q1.X) * (Q2.Y - Q2.X), (Q1.Y + Q1.X) * (Q2.Y + Q2.X);
    CongMulMod(P1.Y - P1.X, Q1.Y - Q1.X, P2.Y - P2.X, Q2.Y - Q2.X, p);
    CongMulMod(P1.Y + P1.X, Q1.Y + Q1.X, P2.Y + P2.X, Q2.Y + Q2.X, p);
    CongAdd(b, b', a, a', p);
    ScaledTs(c, P1, P2, Q1, Q2);
    var cc, dd := P1.T * 2 * c.d * P2.T % p, P1.Z * 2 * P2.Z % p;
    var cc', dd' := Q1.T * 2 * c.d * Q2.T, Q1.Z * 2 * Q2.Z;
    CongAdd(dd, dd', cc, cc', p);
    ProductsCong(c, b - a, dd - cc, dd + cc, b + a, b' - a', dd' - cc', dd' + cc', b' + a');
  }

  lemma ScaledTs(c: Curve, P1: Point, P2: Point, Q1: Point, Q2: Point)
    requires c.p > 0 && CongPoint(c, P1, Q1) && CongPoint(c, P2, Q2)
    ensures Cong(P1.T * 2 * c.d * P2.T % c.p, Q1.T * 2 * c.d * Q2.T, c.p)
    ensures Cong(P1.Z * 2 * P2.Z % c.p, Q1.Z * 2 * Q2.Z, c.p)
  {
    CongMul(P1.T, Q1.T, 2, 2, c.p);
    CongMul(P1.T * 2, Q1.T * 2, c.d, c.d, c.p);
    CongMulMod(P1.T * 2 * c.d, Q1.T * 2 * c.d, P2.T, Q2.T, c.p);
    CongMul(P1.Z, Q1.Z, 2, 2, c.p);
    CongMulMod(P1.Z * 2, Q1.Z * 2, P2.Z, Q2.Z, c.p);
  }

  lemma DoubleIsRaw(c: Curve, P: Point)
    requires c.p > 0
    ensures CongPoint(c, Double(c, P), DoubleRaw(P))
  {
    hide Cong;
    var p := c.p;
    var A, B := P.X * P.X % p, P.Y * P.Y % p;
    CongMod(P.X * P.X, p);
    CongMod(P.Y * P.Y, p);
    CongAdd(A, P.X * P.X, B, P.Y * P.Y, p);
    var H, G := (A + B) % p, (A - B) % p;
    var H', G' := P.X * P.X + P.Y * P.Y, P.X * P.X - P.Y * P.Y;
    CongReduce(A + B, H', p);
    CongReduce(A - B, G', p);
    var S := (P.X + P.Y) * (P.X + P.Y);
    CongReduce(S, S, p);
    CongAdd(H, H', S, S, p);
    CongReduce(H - S, H' - S, p);
    var C := 2 * P.Z * P.Z;
    CongReduce(C, C, p);
    CongAdd(C % p, C, G, G', p);
    CongReduce(C % p + G, C + G', p);
    ProductsCong(c, (H - S) % p, (C % p + G) % p, G, H, H' - S, C + G', G', H');
  }

  lemma CongReduce(a: int, b: int, p: int)
    requires p > 0 && Cong(a, b, p)
    ensures Cong(a % p, b, p) && Cong(a, a, p) && Cong(b, b, p)
  {
    CongMod(a, p);
  }

  // ---------------------------------------------------------------- the curve equation

  /** Doubling keeps the curve equation: H^2 = G^2 + E^2 always, and G^2 - F^2 = d E^2 on the curve. */
  lemma DoubleRawOnCurve(c: Curve, P: Point)
    requires c.p > 0 && OnCurve(c, P)
    ensures OnCurve(c, DoubleRaw(P))
  {
    hide Cong;
    var E := P.X * P.X + P.Y * P.Y - (P.X + P.Y) * (P.X + P.Y);
    var G, H := P.X * P.X - P.Y * P.Y, P.X * P.X + P.Y * P.Y;
    var F := 2 * P.Z * P.Z + G;
    DoubleHalves(c, P, E, F, G, H);
    ProductsOnCurve(c, E, F, G, H);
  }

  lemma DoubleHalves(c: Curve, P: Point, E: int, F: int, G: int, H: int)
    requires c.p > 0 && OnCurve(c, P)
    requires E == P.X * P.X + P.Y * P.Y - (P.X + P.Y) * (P.X + P.Y)
    requires G == P.X * P.X - P.Y * P.Y && H == P.X * P.X + P.Y * P.Y && F == 2 * P.Z * P.Z + G
    ensures H * H == G * G + E * E
    ensures Cong(G * G - F * F, c.d * (E * E), c.p)
  {
    HalfSquares(P.X, P.Y);
    hide Cong;
    var ZZ, XY := P.Z * P.Z, P.X * P.Y;
    assert F == 2 * ZZ + G by {
      assert 2 * P.Z * P.Z == 2 * ZZ;
    }
    // G^2 - F^2 = 4 Z^2 (Y^2 - X^2 - Z^2), congruent to 4 d (ZT)^2 and so to 4 d (XY)^2
    SquareOfProduct(P.Z, P.T);
    GapIsSquare(c.d, ZZ, P.T * P.T, P.Y * P.Y - P.X * P.X, XY, P.Z * P.T, c.p);
    GapFromSquares(c, E, F, G, ZZ, P.Y * P.Y - P.X * P.X, XY * XY);
  }

  lemma HalfSquares(x: int, y: int)
    ensures var E, G, H := x * x + y * y - (x + y) * (x + y), x * x - y * y, x * x + y * y;
            H * H == G * G + E * E && E * E == 4 * ((x * y) * (x * y))
  {
    var E := x * x + y * y - (x + y) * (x + y);
    assert E == -2 * (x * y);
    SumAndDifference(x * x, y * y);
    SquareOfProduct(x, y);
  }

  lemma GapFromSquares(c: Curve, E: int, F: int, G: int, ZZ: int, W: int, S: int)
    requires c.p > 0 && F == 2 * ZZ + G && W == -G && E * E == 4 * S
    requires Cong(4 * ZZ * (W - ZZ), 4 * c.d * S, c.p)
    ensures Cong(G * G - F * F, c.d * (E * E), c.p)
  {
    hide Cong;
    SquareGap(G, ZZ);
    assert 4 * c.d * S == c.d * (E * E);
  }

  lemma GapIsSquare(d: int, ZZ: int, TT: int, W: int, XY: int, ZT: int, p: int)
    requires p > 0 && Cong(W, ZZ + d * TT, p) && Cong(XY, ZT, p) && ZT * ZT == ZZ * TT
    ensures Cong(4 * ZZ * (W - ZZ), 4 * d * (XY * XY), p)
  {
    hide Cong;
    Reflexive(ZZ, p);
    Reflexive(4 * ZZ, p);
    Reflexive(4 * d, p);
    CongAdd(W, ZZ + d * TT, ZZ, ZZ, p);
    CongMul(4 * ZZ, 4 * ZZ, W - ZZ, d * TT, p);
    CongMul(XY, ZT, XY, ZT, p);
    CongMul(4 * d, 4 * d, XY * XY, ZT * ZT, p);
    assert 4 * ZZ * (d * TT) == 4 * d * (ZZ * TT);
    CongViaMiddle(4 * ZZ * (W - ZZ), 4 * d * (ZT * ZT), 4 * d * (XY * XY), p);
  }

  lemma CongViaMiddle(a: int, b: int, x: int, p: int)
    requires p > 0 && Cong(a, b, p) && Cong(x, b, p)
    ensures Cong(a, x, p)
  {
  }

  lemma Reflexive(a: int, p: int)
    requires p > 0
    ensures Cong(a, a, p)
  {
  }

  lemma SumAndDifference(a: int, b: int)
    ensures (a + b) * (a + b) == (a - b) * (a - b) + 4 * (a * b)
  {
  }

  lemma SquareGap(g: int, z: int)
    ensures g * g - (2 * z + g) * (2 * z + g) == 4 * z * (-g - z)
  {
  }

  lemma ProductsOnCurve(c: Curve, E: int, F: int, G: int, H: int)
    requires c.p > 0 && H * H == G * G + E * E && Cong(G * G - F * F, c.d * (E * E), c.p)
    ensures OnCurve(c, Products(E, F, G, H))
  {
    hide Cong;
    var p := c.p;
    var EE, FF, GG, HH := E * E, F * F, G * G, H * H;
    SquareOfProduct(G, H);
    SquareOfProduct(E, F);
    SquareOfProduct(F, G);
    SquareOfProduct(E, H);
    // G^2 H^2 - E^2 F^2 = H^2 (G^2 - F^2) + F^2 G^2
    Reflexive(HH, p);
    Reflexive(FF * GG, p);
    CongMul(HH, HH, GG - FF, c.d * EE, p);
    CongAdd(HH * (GG - FF), HH * (c.d * EE), FF * GG, FF * GG, p);
    Distribute(EE, FF, GG, HH);
    assert HH * (c.d * EE) == c.d * (EE * HH);
    assert (E * F) * (G * H) == (F * G) * (E * H);
    Reflexive((E * F) * (G * H), p);
    var sum := c.d * (EE * HH);
    assert sum + FF * GG == FF * GG + sum;
  }

  lemma SquareOfProduct(a: int, b: int)
    ensures (a * b) * (a * b) == (a * a) * (b * b)
  {
  }

  lemma Distribute(EE: int, FF: int, GG: int, HH: int)
    requires HH == GG + EE
    ensures HH * (GG - FF) + FF * GG == GG * HH - EE * FF
  {
    assert HH * (GG - FF) == GG * HH - (GG + EE) * FF;
  }

  // ---------------------------------------------------------------- doubling against addition

  /** On curve points, adding a point to itself gives -4 times the coordinates of the dedicated doubling. */
  lemma SelfAddIsDouble(c: Curve, P: Point)
    requires c.p > 0 && OnCurve(c, P)
    ensures CongPoint(c, AddRaw(c, P, P), Scale(-4, DoubleRaw(P)))
  {
    hide Cong;
    var p, XX, YY, ZZ, TT := c.p, P.X * P.X, P.Y * P.Y, P.Z * P.Z, P.T * P.T;
    var E := XX + YY - (P.X + P.Y) * (P.X + P.Y);
    var G, H := XX - YY, XX + YY;
    var F := 2 * P.Z * P.Z + G;
    var a, b := (P.Y - P.X) * (P.Y - P.X), (P.Y + P.X) * (P.Y + P.X);
    var cc, dd := P.T * 2 * c.d * P.T, P.Z * 2 * P.Z;
    assert b - a == -2 * E && b + a == 2 * H;
    assert cc == 2 * (c.d * TT) && dd == 2 * ZZ;
    Reflexive(2, p);
    Reflexive(4 * ZZ, p);
    Reflexive(-2 * E, p);
    Reflexive(2 * H, p);
    CongMul(2, 2, YY - XX, ZZ + c.d * TT, p);
    CongAdd(4 * ZZ, 4 * ZZ, 2 * (YY - XX), 2 * (ZZ + c.d * TT), p);
    Symmetric(-2 * G, dd + cc, p);
    Symmetric(2 * F, dd - cc, p);
    ProductsCong(c, b - a, dd - cc, dd + cc, b + a, -2 * E, 2 * F, -2 * G, 2 * H);
    ScaledProducts(E, F, G, H);
  }

  lemma Symmetric(a: int, b: int, p: int)
    requires p > 0 && Cong(a, b, p)
    ensures Cong(b, a, p)
  {
  }

  lemma ScaledProducts(E: int, F: int, G: int, H: int)
    ensures Products(-2 * E, 2 * F, -2 * G, 2 * H) == Scale(-4, Products(E, F, G, H))
  {
    assert (-2 * E) * (2 * F) == -4 * (E * F);
    assert (-2 * G) * (2 * H) == -4 * (G * H);
    assert (2 * F) * (-2 * G) == -4 * (F * G);
    assert (-2 * E) * (2 * H) == -4 * (E * H);
  }
}
