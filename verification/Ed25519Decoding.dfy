/**
 What the decoding of ed25519_order.py finds: exactly the points of the curve, one for each accepted
 string, given that p is prime.  Encoding and decoding undo each other.
 */
module Ed25519Decoding {
  import opened MerkleTree
  import opened Octets
  import opened ModArith
  import opened EdwardsCurve
  import opened Fermat
  import opened Ed25519

  /** p is a prime of the form 8q + 5, i squares to -1, and d is not -1. */
  ghost predicate Field(c: Curve) {
    c.p > 5 && c.p % 8 == 5 && Prime(c.p) && Cong(c.i * c.i, -1, c.p) && !Cong(c.d + 1, 0, c.p)
  }

  lemma OddPrime(c: Curve)
    requires Field(c)
    ensures c.p > 5 && c.p % 2 == 1 && Fit(c) && Prime(c.p)
  {
  }

  /** The constants of ed25519_order.py are such, if 2^255 - 19 is prime. */
  lemma ConstantsAreField()
    requires Prime(ED25519.p)
    ensures Field(ED25519)
  {
    ConstantsFit();
    hide Prime;
    var p, d := ED25519.p, ED25519.d;
    if Cong(d + 1, 0, p) {
      CongMul(121666, 121666, d + 1, 0, p);
      CongAdd(121666 * d, -121665, 121666, 121666, p);
      assert 121666 * (d + 1) == 121666 * d + 121666;
      NotZeroBelow(p, 1);
    }
  }

  /** The constants as the source writes them. */
  lemma ConstantsArePowers()
    ensures TWO_255 == Pow(2, 255) && ED25519.p == Pow(2, 255) - 19
    ensures PointOrder.L == Pow(2, 252) + 27742317777372353535851937790883648493
  {
    assert Pow(2, 1) == 2;
    assert Pow(2, 3) == 8;
    assert Pow(2, 7) == 128;
    PowAdd(2, 7, 8);
    assert Pow(2, 8) == 256;
    PowAdd(2, 8, 8);
    PowAdd(2, 16, 15);
    PowAdd(2, 16, 16);
    PowAdd(2, 32, 31);
    PowAdd(2, 32, 32);
    PowAdd(2, 64, 63);
    PowAdd(2, 64, 64);
    PowAdd(2, 128, 127);
    PowAdd(2, 252, 3);
  }

  /** The affine curve equation -x^2 + y^2 = 1 + d x^2 y^2. */
  predicate Equation(c: Curve, x: int, y: int)
    requires c.p > 0
  {
    Cong(y * y - x * x, 1 + c.d * ((x * x) * (y * y)), c.p)
  }

  /** It says that x squared times v is u. */
  lemma EquationIff(c: Curve, x: int, y: int)
    requires c.p > 0
    ensures Equation(c, x, y) <==> Cong(V(c, y) * x * x, U(c, y), c.p)
  {
    hide Cong;
    var p, xx, yy, rhs := c.p, x * x, y * y, c.d * ((x * x) * (y * y)) + x * x;
    if Cong(V(c, y) * x * x, U(c, y), p) {
      RootEquation(c, x, y);
    }
    if Equation(c, x, y) {
      CongMod(yy - 1, p);
      CongMod(c.d * y * y + 1, p);
      Reflexive(xx, p);
      CongMul(V(c, y), c.d * y * y + 1, xx, xx, p);
      Regrouped(V(c, y), x);
      Expanded(c.d, xx, y);
      Reflexive(xx - 1, p);
      CongAdd(yy - xx, 1 + c.d * (xx * yy), xx - 1, xx - 1, p);
      Turn(yy - 1, rhs, p);
      Turn(U(c, y), yy - 1, p);
      Chain(V(c, y) * x * x, rhs, yy - 1, p);
      Chain(V(c, y) * x * x, yy - 1, U(c, y), p);
    }
  }

  // ---------------------------------------------------------------- the candidate root

  lemma {:induction false} ModPowIsPow(b: int, e: nat, m: int)
    requires m > 0
    ensures Cong(ModPow(b, e, m), Pow(b, e), m)
  {
    hide Cong;
    if e == 0 {
      CongMod(1, m);
    } else {
      ModPowIsPow(b, e - 1, m);
      Same(b, m);
      CongMulMod(ModPow(b, e - 1, m), Pow(b, e - 1), b, b, m);
    }
  }

  /** The candidate without reductions. */
  lemma CandidatePower(c: Curve, u: int, v: int)
    requires c.p > 5
    ensures Cong(Candidate(c, u, v), u * Pow(v, 3) * Pow(u * Pow(v, 7), (c.p - 5) / 8), c.p)
  {
    hide Cong, Pow, ModPow;
    var p, h := c.p, (c.p - 5) / 8;
    Same(u, p);
    ModPowIsPow(v, 3, p);
    ModPowIsPow(v, 7, p);
    CongMul(u, u, ModPow(v, 7, p), Pow(v, 7), p);
    ModPowIsPow(u * ModPow(v, 7, p), h, p);
    PowCong(u * ModPow(v, 7, p), u * Pow(v, 7), h, p);
    var q := ModPow(u * ModPow(v, 7, p), h, p);
    Chain(q, Pow(u * ModPow(v, 7, p), h), Pow(u * Pow(v, 7), h), p);
    CongMul(u, u, ModPow(v, 3, p), Pow(v, 3), p);
    CongMulMod(u * ModPow(v, 3, p), u * Pow(v, 3), q, Pow(u * Pow(v, 7), h), p);
  }

  /** v times the square of u v^3 w^h is u w^(2h+1), where w is u v^7. */
  lemma SquaredRoot(u: int, v: int, h: nat)
    ensures var w := u * Pow(v, 7); var r := u * Pow(v, 3) * Pow(w, h); v * r * r == u * Pow(w, 2 * h + 1)
  {
    var w, s := u * Pow(v, 7), Pow(v, 3);
    var q := Pow(w, h);
    SeventhPower(v);
    PowAdd(w, h, h);
    assert Pow(w, 2 * h + 1) == q * q * w by {
      assert h + h == 2 * h && Pow(w, 2 * h + 1) == Pow(w, 2 * h) * w;
    }
    hide Pow;
    SquareTimes(u, v, s, q);
  }

  lemma SeventhPower(v: int)
    ensures Pow(v, 7) == v * (Pow(v, 3) * Pow(v, 3))
  {
    PowAdd(v, 3, 3);
    assert Pow(v, 7) == Pow(v, 6) * v;
  }

  lemma SquareTimes(u: int, v: int, s: int, q: int)
    ensures v * (u * s * q) * (u * s * q) == u * (q * q * (u * (v * (s * s))))
  {
    var a := u * s * q;
    assert a * a == (u * u) * (s * s) * (q * q) by {
      SquareOfProduct(u * s, q);
      SquareOfProduct(u, s);
    }
    var uu, ss, qq := u * u, s * s, q * q;
    assert v * a * a == v * (a * a);
    assert v * (uu * ss * qq) == (u * u) * (qq * (v * ss));
    assert u * (qq * (u * (v * ss))) == (u * u) * (qq * (v * ss));
  }

  /** When u is v times a square, w = u v^7 is a square, and its power 2h + 1 is 1 or -1. */
  lemma PowerOfSquare(c: Curve, u: int, v: int, x: int)
    requires Field(c) && Cong(v * x * x, u, c.p) && !Cong(v, 0, c.p) && !Cong(x, 0, c.p)
    ensures var t := Pow(u * Pow(v, 7), 2 * ((c.p - 5) / 8) + 1); Cong(t, 1, c.p) || Cong(t, -1, c.p)
  {
    var p, h := c.p, (c.p - 5) / 8;
    assert p - 1 == 4 * (2 * h + 1) && Prime(p);
    hide Field, Prime, Cong, Pow;
    var z := (v * v) * (v * v) * x;
    NonZeroProduct(v, v, p);
    NonZeroProduct(v * v, v * v, p);
    NonZeroProduct((v * v) * (v * v), x, p);
    SquareUnder(u, v, x, p);
    SquareToHalf(u * Pow(v, 7), z, 2 * h + 1, p);
  }

  lemma SquareToHalf(w: int, z: int, e: nat, p: int)
    requires p > 1 && Prime(p) && p - 1 == 4 * e && !Cong(z, 0, p) && Cong(w, z * z, p)
    ensures Cong(Pow(w, e), 1, p) || Cong(Pow(w, e), -1, p)
  {
    HalfPower(z, p);
    assert Pow(z, 2) == z * z by {
      assert Pow(z, 1) == z;
    }
    hide Prime, Cong, Pow;
    PowCong(w, z * z, e, p);
    PowMul(z, 2, e);
    assert (p - 1) / 2 == 2 * e;
    Chain2(Pow(w, e), Pow(z, 2 * e), 1, -1, p);
  }

  lemma Chain2(a: int, b: int, x: int, y: int, p: int)
    requires p > 0 && Cong(a, b, p) && (Cong(b, x, p) || Cong(b, y, p))
    ensures Cong(a, x, p) || Cong(a, y, p)
  {
  }

  lemma NonZeroProduct(a: int, b: int, p: int)
    requires p > 1 && Prime(p) && !Cong(a, 0, p) && !Cong(b, 0, p)
    ensures !Cong(a * b, 0, p)
  {
    hide Prime, Cong;
    if Cong(a * b, 0, p) {
      NoZeroDivisors(p, a, b);
    }
  }

  lemma SquareUnder(u: int, v: int, x: int, p: int)
    requires p > 0 && Cong(v * x * x, u, p)
    ensures var z := (v * v) * (v * v) * x; Cong(u * Pow(v, 7), z * z, p)
  {
    Turn(v * x * x, u, p);
    Same(Pow(v, 7), p);
    CongMul(u, v * x * x, Pow(v, 7), Pow(v, 7), p);
    SeventhPower(v);
    ThirdPower(v);
    hide Cong, Pow;
    Collected(v, x);
  }

  lemma ThirdPower(v: int)
    ensures Pow(v, 3) == v * v * v
  {
    assert Pow(v, 1) == v;
    assert Pow(v, 2) == v * v;
  }

  lemma Collected(v: int, x: int)
    ensures var v3, z := v * v * v, (v * v) * (v * v) * x; (v * x * x) * (v * (v3 * v3)) == z * z
  {
    var v2, v3, v4, xx := v * v, v * v * v, (v * v) * (v * v), x * x;
    SquareOfProduct(v4, x);
    assert v3 * v3 == v2 * v4 by {
      SquareOfProduct(v2, v);
      assert v3 == v2 * v && v2 * v2 == v4;
      assert v4 * v2 == v2 * v4;
    }
    assert v * x * x == v * xx;
    assert (v * xx) * (v * (v2 * v4)) == (v * v) * (v2 * v4) * xx;
    assert v2 * (v2 * v4) == v4 * v4;
  }

  /** v times the square of the candidate. */
  lemma CandidateSquare(c: Curve, u: int, v: int)
    requires c.p > 5
    ensures var r := Candidate(c, u, v); Cong(v * r * r, u * Pow(u * Pow(v, 7), 2 * ((c.p - 5) / 8) + 1), c.p)
  {
    var p, h, r := c.p, (c.p - 5) / 8, Candidate(c, u, v);
    var root := u * Pow(v, 3) * Pow(u * Pow(v, 7), h);
    CandidatePower(c, u, v);
    SquaredRoot(u, v, h);
    Same(v, p);
    hide Candidate, Cong, Pow;
    CongMul(v, v, r, root, p);
    CongMul(v * r, v * root, r, root, p);
  }

  /** If u is v times a square, v times the square of the candidate is u or -u. */
  lemma CandidateSquares(c: Curve, u: int, v: int, x: int)
    requires Field(c) && Cong(v * x * x, u, c.p) && !Cong(v, 0, c.p)
    ensures var r := Candidate(c, u, v); Cong(v * r * r, u, c.p) || Cong(v * r * r, -u, c.p)
  {
    var p, h, r := c.p, (c.p - 5) / 8, Candidate(c, u, v);
    var t := Pow(u * Pow(v, 7), 2 * h + 1);
    CandidateSquare(c, u, v);
    hide Candidate, Cong, Prime, Pow;
    Same(u, p);
    if Cong(x, 0, p) {
      ZeroSquare(v, x, u, p);
      Same(t, p);
      CongMul(u, 0, t, t, p);
      Turn(u, 0, p);
      Chain(u * t, 0, u, p);
      Chain(v * r * r, u * t, u, p);
    } else {
      PowerOfSquare(c, u, v, x);
      if Cong(t, 1, p) {
        CongMul(u, u, t, 1, p);
        Chain(v * r * r, u * t, u, p);
      } else {
        CongMul(u, u, t, -1, p);
        Chain(v * r * r, u * t, -u, p);
      }
    }
  }

  lemma ZeroSquare(v: int, x: int, u: int, p: int)
    requires p > 0 && Cong(v * x * x, u, p) && Cong(x, 0, p)
    ensures Cong(u, 0, p)
  {
    Same(v * x, p);
    CongMul(v * x, v * x, x, 0, p);
    hide Cong;
    Turn(v * x * x, u, p);
    Chain(u, v * x * x, 0, p);
  }

  /** If v and u are zero, d is -1: d y^2 + 1 - d (y^2 - 1) is d + 1. */
  lemma BothZero(c: Curve, y: int)
    requires c.p > 0 && Cong(V(c, y), 0, c.p) && Cong(U(c, y), 0, c.p)
    ensures Cong(c.d + 1, 0, c.p)
  {
    hide Cong;
    var p, v, u, yy := c.p, V(c, y), U(c, y), y * y;
    CongMod(yy - 1, p);
    Turn(u, yy - 1, p);
    Chain(yy - 1, u, 0, p);
    CongMod(c.d * y * y + 1, p);
    Turn(v, c.d * y * y + 1, p);
    Chain(c.d * y * y + 1, v, 0, p);
    Same(c.d, p);
    CongMul(c.d, c.d, yy - 1, 0, p);
    CongAdd(c.d * y * y + 1, 0, c.d * (yy - 1), 0, p);
    assert c.d * y * y + 1 - c.d * (yy - 1) == c.d + 1;
  }

  lemma ZeroDenominator(v: int, x: int, u: int, p: int)
    requires p > 0 && Cong(v * x * x, u, p) && Cong(v, 0, p)
    ensures Cong(u, 0, p)
  {
    hide Cong;
    Same(x * x, p);
    CongMul(v, 0, x * x, x * x, p);
    Regrouped(v, x);
    Turn(v * x * x, u, p);
    Chain(u, v * x * x, 0, p);
  }

  /** No point of the curve makes v zero, since d is not -1. */
  lemma DenominatorNotZero(c: Curve, x: int, y: int)
    requires Field(c) && Equation(c, x, y)
    ensures !Cong(V(c, y), 0, c.p)
  {
    EquationIff(c, x, y);
    hide Prime, Cong, U, V, Equation;
    if Cong(V(c, y), 0, c.p) {
      ZeroDenominator(V(c, y), x, U(c, y), c.p);
      BothZero(c, y);
    }
  }

  // ---------------------------------------------------------------- decoding finds exactly the points

  /** With one parity, y has one x. */
  lemma OneRoot(c: Curve, x: int, x': int, y: int)
    requires Field(c) && Equation(c, x, y) && Equation(c, x', y)
    requires 0 <= x < c.p && 0 <= x' < c.p && x % 2 == x' % 2
    ensures x == x'
  {
    OddPrime(c);
    EquationIff(c, x, y);
    EquationIff(c, x', y);
    DenominatorNotZero(c, x, y);
    hide Field, Fit, Prime, Cong, Equation, U, V;
    SameSquares(V(c, y), x, x', U(c, y), c.p);
    SameParity(x, x', c.p);
  }

  lemma SameParity(x: int, x': int, p: int)
    requires p % 2 == 1 && 0 <= x < p && 0 <= x' < p && x % 2 == x' % 2
    requires Cong(x - x', 0, p) || Cong(x + x', 0, p)
    ensures x == x'
  {
    if Cong(x - x', 0, p) {
      SmallMultiple(x - x', p);
    } else {
      SmallMultiple(x + x', p);
      Halves(x, x', p);
    }
  }

  lemma Halves(x: int, x': int, p: int)
    requires p % 2 == 1 && x % 2 == x' % 2
    ensures x + x' != p
  {
  }

  lemma SameSquares(v: int, x: int, x': int, u: int, p: int)
    requires p > 1 && Prime(p) && !Cong(v, 0, p) && Cong(v * x * x, u, p) && Cong(v * x' * x', u, p)
    ensures Cong(x - x', 0, p) || Cong(x + x', 0, p)
  {
    hide Prime, Cong;
    CongAdd(v * x * x, u, v * x' * x', u, p);
    DifferenceOfSquares(v, x, x');
    NoZeroDivisors(p, v, (x - x') * (x + x'));
    NoZeroDivisors(p, x - x', x + x');
  }

  lemma DifferenceOfSquares(v: int, x: int, x': int)
    ensures v * x * x - v * x' * x' == v * ((x - x') * (x + x'))
  {
    assert (x - x') * (x + x') == x * x - x' * x';
    Regrouped(v, x);
    Regrouped(v, x');
    assert v * (x * x - x' * x') == v * (x * x) - v * (x' * x');
  }

  lemma SmallMultiple(a: int, p: int)
    requires p > 0 && -p < a < 2 * p && Cong(a, 0, p)
    ensures a == 0 || a == p
  {
    var k := QuotientOfCong(a, 0, p);
    MultipleGrows(k, p);
    MultipleGrows(k - 2, p);
  }

  /** The point with this y and parity of x, written out: x reduced, z = 1 and t = x y. */
  predicate PointOf(c: Curve, y: int, sign: int, P: Point)
    requires c.p > 0
  {
    P.Y == y && 0 <= P.X < c.p && P.X % 2 == sign && P.Z == 1 && P.T == P.X * y % c.p && Equation(c, P.X, y)
  }

  /** The point that 32 octets stand for: y below p in the low 255 bits, the parity of x in the top bit. */
  predicate StandsFor(c: Curve, enc: Bytes, P: Point)
    requires c.p > 0
  {
    && |enc| == 32 && FromLittle(enc) % TWO_255 < c.p
    && PointOf(c, FromLittle(enc) % TWO_255, FromLittle(enc) / TWO_255, P)
  }

  /** The root that decode goes on with. */
  lemma RootUsed(c: Curve, y: int, sign: int) returns (x: int)
    requires Fit(c)
    requires var u, v := U(c, y), V(c, y);
             var r := Candidate(c, u, v);
             Recover(c, y, sign).Some? || Cong(v * r * r, u, c.p) || Cong(v * r * r, -u, c.p)
    ensures 0 <= x < c.p && Cong(V(c, y) * x * x, U(c, y), c.p) && Recover(c, y, sign) == WithSign(c, x, y, sign)
  {
    hide Candidate, Cong, WithSign, U, V;
    var p := c.p;
    var u, v := U(c, y), V(c, y);
    var r := Candidate(c, u, v);
    UBounds(c, y);
    CandidateBounds(c, u, v);
    RootTests(c, u, v, r);
    Residue(v * r * r, u, p);
    if v * r * r % p == u {
      x := r;
    } else {
      x := r * c.i % p;
      CongMod(r * c.i, p);
      CongIff(v * x * x, u, p);
    }
  }

  lemma CandidateBounds(c: Curve, u: int, v: int)
    requires c.p > 5
    ensures 0 <= Candidate(c, u, v) < c.p
  {
    hide ModPow;
  }

  /** The last steps keep the root or take its negative. */
  lemma SignedRoot(c: Curve, x: int, y: int, sign: int)
    requires c.p > 0 && c.p % 2 == 1 && 0 <= x < c.p && 0 <= sign <= 1 && Cong(V(c, y) * x * x, U(c, y), c.p)
    ensures WithSign(c, x, y, sign).None? <==> x == 0 && sign == 1
    ensures WithSign(c, x, y, sign).Some? ==> PointOf(c, y, sign, WithSign(c, x, y, sign).value)
  {
    SignCases(c, x, y, sign);
    EitherRoot(c, x, y);
    hide Cong, U, V, Equation, WithSign;
    if !(x == 0 && sign == 1) {
      Flipped(c.p, x, sign);
    }
  }

  lemma EitherRoot(c: Curve, x: int, y: int)
    requires c.p > 0 && Cong(V(c, y) * x * x, U(c, y), c.p)
    ensures Equation(c, x, y) && Equation(c, c.p - x, y)
  {
    hide Cong, U, V, Equation;
    NegatedRoot(c, x, U(c, y), V(c, y));
    EquationIff(c, x, y);
    EquationIff(c, c.p - x, y);
  }

  /** Of x and p - x, one has the asked parity. */
  lemma Flipped(p: int, x: int, sign: int)
    requires p % 2 == 1 && 0 <= x < p && 0 <= sign <= 1 && !(x == 0 && sign == 1)
    ensures var x' := if x % 2 != sign then p - x else x; 0 <= x' < p && x' % 2 == sign
  {
  }

  lemma FitIsOdd(c: Curve)
    requires Fit(c)
    ensures c.p > 5 && c.p % 2 == 1
  {
  }

  lemma RecoveredIsPoint(c: Curve, y: int, sign: int)
    requires Fit(c) && 0 <= sign <= 1 && Recover(c, y, sign).Some?
    ensures PointOf(c, y, sign, Recover(c, y, sign).value)
  {
    FitIsOdd(c);
    hide Candidate, Cong, U, V, WithSign, PointOf, Recover, Fit;
    var x := RootUsed(c, y, sign);
    SignedRoot(c, x, y, sign);
  }

  lemma PointIsRecovered(c: Curve, y: int, sign: int, P: Point)
    requires Field(c) && 0 <= sign <= 1 && PointOf(c, y, sign, P)
    ensures Recover(c, y, sign).Some?
  {
    OddPrime(c);
    RootIsThere(c, y, sign, P);
    hide Candidate, Cong, U, V, WithSign, PointOf, Field, Fit, Recover;
    var x := RootUsed(c, y, sign);
    SignedRoot(c, x, y, sign);
    if x == 0 {
      OnlyZeroRoot(c, y, sign, P);
    }
  }

  lemma RootIsThere(c: Curve, y: int, sign: int, P: Point)
    requires Field(c) && PointOf(c, y, sign, P)
    ensures var u, v := U(c, y), V(c, y);
            var r := Candidate(c, u, v);
            Cong(v * r * r, u, c.p) || Cong(v * r * r, -u, c.p)
  {
    hide Candidate, Cong, Prime;
    EquationIff(c, P.X, y);
    DenominatorNotZero(c, P.X, y);
    hide U, V, Equation;
    CandidateSquares(c, U(c, y), V(c, y), P.X);
  }

  /** If 0 is a root, it is the only one. */
  lemma OnlyZeroRoot(c: Curve, y: int, sign: int, P: Point)
    requires Field(c) && PointOf(c, y, sign, P) && Cong(V(c, y) * 0 * 0, U(c, y), c.p)
    ensures P.X == 0 && sign == 0
  {
    var p, v, u, x := c.p, V(c, y), U(c, y), P.X;
    EquationIff(c, x, y);
    DenominatorNotZero(c, x, y);
    hide Cong, Equation, Prime;
    Turn(v * 0 * 0, u, p);
    Chain(v * x * x, u, 0, p);
    NoZeroDivisors(p, v * x, x);
    if Cong(v * x, 0, p) {
      NoZeroDivisors(p, v, x);
    }
    SmallMultiple(x, p);
  }

  /**
   A string decodes to a point exactly when it stands for it: every point of the curve is found, and
   nothing else.
   */
  lemma DecodeExactly(c: Curve, enc: Bytes, P: Point)
    requires Field(c)
    ensures Decode(c, enc) == Some(P) <==> StandsFor(c, enc, P)
  {
    hide FromLittle, Recover, PointOf, Prime, Cong;
    if |enc| == 32 {
      SignIsBit(enc);
      var n := FromLittle(enc);
      RecoverExactly(c, n % TWO_255, n / TWO_255, P);
    }
  }

  lemma SignIsBit(enc: Bytes)
    requires |enc| == 32
    ensures 0 <= FromLittle(enc) / TWO_255 <= 1
  {
    SignBit(enc);
  }

  lemma RecoverExactly(c: Curve, y: int, sign: int, P: Point)
    requires Field(c) && 0 <= sign <= 1
    ensures Recover(c, y, sign) == Some(P) <==> PointOf(c, y, sign, P)
  {
    hide Recover, PointOf, Cong, Prime;
    if PointOf(c, y, sign, P) {
      PointIsRecovered(c, y, sign, P);
    }
    if Recover(c, y, sign).Some? {
      RecoveredIsPoint(c, y, sign);
      if PointOf(c, y, sign, P) {
        OnePoint(c, y, sign, P, Recover(c, y, sign).value);
      }
    }
  }

  /** Nothing is recovered for the even sign exactly when no x makes a point with this y. */
  lemma NoPointExactly(c: Curve, y: int)
    requires Field(c)
    ensures Recover(c, y, 0).None? <==> forall x :: !Equation(c, x, y)
  {
    hide Recover, Cong, Prime;
    if Recover(c, y, 0).Some? {
      RecoverExactly(c, y, 0, Recover(c, y, 0).value);
      assert Equation(c, Recover(c, y, 0).value.X, y);
    }
    forall x | Equation(c, x, y) ensures Recover(c, y, 0).Some? {
      var P := EvenPoint(c, x, y);
      RecoverExactly(c, y, 0, P);
    }
  }

  lemma EvenPoint(c: Curve, x: int, y: int) returns (P: Point)
    requires Field(c) && Equation(c, x, y)
    ensures PointOf(c, y, 0, P)
  {
    var p := c.p;
    OddPrime(c);
    hide Cong, Prime, U, V, Field, Fit;
    EquationIff(c, x, y);
    CongMod(x, p);
    SquaresAgree(c, x % p, x, y);
    EitherRoot(c, x % p, y);
    hide Equation;
    Flipped(p, x % p, 0);
    var even := if x % p % 2 != 0 then p - x % p else x % p;
    P := Point(even, y, 1, even * y % p);
  }

  lemma SquaresAgree(c: Curve, x': int, x: int, y: int)
    requires c.p > 0 && Cong(x', x, c.p) && Cong(V(c, y) * x * x, U(c, y), c.p)
    ensures Cong(V(c, y) * x' * x', U(c, y), c.p)
  {
    hide Cong, U, V;
    var p, v := c.p, V(c, y);
    Same(v, p);
    CongMul(v, v, x', x, p);
    CongMul(v * x', v * x, x', x, p);
    Chain(v * x' * x', v * x * x, U(c, y), p);
  }

  lemma OnePoint(c: Curve, y: int, sign: int, P: Point, Q: Point)
    requires Field(c) && PointOf(c, y, sign, P) && PointOf(c, y, sign, Q)
    ensures P == Q
  {
    hide Cong, Prime, Equation;
    OneRoot(c, P.X, Q.X, y);
  }

  // ---------------------------------------------------------------- encoding

  /** n.to_bytes(k, "little"). */
  function ToLittle(n: nat, k: nat): (b: Bytes)
    ensures |b| == k
    decreases k
  {
    if k == 0 then [] else [(n % 256) as byte] + ToLittle(n / 256, k - 1)
  }

  /** The lowest octet comes first. */
  lemma {:induction false} LowestFirst(b: Bytes)
    requires b != []
    ensures FromLittle(b) == b[0] as int + 256 * FromLittle(b[1..])
  {
    if |b| > 1 {
      var n := |b| - 1;
      LowestFirst(b[..n]);
      assert b[..n][1..] == b[1..][..n - 1];
      var low, w, top := FromLittle(b[1..][..n - 1]), Pow256(n - 1), b[n] as int;
      assert Pow256(n) * top == 256 * (w * top);
    }
  }

  lemma {:induction false} LittleRoundTrip(n: nat, k: nat)
    requires n < Pow256(k)
    ensures FromLittle(ToLittle(n, k)) == n
    decreases k
  {
    if k > 0 {
      LittleRoundTrip(n / 256, k - 1);
      LowestFirst(ToLittle(n, k));
    }
  }

  lemma {:induction false} LittleReads(b: Bytes)
    ensures ToLittle(FromLittle(b), |b|) == b
  {
    if b != [] {
      LittleReads(b[1..]);
      LowestFirst(b);
      hide FromLittle;
      LowOctet(b[0] as int, FromLittle(b[1..]));
    }
  }

  lemma LowOctet(low: int, rest: int)
    requires 0 <= low < 256
    ensures (low + 256 * rest) % 256 == low && (low + 256 * rest) / 256 == rest
  {
  }

  /** encode. */
  function Encode(c: Curve, P: Point): Bytes
    requires c.p > 5
  {
    var zi := ModPow(P.Z, c.p - 2, c.p);
    var x, y := P.X * zi % c.p, P.Y * zi % c.p;
    ToLittle(y + x % 2 * TWO_255, 32)
  }

  /** z^(p-2) is the inverse of z. */
  lemma InverseOf(z: int, p: int)
    requires p > 1 && Prime(p) && !Cong(z, 0, p)
    ensures Cong(z * ModPow(z, p - 2, p), 1, p)
  {
    LittleTheorem(z, p);
    PowStep(z, p - 1);
    ModPowIsPow(z, p - 2, p);
    hide Prime, Cong, Pow, ModPow;
    var zi := ModPow(z, p - 2, p);
    Same(z, p);
    CongMul(z, z, zi, Pow(z, p - 2), p);
    Chain(z * zi, z * Pow(z, p - 2), 1, p);
  }

  lemma PowStep(b: int, e: nat)
    requires e > 0
    ensures Pow(b, e) == b * Pow(b, e - 1)
  {
  }

  /** Divided by z, a point of the curve satisfies the affine equation. */
  lemma DividedOnCurve(c: Curve, P: Point, zi: int)
    requires c.p > 0 && OnCurve(c, P) && Cong(P.Z * zi, 1, c.p)
    ensures Equation(c, P.X * zi % c.p, P.Y * zi % c.p)
    ensures Cong(P.X * zi % c.p * P.Z, P.X, c.p) && Cong(P.Y * zi % c.p * P.Z, P.Y, c.p)
  {
    hide Cong, OnCurve;
    var p := c.p;
    var x, y := P.X * zi % p, P.Y * zi % p;
    ScaledOnCurve(c, zi, P);
    CongMod(P.X * zi, p);
    CongMod(P.Y * zi, p);
    Same(zi * P.T, p);
    Turn(P.Z * zi, 1, p);
    assert P.X * zi == zi * P.X && P.Y * zi == zi * P.Y && P.Z * zi == zi * P.Z;
    var R := Point(x, y, 1, zi * P.T);
    assert CongPoint(c, R, Scale(zi, P));
    CongOnCurve(c, R, Scale(zi, P));
    AffineEquation(c, R);
    Multiplied(P.X, zi, P.Z, p);
    Multiplied(P.Y, zi, P.Z, p);
  }

  lemma Multiplied(a: int, zi: int, z: int, p: int)
    requires p > 0 && Cong(z * zi, 1, p)
    ensures Cong(a * zi % p * z, a, p)
  {
    hide Cong;
    CongMod(a * zi, p);
    Same(z, p);
    CongMul(a * zi % p, a * zi, z, z, p);
    Same(a, p);
    CongMul(a, a, z * zi, 1, p);
    assert (a * zi) * z == a * (z * zi);
    Chain(a * zi % p * z, a * (z * zi), a, p);
  }

  lemma AffineEquation(c: Curve, R: Point)
    requires c.p > 0 && OnCurve(c, R) && R.Z == 1
    ensures Equation(c, R.X, R.Y)
  {
    hide Cong;
    var p, t, xy := c.p, R.T, R.X * R.Y;
    assert R.Z * t == t && R.Z * R.Z == 1;
    Turn(xy, t, p);
    CongMul(t, xy, t, xy, p);
    Same(c.d, p);
    CongMul(c.d, c.d, t * t, xy * xy, p);
    Same(1, p);
    CongAdd(1, 1, c.d * (t * t), c.d * (xy * xy), p);
    SquareOfProduct(R.X, R.Y);
    Chain(R.Y * R.Y - R.X * R.X, 1 + c.d * (t * t), 1 + c.d * (xy * xy), p);
  }

  lemma ScaledOnCurve(c: Curve, k: int, P: Point)
    requires c.p > 0 && OnCurve(c, P)
    ensures OnCurve(c, Scale(k, P))
  {
    hide Cong;
    var p, kk := c.p, k * k;
    var XX, YY, ZZ, TT := P.X * P.X, P.Y * P.Y, P.Z * P.Z, P.T * P.T;
    Same(kk, p);
    CongMul(kk, kk, YY - XX, ZZ + c.d * TT, p);
    CongMul(kk, kk, P.X * P.Y, P.Z * P.T, p);
    SquareOfProduct(k, P.X);
    SquareOfProduct(k, P.Y);
    SquareOfProduct(k, P.Z);
    SquareOfProduct(k, P.T);
    Interchange(k, k, P.X, P.Y);
    Interchange(k, k, P.Z, P.T);
    Distributed(kk, XX, YY);
    Scaled2(kk, ZZ, c.d, TT);
  }

  lemma Distributed(k: int, a: int, b: int)
    ensures k * (b - a) == k * b - k * a
  {
  }

  lemma Scaled2(k: int, a: int, d: int, b: int)
    ensures k * (a + d * b) == k * a + d * (k * b)
  {
  }

  lemma BitAbove(y: nat, bit: nat)
    requires y < TWO_255 && bit <= 1
    ensures var n := y + bit * TWO_255; n % TWO_255 == y && n / TWO_255 == bit && n < Pow256(32)
  {
    Two255IsPower();
    assert Pow256(32) == 256 * Pow256(31);
  }

  lemma StandsAs(c: Curve, enc: Bytes, y: int, bit: int, Q: Point)
    requires c.p > 0 && |enc| == 32 && FromLittle(enc) % TWO_255 == y && FromLittle(enc) / TWO_255 == bit
    requires y < c.p && PointOf(c, y, bit, Q)
    ensures StandsFor(c, enc, Q)
  {
    hide FromLittle, PointOf;
  }

  lemma WrittenDecodes(c: Curve, n: nat, y: int, bit: int, Q: Point)
    requires Field(c) && n < Pow256(32) && n % TWO_255 == y && n / TWO_255 == bit
    requires y < c.p && PointOf(c, y, bit, Q)
    ensures Decode(c, ToLittle(n, 32)) == Some(Q)
  {
    assert c.p > 5;
    hide *;
    LittleRoundTrip(n, 32);
    StandsAs(c, ToLittle(n, 32), y, bit, Q);
    DecodeExactly(c, ToLittle(n, 32), Q);
  }

  /** x y z is t when x z, y z and z t stand for X, Y and X Y. */
  lemma QuotientT(c: Curve, P: Point, x: int, y: int)
    requires c.p > 1 && Prime(c.p) && !Cong(P.Z, 0, c.p) && OnCurve(c, P)
    requires Cong(x * P.Z, P.X, c.p) && Cong(y * P.Z, P.Y, c.p)
    ensures Cong(x * y % c.p * P.Z, P.T, c.p)
  {
    hide Prime, Cong;
    var p, z, t := c.p, P.Z, x * y % c.p;
    CongMod(x * y, p);
    Same(z * z, p);
    CongMul(t, x * y, z * z, z * z, p);
    Interchange(x, y, z, z);
    CongMul(x * z, P.X, y * z, P.Y, p);
    Chain(t * (z * z), (x * z) * (y * z), P.X * P.Y, p);
    Chain(t * (z * z), P.X * P.Y, z * P.T, p);
    assert t * (z * z) == (t * z) * z && z * P.T == P.T * z;
    Cancel(t * z, P.T, z, p);
  }

  /** The point with z = 1 that is encoded. */
  lemma Divided(c: Curve, P: Point) returns (Q: Point)
    requires Field(c) && OnCurve(c, P) && !Cong(P.Z, 0, c.p)
    ensures 0 <= Q.Y < c.p && Q.Z == 1 && PointOf(c, Q.Y, Q.X % 2, Q)
    ensures Encode(c, P) == ToLittle(Q.Y + Q.X % 2 * TWO_255, 32)
    ensures Cong(Q.X * P.Z, P.X, c.p) && Cong(Q.Y * P.Z, P.Y, c.p) && Cong(Q.T * P.Z, P.T, c.p)
  {
    OddPrime(c);
    var p, zi := c.p, ModPow(P.Z, c.p - 2, c.p);
    InverseOf(P.Z, p);
    EncodeParts(c, P, zi);
    hide Field, Fit, Prime, Cong, OnCurve, ModPow, Equation, ToLittle, Encode;
    DividedOnCurve(c, P, zi);
    var x, y := P.X * zi % p, P.Y * zi % p;
    Reduced(P.X * zi, p);
    Reduced(P.Y * zi, p);
    QuotientT(c, P, x, y);
    Q := Point(x, y, 1, x * y % p);
  }

  lemma EncodeParts(c: Curve, P: Point, zi: int)
    requires c.p > 5 && zi == ModPow(P.Z, c.p - 2, c.p)
    ensures 0 <= P.Y * zi % c.p && 0 <= P.X * zi % c.p
    ensures Encode(c, P) == ToLittle(P.Y * zi % c.p + P.X * zi % c.p % 2 * TWO_255, 32)
  {
    hide ToLittle, ModPow;
  }

  lemma Reduced(a: int, p: int)
    requires p > 0
    ensures 0 <= a % p < p
  {
  }

  /** Encoding a point of the curve and decoding gives the same point with z = 1. */
  lemma DecodeEncode(c: Curve, P: Point)
    requires Field(c) && c.p <= TWO_255 && OnCurve(c, P) && !Cong(P.Z, 0, c.p)
    ensures var r := Decode(c, Encode(c, P));
            && r.Some? && r.value.Z == 1
            && Cong(r.value.X * P.Z, P.X, c.p) && Cong(r.value.Y * P.Z, P.Y, c.p)
            && Cong(r.value.T * P.Z, P.T, c.p)
  {
    hide *;
    var Q := Divided(c, P);
    AffineDecodes(c, Q.Y, Q.X % 2, Q);
  }

  lemma AffineDecodes(c: Curve, y: nat, bit: nat, Q: Point)
    requires Field(c) && y < c.p <= TWO_255 && bit <= 1 && PointOf(c, y, bit, Q)
    ensures Decode(c, ToLittle(y + bit * TWO_255, 32)) == Some(Q)
  {
    hide Field, PointOf, Decode, ToLittle, FromLittle, Pow256;
    BitAbove(y, bit);
    WrittenDecodes(c, y + bit * TWO_255, y, bit, Q);
  }

  /** A string that decodes is the encoding of its point. */
  lemma EncodeDecode(c: Curve, enc: Bytes)
    requires Field(c) && Decode(c, enc).Some?
    ensures Encode(c, Decode(c, enc).value) == enc
  {
    var P := Decode(c, enc).value;
    DecodeExactly(c, enc, P);
    assert c.p > 5;
    hide Field, Prime, Cong, Decode, Equation, FromLittle, ToLittle, Encode;
    LittleReads(enc);
    EncodeAffine(c, P, FromLittle(enc));
  }

  lemma EncodeAffine(c: Curve, P: Point, n: nat)
    requires c.p > 5 && P.Z == 1 && 0 <= P.X < c.p && 0 <= P.Y < c.p
    requires n % TWO_255 == P.Y && n / TWO_255 == P.X % 2
    ensures Encode(c, P) == ToLittle(n, 32)
  {
    OneToAnyPower(c.p - 2, c.p);
    OneKeeps(P.X, c.p);
    OneKeeps(P.Y, c.p);
    Recomposed(n);
    hide ToLittle, ModPow;
  }

  lemma Recomposed(n: nat)
    ensures n == n % TWO_255 + n / TWO_255 * TWO_255
  {
  }

  lemma OneKeeps(x: int, p: int)
    requires 0 <= x < p
    ensures x * 1 % p == x
  {
    QuotientIs(x, p, 0, x);
  }

  lemma {:induction false} OneToAnyPower(e: nat, p: int)
    requires p > 1
    ensures ModPow(1, e, p) == 1
  {
    if e > 0 {
      OneToAnyPower(e - 1, p);
    }
  }

  // ---------------------------------------------------------------- what the arithmetic means

  /** On curve points with z not zero, is_neutral holds of the neutral point only. */
  lemma NeutralExactly(c: Curve, P: Point)
    requires c.p > 1 && OnCurve(c, P) && Unit(P.Z, c.p)
    ensures IsNeutral(c, P) <==> Projective(c, P, NEUTRAL)
  {
    var p := c.p;
    if IsNeutral(c, P) {
      CongIff(P.Y, P.Z, p);
      ZeroResidue(P.X, p);
      CongMul(P.X, 0, P.Y, P.Y, p);
      Turn(P.X * P.Y, P.Z * P.T, p);
      Chain(P.Z * P.T, P.X * P.Y, 0, p);
      UnitKeepsZero(P.Z, P.T, p);
      assert CongPoint(c, P, Scale(P.Z, NEUTRAL));
    }
    if Projective(c, P, NEUTRAL) {
      NeutralUpToUnit(c, P, NEUTRAL);
      assert IsNeutral(c, NEUTRAL);
    }
  }

  /**
   The addition law of a twisted Edwards curve, with denominators cleared: x3 (1 + d x1 x2 y1 y2) is
   x1 y2 + y1 x2, and y3 (1 - d x1 x2 y1 y2) is y1 y2 + x1 x2.
   */
  lemma AdditionLaw(c: Curve, P: Point, Q: Point)
    requires c.p > 0
    ensures var R, z, t := Add(c, P, Q), P.Z * Q.Z, c.d * (P.T * Q.T);
            && Cong(R.X * (z + t), R.Z * (P.X * Q.Y + P.Y * Q.X), c.p)
            && Cong(R.Y * (z - t), R.Z * (P.Y * Q.Y + P.X * Q.X), c.p)
            && Cong(R.X * R.Y, R.Z * R.T, c.p)
  {
    hide Cong;
    var R, S, z, t := Add(c, P, Q), AddRaw(c, P, Q), P.Z * Q.Z, c.d * (P.T * Q.T);
    var e, h := P.X * Q.Y + P.Y * Q.X, P.Y * Q.Y + P.X * Q.X;
    ReflexivePoint(c, P);
    ReflexivePoint(c, Q);
    AddIsRaw(c, P, Q, P, Q);
    RawFactors(c, P, Q);
    hide Add, AddRaw;
    Same(z + t, c.p);
    Same(z - t, c.p);
    Same(e, c.p);
    Same(h, c.p);
    CongMul(R.X, S.X, z + t, z + t, c.p);
    CongMul(R.Y, S.Y, z - t, z - t, c.p);
    CongMul(R.Z, S.Z, e, e, c.p);
    CongMul(R.Z, S.Z, h, h, c.p);
    CongMul(R.X, S.X, R.Y, S.Y, c.p);
    CongMul(R.Z, S.Z, R.T, S.T, c.p);
    FourFactors(e, z - t, z + t, h);
    CongViaMiddle(R.X * (z + t), S.X * (z + t), R.Z * e, c.p);
    CongViaMiddle(R.Y * (z - t), S.Y * (z - t), R.Z * h, c.p);
    CongViaMiddle(R.X * R.Y, S.X * S.Y, R.Z * R.T, c.p);
  }

  /** The unreduced sum, by its four factors. */
  lemma RawFactors(c: Curve, P: Point, Q: Point)
    ensures var e, f := P.X * Q.Y + P.Y * Q.X, P.Z * Q.Z - c.d * (P.T * Q.T);
            var g, h := P.Z * Q.Z + c.d * (P.T * Q.T), P.Y * Q.Y + P.X * Q.X;
            AddRaw(c, P, Q) == Point(4 * (e * f), 4 * (g * h), 4 * (f * g), 4 * (e * h))
  {
    var e, h := P.X * Q.Y + P.Y * Q.X, P.Y * Q.Y + P.X * Q.X;
    var z, t := P.Z * Q.Z, c.d * (P.T * Q.T);
    CrossProducts(P.X, P.Y, Q.X, Q.Y);
    TimesTwo(P.T, Q.T, c.d);
    TimesTwo(P.Z, Q.Z, 1);
    ScaledFactors(2, e, z - t, z + t, h);
  }

  lemma CrossProducts(x1: int, y1: int, x2: int, y2: int)
    ensures (y1 + x1) * (y2 + x2) - (y1 - x1) * (y2 - x2) == 2 * (x1 * y2 + y1 * x2)
    ensures (y1 + x1) * (y2 + x2) + (y1 - x1) * (y2 - x2) == 2 * (y1 * y2 + x1 * x2)
  {
  }

  lemma TimesTwo(a: int, b: int, d: int)
    ensures a * 2 * d * b == 2 * (d * (a * b)) && a * 2 * b == 2 * (a * b)
  {
    assert a * 2 * d * b == (2 * d) * (a * b);
  }

  lemma FourFactors(e: int, f: int, g: int, h: int)
    ensures 4 * (e * f) * g == 4 * (f * g) * e
    ensures 4 * (g * h) * f == 4 * (f * g) * h
    ensures (4 * (e * f)) * (4 * (g * h)) == (4 * (f * g)) * (4 * (e * h))
  {
    assert (4 * (e * f)) * (4 * (g * h)) == 16 * ((e * f) * (g * h));
    assert (4 * (f * g)) * (4 * (e * h)) == 16 * ((f * g) * (e * h));
    assert (e * f) * (g * h) == (f * g) * (e * h);
  }
}
