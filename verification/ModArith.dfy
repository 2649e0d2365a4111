/** Congruence of integers modulo p, and units modulo p. */
module ModArith {

  predicate Cong(a: int, b: int, p: int)
    requires p > 0
  {
    a % p == b % p
  }

  lemma MultipleGrows(j: int, p: int)
    requires p > 0
    ensures j >= 1 ==> j * p >= p
    ensures j <= -1 ==> j * p <= -p
  {
  }

  lemma MultipleIsZero(k: int, p: int)
    requires p > 0
    ensures (k * p) % p == 0
  {
    var q, r := (k * p) / p, (k * p) % p;
    assert (k - q) * p == r;
    MultipleGrows(k - q, p);
  }

  lemma CongIff(a: int, b: int, p: int)
    requires p > 0
    ensures Cong(a, b, p) <==> (a - b) % p == 0
  {
    var qa, ra, qb, rb := a / p, a % p, b / p, b % p;
    assert a - b == (qa - qb) * p + (ra - rb);
    if ra == rb {
      MultipleIsZero(qa - qb, p);
    } else if (a - b) % p == 0 {
      var q := (a - b) / p;
      assert (q - (qa - qb)) * p == ra - rb;
      MultipleGrows(q - (qa - qb), p);
    }
  }

  /** A congruence from its quotient. */
  lemma CongFromQuotient(a: int, b: int, k: int, p: int)
    requires p > 0 && a - b == k * p
    ensures Cong(a, b, p)
  {
    MultipleIsZero(k, p);
    CongIff(a, b, p);
  }

  lemma QuotientOfCong(a: int, b: int, p: int) returns (k: int)
    requires p > 0 && Cong(a, b, p)
    ensures a - b == k * p
  {
    CongIff(a, b, p);
    k := (a - b) / p;
  }

  lemma CongMod(a: int, p: int)
    requires p > 0
    ensures Cong(a % p, a, p) && 0 <= a % p < p
  {
    CongFromQuotient(a % p, a, -(a / p), p);
  }

  lemma CongAdd(a: int, b: int, c: int, d: int, p: int)
    requires p > 0 && Cong(a, b, p) && Cong(c, d, p)
    ensures Cong(a + c, b + d, p) && Cong(a - c, b - d, p)
  {
    var j := QuotientOfCong(a, b, p);
    var k := QuotientOfCong(c, d, p);
    CongFromQuotient(a + c, b + d, j + k, p);
    CongFromQuotient(a - c, b - d, j - k, p);
  }

  lemma CongMul(a: int, b: int, c: int, d: int, p: int)
    requires p > 0 && Cong(a, b, p) && Cong(c, d, p)
    ensures Cong(a * c, b * d, p)
  {
    var j := QuotientOfCong(a, b, p);
    var k := QuotientOfCong(c, d, p);
    calc {
      a * c - b * d;
      (a - b) * c + b * (c - d);
      (j * p) * c + b * (k * p);
      (j * c + b * k) * p;
    }
    CongFromQuotient(a * c, b * d, j * c + b * k, p);
  }

  /** The product of two residues, reduced. */
  lemma CongMulMod(a: int, b: int, c: int, d: int, p: int)
    requires p > 0 && Cong(a, b, p) && Cong(c, d, p)
    ensures Cong(a * c % p, b * d, p)
  {
    CongMul(a, b, c, d, p);
    CongMod(a * c, p);
  }

  ghost predicate Unit(k: int, p: int)
    requires p > 0
  {
    exists m :: Inverse(k, m, p)
  }

  predicate Inverse(k: int, m: int, p: int)
    requires p > 0
  {
    Cong(k * m, 1, p)
  }

  lemma UnitProduct(k: int, l: int, p: int)
    requires p > 0 && Unit(k, p) && Unit(l, p)
    ensures Unit(k * l, p)
  {
    var m :| Inverse(k, m, p);
    var n :| Inverse(l, n, p);
    CongMul(k * m, 1, l * n, 1, p);
    assert (k * m) * (l * n) == (k * l) * (m * n);
    assert Inverse(k * l, m * n, p);
  }

  /** Multiplying by a unit neither makes nor loses a zero. */
  lemma UnitKeepsZero(k: int, x: int, p: int)
    requires p > 0 && Unit(k, p)
    ensures Cong(k * x, 0, p) <==> Cong(x, 0, p)
  {
    var m :| Inverse(k, m, p);
    CongMul(k * m, 1, x, x, p);
    assert (k * m) * x == m * (k * x);
    if Cong(k * x, 0, p) {
      CongMul(m, m, k * x, 0, p);
    }
    if Cong(x, 0, p) {
      CongMul(k, k, x, 0, p);
    }
  }
}
