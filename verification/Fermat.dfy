/** Powers modulo a prime: Fermat's little theorem and Euler's criterion for squares. */
module Fermat {
  import opened ModArith

  /** p is prime: a product is divisible by p only if a factor is. */
  ghost predicate Prime(p: int) {
    p > 1 && forall a, b :: Divides(p, a * b) ==> Divides(p, a) || Divides(p, b)
  }

  predicate Divides(p: int, a: int)
    requires p > 0
  {
    a % p == 0
  }

  lemma NoZeroDivisors(p: int, a: int, b: int)
    requires Prime(p) && Cong(a * b, 0, p)
    ensures Cong(a, 0, p) || Cong(b, 0, p)
  {
    assert Divides(p, a * b);
  }

  function Pow(b: int, e: nat): int {
    if e == 0 then 1 else Pow(b, e - 1) * b
  }

  lemma {:induction false} PowAdd(b: int, e: nat, f: nat)
    ensures Pow(b, e + f) == Pow(b, e) * Pow(b, f)
    decreases f
  {
    if f > 0 {
      PowAdd(b, e, f - 1);
      assert e + f - 1 == e + (f - 1);
    }
  }

  lemma {:induction false} PowMul(b: int, e: nat, f: nat)
    ensures Pow(b, e * f) == Pow(Pow(b, e), f)
    decreases f
  {
    if f > 0 {
      PowMul(b, e, f - 1);
      PowAdd(b, e * (f - 1), e);
      assert e * f == e * (f - 1) + e;
    } else {
      assert e * f == 0;
    }
  }

  lemma {:induction false} PowOfProduct(a: int, b: int, e: nat)
    ensures Pow(a * b, e) == Pow(a, e) * Pow(b, e)
  {
    if e > 0 {
      PowOfProduct(a, b, e - 1);
      Interchange(Pow(a, e - 1), Pow(b, e - 1), a, b);
    }
  }

  lemma Interchange(a: int, b: int, c: int, d: int)
    ensures (a * b) * (c * d) == (a * c) * (b * d)
  {
  }

  lemma {:induction false} PowOfOne(e: nat)
    ensures Pow(1, e) == 1
  {
    if e > 0 {
      PowOfOne(e - 1);
    }
  }

  lemma {:induction false} PowCong(a: int, b: int, e: nat, p: int)
    requires p > 0 && Cong(a, b, p)
    ensures Cong(Pow(a, e), Pow(b, e), p)
  {
    hide Cong;
    if e == 0 {
      Same(1, p);
    } else {
      PowCong(a, b, e - 1, p);
      CongMul(Pow(a, e - 1), Pow(b, e - 1), a, b, p);
    }
  }

  lemma Same(a: int, p: int)
    requires p > 0
    ensures Cong(a, a, p)
  {
  }

  lemma Chain(a: int, b: int, c: int, p: int)
    requires p > 0 && Cong(a, b, p) && Cong(b, c, p)
    ensures Cong(a, c, p) && Cong(c, a, p)
  {
  }

  // ---------------------------------------------------------------- products of residues

  function Product(s: seq<int>): int {
    if s == [] then 1 else Product(s[..|s| - 1]) * s[|s| - 1]
  }

  function Factorial(n: nat): int {
    if n == 0 then 1 else Factorial(n - 1) * n
  }

  /** n different numbers between 1 and n. */
  predicate Shuffle(s: seq<int>, n: nat) {
    && |s| == n
    && (forall i :: 0 <= i < n ==> 1 <= s[i] <= n)
    && (forall i, j :: 0 <= i < j < n ==> s[i] != s[j])
  }

  function Without(s: seq<int>, i: nat): seq<int>
    requires i < |s|
  {
    s[..i] + s[i + 1..]
  }

  lemma WithoutLargest(s: seq<int>, n: nat, i: nat)
    requires Shuffle(s, n) && i < n && s[i] == n
    ensures Shuffle(Without(s, i), n - 1)
    ensures forall x :: x in Without(s, i) ==> x in s
  {
    var t := Without(s, i);
    assert forall k :: 0 <= k < n - 1 ==> t[k] == s[if k < i then k else k + 1];
  }

  /** None of the numbers is missing. */
  lemma {:induction false} ShuffleCovers(s: seq<int>, n: nat, x: int)
    requires Shuffle(s, n) && 1 <= x <= n
    ensures x in s
  {
    if n in s {
      if x < n {
        var i :| 0 <= i < |s| && s[i] == n;
        WithoutLargest(s, n, i);
        ShuffleCovers(Without(s, i), n - 1, x);
      }
    } else {
      var t := s[..n - 1];
      assert Shuffle(t, n - 1);
      ShuffleCovers(t, n - 1, s[n - 1]);
    }
  }

  lemma {:induction false} ProductWithout(s: seq<int>, i: nat)
    requires i < |s|
    ensures Product(s) == Product(Without(s, i)) * s[i]
    decreases |s|
  {
    var last, front, t := |s| - 1, s[..|s| - 1], Without(s, i);
    if i == last {
      assert t == front;
    } else {
      ProductWithout(front, i);
      assert t[..|t| - 1] == Without(front, i) && t[|t| - 1] == s[last];
      Rotate(Product(Without(front, i)), s[i], s[last]);
    }
  }

  lemma Rotate(a: int, b: int, c: int)
    ensures (a * b) * c == (a * c) * b
  {
  }

  lemma {:induction false} ShuffleProduct(s: seq<int>, n: nat)
    requires Shuffle(s, n)
    ensures Product(s) == Factorial(n)
  {
    if n > 0 {
      ShuffleCovers(s, n, n);
      var i :| 0 <= i < |s| && s[i] == n;
      WithoutLargest(s, n, i);
      ProductWithout(s, i);
      ShuffleProduct(Without(s, i), n - 1);
    }
  }

  /** The multiples a, 2a, ..., ka, reduced. */
  function Multiples(a: int, k: nat, p: int): (s: seq<int>)
    requires p > 0
    ensures |s| == k
  {
    seq(k, i => a * (i + 1) % p)
  }

  lemma {:induction false} MultiplesProduct(a: int, k: nat, p: int)
    requires p > 0
    ensures Cong(Product(Multiples(a, k, p)), Pow(a, k) * Factorial(k), p)
  {
    hide Cong;
    if k == 0 {
      Same(1, p);
    } else {
      MultiplesProduct(a, k - 1, p);
      var s := Multiples(a, k, p);
      assert s[..k - 1] == Multiples(a, k - 1, p);
      CongMod(a * k, p);
      CongMul(Product(s[..k - 1]), Pow(a, k - 1) * Factorial(k - 1), s[k - 1], a * k, p);
      Interchange(Pow(a, k - 1), Factorial(k - 1), a, k);
    }
  }

  lemma NotZeroBelow(p: int, k: int)
    requires 0 < k < p
    ensures !Cong(k, 0, p)
  {
    MultipleGrows(k / p, p);
    assert k == k / p * p + k % p;
    assert 0 % p == 0 by {
      MultipleIsZero(0, p);
    }
  }

  /** Multiples of a unit up to p - 1 are a shuffle of the residues. */
  lemma {:induction false} MultiplesShuffle(a: int, p: int)
    requires p > 1 && Prime(p) && !Cong(a, 0, p)
    ensures Shuffle(Multiples(a, p - 1, p), p - 1)
  {
    hide Prime, Cong, Multiples;
    var n := p - 1;
    var s := Multiples(a, n, p);
    forall i: nat | i < n ensures 1 <= s[i] <= n {
      MultipleInRange(a, n, p, i);
    }
    forall i: nat, j: nat | i < j < n ensures s[i] != s[j] {
      MultiplesDiffer(a, n, p, i, j);
    }
  }

  lemma MultipleInRange(a: int, n: nat, p: int, i: nat)
    requires p > 1 && Prime(p) && !Cong(a, 0, p) && i < n < p
    ensures 1 <= Multiples(a, n, p)[i] < p
  {
    hide Prime;
    CongMod(a * (i + 1), p);
    NotZeroBelow(p, i + 1);
    if a * (i + 1) % p == 0 {
      ZeroResidue(a * (i + 1), p);
      NoZeroDivisors(p, a, i + 1);
    }
  }

  lemma ZeroResidue(x: int, p: int)
    requires p > 0 && x % p == 0
    ensures Cong(x, 0, p)
  {
    MultipleIsZero(0, p);
  }

  lemma MultiplesDiffer(a: int, n: nat, p: int, i: nat, j: nat)
    requires p > 1 && Prime(p) && !Cong(a, 0, p) && i < j < n < p
    ensures Multiples(a, n, p)[i] != Multiples(a, n, p)[j]
  {
    hide Prime;
    NotZeroBelow(p, j - i);
    var x, y := a * (i + 1), a * (j + 1);
    if x % p == y % p {
      CongIff(y, x, p);
      assert y - x == a * (j - i);
      ZeroResidue(a * (j - i), p);
      NoZeroDivisors(p, a, j - i);
    }
  }

  lemma {:induction false} FactorialNotZero(k: nat, p: int)
    requires p > 1 && Prime(p) && k < p
    ensures !Cong(Factorial(k), 0, p)
  {
    hide Prime, Cong;
    if k == 0 {
      NotZeroBelow(p, 1);
    } else {
      FactorialNotZero(k - 1, p);
      NotZeroBelow(p, k);
      if Cong(Factorial(k), 0, p) {
        NoZeroDivisors(p, Factorial(k - 1), k);
      }
    }
  }

  // ---------------------------------------------------------------- the theorems

  /** Cancelling a factor that is not zero. */
  lemma Cancel(a: int, b: int, f: int, p: int)
    requires p > 1 && Prime(p) && !Cong(f, 0, p) && Cong(a * f, b * f, p)
    ensures Cong(a, b, p)
  {
    hide Prime;
    CongIff(a * f, b * f, p);
    assert a * f - b * f == (a - b) * f;
    ZeroResidue((a - b) * f, p);
    NoZeroDivisors(p, a - b, f);
    CongIff(a - b, 0, p);
    CongIff(a, b, p);
  }

  /** Fermat's little theorem. */
  lemma {:induction false} LittleTheorem(a: int, p: int)
    requires p > 1 && Prime(p) && !Cong(a, 0, p)
    ensures Cong(Pow(a, p - 1), 1, p)
  {
    hide Prime, Cong;
    var n := p - 1;
    MultiplesShuffle(a, p);
    ShuffleProduct(Multiples(a, n, p), n);
    MultiplesProduct(a, n, p);
    FactorialNotZero(n, p);
    Turn(Factorial(n), Pow(a, n) * Factorial(n), p);
    Cancel(Pow(a, n), 1, Factorial(n), p);
  }

  lemma Turn(a: int, b: int, p: int)
    requires p > 0 && Cong(a, b, p)
    ensures Cong(b, a, p)
  {
  }

  /** Half of that power is 1 or -1. */
  lemma {:induction false} HalfPower(a: int, p: int)
    requires p > 1 && Prime(p) && p % 2 == 1 && !Cong(a, 0, p)
    ensures Cong(Pow(a, (p - 1) / 2), 1, p) || Cong(Pow(a, (p - 1) / 2), -1, p)
  {
    hide Prime, Cong;
    var h := (p - 1) / 2;
    var t := Pow(a, h);
    LittleTheorem(a, p);
    PowAdd(a, h, h);
    RootsOfOne(t, p);
  }

  lemma RootsOfOne(t: int, p: int)
    requires p > 1 && Prime(p) && Cong(t * t, 1, p)
    ensures Cong(t, 1, p) || Cong(t, -1, p)
  {
    hide Prime;
    CongIff(t * t, 1, p);
    assert t * t - 1 == (t - 1) * (t + 1);
    ZeroResidue((t - 1) * (t + 1), p);
    NoZeroDivisors(p, t - 1, t + 1);
    CongIff(t - 1, 0, p);
    CongIff(t + 1, 0, p);
    CongIff(t, 1, p);
    CongIff(t, -1, p);
  }
}
