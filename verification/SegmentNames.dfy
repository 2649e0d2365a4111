/**
 The file names of segments and the order in which a listing sorted by name shows them
 (cryptovalid_ingest.py, _seg_path and _segments).
 */
module SegmentNames {
  import opened Decimal

  /** The digits of seq, padded to at least `width` (f"{seq:06d}"). */
  function Padded(n: nat, width: nat): string
    decreases n, width
  {
    if n < 10 && width <= 1 then [Digit(n)] else Padded(n / 10, if width == 0 then 0 else width - 1) + [Digit(n % 10)]
  }

  /** Order of file names, as Python sorts strings. */
  predicate NameLess(a: string, b: string) {
    b != [] && (a == [] || a[0] < b[0] || (a[0] == b[0] && NameLess(a[1..], b[1..])))
  }

  lemma {:induction false} LessByLastDigit(p: string, q: string, c: char, d: char)
    requires |p| == |q|
    requires NameLess(p, q) || (p == q && c < d)
    ensures NameLess(p + [c], q + [d])
  {
    if p != [] {
      assert (p + [c])[1..] == p[1..] + [c] && (q + [d])[1..] == q[1..] + [d];
      if p[0] == q[0] {
        LessByLastDigit(p[1..], q[1..], c, d);
      }
    }
  }

  lemma {:induction false} PaddedOrder(a: nat, b: nat, width: nat)
    requires width > 0 && a < b < Pow10(width)
    ensures |Padded(a, width)| == |Padded(b, width)| == width && NameLess(Padded(a, width), Padded(b, width))
    decreases width
  {
    if width > 1 {
      if a / 10 < b / 10 {
        PaddedOrder(a / 10, b / 10, width - 1);
      } else {
        PaddedWidth(a / 10, width - 1);
      }
      LessByLastDigit(Padded(a / 10, width - 1), Padded(b / 10, width - 1), Digit(a % 10), Digit(b % 10));
    }
  }

  lemma {:induction false} PaddedWidth(a: nat, width: nat)
    requires width > 0 && a < Pow10(width)
    ensures |Padded(a, width)| == width
    decreases width
  {
    if width > 1 {
      PaddedWidth(a / 10, width - 1);
    }
  }

  /** Below 10^6 segments the sorted file names are in numeric order. */
  lemma NamesSort(a: nat, b: nat)
    requires a < b < 1000000
    ensures NameLess(Padded(a, 6), Padded(b, 6))
  {
    assert Pow10(6) == 1000000 by {
      assert Pow10(3) == 1000;
    }
    PaddedOrder(a, b, 6);
  }

  /** At 10^6 they are not: segment 1000000 sorts before segment 999999. */
  lemma MillionthSortsFirst()
    ensures NameLess(Padded(1000000, 6), Padded(999999, 6))
  {
    hide Padded;
    PaddedMillion();
    PaddedNines();
  }

  lemma PaddedMillion()
    ensures Padded(1000000, 6) == "1000000"
  {
    assert Padded(1, 0) == "1" && Padded(10, 0) == "10" && Padded(10, 1) == "10";
    assert Padded(100, 2) == "100" && Padded(1000, 3) == "1000";
    assert Padded(10000, 4) == "10000" && Padded(100000, 5) == "100000";
  }

  lemma PaddedNines()
    ensures Padded(999999, 6) == "999999"
  {
    assert Padded(9, 1) == "9" && Padded(99, 2) == "99" && Padded(999, 3) == "999";
    assert Padded(9999, 4) == "9999" && Padded(99999, 5) == "99999";
  }

  // ---------------------------------------------------------------- the listing

  /** The digits in the file name of segment i. */
  function Name(i: nat): string {
    Padded(i, 6)
  }

  /** Put one more number where its name sorts. */
  function InsertByName(x: nat, s: seq<nat>): seq<nat> {
    if s == [] then [x]
    else if NameLess(Name(x), Name(s[0])) then [x] + s
    else [s[0]] + InsertByName(x, s[1..])
  }

  /** sorted(glob(...)) over the files numbered 0..n-1. */
  function Listed(n: nat): seq<nat> {
    if n == 0 then [] else InsertByName(n - 1, Listed(n - 1))
  }

  lemma {:induction false} InsertKeeps(x: nat, s: seq<nat>)
    ensures |InsertByName(x, s)| == |s| + 1 && multiset(InsertByName(x, s)) == multiset(s) + multiset{x}
  {
    if s != [] {
      if !NameLess(Name(x), Name(s[0])) {
        InsertKeeps(x, s[1..]);
      }
      assert s == [s[0]] + s[1..];
    }
  }

  lemma {:induction false} ListedMultiset(n: nat)
    ensures |Listed(n)| == n && multiset(Listed(n)) == multiset(Numbers(n))
  {
    hide InsertByName, Numbers;
    NumbersStep(n);
    if n > 0 {
      ListedMultiset(n - 1);
      InsertKeeps(n - 1, Listed(n - 1));
    }
  }

  lemma NumbersStep(n: nat)
    ensures n == 0 ==> Numbers(n) == []
    ensures n > 0 ==> multiset(Numbers(n)) == multiset(Numbers(n - 1)) + multiset([n - 1])
  {
    if n > 0 {
      assert Numbers(n) == Numbers(n - 1) + [n - 1];
    }
  }

  /** Every number is listed once. */
  lemma ListedIsPermutation(n: nat)
    ensures |Listed(n)| == n && multiset(Listed(n)) == multiset(Numbers(n))
    ensures forall i :: 0 <= i < n ==> Listed(n)[i] < n
    ensures forall x :: 0 <= x < n ==> x in Listed(n)
  {
    hide Listed;
    ListedMultiset(n);
    var listed, numbers := Listed(n), Numbers(n);
    forall i | 0 <= i < n ensures listed[i] < n {
      assert listed[i] in multiset(listed);
      assert listed[i] in numbers;
    }
    forall x | 0 <= x < n ensures x in listed {
      assert numbers[x] in multiset(numbers);
    }
  }

  function Numbers(n: nat): seq<nat> {
    seq(n, i => i)
  }

  lemma {:induction false} InsertAtEnd(x: nat, s: seq<nat>)
    requires forall y :: y in s ==> !NameLess(Name(x), Name(y))
    ensures InsertByName(x, s) == s + [x]
  {
    if s != [] {
      InsertAtEnd(x, s[1..]);
      assert s == [s[0]] + s[1..];
    }
  }

  lemma {:induction false} NameLessAsymmetric(a: string, b: string)
    requires NameLess(a, b)
    ensures !NameLess(b, a)
    decreases |a|
  {
    if a != [] && a[0] == b[0] {
      NameLessAsymmetric(a[1..], b[1..]);
    }
  }

  predicate PairByName(s: seq<nat>, i: nat)
    requires i + 1 < |s|
  {
    !NameLess(Name(s[i + 1]), Name(s[i]))
  }

  /** No name is followed by a smaller one. */
  ghost predicate ByName(s: seq<nat>) {
    forall i :: 0 <= i < |s| - 1 ==> PairByName(s, i)
  }

  lemma {:induction false} InsertKeepsOrder(x: nat, s: seq<nat>)
    requires ByName(s)
    ensures ByName(InsertByName(x, s))
    ensures s != [] ==> InsertByName(x, s)[0] == if NameLess(Name(x), Name(s[0])) then x else s[0]
  {
    hide Name, NameLess;
    if s != [] {
      if NameLess(Name(x), Name(s[0])) {
        NameLessAsymmetric(Name(x), Name(s[0]));
        ConsByName(x, s);
      } else {
        var rest := s[1..];
        forall i | 0 <= i < |rest| - 1 ensures PairByName(rest, i) {
          assert PairByName(s, i + 1);
        }
        InsertKeepsOrder(x, rest);
        assert |s| > 1 ==> PairByName(s, 0);
        InsertKeeps(x, rest);
        ConsByName(s[0], InsertByName(x, rest));
      }
    }
  }

  lemma ConsByName(x: nat, s: seq<nat>)
    requires ByName(s) && (s != [] ==> !NameLess(Name(s[0]), Name(x)))
    ensures ByName([x] + s)
  {
    hide Name, NameLess;
    var all := [x] + s;
    forall i | 0 <= i < |all| - 1 ensures PairByName(all, i) {
      if i > 0 {
        assert PairByName(s, i - 1);
      }
    }
  }

  lemma {:induction false} ListedByName(n: nat)
    ensures ByName(Listed(n))
  {
    if n > 0 {
      ListedByName(n - 1);
      InsertKeepsOrder(n - 1, Listed(n - 1));
    }
  }

  /** Segments 0..n-1 are listed in numeric order exactly when there are at most 10^6 of them. */
  lemma {:induction false} ListedInOrderExactly(n: nat)
    ensures Listed(n) == Numbers(n) <==> n <= 1000000
  {
    if n <= 1000000 {
      SmallListing(n);
    } else {
      ListedByName(n);
      NumbersNotByName(n);
    }
  }

  lemma NumbersNotByName(n: nat)
    requires n > 1000000
    ensures !ByName(Numbers(n))
  {
    hide Name, NameLess;
    MillionthIsLess();
    assert !PairByName(Numbers(n), 999999);
  }

  lemma MillionthIsLess()
    ensures NameLess(Name(1000000), Name(999999))
  {
    MillionthSortsFirst();
  }

  lemma LaterNameIsNotLess(a: nat, b: nat)
    requires a < b < 1000000
    ensures !NameLess(Name(b), Name(a))
  {
    hide NameLess, Padded;
    NamesSort(a, b);
    NameLessAsymmetric(Name(a), Name(b));
  }

  lemma {:induction false} SmallListing(n: nat)
    requires n <= 1000000
    ensures Listed(n) == Numbers(n)
  {
    hide NameLess, Name;
    if n > 0 {
      SmallListing(n - 1);
      forall y | y in Numbers(n - 1) ensures !NameLess(Name(n - 1), Name(y)) {
        LaterNameIsNotLess(y, n - 1);
      }
      InsertAtEnd(n - 1, Numbers(n - 1));
      assert Numbers(n) == Numbers(n - 1) + [n - 1];
    }
  }

  /** The files numbered from 0, as a listing by name orders them. */
  function Listing<T>(files: seq<T>): (r: seq<T>)
    ensures |r| == |files|
  {
    ListedIsPermutation(|files|);
    seq(|files|, i requires 0 <= i < |files| => files[Listed(|files|)[i]])
  }

  // ---------------------------------------------------------------- reopening

  /** The file _open_or_resume takes for the last one, among those numbered 0..n. */
  function LastListed(n: nat): (r: nat)
    ensures r <= n
  {
    ListedIsPermutation(n + 1);
    Listed(n + 1)[n]
  }

  predicate IsPow10(x: nat) {
    x == 1 || (x > 0 && x % 10 == 0 && IsPow10(x / 10))
  }

  /** File n is taken for the last one exactly when no earlier file has a greater name. */
  lemma {:induction false} LastUnlessGreater(n: nat)
    ensures LastListed(n) == n <==> forall m :: 0 <= m < n ==> !NameLess(Name(n), Name(m))
  {
    hide Name, NameLess;
    ListedIsPermutation(n);
    InsertKeeps(n, Listed(n));
    if forall m :: 0 <= m < n ==> !NameLess(Name(n), Name(m)) {
      InsertAtEnd(n, Listed(n));
    } else {
      var m :| 0 <= m < n && NameLess(Name(n), Name(m));
      assert m in Listed(n);
      InsertBefore(n, Listed(n), m);
    }
  }

  lemma {:induction false} InsertBefore(x: nat, s: seq<nat>, y: nat)
    requires y in s && NameLess(Name(x), Name(y))
    ensures |InsertByName(x, s)| == |s| + 1 && InsertByName(x, s)[|s|] == s[|s| - 1]
  {
    hide Name, NameLess;
    if !NameLess(Name(x), Name(s[0])) {
      InsertBefore(x, s[1..], y);
    }
  }

  lemma {:induction false} Pow10Positive(k: nat)
    ensures Pow10(k) > 0
  {
    if k > 0 {
      Pow10Positive(k - 1);
    }
  }

  /** Padding changes nothing once there are digits enough. */
  lemma {:induction false} PaddedSame(n: nat, v: nat, w: nat, j: nat)
    requires Pow10(j) <= n && v <= j + 1 && w <= j + 1
    ensures Padded(n, v) == Padded(n, w)
    decreases n
  {
    if j > 0 {
      Pow10Positive(j - 1);
    }
    if n >= 10 {
      if j > 0 {
        PaddedSame(n / 10, if v == 0 then 0 else v - 1, if w == 0 then 0 else w - 1, j - 1);
      } else {
        PaddedSame(n / 10, if v == 0 then 0 else v - 1, if w == 0 then 0 else w - 1, 0);
      }
    }
  }

  lemma {:induction false} HasDigits(n: nat) returns (j: nat)
    requires n > 0
    ensures Pow10(j) <= n < Pow10(j + 1)
  {
    j := 0;
    if n >= 10 {
      j := HasDigits(n / 10);
      j := j + 1;
    }
  }

  predicate AllNines(s: string) {
    forall i :: 0 <= i < |s| ==> s[i] == '9'
  }

  lemma {:induction false} Nines(j: nat)
    requires j > 0
    ensures Pow10(j) > 0 && |Padded(Pow10(j) - 1, j)| == j
    ensures AllNines(Padded(Pow10(j) - 1, j))
  {
    Pow10Positive(j - 1);
    if j > 1 {
      Nines(j - 1);
      var n := Pow10(j) - 1;
      assert n == 10 * (Pow10(j - 1) - 1) + 9;
      assert n / 10 == Pow10(j - 1) - 1 && n % 10 == 9;
    }
  }

  lemma {:induction false} NinesNotLess(a: string, b: string)
    requires |a| >= |b| && (forall i :: 0 <= i < |b| ==> a[i] == '9' && b[i] <= '9')
    ensures !NameLess(a, b)
    decreases |b|
  {
    if b != [] {
      NinesNotLess(a[1..], b[1..]);
    }
  }

  lemma {:induction false} DigitsAtMostNine(n: nat, w: nat)
    ensures forall i :: 0 <= i < |Padded(n, w)| ==> Padded(n, w)[i] <= '9'
    decreases n, w
  {
    if !(n < 10 && w <= 1) {
      DigitsAtMostNine(n / 10, if w == 0 then 0 else w - 1);
    }
  }

  lemma {:induction false} LessWithMore(p: string, r: string, c: char)
    requires |p| == |r| && NameLess(p, r)
    ensures NameLess(p + [c], r)
    decreases |p|
  {
    assert (p + [c])[1..] == p[1..] + [c];
    if p[0] == r[0] {
      LessWithMore(p[1..], r[1..], c);
    }
  }

  /** Below 10^j, names of at least six digits have at most j digits when j is at least six. */
  lemma {:induction false} NameWidth(m: nat, j: nat)
    requires j >= 6 && m < Pow10(j)
    ensures |Name(m)| <= j
  {
    if m < Pow10(6) {
      PaddedWidth(m, 6);
    } else {
      var k := HasDigits(m);
      Pow10Order(k, j);
      Pow10Order(6, k + 1);
      PaddedSame(m, 6, k + 1, k);
      PaddedWidth(m, k + 1);
    }
  }

  lemma {:induction false} Pow10Order(a: nat, b: nat)
    ensures a < b ==> 10 * Pow10(a) <= Pow10(b)
    ensures Pow10(a) < Pow10(b) ==> a < b
    decreases a + b
  {
    Pow10Positive(a);
    Pow10Positive(b);
    if a > 0 && b > 0 {
      Pow10Order(a - 1, b - 1);
    } else if b > 1 {
      Pow10Order(a, b - 1);
    }
  }

  lemma {:induction false} IsPow10Exactly(x: nat, j: nat)
    requires Pow10(j) / 10 < x <= Pow10(j)
    ensures IsPow10(x) <==> x == Pow10(j)
    decreases j
  {
    if j > 0 && x > 1 && x % 10 == 0 {
      Pow10Positive(j - 1);
      assert Pow10(j) / 10 == Pow10(j - 1);
      if j > 1 {
        assert Pow10(j - 1) / 10 == Pow10(j - 2);
      }
      IsPow10Exactly(x / 10, j - 1);
    } else if j > 0 {
      Pow10Positive(j - 1);
      assert Pow10(j) == 10 * Pow10(j - 1);
    }
  }

  /**
   Reopening takes file n, the active one, for the last exactly when n is below 10^6 or all its
   digits but the last are nines; otherwise it takes a sealed file and goes on after that.
   */
  lemma {:induction false} ReopensActiveExactly(n: nat)
    ensures LastListed(n) == n <==> n < 1000000 || IsPow10(n / 10 + 1)
  {
    LastUnlessGreater(n);
    hide LastListed, NameLess;
    if n < 1000000 {
      forall m | 0 <= m < n ensures !NameLess(Name(n), Name(m)) {
        NamesSort(m, n);
        NameLessAsymmetric(Name(m), Name(n));
      }
    } else {
      var j := HasDigits(n);
      SevenDigits(n, j);
      TenthOf(n, j);
      IsPow10Exactly(n / 10 + 1, j);
      if n / 10 + 1 == Pow10(j) {
        forall m | 0 <= m < n ensures !NameLess(Name(n), Name(m)) {
          NinesAreLast(n, j, m);
        }
      } else {
        NinesComeAfter(n, j);
      }
    }
  }

  lemma SevenDigits(n: nat, j: nat)
    requires n >= 1000000 && Pow10(j) <= n < Pow10(j + 1)
    ensures j >= 6
  {
    assert Pow10(3) == 1000;
    assert Pow10(6) == 1000000;
    Pow10Order(6, j + 1);
  }

  lemma TenthOf(n: nat, j: nat)
    requires j > 0 && Pow10(j) <= n < Pow10(j + 1)
    ensures Pow10(j - 1) <= n / 10 < Pow10(j) && Pow10(j) / 10 == Pow10(j - 1)
  {
    assert Pow10(j) == 10 * Pow10(j - 1) && Pow10(j + 1) == 10 * Pow10(j);
  }

  lemma {:induction false} NinesAreLast(n: nat, j: nat, m: nat)
    requires j >= 6 && Pow10(j) <= n < Pow10(j + 1) && n / 10 + 1 == Pow10(j) && m < n
    ensures !NameLess(Name(n), Name(m))
  {
    hide NameLess;
    PaddedSame(n, 6, j + 1, j);
    if m >= Pow10(j) {
      PaddedSame(m, 6, j + 1, j);
      PaddedOrder(m, n, j + 1);
      NameLessAsymmetric(Name(m), Name(n));
    } else {
      Nines(j);
      NameWidth(m, j);
      DigitsAtMostNine(m, 6);
      assert Padded(n, j + 1) == Padded(n / 10, j) + [Digit(n % 10)];
      NinesNotLess(Name(n), Name(m));
    }
  }

  lemma {:induction false} NinesComeAfter(n: nat, j: nat)
    requires j >= 6 && Pow10(j) <= n < Pow10(j + 1) && n / 10 + 1 < Pow10(j)
    ensures exists m :: 0 <= m < n && NameLess(Name(n), Name(m))
  {
    hide NameLess;
    var m := Pow10(j) - 1;
    Pow10Positive(j - 1);
    assert Pow10(j) == 10 * Pow10(j - 1);
    PaddedSame(n, 6, j + 1, j);
    PaddedSame(m, 6, j, j - 1);
    PaddedOrder(n / 10, m, j);
    assert Padded(n, j + 1) == Padded(n / 10, j) + [Digit(n % 10)];
    LessWithMore(Padded(n / 10, j), Padded(m, j), Digit(n % 10));
    assert NameLess(Name(n), Name(m));
  }
}
