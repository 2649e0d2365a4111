/** Decimal numbers as Python prints them and as the strict parsers read them. */
module Decimal {

  function Digit(d: nat): char
    requires d < 10
  {
    '0' + d as char
  }

  predicate IsDigit(c: char) { '0' <= c <= '9' }

  predicate AllDigits(s: string) {
    forall i :: 0 <= i < |s| ==> IsDigit(s[i])
  }

  function Pow10(k: nat): nat {
    if k == 0 then 1 else 10 * Pow10(k - 1)
  }

  /** str(n). */
  function Print(n: nat): (s: string)
    ensures |s| >= 1 && AllDigits(s)
  {
    if n < 10 then [Digit(n)] else Print(n / 10) + [Digit(n % 10)]
  }

  /** int(s). */
  function Value(s: string): nat
    requires AllDigits(s)
  {
    if s == "" then 0 else 10 * Value(s[..|s| - 1]) + (s[|s| - 1] as int - '0' as int)
  }

  /** The pattern 0|[1-9][0-9]{0,19}. */
  predicate IsSize(s: string) {
    1 <= |s| <= 20 && AllDigits(s) && (s == "0" || s[0] != '0')
  }

  lemma {:induction false} ValueOfPrint(n: nat)
    ensures Value(Print(n)) == n && (n > 0 ==> Print(n)[0] != '0')
    decreases n
  {
    if n >= 10 {
      ValueOfPrint(n / 10);
      assert Print(n)[..|Print(n)| - 1] == Print(n / 10);
    } else {
      assert Print(n)[..0] == "" && Value("") == 0;
    }
  }

  lemma {:induction false} PrintLength(n: nat, k: nat)
    requires k >= 1 && n < Pow10(k)
    ensures |Print(n)| <= k
    decreases k
  {
    if n >= 10 {
      PrintLength(n / 10, k - 1);
    }
  }

  lemma {:induction false} PrintOfValue(s: string)
    requires |s| >= 1 && AllDigits(s) && (|s| == 1 || s[0] != '0')
    ensures Print(Value(s)) == s && (s[0] != '0' ==> Value(s) > 0) && Value(s) < Pow10(|s|)
    decreases |s|
  {
    var front := s[..|s| - 1];
    assert s == front + [s[|s| - 1]];
    if front != "" {
      PrintOfValue(front);
      PrintStep(Value(front), s[|s| - 1]);
    }
  }

  /** One more digit after a positive number. */
  lemma PrintStep(q: nat, c: char)
    requires q > 0 && IsDigit(c)
    ensures var n := 10 * q + (c as int - '0' as int); n > 0 && Print(n) == Print(q) + [c]
  {
    var d := c as int - '0' as int;
    var n := 10 * q + d;
    assert n / 10 == q && n % 10 == d && Digit(d) == c;
  }

  lemma TwentyDigits()
    ensures Pow10(20) == 100000000000000000000
  {
    assert Pow10(5) == 100000;
    assert Pow10(10) == 10000000000;
    assert Pow10(15) == 1000000000000000;
  }

  /** The strict pattern accepts exactly the printed form of each number below 10^20. */
  lemma {:induction false} SizeExact(s: string, n: nat)
    requires n < Pow10(20)
    ensures IsSize(s) && Value(s) == n <==> s == Print(n)
  {
    if IsSize(s) {
      PrintOfValue(s);
    }
    ValueOfPrint(n);
    PrintLength(n, 20);
  }
}

/** str.split, str.join and the searches for a blank line. */
module TextLines {

  predicate Without(s: string, c: char) {
    forall i :: 0 <= i < |s| ==> s[i] != c
  }

  predicate AllWithout(lines: seq<string>, c: char) {
    forall i :: 0 <= i < |lines| ==> Without(lines[i], c)
  }

  function Split(s: string, c: char): (r: seq<string>)
    ensures |r| >= 1
  {
    if s == "" then [""]
    else
      var rest := Split(s[1..], c);
      if s[0] == c then [""] + rest else [[s[0]] + rest[0]] + rest[1..]
  }

  function Join(lines: seq<string>, c: char): string
    requires |lines| >= 1
  {
    if |lines| == 1 then lines[0] else lines[0] + [c] + Join(lines[1..], c)
  }

  lemma {:induction false} JoinOfSplit(s: string, c: char)
    ensures Join(Split(s, c), c) == s && AllWithout(Split(s, c), c)
    decreases |s|
  {
    if s != "" {
      var rest := Split(s[1..], c);
      JoinOfSplit(s[1..], c);
      var r := Split(s, c);
      if s[0] == c {
        assert r[1..] == rest;
      } else {
        assert r[1..] == rest[1..];
        assert Join(r, c) == [s[0]] + Join(rest, c);
        assert forall i :: 1 <= i < |r| ==> r[i] == rest[i];
      }
      assert [s[0]] + s[1..] == s;
    }
  }

  lemma {:induction false} SplitOfPiece(s: string, c: char)
    requires Without(s, c)
    ensures Split(s, c) == [s]
    decreases |s|
  {
    if s != "" {
      assert Without(s[1..], c);
      SplitOfPiece(s[1..], c);
      assert [s[0]] + s[1..] == s;
    }
  }

  lemma {:induction false} SplitAtSeparator(s: string, t: string, c: char)
    requires Without(s, c)
    ensures Split(s + [c] + t, c) == [s] + Split(t, c)
    decreases |s|
  {
    var all := s + [c] + t;
    if s == "" {
      assert all[1..] == t;
    } else {
      SplitAtSeparator(s[1..], t, c);
      assert all[1..] == s[1..] + [c] + t;
      assert [s[0]] + s[1..] == s;
    }
  }

  lemma {:induction false} SplitOfJoin(lines: seq<string>, c: char)
    requires |lines| >= 1 && AllWithout(lines, c)
    ensures Split(Join(lines, c), c) == lines
    decreases |lines|
  {
    if |lines| == 1 {
      SplitOfPiece(lines[0], c);
    } else {
      SplitOfJoin(lines[1..], c);
      SplitAtSeparator(lines[0], Join(lines[1..], c), c);
      assert [lines[0]] + lines[1..] == lines;
    }
  }

  /** Characters allowed everywhere but at the separator are allowed in the whole. */
  predicate Allowed(s: string, c: char) {
    forall i :: 0 <= i < |s| ==> s[i] == c || s[i] >= ' '
  }

  predicate NoControl(s: string) {
    forall i :: 0 <= i < |s| ==> s[i] >= ' '
  }

  predicate AllNoControl(lines: seq<string>) {
    forall i :: 0 <= i < |lines| ==> NoControl(lines[i])
  }

  lemma {:induction false} JoinAllowed(lines: seq<string>, c: char)
    requires |lines| >= 1
    ensures AllNoControl(lines) ==> Allowed(Join(lines, c), c)
    ensures Allowed(Join(lines, c), c) && AllWithout(lines, c) ==> AllNoControl(lines)
    decreases |lines|
  {
    if |lines| > 1 {
      var rest := lines[1..];
      var joined, tail := Join(lines, c), Join(rest, c);
      JoinAllowed(rest, c);
      var k := |lines[0]|;
      if AllNoControl(lines) {
        assert forall i :: 0 <= i < |joined| ==>
            joined[i] == (if i < k then lines[0][i] else if i == k then c else tail[i - k - 1]);
      }
      if Allowed(joined, c) && AllWithout(lines, c) {
        assert forall i :: 0 <= i < k ==> joined[i] == lines[0][i];
        assert forall i :: 0 <= i < |tail| ==> tail[i] == joined[i + k + 1];
        assert forall i :: 0 < i < |lines| ==> lines[i] == rest[i - 1];
      }
    }
  }

  // ---------------------------------------------------------------- blank lines

  /** Two newlines in a row. */
  predicate BlankAt(s: string, i: int) {
    0 <= i < |s| - 1 && s[i] == '\n' && s[i + 1] == '\n'
  }

  predicate NoBlank(s: string) {
    forall i :: 0 <= i < |s| ==> !BlankAt(s, i)
  }

  /** s.rfind of two newlines. */
  function LastBlank(s: string): (r: int)
    ensures r >= 0 ==> BlankAt(s, r)
    ensures forall i :: r < i < |s| ==> !BlankAt(s, i)
    ensures r >= -1
  {
    if |s| < 2 then -1
    else if BlankAt(s, |s| - 2) then |s| - 2
    else
      var r := LastBlank(s[..|s| - 1]);
      assert forall i :: 0 <= i < |s| - 2 ==> BlankAt(s, i) == BlankAt(s[..|s| - 1], i);
      r
  }

  /** s.find of two newlines. */
  function FirstBlank(s: string): (r: int)
    ensures r >= 0 ==> BlankAt(s, r)
    ensures forall i :: 0 <= i < (if r < 0 then |s| else r) ==> !BlankAt(s, i)
    ensures r >= -1
  {
    if |s| < 2 then -1
    else if BlankAt(s, 0) then 0
    else
      var r := FirstBlank(s[1..]);
      assert forall i :: 0 < i < |s| - 1 ==> BlankAt(s, i) == BlankAt(s[1..], i - 1);
      if r < 0 then -1 else r + 1
  }

  /** Each line with its newline. */
  function Block(lines: seq<string>): string {
    if lines == [] then "" else lines[0] + "\n" + Block(lines[1..])
  }

  lemma {:induction false} BlockIsJoin(lines: seq<string>)
    requires |lines| >= 1
    ensures Block(lines) == Join(lines, '\n') + "\n"
    decreases |lines|
  {
    if |lines| > 1 {
      BlockIsJoin(lines[1..]);
    }
  }

  lemma {:induction false} BlockAppend(lines: seq<string>, line: string)
    ensures Block(lines + [line]) == Block(lines) + (line + "\n")
    decreases |lines|
  {
    if lines != [] {
      BlockAppend(lines[1..], line);
      assert (lines + [line])[1..] == lines[1..] + [line];
    }
  }

  predicate SolidLines(lines: seq<string>) {
    forall i :: 0 <= i < |lines| ==> lines[i] != "" && NoControl(lines[i])
  }

  /** Non-empty lines hold no blank line, even after a newline. */
  lemma {:induction false} BlockHasNoBlank(lines: seq<string>)
    requires SolidLines(lines)
    ensures NoBlank("\n" + Block(lines))
    decreases |lines|
  {
    if lines != [] {
      var rest := lines[1..];
      BlockHasNoBlank(rest);
      var s, t := "\n" + Block(lines), "\n" + Block(rest);
      var k := |lines[0]|;
      assert s == ("\n" + lines[0]) + t;
      assert NoControl(lines[0]);
      forall i | 0 <= i < |s| ensures !BlankAt(s, i) {
        if i > k {
          assert BlankAt(s, i) ==> BlankAt(t, i - k - 1);
        } else if i < k {
          assert s[i + 1] == lines[0][i];
        } else {
          assert s[i] == lines[0][k - 1];
        }
      }
    }
  }
}
