/** Standard base64 with full quanta, as the checkpoint code prints it and strictly reads it back. */
module Base64 {
  import opened MerkleTree
  import opened Octets

  function SextetChar(v: nat): char
    requires v < 64
  {
    if v < 26 then 'A' + v as char
    else if v < 52 then 'a' + (v - 26) as char
    else if v < 62 then '0' + (v - 52) as char
    else if v == 62 then '+' else '/'
  }

  /** The value of a base64 character, 64 for any other. */
  function SextetOf(c: char): (v: nat)
    ensures v <= 64
    ensures v < 64 ==> SextetChar(v) == c
  {
    if 'A' <= c <= 'Z' then c as int - 'A' as int
    else if 'a' <= c <= 'z' then c as int - 'a' as int + 26
    else if '0' <= c <= '9' then c as int - '0' as int + 52
    else if c == '+' then 62 else if c == '/' then 63 else 64
  }

  lemma SextetRoundTrip(v: nat)
    requires v < 64
    ensures SextetOf(SextetChar(v)) == v && SextetChar(v) != '=' && SextetChar(v) > ' '
  {
  }

  function Triple(a: byte, b: byte, c: byte): (n: nat)
    ensures n < 16777216
  {
    65536 * a as int + 256 * b as int + c as int
  }

  /** The four characters of a 24-bit group. */
  function Quantum(n: nat): (s: string)
    requires n < 16777216
    ensures |s| == 4
  {
    [SextetChar(n / 262144), SextetChar(n / 4096 % 64), SextetChar(n / 64 % 64), SextetChar(n % 64)]
  }

  /** base64.b64encode. */
  function Encode(b: Bytes): string {
    if b == [] then ""
    else if |b| == 1 then Quantum(Triple(b[0], 0, 0))[..2] + "=="
    else if |b| == 2 then Quantum(Triple(b[0], b[1], 0))[..3] + "="
    else Quantum(Triple(b[0], b[1], b[2])) + Encode(b[3..])
  }

  /**
   The first `count` bytes of the group whose first `count + 1` characters are given; low bits left
   over are dropped.
   */
  function ReadQuantum(s: string, count: nat): Option<Bytes>
    requires |s| == 4 && 1 <= count <= 3
  {
    var w, x, y, z := SextetOf(s[0]), SextetOf(s[1]), SextetOf(s[2]), SextetOf(s[3]);
    if w == 64 || x == 64 || (count >= 2 && y == 64) || (count >= 3 && z == 64) then None
    else
      var n := 262144 * w + 4096 * x + (if count >= 2 then 64 * y else 0) + (if count >= 3 then z else 0);
      Some([(n / 65536) as byte, (n / 256 % 256) as byte, (n % 256) as byte][..count])
  }

  /** b64decode_strict: full quanta, padding only in the last one. */
  function Decode(s: string): Option<Bytes> {
    if s == "" then Some([])
    else if |s| < 4 then None
    else if |s| == 4 && s[2..] == "==" then ReadQuantum(s, 1)
    else if |s| == 4 && s[3] == '=' then ReadQuantum(s, 2)
    else
      var head, rest := ReadQuantum(s[..4], 3), Decode(s[4..]);
      if head.None? || rest.None? then None else Some(head.value + rest.value)
  }

  lemma Regroup(n: nat)
    requires n < 16777216
    ensures 262144 * (n / 262144) + 4096 * (n / 4096 % 64) + 64 * (n / 64 % 64) + n % 64 == n
  {
    var q := n / 64;
    var r := q / 64;
    assert n / 4096 == r && n / 262144 == r / 64;
  }

  lemma Ungroup(a: byte, b: byte, c: byte)
    ensures var n := Triple(a, b, c); n / 65536 == a as int && n / 256 % 256 == b as int && n % 256 == c as int
  {
    var n := Triple(a, b, c);
    assert n / 256 == 256 * a as int + b as int;
  }

  /** The characters of a group read back as its sextets. */
  lemma QuantumSextets(n: nat)
    requires n < 16777216
    ensures var s := Quantum(n);
            && SextetOf(s[0]) == n / 262144 && SextetOf(s[1]) == n / 4096 % 64
            && SextetOf(s[2]) == n / 64 % 64 && SextetOf(s[3]) == n % 64
            && s[2] != '=' && s[3] != '='
  {
    hide SextetChar, SextetOf;
    SextetRoundTrip(n / 262144);
    SextetRoundTrip(n / 4096 % 64);
    SextetRoundTrip(n / 64 % 64);
    SextetRoundTrip(n % 64);
  }

  /** A group with its low bytes zero reads back as its leading bytes, whatever stands for the rest. */
  lemma {:induction false} QuantumReads(a: byte, b: byte, c: byte, s: string, count: nat)
    requires |s| == 4 && 1 <= count <= 3 && s[..count + 1] == Quantum(Triple(a, b, c))[..count + 1]
    requires (count < 3 ==> c == 0) && (count < 2 ==> b == 0)
    ensures ReadQuantum(s, count) == Some([a, b, c][..count])
  {
    hide Quantum, Triple, SextetOf;
    var n := Triple(a, b, c);
    var q := Quantum(n);
    QuantumSextets(n);
    Regroup(n);
    Ungroup(a, b, c);
    LowSextets(a, b, c);
    assert forall i :: 0 <= i < count + 1 ==> s[i] == s[..count + 1][i] == q[..count + 1][i] == q[i];
  }

  lemma LowSextets(a: byte, b: byte, c: byte)
    ensures c == 0 ==> Triple(a, b, c) % 64 == 0
    ensures c == 0 && b == 0 ==> Triple(a, b, c) / 64 % 64 == 0
  {
    if c == 0 {
      assert Triple(a, b, c) == 64 * (1024 * a as int + 4 * b as int);
      if b == 0 {
        assert Triple(a, b, c) / 64 == 64 * (16 * a as int);
      }
    }
  }

  /** Strict decoding undoes encoding, for every byte string. */
  lemma {:induction false} RoundTrip(b: Bytes)
    ensures Decode(Encode(b)) == Some(b)
    decreases |b|
  {
    hide Quantum, ReadQuantum, Triple;
    if |b| == 1 {
      ShortReads(b[0], 0);
      assert b == [b[0]];
    } else if |b| == 2 {
      ShortReads(b[0], b[1]);
      assert b == [b[0], b[1]];
    } else if |b| >= 3 {
      RoundTrip(b[3..]);
      var n := Triple(b[0], b[1], b[2]);
      var s := Encode(b);
      QuantumReads(b[0], b[1], b[2], Quantum(n), 3);
      QuantumSextets(n);
      assert s[..4] == Quantum(n) && s[4..] == Encode(b[3..]) && s[3] == Quantum(n)[3];
      assert [b[0], b[1], b[2]][..3] + b[3..] == b;
    }
  }

  lemma {:induction false} ShortReads(a: byte, b: byte)
    ensures Decode(Quantum(Triple(a, 0, 0))[..2] + "==") == Some([a])
    ensures Decode(Quantum(Triple(a, b, 0))[..3] + "=") == Some([a, b])
  {
    hide Quantum, ReadQuantum, Triple;
    var s, t := Quantum(Triple(a, 0, 0))[..2] + "==", Quantum(Triple(a, b, 0))[..3] + "=";
    QuantumReads(a, 0, 0, s, 1);
    QuantumReads(a, b, 0, t, 2);
    QuantumSextets(Triple(a, b, 0));
    assert t[2] == Quantum(Triple(a, b, 0))[2] && t[2..][0] == t[2];
    assert s[2..] == "==" && [a, 0, 0][..1] == [a] && [a, b, 0][..2] == [a, b];
  }

  predicate Base64Char(c: char) {
    SextetOf(c) < 64 || c == '='
  }

  /** Only alphabet characters and padding are ever accepted, so an accepted string has no space and no newline. */
  lemma {:induction false} DecodedIsPlain(s: string)
    requires Decode(s).Some?
    ensures forall i :: 0 <= i < |s| ==> Base64Char(s[i])
    ensures 4 * |Decode(s).value| <= 3 * |s| <= 4 * |Decode(s).value| + 8
    decreases |s|
  {
    if |s| > 4 || (|s| == 4 && s[3] != '=') {
      DecodedIsPlain(s[4..]);
      assert s == s[..4] + s[4..];
      assert forall i :: 4 <= i < |s| ==> s[i] == s[4..][i - 4];
    } else if |s| == 4 && s[2..] == "==" {
      assert s[2] == s[2..][0] && s[3] == s[2..][1];
    }
  }

  // ---------------------------------------------------------------- canonical forms

  /** The bits of the last group that padding leaves over are zero. */
  predicate Canonical(s: string) {
    if |s| < 4 then true
    else if |s| == 4 && s[2..] == "==" then SextetOf(s[1]) % 16 == 0
    else if |s| == 4 && s[3] == '=' then SextetOf(s[2]) % 4 == 0
    else Canonical(s[4..])
  }

  /** The characters of a group built from its sextets. */
  lemma QuantumOf(w: nat, x: nat, y: nat, z: nat)
    requires w < 64 && x < 64 && y < 64 && z < 64
    ensures var m := 262144 * w + 4096 * x + 64 * y + z;
            m < 16777216 && Quantum(m) == [SextetChar(w), SextetChar(x), SextetChar(y), SextetChar(z)]
  {
    hide SextetChar;
    SextetsOf(w, x, y, z);
  }

  /** A group of four characters that are all sextets prints back from the bytes it reads as. */
  lemma {:induction false} WholeQuantum(s: string)
    requires |s| == 4 && ReadQuantum(s, 3).Some?
    ensures var b := ReadQuantum(s, 3).value; |b| == 3 && Quantum(Triple(b[0], b[1], b[2])) == s
  {
    hide SextetOf, SextetChar, Quantum, ReadQuantum, Triple;
    ThreeBytesRead(s);
    QuantumOf(SextetOf(s[0]), SextetOf(s[1]), SextetOf(s[2]), SextetOf(s[3]));
    assert s == [s[0], s[1], s[2], s[3]];
  }

  lemma {:induction false} ThreeBytesRead(s: string)
    requires |s| == 4 && ReadQuantum(s, 3).Some?
    ensures var b := ReadQuantum(s, 3).value;
            var w, x, y, z := SextetOf(s[0]), SextetOf(s[1]), SextetOf(s[2]), SextetOf(s[3]);
            && |b| == 3 && w < 64 && x < 64 && y < 64 && z < 64
            && Triple(b[0], b[1], b[2]) == 262144 * w + 4096 * x + 64 * y + z
  {
    hide SextetOf, SextetChar;
    var w, x, y, z := SextetOf(s[0]), SextetOf(s[1]), SextetOf(s[2]), SextetOf(s[3]);
    BytesOf(262144 * w + 4096 * x + 64 * y + z);
  }

  /** Padded groups: the characters that carry bytes print back exactly when no bits are left over. */
  lemma {:induction false} OneByteQuantum(s: string)
    requires |s| == 4 && ReadQuantum(s, 1).Some?
    ensures var b := ReadQuantum(s, 1).value;
            |b| == 1 && (Quantum(Triple(b[0], 0, 0))[..2] == s[..2] <==> SextetOf(s[1]) % 16 == 0)
  {
    hide SextetOf, SextetChar, Quantum, ReadQuantum, Triple;
    OneByteRead(s);
    var w, x := SextetOf(s[0]), SextetOf(s[1]);
    QuantumOf(w, x - x % 16, 0, 0);
    LastSextet(s[1], x - x % 16);
    FrontChars(Quantum(262144 * w + 4096 * (x - x % 16)), s);
  }

  lemma {:induction false} OneByteRead(s: string)
    requires |s| == 4 && ReadQuantum(s, 1).Some?
    ensures var b, w, x := ReadQuantum(s, 1).value, SextetOf(s[0]), SextetOf(s[1]);
            |b| == 1 && w < 64 && x < 64 && Triple(b[0], 0, 0) == 262144 * w + 4096 * (x - x % 16)
  {
    hide SextetOf, SextetChar;
    OneByte(SextetOf(s[0]), SextetOf(s[1]));
  }

  lemma {:induction false} TwoByteQuantum(s: string)
    requires |s| == 4 && ReadQuantum(s, 2).Some?
    ensures var b := ReadQuantum(s, 2).value;
            |b| == 2 && (Quantum(Triple(b[0], b[1], 0))[..3] == s[..3] <==> SextetOf(s[2]) % 4 == 0)
  {
    hide SextetOf, SextetChar, Quantum, ReadQuantum, Triple;
    TwoBytesRead(s);
    var w, x, y := SextetOf(s[0]), SextetOf(s[1]), SextetOf(s[2]);
    QuantumOf(w, x, y - y % 4, 0);
    LastSextet(s[2], y - y % 4);
    FrontChars(Quantum(262144 * w + 4096 * x + 64 * (y - y % 4)), s);
  }

  lemma {:induction false} TwoBytesRead(s: string)
    requires |s| == 4 && ReadQuantum(s, 2).Some?
    ensures var b, w, x, y := ReadQuantum(s, 2).value, SextetOf(s[0]), SextetOf(s[1]), SextetOf(s[2]);
            && |b| == 2 && w < 64 && x < 64 && y < 64
            && Triple(b[0], b[1], 0) == 262144 * w + 4096 * x + 64 * (y - y % 4)
  {
    hide SextetOf, SextetChar;
    TwoBytes(SextetOf(s[0]), SextetOf(s[1]), SextetOf(s[2]));
  }

  /** Equal fronts of two groups, character by character. */
  lemma FrontChars(a: string, b: string)
    requires |a| == 4 && |b| == 4
    ensures a[..2] == b[..2] <==> a[0] == b[0] && a[1] == b[1]
    ensures a[..3] == b[..3] <==> a[0] == b[0] && a[1] == b[1] && a[2] == b[2]
  {
    assert a[..2] == [a[0], a[1]] && b[..2] == [b[0], b[1]];
    assert a[..3] == [a[0], a[1], a[2]] && b[..3] == [b[0], b[1], b[2]];
  }

  lemma LastSextet(c: char, v: nat)
    requires SextetOf(c) < 64 && v < 64
    ensures SextetChar(v) == c <==> v == SextetOf(c)
  {
    SextetRoundTrip(v);
  }

  lemma SextetsOf(w: nat, x: nat, y: nat, z: nat)
    requires w < 64 && x < 64 && y < 64 && z < 64
    ensures var n := 262144 * w + 4096 * x + 64 * y + z;
            n < 16777216 && n / 262144 == w && n / 4096 % 64 == x && n / 64 % 64 == y && n % 64 == z
  {
    var n := 262144 * w + 4096 * x + 64 * y + z;
    assert n / 64 == 4096 * w + 64 * x + y;
    assert n / 4096 == 64 * w + x;
  }

  lemma BytesOf(n: nat)
    requires n < 16777216
    ensures 65536 * (n / 65536) + 256 * (n / 256 % 256) + n % 256 == n && n / 65536 < 256
  {
    assert n / 65536 == n / 256 / 256;
  }

  /** The byte of a group of two sextets. */
  lemma OneByte(w: nat, x: nat)
    requires w < 64 && x < 64
    ensures var n := 262144 * w + 4096 * x;
            n / 65536 < 256 && 65536 * (n / 65536) == 262144 * w + 4096 * (x - x % 16)
  {
    var n := 262144 * w + 4096 * x;
    assert n / 65536 == 4 * w + x / 16;
  }

  /** The two bytes of a group of three sextets. */
  lemma TwoBytes(w: nat, x: nat, y: nat)
    requires w < 64 && x < 64 && y < 64
    ensures var n := 262144 * w + 4096 * x + 64 * y;
            && n / 65536 < 256
            && 65536 * (n / 65536) + 256 * (n / 256 % 256) == 262144 * w + 4096 * x + 64 * (y - y % 4)
  {
    var n := 262144 * w + 4096 * x + 64 * y;
    Drop256(1024 * w + 16 * x + y / 4, y % 4, n);
    BytesOf(256 * (n / 256));
  }

  lemma Drop256(q: nat, k: nat, n: nat)
    requires k < 4 && n == 256 * q + 64 * k && q < 65536
    ensures n / 256 == q && n / 65536 == q / 256 && n / 65536 < 256
  {
    assert n / 65536 == n / 256 / 256;
  }

  /** Which accepted strings are printed forms: exactly those whose leftover bits are zero. */
  lemma {:induction false} CanonicalExact(s: string)
    requires Decode(s).Some?
    ensures Encode(Decode(s).value) == s <==> Canonical(s)
    decreases |s|
  {
    hide Quantum, ReadQuantum, Triple, SextetOf;
    if |s| == 4 && s[2..] == "==" {
      OneByteQuantum(s);
      assert s == s[..2] + s[2..];
    } else if |s| == 4 && s[3] == '=' {
      TwoByteQuantum(s);
      assert s == s[..3] + "=";
    } else if |s| >= 4 {
      var b, rest := ReadQuantum(s[..4], 3).value, Decode(s[4..]).value;
      CanonicalExact(s[4..]);
      WholeQuantum(s[..4]);
      var all := b + rest;
      assert all[3..] == rest && all[0] == b[0] && all[1] == b[1] && all[2] == b[2];
      assert Encode(all) == s[..4] + Encode(rest);
      assert s == s[..4] + s[4..];
      assert (s[..4] + Encode(rest))[4..] == Encode(rest);
    }
  }
}
