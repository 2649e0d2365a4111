/** The CBOR of RFC 8949 in numbers: heads, the examples of its appendix A, and what is refused. */
module CborVectors {
  import opened Octets
  import opened Cbor

  /** A head is the shortest one: its first octet, its length, and the argument that follows. */
  lemma {:induction false} HeadIsShortest(major: nat, n: nat)
    requires major < 8 && n < TWO_64
    ensures var r := Head(major, n);
            && r[0] as int == 32 * major + (if n < 24 then n else if n < 256 then 24 else if n < 65536 then 25
                                            else if n < 4294967296 then 26 else 27)
            && |r| == (if n < 24 then 1 else if n < 256 then 2 else if n < 65536 then 3
                       else if n < 4294967296 then 5 else 9)
            && (n >= 24 ==> FromBig(r[1..]) == n)
  {
    hide ToBig, FromBig, Pow256;
    Pow256Values();
    var (k, info) := ArgumentWidth(n);
    if k > 0 {
      BigRoundTrip(n, k);
      assert Head(major, n)[1..] == ToBig(n, k);
    }
  }

  lemma TwoOctets(n: nat)
    requires n < 65536
    ensures n < Pow256(2) && ToBig(n, 2) == [(n / 256) as byte, (n % 256) as byte]
  {
    Pow256Values();
    assert ToBig(n / 256 / 256, 0) == [];
    assert ToBig(n / 256, 1) == [(n / 256) as byte];
  }

  lemma FourOctets(n: nat)
    requires n < 4294967296
    ensures n < Pow256(4) && n / 65536 < 65536
    ensures ToBig(n, 4) == ToBig(n / 65536, 2) + [(n / 256 % 256) as byte, (n % 256) as byte]
  {
    Pow256Values();
    TwoOctets(n / 65536);
    assert n / 256 / 256 == n / 65536;
    assert ToBig(n / 256, 3) == ToBig(n / 65536, 2) + [(n / 256 % 256) as byte];
  }

  /** Integers (appendix A of RFC 8949). */
  lemma IntegerExamples()
    ensures Encode(Int(0)) == [0x00] && Encode(Int(23)) == [0x17] && Encode(Int(24)) == [0x18, 0x18]
    ensures Encode(Int(100)) == [0x18, 0x64] && Encode(Int(1000)) == [0x19, 0x03, 0xE8]
    ensures Encode(Int(1000000)) == [0x1A, 0x00, 0x0F, 0x42, 0x40]
    ensures Encode(Int(-1)) == [0x20] && Encode(Int(-100)) == [0x38, 0x63] && Encode(Int(-1000)) == [0x39, 0x03, 0xE7]
  {
    NegativeExamples();
    hide ToBig;
    OneOctet(24);
    OneOctet(100);
    TwoOctets(1000);
    FourOctets(1000000);
    TwoOctets(15);
  }

  lemma NegativeExamples()
    ensures Encode(Int(-1)) == [0x20] && Encode(Int(-100)) == [0x38, 0x63] && Encode(Int(-1000)) == [0x39, 0x03, 0xE7]
  {
    hide ToBig;
    OneOctet(99);
    TwoOctets(999);
  }

  lemma OneOctet(n: nat)
    requires n < 256
    ensures n < Pow256(1) && ToBig(n, 1) == [n as byte]
  {
    Pow256Values();
    assert ToBig(n / 256, 0) == [];
  }

  /** Simple values and strings (appendix A of RFC 8949). */
  lemma ScalarExamples()
    ensures Encode(Bool(false)) == [0xF4] && Encode(Bool(true)) == [0xF5] && Encode(Null) == [0xF6]
    ensures Encode(Byte([])) == [0x40] && Encode(Byte([1, 2, 3, 4])) == [0x44, 0x01, 0x02, 0x03, 0x04]
    ensures Encodable(Text([0x49, 0x45, 0x54, 0x46]))
            && Encode(Text([0x49, 0x45, 0x54, 0x46])) == [0x64, 0x49, 0x45, 0x54, 0x46]
  {
    assert ValidUtf8([0x46]);
    assert ValidUtf8([0x54, 0x46]);
    assert ValidUtf8([0x45, 0x54, 0x46]);
  }

  lemma ArrayExample()
    ensures Encode(Array([])) == [0x80] && Encode(Array([Int(1), Int(2), Int(3)])) == [0x83, 0x01, 0x02, 0x03]
  {
    var v := Array([Int(1), Int(2), Int(3)]);
    var items := v.items;
    assert items[0] == Int(1) && items[1] == Int(2) && items[2] == Int(3);
    assert items[1..][1..] == items[2..] && items[2..][1..] == items[3..] == [];
    assert EncodeAll(v, items[3..]) == [];
    assert EncodeAll(v, items[2..]) == [0x03];
    assert EncodeAll(v, items[1..]) == [0x02, 0x03];
  }

  lemma MapExample()
    ensures Encode(Map(map[])) == [0xA0]
    ensures Encodable(Map(map[IntKey(1) := Int(2)])) && Encode(Map(map[IntKey(1) := Int(2)])) == [0xA1, 0x01, 0x02]
  {
    var k := IntKey(1);
    var v := Map(map[k := Int(2)]);
    assert v.entries.Keys == {k} && |v.entries| == 1;
    var keys := SortedKeys({k});
    assert |keys| == 1 && keys[0] in keys && keys == [k];
    assert EncodePairs(v, [k][1..]) == [];
    assert EncodePairs(v, [k]) == EncodeKey(k) + Encode(Int(2));
  }

  /** An argument may be written wider than needed: the decoder reads it all the same. */
  lemma {:induction false} WideIntegerIsRead(n: nat, k: nat, post: Bytes, depth: nat)
    requires k in {1, 2, 4, 8} && n < Pow256(k) && depth <= 64
    ensures var info: byte := if k == 1 then 0x18 else if k == 2 then 0x19 else if k == 4 then 0x1A else 0x1B;
            ReadItem([info] + ToBig(n, k) + post, depth) == Ok(Int(n), post)
  {
    hide ToBig, FromBig, Pow256;
    var info: byte := if k == 1 then 0x18 else if k == 2 then 0x19 else if k == 4 then 0x1A else 0x1B;
    var big := ToBig(n, k);
    var s := [info] + big + post;
    BigRoundTrip(n, k);
    assert s[1..] == big + post && (big + post)[..k] == big && (big + post)[k..] == post;
    if k == 1 {
      SingleByte(n, big);
    }
  }

  /** Refused: reserved arguments and indefinite lengths, tags, and simple values other than false, true and null. */
  lemma RefusedHeads(s: Bytes, depth: nat)
    requires s != []
    ensures s[0] as int % 32 >= 28 ==> ReadItem(s, depth).Fail?
    ensures s[0] as int / 32 == 6 ==> ReadItem(s, depth).Fail?
    ensures s[0] as int / 32 == 7 && s[0] as int % 32 !in {20, 21, 22} ==> ReadItem(s, depth).Fail?
  {
    hide ReadItems, ReadPairs, ValidUtf8, FromBig;
  }

  /** k arrays of one item inside one another, around an empty one. */
  function Nest(k: nat): Bytes {
    if k == 0 then [0x80] else [0x81] + Nest(k - 1)
  }

  lemma {:induction false} NestReads(k: nat, post: Bytes, depth: nat)
    ensures ReadItem(Nest(k) + post, depth).Ok? <==> depth + k <= 64
    ensures depth + k <= 64 ==> ReadItem(Nest(k) + post, depth).rest == post
    decreases k
  {
    hide ReadItem;
    if k == 0 {
      ArrayHead(0, post, depth);
    } else {
      var t := Nest(k - 1) + post;
      assert Nest(k) + post == [0x81] + t;
      ArrayHead(1, t, depth);
      if depth <= 64 {
        NestReads(k - 1, post, depth + 1);
        OneItem(t, depth + 1);
      }
    }
  }

  /** An array of no or one item. */
  lemma ArrayHead(n: nat, t: Bytes, depth: nat)
    requires n <= 1
    ensures var r := ReadItem([(0x80 + n) as byte] + t, depth);
            if depth > 64 then r.Fail?
            else if n == 0 then r.Ok? && r.rest == t
            else (r.Ok? <==> ReadItems(t, depth + 1, 1).Ok?) && (r.Ok? ==> r.rest == ReadItems(t, depth + 1, 1).rest)
  {
    hide ReadItems, ReadPairs, ValidUtf8;
    var s: Bytes := [(0x80 + n) as byte] + t;
    assert s[1..] == t && s[0] as int == 128 + n;
    if depth <= 64 {
      assert Argument(n, t) == Read.Ok(n, t);
      NoItems(t, depth + 1);
    }
  }

  lemma NoItems(t: Bytes, depth: nat)
    requires depth <= 65
    ensures ReadItems(t, depth, 0) == Ok([], t)
  {
  }

  lemma OneItem(t: Bytes, depth: nat)
    requires depth <= 65
    ensures ReadItems(t, depth, 1).Ok? <==> ReadItem(t, depth).Ok?
    ensures ReadItem(t, depth).Ok? ==> ReadItems(t, depth, 1).rest == ReadItem(t, depth).rest
  {
    hide ReadItem;
    if ReadItem(t, depth).Ok? {
      assert ReadItems(ReadItem(t, depth).rest, depth, 0) == Ok([], ReadItem(t, depth).rest);
    }
  }

  /** Nesting is accepted down to 64 levels below the outermost item, and refused beyond. */
  lemma DepthLimit(k: nat)
    ensures Decode(Nest(k)).Some? <==> k <= 64
  {
    NestReads(k, [], 0);
    assert Nest(k) + [] == Nest(k);
  }
}
