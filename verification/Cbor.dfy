/**
 The CBOR encoder and decoder of cryptovalid_receipt.py (RFC 8949, the types used there).
 The decoder is modelled as written, with Python slices that silently stop at the end of the
 input; it is proved equal to a reference reader that consumes the input and never looks past it.
 */
module Cbor {
  import opened MerkleTree
  import opened Octets

  const MAX_DEPTH := 64
  const TWO_64 := 0x1_0000_0000_0000_0000

  /** Map keys the decoder admits. */
  datatype Key = IntKey(n: int) | BytesKey(bytes: Bytes) | TextKey(utf8: Bytes)

  datatype Value =
    | Bool(b: bool)
    | Null
    | Int(n: int)
    | Byte(bytes: Bytes)
    | Text(utf8: Bytes)
    | Array(items: seq<Value>)
    | Map(entries: map<Key, Value>)

  function KeyValue(k: Key): Value {
    match k
    case IntKey(n) => Int(n)
    case BytesKey(b) => Byte(b)
    case TextKey(t) => Text(t)
  }

  /** int, bytes and str are keys; bool, None, arrays and maps are not. */
  function AsKey(v: Value): Option<Key> {
    match v
    case Int(n) => Some(IntKey(n))
    case Byte(b) => Some(BytesKey(b))
    case Text(t) => Some(TextKey(t))
    case _ => None
  }

  // ---------------------------------------------------------------- encoder

  predicate EncodableKey(k: Key) {
    match k
    case IntKey(n) => -TWO_64 <= n < TWO_64
    case BytesKey(b) => |b| < TWO_64
    case TextKey(t) => |t| < TWO_64 && ValidUtf8(t)
  }

  /** The values cbor_encode does not raise on: 64-bit integers and lengths, encodable text. */
  predicate Encodable(v: Value) {
    match v
    case Bool(_) => true
    case Null => true
    case Int(n) => -TWO_64 <= n < TWO_64
    case Byte(b) => |b| < TWO_64
    case Text(t) => |t| < TWO_64 && ValidUtf8(t)
    case Array(items) => |items| < TWO_64 && forall i :: 0 <= i < |items| ==> Encodable(items[i])
    case Map(m) => |m| < TWO_64 && forall k :: k in m ==> EncodableKey(k) && Encodable(m[k])
  }

  /** The initial byte and argument of an item, in the shortest form. */
  function Head(major: nat, n: nat): (r: Bytes)
    requires major < 8 && n < TWO_64
    ensures |r| >= 1
  {
    var base := 32 * major;
    if n < 24 then [(base + n) as byte]
    else if n < 0x100 then [(base + 24) as byte] + ToBig(n, 1)
    else if n < 0x10000 then [(base + 25) as byte] + ToBig(n, 2)
    else if n < 0x1_0000_0000 then [(base + 26) as byte] + ToBig(n, 4)
    else [(base + 27) as byte] + ToBig(n, 8)
  }

  function EncodeKey(k: Key): Bytes
    requires EncodableKey(k)
  {
    match k
    case IntKey(n) => if n >= 0 then Head(0, n) else Head(1, -1 - n)
    case BytesKey(b) => Head(2, |b|) + b
    case TextKey(t) => Head(3, |t|) + t
  }

  function Encode(v: Value): Bytes
    requires Encodable(v)
    decreases v, 1, 0
  {
    match v
    case Bool(b) => if b then [0xF5] else [0xF4]
    case Null => [0xF6]
    case Int(n) => if n >= 0 then Head(0, n) else Head(1, -1 - n)
    case Byte(b) => Head(2, |b|) + b
    case Text(t) => Head(3, |t|) + t
    case Array(items) => Head(4, |items|) + EncodeAll(v, items)
    case Map(m) => Head(5, |m|) + EncodePairs(v, SortedKeys(m.Keys))
  }

  function EncodeAll(ghost parent: Value, items: seq<Value>): Bytes
    requires forall i :: 0 <= i < |items| ==> items[i] < parent && Encodable(items[i])
    decreases parent, 0, |items|
  {
    if items == [] then [] else Encode(items[0]) + EncodeAll(parent, items[1..])
  }

  /** The pairs of a map in the order of their encoded keys. */
  function EncodePairs(parent: Value, keys: seq<Key>): Bytes
    requires parent.Map? && Encodable(parent) && forall i :: 0 <= i < |keys| ==> keys[i] in parent.entries
    decreases parent, 0, |keys|
  {
    if keys == [] then []
    else EncodeKey(keys[0]) + Encode(parent.entries[keys[0]]) + EncodePairs(parent, keys[1..])
  }

  predicate AllEncodable(keys: set<Key>) {
    forall k :: k in keys ==> EncodableKey(k)
  }

  predicate IsFirst(k: Key, keys: set<Key>)
    requires AllEncodable(keys)
  {
    k in keys && forall x :: x in keys ==> LexLe(EncodeKey(k), EncodeKey(x))
  }

  lemma {:induction false} HasFirst(keys: set<Key>) returns (k: Key)
    requires keys != {} && AllEncodable(keys)
    ensures IsFirst(k, keys)
  {
    hide EncodeKey;
    k :| k in keys;
    LexTotal(EncodeKey(k), EncodeKey(k));
    var rest := keys - {k};
    if rest != {} {
      var j := HasFirst(rest);
      LexTotal(EncodeKey(k), EncodeKey(j));
      var first := if LexLe(EncodeKey(k), EncodeKey(j)) then k else j;
      forall x | x in keys ensures LexLe(EncodeKey(first), EncodeKey(x)) {
        if x != k {
          LexTransitive(EncodeKey(first), EncodeKey(j), EncodeKey(x));
        }
      }
      k := first;
    } else {
      assert keys == {k};
    }
  }

  function FirstKey(keys: set<Key>): (k: Key)
    requires keys != {} && AllEncodable(keys)
    ensures IsFirst(k, keys)
  {
    assert exists k :: IsFirst(k, keys) by { var k := HasFirst(keys); }
    assert forall a, b :: IsFirst(a, keys) && IsFirst(b, keys) ==> a == b by {
      forall a, b | IsFirst(a, keys) && IsFirst(b, keys) ensures a == b {
        LexAntisymmetric(EncodeKey(a), EncodeKey(b));
        EncodeKeyInjective(a, b);
      }
    }
    var k :| IsFirst(k, keys);
    k
  }

  /** sorted(..., key=encoded key). */
  function SortedKeys(keys: set<Key>): (r: seq<Key>)
    requires AllEncodable(keys)
    ensures |r| == |keys|
    ensures forall k :: k in r <==> k in keys
    ensures forall i, j :: 0 <= i < j < |r| ==> r[i] != r[j]
  {
    if keys == {} then []
    else
      var k := FirstKey(keys);
      [k] + SortedKeys(keys - {k})
  }

  // ---------------------------------------------------------------- reference reader

  datatype Read<+T> = Fail | Ok(value: T, rest: Bytes)

  /** The argument that follows an initial byte. */
  function Argument(info: nat, s: Bytes): Read<nat> {
    if info < 24 then Ok(info, s)
    else if info == 24 && |s| >= 1 then Ok(s[0] as nat, s[1..])
    else if info == 25 && |s| >= 2 then Ok(FromBig(s[..2]), s[2..])
    else if info == 26 && |s| >= 4 then Ok(FromBig(s[..4]), s[4..])
    else if info == 27 && |s| >= 8 then Ok(FromBig(s[..8]), s[8..])
    else Fail
  }

  /** Read one item from the front of `s`, at a nesting depth. */
  function ReadItem(s: Bytes, depth: nat): Read<Value>
    decreases MAX_DEPTH + 1 - depth, 1, 0
  {
    if depth > MAX_DEPTH || s == [] then Fail
    else
      var major, info := s[0] as int / 32, s[0] as int % 32;
      if major == 7 && 20 <= info <= 22 then
        Ok(if info == 20 then Bool(false) else if info == 21 then Bool(true) else Null, s[1..])
      else
        var a := Argument(info, s[1..]);
        if a.Fail? then Fail else ReadBody(major, a.value, a.rest, depth)
  }

  /** What follows the initial byte and its argument. */
  function ReadBody(major: nat, n: nat, s: Bytes, depth: nat): Read<Value>
    requires depth <= MAX_DEPTH
    decreases MAX_DEPTH + 1 - depth, 0, 0
  {
    if major == 0 then Ok(Int(n), s)
    else if major == 1 then Ok(Int(-1 - n), s)
    else if major == 2 then (if n <= |s| then Ok(Byte(s[..n]), s[n..]) else Fail)
    else if major == 3 then (if n <= |s| && ValidUtf8(s[..n]) then Ok(Text(s[..n]), s[n..]) else Fail)
    else if major == 4 then
      var r := ReadItems(s, depth + 1, n);
      if r.Fail? then Fail else Ok(Array(r.value), r.rest)
    else if major == 5 then
      var r := ReadPairs(s, depth + 1, n, map[]);
      if r.Fail? then Fail else Ok(Map(r.value), r.rest)
    else Fail
  }

  function ReadItems(s: Bytes, depth: nat, n: nat): Read<seq<Value>>
    requires depth <= MAX_DEPTH + 1
    decreases MAX_DEPTH + 1 - depth, 2, n
  {
    if n == 0 then Ok([], s)
    else
      var r := ReadItem(s, depth);
      if r.Fail? then Fail
      else
        var more := ReadItems(r.rest, depth, n - 1);
        if more.Fail? then Fail else Ok([r.value] + more.value, more.rest)
  }

  /** Read n pairs into a map; a key of another type or a repeated key is refused. */
  function ReadPairs(s: Bytes, depth: nat, n: nat, acc: map<Key, Value>): Read<map<Key, Value>>
    requires depth <= MAX_DEPTH + 1
    decreases MAX_DEPTH + 1 - depth, 2, n
  {
    if n == 0 then Ok(acc, s)
    else
      var k := ReadItem(s, depth);
      if k.Fail? then Fail
      else
        var v := ReadItem(k.rest, depth);
        if v.Fail? || AsKey(k.value).None? || AsKey(k.value).value in acc then Fail
        else ReadPairs(v.rest, depth, n - 1, acc[AsKey(k.value).value := v.value])
  }

  /** cbor_decode: one item, and nothing after it. */
  function Decode(b: Bytes): Option<Value> {
    var r := ReadItem(b, 0);
    if r.Ok? && r.rest == [] then Some(r.value) else None
  }

  // ---------------------------------------------------------------- round trip

  /** Nesting small enough for the decoder when the value sits at `depth`. */
  predicate Fits(v: Value, depth: nat) {
    depth <= MAX_DEPTH &&
    match v
    case Array(items) => forall i :: 0 <= i < |items| ==> Fits(items[i], depth + 1)
    case Map(m) => forall k :: k in m ==> depth + 1 <= MAX_DEPTH && Fits(m[k], depth + 1)
    case _ => true
  }

  lemma Pow256Values()
    ensures Pow256(1) == 0x100 && Pow256(2) == 0x10000 && Pow256(4) == 0x1_0000_0000 && Pow256(8) == TWO_64
  {
    assert Pow256(3) == 0x100_0000;
    assert Pow256(5) == 0x100_0000_0000;
    assert Pow256(6) == 0x1_0000_0000_0000;
    assert Pow256(7) == 0x100_0000_0000_0000;
  }

  /** How many argument bytes follow the initial byte, and the low five bits of it. */
  function ArgumentWidth(n: nat): (nat, nat) {
    if n < 24 then (0, n)
    else if n < 0x100 then (1, 24)
    else if n < 0x10000 then (2, 25)
    else if n < 0x1_0000_0000 then (4, 26)
    else (8, 27)
  }

  /** A head is read back: its major type, its argument, and what follows. */
  lemma {:induction false} HeadReads(major: nat, n: nat, post: Bytes)
    requires major < 8 && n < TWO_64
    ensures var s := Head(major, n) + post;
            && s[0] as int / 32 == major
            && Argument(s[0] as int % 32, s[1..]) == Ok(n, post)
            && s[0] as int % 32 == ArgumentWidth(n).1
  {
    hide ToBig, FromBig, Pow256;
    Pow256Values();
    var (k, info) := ArgumentWidth(n);
    var s := Head(major, n) + post;
    assert s[0] as int == 32 * major + info;
    if k > 0 {
      BigRoundTrip(n, k);
      var big := ToBig(n, k);
      assert s[1..] == big + post;
      assert (big + post)[..k] == big && (big + post)[k..] == post;
      if k == 1 {
        SingleByte(n, big);
      }
    } else {
      assert s[1..] == post;
    }
  }

  lemma SingleByte(n: nat, big: Bytes)
    requires n < Pow256(1) && big == ToBig(n, 1)
    ensures big[0] as nat == n
  {
    assert ToBig(n / 256, 0) == [];
  }

  lemma {:induction false} EncodeKeyInjective(a: Key, b: Key)
    requires EncodableKey(a) && EncodableKey(b) && EncodeKey(a) == EncodeKey(b)
    ensures a == b
  {
    hide Argument, Head;
    KeyHeadReads(a);
    KeyHeadReads(b);
  }

  function KeyMajor(k: Key): nat {
    match k
    case IntKey(n) => if n >= 0 then 0 else 1
    case BytesKey(_) => 2
    case TextKey(_) => 3
  }

  function KeyArgument(k: Key): nat
    requires EncodableKey(k)
  {
    match k
    case IntKey(n) => if n >= 0 then n else -1 - n
    case BytesKey(b) => |b|
    case TextKey(t) => |t|
  }

  function KeyTail(k: Key): Bytes {
    match k
    case IntKey(n) => []
    case BytesKey(b) => b
    case TextKey(t) => t
  }

  lemma KeyHeadReads(k: Key)
    requires EncodableKey(k)
    ensures var s := EncodeKey(k);
            && |s| > 0 && s[0] as int / 32 == KeyMajor(k)
            && Argument(s[0] as int % 32, s[1..]) == Ok(KeyArgument(k), KeyTail(k))
  {
    HeadReads(KeyMajor(k), KeyArgument(k), KeyTail(k));
    assert Head(KeyMajor(k), KeyArgument(k)) + KeyTail(k) == EncodeKey(k);
  }

  lemma {:induction false} ScalarReads(v: Value, post: Bytes, depth: nat)
    requires Encodable(v) && depth <= MAX_DEPTH && !v.Array? && !v.Map?
    ensures ReadItem(Encode(v) + post, depth) == Ok(v, post)
  {
    hide Head, Argument, ValidUtf8;
    match v
    case Bool(_) =>
    case Null =>
    case Int(n) =>
      if n >= 0 {
        HeadReads(0, n, post);
      } else {
        HeadReads(1, -1 - n, post);
      }
    case Byte(b) =>
      HeadReads(2, |b|, b + post);
      assert Encode(v) + post == Head(2, |b|) + (b + post);
    case Text(t) =>
      HeadReads(3, |t|, t + post);
      assert Encode(v) + post == Head(3, |t|) + (t + post);
  }

  /** Reading back what was written, whatever follows it. */
  lemma {:induction false} EncodedReads(v: Value, post: Bytes, depth: nat)
    requires Encodable(v) && Fits(v, depth)
    ensures ReadItem(Encode(v) + post, depth) == Ok(v, post)
    decreases v, 1, 0
  {
    hide *;
    if v.Array? {
      ArrayParts(v, depth);
      EncodedAllReads(v, v.items, post, depth + 1);
      ArrayReads(v, post, depth);
    } else if v.Map? {
      MapParts(v, depth);
      EncodedPairsRead(v, SortedKeys(v.entries.Keys), post, depth + 1, map[]);
      MapReads(v, post, depth);
    } else {
      FitsDepth(v, depth);
      ScalarReads(v, post, depth);
    }
  }

  lemma FitsDepth(v: Value, depth: nat)
    requires Fits(v, depth)
    ensures depth <= MAX_DEPTH
  {
  }

  lemma ArrayParts(v: Value, depth: nat)
    requires v.Array? && Encodable(v) && Fits(v, depth)
    ensures depth <= MAX_DEPTH && |v.items| < TWO_64
    ensures forall i :: 0 <= i < |v.items| ==> v.items[i] < v && Encodable(v.items[i]) && Fits(v.items[i], depth + 1)
  {
  }

  lemma MapParts(v: Value, depth: nat)
    requires v.Map? && Encodable(v) && Fits(v, depth)
    ensures depth <= MAX_DEPTH && |v.entries| < TWO_64 && AllEncodable(v.entries.Keys)
    ensures forall k :: k in v.entries ==> depth + 1 <= MAX_DEPTH && Fits(v.entries[k], depth + 1)
  {
  }

  /** The array case: head, then the items. */
  lemma {:induction false} ArrayReads(v: Value, post: Bytes, depth: nat)
    requires v.Array? && Encodable(v) && depth <= MAX_DEPTH
    requires ReadItems(EncodeAll(v, v.items) + post, depth + 1, |v.items|) == Ok(v.items, post)
    ensures ReadItem(Encode(v) + post, depth) == Ok(v, post)
  {
    hide Head, Argument, ReadItems, ReadPairs, EncodeAll, EncodePairs, ValidUtf8;
    var body := EncodeAll(v, v.items);
    HeadReads(4, |v.items|, body + post);
    assert Encode(v) + post == Head(4, |v.items|) + (body + post);
  }

  /** The map case: head, then the pairs in the order of their keys. */
  lemma {:induction false} MapReads(v: Value, post: Bytes, depth: nat)
    requires v.Map? && Encodable(v) && depth <= MAX_DEPTH
    requires var keys := SortedKeys(v.entries.Keys);
             ReadPairs(EncodePairs(v, keys) + post, depth + 1, |keys|, map[])
                 == Ok(AddAll(map[], v.entries, keys), post)
    ensures ReadItem(Encode(v) + post, depth) == Ok(v, post)
  {
    hide Head, Argument, ReadItems, ReadPairs, EncodeAll, EncodePairs, ValidUtf8, SortedKeys, AddAll, Encodable, Encode;
    EncodedMap(v);
    var keys := SortedKeys(v.entries.Keys);
    var body := EncodePairs(v, keys);
    HeadReads(5, |v.entries|, body + post);
    assert Encode(v) + post == Head(5, |v.entries|) + (body + post);
    AllKeys(v.entries);
  }

  lemma EncodedMap(v: Value)
    requires v.Map? && Encodable(v)
    ensures |v.entries| < TWO_64 && AllEncodable(v.entries.Keys)
    ensures Encode(v) == Head(5, |v.entries|) + EncodePairs(v, SortedKeys(v.entries.Keys))
  {
  }

  lemma AllKeys(m: map<Key, Value>)
    requires AllEncodable(m.Keys)
    ensures |SortedKeys(m.Keys)| == |m| && AddAll(map[], m, SortedKeys(m.Keys)) == m
  {
    hide SortedKeys;
    assert |m| == |m.Keys|;
  }

  lemma {:induction false} EncodedAllReads(parent: Value, items: seq<Value>, post: Bytes, depth: nat)
    requires depth <= MAX_DEPTH + 1
    requires forall i :: 0 <= i < |items| ==> items[i] < parent && Encodable(items[i]) && Fits(items[i], depth)
    ensures ReadItems(EncodeAll(parent, items) + post, depth, |items|) == Ok(items, post)
    decreases parent, 0, |items|
  {
    hide ReadItem, Encode;
    if items != [] {
      var rest := EncodeAll(parent, items[1..]) + post;
      EncodedReads(items[0], rest, depth);
      EncodedAllReads(parent, items[1..], post, depth);
      assert EncodeAll(parent, items) + post == Encode(items[0]) + rest;
      assert items == [items[0]] + items[1..];
    }
  }

  ghost function AddAll(acc: map<Key, Value>, m: map<Key, Value>, keys: seq<Key>): map<Key, Value>
    requires forall i :: 0 <= i < |keys| ==> keys[i] in m
  {
    acc + (map k | k in keys :: m[k])
  }

  lemma {:induction false} EncodedPairsRead(parent: Value, keys: seq<Key>, post: Bytes, depth: nat,
                                               acc: map<Key, Value>)
    requires depth <= MAX_DEPTH + 1 && parent.Map? && Encodable(parent)
    requires forall i :: 0 <= i < |keys| ==> keys[i] in parent.entries && keys[i] !in acc
    requires forall i, j :: 0 <= i < j < |keys| ==> keys[i] != keys[j]
    requires forall k :: k in parent.entries ==> depth <= MAX_DEPTH && Fits(parent.entries[k], depth)
    ensures ReadPairs(EncodePairs(parent, keys) + post, depth, |keys|, acc)
            == Ok(AddAll(acc, parent.entries, keys), post)
    decreases parent, 0, |keys|
  {
    hide ReadItem, Encode, EncodeKey, Encodable, Fits, SortedKeys, AddAll;
    EncodableEntries(parent);
    var m := parent.entries;
    if keys != [] {
      var k := keys[0];
      var rest := EncodePairs(parent, keys[1..]) + post;
      KeyReads(k, Encode(m[k]) + rest, depth);
      EncodedReads(m[k], rest, depth);
      assert EncodePairs(parent, keys) + post == EncodeKey(k) + (Encode(m[k]) + rest);
      EncodedPairsRead(parent, keys[1..], post, depth, acc[k := m[k]]);
      AddAllStep(acc, m, keys);
    } else {
      AddNone(acc, m);
    }
  }

  lemma EncodableEntries(v: Value)
    requires v.Map? && Encodable(v)
    ensures forall k :: k in v.entries ==> EncodableKey(k) && Encodable(v.entries[k]) && v.entries[k] < v
  {
  }

  lemma AddNone(acc: map<Key, Value>, m: map<Key, Value>)
    ensures AddAll(acc, m, []) == acc
  {
  }

  lemma AddAllStep(acc: map<Key, Value>, m: map<Key, Value>, keys: seq<Key>)
    requires keys != [] && forall i :: 0 <= i < |keys| ==> keys[i] in m
    ensures AddAll(acc[keys[0] := m[keys[0]]], m, keys[1..]) == AddAll(acc, m, keys)
  {
    assert keys == [keys[0]] + keys[1..];
  }

  lemma KeyReads(k: Key, post: Bytes, depth: nat)
    requires EncodableKey(k) && depth <= MAX_DEPTH
    ensures ReadItem(EncodeKey(k) + post, depth) == Ok(KeyValue(k), post) && AsKey(KeyValue(k)) == Some(k)
  {
    ScalarReads(KeyValue(k), post, depth);
    assert Encode(KeyValue(k)) == EncodeKey(k);
  }

  /** cbor_decode(cbor_encode(v)) is v for every encodable value of nesting depth at most 64. */
  lemma {:induction false} RoundTrip(v: Value)
    requires Encodable(v) && Fits(v, 0)
    ensures Decode(Encode(v)) == Some(v)
  {
    EncodedReads(v, [], 0);
    assert Encode(v) + [] == Encode(v);
  }

  /** So the encoding is injective. */
  lemma {:induction false} EncodeInjective(v: Value, w: Value)
    requires Encodable(v) && Fits(v, 0) && Encodable(w) && Fits(w, 0) && Encode(v) == Encode(w)
    ensures v == w
  {
    RoundTrip(v);
    RoundTrip(w);
  }

  // ---------------------------------------------------------------- what the decoder returns

  lemma {:induction false} ArgumentBound(info: nat, s: Bytes)
    ensures var a := Argument(info, s); a.Ok? ==> a.value < TWO_64 && |a.rest| <= |s|
  {
    Pow256Values();
  }

  /** A decoded value can be encoded again, at the depth where it was read. */
  lemma {:induction false} DecodedIsEncodable(s: Bytes, depth: nat)
    requires |s| < TWO_64
    ensures var r := ReadItem(s, depth); r.Ok? ==> Encodable(r.value) && Fits(r.value, depth) && |r.rest| < |s|
    decreases MAX_DEPTH + 1 - depth, 1, 0
  {
    hide Argument, ReadBody;
    if depth <= MAX_DEPTH && s != [] {
      var info := s[0] as int % 32;
      ArgumentBound(info, s[1..]);
      var a := Argument(info, s[1..]);
      if a.Ok? {
        BodyIsEncodable(s[0] as int / 32, a.value, a.rest, depth);
      }
    }
  }

  lemma {:induction false} BodyIsEncodable(major: nat, n: nat, s: Bytes, depth: nat)
    requires |s| < TWO_64 && n < TWO_64 && depth <= MAX_DEPTH
    ensures var r := ReadBody(major, n, s, depth);
            r.Ok? ==> Encodable(r.value) && Fits(r.value, depth) && |r.rest| <= |s|
    decreases MAX_DEPTH + 1 - depth, 0, 0
  {
    hide ReadItems, ReadPairs, ValidUtf8;
    if major == 4 {
      ItemsAreEncodable(s, depth + 1, n);
    } else if major == 5 {
      PairsAreEncodable(s, depth + 1, n, map[]);
    }
  }

  lemma {:induction false} ItemsAreEncodable(s: Bytes, depth: nat, n: nat)
    requires |s| < TWO_64 && depth <= MAX_DEPTH + 1
    ensures var r := ReadItems(s, depth, n);
            r.Ok? ==>
              && |r.value| == n && |r.rest| <= |s|
              && forall i :: 0 <= i < n ==> Encodable(r.value[i]) && Fits(r.value[i], depth)
    decreases MAX_DEPTH + 1 - depth, 2, n
  {
    hide ReadItem;
    if n > 0 {
      DecodedIsEncodable(s, depth);
      var r := ReadItem(s, depth);
      if r.Ok? {
        ItemsAreEncodable(r.rest, depth, n - 1);
      }
    }
  }

  ghost predicate GoodEntries(m: map<Key, Value>, depth: nat) {
    forall k :: k in m ==> EncodableKey(k) && Encodable(m[k]) && depth <= MAX_DEPTH && Fits(m[k], depth)
  }

  lemma {:induction false} PairsAreEncodable(s: Bytes, depth: nat, n: nat, acc: map<Key, Value>)
    requires |s| < TWO_64 && depth <= MAX_DEPTH + 1 && GoodEntries(acc, depth)
    ensures var r := ReadPairs(s, depth, n, acc);
            r.Ok? ==> |r.value| == |acc| + n && |r.rest| <= |s| && GoodEntries(r.value, depth)
    decreases MAX_DEPTH + 1 - depth, 2, n
  {
    hide ReadItem, Encodable, EncodableKey, Fits;
    if n > 0 {
      DecodedIsEncodable(s, depth);
      var k := ReadItem(s, depth);
      if k.Ok? {
        DecodedIsEncodable(k.rest, depth);
        var v := ReadItem(k.rest, depth);
        var key := AsKey(k.value);
        if v.Ok? && key.Some? && key.value !in acc {
          KeyIsEncodable(k.value);
          FitsDepth(v.value, depth);
          assert |acc[key.value := v.value]| == |acc| + 1;
          PairsAreEncodable(v.rest, depth, n - 1, acc[key.value := v.value]);
        }
      }
    }
  }

  lemma KeyIsEncodable(v: Value)
    requires Encodable(v) && AsKey(v).Some?
    ensures EncodableKey(AsKey(v).value)
  {
  }

  /** The encodings of the keys, one by one. */
  function Encodings(keys: seq<Key>): (r: seq<Bytes>)
    requires forall i :: 0 <= i < |keys| ==> EncodableKey(keys[i])
    ensures |r| == |keys|
  {
    seq(|keys|, i requires 0 <= i < |keys| => EncodeKey(keys[i]))
  }

  ghost predicate Ascending(e: seq<Bytes>) {
    forall i, j :: 0 <= i < j < |e| ==> Before(e[i], e[j])
  }

  lemma AscendingPrepend(x: Bytes, rest: seq<Bytes>)
    requires Ascending(rest) && forall j :: 0 <= j < |rest| ==> Before(x, rest[j])
    ensures Ascending([x] + rest)
  {
    hide Before;
  }

  /** The keys of a map are written in strictly increasing bytewise order of their encodings. */
  lemma {:induction false} KeysAreSorted(keys: set<Key>)
    requires AllEncodable(keys)
    ensures Ascending(Encodings(SortedKeys(keys)))
    decreases |keys|
  {
    hide *;
    if keys == {} {
      NothingToSort();
    } else {
      var k, tail := SortedStep(keys);
      KeysAreSorted(keys - {k});
      FirstIsBefore(keys, k, tail);
      AscendingPrepend(EncodeKey(k), Encodings(tail));
      EncodingsStep(k, tail);
    }
  }

  lemma SortedStep(keys: set<Key>) returns (k: Key, tail: seq<Key>)
    requires AllEncodable(keys) && keys != {}
    ensures AllEncodable(keys - {k}) && |keys - {k}| < |keys| && tail == SortedKeys(keys - {k})
    ensures SortedKeys(keys) == [k] + tail && IsFirst(k, keys) && EncodableKey(k)
    ensures forall x :: x in tail ==> x in keys && x != k && EncodableKey(x)
  {
    hide EncodeKey, FirstKey, IsFirst;
    k := FirstKey(keys);
    tail := SortedKeys(keys - {k});
    assert k in keys by {
      FirstIsIn(keys, k);
    }
  }

  lemma FirstIsIn(keys: set<Key>, k: Key)
    requires AllEncodable(keys) && IsFirst(k, keys)
    ensures k in keys
  {
  }

  lemma EncodingsStep(k: Key, tail: seq<Key>)
    requires EncodableKey(k) && forall i :: 0 <= i < |tail| ==> EncodableKey(tail[i])
    ensures Encodings([k] + tail) == [EncodeKey(k)] + Encodings(tail)
  {
    hide EncodeKey;
  }

  lemma NothingToSort()
    ensures AllEncodable({}) && Ascending(Encodings(SortedKeys({})))
  {
  }

  lemma FirstIsBefore(keys: set<Key>, k: Key, tail: seq<Key>)
    requires AllEncodable(keys) && IsFirst(k, keys) && forall x :: x in tail ==> x in keys && x != k
    ensures forall j :: 0 <= j < |tail| ==> Before(EncodeKey(k), Encodings(tail)[j])
  {
    hide EncodeKey, LexLe, Before;
    forall j | 0 <= j < |tail| ensures Before(EncodeKey(k), Encodings(tail)[j]) {
      DistinctEncodings(keys, k, tail[j]);
      LexLeExactly(EncodeKey(k), EncodeKey(tail[j]));
    }
  }

  lemma DistinctEncodings(keys: set<Key>, a: Key, b: Key)
    requires AllEncodable(keys) && a in keys && b in keys && a != b
    ensures EncodeKey(a) != EncodeKey(b)
  {
    hide EncodeKey;
    if EncodeKey(a) == EncodeKey(b) {
      EncodeKeyInjective(a, b);
    }
  }
}
