/**
 The decoder as cryptovalid_receipt.py writes it: an index advanced over the input, with slices
 that stop at the end of the input instead of failing.
 */
module CborDecoder {
  import opened MerkleTree
  import opened Octets
  import opened Cbor

  datatype At<+T> = Bad | At(value: T, next: nat)

  /** b[i:i + n] in Python. */
  function Slice(b: Bytes, i: nat, n: nat): Bytes {
    if i >= |b| then [] else if i + n >= |b| then b[i..] else b[i..i + n]
  }

  /** The argument after the initial byte; only the one-byte form can fail here. */
  function ArgumentAt(b: Bytes, i: nat, info: nat): At<nat> {
    if info < 24 then At(info, i)
    else if info == 24 then (if i < |b| then At(b[i] as nat, i + 1) else Bad)
    else if info == 25 then At(FromBig(Slice(b, i, 2)), i + 2)
    else if info == 26 then At(FromBig(Slice(b, i, 4)), i + 4)
    else if info == 27 then At(FromBig(Slice(b, i, 8)), i + 8)
    else Bad
  }

  function ReadAt(b: Bytes, i: nat, depth: nat): At<Value>
    decreases MAX_DEPTH + 1 - depth, 1, 0
  {
    if depth > MAX_DEPTH || i >= |b| then Bad
    else
      var major, info := b[i] as int / 32, b[i] as int % 32;
      if major == 7 && 20 <= info <= 22 then
        At(if info == 20 then Bool(false) else if info == 21 then Bool(true) else Null, i + 1)
      else
        var a := ArgumentAt(b, i + 1, info);
        if a.Bad? then Bad else ReadBodyAt(major, a.value, b, a.next, depth)
  }

  function ReadBodyAt(major: nat, n: nat, b: Bytes, i: nat, depth: nat): At<Value>
    requires depth <= MAX_DEPTH
    decreases MAX_DEPTH + 1 - depth, 0, 0
  {
    if major == 0 then At(Int(n), i)
    else if major == 1 then At(Int(-1 - n), i)
    else if major == 2 then At(Byte(Slice(b, i, n)), i + n)
    else if major == 3 then (if ValidUtf8(Slice(b, i, n)) then At(Text(Slice(b, i, n)), i + n) else Bad)
    else if major == 4 then
      var r := ReadItemsAt(b, i, depth + 1, n);
      if r.Bad? then Bad else At(Array(r.value), r.next)
    else if major == 5 then
      var r := ReadPairsAt(b, i, depth + 1, n, map[]);
      if r.Bad? then Bad else At(Map(r.value), r.next)
    else Bad
  }

  function ReadItemsAt(b: Bytes, i: nat, depth: nat, n: nat): At<seq<Value>>
    requires depth <= MAX_DEPTH + 1
    decreases MAX_DEPTH + 1 - depth, 2, n
  {
    if n == 0 then At([], i)
    else
      var r := ReadAt(b, i, depth);
      if r.Bad? then Bad
      else
        var more := ReadItemsAt(b, r.next, depth, n - 1);
        if more.Bad? then Bad else At([r.value] + more.value, more.next)
  }

  function ReadPairsAt(b: Bytes, i: nat, depth: nat, n: nat, acc: map<Key, Value>): At<map<Key, Value>>
    requires depth <= MAX_DEPTH + 1
    decreases MAX_DEPTH + 1 - depth, 2, n
  {
    if n == 0 then At(acc, i)
    else
      var k := ReadAt(b, i, depth);
      if k.Bad? then Bad
      else
        var v := ReadAt(b, k.next, depth);
        if v.Bad? || AsKey(k.value).None? || AsKey(k.value).value in acc then Bad
        else ReadPairsAt(b, v.next, depth, n - 1, acc[AsKey(k.value).value := v.value])
  }

  /** The recursive reader `rd` with its loops over arrays and maps. */
  method Rd(b: Bytes, start: nat, depth: nat) returns (r: At<Value>)
    ensures r == ReadAt(b, start, depth)
    decreases MAX_DEPTH + 1 - depth, 0
  {
    hide ValidUtf8, ArgumentAt, ReadItemsAt, ReadPairsAt, Slice;
    if depth > MAX_DEPTH || start >= |b| {
      return Bad;
    }
    var ib := b[start] as int;
    var major, info := ib / 32, ib % 32;
    if major == 7 && 20 <= info <= 22 {
      return At(if info == 20 then Bool(false) else if info == 21 then Bool(true) else Null, start + 1);
    }
    var a := ArgumentAt(b, start + 1, info);
    if a.Bad? {
      return Bad;
    }
    var n: int, i := a.value, a.next;
    if major == 0 {
      return At(Int(n), i);
    } else if major == 1 {
      return At(Int(-1 - n), i);
    } else if major == 2 {
      return At(Byte(Slice(b, i, n)), i + n);
    } else if major == 3 {
      if !ValidUtf8(Slice(b, i, n)) {
        return Bad;
      }
      return At(Text(Slice(b, i, n)), i + n);
    } else if major == 4 {
      var items := RdItems(b, i, depth + 1, n);
      return if items.Bad? then Bad else At(Array(items.value), items.next);
    } else if major == 5 {
      var pairs := RdPairs(b, i, depth + 1, n);
      return if pairs.Bad? then Bad else At(Map(pairs.value), pairs.next);
    }
    r := Bad;
  }

  method RdItems(b: Bytes, start: nat, depth: nat, n: nat) returns (r: At<seq<Value>>)
    requires depth <= MAX_DEPTH + 1
    ensures r == ReadItemsAt(b, start, depth, n)
    decreases MAX_DEPTH + 1 - depth, 1
  {
    hide ReadAt;
    var out: seq<Value>, i: nat := [], start;
    ghost var all := ReadItemsAt(b, start, depth, n);
    assert all.At? ==> out + all.value == all.value;
    for c := 0 to n
      invariant var rest := ReadItemsAt(b, i, depth, n - c);
                all == if rest.Bad? then Bad else At(out + rest.value, rest.next)
    {
      var v := Rd(b, i, depth);
      if v.Bad? {
        return Bad;
      }
      ghost var more := ReadItemsAt(b, v.next, depth, n - c - 1);
      assert more.At? ==> out + ([v.value] + more.value) == (out + [v.value]) + more.value;
      out, i := out + [v.value], v.next;
    }
    assert out + [] == out;
    r := At(out, i);
  }

  method RdPairs(b: Bytes, start: nat, depth: nat, n: nat) returns (r: At<map<Key, Value>>)
    requires depth <= MAX_DEPTH + 1
    ensures r == ReadPairsAt(b, start, depth, n, map[])
    decreases MAX_DEPTH + 1 - depth, 1
  {
    hide ReadAt;
    var out: map<Key, Value>, i: nat := map[], start;
    for c := 0 to n
      invariant ReadPairsAt(b, i, depth, n - c, out) == ReadPairsAt(b, start, depth, n, map[])
    {
      var k := Rd(b, i, depth);
      if k.Bad? {
        return Bad;
      }
      var v := Rd(b, k.next, depth);
      if v.Bad? || AsKey(k.value).None? || AsKey(k.value).value in out {
        return Bad;
      }
      out, i := out[AsKey(k.value).value := v.value], v.next;
    }
    r := At(out, i);
  }

  /** cbor_decode accepts exactly what the reference reader accepts, with the same value. */
  method CborDecode(b: Bytes) returns (v: Option<Value>)
    ensures v == Decode(b)
  {
    hide ReadAt, ReadItem;
    var r := Rd(b, 0, 0);
    Agree(b, 0, 0);
    assert b[0..] == b;
    v := if r.At? && r.next == |b| then Some(r.value) else None;
  }

  // ---------------------------------------------------------------- agreement with the reference reader

  /**
   From inside the input, the two readers agree: the same value and the same position when the
   reference succeeds, and otherwise no result or a position past the end, which the caller refuses.
   */
  ghost predicate Agrees<T>(b: Bytes, i: nat, ref: Read<T>, at: At<T>) {
    i <= |b| &&
    match ref
    case Ok(v, rest) => |rest| <= |b| - i && rest == b[|b| - |rest|..] && at == At(v, |b| - |rest|)
    case Fail => at.Bad? || at.next > |b|
  }

  lemma {:induction false} SliceInside(b: Bytes, i: nat, n: nat)
    requires i <= |b| && n <= |b| - i
    ensures Slice(b, i, n) == b[i..][..n] && b[i..][n..] == b[i + n..]
  {
  }

  lemma {:induction false} ArgumentAgrees(b: Bytes, i: nat, info: nat)
    requires i <= |b|
    ensures Agrees(b, i, Argument(info, b[i..]), ArgumentAt(b, i, info))
  {
    hide FromBig;
    var n := if info == 24 then 1 else if info == 25 then 2 else if info == 26 then 4 else if info == 27 then 8 else 0;
    if n <= |b| - i {
      SliceInside(b, i, n);
    }
  }

  lemma {:induction false} Agree(b: Bytes, i: nat, depth: nat)
    requires i <= |b|
    ensures Agrees(b, i, ReadItem(b[i..], depth), ReadAt(b, i, depth))
    decreases MAX_DEPTH + 1 - depth, 1, 0
  {
    hide Argument, ArgumentAt, ReadBody, ReadBodyAt;
    if depth <= MAX_DEPTH && i < |b| {
      var s := b[i..];
      assert s[0] == b[i] && s[1..] == b[i + 1..];
      var major, info := b[i] as int / 32, b[i] as int % 32;
      ArgumentAgrees(b, i + 1, info);
      var a := Argument(info, b[i + 1..]);
      var at := ArgumentAt(b, i + 1, info);
      if a.Ok? {
        BodyAgrees(major, a.value, b, at.next, depth);
      } else if at.At? {
        BodyPastEnd(major, at.value, b, at.next, depth);
      }
    }
  }

  lemma {:induction false} BodyAgrees(major: nat, n: nat, b: Bytes, i: nat, depth: nat)
    requires i <= |b| && depth <= MAX_DEPTH
    ensures Agrees(b, i, ReadBody(major, n, b[i..], depth), ReadBodyAt(major, n, b, i, depth))
    decreases MAX_DEPTH + 1 - depth, 0, 0
  {
    hide ReadItems, ReadPairs, ReadItemsAt, ReadPairsAt, Slice, ValidUtf8;
    if major == 2 || major == 3 {
      if n <= |b| - i {
        SliceInside(b, i, n);
      }
    } else if major == 4 {
      AgreeItems(b, i, depth + 1, n);
    } else if major == 5 {
      AgreePairs(b, i, depth + 1, n, map[]);
    }
  }

  lemma BodyPastEnd(major: nat, n: nat, b: Bytes, i: nat, depth: nat)
    requires i > |b| && depth <= MAX_DEPTH
    ensures var r := ReadBodyAt(major, n, b, i, depth); r.Bad? || r.next > |b|
  {
    PastEnd(b, i, depth + 1, n);
  }

  /** Past the end nothing can be read, so the position stays past the end. */
  lemma PastEnd(b: Bytes, i: nat, depth: nat, n: nat)
    requires i > |b| && depth <= MAX_DEPTH + 1
    ensures var r := ReadItemsAt(b, i, depth, n); r.Bad? || r.next > |b|
    ensures forall acc :: var r := ReadPairsAt(b, i, depth, n, acc); r.Bad? || r.next > |b|
  {
  }

  lemma {:induction false} AgreeItems(b: Bytes, i: nat, depth: nat, n: nat)
    requires i <= |b| && depth <= MAX_DEPTH + 1
    ensures Agrees(b, i, ReadItems(b[i..], depth, n), ReadItemsAt(b, i, depth, n))
    decreases MAX_DEPTH + 1 - depth, 2, n
  {
    hide ReadItem, ReadAt;
    if n > 0 {
      Agree(b, i, depth);
      var r := ReadAt(b, i, depth);
      if r.At? {
        if r.next <= |b| {
          AgreeItems(b, r.next, depth, n - 1);
        } else {
          PastEnd(b, r.next, depth, n - 1);
        }
      }
    }
  }

  lemma {:induction false} AgreePairs(b: Bytes, i: nat, depth: nat, n: nat, acc: map<Key, Value>)
    requires i <= |b| && depth <= MAX_DEPTH + 1
    ensures Agrees(b, i, ReadPairs(b[i..], depth, n, acc), ReadPairsAt(b, i, depth, n, acc))
    decreases MAX_DEPTH + 1 - depth, 2, n
  {
    hide ReadItem, ReadAt;
    if n > 0 {
      Agree(b, i, depth);
      var k := ReadAt(b, i, depth);
      if k.At? {
        if k.next <= |b| {
          Agree(b, k.next, depth);
          var v := ReadAt(b, k.next, depth);
          if v.At? && AsKey(k.value).Some? && AsKey(k.value).value !in acc {
            var acc' := acc[AsKey(k.value).value := v.value];
            if v.next <= |b| {
              AgreePairs(b, v.next, depth, n - 1, acc');
            } else {
              PastEnd(b, v.next, depth, n - 1);
            }
          }
        } else {
          BeyondIsBad(b, k.next, depth);
        }
      }
    }
  }

  lemma BeyondIsBad(b: Bytes, i: nat, depth: nat)
    requires i >= |b|
    ensures ReadAt(b, i, depth).Bad?
  {
  }
}
