/**
 SCITT statements and receipts (cryptovalid_scitt.py).  The Signed Statement is modelled on bytes,
 through the CBOR codec; the ledger and the receipts on their decoded fields, with symbolic hashes
 and symbolic signatures of the transparency service.
 */
module Scitt {
  import opened MerkleTree
  import opened Octets
  import opened Cbor

  const TAG_COSE_SIGN1: byte := 0xD2
  const ALG_EDDSA := -8
  const L_ALG := IntKey(1)
  const L_KID := IntKey(4)
  const L_CWT := IntKey(15)
  const L_X5T := IntKey(34)
  const L_X5CHAIN := IntKey(33)
  const L_RECEIPTS := IntKey(394)
  const CWT_ISS := IntKey(1)
  const CWT_SUB := IntKey(2)
  const MAX_ISS := 8192

  // ---------------------------------------------------------------- COSE_Sign1

  datatype Sign1 = Sign1(protected: Bytes, header: map<Key, Value>, unprotected: map<Key, Value>,
      payload: Option<Bytes>, sig: Bytes)

  /** parse_cose_sign1: tag 18, then [bstr, map, bstr / nil, bstr], the protected bytes a map. */
  function ParseSign1(cose: Bytes): Option<Sign1> {
    if cose == [] || cose[0] != TAG_COSE_SIGN1 then None
    else
      var arr := Decode(cose[1..]);
      if arr.None? || !arr.value.Array? || |arr.value.items| != 4 then None
      else
        var items := arr.value.items;
        if !(items[0].Byte? && items[1].Map? && (items[2].Null? || items[2].Byte?) && items[3].Byte?) then None
        else
          var ph := Decode(items[0].bytes);
          if ph.None? || !ph.value.Map? then None
          else Some(Sign1(items[0].bytes, ph.value.entries, items[1].entries,
                          if items[2].Null? then None else Some(items[2].bytes), items[3].bytes))
  }

  function PayloadValue(p: Option<Bytes>): Value {
    if p.None? then Null else Byte(p.value)
  }

  function Sign1Value(s: Sign1): Value {
    Array([Byte(s.protected), Map(s.unprotected), PayloadValue(s.payload), Byte(s.sig)])
  }

  /** What a COSE_Sign1 with these parts looks like on the wire. */
  function PrintSign1(s: Sign1): Bytes
    requires Encodable(Sign1Value(s))
  {
    [TAG_COSE_SIGN1] + Encode(Sign1Value(s))
  }

  /** Printing and parsing give back the parts. */
  lemma {:induction false} Sign1RoundTrip(s: Sign1)
    requires Encodable(Sign1Value(s)) && Fits(Sign1Value(s), 0)
    requires Decode(s.protected) == Some(Map(s.header))
    ensures ParseSign1(PrintSign1(s)) == Some(s)
  {
    hide Decode, Encode, Encodable, Fits;
    RoundTrip(Sign1Value(s));
    assert PrintSign1(s)[1..] == Encode(Sign1Value(s));
  }

  /** It parses to these parts exactly when it is the tagged array of them, and the protected bytes are the header. */
  lemma {:induction false} ParseExactly(cose: Bytes, s: Sign1)
    ensures ParseSign1(cose) == Some(s) <==>
            && cose != [] && cose[0] == 0xD2
            && Decode(cose[1..]) == Some(Array([Byte(s.protected), Map(s.unprotected),
                                                if s.payload.Some? then Byte(s.payload.value) else Null, Byte(s.sig)]))
            && Decode(s.protected) == Some(Map(s.header))
  {
    hide Decode;
    if ParseSign1(cose) == Some(s) {
      assert Decode(cose[1..]).value.items == Sign1Value(s).items;
    }
  }

  // ---------------------------------------------------------------- the identity of a statement

  function Prefixed(part: Bytes): Bytes
    requires |part| < TWO_64
  {
    Pow256Values();
    ToBig(|part|, 8) + part
  }

  predicate Short(s: Sign1) {
    |s.protected| < TWO_64 && |s.sig| < TWO_64 && (s.payload.Some? ==> |s.payload.value| < TWO_64)
  }

  function SignedPayload(s: Sign1): Bytes {
    if s.payload.Some? then s.payload.value else []
  }

  /** statement_id: the bytes hashed with SHA-256, which stand for the hash. */
  function StatementId(s: Sign1): Bytes
    requires Short(s)
  {
    Prefixed(s.protected) + Prefixed(SignedPayload(s)) + Prefixed(s.sig)
  }

  lemma {:induction false} PrefixedInjective(a: Bytes, b: Bytes, x: Bytes, y: Bytes)
    requires |a| < TWO_64 && |b| < TWO_64 && Prefixed(a) + x == Prefixed(b) + y
    ensures a == b && x == y
  {
    Pow256Values();
    var s := Prefixed(a) + x;
    assert s[..8] == ToBig(|a|, 8) && s[..8] == ToBig(|b|, 8);
    BigRoundTrip(|a|, 8);
    BigRoundTrip(|b|, 8);
    assert s[8..8 + |a|] == a && s[8..8 + |b|] == b;
    assert s[8 + |a|..] == x && s[8 + |b|..] == y;
  }

  /**
   Two statements have one identity exactly when their signed parts agree, a missing payload counting
   as an empty one.
   */
  lemma {:induction false} StatementIdBinds(s: Sign1, t: Sign1)
    requires Short(s) && Short(t)
    ensures StatementId(s) == StatementId(t)
            <==> s.protected == t.protected && SignedPayload(s) == SignedPayload(t) && s.sig == t.sig
  {
    hide Prefixed;
    if StatementId(s) == StatementId(t) {
      var ps, pt := SignedPayload(s), SignedPayload(t);
      assert StatementId(s) == Prefixed(s.protected) + (Prefixed(ps) + Prefixed(s.sig));
      assert StatementId(t) == Prefixed(t.protected) + (Prefixed(pt) + Prefixed(t.sig));
      PrefixedInjective(s.protected, t.protected, Prefixed(ps) + Prefixed(s.sig), Prefixed(pt) + Prefixed(t.sig));
      PrefixedInjective(ps, pt, Prefixed(s.sig), Prefixed(t.sig));
      assert Prefixed(s.sig) + [] == Prefixed(s.sig) && Prefixed(t.sig) + [] == Prefixed(t.sig);
      PrefixedInjective(s.sig, t.sig, [], []);
    }
  }

  /** A detached statement and one with an attached empty payload are different statements with one identity. */
  lemma DetachedAndEmptyCollide(protected: Bytes, header: map<Key, Value>, unprotected: map<Key, Value>, sig: Bytes)
    requires |protected| < TWO_64 && |sig| < TWO_64
    ensures var s := Sign1(protected, header, unprotected, None, sig);
            var t := Sign1(protected, header, unprotected, Some([]), sig);
            s != t && StatementId(s) == StatementId(t)
  {
  }

  // ---------------------------------------------------------------- transparent statements

  /** The characters of a text, each in UTF-8. */
  function CharsOf(t: Bytes): (r: seq<Bytes>)
    requires ValidUtf8(t)
    ensures |r| <= |t| && forall i :: 0 <= i < |r| ==> ValidUtf8(r[i]) && |r[i]| <= 4
  {
    if t == [] then []
    else
      var w := if t[0] < 0x80 then 1 else if t[0] < 0xE0 then 2 else if t[0] < 0xF0 then 3 else 4;
      assert t[..w][w..] == [];
      [t[..w]] + CharsOf(t[w..])
  }

  /** list(v): the items of an array, the octets of a byte string, the characters of a text, the keys of a map. */
  function ListOf(v: Value): Option<seq<Value>> {
    match v
    case Array(items) => Some(items)
    case Byte(b) => Some(seq(|b|, i requires 0 <= i < |b| => Int(b[i] as int)))
    case Text(t) =>
      if !ValidUtf8(t) then None
      else var cs := CharsOf(t); Some(seq(|cs|, i requires 0 <= i < |cs| => Text(cs[i])))
    case Map(m) =>
      if !AllEncodable(m.Keys) then None
      else var ks := SortedKeys(m.Keys); Some(seq(|ks|, i requires 0 <= i < |ks| => KeyValue(ks[i])))
    case _ => None
  }

  /** list(uh.get(394, [])). */
  function ReceiptItems(uh: map<Key, Value>): Option<seq<Value>> {
    if L_RECEIPTS !in uh then Some([]) else ListOf(uh[L_RECEIPTS])
  }

  predicate AllByteStrings(items: seq<Value>) {
    forall i :: 0 <= i < |items| ==> items[i].Byte?
  }

  function AsItems(receipts: seq<Bytes>): seq<Value> {
    seq(|receipts|, i requires 0 <= i < |receipts| => Byte(receipts[i]))
  }

  function WithReceipts(s: Sign1, items: seq<Value>): Sign1 {
    s.(unprotected := s.unprotected[L_RECEIPTS := Array(items)])
  }

  /** transparent_statement: the receipts are added to the unprotected header, the rest is copied. */
  function TransparentStatement(cose: Bytes, receipts: seq<Bytes>): Option<Bytes> {
    var s := ParseSign1(cose);
    if receipts == [] || s.None? || (exists i :: 0 <= i < |receipts| && ParseSign1(receipts[i]).None?) then None
    else if ReceiptItems(s.value.unprotected).None? then None
    else
      var t := WithReceipts(s.value, ReceiptItems(s.value.unprotected).value + AsItems(receipts));
      if Encodable(Sign1Value(t)) then Some(PrintSign1(t)) else None
  }

  /** A parsed statement is short, encodable and flat enough to be written again. */
  lemma {:induction false} ParsedParts(cose: Bytes)
    requires |cose| < TWO_64 && ParseSign1(cose).Some?
    ensures var s := ParseSign1(cose).value;
            Short(s) && Decode(s.protected) == Some(Map(s.header)) && Encodable(Sign1Value(s)) && Fits(Sign1Value(s), 0)
  {
    hide ReadItem, ValidUtf8;
    DecodedIsEncodable(cose[1..], 0);
    var v := Decode(cose[1..]).value;
    assert v == Sign1Value(ParseSign1(cose).value) by {
      var s := ParseSign1(cose).value;
      assert v.items == [Byte(s.protected), Map(s.unprotected), PayloadValue(s.payload), Byte(s.sig)];
    }
    assert Encodable(v.items[0]) && Encodable(v.items[2]) && Encodable(v.items[3]);
  }

  lemma ListItemsFit(v: Value, depth: nat)
    requires Fits(v, depth) && depth < MAX_DEPTH && ListOf(v).Some?
    ensures forall i :: 0 <= i < |ListOf(v).value| ==> Fits(ListOf(v).value[i], depth + 1)
  {
    hide SortedKeys, CharsOf;
  }

  lemma ListItemsEncodable(v: Value)
    requires Encodable(v) && ListOf(v).Some?
    ensures forall i :: 0 <= i < |ListOf(v).value| ==> Encodable(ListOf(v).value[i])
  {
    hide CharsOf, SortedKeys, ValidUtf8;
    match v
    case Map(m) => {
      var ks := SortedKeys(m.Keys);
      forall i | 0 <= i < |ks| ensures Encodable(KeyValue(ks[i])) {
        assert ks[i] in m.Keys;
      }
    }
    case _ => {
    }
  }

  lemma {:induction false} HeaderWithReceiptsFits(uh: map<Key, Value>, receipts: seq<Bytes>)
    requires Fits(Map(uh), 1) && ReceiptItems(uh).Some?
    ensures Fits(Map(uh[L_RECEIPTS := Array(ReceiptItems(uh).value + AsItems(receipts))]), 1)
  {
    hide ListOf;
    var items := ReceiptItems(uh).value + AsItems(receipts);
    if L_RECEIPTS in uh {
      ListItemsFit(uh[L_RECEIPTS], 2);
    }
    forall i | 0 <= i < |items| ensures Fits(items[i], 3) {
    }
    assert Fits(Array(items), 2);
  }

  lemma {:induction false} WithReceiptsFits(s: Sign1, receipts: seq<Bytes>)
    requires Fits(Sign1Value(s), 0) && ReceiptItems(s.unprotected).Some?
    ensures Fits(Sign1Value(WithReceipts(s, ReceiptItems(s.unprotected).value + AsItems(receipts))), 0)
  {
    hide ReceiptItems;
    var v := Sign1Value(s);
    assert Fits(v.items[1], 1);
    HeaderWithReceiptsFits(s.unprotected, receipts);
    var t := WithReceipts(s, ReceiptItems(s.unprotected).value + AsItems(receipts));
    var w := Sign1Value(t);
    forall i | 0 <= i < |w.items| ensures Fits(w.items[i], 1) {
      assert Fits(v.items[i], 1);
    }
  }

  /**
   A Transparent Statement parses back to the same signed parts with the receipts appended, so its
   identity is the statement's, and a transparent statement of one service registers at another.
   */
  lemma {:induction false} TransparentKeepsIdentity(cose: Bytes, receipts: seq<Bytes>)
    requires |cose| < TWO_64 && TransparentStatement(cose, receipts).Some?
    ensures forall i :: 0 <= i < |receipts| ==> ParseSign1(receipts[i]).Some?
    ensures ParseSign1(cose).Some? && ParseSign1(TransparentStatement(cose, receipts).value).Some?
    ensures var s, t := ParseSign1(cose).value, ParseSign1(TransparentStatement(cose, receipts).value).value;
            && Short(s) && Short(t) && StatementId(t) == StatementId(s)
            && ReceiptItems(s.unprotected).Some?
            && t == WithReceipts(s, ReceiptItems(s.unprotected).value + AsItems(receipts))
  {
    hide Encode, Decode, Fits, Encodable, ParseSign1, StatementId;
    ParsedParts(cose);
    var s := ParseSign1(cose).value;
    WithReceiptsFits(s, receipts);
    var t := WithReceipts(s, ReceiptItems(s.unprotected).value + AsItems(receipts));
    Sign1RoundTrip(t);
    StatementIdBinds(s, t);
  }

  /** transparent_statement does not fail on a statement it can parse and receipts that are COSE_Sign1. */
  lemma {:induction false} TransparentIsDefined(cose: Bytes, receipts: seq<Bytes>)
    requires |cose| < TWO_64 && ParseSign1(cose).Some? && receipts != []
    requires forall i :: 0 <= i < |receipts| ==> ParseSign1(receipts[i]).Some? && |receipts[i]| < TWO_64
    requires var uh := ParseSign1(cose).value.unprotected;
             ReceiptItems(uh).Some? && |ReceiptItems(uh).value| + |receipts| < TWO_64 && |uh| + 1 < TWO_64
    ensures TransparentStatement(cose, receipts).Some?
  {
    ParsedParts(cose);
    hide ParseSign1, Fits, Encode, Decode, ReceiptItems;
    var s := ParseSign1(cose).value;
    var items := ReceiptItems(s.unprotected).value + AsItems(receipts);
    HeaderWithReceiptsEncodable(s, receipts);
    WithHeaderEncodable(s, s.unprotected[L_RECEIPTS := Array(items)]);
  }

  lemma {:induction false} HeaderWithReceiptsEncodable(s: Sign1, receipts: seq<Bytes>)
    requires Encodable(Sign1Value(s)) && ReceiptItems(s.unprotected).Some?
    requires forall i :: 0 <= i < |receipts| ==> |receipts[i]| < TWO_64
    requires |ReceiptItems(s.unprotected).value| + |receipts| < TWO_64 && |s.unprotected| + 1 < TWO_64
    ensures Encodable(Map(s.unprotected[L_RECEIPTS := Array(ReceiptItems(s.unprotected).value + AsItems(receipts))]))
  {
    var uh := s.unprotected;
    assert Encodable(Sign1Value(s).items[1]);
    ReceiptItemsEncodable(uh, receipts);
    hide Encodable, ReceiptItems;
    UpdateEncodable(uh, L_RECEIPTS, Array(ReceiptItems(uh).value + AsItems(receipts)));
  }

  lemma {:induction false} ReceiptItemsEncodable(uh: map<Key, Value>, receipts: seq<Bytes>)
    requires Encodable(Map(uh)) && ReceiptItems(uh).Some?
    requires forall i :: 0 <= i < |receipts| ==> |receipts[i]| < TWO_64
    requires |ReceiptItems(uh).value| + |receipts| < TWO_64
    ensures Encodable(Array(ReceiptItems(uh).value + AsItems(receipts)))
  {
    hide ListOf;
    if L_RECEIPTS in uh {
      ListItemsEncodable(uh[L_RECEIPTS]);
    }
  }

  lemma {:induction false} UpdateEncodable(m: map<Key, Value>, k: Key, v: Value)
    requires Encodable(Map(m)) && |m| + 1 < TWO_64 && EncodableKey(k) && Encodable(v)
    ensures Encodable(Map(m[k := v]))
  {
    assert |m[k := v]| <= |m| + 1 by {
      assert m[k := v].Keys == m.Keys + {k};
    }
  }

  lemma {:induction false} WithHeaderEncodable(s: Sign1, uh: map<Key, Value>)
    requires Encodable(Sign1Value(s)) && Encodable(Map(uh))
    ensures Encodable(Sign1Value(s.(unprotected := uh)))
  {
    var v, w := Sign1Value(s), Sign1Value(s.(unprotected := uh));
    forall i | 0 <= i < |w.items| ensures Encodable(w.items[i]) {
      assert Encodable(v.items[i]);
    }
  }

  // ---------------------------------------------------------------- the issuer's signature

  /** The bytes an issuer signs: ["Signature1", protected, h'', payload]. */
  function ToBeSigned(protected: Bytes, payload: Bytes): Option<Bytes> {
    var v := Array([Text([0x53, 0x69, 0x67, 0x6E, 0x61, 0x74, 0x75, 0x72, 0x65, 0x31]), Byte(protected), Byte([]),
        Byte(payload)]);
    if Encodable(v) then Some(Encode(v)) else None
  }

  /** Number of characters of a UTF-8 string. */
  function Characters(t: Bytes): nat {
    if t == [] then 0 else (if Continuation(t[0]) then 0 else 1) + Characters(t[1..])
  }

  function ClaimText(cwt: map<Key, Value>, k: Key): Option<Bytes> {
    if k in cwt && cwt[k].Text? then Some(cwt[k].utf8) else None
  }

  datatype Claims = Claims(iss: Bytes, sub: Bytes)

  /** The CWT claims a statement must carry: iss of 1..8192 characters and a non-empty sub. */
  function CheckedClaims(header: map<Key, Value>): Option<Claims> {
    if L_CWT !in header || !header[L_CWT].Map? then None
    else
      var iss, sub := ClaimText(header[L_CWT].entries, CWT_ISS), ClaimText(header[L_CWT].entries, CWT_SUB);
      if iss.None? || sub.None? || !(1 <= Characters(iss.value) <= MAX_ISS) || sub.value == [] then None
      else Some(Claims(iss.value, sub.value))
  }

  /** The payload that is verified: the attached one, which a given one must equal, or the given one. */
  function EffectivePayload(s: Sign1, given: Option<Bytes>): Option<Bytes> {
    if s.payload.None? then given
    else if given.Some? && given.value != s.payload.value then None
    else s.payload
  }

  /** verify_signed_statement; `verifies` is the Ed25519 check. */
  predicate StatementOk(cose: Bytes, issuer: Bytes, given: Option<Bytes>, verifies: (Bytes, Bytes, Bytes) -> bool) {
    var s := ParseSign1(cose);
    && s.Some?
    && L_ALG in s.value.header && s.value.header[L_ALG] == Int(ALG_EDDSA)
    && CheckedClaims(s.value.header).Some?
    && ((L_KID in s.value.header && s.value.header[L_KID] != Null) || L_X5CHAIN in s.value.header
         || L_X5T in s.value.header)
    && var p := EffectivePayload(s.value, given);
       p.Some? && ToBeSigned(s.value.protected, p.value).Some?
       && verifies(issuer, s.value.sig, ToBeSigned(s.value.protected, p.value).value)
  }

  /** Receipts do not touch what the issuer signed: a transparent statement verifies exactly when the statement does. */
  lemma {:induction false} TransparentVerifiesAlike(cose: Bytes, receipts: seq<Bytes>, issuer: Bytes,
      given: Option<Bytes>,
                                                     verifies: (Bytes, Bytes, Bytes) -> bool)
    requires |cose| < TWO_64 && TransparentStatement(cose, receipts).Some?
    ensures StatementOk(TransparentStatement(cose, receipts).value, issuer, given, verifies)
            <==> StatementOk(cose, issuer, given, verifies)
  {
    hide ParseSign1, TransparentStatement, StatementId, StatementOk;
    TransparentKeepsIdentity(cose, receipts);
    SignedPartsDecide(TransparentStatement(cose, receipts).value, cose, issuer, given, verifies);
  }

  /** The verdict on a statement depends on its signed parts only. */
  lemma SignedPartsDecide(cose1: Bytes, cose2: Bytes, issuer: Bytes, given: Option<Bytes>,
                          verifies: (Bytes, Bytes, Bytes) -> bool)
    requires ParseSign1(cose1).Some? && ParseSign1(cose2).Some?
    requires var s, t := ParseSign1(cose1).value, ParseSign1(cose2).value; s == t.(unprotected := s.unprotected)
    ensures StatementOk(cose1, issuer, given, verifies) == StatementOk(cose2, issuer, given, verifies)
  {
    hide ParseSign1, ToBeSigned, CheckedClaims;
  }

  // ---------------------------------------------------------------- what a verified statement says

  /** ["Signature1", protected, h'', payload]. */
  function SignedContent(protected: Bytes, payload: Bytes): Value {
    Array([Text([0x53, 0x69, 0x67, 0x6E, 0x61, 0x74, 0x75, 0x72, 0x65, 0x31]), Byte(protected), Byte([]),
           Byte(payload)])
  }

  /** The issuer's key verifies this signature over bytes that say ["Signature1", protected, h'', payload]. */
  ghost predicate IssuerSigned(
      issuer: Bytes, sig: Bytes, protected: Bytes, payload: Bytes, verifies: (Bytes, Bytes, Bytes) -> bool)
  {
    exists m :: Decode(m) == Some(SignedContent(protected, payload)) && verifies(issuer, sig, m)
  }

  /** The payload is the attached one, or the given one of a detached statement; a given one never differs. */
  predicate PayloadIs(s: Sign1, given: Option<Bytes>, payload: Bytes) {
    && (s.payload.Some? ==> s.payload.value == payload)
    && (s.payload.None? ==> given == Some(payload))
    && (given.Some? ==> given.value == payload)
  }

  /** Claims under label 15: iss (1) of 1 to 8192 characters, and sub (2), not empty. */
  predicate HeaderClaims(header: map<Key, Value>, claims: Claims) {
    && IntKey(15) in header && header[IntKey(15)].Map?
    && var cwt := header[IntKey(15)].entries;
       && IntKey(1) in cwt && cwt[IntKey(1)] == Text(claims.iss) && 1 <= Characters(claims.iss) <= 8192
       && IntKey(2) in cwt && cwt[IntKey(2)] == Text(claims.sub) && claims.sub != []
  }

  /** A key id under label 4, or a certificate under label 33 or 34. */
  predicate NamesKey(header: map<Key, Value>) {
    (IntKey(4) in header && header[IntKey(4)] != Null) || IntKey(33) in header || IntKey(34) in header
  }

  /** This is the payload, and the issuer's key verifies the signature over the encoded content. */
  predicate SignedPayloadIs(
      s: Sign1, issuer: Bytes, given: Option<Bytes>, payload: Bytes, verifies: (Bytes, Bytes, Bytes) -> bool)
  {
    && PayloadIs(s, given, payload) && Encodable(SignedContent(s.protected, payload))
    && verifies(issuer, s.sig, Encode(SignedContent(s.protected, payload)))
  }

  /**
   A statement verifies exactly when it parses, states EdDSA (-8) under label 1, carries claims and a key, has one
   payload, and the issuer's key verifies its signature over the encoded content.
   */
  lemma {:induction false} StatementExactly(
      cose: Bytes, issuer: Bytes, given: Option<Bytes>, verifies: (Bytes, Bytes, Bytes) -> bool)
    ensures StatementOk(cose, issuer, given, verifies) <==>
            && ParseSign1(cose).Some?
            && var s := ParseSign1(cose).value;
               && IntKey(1) in s.header && s.header[IntKey(1)] == Int(-8) && NamesKey(s.header)
               && (exists claims :: HeaderClaims(s.header, claims))
               && exists payload :: SignedPayloadIs(s, issuer, given, payload, verifies)
  {
    hide ParseSign1, Encode, Encodable, Characters, ValidUtf8;
    if ParseSign1(cose).Some? {
      var s := ParseSign1(cose).value;
      ClaimsExactly(s.header);
      if StatementOk(cose, issuer, given, verifies) {
        assert SignedPayloadIs(s, issuer, given, EffectivePayload(s, given).value, verifies);
      }
      if payload :| SignedPayloadIs(s, issuer, given, payload, verifies) {
        assert EffectivePayload(s, given) == Some(payload);
      }
    }
  }

  lemma ClaimsExactly(header: map<Key, Value>)
    ensures CheckedClaims(header).Some? <==> exists claims :: HeaderClaims(header, claims)
    ensures CheckedClaims(header).Some? ==> HeaderClaims(header, CheckedClaims(header).value)
  {
    hide Characters;
    if CheckedClaims(header).Some? {
      assert HeaderClaims(header, CheckedClaims(header).value);
    }
  }

  /** Every verified statement was signed by the issuer: the signed parts are these, and no others. */
  lemma {:induction false} VerifiedIsSigned(
      cose: Bytes, issuer: Bytes, given: Option<Bytes>, verifies: (Bytes, Bytes, Bytes) -> bool)
    returns (payload: Bytes)
    requires StatementOk(cose, issuer, given, verifies)
    ensures ParseSign1(cose).Some? && PayloadIs(ParseSign1(cose).value, given, payload)
    ensures IssuerSigned(issuer, ParseSign1(cose).value.sig, ParseSign1(cose).value.protected, payload, verifies)
  {
    hide ParseSign1, Encode, Decode, Encodable, Fits, HeaderClaims, NamesKey;
    StatementExactly(cose, issuer, given, verifies);
    var s := ParseSign1(cose).value;
    payload :| SignedPayloadIs(s, issuer, given, payload, verifies);
    ContentFits(s.protected, payload);
    RoundTrip(SignedContent(s.protected, payload));
  }

  lemma ContentFits(protected: Bytes, payload: Bytes)
    ensures Fits(SignedContent(protected, payload), 0)
  {
  }

  // ---------------------------------------------------------------- issuing

  /** The protected header of signed_statement. */
  function IssuedHeader(contentType: Bytes, pk: Bytes, claims: Claims, iat: Option<int>): map<Key, Value> {
    var cwt := map[IntKey(1) := Text(claims.iss), IntKey(2) := Text(claims.sub)];
    map[IntKey(1) := Int(-8), IntKey(3) := Text(contentType), IntKey(4) := Byte(pk),
        IntKey(15) := Map(if iat.Some? then cwt[IntKey(6) := Int(iat.value)] else cwt)]
  }

  /** signed_statement, with the issuer's key as the function that signs; None where it raises. */
  function IssueStatement(payload: Bytes, contentType: Bytes, claims: Claims, pk: Bytes, sign: Bytes -> Bytes,
      detached: bool, iat: Option<int>): Option<Bytes>
  {
    var header := IssuedHeader(contentType, pk, claims, iat);
    if !(1 <= Characters(claims.iss) <= MAX_ISS) || claims.sub == [] then None
    else if contentType == [] || 0x0A in contentType then None
    else if !Encodable(Map(header)) then None
    else
      var protected := Encode(Map(header));
      var m := ToBeSigned(protected, payload);
      if m.None? then None
      else
        var s := Sign1(protected, header, map[], if detached then None else Some(payload), sign(m.value));
        if Encodable(Sign1Value(s)) then Some(PrintSign1(s)) else None
  }

  lemma HeaderFits(contentType: Bytes, pk: Bytes, claims: Claims, iat: Option<int>)
    ensures Fits(Map(IssuedHeader(contentType, pk, claims, iat)), 0)
  {
    var h := IssuedHeader(contentType, pk, claims, iat);
    assert Fits(h[IntKey(15)], 1);
  }

  /** The statement that was issued, by its parts. */
  lemma {:induction false} IssuedParses(payload: Bytes, contentType: Bytes, claims: Claims, pk: Bytes,
      sign: Bytes -> Bytes, detached: bool, iat: Option<int>)
    requires IssueStatement(payload, contentType, claims, pk, sign, detached, iat).Some?
    ensures var header := IssuedHeader(contentType, pk, claims, iat);
            && Encodable(Map(header)) && Encodable(SignedContent(Encode(Map(header)), payload))
            && ParseSign1(IssueStatement(payload, contentType, claims, pk, sign, detached, iat).value) ==
               Some(Sign1(Encode(Map(header)), header, map[], if detached then None else Some(payload),
                          sign(Encode(SignedContent(Encode(Map(header)), payload)))))
    ensures 1 <= Characters(claims.iss) <= 8192 && claims.sub != []
  {
    hide Encode, Encodable, Fits, Decode, ParseSign1, PrintSign1, IssuedHeader, Characters;
    var header := IssuedHeader(contentType, pk, claims, iat);
    HeaderFits(contentType, pk, claims, iat);
    RoundTrip(Map(header));
    var protected := Encode(Map(header));
    var s := Sign1(protected, header, map[], if detached then None else Some(payload),
                   sign(Encode(SignedContent(protected, payload))));
    IssuedFits(s);
    Sign1RoundTrip(s);
  }

  lemma IssuedFits(s: Sign1)
    requires s.unprotected == map[]
    ensures Fits(Sign1Value(s), 0)
  {
    var v := Sign1Value(s);
    forall i | 0 <= i < |v.items| ensures Fits(v.items[i], 1) {
    }
  }

  /**
   What an issuer signs verifies under its key for its payload, attached or given.  If the key verifies nothing
   but its own signatures, and signs no two messages alike, it verifies with no other given payload.
   */
  lemma {:induction false} IssuedStatementVerifies(payload: Bytes, contentType: Bytes, claims: Claims, pk: Bytes,
      sign: Bytes -> Bytes, detached: bool, iat: Option<int>, issuer: Bytes, given: Option<Bytes>,
      verifies: (Bytes, Bytes, Bytes) -> bool)
    requires IssueStatement(payload, contentType, claims, pk, sign, detached, iat).Some?
    requires forall sig, m :: verifies(issuer, sig, m) <==> sig == sign(m)
    requires forall m, n :: sign(m) == sign(n) ==> m == n
    ensures StatementOk(IssueStatement(payload, contentType, claims, pk, sign, detached, iat).value, issuer, given,
                verifies)
            <==> given == Some(payload) || (given.None? && !detached)
  {
    hide ParseSign1, Encode, Encodable, Characters, Decode, Fits, IssueStatement, IssuedHeader;
    var cose := IssueStatement(payload, contentType, claims, pk, sign, detached, iat).value;
    IssuedParses(payload, contentType, claims, pk, sign, detached, iat);
    StatementExactly(cose, issuer, given, verifies);
    var s := ParseSign1(cose).value;
    IssuedHeaderSays(contentType, pk, claims, iat);
    if given == Some(payload) || (given.None? && !detached) {
      assert SignedPayloadIs(s, issuer, given, payload, verifies);
    } else if StatementOk(cose, issuer, given, verifies) {
      var other :| SignedPayloadIs(s, issuer, given, other, verifies);
      OnePayload(s.protected, payload, other, sign);
    }
  }

  /** Signatures over two contents with the same protected header agree only for one payload. */
  lemma OnePayload(protected: Bytes, payload: Bytes, other: Bytes, sign: Bytes -> Bytes)
    requires Encodable(SignedContent(protected, payload)) && Encodable(SignedContent(protected, other))
    requires forall m, n :: sign(m) == sign(n) ==> m == n
    ensures sign(Encode(SignedContent(protected, payload))) == sign(Encode(SignedContent(protected, other))) ==>
              payload == other
  {
    hide Encode, Encodable, Fits;
    var a, b := SignedContent(protected, payload), SignedContent(protected, other);
    ContentFits(protected, payload);
    ContentFits(protected, other);
    assert a.items[3] == Byte(payload) && b.items[3] == Byte(other);
    if Encode(a) == Encode(b) {
      EncodeInjective(a, b);
    }
  }

  lemma IssuedHeaderSays(contentType: Bytes, pk: Bytes, claims: Claims, iat: Option<int>)
    requires 1 <= Characters(claims.iss) <= 8192 && claims.sub != []
    ensures var h := IssuedHeader(contentType, pk, claims, iat);
            IntKey(1) in h && h[IntKey(1)] == Int(-8) && NamesKey(h) && HeaderClaims(h, claims)
  {
  }
}
