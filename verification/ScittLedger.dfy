/**
 The transparency service of cryptovalid_scitt.py: a hash-chained ledger of registrations, receipts
 over its tree, and the relying party's check of a receipt.
 */
module ScittLedger {
  import opened MerkleTree
  import opened MerkleWalk
  import opened MerkleVerifiers
  import opened Octets
  import opened Cbor
  import opened Scitt

  /** What an entry's data says: a registration that binds a statement, or anything else. */
  datatype Data = Registration(statement: Bytes, claims: Claims) | OtherData(id: nat)

  /** The self_hash of the previous entry, as the term that was hashed. */
  datatype Link = Genesis | SelfHash(entry: Entry)

  /** A ledger entry; its canonical form covers all these fields. */
  datatype Entry = Entry(idx: int, ts: nat, data: Data, prev: Link)

  /** The canonical bytes a leaf commits to: those of an entry, or bytes that are no entry. */
  datatype Canonical = CanonicalEntry(entry: Entry) | OtherBytes(id: nat)

  type Ledger = seq<Entry>

  function CanonicalLeaves(ledger: Ledger): (r: seq<Canonical>)
    ensures |r| == |ledger|
  {
    seq(|ledger|, i requires 0 <= i < |ledger| => CanonicalEntry(ledger[i]))
  }

  function LastLink(ledger: Ledger): Link {
    if ledger == [] then Genesis else SelfHash(ledger[|ledger| - 1])
  }

  /** Entries numbered from 0, each linked to the one before. */
  ghost predicate Chained(ledger: Ledger) {
    forall i :: 0 <= i < |ledger| ==> ledger[i].idx == i && ledger[i].prev == LastLink(ledger[..i])
  }

  /** The issuer signed what this statement says, with the attached payload or the given one. */
  ghost predicate SignedStatement(
      cose: Bytes, issuer: Bytes, given: Option<Bytes>, verifies: (Bytes, Bytes, Bytes) -> bool)
  {
    ParseSign1(cose).Some? && var s := ParseSign1(cose).value;
    exists payload :: PayloadIs(s, given, payload) && IssuerSigned(issuer, s.sig, s.protected, payload, verifies)
  }

  lemma SignedIfOk(cose: Bytes, issuer: Bytes, given: Option<Bytes>, verifies: (Bytes, Bytes, Bytes) -> bool)
    requires StatementOk(cose, issuer, given, verifies)
    ensures SignedStatement(cose, issuer, given, verifies)
  {
    hide StatementOk, ParseSign1, IssuerSigned, PayloadIs;
    var payload := VerifiedIsSigned(cose, issuer, given, verifies);
  }

  /** What the issuer signs: protected headers with payloads. */
  datatype Content = Content(protected: Bytes, payload: Bytes)

  /** The issuer's key verifies signatures over these contents only. */
  ghost predicate SignsOnly(issuer: Bytes, verifies: (Bytes, Bytes, Bytes) -> bool, contents: set<Content>) {
    forall sig, m, c: Content ::
      verifies(issuer, sig, m) && Decode(m) == Some(SignedContent(c.protected, c.payload)) ==> c in contents
  }

  /** The entry binds a statement with one of these contents, attached or detached. */
  ghost predicate BindsOneOf(e: Entry, contents: set<Content>) {
    exists s: Sign1, c ::
      c in contents && s.protected == c.protected && (s.payload.Some? ==> s.payload.value == c.payload) && Short(s)
      && e.data.Registration? && e.data.statement == StatementId(s)
  }

  /** With an issuer that signs these contents only, an entry that binds a verified statement binds one of them. */
  lemma {:induction false} RegisteredWasSigned(e: Entry, cose: Bytes, issuer: Bytes, given: Option<Bytes>,
      verifies: (Bytes, Bytes, Bytes) -> bool, contents: set<Content>)
    requires Binds(e, cose) && SignedStatement(cose, issuer, given, verifies) && SignsOnly(issuer, verifies, contents)
    ensures BindsOneOf(e, contents)
  {
    hide ParseSign1, StatementId, Decode;
    var s := ParseSign1(cose).value;
    var payload :| PayloadIs(s, given, payload) && IssuerSigned(issuer, s.sig, s.protected, payload, verifies);
    var c := Content(s.protected, payload);
    assert c in contents;
  }

  class Service {
    var ledger: Ledger

    constructor ()
      ensures ledger == []
    {
      ledger := [];
    }

    /** register: nothing is appended for a statement that does not verify. */
    method Register(cose: Bytes, issuer: Bytes, given: Option<Bytes>, verifies: (Bytes, Bytes, Bytes) -> bool, ts: nat)
      returns (index: Option<nat>)
      requires Chained(ledger) && |cose| < TWO_64
      modifies this
      ensures Chained(ledger) && old(ledger) <= ledger
      ensures index.Some? <==> StatementOk(cose, issuer, given, verifies)
      ensures index.None? ==> ledger == old(ledger)
      ensures index.Some? ==>
                && |ledger| == |old(ledger)| + 1 && index.value == |old(ledger)|
                && Binds(ledger[index.value], cose) && ledger[index.value].ts == ts
                && SignedStatement(cose, issuer, given, verifies)
                && HeaderClaims(ParseSign1(cose).value.header, ledger[index.value].data.claims)
    {
      hide ToBeSigned, StatementId, SignedStatement, HeaderClaims, CheckedClaims, Decode;
      if !StatementOk(cose, issuer, given, verifies) {
        return None;
      }
      ParsedParts(cose);
      SignedIfOk(cose, issuer, given, verifies);
      var s := ParseSign1(cose).value;
      ClaimsExactly(s.header);
      var e := Entry(|ledger|, ts, Registration(StatementId(s), CheckedClaims(s.header).value), LastLink(ledger));
      index := Some(|ledger|);
      AppendKeepsChain(ledger, e);
      ledger := ledger + [e];
    }
  }

  lemma AppendKeepsChain(ledger: Ledger, e: Entry)
    requires Chained(ledger) && e.idx == |ledger| && e.prev == LastLink(ledger)
    ensures Chained(ledger + [e])
  {
    var longer := ledger + [e];
    forall i | 0 <= i < |longer| ensures longer[i].idx == i && longer[i].prev == LastLink(longer[..i]) {
      assert longer[..i] == ledger[..i];
      assert ledger[..|ledger|] == ledger;
    }
  }

  /** The entry registers this statement: its data binds the statement's identity. */
  predicate Binds(e: Entry, cose: Bytes) {
    && ParseSign1(cose).Some? && Short(ParseSign1(cose).value)
    && e.data.Registration? && e.data.statement == StatementId(ParseSign1(cose).value)
  }

  // ---------------------------------------------------------------- receipts

  type Root = Digest<Canonical>

  /** The protected header of a receipt. */
  datatype Protected = Protected(alg: int, vds: int, kid: nat, claims: Option<Claims>)

  /** A signature of the service: who signed which protected header over which root. */
  datatype RootSig = RootSig(pub: nat, protected: Protected, root: Root) | NotASignature

  /** A path element after CBOR decoding: a 32-byte string, or something else. */
  datatype PathItem = PathHash(root: Root) | NotAHash

  datatype Proof = Proof(n: int, idx: int, path: seq<PathItem>) | MalformedProof

  datatype Receipt = Receipt(protected: Protected, leaf: Option<Canonical>, proof: Proof, payload: Option<Root>,
      sig: RootSig)

  function AsPath(p: seq<Root>): seq<PathItem> {
    seq(|p|, i requires 0 <= i < |p| => PathHash(p[i]))
  }

  predicate AllPathHashes(p: seq<PathItem>) {
    forall i :: 0 <= i < |p| ==> p[i].PathHash?
  }

  function PathDigests(p: seq<PathItem>): seq<Root>
    requires AllPathHashes(p)
  {
    seq(|p|, i requires 0 <= i < |p| => p[i].root)
  }

  /** receipt: the inclusion proof of an entry under the signed root of the whole ledger. */
  function MakeReceipt(ledger: Ledger, index: nat, key: nat, claims: Claims, detached: bool): Receipt
    requires index < |ledger|
  {
    var leaves := CanonicalLeaves(ledger);
    var header := Protected(ALG_EDDSA, 1, key, Some(claims));
    Receipt(header, Some(leaves[index]), Proof(|leaves|, index, AsPath(InclusionProof(index, leaves))),
            if detached then None else Some(Mth(leaves)), RootSig(key, header, Mth(leaves)))
  }

  /** The checks on one receipt, in the order of the source, for the identity `want`. */
  predicate ReceiptOk(r: Receipt, want: Bytes, trusted: nat, expectedIss: Option<Bytes>) {
    && r.protected.alg == ALG_EDDSA && r.protected.vds == 1
    && r.protected.claims.Some?
    && (expectedIss.Some? ==> r.protected.claims.value.iss == expectedIss.value)
    && r.protected.kid == trusted
    && r.leaf.Some? && r.leaf.value.CanonicalEntry?
    && r.leaf.value.entry.data.Registration? && r.leaf.value.entry.data.statement == want
    && r.proof.Proof? && r.proof.n >= 0 && r.proof.idx >= 0 && AllPathHashes(r.proof.path)
    && r.proof.idx == r.leaf.value.entry.idx
    && var root := StrictRoot(r.proof.idx, r.proof.n, LeafHash(r.leaf.value), PathDigests(r.proof.path));
       root.Some? && (r.payload.Some? ==> r.payload.value == root.value)
       && r.sig == RootSig(trusted, r.protected, root.value)
  }

  method CheckReceipt(r: Receipt, want: Bytes, trusted: nat, expectedIss: Option<Bytes>) returns (ok: bool)
    ensures ok == ReceiptOk(r, want, trusted, expectedIss)
  {
    if r.protected.alg != ALG_EDDSA || r.protected.vds != 1 || r.protected.claims.None? {
      return false;
    }
    if expectedIss.Some? && r.protected.claims.value.iss != expectedIss.value {
      return false;
    }
    if r.protected.kid != trusted || r.leaf.None? || !r.leaf.value.CanonicalEntry? {
      return false;
    }
    var entry := r.leaf.value.entry;
    if !entry.data.Registration? || entry.data.statement != want {
      return false;
    }
    if !r.proof.Proof? || r.proof.n < 0 || r.proof.idx < 0 || !AllPathHashes(r.proof.path) || r.proof.idx != entry.idx {
      return false;
    }
    var root := RootFromInclusion(r.proof.idx, r.proof.n, LeafHash(r.leaf.value), PathDigests(r.proof.path));
    ok := root.Some? && (r.payload.Some? ==> r.payload.value == root.value)
        && r.sig == RootSig(trusted, r.protected, root.value);
  }

  /** How a receipt's bytes decode to its fields, if they do. */
  type ReceiptCodec = Bytes -> Option<Receipt>

  /** The receipts a statement carries: a non-empty array of byte strings under label 394. */
  function CarriedReceipts(uh: map<Key, Value>): Option<seq<Value>> {
    if L_RECEIPTS in uh && uh[L_RECEIPTS].Array? && uh[L_RECEIPTS].items != [] && AllByteStrings(uh[L_RECEIPTS].items)
    then Some(uh[L_RECEIPTS].items)
    else None
  }

  predicate ItemOk(item: Value, decode: ReceiptCodec, want: Bytes, trusted: nat, expectedIss: Option<Bytes>) {
    item.Byte? && decode(item.bytes).Some? && ReceiptOk(decode(item.bytes).value, want, trusted, expectedIss)
  }

  /** The verdict of verify_transparent_statement. */
  ghost predicate TransparentOk(cose: Bytes, issuer: Bytes, given: Option<Bytes>,
      verifies: (Bytes, Bytes, Bytes) -> bool,
                                decode: ReceiptCodec, trusted: nat, expectedIss: Option<Bytes>)
  {
    && StatementOk(cose, issuer, given, verifies)
    && var s := ParseSign1(cose).value;
       && Short(s) && CarriedReceipts(s.unprotected).Some?
       && exists item :: item in CarriedReceipts(s.unprotected).value
                         && ItemOk(item, decode, StatementId(s), trusted, expectedIss)
  }

  /** verify_transparent_statement: the statement verifies and at least one of the receipts it carries is valid. */
  method VerifyTransparent(cose: Bytes, issuer: Bytes, given: Option<Bytes>, verifies: (Bytes, Bytes, Bytes) -> bool,
                           decode: ReceiptCodec, trusted: nat, expectedIss: Option<Bytes>)
    returns (ok: bool)
    requires |cose| < TWO_64
    ensures ok <==> TransparentOk(cose, issuer, given, verifies, decode, trusted, expectedIss)
  {
    hide ToBeSigned, StatementId, CheckedClaims, ReceiptOk;
    if !StatementOk(cose, issuer, given, verifies) {
      return false;
    }
    ParsedParts(cose);
    var s := ParseSign1(cose).value;
    var want := StatementId(s);
    var carried := CarriedReceipts(s.unprotected);
    if carried.None? {
      return false;
    }
    var good, items := 0, carried.value;
    for i := 0 to |items|
      invariant good >= 0
      invariant good > 0 <==> exists k :: 0 <= k < i && ItemOk(items[k], decode, want, trusted, expectedIss)
    {
      var r := decode(items[i].bytes);
      if r.Some? {
        var valid := CheckReceipt(r.value, want, trusted, expectedIss);
        if valid {
          good := good + 1;
        }
      }
    }
    ok := good > 0;
  }

  // ---------------------------------------------------------------- end to end

  /** A receipt taken at any later size of the ledger verifies for the statement registered at that index. */
  lemma {:induction false} LaterReceiptVerifies(ledger: Ledger, later: Ledger, index: nat, cose: Bytes,
                                                 key: nat, claims: Claims, detached: bool, expectedIss: Option<Bytes>)
    requires index < |ledger| && ledger <= later && Chained(later) && Binds(ledger[index], cose)
    requires expectedIss.Some? ==> expectedIss.value == claims.iss
    ensures ReceiptOk(MakeReceipt(later, index, key, claims, detached), StatementId(ParseSign1(cose).value), key,
            expectedIss)
  {
    hide Mth, InclusionProof, StrictRoot, ParseSign1, StatementId;
    var leaves := CanonicalLeaves(later);
    var path := InclusionProof(index, leaves);
    assert PathDigests(AsPath(path)) == path;
    assert later[index] == ledger[index];
    StrictInclusionExact(index, leaves, LeafHash(leaves[index]), path);
  }

  /** What transparent_statement carries: the items that were there, then the receipts. */
  lemma {:induction false} TransparentCarries(cose: Bytes, receipts: seq<Bytes>)
    requires |cose| < TWO_64 && TransparentStatement(cose, receipts).Some?
    ensures ParseSign1(cose).Some? && ParseSign1(TransparentStatement(cose, receipts).value).Some?
    ensures var s, t := ParseSign1(cose).value, ParseSign1(TransparentStatement(cose, receipts).value).value;
            var before := ReceiptItems(s.unprotected);
            && before.Some? && receipts != []
            && CarriedReceipts(t.unprotected) ==
               if AllByteStrings(before.value) then Some(before.value + AsItems(receipts)) else None
  {
    hide ParseSign1, StatementId, ListOf;
    TransparentKeepsIdentity(cose, receipts);
    var before := ReceiptItems(ParseSign1(cose).value.unprotected).value;
    var items := before + AsItems(receipts);
    if AllByteStrings(before) {
      assert AllByteStrings(items);
    } else {
      var i :| 0 <= i < |before| && !before[i].Byte?;
      assert items[i] == before[i];
    }
  }

  /**
   Foreign items block: a statement that carries anything but byte strings under label 394 gives no
   transparent statement that verifies, whatever receipts are attached to it.
   */
  lemma {:induction false} ForeignItemsBlock(cose: Bytes, receipts: seq<Bytes>, issuer: Bytes, given: Option<Bytes>,
                                             verifies: (Bytes, Bytes, Bytes) -> bool, decode: ReceiptCodec,
                                             trusted: nat, expectedIss: Option<Bytes>)
    requires |cose| < TWO_64 && TransparentStatement(cose, receipts).Some?
    requires ParseSign1(cose).Some? && ReceiptItems(ParseSign1(cose).value.unprotected).Some?
    requires !AllByteStrings(ReceiptItems(ParseSign1(cose).value.unprotected).value)
    ensures !TransparentOk(TransparentStatement(cose, receipts).value, issuer, given, verifies, decode, trusted,
            expectedIss)
  {
    hide ParseSign1, ReceiptItems, TransparentStatement;
    TransparentCarries(cose, receipts);
  }

  /**
   SCITT end to end.  A statement registered in a ledger, a receipt taken at any later size, and any
   bytes that decode to that receipt: the transparent statement made of them verifies exactly when the
   statement carried nothing but byte strings under label 394 before.
   */
  lemma {:induction false} RegisteredStatementVerifies(
      ledger: Ledger, later: Ledger, index: nat, cose: Bytes, bytes: Bytes, issuer: Bytes, given: Option<Bytes>,
      verifies: (Bytes, Bytes, Bytes) -> bool, decode: ReceiptCodec, key: nat, claims: Claims, detached: bool,
      expectedIss: Option<Bytes>)
    requires index < |ledger| && ledger <= later && Chained(later) && Binds(ledger[index], cose)
    requires StatementOk(cose, issuer, given, verifies) && |cose| < TWO_64
    requires expectedIss.Some? ==> expectedIss.value == claims.iss
    requires decode(bytes) == Some(MakeReceipt(later, index, key, claims, detached))
    requires TransparentStatement(cose, [bytes]).Some? && ReceiptItems(ParseSign1(cose).value.unprotected).Some?
    ensures TransparentOk(TransparentStatement(cose, [bytes]).value, issuer, given, verifies, decode, key, expectedIss)
            <==> AllByteStrings(ReceiptItems(ParseSign1(cose).value.unprotected).value)
  {
    hide ParseSign1, ReceiptItems, TransparentStatement, StatementId, StatementOk, ReceiptOk, MakeReceipt;
    var before := ReceiptItems(ParseSign1(cose).value.unprotected).value;
    var t := TransparentStatement(cose, [bytes]).value;
    TransparentKeepsIdentity(cose, [bytes]);
    TransparentVerifiesAlike(cose, [bytes], issuer, given, verifies);
    TransparentCarries(cose, [bytes]);
    LaterReceiptVerifies(ledger, later, index, cose, key, claims, detached, expectedIss);
    if AllByteStrings(before) {
      var items := before + AsItems([bytes]);
      assert items[|before|] == Byte(bytes) && items[|before|] in items;
    }
  }

  /** The failing input: a statement with the array [1] under label 394 registers like any other and is blocked. */
  lemma {:induction false} OneUnderReceiptsBlocks(s: Sign1, receipts: seq<Bytes>, issuer: Bytes, given: Option<Bytes>,
                                                  verifies: (Bytes, Bytes, Bytes) -> bool, decode: ReceiptCodec,
                                             trusted: nat, expectedIss: Option<Bytes>)
    requires Encodable(Sign1Value(s)) && Fits(Sign1Value(s), 0) && Decode(s.protected) == Some(Map(s.header))
    ensures var marked := s.(unprotected := map[L_RECEIPTS := Array([Int(1)])]);
            && Encodable(Sign1Value(marked))
            && var cose := PrintSign1(marked);
               && StatementOk(cose, issuer, given, verifies) == StatementOk(PrintSign1(s), issuer, given, verifies)
               && (|cose| < TWO_64 && TransparentStatement(cose, receipts).Some? ==>
                     !TransparentOk(TransparentStatement(cose, receipts).value, issuer, given, verifies, decode,
                                    trusted, expectedIss))
  {
    var marked := s.(unprotected := map[L_RECEIPTS := Array([Int(1)])]);
    MarkedFits(s, marked);
    Sign1RoundTrip(s);
    Sign1RoundTrip(marked);
    MarkedItems(marked);
    hide ParseSign1, PrintSign1, TransparentStatement, TransparentOk, StatementOk, Encodable, Fits, Decode;
    hide ReceiptItems, AllByteStrings;
    var cose := PrintSign1(marked);
    SignedPartsDecide(cose, PrintSign1(s), issuer, given, verifies);
    if |cose| < TWO_64 && TransparentStatement(cose, receipts).Some? {
      ForeignItemsBlock(cose, receipts, issuer, given, verifies, decode, trusted, expectedIss);
    }
  }

  lemma MarkedItems(marked: Sign1)
    requires marked.unprotected == map[L_RECEIPTS := Array([Int(1)])]
    ensures ReceiptItems(marked.unprotected) == Some([Int(1)]) && !AllByteStrings([Int(1)])
  {
    assert [Int(1)][0] == Int(1);
  }

  lemma {:induction false} MarkedFits(s: Sign1, marked: Sign1)
    requires Encodable(Sign1Value(s)) && Fits(Sign1Value(s), 0)
    requires marked == s.(unprotected := map[L_RECEIPTS := Array([Int(1)])])
    ensures Encodable(Sign1Value(marked)) && Fits(Sign1Value(marked), 0)
  {
    var v, w := Sign1Value(s), Sign1Value(marked);
    assert Encodable(Int(1)) && Fits(Int(1), 3);
    assert Encodable(Array([Int(1)])) && Fits(Array([Int(1)]), 2);
    var m := marked.unprotected;
    assert |m| == 1 by { assert m.Keys == {L_RECEIPTS}; }
    assert Encodable(Map(m)) && Fits(Map(m), 1);
    forall i | 0 <= i < 4 ensures Encodable(w.items[i]) && Fits(w.items[i], 1) {
      assert Encodable(v.items[i]) && Fits(v.items[i], 1);
    }
  }

  /** An honest service signs only roots of prefixes of one chained ledger. */
  ghost predicate SignedByHonestService(sig: RootSig, key: nat, ledger: Ledger) {
    sig.RootSig? && sig.pub == key ==> exists k :: 0 <= k <= |ledger| && sig.root == Mth(CanonicalLeaves(ledger[..k]))
  }

  /**
   Acceptance under an honest service's key: the ledger entry at the reported leaf index is a
   registration of exactly this statement, whatever tree size the unsigned proof names.  The signature covers
   a protected header that states EdDSA, the RFC 9162 tree, this key and the expected issuer.
   */
  lemma {:induction false} AcceptedReceiptIsRegistered(ledger: Ledger, r: Receipt, want: Bytes, key: nat,
      expectedIss: Option<Bytes>)
    requires Chained(ledger) && SignedByHonestService(r.sig, key, ledger)
    requires ReceiptOk(r, want, key, expectedIss)
    ensures 0 <= r.proof.idx < |ledger|
    ensures ledger[r.proof.idx] == r.leaf.value.entry
    ensures ledger[r.proof.idx].data.Registration? && ledger[r.proof.idx].data.statement == want
    ensures r.protected.alg == -8 && r.protected.vds == 1 && r.protected.kid == key
    ensures r.protected.claims.Some? && (expectedIss.Some? ==> r.protected.claims.value.iss == expectedIss.value)
    ensures r.sig.RootSig? && r.sig.pub == key && r.sig.protected == r.protected
    ensures r.payload.Some? ==> r.payload.value == r.sig.root
  {
    hide Mth, Walk;
    var leaf := r.leaf.value;
    var k :| 0 <= k <= |ledger| && r.sig.root == Mth(CanonicalLeaves(ledger[..k]));
    var leaves := CanonicalLeaves(ledger[..k]);
    WalkContains(r.proof.idx, r.proof.n - 1, LeafHash(leaf), PathDigests(r.proof.path), true);
    assert Occurs(LeafHash(leaf), Mth(leaves));
    LeafInTreeIsALeaf(leaf, leaves);
    var j :| 0 <= j < |leaves| && leaves[j] == leaf;
    assert ledger[j] == leaf.entry && ledger[j].idx == j;
  }

  /** The other direction end to end: a transparent statement that verifies is registered in the honest ledger. */
  lemma {:induction false} VerifiedStatementIsRegistered(
      ledger: Ledger, cose: Bytes, issuer: Bytes, given: Option<Bytes>, verifies: (Bytes, Bytes, Bytes) -> bool,
      decode: ReceiptCodec, key: nat, expectedIss: Option<Bytes>) returns (index: nat)
    requires TransparentOk(cose, issuer, given, verifies, decode, key, expectedIss) && Chained(ledger)
    requires forall b :: decode(b).Some? ==> SignedByHonestService(decode(b).value.sig, key, ledger)
    ensures index < |ledger| && Binds(ledger[index], cose) && SignedStatement(cose, issuer, given, verifies)
    ensures forall contents :: SignsOnly(issuer, verifies, contents) ==> BindsOneOf(ledger[index], contents)
  {
    hide StatementId, ReceiptOk, SignedByHonestService, Chained, ToBeSigned, CheckedClaims, SignedStatement, SignsOnly;
    hide BindsOneOf, Decode;
    SignedIfOk(cose, issuer, given, verifies);
    var s := ParseSign1(cose).value;
    var item :| item in CarriedReceipts(s.unprotected).value && ItemOk(item, decode, StatementId(s), key, expectedIss);
    var r := decode(item.bytes).value;
    ReceiptHasProof(r, StatementId(s), key, expectedIss);
    AcceptedReceiptIsRegistered(ledger, r, StatementId(s), key, expectedIss);
    index := r.proof.idx;
    forall contents | SignsOnly(issuer, verifies, contents) ensures BindsOneOf(ledger[index], contents) {
      RegisteredWasSigned(ledger[index], cose, issuer, given, verifies, contents);
    }
  }

  lemma ReceiptHasProof(r: Receipt, want: Bytes, trusted: nat, expectedIss: Option<Bytes>)
    requires ReceiptOk(r, want, trusted, expectedIss)
    ensures r.leaf.Some? && r.leaf.value.CanonicalEntry? && r.proof.Proof?
  {
  }
}
