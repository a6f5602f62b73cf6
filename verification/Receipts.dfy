// ReceiptV1 of receiptcore/receipt.go: creation, validation, verification.
module Receipts {
  import opened Prelude
  import opened Lexicographic
  import opened Sorting
  import opened Jcs
  import opened StrictJson
  import opened Digest256
  import Hex

  const RECEIPT_ID_TAG := "APS-RECEIPT-ID-V1"
  const RECEIPT_SIG_TAG := "APS-RECEIPT-SIG-V1"
  const ALG := "Ed25519"
  const NUL := "\0"
  const ZEROS := "0000000000000000"
  const ZERO_ID := ZEROS + ZEROS + ZEROS + ZEROS

  // What the receipt code calls into: the hash, the signature scheme and the
  // exact-millisecond timestamp check.
  datatype Env = Env(
    sha256: string -> string,
    sign: (string, string) -> Option<string>,
    verify: (string, string, string) -> bool,
    exactUtcMillis: string -> bool
  )

  datatype EvidenceRef = EvidenceRef(artifactType: string, sha256: string)
  datatype Signature = Signature(signer: string, keyId: string, alg: string, value: string)
  datatype Signer = Signer(signer: string, keyId: string, privateKey: string)

  // None is Go's nil slice or map, which is not the empty one.
  datatype Receipt = Receipt(
    profile: string,
    receiptId: string,
    receiptType: string,
    issuer: string,
    subjectAgent: string,
    actionRef: string,
    delegationRef: string,
    decisionRef: Option<string>,
    issuedAt: string,
    evidenceRefs: Option<seq<EvidenceRef>>,
    result: Option<map<string, GoValue>>,
    prev: Option<string>,
    signatures: Option<seq<Signature>>
  )

  // ----- payloads

  function Elements<T>(s: Option<seq<T>>): seq<T> {
    match s case Some(e) => e case None => []
  }

  function RefValue(ref: EvidenceRef): GoValue {
    Map(map["artifact_type" := Text(ref.artifactType), "sha256" := Text(ref.sha256)])
  }

  function SignatureValue(p: Signature): GoValue {
    Map(map["signer" := Text(p.signer), "key_id" := Text(p.keyId), "alg" := Text(p.alg), "value" := Text(p.value)])
  }

  function DescriptorValue(p: Signature): GoValue {
    Map(map["signer" := Text(p.signer), "key_id" := Text(p.keyId), "alg" := Text(p.alg)])
  }

  function Optional(key: string, v: Option<string>): map<string, GoValue> {
    match v case Some(s) => map[key := Text(s)] case None => map[]
  }

  // The members every receipt has, signed and identified or not.
  function BodyMembers(r: Receipt): map<string, GoValue> {
    var refs := Elements(r.evidenceRefs);
    map[
      "profile" := Text(r.profile), "receipt_type" := Text(r.receiptType), "issuer" := Text(r.issuer),
      "subject_agent" := Text(r.subjectAgent), "action_ref" := Text(r.actionRef),
      "delegation_ref" := Text(r.delegationRef), "issued_at" := Text(r.issuedAt),
      "result" := Map(match r.result case Some(m) => m case None => map[]),
      "evidence_refs" := Slice(seq(|refs|, i requires 0 <= i < |refs| => RefValue(refs[i])))
    ]
  }

  function ExtraMembers(r: Receipt, includeId: bool, includeSignatures: bool): map<string, GoValue> {
    var proofs := Elements(r.signatures);
    (if includeId then map["receipt_id" := Text(r.receiptId)] else map[])
    + Optional("decision_ref", r.decisionRef)
    + Optional("prev", r.prev)
    + (if includeSignatures then
         map["signatures" := Slice(seq(|proofs|, i requires 0 <= i < |proofs| => SignatureValue(proofs[i])))]
       else map[])
  }

  function ReceiptValue(r: Receipt, includeId: bool, includeSignatures: bool): GoValue {
    Map(BodyMembers(r) + ExtraMembers(r, includeId, includeSignatures))
  }

  function ReceiptId(env: Env, r: Receipt): Option<string>
    requires FixedDigest(env.sha256)
  {
    match StrictJcs(ReceiptValue(r, false, false))
    case None => None
    case Some(text) => Some(Sha256Hex(env.sha256, RECEIPT_ID_TAG + NUL + text))
  }

  // The signature covers the identified receipt and who signs it, not the
  // signatures.
  function SignaturePayload(r: Receipt, descriptor: Signature): Option<string> {
    match StrictJcs(Map(map["receipt" := ReceiptValue(r, true, false), "signer" := DescriptorValue(descriptor)]))
    case None => None
    case Some(text) => Some(RECEIPT_SIG_TAG + NUL + text)
  }

  // ----- validation

  function RefKey(ref: EvidenceRef): string {
    ref.artifactType + NUL + ref.sha256
  }

  function SignatureKey(p: Signature): string {
    p.signer + NUL + p.keyId
  }

  // Strictly ascending, and so without duplicates.
  ghost predicate Ascending<T(!new)>(key: T -> string, s: seq<T>) {
    forall i, j :: 0 <= i < j < |s| ==> Less(key(s[i]), key(s[j]))
  }

  predicate HeaderOk(env: Env, r: Receipt, requireValues: bool) {
    && r.profile == "aps-receipt-v1"
    && r.receiptType != "" && r.issuer != "" && r.subjectAgent != "" && r.delegationRef != ""
    && (requireValues ==> Hex.Hex64(r.receiptId))
    && Hex.Hex64(r.actionRef)
    && (r.decisionRef.Some? ==> Hex.Hex64(r.decisionRef.value))
    && (r.prev.Some? ==> Hex.Hex64(r.prev.value))
    && env.exactUtcMillis(r.issuedAt)
    && r.result.Some? && r.evidenceRefs.Some? && r.signatures.Some?
  }

  predicate RefOk(ref: EvidenceRef) {
    ref.artifactType != "" && Hex.Hex64(ref.sha256)
  }

  predicate SignatureOk(p: Signature, requireValues: bool) {
    p.signer != "" && p.keyId != "" && p.alg == ALG && (requireValues ==> Hex.Hex128(p.value))
  }

  ghost predicate RefsOk(refs: seq<EvidenceRef>) {
    (forall i :: 0 <= i < |refs| ==> RefOk(refs[i])) && Ascending(RefKey, refs)
  }

  ghost predicate SignaturesOk(proofs: seq<Signature>, requireValues: bool) {
    (forall i :: 0 <= i < |proofs| ==> SignatureOk(proofs[i], requireValues)) && Ascending(SignatureKey, proofs)
  }

  ghost predicate IssuerSigned(proofs: seq<Signature>, issuer: string) {
    exists i :: 0 <= i < |proofs| && proofs[i].signer == issuer
  }

  ghost predicate Valid(env: Env, r: Receipt, requireValues: bool) {
    && HeaderOk(env, r, requireValues)
    && RefsOk(r.evidenceRefs.value)
    && SignaturesOk(r.signatures.value, requireValues)
    && (requireValues ==> IssuerSigned(r.signatures.value, r.issuer))
    && StrictJcs(ReceiptValue(r, true, true)).Some?
  }

  method CheckRefs(refs: seq<EvidenceRef>) returns (ok: bool)
    ensures ok <==> RefsOk(refs)
  {
    hide Less, Hex.Hex64;
    var seen: set<string> := {};
    var previous := "";
    for i := 0 to |refs|
      invariant seen == set k | 0 <= k < i :: RefKey(refs[k])
      invariant i > 0 ==> previous == RefKey(refs[i - 1])
      invariant forall k :: 0 <= k < i ==> RefOk(refs[k])
      invariant forall j, k :: 0 <= j < k < i ==> Less(RefKey(refs[j]), RefKey(refs[k]))
    {
      var ref := refs[i];
      if ref.artifactType == "" || !Hex.Hex64(ref.sha256) {
        return false;
      }
      var key := RefKey(ref);
      if key in seen || (i > 0 && !Less(previous, key)) {
        SeenIsNotAscending(RefKey, refs, i);
        return false;
      }
      forall j | 0 <= j < i ensures Less(RefKey(refs[j]), key) {
        if j < i - 1 {
          LessTransitive(RefKey(refs[j]), previous, key);
        }
      }
      seen := seen + {key};
      previous := key;
    }
    return true;
  }

  // A key met before cannot stand in an ascending list.
  lemma SeenIsNotAscending<T(!new)>(key: T -> string, s: seq<T>, i: nat)
    requires i < |s|
    ensures Ascending(key, s) ==> forall k :: 0 <= k < i ==> key(s[k]) != key(s[i])
  {
    LessIrreflexive(key(s[i]));
  }

  method CheckSignatures(proofs: seq<Signature>, requireValues: bool, issuer: string) returns (ok: bool, issuerSigned: bool)
    ensures ok <==> SignaturesOk(proofs, requireValues)
    ensures ok ==> (issuerSigned <==> IssuerSigned(proofs, issuer))
  {
    hide Less, Hex.Hex128;
    var seen: set<string> := {};
    var previous := "";
    issuerSigned := false;
    for i := 0 to |proofs|
      invariant seen == set k | 0 <= k < i :: SignatureKey(proofs[k])
      invariant i > 0 ==> previous == SignatureKey(proofs[i - 1])
      invariant forall k :: 0 <= k < i ==> SignatureOk(proofs[k], requireValues)
      invariant forall j, k :: 0 <= j < k < i ==> Less(SignatureKey(proofs[j]), SignatureKey(proofs[k]))
      invariant issuerSigned <==> exists k :: 0 <= k < i && proofs[k].signer == issuer
    {
      var proof := proofs[i];
      if proof.signer == "" || proof.keyId == "" || proof.alg != ALG || (requireValues && !Hex.Hex128(proof.value)) {
        return false, issuerSigned;
      }
      var key := SignatureKey(proof);
      if key in seen || (i > 0 && !Less(previous, key)) {
        SeenIsNotAscending(SignatureKey, proofs, i);
        return false, issuerSigned;
      }
      forall j | 0 <= j < i ensures Less(SignatureKey(proofs[j]), key) {
        if j < i - 1 {
          LessTransitive(SignatureKey(proofs[j]), previous, key);
        }
      }
      seen := seen + {key};
      previous := key;
      if proof.signer == issuer {
        issuerSigned := true;
      }
    }
    return true, issuerSigned;
  }

  method ValidateReceiptV1(env: Env, r: Receipt, requireValues: bool) returns (ok: bool)
    ensures ok <==> Valid(env, r, requireValues)
  {
    hide RefsOk, SignaturesOk, IssuerSigned;
    if !HeaderOk(env, r, requireValues) {
      return false;
    }
    var refsOk := CheckRefs(r.evidenceRefs.value);
    if !refsOk {
      return false;
    }
    var signaturesOk, issuerSigned := CheckSignatures(r.signatures.value, requireValues, r.issuer);
    if !signaturesOk || (requireValues && !issuerSigned) {
      return false;
    }
    return StrictJcs(ReceiptValue(r, true, true)).Some?;
  }

  // ----- creation

  predicate RefLess(a: EvidenceRef, b: EvidenceRef) {
    if a.artifactType != b.artifactType then Less(a.artifactType, b.artifactType) else Less(a.sha256, b.sha256)
  }

  predicate SignerLess(a: Signer, b: Signer) {
    if a.signer != b.signer then Less(a.signer, b.signer) else Less(a.keyId, b.keyId)
  }

  function Descriptor(s: Signer): Signature {
    Signature(s.signer, s.keyId, ALG, "")
  }

  function SignOne(env: Env, r: Receipt, s: Signer): Option<Signature> {
    match SignaturePayload(r, Descriptor(s)) case None => None case Some(payload) =>
    match env.sign(payload, s.privateKey) case None => None case Some(value) =>
    Some(Descriptor(s).(value := value))
  }

  // One signature per signer, in order; None as soon as one cannot be made.
  function SignAll(env: Env, r: Receipt, signers: seq<Signer>): (proofs: Option<seq<Signature>>)
    ensures proofs.Some? ==> |proofs.value| == |signers|
  {
    if signers == [] then Some([]) else
    match SignOne(env, r, signers[0]) case None => None case Some(first) =>
    match SignAll(env, r, signers[1..]) case None => None case Some(more) => Some([first] + more)
  }

  // The receipt before it is identified.
  function Prepared(fields: Receipt, refs: seq<EvidenceRef>): Receipt {
    // append(nil, s...) of an empty s is nil
    fields.(evidenceRefs := if refs == [] then None else Some(refs), receiptId := ZERO_ID, signatures := Some([]))
  }

  // `r` is what signing `fields` gives once the lists are in the orders
  // `refs` and `signers`.
  ghost predicate Created(env: Env, fields: Receipt, refs: seq<EvidenceRef>, signers: seq<Signer>, r: Receipt)
    requires FixedDigest(env.sha256)
  {
    var prepared := Prepared(fields, refs);
    && signers != []
    && Valid(env, prepared, false)
    && ReceiptId(env, prepared).Some?
    && var identified := prepared.(receiptId := ReceiptId(env, prepared).value);
    && SignAll(env, identified, signers).Some?
    && r == identified.(signatures := SignAll(env, identified, signers))
    && Valid(env, r, true)
  }

  lemma {:induction false} SignAllAt(env: Env, r: Receipt, signers: seq<Signer>, i: nat)
    requires i < |signers| && SignAll(env, r, signers).Some?
    ensures SignOne(env, r, signers[i]) == Some(SignAll(env, r, signers).value[i])
  {
    hide SignOne;
    if i > 0 {
      SignAllAt(env, r, signers[1..], i - 1);
    }
  }

  lemma {:induction false} SignAllFails(env: Env, r: Receipt, signers: seq<Signer>, i: nat)
    requires i < |signers| && SignOne(env, r, signers[i]).None?
    ensures SignAll(env, r, signers).None?
  {
    hide SignOne;
    if i > 0 {
      SignAllFails(env, r, signers[1..], i - 1);
    }
  }

  lemma {:induction false} SignAllIs(env: Env, r: Receipt, signers: seq<Signer>, proofs: seq<Signature>)
    requires |proofs| == |signers|
    requires forall i :: 0 <= i < |signers| ==> SignOne(env, r, signers[i]) == Some(proofs[i])
    ensures SignAll(env, r, signers) == Some(proofs)
  {
    hide SignOne;
    if signers != [] {
      SignAllIs(env, r, signers[1..], proofs[1..]);
      assert proofs == [proofs[0]] + proofs[1..];
    }
  }

  // Signatures already made are not signed over.
  lemma PayloadIgnoresSignatures(r: Receipt, proofs: seq<Signature>, descriptor: Signature)
    ensures SignaturePayload(r.(signatures := Some(proofs)), descriptor) == SignaturePayload(r, descriptor)
    ensures SignaturePayload(r, descriptor.(value := "")) == SignaturePayload(r, descriptor)
  {
  }

  lemma SignOneIgnoresSignatures(env: Env, r: Receipt, proofs: seq<Signature>, s: Signer)
    ensures SignOne(env, r.(signatures := Some(proofs)), s) == SignOne(env, r, s)
  {
    hide SignaturePayload;
    PayloadIgnoresSignatures(r, proofs, Descriptor(s));
  }

  // The lists in some order the sorts may leave them in.
  ghost predicate Arranged(fields: Receipt, signers: seq<Signer>, refs: seq<EvidenceRef>, order: seq<Signer>) {
    && multiset(refs) == multiset(Elements(fields.evidenceRefs)) && Ordered(RefLess, refs)
    && multiset(order) == multiset(signers) && Ordered(SignerLess, order)
  }

  ghost predicate Creates(env: Env, fields: Receipt, signers: seq<Signer>, r: Receipt)
    requires FixedDigest(env.sha256)
  {
    exists refs, order :: Arranged(fields, signers, refs, order) && Created(env, fields, refs, order, r)
  }

  lemma SignerKeysOfProofs(env: Env, r: Receipt, signers: seq<Signer>, i: nat)
    requires i < |signers| && SignAll(env, r, signers).Some?
    ensures SignAll(env, r, signers).value[i].signer == signers[i].signer
    ensures SignAll(env, r, signers).value[i].keyId == signers[i].keyId
  {
    SignAllAt(env, r, signers, i);
  }

  // Success leaves no two signers tied, so their order is the only one.
  lemma CreatedSignersTotal(env: Env, fields: Receipt, refs: seq<EvidenceRef>, signers: seq<Signer>, r: Receipt)
    requires FixedDigest(env.sha256) && Created(env, fields, refs, signers, r)
    ensures TotalOrder(SignerLess, signers)
  {
    hide SignAll, ReceiptId, Less, StrictJcs;
    SignerWeakOrder(signers);
    var identified := Prepared(fields, refs).(receiptId := ReceiptId(env, Prepared(fields, refs)).value);
    forall x, y | x in signers && y in signers && x != y ensures SignerLess(x, y) || SignerLess(y, x) {
      var i :| 0 <= i < |signers| && signers[i] == x;
      var j :| 0 <= j < |signers| && signers[j] == y;
      SignerKeysOfProofs(env, identified, signers, i);
      SignerKeysOfProofs(env, identified, signers, j);
      PairTotal(x.signer, x.keyId, y.signer, y.keyId);
      if x.signer == y.signer && x.keyId == y.keyId {
        LessIrreflexive(SignatureKey(r.signatures.value[i]));
      }
    }
  }

  // When any arrangement gives a receipt, it is the only arrangement.
  lemma ArrangementUnique(env: Env, fields: Receipt, signers: seq<Signer>, refs: seq<EvidenceRef>, order: seq<Signer>,
                          refs': seq<EvidenceRef>, order': seq<Signer>, r: Receipt)
    requires FixedDigest(env.sha256)
    requires Arranged(fields, signers, refs, order) && Created(env, fields, refs, order, r)
    requires Arranged(fields, signers, refs', order')
    ensures refs' == refs && order' == order
  {
    RefWeakOrder(refs);
    OrderedUnique(RefLess, refs, refs');
    CreatedSignersTotal(env, fields, refs, order, r);
    OrderedUnique(SignerLess, order, order');
  }

  lemma RefWeakOrder(s: seq<EvidenceRef>)
    ensures TotalOrder(RefLess, s)
  {
    forall x, y | RefLess(x, y) ensures !RefLess(y, x) {
      PairAsymmetric(x.artifactType, x.sha256, y.artifactType, y.sha256);
    }
    forall x, y, z | !RefLess(x, y) && !RefLess(y, z) ensures !RefLess(x, z) {
      PairNegativelyTransitive(x.artifactType, x.sha256, y.artifactType, y.sha256, z.artifactType, z.sha256);
    }
    forall x, y | x != y ensures RefLess(x, y) || RefLess(y, x) {
      PairTotal(x.artifactType, x.sha256, y.artifactType, y.sha256);
    }
  }

  lemma SignerWeakOrder(s: seq<Signer>)
    ensures WeakOrder(SignerLess, s)
  {
    forall x, y | SignerLess(x, y) ensures !SignerLess(y, x) {
      PairAsymmetric(x.signer, x.keyId, y.signer, y.keyId);
    }
    forall x, y, z | !SignerLess(x, y) && !SignerLess(y, z) ensures !SignerLess(x, z) {
      PairNegativelyTransitive(x.signer, x.keyId, y.signer, y.keyId, z.signer, z.keyId);
    }
  }

  // Both sorts compare a pair of strings, first components first.
  predicate PairLess(a: string, b: string, c: string, d: string) {
    if a != c then Less(a, c) else Less(b, d)
  }

  lemma PairAsymmetric(a: string, b: string, c: string, d: string)
    ensures PairLess(a, b, c, d) ==> !PairLess(c, d, a, b)
  {
    var x, y := if a != c then a else b, if a != c then c else d;
    if Less(x, y) && Less(y, x) {
      LessTransitive(x, y, x);
      LessIrreflexive(x);
    }
  }

  lemma PairTotal(a: string, b: string, c: string, d: string)
    ensures PairLess(a, b, c, d) || PairLess(c, d, a, b) || (a == c && b == d)
  {
    if a != c {
      LessTotal(a, c);
    } else if b != d {
      LessTotal(b, d);
    }
  }

  lemma PairTransitive(a: string, b: string, c: string, d: string, e: string, f: string)
    requires PairLess(a, b, c, d) && PairLess(c, d, e, f)
    ensures PairLess(a, b, e, f)
  {
    if a != c && c != e {
      LessTransitive(a, c, e);
      LessIrreflexive(a);
    } else if a == c == e {
      LessTransitive(b, d, f);
    }
  }

  lemma PairNegativelyTransitive(a: string, b: string, c: string, d: string, e: string, f: string)
    requires !PairLess(a, b, c, d) && !PairLess(c, d, e, f)
    ensures !PairLess(a, b, e, f)
  {
    PairTotal(a, b, c, d);
    PairTotal(c, d, e, f);
    if PairLess(a, b, e, f) {
      PairAsymmetric(a, b, e, f);
      if PairLess(c, d, a, b) && PairLess(e, f, c, d) {
        PairTransitive(e, f, c, d, a, b);
      }
    }
  }
}
