// EvidenceBundleV2 of receiptcore/supporting_record.go: roots and bodies.
module Evidence {
  import opened Prelude
  import opened Lexicographic
  import opened Sorting
  import opened Utf8
  import opened Jcs
  import opened JsonReader
  import opened JcsRoundTrip
  import opened JcsIdentity
  import opened StrictJson
  import opened Digest256
  import opened MerkleTree
  import opened MerkleSoundness
  import Hex

  function RawTree(sha256: string -> string): Hashing {
    Hashing(sha256, "\0", "\U{0001}", DIGEST_WIDTH)
  }

  datatype Member = Member(memberId: string, memberType: string, sha256: string)

  function MemberValue(m: Member): GoValue {
    Map(map["member_id" := Text(m.memberId), "member_type" := Text(m.memberType), "sha256" := Text(m.sha256)])
  }

  function MemberCanonical(m: Member): Option<string> {
    StrictJcs(MemberValue(m))
  }

  lemma MemberCanonicalDefined(m: Member)
    ensures MemberCanonical(m).Some? <==> Valid(m.memberId) && Valid(m.memberType) && Valid(m.sha256)
  {
    hide Valid;
    FieldNamesValid();
    var members := MemberValue(m).members;
    assert members.Keys == {"member_id", "member_type", "sha256"};
    assert Strict(members["member_id"]) == Valid(m.memberId);
    assert Strict(members["member_type"]) == Valid(m.memberType);
    assert Strict(members["sha256"]) == Valid(m.sha256);
  }

  lemma FieldNamesValid()
    ensures Valid("member_id") && Valid("member_type") && Valid("sha256")
  {
    hide Valid;
    AsciiValid("member_id");
    AsciiValid("member_type");
    AsciiValid("sha256");
  }

  lemma DenoteMember(m: Member)
    requires Writable(MemberValue(m))
    ensures Denote(MemberValue(m)) ==
      JObject(map["member_id" := JString(m.memberId), "member_type" := JString(m.memberType), "sha256" := JString(m.sha256)])
  {
    hide Valid;
    var members := MemberValue(m).members;
    assert members.Keys == {"member_id", "member_type", "sha256"};
  }

  // The leaf text determines the member.
  lemma MemberCanonicalInjective(a: Member, b: Member)
    requires MemberCanonical(a).Some? && MemberCanonical(a) == MemberCanonical(b)
    ensures a == b
  {
    hide Canon, Strict, Writable, Denote, MemberValue;
    StrictIsWritable(MemberValue(a));
    StrictIsWritable(MemberValue(b));
    CanonEqualExactly(MemberValue(a), MemberValue(b));
    DenoteMember(a);
    DenoteMember(b);
    var m, n := Denote(MemberValue(a)).members, Denote(MemberValue(b)).members;
    assert m["member_id"] == n["member_id"] && m["member_type"] == n["member_type"] && m["sha256"] == n["sha256"];
  }

  // ----- the root

  predicate EntryOk(m: Member) {
    m.memberId != "" && m.memberType != "" && Hex.Hex64(m.sha256) && MemberCanonical(m).Some?
  }

  // Well-formed members, no id twice, in strictly ascending order of leaf text.
  ghost predicate EntriesOk(entries: seq<Member>) {
    && entries != []
    && (forall i :: 0 <= i < |entries| ==> EntryOk(entries[i]))
    && (forall i, j :: 0 <= i < j < |entries| ==> entries[i].memberId != entries[j].memberId)
    && (forall i, j :: 0 <= i < j < |entries| ==> Less(LeafText(entries[i]), LeafText(entries[j])))
  }

  // "" stands for the text of a member that has none.
  function LeafText(m: Member): string {
    match MemberCanonical(m) case Some(t) => t case None => ""
  }

  function LeafTexts(entries: seq<Member>): (r: seq<string>)
    ensures |r| == |entries|
    ensures forall i :: 0 <= i < |r| ==> r[i] == LeafText(entries[i])
  {
    seq(|entries|, i requires 0 <= i < |entries| => LeafText(entries[i]))
  }

  function RootHex(sha256: string -> string, entries: seq<Member>): string
    requires FixedDigest(sha256) && entries != []
  {
    RootIsHash(RawTree(sha256), LeafTexts(entries));
    Hex.Encode(Root(RawTree(sha256), LeafTexts(entries)))
  }

  lemma RootHexWidth(sha256: string -> string, entries: seq<Member>)
    requires FixedDigest(sha256) && entries != []
    ensures Hex.Hex64(RootHex(sha256, entries))
  {
    RootIsHash(RawTree(sha256), LeafTexts(entries));
  }

  method EvidenceBundleMerkleRootV2(sha256: string -> string, entries: seq<Member>) returns (r: Option<string>)
    requires FixedDigest(sha256)
    ensures r.Some? <==> EntriesOk(entries)
    ensures r.Some? ==> r.value == RootHex(sha256, entries)
  {
    if |entries| == 0 {
      return None;
    }
    var h := RawTree(sha256);
    var level := CheckedLeaves(h, entries);
    if level.None? {
      return None;
    }
    assert level.value == Digests(h, LeafTexts(entries));
    var root := FoldToRoot(h, level.value);
    FoldIsTreeHash(h, level.value);
    RootIsHash(h, LeafTexts(entries));
    return Some(Hex.Encode(root));
  }

  // The checking loop: the leaf digests, unless some entry is refused.
  method CheckedLeaves(h: Hashing, entries: seq<Member>) returns (r: Option<seq<string>>)
    requires entries != []
    ensures r.Some? <==> EntriesOk(entries)
    ensures r.Some? ==> |r.value| == |entries| && forall k :: 0 <= k < |entries| ==> r.value[k] == h.Leaf(LeafText(entries[k]))
  {
    hide Less, MemberCanonical, Hex.Hex64;
    var level: seq<string> := [];
    var seen: set<string> := {};
    var previous := "";
    for i := 0 to |entries|
      invariant |level| == i
      invariant seen == set k | 0 <= k < i :: entries[k].memberId
      invariant i > 0 ==> previous == LeafText(entries[i - 1])
      invariant forall k :: 0 <= k < i ==> EntryOk(entries[k]) && level[k] == h.Leaf(LeafText(entries[k]))
      invariant forall j, k :: 0 <= j < k < i ==> entries[j].memberId != entries[k].memberId
      invariant forall j, k :: 0 <= j < k < i ==> Less(LeafText(entries[j]), LeafText(entries[k]))
    {
      var entry := entries[i];
      if entry.memberId == "" || entry.memberType == "" || !Hex.Hex64(entry.sha256) || entry.memberId in seen {
        return None;
      }
      seen := seen + {entry.memberId};
      var canonical := MemberCanonical(entry);
      if canonical.None? {
        return None;
      }
      if i > 0 && !Less(previous, canonical.value) {
        return None;
      }
      forall j | 0 <= j < i ensures Less(LeafText(entries[j]), canonical.value) {
        if j < i - 1 {
          LessTransitive(LeafText(entries[j]), previous, canonical.value);
        }
      }
      previous := canonical.value;
      level := level + [h.Leaf(canonical.value)];
    }
    return Some(level);
  }

  // ----- bodies

  datatype MemberInput = MemberInput(memberId: string, memberType: string, payload: GoValue)

  datatype Body = Body(members: seq<Member>, merkleRoot: string)

  predicate LessByText(a: Member, b: Member) {
    Less(LeafText(a), LeafText(b))
  }

  function EntryOf(sha256: string -> string, input: MemberInput): Member
    requires FixedDigest(sha256) && Strict(input.payload)
  {
    Member(input.memberId, input.memberType, Sha256Hex(sha256, StrictJcs(input.payload).value))
  }

  predicate InputOk(input: MemberInput) {
    && input.memberId != "" && input.memberType != ""
    && Valid(input.memberId) && Valid(input.memberType)
    && Strict(input.payload)
  }

  ghost predicate InputsOk(inputs: seq<MemberInput>) {
    && inputs != []
    && (forall i :: 0 <= i < |inputs| ==> InputOk(inputs[i]))
    && (forall i, j :: 0 <= i < j < |inputs| ==> inputs[i].memberId != inputs[j].memberId)
  }

  function EntriesOf(sha256: string -> string, inputs: seq<MemberInput>): (r: seq<Member>)
    requires FixedDigest(sha256) && forall i :: 0 <= i < |inputs| ==> Strict(inputs[i].payload)
    ensures |r| == |inputs|
    ensures forall i :: 0 <= i < |r| ==> r[i] == EntryOf(sha256, inputs[i])
  {
    seq(|inputs|, i requires 0 <= i < |inputs| => EntryOf(sha256, inputs[i]))
  }

  lemma TextWeakOrder(s: seq<Member>)
    ensures WeakOrder(LessByText, s)
  {
    var texts := LeafTexts(s);
    BytesTotalOrder(texts);
    forall x | x in s ensures LeafText(x) in texts {
      var i :| 0 <= i < |s| && s[i] == x;
      assert texts[i] == LeafText(x);
    }
  }

  lemma HexIsAscii(s: string)
    requires Hex.IsHex(s)
    ensures Valid(s)
  {
    AsciiValid(s);
  }

  lemma EntryOfOk(sha256: string -> string, input: MemberInput)
    requires FixedDigest(sha256) && Strict(input.payload) && input.memberId != "" && input.memberType != ""
    ensures EntryOk(EntryOf(sha256, input)) <==> Valid(input.memberId) && Valid(input.memberType)
  {
    var m := EntryOf(sha256, input);
    HexIsAscii(m.sha256);
    MemberCanonicalDefined(m);
  }

  // The body a list of inputs gets: its entries in ascending order of leaf
  // text, and their root.
  ghost predicate IsBodyOf(sha256: string -> string, inputs: seq<MemberInput>, body: Body)
    requires FixedDigest(sha256)
  {
    && InputsOk(inputs)
    && multiset(body.members) == multiset(EntriesOf(sha256, inputs))
    && EntriesOk(body.members)
    && body.merkleRoot == RootHex(sha256, body.members)
  }

  method BuildEvidenceBundleBodyV2(sha256: string -> string, inputs: seq<MemberInput>) returns (r: Option<Body>)
    requires FixedDigest(sha256)
    ensures r.Some? <==> InputsOk(inputs)
    ensures r.Some? ==> IsBodyOf(sha256, inputs, r.value)
  {
    hide Strict, Canon, Less, EntriesOk, LeafText, MemberCanonical, Sha256Hex, Valid;
    if |inputs| == 0 {
      return None;
    }
    var seen: set<string> := {};
    var entries: seq<Member> := [];
    for i := 0 to |inputs|
      invariant |entries| == i
      invariant seen == set k | 0 <= k < i :: inputs[k].memberId
      invariant forall k :: 0 <= k < i ==>
        && inputs[k].memberId != "" && inputs[k].memberType != "" && Strict(inputs[k].payload)
        && entries[k] == EntryOf(sha256, inputs[k])
      invariant forall j, k :: 0 <= j < k < i ==> inputs[j].memberId != inputs[k].memberId
    {
      var member := inputs[i];
      if member.memberId == "" || member.memberType == "" || member.memberId in seen {
        return None;
      }
      seen := seen + {member.memberId};
      var canonical := StrictJcs(member.payload);
      if canonical.None? {
        return None;
      }
      entries := entries + [Member(member.memberId, member.memberType, Sha256Hex(sha256, canonical.value))];
    }
    assert entries == EntriesOf(sha256, inputs);
    TextWeakOrder(entries);
    var sorted := LibrarySort(LessByText, entries);
    SortedEntriesOk(sha256, inputs, sorted);
    var root := EvidenceBundleMerkleRootV2(sha256, sorted);
    if root.None? {
      return None;
    }
    return Some(Body(sorted, root.value));
  }

  // Sorting well-formed entries is all it takes to satisfy the root's checks.
  lemma SortedEntriesOk(sha256: string -> string, inputs: seq<MemberInput>, sorted: seq<Member>)
    requires FixedDigest(sha256) && inputs != []
    requires forall i :: 0 <= i < |inputs| ==>
      inputs[i].memberId != "" && inputs[i].memberType != "" && Strict(inputs[i].payload)
    requires forall i, j :: 0 <= i < j < |inputs| ==> inputs[i].memberId != inputs[j].memberId
    requires multiset(sorted) == multiset(EntriesOf(sha256, inputs)) && Ordered(LessByText, sorted)
    ensures EntriesOk(sorted) <==> InputsOk(inputs)
  {
    var entries := EntriesOf(sha256, inputs);
    SameElements(sorted, entries);
    var id := (m: Member) => m.memberId;
    assert DistinctKeys(id, entries);
    DistinctKeysPermute(id, entries, sorted);
    forall i | 0 <= i < |inputs| ensures EntryOk(entries[i]) <==> InputOk(inputs[i]) {
      EntryOfOk(sha256, inputs[i]);
    }
    if InputsOk(inputs) {
      forall i | 0 <= i < |sorted| ensures EntryOk(sorted[i]) {
        assert sorted[i] in entries;
        var k :| 0 <= k < |entries| && entries[k] == sorted[i];
      }
      forall i, j | 0 <= i < j < |sorted| ensures Less(LeafText(sorted[i]), LeafText(sorted[j])) {
        assert sorted[i] in entries && sorted[j] in entries;
        if LeafText(sorted[i]) == LeafText(sorted[j]) {
          MemberCanonicalInjective(sorted[i], sorted[j]);
        }
        LessTotal(LeafText(sorted[i]), LeafText(sorted[j]));
      }
    }
    if EntriesOk(sorted) {
      forall i | 0 <= i < |inputs| ensures InputOk(inputs[i]) {
        assert entries[i] in sorted;
        var k :| 0 <= k < |sorted| && sorted[k] == entries[i];
      }
    }
  }

  predicate PayloadMatches(sha256: string -> string, m: Member, payloads: Option<map<string, GoValue>>)
    requires FixedDigest(sha256)
  {
    payloads.Some? ==>
      && m.memberId in payloads.value
      && StrictJcs(payloads.value[m.memberId]).Some?
      && Sha256Hex(sha256, StrictJcs(payloads.value[m.memberId]).value) == m.sha256
  }

  ghost predicate BodyAccepted(sha256: string -> string, body: Body, payloads: Option<map<string, GoValue>>)
    requires FixedDigest(sha256)
  {
    && EntriesOk(body.members)
    && (forall i :: 0 <= i < |body.members| ==> PayloadMatches(sha256, body.members[i], payloads))
    && body.merkleRoot == RootHex(sha256, body.members)
  }

  method VerifyEvidenceBundleBodyV2(sha256: string -> string, body: Body, payloads: Option<map<string, GoValue>>)
    returns (ok: bool)
    requires FixedDigest(sha256)
    ensures ok <==> BodyAccepted(sha256, body, payloads)
  {
    hide Less, MemberCanonical, Hex.Hex64, StrictJcs, Sha256Hex;
    if |body.members| == 0 || !Hex.Hex64(body.merkleRoot) {
      if EntriesOk(body.members) {
        RootHexWidth(sha256, body.members);
      }
      return false;
    }
    var seen: set<string> := {};
    var previous := "";
    for i := 0 to |body.members|
      invariant seen == set k | 0 <= k < i :: body.members[k].memberId
      invariant i > 0 ==> previous == LeafText(body.members[i - 1])
      invariant forall k :: 0 <= k < i ==> PayloadMatches(sha256, body.members[k], payloads)
    {
      var member := body.members[i];
      if member.memberId == "" || member.memberType == "" || !Hex.Hex64(member.sha256) || member.memberId in seen {
        return false;
      }
      seen := seen + {member.memberId};
      var canonical := MemberCanonical(member);
      if canonical.None? || (i > 0 && !Less(previous, canonical.value)) {
        return false;
      }
      previous := canonical.value;
      if payloads.Some? {
        if member.memberId !in payloads.value {
          return false;
        }
        var payload := StrictJcs(payloads.value[member.memberId]);
        if payload.None? || Sha256Hex(sha256, payload.value) != member.sha256 {
          return false;
        }
      }
    }
    var root := EvidenceBundleMerkleRootV2(sha256, body.members);
    return root.Some? && root.value == body.merkleRoot;
  }

  // ----- what building promises

  function PayloadsOf(inputs: seq<MemberInput>): map<string, GoValue> {
    if inputs == [] then map[] else PayloadsOf(inputs[1..])[inputs[0].memberId := inputs[0].payload]
  }

  lemma {:induction false} PayloadOf(inputs: seq<MemberInput>, i: nat)
    requires i < |inputs|
    requires forall i, j :: 0 <= i < j < |inputs| ==> inputs[i].memberId != inputs[j].memberId
    ensures inputs[i].memberId in PayloadsOf(inputs) && PayloadsOf(inputs)[inputs[i].memberId] == inputs[i].payload
  {
    if i > 0 {
      PayloadOf(inputs[1..], i - 1);
    }
  }

  // A built body verifies, with the payloads it was built from or without any.
  lemma BuiltBodyAccepted(sha256: string -> string, inputs: seq<MemberInput>, body: Body)
    requires FixedDigest(sha256) && IsBodyOf(sha256, inputs, body)
    ensures BodyAccepted(sha256, body, None)
    ensures BodyAccepted(sha256, body, Some(PayloadsOf(inputs)))
  {
    var entries := EntriesOf(sha256, inputs);
    SameElements(body.members, entries);
    forall k | 0 <= k < |body.members| ensures PayloadMatches(sha256, body.members[k], Some(PayloadsOf(inputs))) {
      assert body.members[k] in entries;
      var i :| 0 <= i < |entries| && entries[i] == body.members[k];
      PayloadOf(inputs, i);
    }
  }

  // ... and does not depend on the order the inputs came in.
  lemma BodyOfPermutation(sha256: string -> string, a: seq<MemberInput>, b: seq<MemberInput>, x: Body, y: Body)
    requires FixedDigest(sha256) && multiset(a) == multiset(b)
    requires IsBodyOf(sha256, a, x) && IsBodyOf(sha256, b, y)
    ensures x == y
  {
    EntriesOfPermutation(sha256, a, b);
    SameElements(x.members, y.members);
    TextWeakOrder(x.members);
    forall m, n | m in x.members && n in x.members && m != n ensures LessByText(m, n) || LessByText(n, m) {
      if LeafText(m) == LeafText(n) {
        MemberCanonicalInjective(m, n);
      }
      LessTotal(LeafText(m), LeafText(n));
    }
    AscendingIsOrdered(x.members);
    AscendingIsOrdered(y.members);
    OrderedUnique(LessByText, x.members, y.members);
  }

  lemma AscendingIsOrdered(entries: seq<Member>)
    requires EntriesOk(entries)
    ensures Ordered(LessByText, entries)
  {
    forall i, j | 0 <= i < j < |entries| ensures !LessByText(entries[j], entries[i]) {
      if LessByText(entries[j], entries[i]) {
        LessTransitive(LeafText(entries[i]), LeafText(entries[j]), LeafText(entries[i]));
        LessIrreflexive(LeafText(entries[i]));
      }
    }
  }

  lemma EntriesOfHead(sha256: string -> string, a: seq<MemberInput>)
    requires FixedDigest(sha256) && a != [] && forall i :: 0 <= i < |a| ==> Strict(a[i].payload)
    ensures multiset(EntriesOf(sha256, a)) == multiset{EntryOf(sha256, a[0])} + multiset(EntriesOf(sha256, a[1..]))
  {
    hide EntryOf;
    assert EntriesOf(sha256, a) == [EntryOf(sha256, a[0])] + EntriesOf(sha256, a[1..]);
  }

  lemma EntriesOfWithout(sha256: string -> string, b: seq<MemberInput>, j: nat)
    requires FixedDigest(sha256) && j < |b| && forall i :: 0 <= i < |b| ==> Strict(b[i].payload)
    ensures multiset(EntriesOf(sha256, b)) ==
      multiset{EntryOf(sha256, b[j])} + multiset(EntriesOf(sha256, b[..j] + b[j + 1..]))
  {
    hide EntryOf, Strict;
    var rest, eb := b[..j] + b[j + 1..], EntriesOf(sha256, b);
    Without(eb, j);
    assert |EntriesOf(sha256, rest)| == |eb[..j] + eb[j + 1..]|;
    forall i | 0 <= i < |rest| ensures EntriesOf(sha256, rest)[i] == (eb[..j] + eb[j + 1..])[i] {
      assert rest[i] == if i < j then b[i] else b[i + 1];
    }
    assert EntriesOf(sha256, rest) == eb[..j] + eb[j + 1..];
  }

  lemma {:induction false} EntriesOfPermutation(sha256: string -> string, a: seq<MemberInput>, b: seq<MemberInput>)
    requires FixedDigest(sha256) && multiset(a) == multiset(b)
    requires forall i :: 0 <= i < |a| ==> Strict(a[i].payload)
    requires forall i :: 0 <= i < |b| ==> Strict(b[i].payload)
    ensures multiset(EntriesOf(sha256, a)) == multiset(EntriesOf(sha256, b))
  {
    hide EntryOf, EntriesOf, Strict;
    SameElements(a, b);
    if a == [] {
      assert a == b;
    } else {
      var j := HeadElsewhere(a, b);
      EntriesOfHead(sha256, a);
      EntriesOfWithout(sha256, b, j);
      EntriesOfPermutation(sha256, a[1..], b[..j] + b[j + 1..]);
    }
  }

  lemma HeadElsewhere(a: seq<MemberInput>, b: seq<MemberInput>) returns (j: nat)
    requires a != [] && multiset(a) == multiset(b)
    ensures j < |b| && b[j] == a[0]
    ensures multiset(a[1..]) == multiset(b[..j] + b[j + 1..])
  {
    SameElements(a, b);
    assert a[0] in b;
    j :| 0 <= j < |b| && b[j] == a[0];
    Without(b, j);
    assert a == [a[0]] + a[1..];
    assert multiset(a[1..]) == multiset(a) - multiset{a[0]} == multiset(b[..j] + b[j + 1..]);
  }
}
