// CanonicalizeScopes and ComputeActionRefScopes of actionref/actionref.go, for
// any normalization form given as a function on strings.
module ActionRef {
  import opened Prelude
  import opened Lexicographic
  import opened Sorting
  import opened Utf8
  import opened ScalarStrings
  import opened Jcs
  import opened JcsRoundTrip
  import opened JcsIdentity
  import opened JsonReader
  import opened Digest256
  import Hex

  ghost predicate Idempotent(nfc: string -> string) {
    forall s :: nfc(nfc(s)) == nfc(s)
  }

  ghost predicate StrictlyAscending(s: seq<string>) {
    forall i, j :: 0 <= i < j < |s| ==> Less(s[i], s[j])
  }

  ghost predicate Distinct(s: seq<string>) {
    forall i, j :: 0 <= i < j < |s| ==> s[i] != s[j]
  }

  function Normalized(nfc: string -> string, s: seq<string>): (r: seq<string>)
    ensures |r| == |s|
    ensures forall i :: 0 <= i < |s| ==> r[i] == nfc(s[i])
  {
    seq(|s|, i requires 0 <= i < |s| => nfc(s[i]))
  }

  // The one list with these elements after normalization.
  ghost predicate Canonical(nfc: string -> string, scopes: seq<string>, r: seq<string>) {
    && StrictlyAscending(r)
    && (forall x :: x in r <==> x in Normalized(nfc, scopes))
  }

  datatype ScopeError = DuplicateScopeRequired(scope: string)

  // The error names the first element equal to an earlier one.
  ghost predicate FirstDuplicate(s: seq<string>, x: string) {
    exists j :: 0 <= j < |s| && s[j] == x && x in s[..j] && Distinct(s[..j])
  }

  method CanonicalizeScopes(nfc: string -> string, scopeRequired: seq<string>)
    returns (r: Result<seq<string>, ScopeError>)
    ensures r.Ok? <==> Distinct(Normalized(nfc, scopeRequired))
    ensures r.Ok? ==> Canonical(nfc, scopeRequired, r.value) && |r.value| == |scopeRequired|
    ensures r.Err? ==> FirstDuplicate(Normalized(nfc, scopeRequired), r.error.scope)
  {
    hide Less;
    var scopes: seq<string> := [];
    for i := 0 to |scopeRequired|
      invariant scopes == Normalized(nfc, scopeRequired[..i])
    {
      scopes := scopes + [nfc(scopeRequired[i])];
    }
    assert scopeRequired[..|scopeRequired|] == scopeRequired;
    var seen: set<string> := {};
    for i := 0 to |scopes|
      invariant forall x :: x in seen <==> x in scopes[..i]
      invariant Distinct(scopes[..i])
    {
      if scopes[i] in seen {
        return Err(DuplicateScopeRequired(scopes[i]));
      }
      seen := seen + {scopes[i]};
    }
    assert scopes[..|scopes|] == scopes;
    BytesTotalOrder(scopes);
    var sorted := LibrarySort(Less, scopes);
    SortedDistinct(scopes, sorted);
    return Ok(sorted);
  }

  lemma SortedDistinct(s: seq<string>, sorted: seq<string>)
    requires Distinct(s) && multiset(sorted) == multiset(s) && Ordered(Less, sorted)
    ensures StrictlyAscending(sorted) && |sorted| == |s|
    ensures forall x :: x in sorted <==> x in s
  {
    SameElements(sorted, s);
    DistinctKeysPermute((x: string) => x, s, sorted);
    forall i, j | 0 <= i < j < |sorted| ensures Less(sorted[i], sorted[j]) {
      assert ((x: string) => x)(sorted[i]) != ((x: string) => x)(sorted[j]);
      LessTotal(sorted[i], sorted[j]);
    }
  }

  lemma AscendingHead(a: seq<string>, b: seq<string>)
    requires StrictlyAscending(a) && StrictlyAscending(b) && a != [] && b != []
    requires a[0] in b && b[0] in a
    ensures a[0] == b[0]
  {
    var i :| 0 <= i < |b| && b[i] == a[0];
    var j :| 0 <= j < |a| && a[j] == b[0];
    if i > 0 && j > 0 {
      LessTransitive(a[0], b[0], a[0]);
      LessIrreflexive(a[0]);
    }
  }

  lemma HeadNotInTail(a: seq<string>)
    requires StrictlyAscending(a) && a != []
    ensures a[0] !in a[1..] && StrictlyAscending(a[1..])
  {
    LessIrreflexive(a[0]);
  }

  lemma {:induction false} AscendingUnique(a: seq<string>, b: seq<string>)
    requires StrictlyAscending(a) && StrictlyAscending(b)
    requires forall x :: x in a <==> x in b
    ensures a == b
  {
    hide Less;
    assert a != [] ==> a[0] in a;
    assert b != [] ==> b[0] in b;
    if a != [] {
      AscendingHead(a, b);
      HeadNotInTail(a);
      HeadNotInTail(b);
      assert a == [a[0]] + a[1..] && b == [b[0]] + b[1..];
      assert forall x :: x in a[1..] <==> x in a && x != a[0];
      assert forall x :: x in b[1..] <==> x in b && x != b[0];
      AscendingUnique(a[1..], b[1..]);
    }
  }

  // Equal canonical lists are equal sets of normalized scopes, in any order
  // and spelling.
  lemma CanonicalExactly(nfc: string -> string, a: seq<string>, b: seq<string>, r: seq<string>, t: seq<string>)
    requires Canonical(nfc, a, r) && Canonical(nfc, b, t)
    ensures r == t <==> forall x :: x in Normalized(nfc, a) <==> x in Normalized(nfc, b)
  {
    hide Less, StrictlyAscending;
    if forall x :: x in Normalized(nfc, a) <==> x in Normalized(nfc, b) {
      AscendingUnique(r, t);
    }
  }

  lemma NormalizedWithout(nfc: string -> string, s: seq<string>, i: nat)
    requires i < |s|
    ensures var rest := s[..i] + s[i + 1..];
      && multiset(rest) == multiset(s) - multiset{s[i]}
      && multiset(Normalized(nfc, s)) == multiset(Normalized(nfc, rest)) + multiset{nfc(s[i])}
  {
    var rest, n := s[..i] + s[i + 1..], Normalized(nfc, s);
    Without(s, i);
    Without(n, i);
    assert Normalized(nfc, rest) == n[..i] + n[i + 1..];
  }

  lemma {:induction false} NormalizedPermute(nfc: string -> string, a: seq<string>, b: seq<string>)
    requires multiset(a) == multiset(b)
    ensures multiset(Normalized(nfc, a)) == multiset(Normalized(nfc, b))
  {
    SameElements(a, b);
    if a != [] {
      assert a[0] in b;
      var j :| 0 <= j < |b| && b[j] == a[0];
      var rest := b[..j] + b[j + 1..];
      assert a[..0] + a[1..] == a[1..];
      NormalizedWithout(nfc, a, 0);
      NormalizedWithout(nfc, b, j);
      NormalizedPermute(nfc, a[1..], rest);
    }
  }

  // Neither acceptance nor the result depends on the order supplied.
  lemma ScopeOrderIrrelevant(nfc: string -> string, a: seq<string>, b: seq<string>, r: seq<string>, t: seq<string>)
    requires multiset(a) == multiset(b)
    ensures Distinct(Normalized(nfc, a)) <==> Distinct(Normalized(nfc, b))
    ensures Canonical(nfc, a, r) && Canonical(nfc, b, t) ==> r == t
  {
    hide Less;
    NormalizedPermute(nfc, a, b);
    var x, y := Normalized(nfc, a), Normalized(nfc, b);
    SameElements(x, y);
    if Distinct(x) {
      DistinctPermute(x, y);
    }
    if Distinct(y) {
      DistinctPermute(y, x);
    }
    if Canonical(nfc, a, r) && Canonical(nfc, b, t) {
      CanonicalExactly(nfc, a, b, r, t);
    }
  }

  lemma DistinctPermute(a: seq<string>, b: seq<string>)
    requires Distinct(a) && multiset(a) == multiset(b)
    ensures Distinct(b)
  {
    var id := (x: string) => x;
    assert forall i, j :: 0 <= i < j < |a| ==> id(a[i]) != id(a[j]);
    DistinctKeysPermute(id, a, b);
    forall i, j | 0 <= i < j < |b| ensures b[i] != b[j] {
      assert id(b[i]) != id(b[j]);
    }
  }

  // A canonical list is accepted and left as it is.
  lemma CanonicalIdempotent(nfc: string -> string, scopes: seq<string>, r: seq<string>)
    requires Idempotent(nfc) && Canonical(nfc, scopes, r)
    ensures Normalized(nfc, r) == r && Distinct(r) && Canonical(nfc, r, r)
  {
    forall i | 0 <= i < |r| ensures nfc(r[i]) == r[i] {
      assert r[i] in Normalized(nfc, scopes);
      var j :| 0 <= j < |scopes| && Normalized(nfc, scopes)[j] == r[i];
      assert r[i] == nfc(scopes[j]);
    }
    forall i, j | 0 <= i < j < |r| ensures r[i] != r[j] {
      LessIrreflexive(r[i]);
    }
  }

  // On scalar strings the byte sort is the sort by code point.
  lemma AscendsByCodePoint(r: seq<string>)
    requires StrictlyAscending(r) && forall s <- r :: Valid(s)
    ensures forall i, j :: 0 <= i < j < |r| ==> LexLess(Runes(r[i]), Runes(r[j]))
  {
    forall i, j | 0 <= i < j < |r| ensures LexLess(Runes(r[i]), Runes(r[j])) {
      assert r[i] in r && r[j] in r;
      ValidByteOrder(r[i], r[j]);
    }
  }

  // ----- the request identity

  datatype Intent = Intent(agentId: string, actionType: string, scopeRequired: seq<string>, createdAt: string)

  function Texts(s: seq<string>): (r: seq<GoValue>)
    ensures |r| == |s| && forall i :: 0 <= i < |s| ==> r[i] == Text(s[i])
  {
    seq(|s|, i requires 0 <= i < |s| => Text(s[i]))
  }

  function Fields(agentId: string, actionType: string, scopes: GoValue, ts: string): GoValue {
    Map(map["agentId" := Text(agentId), "actionType" := Text(actionType), "scopeRequired" := scopes, "timestamp" := Text(ts)])
  }

  function Preimage(agentId: string, actionType: string, scopes: seq<string>, ts: string): GoValue {
    Fields(agentId, actionType, Slice(Texts(scopes)), ts)
  }

  lemma NamesValid()
    ensures Valid("agentId") && Valid("actionType") && Valid("scopeRequired") && Valid("timestamp")
  {
    hide Valid;
    AsciiValid("agentId");
    AsciiValid("actionType");
    AsciiValid("scopeRequired");
    AsciiValid("timestamp");
  }

  lemma TextsWritable(s: seq<string>)
    ensures Writable(Slice(Texts(s))) <==> forall x <- s :: Valid(x)
  {
    hide Valid;
    if Writable(Slice(Texts(s))) {
      forall i | 0 <= i < |s| ensures Valid(s[i]) {
        assert Writable(Texts(s)[i]);
      }
    } else if forall x <- s :: Valid(x) {
      forall i | 0 <= i < |s| ensures Writable(Texts(s)[i]) {
        assert s[i] in s;
      }
    }
  }

  lemma PreimageWritable(agentId: string, actionType: string, scopes: seq<string>, ts: string)
    ensures Writable(Preimage(agentId, actionType, scopes, ts)) <==>
      Valid(agentId) && Valid(actionType) && Valid(ts) && forall s <- scopes :: Valid(s)
  {
    hide Valid;
    NamesValid();
    var m := Preimage(agentId, actionType, scopes, ts).members;
    assert m.Keys == {"agentId", "actionType", "scopeRequired", "timestamp"};
    assert Writable(m["agentId"]) == Valid(agentId);
    assert Writable(m["actionType"]) == Valid(actionType);
    assert Writable(m["timestamp"]) == Valid(ts);
    TextsWritable(scopes);
    hide Texts;
    assert Writable(m["scopeRequired"]) == Writable(Slice(Texts(scopes)));
  }

  // The preimage text determines every field of the intent it was made from.
  lemma PreimageInjective(agentId: string, actionType: string, scopes: seq<string>, ts: string,
                          agentId': string, actionType': string, scopes': seq<string>, ts': string)
    requires var p, q := Preimage(agentId, actionType, scopes, ts), Preimage(agentId', actionType', scopes', ts');
      Writable(p) && Writable(q) && Canon(p) == Canon(q)
    ensures agentId == agentId' && actionType == actionType' && scopes == scopes' && ts == ts'
  {
    var p, q := Preimage(agentId, actionType, scopes, ts), Preimage(agentId', actionType', scopes', ts');
    CanonEqualExactly(p, q);
    hide Canon, Valid, Writable, Denote, Texts, Preimage;
    DenotePreimage(agentId, actionType, scopes, ts);
    DenotePreimage(agentId', actionType', scopes', ts');
    FieldsEqual(JString(agentId), JString(actionType), Denote(Slice(Texts(scopes))), JString(ts),
                JString(agentId'), JString(actionType'), Denote(Slice(Texts(scopes'))), JString(ts'));
    TextsInjective(scopes, scopes');
  }

  lemma FieldsEqual(a: Json, b: Json, c: Json, d: Json, a': Json, b': Json, c': Json, d': Json)
    requires map["agentId" := a, "actionType" := b, "scopeRequired" := c, "timestamp" := d] ==
      map["agentId" := a', "actionType" := b', "scopeRequired" := c', "timestamp" := d']
    ensures a == a' && b == b' && c == c' && d == d'
  {
    var m := map["agentId" := a, "actionType" := b, "scopeRequired" := c, "timestamp" := d];
    assert m["agentId"] == a && m["actionType"] == b && m["scopeRequired"] == c && m["timestamp"] == d;
  }

  lemma DenoteFields(agentId: string, actionType: string, scopes: GoValue, ts: string)
    requires Writable(Fields(agentId, actionType, scopes, ts))
    ensures Writable(scopes)
    ensures Denote(Fields(agentId, actionType, scopes, ts)) == JObject(map[
      "agentId" := JString(agentId), "actionType" := JString(actionType),
      "scopeRequired" := Denote(scopes), "timestamp" := JString(ts)])
  {
    hide Valid;
    var m := Fields(agentId, actionType, scopes, ts).members;
    assert m.Keys == {"agentId", "actionType", "scopeRequired", "timestamp"};
    assert m["scopeRequired"] == scopes;
  }

  lemma DenotePreimage(agentId: string, actionType: string, scopes: seq<string>, ts: string)
    requires Writable(Preimage(agentId, actionType, scopes, ts))
    ensures Writable(Slice(Texts(scopes)))
    ensures Denote(Preimage(agentId, actionType, scopes, ts)) == JObject(map[
      "agentId" := JString(agentId), "actionType" := JString(actionType),
      "scopeRequired" := Denote(Slice(Texts(scopes))), "timestamp" := JString(ts)])
  {
    hide Fields, Denote, Writable, Texts;
    DenoteFields(agentId, actionType, Slice(Texts(scopes)), ts);
  }

  lemma TextsInjective(a: seq<string>, b: seq<string>)
    requires Writable(Slice(Texts(a))) && Writable(Slice(Texts(b)))
    requires Denote(Slice(Texts(a))) == Denote(Slice(Texts(b)))
    ensures a == b
  {
    hide Valid;
    var x, y := Denote(Slice(Texts(a))).items, Denote(Slice(Texts(b))).items;
    assert |x| == |a| && |y| == |b|;
    forall i | 0 <= i < |a| ensures a[i] == b[i] {
      assert Writable(Texts(a)[i]) && Writable(Texts(b)[i]);
      assert x[i] == JString(a[i]) && y[i] == JString(b[i]);
    }
  }

  datatype Env = Env(normalizeTimestamp: string -> Option<string>, nfc: string -> string, sha256: string -> string)

  // The text an intent is identified by, when it has one.
  ghost function IntentText(env: Env, intent: Intent): Option<string> {
    match env.normalizeTimestamp(intent.createdAt)
    case None => None
    case Some(ts) =>
      var scopes := Normalized(env.nfc, intent.scopeRequired);
      if !Distinct(scopes) then None else
      var p := Preimage(intent.agentId, intent.actionType, SortStrings(scopes), ts);
      if Writable(p) then Some(Canon(p)) else None
  }

  method ComputeActionRefScopes(env: Env, intent: Intent) returns (r: Option<string>)
    requires FixedDigest(env.sha256)
    ensures r == match IntentText(env, intent)
      case None => None
      case Some(text) => Some(Sha256Hex(env.sha256, text))
  {
    hide Less, Sort, Valid, Canon, Writable;
    var ts := env.normalizeTimestamp(intent.createdAt);
    if ts.None? {
      return None;
    }
    var scopes := CanonicalizeScopes(env.nfc, intent.scopeRequired);
    if scopes.Err? {
      return None;
    }
    CanonicalIsSorted(Normalized(env.nfc, intent.scopeRequired), scopes.value);
    var text := Canonicalize(Preimage(intent.agentId, intent.actionType, scopes.value, ts.value));
    if text.Err? {
      return None;
    }
    return Some(Sha256Hex(env.sha256, text.value));
  }

  lemma CanonicalIsSorted(s: seq<string>, r: seq<string>)
    requires Distinct(s) && StrictlyAscending(r) && forall x :: x in r <==> x in s
    ensures r == SortStrings(s)
  {
    BytesTotalOrder(s);
    SortOrdered(Less, s);
    SortedDistinct(s, SortStrings(s));
    AscendingUnique(r, SortStrings(s));
  }

  // An intent has a text exactly when its time can be read, no two scopes
  // coincide after normalization, and all of its strings are scalar.
  lemma IntentTextDefined(env: Env, intent: Intent)
    ensures var ts, scopes := env.normalizeTimestamp(intent.createdAt), Normalized(env.nfc, intent.scopeRequired);
      IntentText(env, intent).Some? <==>
        && ts.Some? && Distinct(scopes)
        && Valid(intent.agentId) && Valid(intent.actionType) && Valid(ts.value) && forall s <- scopes :: Valid(s)
  {
    hide Valid, Writable, Preimage, Less, Sort;
    var ts, scopes := env.normalizeTimestamp(intent.createdAt), Normalized(env.nfc, intent.scopeRequired);
    if ts.Some? && Distinct(scopes) {
      SortedSet(scopes);
      PreimageWritable(intent.agentId, intent.actionType, SortStrings(scopes), ts.value);
    }
  }

  ghost predicate SameIntent(env: Env, a: Intent, b: Intent) {
    && a.agentId == b.agentId && a.actionType == b.actionType
    && env.normalizeTimestamp(a.createdAt) == env.normalizeTimestamp(b.createdAt)
    && (forall x :: x in Normalized(env.nfc, a.scopeRequired) <==> x in Normalized(env.nfc, b.scopeRequired))
  }

  // Two intents have the same text exactly when they are the same request:
  // an equality key that neither splits nor merges.
  lemma IntentTextExactly(env: Env, a: Intent, b: Intent)
    requires IntentText(env, a).Some? && IntentText(env, b).Some?
    ensures IntentText(env, a) == IntentText(env, b) <==> SameIntent(env, a, b)
  {
    var x, y := Normalized(env.nfc, a.scopeRequired), Normalized(env.nfc, b.scopeRequired);
    hide Less, Sort, Valid, Canon, Writable, Preimage;
    SortedSet(x);
    SortedSet(y);
    if IntentText(env, a) == IntentText(env, b) {
      PreimageInjective(a.agentId, a.actionType, SortStrings(x), env.normalizeTimestamp(a.createdAt).value,
                        b.agentId, b.actionType, SortStrings(y), env.normalizeTimestamp(b.createdAt).value);
    }
    if SameIntent(env, a, b) {
      AscendingUnique(SortStrings(x), SortStrings(y));
    }
  }

  lemma SortedSet(s: seq<string>)
    requires Distinct(s)
    ensures StrictlyAscending(SortStrings(s)) && forall x :: x in SortStrings(s) <==> x in s
  {
    BytesTotalOrder(s);
    SortOrdered(Less, s);
    SortedDistinct(s, SortStrings(s));
  }

  // Equal references come from the same request, or show two texts with one
  // digest.
  lemma ActionRefBinds(env: Env, a: Intent, b: Intent)
    requires FixedDigest(env.sha256)
    requires IntentText(env, a).Some? && IntentText(env, b).Some?
    requires Sha256Hex(env.sha256, IntentText(env, a).value) == Sha256Hex(env.sha256, IntentText(env, b).value)
    ensures SameIntent(env, a, b) ||
      (IntentText(env, a).value != IntentText(env, b).value
       && env.sha256(IntentText(env, a).value) == env.sha256(IntentText(env, b).value))
  {
    IntentTextExactly(env, a, b);
    Hex.EncodeInjective(env.sha256(IntentText(env, a).value), env.sha256(IntentText(env, b).value));
  }
}
