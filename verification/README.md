# Verified model of the agent passport's delegation chains, Merkle commitments, canonical JSON and signed receipts

The repository issues delegations that may only narrow, commits lists of
records to Merkle roots, canonicalises JSON before hashing and signing it, and
builds receipts whose sorted lists are checked again by whoever verifies them.
This project models those four components in Dafny and proves what they promise
each other.

**Delegations** (`Scopes`, `ScopeSegments`, `Delegations`, `ChainVerifier`,
`ChainSpec`, `ChainReference`, `ChainErrors`, `Minter`, `MintReference`,
`MintRuns`). `VerifyDelegationChain` folds one mutable ceiling from root to
leaf. It is proved to accept exactly the chains that narrow in every pair of
links, and to accept every chain any number of `SubDelegate` calls can produce.
Which chains those are, and which child is issued when, is also said of the
recorded fields alone, scopes being paths of segments. A spend limit is a finite
real, NaN or an infinity; a timestamp is a partial map from text to nanoseconds,
compared in nanoseconds by the minter and in milliseconds by the verifier; a
depth is an unbounded integer.

**Merkle trees** (`MerkleTree`, `MerkleSoundness`, `MerkleReference`,
`AttributionMerkle`, `Cpa`, `CpaTop`, `Evidence`, `EvidenceProofs`,
`EvidenceShape`, `EvidenceSoundness`, `EvidencePayloads`, `CollisionBytes`). The
level-by-level fold with odd-node promotion is proved equal to the recursive
tree of section 2.1 of RFC 6962 and its sibling lists to the audit paths of
section 2.1.1. The hash is any function of fixed output width. Soundness
therefore never assumes that hashing is injective: each theorem says "the claim
holds, or these two computed byte strings are different and have the same hash",
and the functions that compute the pair (`InclusionCollision`, `RootCollision`,
`TreeCollision`, `PositionCollision` and those built on them) are executable.
They compute byte strings whenever leaves, proofs and hash outputs are byte
strings; the canonical texts hashed as evidence and context leaves always are
(`CollisionBytes`).

**Canonical JSON** (`Utf8`, `ScalarStrings`, `Decimals`, `NumberForm`, `Jcs`,
`JsonReader`, `LiteralForm`, `CanonicalForm`, `JcsRoundTrip`, `JcsIdentity`,
`SurrogateScan`, `JsonGrammar`, `CanonText`, `Recanonicalize`, `StrictJson`,
`StrictNumbers`, `JsonHeap`, `JsonSharing`, `JsonClone`, `StrictParser`,
`StrictParserProofs`, `ParsedValues`, `ParseIJson`, `ActionRef`, `DecisionRef`).
A reader for JSON text, written independently of the writer and tolerant of
white space and all escapes, undoes the writer; and the writer's text is proved
to be the one RFC 8785 allows, defined as a relation between texts and JSON
values. The model starts from UTF-8 bytes, and for numbers from the sign,
shortest digits and exponent `strconv` yields. The guards around the
canonicalizer are modelled too: the surrogate scanner over raw text, the
validator that walks values in memory with a shared ancestor set, the copier and
the strict parser.

**Receipts and lineage** (`Receipts`, `ReceiptAgreement`, `ReceiptBinding`,
`ReceiptFields`, `ReceiptCreation`, `ReceiptAuthenticity`, `StableSort`,
`Trace`, `TraceProperties`, `TraceStability`, `TraceReference`). When a receipt
is created is read off the arguments alone, creation and verification agree, and
the order in which evidence and signers are supplied does not matter. A receipt
that verifies was signed by everyone it lists, as it stands. The order of the
records a lineage is traced through changes neither its verdicts nor its ids.
Absent and empty slices are kept apart.

A Go string or byte slice is a Dafny string with one character below U+0100 per
byte. Signatures are an abstract sign and verify pair; the only things assumed
of them, and only where a lemma says so, are that a fresh signature verifies
under the signer's public key, that a key signs every message, in 128 hex
characters, or none, and that only the owner of a key makes signatures that
verify under it. A library sort is any arrangement that respects the comparison;
where the results must not depend on which, that is proved.

Some documented promises do not hold of the code as stated. Each is settled by
a counterexample and an exact condition:

- Scope cover along a chain does not compose from a root scope such as
  `data:*:*` (`ChainSpec.NestedWildcardChain`, `Scopes.CoverComposesExactly`).
- `CreateReceiptV1` never creates a receipt without evidence: copying an empty
  list of references yields a nil slice, which validation refuses although it
  accepts an empty one (`ReceiptAgreement.NothingCreatedWithoutEvidence`,
  `ReceiptAgreement.EvidenceNotRequired`). Evidence is one clause of the exact
  condition on the arguments (`ReceiptCreation.CreatesExactly`).
- Sorting by fields and validating by concatenated keys disagree when one name
  extends another by NUL (`ReceiptAgreement.NulMisorders`). A sorted list
  validates exactly when its pairs are distinct and, wherever a later name
  extends an earlier one by NUL, what follows the NUL sorts above the earlier
  second field (`ReceiptAgreement.SortedRefsAscendExactly`,
  `ReceiptAgreement.SortedSignersAscendExactly`). In whatever order they are
  supplied, that is the clause on references and signers under which a receipt is
  created (`ReceiptCreation.CreatesExactly`).
- The top root over partitions does not commit to where one partition ends
  (`CpaTop.BoundariesNotBound`). Two lists of partitions share a root exactly
  when they combine to the same tree of leaf texts, up to a computed collision
  (`CpaTop.TopRootExactly`); with one channel per partition that is the same
  partitions (`CpaTop.TopRootBindsPartitions`).
- Re-canonicalising a parsed canonical text does not give it back for the 64-bit
  integer 2^53 + 1, read as the nearest double
  (`Recanonicalize.TwoTo53AndOneChanges`). It does exactly when every number of it
  is the shortest form of what it parses to (`Recanonicalize.RecanonicalizeExactly`);
  when shortest decimals and integers of at most 53 bits parse exactly, that is so
  of every value the strict checks accept (`Recanonicalize.StrictRecanonicalizes`;
  `Recanonicalize.FaithfulParserExists` shows the two facts consistent).
- `CanonicalizeJSON` does not reject every malformed document: it decodes the
  first value and leaves the rest unread. A comma or closing bracket behind a
  canonical text, and whatever follows it, is refused exactly when that rest is not
  valid UTF-8 or has an unpaired escape (`Recanonicalize.RestIgnored`).
- `validateJSONValue` refuses more than cycles: a slice holding an empty slice of
  itself is finite and refused (`JsonSharing.FiniteYetRefused`). It accepts
  exactly when no path meets a bad scalar or name or comes back to a slice pointer
  or map (`JsonSharing.AcceptedExactly`).
- A root written by `CreateDelegation` is refused when its activation floor
  cannot be parsed (`MintRuns.CreatedRootAccepted`).
- The reported lineage is not stable regardless of which duplicate came first: of
  two records with one id, both signed or both not, the first one's scope is
  reported (`TraceStability.ScopeFollowsOrder`). It is stable under every order
  exactly when, at every hop, all records that may be reported have one scope
  (`TraceStability.LineageStableExactly`).
- A record with an empty id un-resolves a hop another record resolves
  (`TraceProperties.EmptyIdUnresolves`). A hop resolves exactly when the record
  it reports has a proper id (`TraceProperties.HopResolvedExactly`), and with
  proper ids more records never take resolution back
  (`TraceProperties.ResolvedMonotone`).

`dafny verify dfyconfig.toml` checks the whole project.

## Model

| member | source | states |
|---|---|---|
| Scopes.CoverComposesExactly | verify/verify.go:95-112 | covering is transitive from a granted scope exactly when that scope is not X:* with X equal to "*" or ending in ":*" |
| Scopes.CoverComposes | verify/verify.go:95-112 | from any other granted scope, what is covered by something it covers is covered by it |
| Scopes.NestedWildcardLeaks | verify/verify.go:95-112 | every nested wildcard has a concrete two-step cover that it does not cover itself |
| ScopeSegments.SegmentsExactly | verify/verify.go:92-112 | the segments of a scope are the one list of strings without colons that joins to it |
| ScopeSegments.CoversExactly | verify/verify.go:92-112 | one scope covers another exactly when its segments, without a last "*", are how the other's start |
| ScopeSegments.NarrowsExactly | verify/verify.go:542-553 | the scope check passes exactly when each child scope starts with the fixed segments of some parent scope |
| Scopes.CoversAll | verify/verify.go:542-553 | the nested loops, shared with delegation/delegation.go, answer true exactly when each required scope is covered by some granted one |
| ChainVerifier.EffectiveBound.constructor | verify/verify.go:493-500 | a fresh ceiling bounds nothing |
| ChainVerifier.EffectiveBound.Narrow | verify/verify.go:394-456 | one link's unit, limit, max depth and floor are folded into the mutable ceiling in that order, or the first violated facet is reported |
| ChainReference.VerdictMeans | verify/verify.go:380-588 | a chain passes exactly when it is acceptable in its recorded fields: linked, positions counting up from one not below zero and within every maximum, maxima and finite limits never raised, one unit with "currency" for a bare limit, scopes extended segment by segment, floors and expiries ordered to the millisecond |
| ChainErrors.VerdictTruthful | verify/verify.go:394-588 | a refused chain is empty, or has a first link with which it stops being acceptable, and the error names a violation that link has |
| ChainVerifier.VerifyDelegationChain | verify/verify.go:485-588 | the loop over one mutable ceiling returns the verdict of the fold over the whole chain, which the two rows above describe |
| ChainVerifier.VerifyHop | verify/verify.go:514-586 | one hop: linkage, bounds, consecutive depth, depth floor and ceiling, scopes and expiry, in the order they are checked |
| ChainVerifier.FirstViolationStands | verify/verify.go:485-588 | a violation among the first k links is the verdict on every longer chain |
| ChainVerifier.WalkOfPrefix | verify/verify.go:485-588 | the verdict on a prefix looks at nothing behind it |
| ChainSpec.WalkExact | verify/verify.go:394-588 | the fold succeeds on the first n links exactly when those narrow pairwise, and the ceiling then holds the tightest limit, max depth and floor stated so far |
| ChainSpec.VerdictExact | verify/verify.go:485-588 | a chain is accepted exactly when it is non-empty and over all pairs i < j: linked, depths consecutive and within every stated maximum, scopes covered, limits finite and never raised, units equal, floors never earlier, expiry never dropped or extended |
| ChainSpec.BoundsStep | verify/verify.go:394-456 | folding a link succeeds exactly when its bounds narrow every earlier one, not only its parent's, and the ceiling remembers the result |
| ChainSpec.HopExact | verify/verify.go:514-586 | a hop is accepted exactly when the chain one link longer still narrows |
| ChainSpec.MaxDepthCapsLength | verify/verify.go:429-440 | link j of an accepted chain is at the root depth plus j, and a max depth m stated by any link caps the chain at m + 1 minus the root depth links |
| ChainSpec.RootCoversEveryScope | verify/verify.go:542-553 | without nested wildcards in the root, every scope of every link of an accepted chain is covered by a root scope |
| ChainSpec.NestedWildcardChain | verify/verify.go:542-553 | from every nested wildcard there is an accepted chain of three links whose last scope the root does not cover |
| MintReference.MintExactly | delegation/delegation.go:173-327 | a child is issued exactly when the parent is live and authentic at the evaluation time, every stated facet narrows and the child can be signed; it then has the requested id, delegate, scope and creation time, the parent's delegate as delegator, the next depth, the parent's maximum, the stated limit and unit or else the parent's, the earlier expiry, the later floor and a signature over these |
| MintReference.IssuedExactly | delegation/delegation.go:173-327 | success is exactly the existence of such a child |
| MintReference.MintTruthful | delegation/delegation.go:179-327 | every refusal names something that is so, and an unreadable time of the parent is never among them |
| MintReference.LiveExactly | delegation/delegation.go:364-391 | a delegation is live exactly when it is authentic, its expiry is readable and not before the instant, its floor if stated readable and not behind it, and its position within its maximum |
| MintReference.CreateExactly | delegation/delegation.go:93-131 | a root is issued exactly with both parties named and 0 <= position <= maximum, with every field as requested |
| Minter.SubDelegate | delegation/delegation.go:179-327 | the step-by-step reassignment of unit, limit, expiry and floor yields the child, or the refusal, that the rows above describe |
| Minter.NarrowExpiry | delegation/delegation.go:247-268 | the child expires no later than the requested expiry and no later than the parent's, at one of the two texts, which can be read; refused exactly when a stated one cannot |
| Minter.NarrowNotBefore | delegation/delegation.go:269-292 | the child becomes active no earlier than the requested floor and no earlier than the parent's, at one of the two texts, which can be read; refused exactly when a stated one cannot |
| MintRuns.MintedHopAccepted | delegation/delegation.go:173-327 | folding a minted child into the ceiling its parent states yields the ceiling the child states, so an omitted bound is inherited and never lost |
| MintRuns.RunInvariant | delegation/delegation.go:173-327 | along a run of any length, each call with its own clock, the folded ceiling is the one the last link states for itself |
| MintRuns.MintedRunAccepted | delegation/delegation.go:173-178 | every chain minted by one or more successful calls is accepted by the chain verifier |
| MintRuns.CreatedRootAccepted | delegation/delegation.go:93-131 | a freshly created root is accepted exactly when its activation floor is empty or can be parsed |
| MintRuns.MintedChildLive | delegation/delegation.go:364-391 | a child signed with the delegate's key is authentic, and live at the minting instant exactly when the window the caller asked for contains it |
| MerkleTree.ReduceMerkleLevel | attribution/attribution.go:499-509 | the pairing loop computes one level, promoting an odd last node |
| MerkleTree.FoldToRoot | attribution/attribution.go:517-534 | replacing the level until one digest is left computes the fold |
| MerkleTree.FoldIsTreeHash | attribution/attribution.go:499-534 | the fold is the tree of section 2.1 of RFC 6962, split at the largest power of two below n |
| MerkleReference.RootExactly | attribution/attribution.go:499-534 | the root is the one tree head of section 2.1 of RFC 6962 as a relation: tagged leaf, or tagged left head before right head, split at the largest power of two |
| MerkleReference.AttributionRootMeans | attribution/attribution.go:517-534 | the attribution root is that head, with tags 00 and 01, over the leaves in ascending byte order, or the digest of "empty" |
| MerkleReference.ProofPlace | attribution/attribution.go:542-588 | a generated proof is for the target at its first place in that order |
| MerkleReference.PartitionRootMeans | cpa/cpa.go:114-170 | the root over given leaves is that head with the CPA tags over their canonical texts |
| MerkleReference.EvidenceRootMeans | receiptcore/supporting_record.go:120-158 | the evidence root is that head over the members' texts, in hex |
| MerkleTree.SiblingPathIsAuditPath | attribution/attribution.go:542-588 | the siblings met on the way up are the audit path of section 2.1.1 of RFC 6962, in order |
| MerkleTree.AuditPathClimbs | attribution/attribution.go:606-616 | climbing from a leaf along its audit path reaches the tree's root |
| MerkleTree.SiblingPathHeight | attribution/attribution.go:542-588 | a path has at most ceil(log2 n) nodes |
| MerkleSoundness.InclusionSound | attribution/attribution.go:606-616 | a value that climbs to the root of a list along any path, with siblings of any length, is in the list, or the computed pair collides |
| MerkleSoundness.RootBinds | attribution/attribution.go:517-534 | lists of any lengths with one root are equal in order, or the computed pair collides |
| AttributionMerkle.BuildMerkleRoot | attribution/attribution.go:517-534 | the root of the sorted leaves, or the digest of the empty sentinel for no leaves |
| AttributionMerkle.GenerateMerkleProof | attribution/attribution.go:542-588 | nil exactly when the target is absent, otherwise the proof for its first sorted position |
| AttributionMerkle.GatherSiblings | attribution/attribution.go:556-580 | the climbing loop collects each level's sibling and ends at the root |
| AttributionMerkle.VerifyMerkleProofAgainstRoot | attribution/attribution.go:606-616 | accepts exactly when climbing reproduces the trusted root |
| AttributionMerkle.GeneratedProofAccepted | attribution/attribution.go:542-616 | a generated proof carries the list's root, verifies against it and has at most ceil(log2 n) nodes |
| AttributionMerkle.AcceptedProofSound | attribution/attribution.go:606-616 | a proof accepted against a list's root proves membership, or the computed pair collides; against the empty list it always collides |
| AttributionMerkle.RootBindsMultiset | attribution/attribution.go:482-534 | lists with one root are permutations of each other, empty ones included, or the computed pair collides |
| AttributionMerkle.RootOfPermutation | attribution/attribution.go:517-534 | permuting the leaves keeps the root |
| Cpa.SortLeaves | cpa/cpa.go:138-148 | refused exactly on a repeated ctx_id, otherwise a sorted permutation of the leaves, whatever the sort did with ties |
| Cpa.Reduce | cpa/cpa.go:114-132 | the reduction is the tree hash of section 2.1 of RFC 6962, refused on no nodes |
| Cpa.BuildPartitionRootBytes | cpa/cpa.go:153-170 | a root exactly for non-empty, duplicate-free, encodable leaves: the tree hash over their canonical texts in ctx_id order |
| Cpa.BuildTopRootBytes | cpa/cpa.go:186-194 | the tree hash over the partition roots in the order given, or the empty sentinel's digest |
| Cpa.LeafTextInjective | cpa/cpa.go:80-99 | the canonical text of a leaf determines all of its fields |
| Cpa.PartitionRootOfPermutation | cpa/cpa.go:138-170 | permuting the leaves keeps the partition root |
| Cpa.PartitionRootBinds | cpa/cpa.go:153-170 | partitions with one root hold the same leaves, or the computed pair collides |
| CpaTop.TreeBinds | cpa/cpa.go:114-132 | trees of any shape with one digest are the same tree, or the computed pair collides |
| CpaTop.TopRootExactly | cpa/cpa.go:182-194 | partitions that combine to the same tree of leaf texts have one top root, and one top root means the same tree, the empty list included, or the computed pair collides |
| CpaTop.TopTreeBindsLeaves | cpa/cpa.go:182-194 | the same tree means the same leaves in the same order across all partitions |
| CpaTop.TopRootBindsLeaves | cpa/cpa.go:182-194 | so one top root means one sequence of leaves, or the computed pair collides |
| CpaTop.BoundariesNotBound | cpa/cpa.go:182-194 | one partition of two leaves and two partitions of one combine to one tree and have the same top root |
| CpaTop.BoundariesRecoverable | cpa/cpa.go:182-194 | when each partition holds one channel and neighbours differ, the leaf sequence fixes the partitions |
| CpaTop.TopRootBindsPartitions | cpa/cpa.go:182-194 | when both lists keep one channel per partition, one top root means the same partitions, or the computed pair collides |
| Evidence.MemberCanonicalInjective | receiptcore/supporting_record.go:112-118 | the leaf text of a member determines the member |
| Evidence.CheckedLeaves | receiptcore/supporting_record.go:124-142 | the checking loop passes exactly the lists of well-formed members with distinct ids in strictly ascending text order, and hashes them |
| Evidence.EvidenceBundleMerkleRootV2 | receiptcore/supporting_record.go:120-158 | a root exactly for those lists, and it is the tree hash over their texts |
| Evidence.BuildEvidenceBundleBodyV2 | receiptcore/supporting_record.go:160-187 | a body exactly for non-empty inputs with distinct non-empty scalar ids and types and strict payloads; it holds their digests, sorted, with the root |
| Evidence.VerifyEvidenceBundleBodyV2 | receiptcore/supporting_record.go:189-218 | accepts exactly well-formed members under their own root whose supplied payloads hash to what they say |
| Evidence.BuiltBodyAccepted | receiptcore/supporting_record.go:160-218 | every built body is accepted, without payloads and with the payloads it was built from |
| Evidence.BodyOfPermutation | receiptcore/supporting_record.go:160-187 | permuting the inputs gives the same body and root |
| EvidenceProofs.BuildEvidenceBundleProofV2 | receiptcore/supporting_record.go:231-276 | a proof exactly when the list is well formed and holds the id, for the position the id stands at |
| EvidenceProofs.GatherShape | receiptcore/supporting_record.go:250-274 | the loop records left, right and promote steps up to the root |
| EvidenceProofs.VerifyProof | receiptcore/supporting_record.go:278-335 | accepts exactly proofs of the profile whose steps match the positions index and width dictate and end at the trusted root, and whose payload hashes to the member |
| EvidenceShape.AcceptsExactly | receiptcore/supporting_record.go:278-335 | accepted are exactly the proofs with the profile, a well-formed member, an index below the count, one fitting step per level of the tree and siblings that lead from the member's leaf to the trusted root |
| EvidenceProofs.WalkPath | receiptcore/supporting_record.go:292-334 | the loop over index, width and digest computes the walk, refusing a missing, surplus or misplaced step |
| EvidenceSoundness.AcceptedPathLength | receiptcore/supporting_record.go:292-334 | an accepted path has exactly ceil(log2 LeafCount) steps |
| EvidenceSoundness.BuiltProofAccepted | receiptcore/supporting_record.go:231-335 | the proof for any position of a well-formed list is accepted against its root |
| EvidenceSoundness.PositionSound | receiptcore/supporting_record.go:278-335 | a digest that walks from index i of the list's own width to its root is the digest at i, or the computed pair collides |
| EvidenceSoundness.AcceptedEvidenceSound | receiptcore/supporting_record.go:278-335 | an accepted proof with LeafCount equal to the number of entries proves the member at LeafIndex, with any other LeafCount it still proves membership, or the computed pair collides |
| EvidencePayloads.DigestsAgreeExactly | receiptcore/supporting_record.go:278-335 | two payloads have one digest exactly when they are one JSON value, or their texts collide |
| EvidencePayloads.AcceptedPayloadSound | receiptcore/supporting_record.go:278-335 | a payload accepted with a proof against a built bundle is, as a JSON value, the one given for that member, or the tree or the two payload texts collide |
| EvidencePayloads.EqualPayloadAccepted | receiptcore/supporting_record.go:278-335 | every strict payload that is, as a JSON value, the one given for a member is accepted with the proof built for it |
| CollisionBytes.InclusionCollisionBytes | attribution/attribution.go:606-616 | the pair computed against a false inclusion consists of byte strings when leaves, value and siblings do |
| CollisionBytes.RootCollisionBytes | attribution/attribution.go:517-534 | so does the pair computed from two lists with one root |
| CollisionBytes.TreeCollisionBytes | cpa/cpa.go:114-132 | so does the pair computed from two trees with one digest |
| CollisionBytes.PositionCollisionBytes | receiptcore/supporting_record.go:292-334 | so does the pair computed along an evidence path |
| CollisionBytes.ProofCollisionBytes | attribution/attribution.go:606-616 | so does the pair computed from an accepted proof, the empty list included |
| CollisionBytes.RootsCollisionBytes | attribution/attribution.go:517-534 | so does the pair computed from two leaf lists, empty ones included |
| CollisionBytes.EvidenceCollisionBytes | receiptcore/supporting_record.go:278-335 | the pair computed from an evidence proof consists of byte strings whenever the hash gives bytes, whatever the entries |
| CollisionBytes.PartitionCollisionBytes | cpa/cpa.go:153-170 | so does the pair computed from two partitions |
| CollisionBytes.TopCollisionBytes | cpa/cpa.go:182-194 | so does the pair computed from two lists of partitions, empty ones included |
| Utf8.EncodeOfRunes | jcs/jcs.go:383-413 | a valid string is the encoding of its code points, all of them scalar |
| Utf8.RunesOfEncode | jcs/jcs.go:383-413 | encoding scalar code points gives a valid string that decodes to them |
| Utf8.ValidExactly | jcs/jcs.go:242-250 | a byte string is valid exactly when it encodes some scalar code points |
| ScalarStrings.HasLoneSurrogate | jcs/jcs.go:229-236 | finds exactly the three-byte forms of surrogate code points |
| ScalarStrings.ValidHasNoSurrogate | jcs/jcs.go:229-236 | no valid string contains such a form at any offset |
| ScalarStrings.ValidateScalarString | jcs/jcs.go:242-250 | accepts exactly the valid strings, reporting a surrogate when there is one |
| ScalarStrings.ByteOrderIsCodePointOrder | actionref/actionref.go:62-68 | comparing UTF-8 bytes is comparing code points |
| ScalarStrings.CompareUtf16 | jcs/jcs.go:422-435 | the comparison loop computes the order of the UTF-16 code units |
| ScalarStrings.Utf16OrderAtFirstDifference | jcs/jcs.go:416-435 | that order agrees with code-point order at the first difference except between a code point from U+10000 up and one in U+E000 to U+FFFF, where it is reversed |
| ScalarStrings.Encode16Injective | jcs/jcs.go:422-435 | the UTF-16 form determines the code points |
| ScalarStrings.LessUtf16Transitive | jcs/jcs.go:422-435 | the order is transitive |
| ScalarStrings.LessUtf16Total | jcs/jcs.go:422-435 | distinct valid strings are ordered one way or the other |
| Decimals.EsNumberRoundTrip | jcs/jcs.go:343-380 | reading the printed number back, whatever delimiter follows, gives its sign, trimmed digits and exponent and stops at its end |
| Decimals.EsNumberDenotes | jcs/jcs.go:343-380 | the four-way layout denotes exactly digits times ten to n - k |
| Decimals.EsNumberInjective | jcs/jcs.go:343-380 | equal texts come from equal sign, trimmed digits and exponent |
| Decimals.NormalizeExact | jcs/jcs.go:343-380 | dropping leading and trailing zeros keeps the value a number text denotes |
| Decimals.IntegerBranchesAgree | jcs/jcs.go:277-280 | the integer branch prints what the float branch prints for the same digits |
| Decimals.EsNumberLength | jcs/jcs.go:343-380 | at most 25 characters for up to 17 digits in double range |
| LiteralForm.QuoteExactly | jcs/jcs.go:383-413 | what is written for a string is the shortest of all literals that stand for it, with lower-case hex digits, and the only such one |
| NumberForm.EsNumberExactly | jcs/jcs.go:343-380 | what is written for a number is the only JSON number of its value with no superfluous zero, an exponent exactly outside 10^-6 to 10^21 and then one digit before the point, e in lower case and a sign |
| CanonicalForm.CanonExactly | jcs/jcs.go:252-317 | the canonical text of a value is the one text RFC 8785 allows for what the value stands for: no white space, names ascending by UTF-16 units, strings and numbers in their one form |
| Jcs.WriteString | jcs/jcs.go:383-413 | the rune loop appends the quoted string that LiteralForm.QuoteExactly describes |
| Jcs.WriteNumber | jcs/jcs.go:321-332 | refuses exactly NaN and the infinities, prints both zeros as 0 |
| Jcs.Write | jcs/jcs.go:252-317 | the recursive writer succeeds exactly on values of supported kinds with scalar strings and finite numbers, and appends their canonical text |
| Jcs.WriteItems | jcs/jcs.go:281-291 | a slice, item by item behind commas |
| Jcs.WriteMembers | jcs/jcs.go:292-312 | a map, by keys in UTF-16 order whatever order they were enumerated in |
| Jcs.Canonicalize | jcs/jcs.go:43-49 | exactly for writable values, the text that CanonicalForm.CanonExactly describes |
| Jcs.SortedKeysUnique | jcs/jcs.go:416-420 | any ordered arrangement of a set of valid keys is the same list, so the text does not depend on map iteration |
| JcsRoundTrip.ReadCanon | jcs/jcs.go:252-317 | reading the canonical text of a value, followed by nothing or by a comma or closing bracket, gives exactly that value and stops at its end |
| JcsIdentity.CanonEqualExactly | jcs/jcs.go:252-317 | canonical texts are equal exactly when the values stand for the same JSON value, objects as maps and numbers as decimals |
| JcsIdentity.DecodedTextExactly | jcs/jcs.go:252-317 | a decoded value has the canonical text it was decoded from exactly when each number of it is again the shortest form of what it parses to |
| CanonText.CanonIsText | jcs/jcs.go:156-164 | every canonical text is valid UTF-8 and passes the surrogate scanner |
| Recanonicalize.CanonicalizeJSON | jcs/jcs.go:171-182 | text is refused for invalid UTF-8 or an unpaired escape before it is decoded; otherwise the canonical text of its first value, if that can be written |
| Recanonicalize.RecanonicalizeExactly | jcs/jcs.go:171-182 | a canonical text, guards included, is given back exactly when each number of it is again the shortest form of what it parses to |
| Recanonicalize.StrictRecanonicalizes | jcs/jcs.go:171-182 | when shortest decimals and integers up to 2^53 - 1 parse exactly, the canonical text of every value that passes the strict checks is given back |
| Recanonicalize.CanonicalTextIdempotent | jcs/jcs.go:171-182 | and canonicalising is idempotent on every accepted text |
| Recanonicalize.RestIgnored | jcs/jcs.go:139-182 | a comma or bracket behind a canonical text makes it malformed, yet the outcome is that of the text alone, unless what follows is not valid UTF-8 or has an unpaired escape |
| Recanonicalize.TwoTo53AndOneChanges | jcs/jcs.go:171-182 | the integer 2^53 + 1, parsed to the nearest double, canonicalises to another text |
| SurrogateScan.HexCode | jcs/jcs.go:64-80 | the accumulating loop reads four hex digits of either case, or answers -1 |
| SurrogateScan.HasLoneSurrogateEscape | jcs/jcs.go:90-137 | the loop over i and inStr computes the scan of the text |
| SurrogateScan.ScanExact | jcs/jcs.go:90-137 | on every run of string literals and quote-free stretches it fires exactly when some literal, decoded to UTF-16, has an unpaired surrogate |
| JsonGrammar.SyntaxReads | jcs/jcs.go:90-137 | every value of the grammar of RFC 8259 is spelled by string literals and quote-free stretches, with exactly its strings and names as literals |
| JsonGrammar.ScanOfText | jcs/jcs.go:90-137 | on every JSON text the scanner fires exactly when some string or name, decoded to UTF-16, has an unpaired surrogate |
| SurrogateScan.ScanUnitsExact | jcs/jcs.go:107-127 | skipping pairs finds a unit exactly when one has no partner |
| StrictNumbers.StrictExactly | receiptcore/jcs.go:24-65 | the strict checks pass exactly values with scalar strings whose numbers, where their value is whole, lie within 2^53 - 1 of zero; a json.Number only when its text has no point or exponent |
| StrictJson.StrictIsWritable | receiptcore/jcs.go:105-110 | whatever passes the strict checks can be canonicalised |
| JsonHeap.ValidateJSONValue | receiptcore/jcs.go:24-98 | terminates on every finite memory of slices and maps, cyclic or not, leaves the shared ancestor set as it was, and accepts exactly the values below |
| JsonHeap.ValidateSlice | receiptcore/jcs.go:66-78 | the slice case, its mark deleted on every way out |
| JsonHeap.ValidateMap | receiptcore/jcs.go:79-94 | the map case, members in any order |
| JsonSharing.AcceptedExactly | receiptcore/jcs.go:24-98 | accepted exactly when no path from the value meets a bad scalar or key or returns to a slice pointer or map it has been through, so no cycle is reachable |
| JsonSharing.AcceptedUnfolds | receiptcore/jcs.go:105-110 | an accepted value is a finite tree that passes the strict checks, so canonicalising and copying it end |
| JsonSharing.UnfoldsUnique | receiptcore/jcs.go:105-110 | a value in memory is at most one tree |
| JsonSharing.StrictJcsOf | receiptcore/jcs.go:105-110 | text exactly for accepted values: the canonical text of the tree they are |
| JsonSharing.FiniteYetRefused | receiptcore/jcs.go:66-70 | a slice whose element is an empty slice of itself is finite and refused |
| JsonClone.CloneJSONValue | receiptcore/jcs.go:196-213 | the copy is the same tree made of new memory alone, and older memory is unchanged |
| JsonClone.CloneSlice | receiptcore/jcs.go:198-203 | the slice case, filling a fresh slice element by element |
| JsonClone.CloneMap | receiptcore/jcs.go:204-209 | the map case, filling a fresh map |
| JsonClone.CopyIsIsolated | receiptcore/jcs.go:196-213 | whatever is later written to older memory, the copy keeps its value |
| StrictParserProofs.DocRead | receiptcore/jcs.go:128-182 | what the descent reads is what its tokens spell, within the depth and without repeated names |
| StrictParserProofs.ReadsDoc | receiptcore/jcs.go:128-182 | every document within the depth and without repeated names is read off its tokens |
| StrictParserProofs.TokensInjective | receiptcore/jcs.go:128-182 | a token sequence spells at most one such document |
| StrictParserProofs.StrictDocExactly | receiptcore/jcs.go:183-193 | a result exactly when the tokens are one document with nothing behind it, nested within maxDepth, names distinct in every object, interoperable values |
| ParseIJson.Parse | receiptcore/jcs.go:128-182 | the closure advancing one decoder computes the descent |
| ParseIJson.ReadsAsExactly | receiptcore/jcs.go:115-194 | tokens are a bounded document of a value exactly when they spell the value: slices in order, each member of a map once, in any order |
| ParseIJson.ParseStrictIJSON | receiptcore/jcs.go:115-194 | returns v exactly for text within maxBytes, valid, without unpaired escapes, whose tokens spell v and nothing more, where v is strict and nested within maxDepth |
| ActionRef.CanonicalizeScopes | actionref/actionref.go:74-90 | refused exactly when two scopes are equal after normalization, naming the first repeat; otherwise the strictly ascending list of the normalized scopes |
| ActionRef.CanonicalExactly | actionref/actionref.go:57-90 | canonical lists are equal exactly when the normalized scopes are the same set |
| ActionRef.ScopeOrderIrrelevant | actionref/actionref.go:57-90 | neither refusal nor result depends on the order supplied |
| ActionRef.CanonicalIdempotent | actionref/actionref.go:57-90 | under an idempotent normalization a canonical list is accepted and left as it is |
| ActionRef.AscendsByCodePoint | actionref/actionref.go:62-68 | on scalar strings the result ascends by code point |
| ActionRef.ComputeActionRefScopes | actionref/actionref.go:105-125 | a reference exactly when the intent has a text, and then that text's digest in hex |
| ActionRef.IntentTextDefined | actionref/actionref.go:105-125 | an intent has a text exactly when its time can be read, no two scopes coincide after normalization, and all its strings are scalar |
| ActionRef.PreimageWritable | actionref/actionref.go:118-124 | the preimage can be canonicalised exactly when all of its strings are scalar |
| ActionRef.IntentTextExactly | actionref/actionref.go:92-125 | two intents have one text exactly when agent, action, normalized time and set of normalized scopes are the same |
| ActionRef.ActionRefBinds | actionref/actionref.go:105-125 | equal references come from the same request, or the two texts collide |
| DecisionRef.NormalizeCoreDecisionOutputV1 | receiptcore/decision_ref.go:93-123 | accepts exactly well-formed outputs and changes only the constraints, to the ascending set of their normalized forms, however the set was drained |
| DecisionRef.NormalFormExactly | receiptcore/decision_ref.go:109-121 | outputs share a normal form exactly when they differ only in order, repetition or spelling of constraints |
| DecisionRef.NormalFormStable | receiptcore/decision_ref.go:93-123 | under a sound normalization a normal form is well formed and its own normal form |
| DecisionRef.NormalConstraintsValid | receiptcore/decision_ref.go:109-121 | the normalized constraints are scalar and strictly ascending by code point |
| Receipts.CheckRefs | receiptcore/receipt.go:114-125 | the loop over seen and previous passes exactly non-empty, well-formed references whose concatenated keys strictly ascend |
| Receipts.CheckSignatures | receiptcore/receipt.go:126-144 | likewise for signatures, and tells whether the issuer is among them |
| Receipts.ValidateReceiptV1 | receiptcore/receipt.go:95-147 | accepts exactly receipts with a sound header, references and signatures |
| ReceiptFields.ReceiptStrict | receiptcore/receipt.go:40-68 | the value of a receipt passes the strict checks exactly when each of its strings is scalar and its result is strict |
| ReceiptCreation.CreatesExactly | receiptcore/receipt.go:149-195 | for keys that sign everything or nothing, some receipt is created exactly when the header fields are in order and scalar, the result is strict, there is evidence, references and signers are well formed, scalar, pairwise different and not undone by a NUL extension, the issuer is among the signers and every key signs |
| ReceiptCreation.CreatedCarries | receiptcore/receipt.go:149-195 | a created receipt has the caller's fields, the evidence in some order, an id that recomputes and exactly one signature by each signer over itself |
| ReceiptCreation.CreateReceiptV1 | receiptcore/receipt.go:149-195 | returns the receipt the sorted references and signers determine, and one exactly under that condition on its arguments |
| ReceiptAuthenticity.ValidExactly | receiptcore/receipt.go:95-147 | validation accepts exactly the receipts whose fields are sound, each condition on the fields spelled out |
| ReceiptAuthenticity.EverySignerSigned | receiptcore/receipt.go:208-233 | if only the owner of a key makes signatures that verify, everyone a valid receipt lists signed a text that fixes its body and id and their own name and key id |
| ReceiptAuthenticity.AlteredReceiptRefused | receiptcore/receipt.go:208-233 | a receipt that differs in any of these from all a listed signer ever signed is not valid |
| ReceiptAuthenticity.OneRefusalSuffices | receiptcore/receipt.go:216-231 | one signature refused or one key missing makes the receipt invalid |
| ReceiptAgreement.VerifyReceiptV1 | receiptcore/receipt.go:208-233 | valid exactly when the receipt validates, its id recomputes and every signature verifies, with the consequences above; each signature gets its own result |
| ReceiptAgreement.CreatedReceiptVerifies | receiptcore/receipt.go:149-233 | a created receipt verifies under a resolver that returns the signers' keys |
| ReceiptAgreement.NothingCreatedWithoutEvidence | receiptcore/receipt.go:111-153 | whatever the rest, no receipt is created without evidence: copying none leaves nil, which is refused |
| ReceiptAgreement.EvidenceNotRequired | receiptcore/receipt.go:95-147 | dropping all evidence from a valid receipt leaves it valid |
| ReceiptAgreement.CreatedReceiptUnique | receiptcore/receipt.go:149-195 | when one order of references and signers makes a receipt, every other order makes that receipt and no other |
| ReceiptAgreement.OrdersAgree | receiptcore/receipt.go:114-166 | the field order used for sorting is the concatenated-key order used for validating unless one name extends the other by NUL |
| ReceiptAgreement.OrdersUnderNulExtension | receiptcore/receipt.go:114-166 | under such an extension the field order is fixed while the key order depends on the rest, so they can differ |
| ReceiptAgreement.SortedRefsAscendExactly | receiptcore/receipt.go:114-160 | sorted references pass the order check exactly when they are distinct and no type extends an earlier one by NUL with what follows sorting at or below the earlier hash |
| ReceiptAgreement.SortedSignersAscendExactly | receiptcore/receipt.go:129-166 | the same for the signatures of sorted signers, by name and key id |
| ReceiptAgreement.SortedRefsAscend | receiptcore/receipt.go:114-160 | without NUL, sorted references validate exactly when they are distinct |
| ReceiptAgreement.SortedSignersAscend | receiptcore/receipt.go:129-166 | without NUL, sorted signers validate exactly when their name and key pairs are distinct |
| ReceiptAgreement.NulMisorders | receiptcore/receipt.go:114-160 | two distinct sorted references that validation calls unsorted |
| ReceiptBinding.ReceiptIdBinds | receiptcore/receipt.go:70-84 | receipts with one id agree in every field but id and signatures, the result as a JSON value, or their preimages collide |
| ReceiptBinding.SignaturePayloadBinds | receiptcore/receipt.go:86-93 | one signed text means one receipt body and id, one signer, one key id and one algorithm |
| ReceiptBinding.TextsDisjoint | receiptcore/receipt.go:70-93 | no signed text is the preimage of an id |
| StableSort.SortPicks | attribution/attribution.go:327-348 | of the elements looked for, a stable sort puts first the first supplied that none of them precedes |
| TraceReference.HopMeans | attribution/attribution.go:302-368 | a hop reports exactly the first supplied of the best joining records: on the tail the named ones if any, authentic before forged, then least id; its id or "unknown", and its scope |
| TraceReference.VerifiedMeans | attribution/attribution.go:292-324 | verified means a receipt of version 1.1 signed by the key at the tail and an authentic record for each of at least one hop |
| TraceReference.ResolvedMeans | attribution/attribution.go:378-388 | resolved means a known principal and no hop so reported with id "unknown" |
| Trace.TraceBeneficiary | attribution/attribution.go:285-413 | the loop reports one hop per key pair, and resolved, verified and the beneficiary are what the records, the receipt signature and the principal say |
| Trace.TraceHop | attribution/attribution.go:302-368 | a hop reports the named record on the tail, else the first after the stable sort, and is authentic exactly when some matching record is |
| Lexicographic.LessExactly | attribution/attribution.go:327-335 | the order of Go strings: at the first difference one ends or has the lesser byte |
| Trace.GatherMatches | attribution/attribution.go:311-324 | the records joining the two keys in order, and whether any verifies |
| Trace.MatchesAre | attribution/attribution.go:311-324 | exactly the records that join the two keys, each with its verdict |
| Trace.ChooseMatch | attribution/attribution.go:337-348 | a record whenever there is one: on the tail the first with the named id, otherwise, or when none has it, the first |
| TraceProperties.ChosenIsReported | attribution/attribution.go:327-348 | the choice is one that no other candidate precedes by validity and id, where on the tail only records with the named id are candidates if there are any |
| TraceProperties.ReportedIdUnique | attribution/attribution.go:327-348 | all records that qualify have one id |
| TraceProperties.OrderIrrelevant | attribution/attribution.go:327-401 | permuting or repeating records changes neither verdict nor any reported id |
| TraceStability.ScopeFollowsOrder | attribution/attribution.go:279-284 | two records of one id and one validity are reported with the scope of whichever comes first |
| TraceStability.LineageStableExactly | attribution/attribution.go:279-284 | the whole reported lineage is the same under every order of the records exactly when at each hop all records that may be reported have one scope |
| TraceProperties.VerifiedMonotone | attribution/attribution.go:292-301 | more records never take a verified lineage back |
| TraceProperties.HopResolvedExactly | attribution/attribution.go:350-358 | a hop resolves exactly when the record it reports has an id other than empty and "unknown" |
| TraceProperties.ResolvedExactly | attribution/attribution.go:378-388 | when no record has such an id, resolved means a known principal and a record for each of at least one hop |
| TraceProperties.ResolvedMonotone | attribution/attribution.go:378-388 | when no record has such an id, more records never take resolution back |
| TraceProperties.EmptyIdUnresolves | attribution/attribution.go:327-358 | an unsigned copy of a record with an empty id takes resolution back |

## Left out

- Ed25519 and its admissibility checks, key generation and key files: only an abstract sign and verify pair is kept.
- SHA-256: any function of fixed output width; Unicode normalization tables: any function, assumed idempotent only where a lemma says so.
- Shortest float digits and `json.Number` parsing by `strconv`: a number enters the model as sign, digits and exponent, or as a failed parse; float32 values are not part of the model.
- `time.Parse` and its layouts: a partial map from text to nanoseconds; `isExactUTCMilliseconds` is a predicate parameter.
- The tokenizer of `encoding/json`: the strict parser starts from tokens and the point where the tokenizer gives up; the reader used for round trips is this project's own and has no limit on nesting.
- jcs/prevalidate.go: its reflection over Go types and custom marshalers depends on the Go runtime.
- Error message texts and paths: an error is its kind, or only its presence where callers do not tell kinds apart.
- Overflow of `parentDepth + 1` at the machine maximum: depths are unbounded.
- The canonical bytes a delegation or an action receipt is signed over: an abstract encoding that refuses non-finite limits; `canonicalMap` is not modelled field by field.
- The map-shaped `ValidateChainStructure` and `VerifyChainAuthorization`, `VerifyAttributionReport` and the remaining supporting-record functions: simpler checks of the same kinds.
- `BuildDecisionRefV1` beyond normalization, `ComputeActionRef` and `ComputeCpaRef`: digests of canonical texts whose injectivity is already proved in general.
- `BuildTopRoot` and the other hex wrappers: decoding around the byte-level functions.
- commerce, values, passport, completion, coordination, keystore and intoto: mostly single-step field checks.
- JsonHeap: values of kinds the validator refuses outright are one opaque kind, and memory is fixed while a walk is under way.
- JsonClone: an empty fresh slice gets an address of its own, where Go shares one for all of them.
