# Verification of the ddns protocol core

Dafny models of the parts of the repository whose correctness rests on more than one function:
canonical encodings and signatures, the Merkle registry, base conversions, the canonical JSON
behind route ids, the quorum resolver with its cache, the attack-mode machine, and the credit
accounting. Check everything with `dafny verify dfyconfig.toml`.

| file | models |
|---|---|
| `Sorting.dfy` | `Array.prototype.sort` as a stable sort, and when sorting makes output independent of input order |
| `Bytes.dfy` | `core/src/bytes.ts` and counted lists read at a moving offset |
| `Gateway.dfy`, `GatewayLoops.dfy` | `core/src/gateway_routes.ts`: specification and theorems, and the loops proved against it |
| `RouteSet.dfy` | `core/src/outeset.ts` |
| `Wire.dfy` | `core/src/wire.ts`, `core/src/wire_safe.ts` |
| `Decimals.dfy`, `CanonicalJson.dfy` | `canonicalize` and `routeId` of `solana/scripts/route_lib.ts`, with numbers printed as section 6.1.6.1.20 of ECMA-262 says |
| `Merkle.dfy` | `core/src/registry_merkle.ts`; `gateway/src/registry.ts` repeats the algorithm |
| `Radix.dfy`, `Base58.dfy`, `Base32.dfy`, `Cid.dfy`, `Uvarint.dfy` | the conversions of `gateway/src/hosting/targets.ts` and `base58Decode` of `gateway/src/server.ts` |
| `Cname.dfy`, `Quorum.dfy`, `WorkerPool.dfy`, `UpstreamPools.dfy`, `Cache.dfy`, `Adapter.dfy` | `gateway/src/adapters/recursive.ts` |
| `Names.dfy` | `String.prototype.trim`, and `normalizeNameForHash` of `gateway/src/adapters/types.ts` on names that punycode gives back unchanged |
| `AttackMode.dfy` | `packages/attack-mode/src/index.ts` |
| `TokenBucket.dfy` | `services/traffic-oracle/src/rate_limit.ts` |
| `Ledger.dfy`, `Credits.dfy`, `CreditRuns.dfy` | the comment-credit flow of `coordinator/src` |
| `RateLimits.dfy`, `CoordinatorLaws.dfy` | what that flow answers and changes, on the requests themselves |
| `Layouts.dfy` | the three binary formats as offset tables, their canonical orders, and what is accepted |
| `JsonLaws.dfy` | the canonical JSON read by RFC 8259 |

Where the source updates state, a method or a class does the same here and is proved equal to a
specification function; the theorems are about that function. Runs are arbitrary finite
sequences of requests, settlements or evaluations.

Some promises do not hold of every input. Each is kept as the code has it, with the exact
condition under which it holds and, where that helps, a concrete input:

- Base 58 loses all-zero input (`Base58.BytesRoundTrip`, `Base58.TextRoundTrip`).
- The gateway encoder truncates counts, set ids, kinds, priorities and flags unchecked
  (`Gateway.RoundTripExactly`); the comparators skip flags and `rr_class`
  (`Gateway.OrderIndependentExactly`, `RouteSets.OrderIndependentExactly`); `ascii()` folds
  labels onto others (`Gateway.PatternUnique`).
- A verifying Merkle proof proves its leaf exactly when the leaf has 64 characters and the path
  the tree's height (`Merkle.SoundnessExactly`; inputs: `Merkle.EmptyLeafVerifies`,
  `Merkle.InnerNodeVerifies`); a root needs its leaf count (`Merkle.RepeatedLastLeaf`).
- `readUvarint` accepts 64-bit numbers but returns 32-bit ones (`Uvarint.ReadsEncoded`), with the
  bits from 2^35 on in the wrong places (`Uvarint.ReadsBits`).
- "Stable for recoveryStableSecs" compares two zero-score evaluations only
  (`AttackMode.RecoveryEndsExactly`). The stretch between them was free of other scores exactly
  when they are neighbours (`AttackMode.StabilityContinuousExactly`), and the last
  recoveryStableSecs were exactly when nothing else falls into them
  (`AttackMode.StableForSecsExactly`; input: `AttackMode.AttackBetweenQuietEvaluations`).
- A failed refresh is answered with an entry, past `staleUntil` too, exactly when the entry was
  usable or a prefetch was under way at the time of the ask (`Cache.FailureAnswersExactly`;
  input: `Cache.PendingPrefetchOutlivesStaleUntil`). `staleMaxS: 0` means the default of 1800.
- Two names queried apart share a cache key exactly when both are one core, followed by a dot and
  then blanks, or by blanks alone where the core ends in neither dot nor blank
  (`Cache.SharedKeysExactly`; inputs: `Cache.DoubledDotSharesKey`,
  `Cache.BlankBeforeDotSharesKey`), and then one is told the other's answer
  (`Cache.SharedKeyMisleads`). The names of a service are told their own answers in every run
  exactly when no two of them do so (`Cache.FoundOwnNameExactly`). All this is for names that
  punycode gives back unchanged: ASCII with at most one @.
- The token bucket keeps every window's bound exactly when its clock does not go back
  (`TokenBucket.WindowsBoundedExactly`); another bound holds for any clock
  (`TokenBucket.AnyClockBound`).
- Four kinds of requests create or destroy credits (`CreditRuns.ConservesExactly`; inputs:
  `CreditRuns.ApprovedTwiceMints`, `CreditRuns.PaddedSpamVanishes`).
- A receipt is paid once for each of its accepted completions, so at most once exactly when it
  completes at most once (`CreditRuns.ReceiptPaidExactly`; input: `CreditRuns.ReceiptEarnsTwice`):
  what is on record is ignored (`CreditRuns.RecordIsIgnored`).
- A bonus is charged to its daily window and not paid exactly when the cap allows it and the
  pool does not hold it (`CreditRuns.ChargedUnpaidExactly`); the answer is an error although the
  refund has been made exactly when the cap refuses (`CreditRuns.RefusedAfterRefundExactly`;
  input for both: `CreditRuns.SampleBonuses`).
- A key stays within its daily cap, whatever the amounts, exactly when no day of that key comes
  back after another one (`Ledger.CapsHoldExactly`; input: `Ledger.ReturningDayBreaksCap`).

## Model

| member | source | states |
|---|---|---|
| `Bytes.LeRoundTrip` | core/src/bytes.ts:1-32 | Writing k little-endian bytes and reading them back keeps a number modulo 256^k, and so keeps it exactly when it fits |
| `Bytes.LeWraps` | core/src/bytes.ts:1-32 | Writing k little-endian bytes keeps nothing of a number but its remainder modulo 256^k |
| `Bytes.LeDigits` | core/src/bytes.ts:1-32 | The i-th byte written is the i-th digit to the base 256 |
| `Bytes.ConcatBytes` | core/src/bytes.ts:34-43 | The measure-allocate-copy loop fills a fresh buffer with exactly the concatenation of its parts |
| `Bytes.ReadManyUndoes` | core/src/gateway_routes.ts:141-187 | A counted list is read back element by element, and the reader stops right behind it, whenever the element reader undoes the element encoder |
| `Bytes.FlattenInjective` | core/src/gateway_routes.ts:87-139 | A concatenation of self-delimiting encodings determines each encoding |
| `Bytes.CompareBytes` | core/src/gateway_routes.ts:71-85 | The comparison loop decides by the first differing byte, then by length |
| `Bytes.CmpBytesSigns` | core/src/outeset.ts:28-41 | The byte comparison is antisymmetric and is zero only for equal bytes |
| `Bytes.CmpBytesTransitive` | core/src/outeset.ts:28-41 | The byte comparison is transitive |
| `Bytes.CmpBytesExactly` | core/src/outeset.ts:28-41 | The byte comparison is lexicographic: at the first difference the smaller byte comes first, or the shorter list |
| `Sorting.SortSorted` | core/src/outeset.ts:28-41 | Sorting under a total preorder gives a sorted permutation |
| `Sorting.SortStable` | core/src/gateway_routes.ts:67-85 | The sort is stable: the tied elements of every class keep their order |
| `Sorting.OrderFreeExactly` | core/src/gateway_routes.ts:67-85 | What is written after sorting is the same for every order of the input if and only if tied elements are written alike |
| `Decimals.NumbersUnique` | solana/scripts/route_lib.ts:41-46 | Finite numbers, in plain or exponent form, have the same text if and only if they are equal |
| `Decimals.NumbersReadable` | solana/scripts/route_lib.ts:41-53 | The same in front of text that cannot continue a number |
| `Decimals.NumberMeans` | solana/scripts/route_lib.ts:43-46 | The text spells the number, digit by digit, with an exponent from 10^21 on and below 10^-6 only |
| `GatewayLoops.EncodeGatewayRoutesV1` | core/src/gateway_routes.ts:87-139 | The nested push loops produce exactly the specified bytes, or throw exactly when a checked field is out of range |
| `GatewayLoops.TargetParts` | core/src/gateway_routes.ts:87-139 | The target loop throws exactly when some data is too long, and otherwise pushes the targets in order |
| `GatewayLoops.DecodeGatewayRoutesV1` | core/src/gateway_routes.ts:141-187 | The offset-advancing loops compute the specified decoding, including the exception and not-a-number offsets |
| `Gateway.DecodeEncoded` | core/src/gateway_routes.ts:87-187 | Decoding an encoding returns the arranged value with exactly the unchecked fields truncated |
| `Gateway.RoundTripExactly` | core/src/gateway_routes.ts:87-187 | decode(encode(g)) is g, canonically sorted when asked, if and only if counts fit u16, seq and exp fit u64, set ids fit u32, kinds, priorities and flags fit a byte, and each exact label survives ascii() and the text decoder |
| `Gateway.AsciiIsStable` | core/src/gateway_routes.ts:50-65 | ASCII labels meet the label condition of the round trip |
| `Gateway.ReencodeStable` | core/src/gateway_routes.ts:87-187 | Re-encoding what a canonical encoding decodes to gives the same bytes |
| `Gateway.ComparatorSigns` | core/src/gateway_routes.ts:71-85 | The rule comparator is antisymmetric and is zero exactly for rules that agree in everything but flags |
| `Gateway.CompareRulesTransitive` | core/src/gateway_routes.ts:71-85 | The rule comparator is transitive |
| `Gateway.OrdersArePreorders` | core/src/gateway_routes.ts:67-85 | Both canonical comparators are total preorders |
| `Gateway.PatternUnique` | core/src/gateway_routes.ts:50-65 | Equal pattern bytes mean label lists that are equal up to ascii() folding each code unit, and conversely |
| `Gateway.LatinPatternUnique` | core/src/gateway_routes.ts:50-65 | For labels that ascii() leaves unchanged, equal pattern bytes mean equal label lists |
| `Gateway.OrderIndependentExactly` | core/src/gateway_routes.ts:67-139 | The canonical bytes are the same for every order of sets and rules if and only if sets of one id have one encoding and no two rules differ only in their written flags |
| `Layouts.GatewayLayout` | core/src/gateway_routes.ts:87-139 | Every field of an encoded GWRT buffer by offset, byte by byte, down to targets and labels |
| `Layouts.GatewayOrdered` | core/src/gateway_routes.ts:67-85 | Canonical sets ascend by id, and no rule stands behind one with fewer labels, earlier pattern bytes, a lower set or a lower priority |
| `Layouts.GatewayHeaderRead` | core/src/gateway_routes.ts:141-187 | A decoded GWRT buffer begins with magic and version, and its header says what was decoded |
| `Layouts.CutRules` | core/src/gateway_routes.ts:141-187 | A buffer cut inside its only rule returns garbled in a label or behind the number of labels, and throws before it |
| `Layouts.EncodersAcceptExactly` | core/src/outeset.ts:43-56 | Which values the two encoders refuse, on the fields |
| `RouteSets.EncodeRouteSetV1` | core/src/outeset.ts:43-82 | The record loop produces exactly the specified bytes and throws exactly on an out-of-range field |
| `RouteSets.DecodeRouteSetV1` | core/src/outeset.ts:84-113 | The decoding loop computes the specified decoding, signature present exactly when 64 bytes are left |
| `RouteSets.RoundTripExactly` | core/src/outeset.ts:43-113 | decode(encode(rs)) is rs, sorted when asked, signed or not, if and only if seq and exp fit u64 and the count fits u32 |
| `RouteSets.ComparatorSigns` | core/src/outeset.ts:28-41 | The record comparator is antisymmetric and is zero exactly for records that agree in everything but rr_class |
| `RouteSets.OrderIsPreorder` | core/src/outeset.ts:28-41 | The record comparator is a total preorder |
| `RouteSets.OrderIndependentExactly` | core/src/outeset.ts:28-82 | The canonical bytes are the same for every order of the records if and only if no two records differ only in rr_class |
| `RouteSets.SignedVerifies` | core/src/outeset.ts:119-138 | The signed bytes are the final canonical encoding without its last 64 bytes, and that encoding verifies under the matching key with and without the canonical check, also when seq or exp wrap |
| `RouteSets.CanonicalExactly` | core/src/outeset.ts:125-138 | Bytes pass the canonical check if and only if they are the canonical encoding of a signed route set, and then of the one they decode to |
| `RouteSets.TrailingDataShiftsPayload` | core/src/outeset.ts:125-138 | Trailing bytes are ignored by the decoder, refused by the canonical check, and without it move the payload that is verified |
| `Layouts.RouteSetLayout` | core/src/outeset.ts:43-82 | Every field of an encoded RSET buffer by offset, byte by byte |
| `Layouts.RecordsOrdered` | core/src/outeset.ts:28-41 | No canonical record stands behind one with a lower type, TTL or earlier data |
| `Layouts.DecodedIsEncoded` | core/src/outeset.ts:84-113 | Whatever decodes with a whole owner begins with the encoding of what it decodes to, and is signed if and only if 64 more bytes follow |
| `Layouts.VerifiesExactly` | core/src/outeset.ts:125-138 | Verification accepts if and only if the bytes decode to a signed set whose signature is the owner's over all but the last 64 bytes, and are canonical where asked for |
| `CanonicalJson.CanonicalizePrintsNormal` | solana/scripts/route_lib.ts:41-59 | canonicalize prints the value with keys sorted at every depth, and throws exactly when a non-finite number or an unsupported value occurs |
| `CanonicalJson.PrintsUnique` | solana/scripts/route_lib.ts:41-59 | Printed values are uniquely readable, also in front of text that cannot continue them |
| `CanonicalJson.NormalFormsUnique` | solana/scripts/route_lib.ts:41-59 | A meaning, objects read as maps, has one normal form |
| `CanonicalJson.CanonicalizeInjective` | solana/scripts/route_lib.ts:41-59 | Two values print the same text if and only if they are equal up to key order at every depth |
| `JsonLaws.CanonicalizeDenotes` | solana/scripts/route_lib.ts:41-59 | What is printed is JSON text as RFC 8259 has it for the value: its literals, numbers, strings that read back as themselves, arrays in order, and objects with every member once and ascending keys |
| `JsonLaws.BodyReads` | solana/scripts/route_lib.ts:47 | Read by section 7 of RFC 8259, a printed string is the string |
| `JsonLaws.EscapeForms` | solana/scripts/route_lib.ts:47 | Seven units have a short escape, other control units and lone surrogates one in four lower-case digits, all others none |
| `CanonicalJson.RouteIdsIdentify` | solana/scripts/route_lib.ts:61-65 | Routes that mean the same have one route id, and equal route ids mean equal routes unless the two texts collide under the hash |
| `Merkle.PairUp` | core/src/registry_merkle.ts:108-114 | The inner loop hashes neighbours together and a last unpaired node with itself |
| `Merkle.BuildTree` | core/src/registry_merkle.ts:102-118 | The loop builds all layers from the leaves to the root |
| `Merkle.BuildMerkleRoot` | core/src/registry_merkle.ts:54-60 | Returns the root of the sorted leaf hashes, or the hash of nothing |
| `Merkle.BuildProof` | core/src/registry_merkle.ts:62-83 | Returns the leaf, path and root of the first record of that name, or an empty proof |
| `Merkle.VerifyProof` | core/src/registry_merkle.ts:85-94 | Accepts exactly when folding the path from the leaf gives the root |
| `Merkle.PathFolds` | core/src/registry_merkle.ts:62-94 | The path of any position folds to the root and is as long as the tree is high |
| `Merkle.HeightIsLog` | core/src/registry_merkle.ts:102-118 | The height is the ceiling of the binary logarithm of the leaf count |
| `Merkle.LeavesExactly` | core/src/registry_merkle.ts:47-52 | The leaves are the hashes of name, line end and canonical text, in the order of the names |
| `Merkle.SmallTrees` | core/src/registry_merkle.ts:54-118 | The trees of none to three leaves and the proofs of one step, written out |
| `Merkle.BuiltProofVerifies` | core/src/registry_merkle.ts:62-94 | For every present name the built proof verifies against the root of the whole registry, proves that record, and has the height as its length |
| `Merkle.Soundness` | core/src/registry_merkle.ts:85-118 | A proof of the right length that verifies for a digest proves the leaf at the position its directions name by that position's own path, unless two hashed texts collide |
| `Merkle.SoundnessExactly` | core/src/registry_merkle.ts:85-118 | A verifying leaf is, by its own path, the one at the position the directions name if and only if it has 64 characters and the path has the tree's height, unless two hashed texts collide |
| `Merkle.EmptyLeafVerifies` | core/src/registry_merkle.ts:85-94 | The digest length is needed: the empty text verifies with a sibling of two leaves |
| `Merkle.InnerNodeVerifies` | core/src/registry_merkle.ts:85-94 | The proof length is needed: inner nodes verify with shorter paths |
| `Merkle.RootsCommit` | core/src/registry_merkle.ts:102-118 | Equal roots of equally many leaves force equal leaf lists, unless two hashed texts collide |
| `Merkle.RootsCommitRecords` | core/src/registry_merkle.ts:47-118 | Equal roots of equally many records mean equal records, unless two hashed texts collide |
| `Merkle.RepeatedLastLeaf` | core/src/registry_merkle.ts:102-118 | The count is needed: an odd list of three or more and the same list with its last leaf repeated share a root |
| `Merkle.TiesAlikeOneRoot` | core/src/registry_merkle.ts:54-118 | Whatever the hash does, records whose tied names hash alike have one root in every order |
| `Merkle.RootOrderFreeExactly` | core/src/registry_merkle.ts:54-118 | The root is the same for every record order if and only if records whose names tie hash alike |
| `Radix.StepIsMulAdd` | gateway/src/hosting/targets.ts:188-198 | One in-place carry pass turns the canonical digits of n into those of n times the factor plus the carry |
| `Radix.ConvertRoundTrip` | gateway/src/hosting/targets.ts:184-212 | Changing base and back with leading zeros kept is the identity if and only if some digit is non-zero |
| `Base58.Base58btc` | gateway/src/hosting/targets.ts:184-212 | The carry loops compute the leading ones and the base-58 digits of the number |
| `Base58.Base58Decode` | gateway/src/server.ts:773-796 | The carry loops compute the leading zeros and the bytes of the number, or refuse exactly a character outside the alphabet |
| `Base58.AlphabetIndexed` | gateway/src/server.ts:773-796 | indexOf finds every letter at its place in the alphabet and nothing else |
| `Base58.EncodeMeans` | gateway/src/hosting/targets.ts:184-212 | The letters are the base-58 digits of the number the bytes are, in the alphabet without 0, O, I and l, behind one 1 for each leading zero byte |
| `Base58.DecodeMeans` | gateway/src/server.ts:773-796 | Refused if and only if a character is no letter; else the same number with the same leading zeros |
| `Base58.BytesRoundTrip` | gateway/src/server.ts:773-796 | base58Decode(base58btc(b)) is b if and only if b has a non-zero byte; all-zero input comes back two bytes longer |
| `Base58.TextRoundTrip` | gateway/src/hosting/targets.ts:184-212 | base58btc(base58Decode(s)) is s if and only if s, in the alphabet, has a character other than 1 |
| `Base32.Base32LowerNoPad` | gateway/src/hosting/targets.ts:165-182 | The loop with its unmasked 32-bit accumulator computes section 6 of RFC 4648, lower case without padding, for every length |
| `Base32.EncodedLength` | gateway/src/hosting/targets.ts:165-182 | The text of n bytes has ceil(8n/5) characters |
| `Base32.EncodeMeans` | gateway/src/hosting/targets.ts:165-182 | The letters a-z2-7 are the base-32 digits of the number the bytes are, shifted by the fill bits |
| `Base32.EncodeInjective` | gateway/src/hosting/targets.ts:165-182 | Different bytes have different text |
| `Cid.MultihashStartsWithQ` | gateway/src/hosting/targets.ts:150-155 | The text of a 34-byte sha2-256 multihash has 46 characters and starts with Q |
| `Cid.FormsExactly` | gateway/src/hosting/targets.ts:150-155 | A 34-byte sha2-256 multihash is written in base 58, anything else as b and base 32 |
| `Cid.CidsDistinct` | gateway/src/hosting/targets.ts:150-155 | Two content identifiers have the same text if and only if they are equal, across both forms |
| `Uvarint.ReadUvarint` | gateway/src/hosting/targets.ts:133-148 | The loop with its 32-bit accumulator and shift count computes the specified scan |
| `Uvarint.ReadsEncoded` | gateway/src/hosting/targets.ts:133-148 | An encoded number is refused exactly from 2^64 on and read back as itself exactly below 2^31; below 2^35 the result is its signed 32-bit remainder, and the reader stops right behind it |
| `Uvarint.ReadsBits` | gateway/src/hosting/targets.ts:133-148 | Every number below 2^64 is read as the signed 32-bit word whose bit i is set if and only if some bit m of the number has (7 * (m div 7)) mod 32 + m mod 7 = i |
| `Quorum.OverlapRatio` | gateway/src/adapters/recursive.ts:102-111 | The counting loop gives the shared addresses over the smaller set |
| `Quorum.RatioPositive` | gateway/src/adapters/recursive.ts:102-117 | The ratio is positive exactly when an address is shared |
| `Quorum.RatioIsShare` | gateway/src/adapters/recursive.ts:102-111 | The ratio is symmetric, at most 1, and 1 if and only if one set holds the other |
| `Quorum.GroupByHash` | gateway/src/adapters/recursive.ts:303-308 | The buckets are exactly the rrset-hash classes, each in order, in the order in which the hashes first came |
| `Quorum.StrongestClass` | gateway/src/adapters/recursive.ts:303-310 | The first bucket after sorting is a class no other class exceeds, and of several such the one whose hash came first |
| `Quorum.OverlapCandidates` | gateway/src/adapters/recursive.ts:325-335 | The double loop pushes both members of each overlapping pair, pair after pair, exactly as specified |
| `Quorum.RowsFound` | gateway/src/adapters/recursive.ts:325-335 | What the double loop collects are exactly the members of overlapping pairs |
| `Quorum.UniqueByUrl` | gateway/src/adapters/recursive.ts:337-340 | The map loop keeps for each url the last candidate, at the place where the url first came |
| `Quorum.LastByUrlMeans` | gateway/src/adapters/recursive.ts:337-340 | The specified list has every url once, with its last value, in the order of first appearance |
| `Quorum.SelectBest` | gateway/src/adapters/recursive.ts:288-376 | Status, confidence, considered upstreams in order, the chosen one and the TTL for every input, or the failure |
| `Quorum.SelectionUnique` | gateway/src/adapters/recursive.ts:288-376 | That specification leaves one selection only |
| `Quorum.FailsExactly` | gateway/src/adapters/recursive.ts:288-376 | A selection fails if and only if no upstream says NXDOMAIN and none has an address; it is NOERROR if and only if one has |
| `Quorum.NxdomainExactly` | gateway/src/adapters/recursive.ts:361-373 | An NXDOMAIN selection considers exactly the upstreams that say so, in order, is medium from quorumMin of them on, and its TTL is their least one, 0 counting as 30, within 1 and 30 |
| `Quorum.ConfidenceExactly` | gateway/src/adapters/recursive.ts:302-359 | High if and only if quorumMin upstreams with addresses agree on a hash; medium if and only if they do not and two share an address, or the threshold is not positive and there are two; low otherwise |
| `Quorum.HighConsiders` | gateway/src/adapters/recursive.ts:302-322 | High confidence considers all that agree on one hash, a group no other exceeds, and of several the one whose first member came first |
| `Quorum.MediumConsiders` | gateway/src/adapters/recursive.ts:324-349 | Medium confidence considers the members of the pairs that share an address, pair after pair, one for each url |
| `Quorum.LowConsiders` | gateway/src/adapters/recursive.ts:351-358 | Low confidence considers the first of the fastest with an address, alone |
| `Quorum.ChoiceExactly` | gateway/src/adapters/recursive.ts:312-359 | The first of the fastest considered is chosen; the TTL is the least considered one, cut to the cap, to 120 for medium and 30 for low confidence, and at least 1 |
| `Quorum.OverlapIsSharing` | gateway/src/adapters/recursive.ts:325-335 | With a positive threshold two upstreams overlap exactly when they share an address |
| `Quorum.FastestIsMinimum` | gateway/src/adapters/recursive.ts:312-354 | The chosen upstream has the least round-trip time, and is the first that has |
| `Quorum.ClassificationExact` | gateway/src/adapters/recursive.ts:288-376 | High if and only if a class has quorum, medium if and only if none has and two upstreams share an address, low if and only if neither; the TTL lies in 1..cap and exceeds no considered TTL |
| `Cname.BucketByName` | gateway/src/adapters/recursive.ts:163-168 | The index holds exactly the records of each name, in order |
| `Cname.NormalizeAndExtract` | gateway/src/adapters/recursive.ts:124-206 | The loops compute the specified extraction for every status code |
| `Cname.FollowCnames` | gateway/src/adapters/recursive.ts:170-182 | The ten-step loop computes the CNAME walk |
| `Cname.WalkFollowsEdges` | gateway/src/adapters/recursive.ts:170-182 | The walk follows CNAME edges and expands no owner name twice |
| `Cname.ExtractionSound` | gateway/src/adapters/recursive.ts:124-206 | At most ten steps; every answer has the queried type and sits at the final or the original name; the TTL is a positive lower bound |
| `Cname.AnswersExactly` | gateway/src/adapters/recursive.ts:184-191 | A successful answer holds every complete record of the queried type at the name the chain ends in, in order and as often as it stands there, or, when there is none, those at the queried name, and nothing else |
| `Cname.ChainExactly` | gateway/src/adapters/recursive.ts:163-182 | The chain follows the first CNAME record of each name and ends only where there is none, where a name comes again, or after ten steps |
| `Cname.AddressesExactly` | gateway/src/adapters/recursive.ts:193-194 | The addresses are the data of the answers, each once and in collation order; the TTL is the least one, or 60 without answers |
| `Cname.StatusExactly` | gateway/src/adapters/recursive.ts:139-161 | The status follows the code alone, and what is no success is empty with the fixed TTLs 30 and 1 |
| `Cname.HashedAlikeExactly` | gateway/src/adapters/recursive.ts:195 | Two successful answers hash one text if and only if type, final name and addresses are the same |
| `Cname.UpstreamTtlPositive` | gateway/src/adapters/recursive.ts:208-262 | What an upstream query returns has a TTL of at least 1, as the TTL bounds of the selection require |
| `Cname.OrderIndependentExactly` | gateway/src/adapters/recursive.ts:124-206 | Permuting the Answer section changes none of chain, addresses, TTL and hash if and only if no name on the walk has CNAME records that disagree |
| `Cname.SingleCnamesDoNotFork` | gateway/src/adapters/recursive.ts:170-182 | At most one CNAME record a name is enough for that |
| `UpstreamPools.UpstreamPool.ClaimNext` | gateway/src/adapters/recursive.ts:276-282 | A worker takes the next index, or leaves its loop |
| `WorkerPool.ConcurrencyExactly` | gateway/src/adapters/recursive.ts:272 | As many workers as configured, but no more than urls and at least one |
| `WorkerPool.EveryInterleaving` | gateway/src/adapters/recursive.ts:264-286 | In every interleaving an index is claimed once and fetched by its claimant only, at most the limit are in flight, and at the join out[i] is the result for urls[i] |
| `WorkerPool.StepUsesWork` | gateway/src/adapters/recursive.ts:264-286 | Every step uses up work, so every run ends |
| `WorkerPool.StuckOnlyWhenJoined` | gateway/src/adapters/recursive.ts:264-286 | A pool that has not joined can always step |
| `Adapter.RecursiveAdapter.EvictIfNeeded` | gateway/src/adapters/recursive.ts:400-405 | The delete loop removes the oldest entries beyond the bound |
| `Adapter.RecursiveAdapter.ResolveRecursive` | gateway/src/adapters/recursive.ts:452-499 | The synchronous part answers at once or queues the asker, starting at most one refresh a key |
| `Adapter.RecursiveAdapter.RefreshSettled` | gateway/src/adapters/recursive.ts:407-518 | A settlement updates cache and flights and answers everyone awaiting it |
| `Cache.EvictionKeepsYoungest` | gateway/src/adapters/recursive.ts:400-405 | Eviction leaves exactly what fits, and nothing it drops is younger than what it keeps |
| `Cache.RefreshedSurvives` | gateway/src/adapters/recursive.ts:400-434 | From a cache within its bound a refreshed key survives its own eviction |
| `Cache.RunSound` | gateway/src/adapters/recursive.ts:378-518 | In every run the cache stays within its bound with one slot a key, each slot being the last successful refresh of its key; every flight was started by an ask that found none, a prefetch on the fresh entry it holds, and has not settled since; every waiter came by an ask for its key, name and type that found nothing fresh, and awaits a flight under way |
| `Cache.EveryAnswerAccounted` | gateway/src/adapters/recursive.ts:452-518 | Every answer, by id, name, type, payload and TTL: a cache answer is the newest refresh of its key, still fresh, with exactly the remaining TTL; a fresh one carries the settled result under the name that started the flight; a stale one is what its own asker found, by staleUntil, or what the prefetch its asker joined began on, fresh then; errors reach only askers with neither |
| `Cache.AnswerSettled` | gateway/src/adapters/recursive.ts:407-518 | Every resolved answer of a run goes back to a successful settlement of its key and carries what was selected there: answers, status, confidence, hash, chosen upstream, the audit of all upstreams in order, and what is left of the TTL |
| `Cache.SlotSettled` | gateway/src/adapters/recursive.ts:407-436 | So does every cache entry, with the times of that settlement |
| `Cache.FlightStartsExactly` | gateway/src/adapters/recursive.ts:464-499 | A key without a refresh under way gets one with the first ask that finds nothing fresh, or less than five seconds or the prefetch fraction of the TTL left, and with no other |
| `Cache.UnsupportedExactly` | gateway/src/adapters/recursive.ts:454-457 | A and AAAA in any letter case are served, and nothing else |
| `Cache.CacheBounded` | gateway/src/adapters/recursive.ts:400-405 | In every run the cache holds at most the configured number of entries, 50000 by default |
| `Cache.WaiterJoins` | gateway/src/adapters/recursive.ts:464-499 | A waiter awaits the flight that was under way when it asked, or the one its ask started |
| `Cache.FailureAnswersExactly` | gateway/src/adapters/recursive.ts:464-518 | When a refresh fails, a waiter is told an entry if and only if what it found was still usable or a prefetch of its key was under way when it asked |
| `Cache.AnsweredOnce` | gateway/src/adapters/recursive.ts:452-518 | In every run, asks are answers given plus askers still waiting |
| `Cache.RefreshStays` | gateway/src/adapters/recursive.ts:407-436 | Right after a successful refresh its key is cached with that refresh |
| `Cache.CacheIsLastRefresh` | gateway/src/adapters/recursive.ts:407-436 | While no more keys than fit were refreshed, the cache is exactly the map of last successful refreshes |
| `Cache.KeyInjective` | gateway/src/adapters/recursive.ts:390-392 | Two supported lookups share a cache key only if type and twice-normalized name agree |
| `Names.NormTwiceExactly` | gateway/src/adapters/types.ts:35-40 | Normalizing a plain name again changes it if and only if, trimmed, it ends in a dot behind a dot or a blank |
| `Names.SameCoreExactly` | gateway/src/adapters/types.ts:35-40 | Two plain normalized names are normalized alike again if and only if they are one core, followed by a dot and then blanks, or by blanks alone where the core ends in neither dot nor blank |
| `Names.NormExactly` | gateway/src/adapters/types.ts:35-40 | Blanks around a plain name, one dot at its end and the case of its letters do not count, and nothing else changes |
| `Names.BlanksExactly` | gateway/src/adapters/types.ts:35-40 | What trimming removes, code unit by code unit, as ECMA-262 lists it |
| `Cache.FoundIsAskedFor` | gateway/src/adapters/recursive.ts:452-462 | A found entry was fetched for the asked type and under a name asked for before, which normalizes to the same key name; it is the asked name if the normalizer is idempotent |
| `Cache.SharedKeysExactly` | gateway/src/adapters/types.ts:35-40 | Two lookups of plain names (ASCII, at most one @) share a key if and only if their types agree and the names they are queried under are one core, followed by a dot and then blanks, or by blanks alone where the core ends in neither dot nor blank |
| `Cache.FoundOwnName` | gateway/src/adapters/types.ts:35-40 | In a run over plain names of which none, trimmed, ends in a dot behind a dot or a blank, a found entry was fetched for the asker's own name |
| `Cache.DoubledDotSharesKey` | gateway/src/adapters/types.ts:35-40 | The normalizer is not idempotent: a name with two trailing dots shares the key of the name with one, though they are queried apart |
| `Cache.BlankBeforeDotSharesKey` | gateway/src/adapters/types.ts:35-40 | A name with a blank before its last dot is queried with the blank and cached under the key of the name without both |
| `Cache.SharedKeyMisleads` | gateway/src/adapters/recursive.ts:452-462 | Of two names with one key, who asks for one after the other was fetched finds the entry fetched for the other |
| `Cache.FoundOwnNameExactly` | gateway/src/adapters/types.ts:35-40 | For any set of plain names: in every run over them, whatever is found was fetched for the asker's own name, if and only if no two of them are queried apart and have one core |
| `Cache.PendingPrefetchOutlivesStaleUntil` | gateway/src/adapters/recursive.ts:464-481 | A concrete run in which an asker past staleUntil joins a pending prefetch and is told the stale entry |
| `AttackMode.EvaluateAttackMode` | packages/attack-mode/src/index.ts:107-190 | Mode, score, reasons and memory for every input, as the branch chain computes them |
| `AttackMode.WayInExactly` | packages/attack-mode/src/index.ts:122-167 | From NORMAL and SUSPICIOUS without a disagreement: UNDER_ATTACK if and only if invalid receipts are over their limits, or flips together with rpc failures or with both lesser signals; SUSPICIOUS if and only if not and rpc failures, flips or both lesser signals are; else NORMAL |
| `AttackMode.WayOutExactly` | packages/attack-mode/src/index.ts:157-187 | From the severe modes: all quiet for long enough is NORMAL, all quiet is RECOVERY, anything else stays, except that RECOVERY follows the signals |
| `AttackMode.DisagreementExactly` | packages/attack-mode/src/index.ts:115-120 | A disagreement isolates with score 100 and forgets; without one the memory becomes the time of an all-quiet evaluation |
| `AttackMode.ReasonsExactly` | packages/attack-mode/src/index.ts:115-156 | The reasons are the signals over their limits, each once and in a fixed order; the score is their weight up to 100 |
| `AttackMode.GraveFreezes` | packages/attack-mode/src/index.ts:107-190 | In every run and from every state, an evaluation with signals grave enough for UNDER_ATTACK leaves writes frozen |
| `AttackMode.PoliciesTighten` | packages/attack-mode/src/index.ts:55-105 | Writes are frozen, and staked receipts required, in UNDER_ATTACK and ISOLATED only; NORMAL is the laxest mode in everything |
| `AttackMode.FrozenUntilFirstZero` | packages/attack-mode/src/index.ts:107-190 | After a disagreement writes stay frozen until the first zero-score evaluation, which lifts the freeze |
| `AttackMode.MemoryIsLastZero` | packages/attack-mode/src/index.ts:157-190 | The memory is the time of the last zero-score evaluation since it was emptied |
| `AttackMode.NormalAfterDisagreement` | packages/attack-mode/src/index.ts:107-190 | A run from a disagreement back to NORMAL visits SUSPICIOUS or holds two successive zero-score evaluations far enough apart |
| `AttackMode.RecoveryEndsExactly` | packages/attack-mode/src/index.ts:157-190 | UNDER_ATTACK, ISOLATED or RECOVERY steps to NORMAL if and only if this and the last zero-score evaluation since the disagreement are far enough apart and the remembered time is not 0 |
| `AttackMode.FrequentChecksNeverRecover` | packages/attack-mode/src/index.ts:157-190 | If zero-score evaluations always come closer together, none of these modes ever steps to NORMAL |
| `AttackMode.StabilityContinuousExactly` | packages/attack-mode/src/index.ts:157-190 | When a severe mode steps to NORMAL, only zero-score evaluations lie between the remembered one and this if and only if the remembered one is the evaluation just before |
| `AttackMode.StableForSecsExactly` | packages/attack-mode/src/index.ts:157-190 | Then, with times in order, the last recoveryStableSecs saw zero scores only if and only if every evaluation since the remembered one lies outside of them |
| `AttackMode.AttackBetweenQuietEvaluations` | packages/attack-mode/src/index.ts:157-190 | An attack seen between two quiet evaluations does not keep the mode from NORMAL |
| `TokenBucket.TokenBucketLimiter.Allow` | services/traffic-oracle/src/rate_limit.ts:15-29 | The answer and the whole new map of buckets |
| `TokenBucket.AllowedExactly` | services/traffic-oracle/src/rate_limit.ts:15-29 | A call is allowed if and only if, counted back to any earlier call of its key, what was allowed and this one fit into the capacity and what the forward steps of the clock refilled |
| `TokenBucket.WindowBound` | services/traffic-oracle/src/rate_limit.ts:7-30 | Over any stretch of a run a key is allowed at most capacity plus what the stretch refills |
| `TokenBucket.AnyClockBound` | services/traffic-oracle/src/rate_limit.ts:7-30 | For any clock, a key is allowed at most capacity plus what its own forward steps refill |
| `TokenBucket.StepBackBreaksBound` | services/traffic-oracle/src/rate_limit.ts:15-29 | Wherever the clock goes back, sane limits exist under which two calls break the window bound |
| `TokenBucket.WindowsBoundedExactly` | services/traffic-oracle/src/rate_limit.ts:7-30 | All sane limits, windows and keys keep the window bound if and only if the times never decrease |
| `TokenBucket.KeysAreIndependent` | services/traffic-oracle/src/rate_limit.ts:15-29 | What a key is answered depends on its own bucket and calls only |
| `TokenBucket.SpacedCallerNeverRefused` | services/traffic-oracle/src/rate_limit.ts:7-30 | With capacity at least 1, a caller that keeps the spacing is never refused |
| `Ledger.SumUpdate` | coordinator/src/routes/receipts.ts:110-113 | Writing one account changes the sum by the difference |
| `Ledger.CapExactly` | coordinator/src/server.ts:663-706 | The windows hold exactly what each key was given since its last charge of another day, and that decides the next charge |
| `Ledger.AwardsCapped` | coordinator/src/server.ts:663-706 | Awards of one key on one day never exceed the cap, as long as no day of that key comes back after another |
| `Ledger.ReturningDayBreaksCap` | coordinator/src/server.ts:663-706 | Where a day of a key comes back after another day, amounts exist, for every positive cap, that award twice the cap on that day |
| `Ledger.CapsHoldExactly` | coordinator/src/server.ts:663-706 | For the times and keys of a run, all non-negative amounts and all caps keep a key within its cap if and only if no day of that key comes back |
| `Credits.Coordinator.CommentHold` | coordinator/src/routes/comments.ts:61-108 | Checks, both rate limits, cooldown and balance in their order, and the whole new state |
| `Credits.Coordinator.CommentSubmit` | coordinator/src/routes/comments.ts:110-124 | Which error, or the submitted hold |
| `Credits.Coordinator.FinalizeHold` | coordinator/src/routes/comments.ts:126-155 | Which error, or the refunded wallet and the closed hold |
| `Credits.Coordinator.CommentFinalize` | coordinator/src/server.ts:407-463 | finalizeHold followed by bonus or forfeit, and the whole new state |
| `Credits.Coordinator.ApplyDailyCap` | coordinator/src/server.ts:663-676 | The answer and the new windows, reset on a new day also when refused |
| `Credits.Coordinator.ApplyPoolCap` | coordinator/src/server.ts:678-691 | The same for site pools |
| `Credits.Coordinator.ApplyBonusCap` | coordinator/src/server.ts:693-706 | The same for bonuses |
| `Credits.Coordinator.ReceiptArrives` | coordinator/src/server.ts:325-334 | The balance is remembered and the request counted before the first await |
| `Credits.Coordinator.ReceiptChecked` | coordinator/src/server.ts:334-351 | Credit, record and cap, or the rollback to the remembered balance |
| `Credits.Coordinator.NodeReceiptVerified` | coordinator/src/server.ts:555-566 | One credit to the site pool within the pool cap |
| `Credits.Coordinator.SpendCredits` | coordinator/src/routes/credits.ts:7-12 | The balance less the amount, or the refusal |
| `RateLimits.HoldLimitedExactly` | coordinator/src/routes/comments.ts:44-80 | In every run a well-formed hold is refused for its rate if and only if the window of its wallet holds more of them than allowed, or that of its site more that passed their wallet's limit, and then moves no credits |
| `RateLimits.ReceiptLimitedExactly` | coordinator/src/routes/receipts.ts:26-52 | In every run a valid receipt is refused for its rate if and only if it is not on record and the window of its node holds more such receipts than allowed |
| `RateLimits.OpeningMeans` | coordinator/src/routes/comments.ts:44-59 | A window opens with the first request, or with one more than a minute after the request that opened the window before; all later ones come within a minute of it |
| `RateLimits.NextCount` | coordinator/src/routes/comments.ts:44-59 | A request more than a minute after the opening one starts a new count at one; any other goes on counting |
| `RateLimits.AtMostPass` | coordinator/src/routes/comments.ts:44-76 | Of all holds in one window of a wallet no more than the limit pass |
| `CoordinatorLaws.HoldPlacedExactly` | coordinator/src/routes/comments.ts:61-108 | In every run a hold is placed if and only if it is well-formed, within both rates, past the cooldown of the wallet's last hold and covered; the first of these that fails is the answer; it moves the amount out of the wallet and nothing else |
| `CoordinatorLaws.HoldGoesBack` | coordinator/src/routes/comments.ts:61-108 | Every hold of a run has the wallet, amount and term of the request that placed it |
| `CoordinatorLaws.SubmitExactly` | coordinator/src/routes/comments.ts:110-124 | A submission is taken if and only if its hash is not blank and its ticket is known and live; it changes status and hash of that hold only |
| `CoordinatorLaws.RulingErrorsExactly` | coordinator/src/routes/comments.ts:126-145 | Which error a ruling gets, on its texts and the hold's term |
| `CoordinatorLaws.ApprovalPaysExactly` | coordinator/src/server.ts:422-440 | An approval gives the wallet the amount, and its multiple up to the configured maximum if the cap of the day and the pool allow |
| `CoordinatorLaws.ForfeitGoesExactly` | coordinator/src/server.ts:441-448 | Spam and trash divide the amount between pool and treasury, in halves unless configured |
| `CoordinatorLaws.ReceiptTakenExactly` | coordinator/src/server.ts:325-345 | What a receipt leaves when it comes: a pending request that remembers the balance, unless refused |
| `CoordinatorLaws.ReceiptPaysExactly` | coordinator/src/server.ts:345-351 | The end of its request pays by kind within the cap of the day and records it; over the cap the balance is the remembered one and the record is gone |
| `CoordinatorLaws.NodeReceiptPaysExactly` | coordinator/src/server.ts:555-566 | One credit to the pool of the site within the cap, and nothing else |
| `CoordinatorLaws.SpendExactly` | coordinator/src/routes/credits.ts:7-12 | A positive amount within the balance is taken, anything else refused |
| `CoordinatorLaws.AllowedExactly` | coordinator/src/server.ts:663-706 | In every run a charge is allowed if and only if what its key was given since its last charge of another day leaves room for it under the cap |
| `CoordinatorLaws.DayExactly` | coordinator/src/server.ts:663-664 | Two moments are on one day if and only if no multiple of 24 hours lies between them |
| `CreditRuns.StepTotal` | coordinator/src/server.ts:407-463 | What each request does to wallets, open holds, pools and treasury together, exactly |
| `CreditRuns.ConservesExactly` | coordinator/src/server.ts:325-463 | A request conserves credits if and only if it is none of four kinds: reopening a closed ticket, ruling on one again, a padded spam or trash verdict, a rollback over a balance that moved meanwhile |
| `CreditRuns.RunTotal` | coordinator/src/server.ts:325-463 | In every run the total is what was minted less what was spent plus the drift of those four kinds |
| `CreditRuns.Conservation` | coordinator/src/server.ts:325-463 | In a run without them the total is what was minted less what was spent |
| `CreditRuns.RunSolvent` | coordinator/src/routes/comments.ts:61-155 | In every run, leaks included, no balance, pool or treasury is negative and every hold is positive |
| `CreditRuns.AwardsWithinCaps` | coordinator/src/server.ts:663-706 | In every run, receipts, node receipts and bonuses stay within their caps for each wallet, site and day, as long as no day comes back for that wallet or site |
| `CreditRuns.ClockInOrderSuffices` | coordinator/src/server.ts:663-706 | No day comes back for anyone in a run whose day never goes back |
| `CreditRuns.ReceiptPaidExactly` | coordinator/src/server.ts:325-351 | In every run, what a receipt id was paid is its delta for each accepted completion within the cap; with a positive delta it is paid at most once if and only if it completes at most once |
| `CreditRuns.RecordIsIgnored` | coordinator/src/server.ts:334-351 | What a receipt's completion does to money, windows, rates and the answer does not depend on which receipts were recorded |
| `CreditRuns.ReplayPaysAgain` | coordinator/src/routes/receipts.ts:26-52 | A receipt seen before is accepted without the rate limit and paid again |
| `CreditRuns.ReceiptEarnsTwice` | coordinator/src/server.ts:325-351 | A concrete run in which one receipt, sent twice, earns 2 for a delta of 1 |
| `CreditRuns.RulingMoves` | coordinator/src/server.ts:422-448 | A ruling moves the amount to the wallet, with any bonus taken from the pool, or to pool and treasury, to the last fraction |
| `CreditRuns.RulingLeaves` | coordinator/src/server.ts:422-448 | No other wallet or pool changes |
| `CreditRuns.RulingCloses` | coordinator/src/routes/comments.ts:126-155 | Of the holds only the ticket changes, and it is closed with the verdict |
| `CreditRuns.ChargedUnpaidExactly` | coordinator/src/server.ts:426-440 | A bonus is charged to its window and nothing is paid if and only if the cap allows it and the pool holds less |
| `CreditRuns.RefusedAfterRefundExactly` | coordinator/src/server.ts:426-440 | A ruling with a bonus answers with an error if and only if the bonus cap refuses, and then the amount alone has been refunded |
| `CreditRuns.SampleBonuses` | coordinator/src/server.ts:426-440 | One approval over an empty pool: with a cap of 1 or more the bonus is charged and unpaid, with a smaller cap the answer is an error after the refund |
| `CreditRuns.ApprovedTwiceMints` | coordinator/src/routes/comments.ts:126-155 | A concrete run in which reporting one approval twice leaves a wallet that earned 1 with 2 |
| `CreditRuns.PaddedSpamVanishes` | coordinator/src/server.ts:441-448 | A verdict with a blank in front makes the amount of any open ticket vanish |
| `Wire.PacketRoundTrip` | core/src/wire.ts:49-100 | A packet encodes exactly when its header fits, and decodePacket gives it back whatever follows |
| `Wire.PacketCanonical` | core/src/wire.ts:70-100 | Accepted bytes are the encoding of what they decode to, followed by what was ignored |
| `Wire.PayloadReread` | core/src/wire.ts:112-271 | Whatever a payload encoder gives, its decoder reads back as the payload with wrapped 64-bit fields and messages as their text encoding leaves them |
| `Wire.PayloadRoundTripExactly` | core/src/wire.ts:112-271 | Each payload decoder undoes its encoder if and only if 64-bit fields fit, and a message is not empty and survives its text encoding |
| `Wire.SafeParserExact` | core/src/wire_safe.ts:4-44 | Any packet with an encodable payload is accepted exactly when it and the body it decodes to are within the limits, and then as decodePacket gives it |
| `Layouts.PacketLayout` | core/src/wire.ts:49-91 | Every field of an encoded packet by offset |
| `Layouts.PayloadLayout` | core/src/wire.ts:112-271 | Every field of each encoded payload by offset, and the message type numbers |
| `Layouts.WireAcceptsExactly` | core/src/wire.ts:49-271 | Which headers and payloads the encoders refuse, on the fields |
| `Layouts.PayloadAccepted` | core/src/wire.ts:112-271 | Bytes accepted as query, answer, anchor or upload are the encoding of what they decode to; the other payloads have the lengths they should |
| `Layouts.SafeParserExactly` | core/src/wire_safe.ts:4-44 | On any bytes: accepted if and only if they are a packet within the limits whose body, for four types, decodes and is within its own limit |
| `Layouts.LimitsExactly` | core/src/wire_safe.ts:4-44 | Which limit bounds which body |

## Left out

- Hashes and signatures: functions given as parameters. Hash results are stated "unless two of the texts actually hashed collide"; signing assumes that verify accepts what sign gives for the matching key.
- String normalization (`normalizeHost`, `normalizeRegistryName`, punycode; `normalizeNameForHash` of names with characters outside ASCII or with several @), `localeCompare`, `TextEncoder` and `TextDecoder`: parameters, with the law needed stated where it is used. `toUpperCase` and `toLowerCase` are modelled on ASCII, `trim` on the white space of ECMAScript.
- Clocks, random ids, HTTP, authentication, passports and challenge look-ups: parameters of the step they decide.
- File persistence (`persist`, `saveState`, `loadCache`): runs start from empty state; what a restart reloads is not modelled.
- Error messages: an exception is one value; the coordinator's refusals are kept apart.
- `Decimals.NumbersUnique`: a finite number is given by its sign and shortest decimal digits, both zeros as one; how an engine finds these digits in a double is not modelled.
- `Gateway.DecodeEncoded`: for 65536 or more sets or rules the written count wraps and the decoder takes sets for rules; what it then returns is not described, only that it is not the value (`Gateway.RoundTripExactly`).
- `GatewayLoops.DecodeGatewayRoutesV1`: when a label runs past the end of the buffer the offset is not a number; that outcome is modelled, the half-read contents are not.
- `canonicalizeRecord` and `normalizeRecordEntries` of the registry: a record's canonical text is a field of the model's record.
- `Cname.NormalizeAndExtract`: numeric type codes are taken as already mapped by `mapType`; the HTTP request around it and its timeout (`queryOneUpstream`) are not modelled, only what it returns.
- `Adapter.RecursiveAdapter.RefreshSettled`: the settlement of a refresh, its `finally` deletes and the continuations awaiting it are one step; the microtask order between them is not modelled.
- `Credits.Coordinator.ReceiptChecked`: from the last signature check on, `/receipts` is one step; `siteReceipts`, the log behind the pools, is not modelled.
- `TokenBucket.WindowBound`, credit amounts, percentages and the prefetch fraction: real numbers instead of floating point, times as integers.
- `parseHostingTarget`, `decodeEnsContenthash` and the text-record selection: regular expressions and single-branch selection around the conversions modelled here.
- `core/src/anchor.ts`, vouchers, the escrow and governance scripts, the treasury policy: fixed layouts and one-line checks that would add only easy members.
- The user interfaces, plugins and SDKs.
