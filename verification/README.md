# A verified model of the audit store

The system stores cell states addressed by tenant, H3 cell and epoch. A state is put into canonical JSON,
hashed and signed; the hashes of an epoch are sealed under a Merkle root; a reader returns a state with its
path to that root, and several independent programs check the bundle offline. This project models that
pipeline, statement by statement where processes interleave, and proves what it is meant to guarantee. Beside
it stand the lab-record verifier, the demo rate limiter, the tile projection, tenant scoping over pooled
connections and the signed timestamps.

BLAKE3 is an arbitrary function from byte strings to 32 bytes and is never assumed injective: every soundness
result ends in "or these two explicit byte strings collide". Ed25519 is an arbitrary predicate.

| files | subject |
|---|---|
| `Merkle`, `EpochTree`, `OfflineVerifiers`, `Provenance` | the epoch tree, its proofs, and the verifiers that fold them |
| `Json`, `Text`, `CanonicalJson`, `CanonicalMeaning`, `RenderTools`, `Attestations` | JSON text and its reader, canonical forms, content and claim hashes |
| `Sorting`, `Substations`, `EpochTables`, `SeedPlan`, `SeedRun`, `SeededContent` | what a seeder computes and writes, as sequential code |
| `Reseeding` | writing epochs over tables of any origin |
| `EpochMachine`, `EpochProofs`, `EpochTheorems`, `EpochLiveness` | any number of seeders and readers interleaved over one database |
| `Audit` | the whole trail composed, and what a root says about payloads |
| `Regions`, `Tenancy` | the cell queries, and row-level security over a connection pool |
| `Base64Url`, `LabVerify`, `SignedTexts`, `Timestamps` | lab records: encoding, chain verdict, signed text, order of timestamps |
| `Vectors` | known answers: the repository's own test cases, those of the standards, constants in other units |
| `RateLimit`, `TileProjection`, `NewtonBasin` | the fixed-window limiter; the bilinear map, its Newton inverse and where that converges |

## What the code does, where its documentation says more

- An audit bundle shows that a content hash was sealed at a position, if three things are checked that the
  offline verifiers do not check: that the index is a natural number below the cell count, that the path has the
  tree's depth, and that the content hash decodes to 32 bytes. Without the first, the last of an odd number of
  leaves is accepted one index further on (`EpochTree.IndexBeyondCountAccepted`), and -1 and 0.5 fold like 0
  (`OfflineVerifiers.IndicesThatFoldAlike`). Without the second, inner nodes are accepted
  (`Merkle.ShorterProofAcceptsInnerNode`). Without the third, two leaves can be cut in another place
  (`OfflineVerifiers.LeavesCutElsewhereAccepted`). With all three, acceptance is exact, whatever the lengths of
  the siblings (`OfflineVerifiers.CheckedBundleShowsLeaf`, `Audit.AcceptedBundleIsStored`). The Rust verifier's
  types give the third (`EpochTree.AcceptanceIsPosition`).
- The SDK verifier takes the leaf count, but its layer counter decides nothing: all folds are one function.
- The offline verifiers' hex decoder throws only for an odd number of UTF-16 code units, and reads every pair as
  `parseInt` does: "5g" is 5, "g5" is 0, and so is a character above U+FFFF
  (`OfflineVerifiers.CharacterAboveBmpIsAByte`). The texts that are the hex of what they decode to are exactly
  those of an even number of lower-case digits (`OfflineVerifiers.HexUnhex`).
- Seeding again is harmless while the fixture is the same. Over an epoch that exists, changed rows leave the
  stored root and count as they were, so the epoch stays complete exactly when no row is inserted
  (`Reseeding.RerunKeepsEpoch`).
- The root binds the leaf list only together with its length (`EpochTree.SealedRootBindsLeaves`,
  `Merkle.OddListAndRepeatShareRoot`).
- The limiter's hint is cut down to whole seconds, so waiting exactly that long is enough only when the time
  left is a whole number of seconds or no more than one (`RateLimit.HintPlusOneSuffices`). One second more is,
  unless the refused call's instant, taken before the lock, lay more than a second before the window.
- The lab verifier does not always resolve to a verdict. Its promise is rejected when a certificate text is
  `null`, and when a value that is turned into text for a date or a message cannot be: an object with a
  `toString` field of its own, or an array holding one. Only the signature checks are guarded. With
  `"not_before": {"toString": 0}` no certificate is null and the promise is still rejected
  (`LabVerify.DateWithoutTextRejects`); `LabVerify.VerifyLabRecord` gives the exact condition.
- A good lab record's signer is reached from the trust root by two signed certificates; this is read off the
  verdict's definition (`LabVerify.SignerIsDelegated`).
- Where the policies bind its role, a query that does not go through `tx_with_tenant` sees no row at all
  (`Tenancy.TenantIsolation`). The seeder's own tenant check (crates/seed-data/src/main.rs:505-515) is such a
  query, so under such a role it can only report the tenant as missing.

## Model

| member | source | states |
|---|---|---|
| Merkle.DepthIsLeast | crates/mobydb-client/src/merkle.rs:66-87 | a proof's length is the least d with 2^d at least the number of leaves, the same for all leaves |
| Merkle.RootIsTree | crates/seed-data/src/main.rs:521-541 | hashing layer by layer gives the root of the complete binary tree of that depth, defined top down without layers, whose missing halves repeat the others |
| Merkle.PaddingKeepsParents | crates/mobydb-client/src/merkle.rs:67-71 | appending the last node to an odd layer leaves the layer above as it was |
| Merkle.JoinIsParent | crates/mobydb-client/src/merkle.rs:73-86 | joining a node with its sibling by index parity gives its parent, at every index whatsoever |
| Merkle.HonestPathAccepted | crates/mobydb-client/src/merkle.rs:96-126 | the path of any position folds to the root, also from every index that lands on that position |
| Merkle.AcceptedIsHonest | crates/mobydb-client/src/merkle.rs:96-126 | an accepted node with a path of the tree's depth is the leaf at that position with its honest path, or the computed forgery collides |
| Merkle.ShorterProofAcceptsInnerNode | crates/mobydb-client/src/merkle.rs:96-126 | without the length check an inner node passes as a leaf with the rest of the path |
| Merkle.EqualRootsAgree | crates/seed-data/src/main.rs:521-541 | lists of equal depth with one root agree at every position, or part in a collision |
| Merkle.RootBindsList | crates/seed-data/src/main.rs:521-541 | for lists of one length the root determines the list, up to a collision |
| Merkle.AgreeingListsShareRoot | crates/seed-data/src/main.rs:521-541 | conversely, lists of equal depth that agree at every position share their root |
| Merkle.OddListAndRepeatShareRoot | crates/seed-data/src/main.rs:527-530 | for every odd n above 1, repeating the last leaf does not change the root |
| EpochTree.MerkleRoot | crates/seed-data/src/main.rs:521-541 | the loop with in-place padding computes the root of the layered definition, the zero digest for no leaves |
| EpochTree.HashLayer | crates/seed-data/src/main.rs:531-538 | hashing a padded layer in pairs gives the next layer |
| EpochTree.Siblings | crates/mobydb-client/src/merkle.rs:63-89 | the loop that pads, records and hashes returns exactly the sibling path of the index |
| EpochTree.LeafLayer | crates/mobydb-client/src/merkle.rs:47-61 | leaf hashes are taken over unchanged, and any that is not 32 bytes is an error |
| EpochTree.ProofFor | crates/mobydb-client/src/merkle.rs:32-90 | the honest path of the first leaf with the key, or the error for an empty list, a missing key or a hash of the wrong length |
| EpochTree.EveryKeyHasAcceptedProof | crates/mobydb-client/src/merkle.rs:32-90 | for every non-empty leaf list and every key in it the proof is accepted at the key's first index |
| EpochTree.VerifyProof | crates/mobydb-client/src/merkle.rs:96-126 | the verifier accepts exactly when the fold meets the root; the layer counter, returned as a ghost list, is the layer width at every step and decides nothing |
| EpochTree.WidthOfLayer | crates/mobydb-client/src/merkle.rs:105-122 | the width the counters follow is the width of the builder's layer at each level |
| EpochTree.CountersAreLayerWidths | crates/mobydb-client/src/merkle.rs:105-122 | given the true leaf count, the counters of both verifiers that keep one are the widths of the builder's layers at every level |
| EpochTree.EveryLayerSharesRoot | crates/seed-data/src/main.rs:526-539 | every layer up to the root has the root of the leaves, so depth is not bound by the root |
| EpochTree.CollidingNodesCollide | crates/mobydb-client/src/merkle.rs:79-83 | two different pairs of nodes under one parent are two different 64-byte strings with one hash |
| EpochTree.AcceptanceIsPosition | crates/mobydb-client/src/merkle.rs:96-126 | with a proof of the right length and no collision, acceptance at an index below the count holds exactly for the leaf there and its honest proof |
| EpochTree.SealedRootBindsLeaves | crates/seed-data/src/main.rs:521-541 | equal roots over equally many leaves mean equal leaves, or two explicit colliding byte strings |
| EpochTree.IndexBeyondCountAccepted | crates/mobydb-client/src/merkle.rs:96-126 | for an odd count the last leaf is accepted at index n too, so the index check cannot be dropped |
| Json.ParsePrinted | crates/render-core/src/tools.rs:214-255 | a reader inverts the compact printer, escapes and commas included, on every printable value |
| Text.Utf8Injective | crates/render-core/src/tools.rs:174 | different texts are different bytes to the hash |
| Text.Utf16Injective | demo/lab_verify.js:94-96 | ordering keys by UTF-16 code units tells different keys apart |
| Text.PrecedesMeans | demo/lab_verify.js:94-96 | the order of keys: the first difference decides, and a prefix comes first |
| Text.Utf8CharIsShortest | crates/render-core/src/tools.rs:174 | every character takes its shortest UTF-8 form |
| Text.AsciiIsItself | crates/render-core/src/tools.rs:174 | a text below 0x80 is its codes |
| CanonicalMeaning.CanonicalTextPresents | crates/render-core/src/tools.rs:213-259 | for both canonical forms: reading the text finds the value itself at every depth, items in place, exactly the null (or undefined) fields left out, keys strictly increasing by bytes (or UTF-16 code units) |
| CanonicalMeaning.SerializableMeans | demo/lab_verify.js:75-87 | a value has a canonical text exactly when its normal form can be printed |
| CanonicalJson.NormalFormsAgree | crates/render-core/src/tools.rs:232-252 | normal forms are equal exactly for values equal up to dropped fields and key order |
| CanonicalJson.CanonicalTextIdentifies | crates/render-core/src/tools.rs:213-259 | two values have one canonical text if and only if they agree up to dropped fields and key order |
| CanonicalJson.FieldOrderIrrelevant | crates/render-core/src/tools.rs:234-235 | the order of an object's fields never reaches the text |
| CanonicalJson.DropSorted | crates/render-core/src/tools.rs:234-242 | sorting all keys and skipping nulls in the loop is the same as sorting the fields that are kept |
| RenderTools.Walk | crates/render-core/src/tools.rs:214-255 | appends the canonical text to the output, whatever was there before |
| RenderTools.WalkItems | crates/render-core/src/tools.rs:222-231 | commas go between items |
| RenderTools.WalkFields | crates/render-core/src/tools.rs:232-252 | with the `first` flag, commas go between the fields that are written, however nulls are spread among them |
| RenderTools.CanonicalJsonOf | crates/render-core/src/tools.rs:213-259 | the whole function gives the canonical text, never an error, and reading it finds the value without its null fields |
| RenderTools.ContentHashIdentifies | crates/render-core/src/tools.rs:172-175 | values hash alike if and only if they agree up to null fields and key order, or their canonical bytes collide |
| Attestations.VerifyAttestation | crates/render-core/src/tools.rs:165-205 | verified exactly when all four flags are set: the hash of the claim's canonical text is the claim hash, the signature holds, the tenant's table has the cell at that epoch, and the expiry lies in the future; a database failure is passed on |
| Attestations.OneClaimHashOneClaim | crates/render-core/src/tools.rs:165-205 | of any two verified attestations, one claim hash means one claim up to null fields and key order, or the canonical texts collide |
| Sorting.SortByIsStableSort | crates/seed-data/src/main.rs:257 | what `sort_by_key` promises: sorted, and for every key the same elements in the same order |
| Sorting.DedupKeepsFirst | crates/seed-data/src/main.rs:259 | removing repeats from a sorted list keeps the first holder of every key |
| Substations.BuildSubstations | crates/seed-data/src/main.rs:217-269 | the loop, the sort and the dedup compute the specified list |
| Substations.BuildKeepsFirstPerCell | crates/seed-data/src/main.rs:217-269 | keys strictly increase, and each cell is represented by its first valid feature in input order, and by nothing if there is none |
| Substations.LeafOrderOfBuild | crates/seed-data/src/main.rs:372-373 | sorting again by the signed key is strict, loses nothing, and changes nothing while all keys are below 2^63 |
| Substations.StoredKeyRoundTrip | crates/render-core/src/types.rs:66-71 | the u64 key comes back from its BIGINT |
| EpochTables.InsertInBatches | crates/seed-data/src/main.rs:480-498 | cutting the rows into statements differently changes nothing |
| EpochTables.InsertStale | crates/seed-data/src/main.rs:494 | rows that are all there already leave the table as it was |
| EpochTables.TableHoldsRows | crates/seed-data/src/main.rs:480-498 | inserting rows with distinct keys stores each of them and nothing else |
| SeedPlan.PlanIsValid | crates/seed-data/src/main.rs:363-440 | what the seeder computes from its features is rows in strict order of the stored key, each with a valid signature |
| SeedRun.Database.InsertBatch | crates/seed-data/src/main.rs:480-495 | ON CONFLICT DO NOTHING row by row, and rows_affected is what the table grew by |
| SeedRun.Database.InsertAll | crates/seed-data/src/main.rs:478-498 | the batches insert what one statement would, and inserted plus skipped is the row count |
| SeedRun.Database.BuildRows | crates/seed-data/src/main.rs:371-440 | the rows and content hashes in leaf order |
| SeedRun.Database.SignRow | crates/seed-data/src/main.rs:386-436 | one row: stored key and epoch, that epoch's payload, the hash of its canonical text, and key and signature derived from the OSM id |
| SeedRun.Database.WriteEpoch | crates/seed-data/src/main.rs:363-503 | the whole new state of both tables, for a new epoch and for one that exists, and the root returned |
| SeedRun.WriteIsSound | crates/seed-data/src/main.rs:363-503 | writing an epoch of the plan keeps sound tables sound and removes or alters nothing |
| SeedRun.Database.SeedEpochs | crates/seed-data/src/main.rs:143-165 | over any sound tables the loop ends with all ten epochs stored, each with its predecessor's root as parent |
| SeedRun.Database.Seed | crates/seed-data/src/main.rs:96-174 | a complete run over the leftovers of any earlier runs completes the tenant's epochs and changes nothing that was there |
| SeedRun.AloneOrInterleaved | crates/seed-data/src/main.rs:143-165 | a complete run leaves the tenant the same rows on its own as interleaved with any others |
| SeededContent.StoredRowIsFirstFeatures | crates/seed-data/src/main.rs:217-259 | under every schedule: the row stored for a cell and an epoch has the payload of the cell's first feature at that epoch, that payload's content hash, and public key and signature of the key derived from the feature's OSM id |
| SeededContent.StoredCellHasFeature | crates/seed-data/src/main.rs:217-259 | every stored key is that of a feature's cell, in one of ten epochs |
| SeededContent.EveryFeatureIsStored | crates/seed-data/src/main.rs:386-498 | once an epoch is stored, no valid feature's cell is missing from it |
| Reseeding.RerunKeepsEpoch | crates/seed-data/src/main.rs:449-502 | writing any rows to an epoch that exists, over any tables: a complete epoch stays complete exactly when nothing is inserted, and its root stays current exactly when old and new leaves share a root |
| Reseeding.NewEpochIsComplete | crates/seed-data/src/main.rs:449-502 | an epoch that is new and finds no stray cells is complete once written, whatever else the tables hold |
| Reseeding.OtherEpochsStay | crates/seed-data/src/main.rs:449-502 | no write changes whether another epoch is complete |
| EpochProofs.StepKeeps | crates/seed-data/src/main.rs:444-502 | every statement of every process keeps the store's invariant, and tables only grow |
| EpochProofs.ReachableIsSound | crates/seed-data/src/main.rs:444-502 | the invariant holds after every schedule of seeders, readers and crashes |
| EpochTheorems.AnsweredBundlesAreAccepted | crates/mobydb-client/src/postgres.rs:378-492 | under every interleaving of the four statements with seeders, a returned bundle is accepted offline, has the tree's proof length and an index below the cell count, which is the cell's rank in signed key order |
| EpochTheorems.StoredCellIsAnswered | crates/mobydb-client/src/postgres.rs:378-492 | a read of a stored cell never fails, whatever runs beside it |
| EpochLiveness.FourTurnsAnswer | crates/mobydb-client/src/postgres.rs:378-492 | a read of a stored cell that gets four turns has its bundle, whatever runs in between |
| EpochTheorems.CompletedSeedingConverges | crates/seed-data/src/main.rs:143-165 | however seeders overlapped or were cut off, once a run completes the tenant's rows are those of one uninterrupted run |
| EpochLiveness.SeedingCanComplete | crates/seed-data/src/main.rs:143-165 | from every reachable state some schedule completes the seeding of any tenant, whatever was cut off before |
| EpochLiveness.SeederAdvances | crates/seed-data/src/main.rs:444-502 | with no other writer at work, every statement gets a seeder closer to the end |
| EpochTheorems.StoredEpochsAreChained | crates/seed-data/src/main.rs:143-165 | at every moment epoch 0 has no parent, every other epoch names its predecessor's stored root, and no epoch is missing in between |
| EpochTheorems.StoredEpochsAreComplete | crates/seed-data/src/main.rs:444-502 | at every moment a stored epoch has all its cells: count and root are those of the stored rows, and no cell is stored without its epoch |
| EpochTheorems.EveryRowInsertedOrSkipped | crates/seed-data/src/main.rs:478-498 | inserted plus skipped is the number of rows reached, and an epoch is inserted as a whole or skipped as a whole |
| EpochTheorems.AcceptedIffRootIsCurrent | scripts/ops/hotfix_epoch0.sql:4-10 | over tables in any condition, a read at rest is accepted if and only if the signature holds and the stored root is the root over the cells stored now |
| OfflineVerifiers.FoldsAgree | demo/verify.js:31-40 | the fold over bytes is the fold over digests |
| OfflineVerifiers.IndexStep | demo/verify.js:35-37 | for every number as leaf index, `% 2` and the floored half read the bits of one natural number |
| OfflineVerifiers.IndicesThatFoldAlike | demo/verify.js:35-37 | -1 and 0.5 fold like 0, and 3.5 like 2 |
| OfflineVerifiers.ReconstructRoot | demo/verify.js:31-40 | the browser's loop computes the fold, for every number as index |
| OfflineVerifiers.ReconstructRootSdk | scripts/clients/typescript/client.ts:245-267 | the SDK's loop computes the same fold, for every index and leaf count; its counter, returned as a ghost list, follows the layer widths |
| OfflineVerifiers.BytesEqual | demo/verify.js:24-29 | the accumulated xor is zero exactly for equal arrays |
| OfflineVerifiers.HexToBytes | demo/verify.js:4-12 | the loop decodes pairs of UTF-16 code units as parseInt does, with an error only for an odd number of them |
| OfflineVerifiers.CharacterAboveBmpIsAByte | demo/verify.js:4-12 | lengths are counted in code units: one character above U+FFFF decodes to a zero byte, and after one digit it is an error |
| OfflineVerifiers.UnhexHex | demo/verify.js:14-16 | decoding undoes encoding |
| OfflineVerifiers.HexUnhex | demo/verify.js:4-16 | encoding gives the text back exactly when it is an even number of lower-case digits; any other text the decoder takes is another spelling |
| OfflineVerifiers.VerifyProvenance | demo/verify.js:42-67 | both flags report their own check and ok is their conjunction; if anything throws, all three are false |
| OfflineVerifiers.VerifyProofLocally | scripts/clients/typescript/client.ts:177-192 | true under the same condition as the browser; throws exactly when decoding or the signature library throws, or when the signature holds and the path or root does not decode; false otherwise |
| OfflineVerifiers.WireVerdict | demo/verify.js:42-67 | on a bundle sent as hex both verifiers decide exactly the specified acceptance |
| OfflineVerifiers.AcceptedBytesAreHonest | demo/verify.js:31-40 | an accepted node of 32 bytes with a path of the tree's depth, of siblings of any length, is the leaf at that position with its honest path, or two byte strings that are computed collide |
| OfflineVerifiers.WireAcceptanceIsPosition | demo/verify.js:31-40 | without that collision, acceptance holds exactly for the leaf of the index and its honest path |
| OfflineVerifiers.CheckedBundleShowsLeaf | demo/verify.js:42-67 | a bundle whose index, path length and content hash length are checked passes the root check if and only if it shows its leaf with the honest path, or it breaks the hash at a computed place |
| OfflineVerifiers.LeavesCutElsewhereAccepted | demo/verify.js:18-40 | without the length check the two leaves of an epoch, cut at any other place, pass with index and path length in order and no collision |
| Audit.AuditTrailHolds | demo/verify.js:42-67 | from features to verdict: under every schedule of seeders, readers and crashes, the JSON of any bundle handed out passes the offline verifiers and the three checks they leave out |
| Audit.AcceptedBundleIsStored | demo/verify.js:42-67 | under every schedule: a bundle from anywhere that names a stored epoch row, with index, path length and content hash length checked, passes the root check if and only if it shows the hash stored at that rank with the one honest path, or it contains a collision |
| Audit.SealedRootBindsPayloads | crates/seed-data/src/main.rs:371-442 | equally many payloads whose hashes have one root agree rank by rank up to null fields and key order, or a payload pair or a tree node collides |
| Audit.EqualSealsEqualPayloads | crates/seed-data/src/main.rs:363-503 | the same for two epochs sealed by any seeders for any tenants: one root and one count, one list of payloads |
| Audit.AcceptedPayloadIsSealed | demo/verify.js:42-67 | for an auditor who also hashes the payload: a bundle from anywhere that passes the root check, with index, path length and content hash checked, carries the payload sealed at that rank, or contains a collision |
| Regions.CellStateIsLatest | crates/mobydb-client/src/postgres.rs:262-308 | the row of the pinned epoch, or of the greatest epoch stored for the cell, is found exactly when there is one |
| Regions.RegionAgreesWithCells | crates/mobydb-client/src/postgres.rs:262-375 | refused, with both numbers, exactly when more cells are asked for than the limit; otherwise, for every cell, the region query (pinned or latest) has exactly the row the single-cell query returns if the cell was asked for and none otherwise, whatever scan order either takes |
| Regions.RegionIsWithinLimit | crates/mobydb-client/src/postgres.rs:311-375 | rows belong to the tenant and the cells asked for, no cell comes twice, there are at most as many as cells asked for, and latest-per-cell rows come in stored-key order |
| Regions.PickedAfterSort | crates/mobydb-client/src/postgres.rs:355-362 | picking one cell from rows sorted by epoch is sorting that cell's rows |
| Tenancy.RequestStepKeeps | crates/mobydb-client/src/postgres.rs:96-116 | every step of a request keeps settings to the connections and transactions they belong to |
| Tenancy.TenantIsolation | migrations/0001_initial_schema.sql:150-160 | over every interleaving on every pool, each read returns exactly the rows of the tenant its request passed, whatever the WHERE clause says, and none when it passed none |
| Tenancy.SessionScopeServesTenants | crates/mobydb-client/src/postgres.rs:98-109 | requests that pass a tenant would be isolated with a session-wide setting as well |
| Tenancy.SessionScopeLeaks | crates/mobydb-client/src/postgres.rs:98-109 | but then a request without a tenant sees the rows of the connection's previous user: this is what the local setting prevents |
| Base64Url.BytesToB64u | demo/lab_verify.js:54-60 | the loop, the substitutions and the stripped padding give the unpadded URL encoding |
| Base64Url.B64uToBytes | demo/lab_verify.js:40-52 | padding up and copying into the array give the specified decoding, or the exception |
| Base64Url.EncodeUsesUrlAlphabet | demo/lab_verify.js:54-60 | only URL characters appear, ceil(4n/3) of them |
| Base64Url.DecodeEncode | demo/lab_verify.js:40-60 | decoding an encoding returns every byte sequence |
| Base64Url.EncodeDecode | demo/lab_verify.js:40-60 | re-encoding a decoding returns the text if and only if it is canonical: URL alphabet, possible length, no stray bits (RFC 4648 section 3.5) |
| Base64Url.DecodeUrlText | demo/lab_verify.js:40-52 | a text in the URL alphabet is refused exactly for length 1 modulo 4 |
| LabVerify.JcsIsCanonical | demo/lab_verify.js:74-101 | succeeds exactly on serialisable values, with the sorted text of RFC 8785 |
| LabVerify.JcsIdentifies | demo/lab_verify.js:74-101 | two values have one text if and only if they agree up to undefined fields and key order; nulls count |
| LabVerify.VerifyCert | demo/lab_verify.js:127-172 | rejected exactly when the certificate is complete and a date has no text, or the issuer differs and one of the keys in the message has none; otherwise ok exactly when the certificate holds, and exactly when no error is listed |
| SignedTexts.CertVerdict | demo/lab_verify.js:127-172 | a certificate holds exactly when all seven properties are there, the dates enclose the instant, ends included, the issuer is the parent key and the parent's signature over its signed text verifies |
| SignedTexts.SignedTextShowsCert | demo/lab_verify.js:151-154 | the signed text, read again, has every property of the certificate but parent_signature, and no other |
| SignedTexts.ParentSignatureBindsCert | demo/lab_verify.js:151-157 | one signature of one key on two certificates means they agree in every other property, or it verifies for two different messages |
| SignedTexts.SameCertifiedSameText | demo/lab_verify.js:151-154 | certificates that agree in every other property have one signed text |
| LabVerify.Conclude | demo/lab_verify.js:254-284 | the verdict over collected errors is the conjunction of all checks |
| LabVerify.VerifyLabRecord | demo/lab_verify.js:223-286 | ok if and only if errors is empty, if and only if version, anchor, self-signature, all three links, signer and outer signature hold; rejected exactly when a certificate is null or a value needed as text in a date or message that is reached has none |
| SignedTexts.GoodRecord | demo/lab_verify.js:223-286 | a good record in its properties' own names: version 1, a root certified by the trust root for the trust root, lab and runtime certificates each certified by the one before, the signer certified last, its signature over the statement valid |
| SignedTexts.RejectedRecord | demo/lab_verify.js:236-276 | the exact condition of rejection in the properties' own names |
| SignedTexts.TextlessExamples | demo/lab_verify.js:137-138 | an object's own toString field leaves it without a text, at any depth of arrays, and nothing else does |
| LabVerify.DateWithoutTextRejects | demo/lab_verify.js:137-138 | a complete certificate whose date is an object with a toString field rejects the promise |
| LabVerify.VerifyResponse | demo/lab_verify.js:291-304 | ok if and only if every record of a list of any length is good; rejected exactly when some record is |
| LabVerify.OuterSignatureBindsStatement | demo/lab_verify.js:193-216 | one signature and signer on two records means the eight signable fields of the records agree, each with its own, or the signature verifies for two different messages |
| SignedTexts.SignedTextShowsRecord | demo/lab_verify.js:193-204 | the signed text, read again, has under each of the eight keys what the record says there, leaves out exactly what is undefined, and has no other key |
| SignedTexts.OuterSignatureVerdict | demo/lab_verify.js:206-216 | the outer signature holds exactly when key and signature decode and the library accepts them for the bytes of that text |
| LabVerify.OuterSignatureCoversStatementOnly | demo/lab_verify.js:185-204 | no other field of the record (signing time, certificates, chain hash) affects the outer signature |
| RateLimit.DemoRateLimiter.Check | crates/mcp-server/src/rate_limit.rs:49-74 | the new state, the decision, and a hint between 1 and 60 |
| RateLimit.AdmittedAfterRefusal | crates/mcp-server/src/rate_limit.rs:54-66 | with nobody in between, a call after a refusal is admitted if and only if the limit is positive and the window has run out by then |
| RateLimit.HintPlusOneSuffices | crates/mcp-server/src/rate_limit.rs:50-66 | for any two instants: waiting one second longer than told suffices exactly when the refused instant lay at most a second before the window; waiting as told suffices exactly when it lay in the window with whole seconds or at most one second left |
| RateLimit.AdmittedWithin | crates/mcp-server/src/rate_limit.rs:49-74 | any calls within T, from any state, have at most limit * (floor(T / 60 s) + 2) of them admitted |
| RateLimit.AtMostTwiceTheLimitPerMinute | crates/mcp-server/src/rate_limit.rs:6-9 | at most twice the limit in any half-open minute, said as 60,000,000,000 nanoseconds |
| RateLimit.BoundIsAttained | crates/mcp-server/src/rate_limit.rs:49-74 | for every number of minutes there are calls that reach the bound |
| RateLimit.WorstCaseSpan | crates/mcp-server/src/rate_limit.rs:49-74 | those calls lie within that many minutes and a nanosecond |
| TileProjection.ForwardDifferenceIsExact | demo/lab_tile_preview.js:279-286 | the forward differences are the derivatives, for every step width |
| TileProjection.CornersAreMapped | demo/lab_tile_preview.js:259-267 | the corners of the unit square go to the north-west, south-west, south-east and north-east corners of the tile |
| TileProjection.NumericalJacobian | demo/lab_tile_preview.js:279-286 | so the numerical Jacobian is the exact one |
| TileProjection.ErrorAfterStep | demo/lab_tile_preview.js:288-294 | after one step the residual is exactly du * dv * (c0 - c1 + c2 - c3) in both coordinates |
| TileProjection.ErrorShrinksQuadratically | demo/lab_tile_preview.js:288-294 | so for any quadrilateral an error bounded by m is bounded by a multiple of m squared after the step |
| TileProjection.ProjectToUV | demo/lab_tile_preview.js:269-297 | the loop computes the specified iteration, breaks included |
| TileProjection.ForwardIsInjective | demo/lab_tile_preview.js:259-267 | on a non-degenerate parallelogram different points have different images |
| TileProjection.ParallelogramInverted | demo/lab_tile_preview.js:269-297 | on a non-degenerate parallelogram the loop returns the exact preimage after one step, or its start if that is within eps already |
| TileProjection.HowTheLoopEnds | demo/lab_tile_preview.js:270-297 | for any quadrilateral the result maps to within eps of the target in both coordinates, or is singular, or no turn came near |
| TileProjection.CornersInverted | demo/lab_tile_preview.js:269-297 | on a non-degenerate parallelogram each corner of the tile is projected to its corner of the unit square exactly, unless the start is near it |
| TileProjection.StoppingRules | demo/lab_tile_preview.js:272-289 | near is within 1e-9 in both coordinates, singular is a determinant below 1e-15 |
| NewtonBasin.DiscriminantIsGlobal | demo/lab_tile_preview.js:259-267 | the discriminant of the equation for a preimage is the same seen from every point |
| NewtonBasin.DiscriminantOfPreimage | demo/lab_tile_preview.js:259-267 | at a preimage it is the square of the determinant |
| NewtonBasin.NoPreimage | demo/lab_tile_preview.js:259-267 | a target with a negative discriminant is the image of no point |
| NewtonBasin.AfterTurn | demo/lab_tile_preview.js:288-294 | after a turn the error is the step product in twists, and the squared determinant is the discriminant plus four times that product and the skews |
| NewtonBasin.ProductFromError | demo/lab_tile_preview.js:288-294 | the next step product times the squared determinant is the skews times the square of the one before |
| NewtonBasin.Descent | demo/lab_tile_preview.js:273-295 | with a start in order, no point of the loop is singular and every turn after the first quarters the step product |
| NewtonBasin.BasinReachesTarget | demo/lab_tile_preview.js:269-297 | if the error after two turns is less than eps times 4^28, thirty turns end within eps in both coordinates |
| NewtonBasin.ImagesAreReached | demo/lab_tile_preview.js:269-297 | for every quadrilateral and every target that is the image of a non-singular point, an inequality on twist, skews, first steps and discriminant at the start suffices for the loop to end within eps |
| Timestamps.TimestampLength | crates/lab-client/src/postgres.rs:364-372 | every instant in range takes exactly 32 characters |
| Timestamps.FixedCharacters | crates/lab-client/src/postgres.rs:364-372 | separators and offset stand at their fixed places |
| Timestamps.DaysBeforeYearIs | crates/lab-client/src/postgres.rs:367-372 | the calendar behind the order: 365 days a year and the Gregorian leap days |
| Timestamps.TimestampRoundTrip | crates/lab-client/src/postgres.rs:367-372 | the text parses back to the instant truncated to microseconds |
| Timestamps.ParsedTimestampPrints | crates/lab-client/src/postgres.rs:367-372 | and every text the parser takes is the one text of its instant |
| Timestamps.TextOrderIsTimeOrder | crates/lab-client/src/postgres.rs:367-372 | text order is the order of time counted in microseconds, calendar included, and equal texts are equal microseconds |
| Timestamps.ShownIsFirstOfGreatest | demo/lab_overlay.js:453-457 | for every consistent localeCompare, the stable descending sort puts the first of the greatest texts in front |
| Timestamps.NewestRecordIsShown | demo/lab_overlay.js:453-457 | for every locale that orders texts of one shape by the first differing digit, the record shown was signed no earlier than any other, ties going to the first |
| Timestamps.PrintedShape | crates/lab-client/src/postgres.rs:367-372 | the texts of any two instants have one shape: they differ in digits only |
| Timestamps.CompareUnitsCollates | demo/lab_overlay.js:453-457 | comparing code units is such a comparison, so the two demands on localeCompare can be met |
| Vectors.CanonicalSortsAndDrops | crates/render-core/src/tools.rs:277-286 | the repository's test of canonical_json |
| Vectors.ArrayExample | crates/render-core/src/tools.rs:289-292 | the repository's test of arrays |
| Vectors.Escapes | crates/render-core/src/tools.rs:219-221 | string escapes, one of every kind |
| Vectors.JcsKeepsNull | demo/lab_verify.js:93-99 | null is kept, undefined left out |
| Vectors.SmallTrees | crates/mobydb-client/src/merkle.rs:144-193 | roots and depths of the repository's tree tests: one to four leaves, left before right |
| Vectors.SmallEpochs | crates/seed-data/src/main.rs:521-541 | 32 zero bytes for no leaves, the leaf itself, the hash of two leaves' bytes |
| Vectors.ProofErrors | crates/mobydb-client/src/merkle.rs:33-61 | which error a proof request ends in, and when |
| Vectors.SixthExceedsLimitOfFive | crates/mcp-server/src/rate_limit.rs:82-107 | the repository's limiter tests, and the window in nanoseconds |
| Vectors.TimestampWithMillis | crates/lab-client/src/postgres.rs:380-391 | the repository's timestamp tests |
| Vectors.TimestampAtMidnight | crates/lab-client/src/postgres.rs:394-400 | the same, at midnight |
| Vectors.TimestampWithMicros | crates/lab-client/src/postgres.rs:403-414 | the same, with padded microseconds |
| Vectors.SealTimes | crates/seed-data/src/main.rs:325-331 | epochs are sealed from 2026-04-01T06:00Z on, twelve hours apart, as Unix time |
| Vectors.UrlAlphabetIs | demo/lab_verify.js:54-60 | the alphabet of section 5 of RFC 4648 |
| Vectors.GroupIsOneNumber | demo/lab_verify.js:54-60 | three bytes and their four characters are one number of 24 bits |
| Vectors.Rfc4648Examples | demo/lab_verify.js:54-60 | examples of section 10 of RFC 4648, unpadded |
| Vectors.SpacesDecode | demo/lab_verify.js:40-52 | white space is passed over |
| Vectors.StrangeCharactersRefused | demo/lab_verify.js:40-52 | a character of neither alphabet is an exception |
| Vectors.ParseIntExamples | demo/verify.js:8-10 | pairs of code units as parseInt reads them: signs, white space, one digit, none |
| Vectors.PrefixIsSkipped | demo/verify.js:5 | a leading 0x is passed over |
| Vectors.BundleFields | demo/verify.js:44-47 | which field of a bundle is key, message and signature |

## Left out

- BLAKE3, Ed25519, `JSON.parse` of certificates, `Date.parse` and the clock are parameters; an exception of `JSON.parse` or Ed25519 is an absent result, as is a date that is NaN. That a value cannot be turned into text is modelled, in `LabVerify.Throws`.
- Numbers in JSON are the texts they print as, so two numbers are equal exactly when they print alike; this identifies 0 and -0 under `jcs`, as the code does.
- Strings in JSON values are sequences of Unicode scalar values; one with a lone surrogate is not covered there. The hex texts of bundles are sequences of code units.
- Widths of counters: `usize`, `u64` and JavaScript's 2^53 are unbounded here, so `VerifyProof` does not model the overflow of its unused layer counter at `usize::MAX`. Only the u64/i64 reinterpretation of cell keys is explicit.
- JavaScript numbers: a leaf index is any real number; NaN, infinities and values that are no numbers are not covered, and the cell count is a natural number.
- The offline verifiers do not hash the payload again, and no root covers the parent root: neither is claimed.
- Attestation rows: no modelled code writes them, so the reader's second statement is a step that reads nothing of consequence; expiry and order of attestations are not part of the bundle here.
- Database errors: the interleaved model treats an error of any statement as the end of that process with its transaction undone, and models a lock wait as a statement that does not happen yet; deadlock detection and timeouts are among the ways to end.
- Physical features of a substation: tags, coordinates, voltage and synthetic load are inside the payload parameter, and resolving coordinates to a cell is a parameter that may refuse.
- Floating point: the projection is over real numbers, so rounding and the choice of step width are not part of it. Convergence outside the basin of `NewtonBasin` is not claimed, nor which of two preimages is reached.
- Timestamps.TimestampRoundTrip: years 0 to 9999 without leap seconds; outside them the printer uses another width.
- `localeCompare` itself: any consistent comparison that orders texts of one shape by their first differing digit.
- The reader's queries are given by what their SQL means over the rows of a table, not as stepping cursors; the order of a result without ORDER BY is that of an arbitrary scan.
- Viewports: resolving one to cells is H3 geometry and comes as a given list, or an error passed on; the list may contain repeats.
- Database roles: isolation is for a role the policies apply to; a superuser bypasses them. Inserts under the policies are any change of the table at any moment.
- Strict equality of parsed objects is never true for two parsed texts; certificate fields that are only displayed, and error wording, are not modelled.
- Returned values that are only logged or displayed: reconstructed hex, roles, labels, counts, operator summaries, progress messages.
- Everything around this: HTTP, JSON-RPC dispatch, API keys, OAuth, the tool registry, the map and its panels, liveness and compliance pages.
