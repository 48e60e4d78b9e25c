# HopNet core, modelled and proved in Dafny

HopNet is a mesh of home nodes that replicate a database by consensus. This project models the parts
of it whose correctness is hardest to see from the code, and proves what they are for.

| files | what they model |
|---|---|
| Bytes, Division, Utf8, Codec, Artifact, ArtifactExact, Truncation | the snapshot container: a tree of sections, tables and values, its bytes, its decoder, and that the two are exact inverses |
| Golden, GoldenExport | the golden artifact and the fixture database it is exported from |
| Sqlite, Export, Import, Scanning | the database as a map of tables, the canonical export of a state with its three levels of hashes, the meaning of an import, and its events in byte order |
| Reader, Serializer | the code as it runs: a cursor that moves, buffers and hashers that grow, a transaction that is written to, each proved against the functions above |
| Sorting, Selection, Collation, Canonical, CanonicalRows, Commitment, States, ExportExact, ManifestExact | when a state can be exported, what an artifact forgets about it, what it keeps, and what its hashes at each level stand for |
| Restoring, ImportExact, Imported | exactly what an import accepts, what it leaves, and what it reports |
| Refusals | which error a refused export or import ends with |
| RoundTrip, Transfer, Reexport | export, import, export; what an import report means; which accepted artifacts come out as they went in |
| Quorums, Membership | quorum arithmetic for every set size, and the guards on growing the validator set as a state machine over whole runs |
| Chains | replay and fast-forward of schema chains over a connection with a savepoint stack |
| Decimals, Hexadecimal, Alpn | protocol names, accept tiers and negotiation |
| Timing, Rolling | sample summaries, and a ring buffer that answers as if the full history had been kept |
| Divergence, Verdict, MeshConsensus | the cluster report over node manifests, the plain statement it decides, and what it says about the nodes' databases |
| Validators | the canonical validator order and proposer rotation |

`dafny verify dfyconfig.toml` checks everything.

## How to read it

* Values are SQLite's storage classes; REAL is its 64 IEEE bits. Key order is SQLite's: NULL, then numbers
  compared as numbers, then TEXT, then BLOB, bytes compared as bytes.
* The hash function is a parameter. Commitment results assume that it does not collide on the bytes the two
  snapshots in question actually hash (`Commitment.CollisionFree`), not that it is injective.
* What the snapshot results assume of a schema is spelled out in `States.WellKeyed` (distinct column names, no
  key column excluded, no two rows whose keys tie), `RoundTrip.RegistryOk` (distinct section and table names), `RoundTrip.Ready`
  (the target has the same shape and empty exported tables) and `States.Sized` (names are UTF-8, lengths fit
  their fields).
* What a statement of a migration step does to the database is an arbitrary function that may also fail after
  changing something; savepoint statements themselves succeed, and steps do not open or close savepoints.
* The membership run has the approver's evidence equal to the truth: `ceiling_ok` is evaluated on the members
  that are in fact alive and proven.
* The engine's vote threshold is modelled as "weight times denominator exceeds total times numerator", with 2/3
  and 1/2; the engine itself is not part of this model.
* The server's choice of protocol is its first name that the client offered (section 3.2 of RFC 7301).
* `Selection.Selects(xs, wanted, image, ys)` says that `ys` holds exactly the wanted elements of `xs`, mapped, each
  once and in order; there is only one such list (`Selection.SelectsUnique`).
* Lemmas carry `{:induction false}`: their bodies are the proofs.

Where code and comments disagree, the code is followed:

* `HopNetValidatorSet::new` is documented to reject duplicate addresses. It looks at neighbours after sorting by
  power and address, so with unequal powers a duplicate can pass. `Validators.AcceptedExact` is the exact
  condition, `Validators.DuplicatePasses` an instance, `Validators.UniformExact` the case of equal powers.
* `decode_value` is documented to keep re-serializing an imported artifact equal to it. The importer does not look
  at the order of rows, units and sections. `Reexport.ReexportExact` is the exact condition, `Reexport.SwappedRows`
  an instance.
* The importer's comment says that a duplicate table unit needs no special case; the code has one, and so has
  the model.

## Model

| member | source | states |
|---|---|---|
| Bytes.LEExact | common/src/snapshot.rs:572-578 | decoding and writing little-endian integers are mutually inverse at every width |
| Bytes.LEDigits | common/src/snapshot.rs:572-578 | byte j of a written integer is its j-th base-256 digit |
| Artifact.BitPatternExact | common/src/snapshot.rs:941-944 | an INTEGER is written as its value modulo 2 to the power 64, and read back as that value |
| Artifact.IsNaNExact | common/src/snapshot.rs:945-951 | refused as NaN is exactly exponent 2047 with a non-zero fraction; the infinities are not |
| Utf8.Utf8Exact | common/src/snapshot.rs:585-595 | a name passes as UTF-8 exactly when it encodes some text of Unicode scalar values |
| Codec.ManyExact | common/src/snapshot.rs:608-651 | a counted list decodes to `xs` exactly where the bytes are the encodings of `xs`, for any element codec that has this property; nothing is skipped and nothing is read twice |
| ArtifactExact.NameExact | common/src/snapshot.rs:587-595 | a name is decoded exactly where a length-prefixed UTF-8 string of 32-bit length stands |
| ArtifactExact.ValueExact | common/src/snapshot.rs:682-715 | a value is decoded exactly where the encoding of that value stands; NaN and negative zero are never accepted, every other value is |
| ArtifactExact.RowExact | common/src/snapshot.rs:643-649 | rows of a given width: the exact inverse of writing them |
| ArtifactExact.NamesExact | common/src/snapshot.rs:608-614 | column lists: the exact inverse of writing them |
| ArtifactExact.TableHeaderSound | common/src/snapshot.rs:608-632 | whatever the reader accepts as a table header is the encoding of that header, and a header with rows has columns |
| ArtifactExact.TableHeaderComplete | common/src/snapshot.rs:608-632 | every well-sized header is accepted where it was written |
| ArtifactExact.TableExact | common/src/snapshot.rs:608-651 | whole table units: the exact inverse of writing them |
| ArtifactExact.SectionExact | common/src/snapshot.rs:437-446 | whole sections: the exact inverse of writing them |
| ArtifactExact.PreambleExact | common/src/snapshot.rs:422-435 | magic, version and section count: accepted exactly when they are the written ones |
| ArtifactExact.ParseArtifactExact | common/src/snapshot.rs:422-451 | bytes decode to a tree exactly when they are the canonical encoding of that tree and the tree fits the format; so every accepted artifact re-emits byte for byte |
| ArtifactExact.AcceptedTreesDistinguishBytes | common/src/snapshot.rs:422-451 | two accepted artifacts are equal exactly when they decode to equal trees |
| ArtifactExact.StrictExtensionsRejected | common/src/snapshot.rs:411-413 | an accepted artifact followed by anything is rejected for trailing bytes, at the offset where it should have ended |
| Truncation.StrictPrefixesRejected | common/src/snapshot.rs:1427-1441 | every strict prefix of an accepted artifact is rejected: for its magic when shorter than that, else for running past the end, at an offset inside the prefix |
| Golden.GoldenBytes | common/src/snapshot.rs:1043-1052 | the tree of the golden fixture encodes to the pinned golden bytes |
| GoldenExport.GoldenArtifact | common/src/snapshot.rs:1001-1073 | the golden fixture database, exported through the whole model, gives the pinned golden bytes |
| Reader.Cursor.ReadBytes | common/src/snapshot.rs:561-570 | a bounds-checked read: moves by exactly the bytes returned, and on failure stays put and names its offset |
| Reader.Cursor.ReadU32 | common/src/snapshot.rs:572-574 | agrees with the specified decoder in value, next position and error |
| Reader.Cursor.ReadU64 | common/src/snapshot.rs:576-578 | agrees with the specified decoder in value, next position and error |
| Reader.Cursor.ReadName | common/src/snapshot.rs:587-595 | agrees with the specified decoder; a name that is not UTF-8 is reported at the offset where it starts |
| Reader.Cursor.DecodeValue | common/src/snapshot.rs:682-715 | agrees with the specified decoder in value, position and error, and consumes at least one byte |
| Reader.Cursor.ReadTableHeader | common/src/snapshot.rs:608-632 | agrees with the specified decoder, including the refusal of rows without columns |
| Reader.WalkTableRows | common/src/snapshot.rs:637-651 | with a transaction: rows are read and inserted in byte order up to the first malformed or refused one, which decides the error and leaves exactly the rows before it; without one: a structural decode; the number of values read is bounded by the bytes consumed, whatever the claimed row count |
| Reader.SkipTables | common/src/snapshot.rs:389-396 | parse-to-skip of a section: ends exactly where the section ends, or fails as its decoder does, within the same bound |
| Reader.ReadSectionHeaders | common/src/snapshot.rs:422-451 | succeeds exactly when the whole artifact decodes, then returns the names and versions of its sections in order, else the decoder's error; at most 2n + 2 header and value reads on n bytes |
| ImportExact.HeadersDecide | common/src/snapshot.rs:417-451 | the listed headers alone tell which sections an import of the same bytes takes and what it reports of the others |
| Reader.ImportTableUnit | common/src/snapshot.rs:469-531 | one unit: header, refusals in the order the importer checks, rows; database, error and position are those of its events up to the first failure |
| Reader.ImportSectionUnits | common/src/snapshot.rs:453-543 | one section: units in order, then the completeness check; database, error and position are those of its events up to the first failure |
| Reader.ImportSnapshotExpecting | common/src/snapshot.rs:348-415 | on every byte string: result and database are those of performing the artifact's events in byte order up to the first failure; hence on a well-formed artifact those of importing the decoded tree, which `ImportExact.ImportTreeExact`, `ImportExact.TakenIsTaken` and `Imported` spell out, and never success on a malformed one; same bound on reads |
| Scanning.ArtifactRead | common/src/snapshot.rs:348-415 | the events of an artifact, read without a database, are those of its decoded tree, or end in the decoder's error |
| Scanning.StopsAtFirst | common/src/snapshot.rs:348-415 | the events before the first failure all took effect, and the next one is what failed |
| Scanning.PerformKeeps | common/src/snapshot.rs:510-529 | however an import ends, columns and existing rows of every table are still there |
| Scanning.ImportBytesExact | common/src/snapshot.rs:348-415 | performing the events of a well-formed artifact is importing its tree, and a malformed one always fails |
| Scanning.MalformedArtifact | common/src/snapshot.rs:348-415 | what a malformed artifact asks for: all sections decoded before the fault, then what the faulty section asks, or the complaint about left-over bytes |
| Scanning.MalformedSection | common/src/snapshot.rs:366-409 | a malformed section that is passed over asks for nothing, one that is taken for the units decoded before the fault |
| Scanning.MalformedUnit | common/src/snapshot.rs:637-651 | a malformed unit asks for its admission and for every row decoded before the fault, then fails as the decoder does |
| Serializer.EncodeValueInto | common/src/snapshot.rs:933-968 | appends the encoding of the canonical value, or refuses NaN and appends nothing |
| Serializer.WriteRow | common/src/snapshot.rs:856-864 | the same bytes go to the hasher and to the artifact, cell by cell |
| Serializer.WalkTable | common/src/snapshot.rs:797-877 | manifest entry and artifact bytes are those of the table's canonical unit; the hash covers exactly the domain tag and those bytes. `ManifestExact` says what the entry means |
| Serializer.WalkSection | common/src/snapshot.rs:742-791 | section hash over header and exported table hashes; only exported tables reach the artifact |
| Serializer.ComputeTopHash | common/src/snapshot.rs:130-142 | hashes exactly the canonical list of section names, versions and hashes |
| Serializer.TopHashRecomputable | common/src/snapshot.rs:125-142 | the top hash can be recomputed from the manifest's own section entries |
| Serializer.ComputeManifest | common/src/snapshot.rs:270-275 | equals the manifest `Serializer.SerializeSnapshot` returns on the same state, failures included |
| Serializer.SerializeSnapshot | common/src/snapshot.rs:280-287 | returns the canonical encoding of the exported tree together with the manifest |
| ManifestExact.ManifestLists | common/src/snapshot.rs:784-790 | a manifest lists the registry's sections and all their tables of either role, at the registry's positions, with names, versions, roles and exclusions, and the number of rows each table holds |
| ManifestExact.EntryCommits | common/src/snapshot.rs:797-877 | two table entries of any two manifests, exported or divergence-only, have equal hashes exactly when the tables export to equal units, unless the hash collides on the two exports |
| ManifestExact.EntryIsContent | common/src/snapshot.rs:797-877 | for one covered table of two states of one shape: equal hashes exactly when the contents agree |
| ManifestExact.ManifestIsContent | common/src/snapshot.rs:270-275 | two nodes with one registry compute the same manifest exactly when every covered table of either role holds the same content |
| ManifestExact.HashesFollow | common/src/snapshot.rs:105-142 | a section hash is taken over the section header and its exported tables' hashes only, the top hash over version, names, versions and section hashes; both can be rebuilt from the manifest |
| ManifestExact.LevelsApart | common/src/snapshot.rs:742-804 | no bytes are hashed at two levels: the preimages of tables, sections and the top differ |
| ExportExact.ArtifactHolds | common/src/snapshot.rs:742-791 | an artifact has the registry's sections in order with their versions, and in each the units of exactly its exported tables, in order |
| Refusals.ColumnsRefused | common/src/snapshot.rs:882-922 | the column list is refused for the first exclusion that names no column, else for the lack of a primary key, else not at all |
| Refusals.TableRefused | common/src/snapshot.rs:797-877 | a table is refused for its columns, else for having none left, else for its rows |
| Refusals.RowsRefused | common/src/snapshot.rs:856-864 | the float error names the first NaN in key order of rows, then canonical order of columns |
| Refusals.WalkRefused | common/src/snapshot.rs:717-791 | manifest and artifact fail with the error of the first table, in registry order, that cannot be exported |
| Commitment.TableCommits | common/src/snapshot.rs:797-877 | absent collisions on hashed bytes, equal table hashes mean equal tables |
| Commitment.TopInjective | common/src/snapshot.rs:130-142 | the bytes under the top hash determine the artifact version and every section's name, version and hash |
| Commitment.SectionEqual | common/src/snapshot.rs:742-791 | absent collisions, equal section entries mean equal sections |
| Commitment.TopHashCommits | common/src/snapshot.rs:130-142 | absent collisions among the bytes the two snapshots hash: top hashes are equal exactly when the exported trees are, which is exactly when the artifacts are |
| States.StatesCommit | common/src/snapshot.rs:130-142 | the same for database states: equal top hash, equal artifact bytes and equal exported content are one condition |
| Canonical.CanonicalColumnsSame | common/src/snapshot.rs:882-922 | canonical columns and key depend only on which columns there are and which are keys, not on declaration order |
| Sqlite.KeyOrderTotal | common/src/snapshot.rs:846-854 | ORDER BY the key columns is a total preorder on rows, by storage class, then number or bytes |
| Collation.ValueOrder | common/src/snapshot.rs:846-854 | NULL first, then numbers by value whatever their type, then TEXT, then BLOB, both byte by byte |
| Collation.RealOrder | common/src/snapshot.rs:846-854 | REAL values, infinities included, are ordered as their bit patterns read as sign and magnitude |
| Collation.RealValueLaws | common/src/snapshot.rs:846-854 | the number of every REAL bit pattern, by laws that leave no choice |
| Collation.KeyOrderExact | common/src/snapshot.rs:846-854 | keys are ordered by the first component that is not tied |
| Bytes.BytesLeqExact | common/src/snapshot.rs:902-920 | names and texts are ordered as byte strings: a prefix first, else the smaller byte at the first difference |
| Sorting.SortStable | orchestrator/divergence.rs:155-161 | sorting is stable: tied elements keep their order |
| Sqlite.CanonOrder | common/src/snapshot.rs:945-955 | canonicalizing negative zero never changes the order of keys |
| States.TieIsSameKey | common/src/snapshot.rs:846-854 | two rows tie in canonical key order exactly when their keys agree component by component, and the primary-key constraint calls them equal exactly when they tie and no key cell is NULL |
| CanonicalRows.OrderedImagesSame | common/src/snapshot.rs:846-864 | permuting rows, or rewriting cells that are not exported, leaves the exported rows in the same order with the same contents |
| States.ForgottenChanges | common/src/snapshot.rs:797-922 | rearranged rows with rewritten excluded cells, redeclared columns and other defaults are the same content |
| States.SameContentSameUnit | common/src/snapshot.rs:797-877 | tables of the same content export to the same unit, or fail alike |
| States.ArtifactForgets | common/src/snapshot.rs:270-287 | artifact bytes and top hash do not depend on column declaration order, row insertion order, excluded columns, the sign of zero or DivergenceOnly tables |
| States.TreeFitsExport | common/src/snapshot.rs:717-791 | what the walk produces always fits the container format, so it can be read back |
| ExportExact.ExportTableExact | common/src/snapshot.rs:797-922 | a table exports exactly when its exclusions name columns, it has a key and a kept column, and no kept cell is NaN |
| ExportExact.WalkExact | common/src/snapshot.rs:717-791 | a manifest or artifact is produced exactly when every covered table can be exported |
| ExportExact.SameUnitExact | common/src/snapshot.rs:797-877 | tables of one shape export to the same unit exactly when they hold the same rows up to order, excluded cells and the sign of zero |
| ExportExact.TopHashIsContent | common/src/snapshot.rs:130-142 | nodes with one registry and schema have equal top hashes exactly when every exported table holds the same content, absent collisions |
| ImportExact.RowsExact | common/src/snapshot.rs:511-530 | rows are inserted exactly when each has the right width and no two share a primary key; the table then holds exactly the rebuilt rows |
| ImportExact.UnitExact | common/src/snapshot.rs:469-531 | a unit is imported exactly when the registry exports it, it is not a duplicate, its columns are the target's canonical ones, the target table is empty and its rows go in |
| ImportExact.SectionExact | common/src/snapshot.rs:453-543 | a section is imported exactly when its units are accepted in turn and are all of its exported tables |
| ImportExact.AcceptedOutright | common/src/snapshot.rs:348-415 | acceptance at each section's turn is acceptance by the database as it was before the import |
| ImportExact.ImportTreeExact | common/src/snapshot.rs:348-415 | for every decoded artifact and every database: success if and only if each taken section fits the database as it is and no table that brings rows is brought again, with the exact final database and the exact report |
| ImportExact.SkippingIsFiltering | common/src/snapshot.rs:372-409 | skipped sections change nothing: the import equals the import of the taken sections alone, and the skip list is the rest with reasons, in artifact order |
| ImportExact.TakenIsTaken | common/src/snapshot.rs:377-387 | taken are, in artifact order, exactly the sections whose name a registry entry has and the caller expects in that version; all others are passed over, as unknown when the registry or the caller lacks the name, else with the artifact's version and the expected one |
| Import.SkipExact | common/src/snapshot.rs:377-387 | why one section is passed over, from registry names and expected versions alone |
| Import.FindSectionExact | common/src/snapshot.rs:377-377 | the first registry entry of the name, or none |
| Import.FindExportedExact | common/src/snapshot.rs:470-476 | the first exported table of the name, or none |
| Import.FirstMissingExact | common/src/snapshot.rs:535-541 | the first exported table that did not come, or none |
| Import.RegistryVersionsExact | common/src/snapshot.rs:329-340 | a plain import expects of every registered name the version of its last entry, and no other name |
| Imported.ImportFills | common/src/snapshot.rs:510-530 | after an import, a table that a taken unit brought rows for holds exactly those rows in the unit's order: named columns the unit's cells, all others their default |
| Imported.ImportReports | common/src/snapshot.rs:366-409 | the report lists in artifact order the taken sections with tables and row counts, and all others with their reason |
| Refusals.UnitRefused | common/src/snapshot.rs:469-531 | a unit is refused for the first of: not exported, duplicate, the target's columns at fault, columns that differ, target not empty, rows the database refuses; else imported |
| Refusals.SectionRefused | common/src/snapshot.rs:453-543 | a section fails with the error of its first refused unit, else for its first missing table |
| Refusals.ArtifactRefused | common/src/snapshot.rs:348-415 | an import of a decoded artifact fails with the error of the first taken section that is refused at its turn |
| Transfer.ReportConserves | common/src/snapshot.rs:289-306 | each table keeps its rows and columns and grows by exactly the rows the report credits to it |
| RoundTrip.RestoredExports | common/src/snapshot.rs:453-543 | a table rebuilt from an exported unit exports to that same unit |
| RoundTrip.RoundTripExact | common/src/snapshot.rs:280-287 | importing an export into a fresh database of the same shape succeeds, skips nothing, reports every section with its row counts, and exports again to the same bytes and top hash |
| Reexport.TableReexports | common/src/snapshot.rs:797-877 | a table that holds exactly a unit's rows exports to that unit if and only if the unit had them in key order |
| Reexport.ReexportExact | common/src/snapshot.rs:676-681 | for every artifact an import takes whole: exporting the result gives the artifact's own bytes if and only if sections and units stood in registry order and each unit's rows in key order |
| Reexport.SwappedRows | common/src/snapshot.rs:676-681 | an artifact with two rows out of key order is imported, and its table does not export to the unit it came from |
| Transfer.CrossEpoch | common/src/snapshot.rs:329-340 | export, import of the bytes, export: no step fails and bytes and top hash agree on both sides |
| Quorums.QuorumMeetsThreshold | hopnet-consensus/src/config.rs:35-46 | a vote count meets the engine's threshold exactly from the closed-form quorum on, for every set size and profile |
| Quorums.QuorumsIntersect | common/src/quorum.rs:71-89 | two quorums share more members than may equivocate, hence a member outside any tolerated faulty set |
| Quorums.RemainderDecides | common/src/quorum.rs:79-89 | without the tolerated faulty members the rest is still a quorum |
| Quorums.FEqExact | common/src/quorum.rs:79-89 | under BFT the tolerance is the most equivocators without which the others still are a quorum, and under majority it is 0; AUTO is BFT from 7 members on |
| Quorums.QuorumSlope | common/src/quorum.rs:71-77 | one more member raises the quorum by 0 or 1, across the AUTO seam too |
| Quorums.QuorumGrowth | hopnet-consensus/src/membership.rs:154-161 | a batch of `b` raises the quorum by at most `b`, so headroom arithmetic never underflows |
| Membership.DeltaSplits | hopnet-consensus/src/membership.rs:154-167 | headroom gain and exposure add up over split batches |
| Membership.DeltaMonotone | hopnet-consensus/src/membership.rs:154-161 | a larger batch never gains less |
| Membership.DeltaIsTolerance | hopnet-consensus/src/membership.rs:154-161 | headroom gained is crash tolerance gained |
| Membership.ExposureExact | hopnet-consensus/src/membership.rs:154-167 | exposure is what the quorum rises by, and with the headroom gained it makes up the batch |
| Membership.GainsFrom | hopnet-consensus/src/membership.rs:22-25 | the exact least gaining batch for every set size: at most 3, 2 and 5 under BFT, majority and AUTO, and under AUTO 5 only at v = 5 |
| Membership.PostureExact | hopnet-consensus/src/membership.rs:169-175 | the posture clause admits exactly the gaining batches and, without a gain, only the steps over the AUTO seam |
| Membership.WaiverExact | hopnet-consensus/src/membership.rs:184-189 | the sets with zero tolerance are exactly v <= 2, and v <= 3 under BFT |
| Membership.CeilingExact | hopnet-consensus/src/membership.rs:177-192 | for every set size, batch and number of proven live members: the ceiling admits a batch exactly when the set has at most 2 members (3 under BFT) or the grown set's quorum is within the proven live members, or, where those are no quorum, does not rise |
| Membership.StepProtected | hopnet-consensus/src/membership.rs:177-192 | every admitted step keeps a live proven quorum and the tolerance |
| Membership.RunProtected | hopnet-consensus/src/membership.rs:177-192 | over every run of admitted seatings, proofs of survival, deaths of unproven members and returns: a live proven quorum stays, and the waiver never reopens |
| Membership.UnprovenLossHarmless | hopnet-consensus/src/membership.rs:177-192 | at any point of any such run, losing any unproven members at once leaves a quorum alive |
| Membership.CeilingNecessary | hopnet-consensus/src/membership.rs:177-192 | a refused batch, seated anyway, leaves a set that the loss of its unproven members stalls |
| Membership.LeaveExact | hopnet-consensus/src/membership.rs:177-192 | a departure of a member that is not both live and proven keeps the protection exactly as long as the smaller set has tolerance |
| Membership.SeatExact | hopnet-consensus/src/membership.rs:177-192 | for every state: after an admitted seating no unproven member is needed for a quorum if and only if none was needed before and there is tolerance, or the batch is empty, or it is the one seat at v = 2 (v = 3 under BFT) |
| Membership.RunExact | hopnet-consensus/src/membership.rs:177-192 | over every admitted run from such a state, with or without tolerance: unproven members are never needed if and only if no seating is a stalling use of the waiver |
| Membership.WaiverCanStall | hopnet-consensus/src/membership.rs:184-189 | a stalling use of the waiver: two proven members under AUTO, and a batch of five whose loss stalls the mesh |
| Chains.Validate | common/src/chain.rs:74-90 | the scan of neighbours accepts exactly the non-empty chains whose ordinals ascend strictly over all pairs |
| Chains.Connection.ExecuteBatch | common/src/chain.rs:253-255 | statements run until one fails, and what ran stays |
| Chains.BatchExact | common/src/chain.rs:253-255 | a batch ends in a database exactly when its statements lead there one by one, all succeeding, or the first that fails leaves it |
| Chains.Connection.RollbackTo | common/src/chain.rs:264-266 | the database as saved at the most recent savepoint of the name, which stays |
| Chains.Connection.Release | common/src/chain.rs:257-266 | the most recent savepoint of the name and all later ones go, the database stays |
| Chains.Connection.ApplyStep | common/src/chain.rs:241-270 | a step takes effect wholly or not at all, and the caller's savepoints are as before, even with a clashing name |
| Chains.Connection.Replay | common/src/chain.rs:179-191 | database and error are those of running the chain's steps up to the target; savepoints unchanged |
| Chains.Connection.Advance | common/src/chain.rs:206-231 | database, error and count are those of running the steps above `from` up to `to`; savepoints unchanged |
| Chains.Connection.ReplayAll | common/src/chain.rs:195-200 | chains in order, each to its head, which `Chains.ReplayAllIsOneRun` says is every step of every chain; savepoints unchanged |
| Chains.StopsBeforeFirstFailure | common/src/chain.rs:179-270 | a run that stops early leaves exactly the state after the preceding steps, each of which succeeded, and names the first failing step |
| Chains.ReplayThenAdvance | common/src/chain.rs:179-231 | replay to a, fast-forward to b and to c equals replay to c in database, error and count, for arbitrary step effects |
| Chains.AdvanceCount | common/src/chain.rs:202-231 | the count never exceeds the positions crossed; in place or backwards nothing happens |
| Chains.ReplayAllIsOneRun | common/src/chain.rs:193-200 | replaying all well-shaped chains is one run over every step of every chain, in order |
| Chains.ReplayAllIllShaped | common/src/chain.rs:193-200 | an ill-shaped chain stops the run exactly where the chains before it end |
| Chains.HeadIsGreatest | common/src/chain.rs:60-64 | the head of a well-shaped chain is one of its positions, and the greatest |
| Chains.HeadRunsAll | common/src/chain.rs:60-64 | replayed to its head a chain runs every one of its steps, in order |
| Chains.JobsExact | common/src/chain.rs:186-231 | the steps run between two positions are exactly those above the lower and up to the higher, in order |
| Decimals.PushDecimal | hopnet-comms/src/alpn.rs:92-105 | the canonical numeral is appended; the ten-byte array never underflows |
| Decimals.ParseDecimal | hopnet-comms/src/alpn.rs:144-159 | the strict reader as specified, inside 64 bits throughout |
| Decimals.NumeralExact | hopnet-comms/src/alpn.rs:142-159 | the strict reader accepts exactly the canonical numerals of 32-bit numbers |
| Hexadecimal.PushHex | hopnet-comms/src/alpn.rs:83-90 | two lower-case digits per byte are appended |
| Hexadecimal.HexInjective | hopnet-comms/src/alpn.rs:85-90 | different byte strings of one length have different texts |
| Hexadecimal.HexDigits | hopnet-comms/src/alpn.rs:83-83 | the digits are 0 to 9 and a to f |
| Alpn.WriteLocked | hopnet-comms/src/alpn.rs:107-115 | builds the locked name |
| Alpn.WriteCompat | hopnet-comms/src/alpn.rs:117-129 | builds the compat name, generation 0 being the legacy literal |
| Alpn.PinnedNames | hopnet-comms/src/alpn.rs:350-356 | three names letter by letter, the legacy one for every magic |
| Alpn.ParseAlpnExact | hopnet-comms/src/alpn.rs:161-190 | a name is read as Locked(n) or Compat(n) exactly when it is the one written for our magic and n, for all 32-bit n |
| Alpn.OtherMagicForeign | hopnet-comms/src/alpn.rs:161-190 | any name that carries another magic is foreign |
| Alpn.ServeList | hopnet-comms/src/alpn.rs:220-235 | the list in preference order: own code, then generations from the head down to 0 |
| Alpn.ServesExactlyKnown | hopnet-comms/src/alpn.rs:204-235 | a name is on the list exactly when some accept tier takes it |
| Alpn.ServesOnce | hopnet-comms/src/alpn.rs:220-235 | no name is listed twice |
| Alpn.NegotiationWindow | hopnet-comms/src/alpn.rs:220-245 | heads at most 1 apart meet at the lower one, inside both windows; an older dialer lands in the retired tier with the floor; a newer one gets nothing |
| Alpn.CrossMesh | hopnet-comms/src/alpn.rs:12-24 | between meshes only the legacy name can match, exactly for dialers that still offer it |
| Alpn.LockedDial | hopnet-comms/src/alpn.rs:107-115 | a locked dial matches exactly for one magic and one code |
| Timing.Summarize | common/src/timing.rs:31-54 | gathering, sorting and adding up give the specified summary, with saturating sums |
| Timing.PercentileExact | common/src/timing.rs:56-60 | nearest rank is the least value with at least pct percent of the samples at or below it, and it is a sample |
| Timing.StatsMeaning | common/src/timing.rs:31-60 | count, both percentiles, maximum and totals of a summary, stated on the unsorted samples |
| Timing.RateExact | common/src/timing.rs:25-27 | the rate is the greatest r with r times the total time, taken as at least 1 ms, within a thousand times the bytes, capped at 2^64 - 1 |
| Rolling.MillisExact | common/src/timing.rs:62-65 | whole milliseconds, rounded down, up to the 64-bit bound |
| Rolling.WindowHolds | common/src/timing.rs:67-74 | the window is, of the newest `cap` samples, exactly those at most `max_age` old, in the order recorded |
| Timing.StatsPermute | common/src/timing.rs:31-54 | a summary does not depend on the order of the samples |
| Rolling.PopOld | common/src/timing.rs:107-112 | pops exactly the leading samples that are too old |
| Rolling.PruneIsFresh | common/src/timing.rs:107-112 | popping off the front is filtering by age if and only if no recent sample stands before an old one |
| Rolling.WindowExact | common/src/timing.rs:93-113 | whatever the clock did: the pruned ring is the age filter over the newest `cap` samples of the full history if and only if what the ring dropped is too old now and no recent sample in it stands before an old one |
| Rolling.SteadyAnswers | common/src/timing.rs:93-113 | a clock that never went back meets that condition |
| Rolling.RollingSteps.constructor | common/src/timing.rs:85-91 | starts empty, with room for at least one sample |
| Rolling.RollingSteps.Record | common/src/timing.rs:93-100 | one sample is added to the history, and the ring goes on answering for it |
| Rolling.RollingSteps.Summary | common/src/timing.rs:102-129 | summarizes exactly the pruned rings; these are, for every step, the newest `cap` recorded samples within the window, however earlier summaries pruned, if and only if every ring still answers for its history, and on a clock that never goes back they always are |
| Rolling.UnsteadyClockDiffers | common/src/timing.rs:104-113 | two recordings, and a summary between, on a clock that goes back: the ring answers differently from the window |
| Divergence.HashTextInjective | orchestrator/divergence.rs:25-28 | the stand-in for a missing table is never a hash text, and texts are equal exactly when hash or absence is |
| Divergence.LookupExact | orchestrator/divergence.rs:119-124 | the lookup finds a table exactly when it is the first of its name in the first section of that name |
| Divergence.EntryReported | orchestrator/divergence.rs:119-124 | where names tell entries apart, every entry is found under its names with its hash |
| Divergence.NodesWithExact | orchestrator/divergence.rs:137-140 | a cluster lists exactly the nodes that report under its key, in report order |
| Divergence.GroupBy | orchestrator/divergence.rs:118-140 | the groups are exactly the keys that occur, each with its nodes in report order |
| Divergence.ClusterBy | orchestrator/divergence.rs:142-161 | clusters with distinct keys covering every report, highest first and larger first |
| Divergence.ClustersPartition | orchestrator/divergence.rs:103-169 | cluster sizes add up to the number of nodes |
| Verdict.AnalyzeTable | orchestrator/divergence.rs:106-169 | the clusters of one table, with row count and exclusions as the first node with that hash reported them |
| Verdict.FirstInfoExact | orchestrator/divergence.rs:126-133 | row count and exclusions of a hash are those of the first node that reports it for the table, or absent |
| Verdict.ConsensusExact | orchestrator/divergence.rs:30-44 | one cluster at the highest height exactly when all most advanced nodes have the same key |
| Verdict.BuildDivergenceReport | orchestrator/divergence.rs:175-231 | fails exactly on no reports; otherwise covers exactly the tables any node reports, once each and in order, and its verdict is agreement |
| Verdict.FullConsensusExact | orchestrator/divergence.rs:88-100 | full consensus holds exactly when any two most advanced nodes report the same top hash, and every table one of them reports the other reports with the same hash |
| Verdict.EchoesAllEntries | orchestrator/divergence.rs:119-124 | where names tell entries apart, that agreement is about all entries of both manifests |
| MeshConsensus.ConsensusIsContent | orchestrator/divergence.rs:88-100 | over a whole mesh with one registry: full consensus is reported exactly when any two most advanced nodes hold the same content in every covered table, exported or divergence-only, absent collisions |
| Verdict.LaggingJoins | orchestrator/divergence.rs:30-44 | a node behind the highest height never changes the verdict, wherever it is listed |
| Validators.New | hopnet-consensus/src/context.rs:126-141 | the sorted list, or a refusal of an empty list and of equal neighbouring addresses |
| Validators.OrderIndependent | hopnet-consensus/src/context.rs:115-141 | rearranging an accepted input is accepted and gives the same list |
| Validators.SetListed | hopnet-consensus/src/context.rs:126-141 | an accepted set is listed by power downwards, and by strictly rising address within a power |
| Validators.AcceptedExact | hopnet-consensus/src/context.rs:126-141 | accepted are exactly the non-empty lists in which entries of one address always have another entry sorted strictly between them |
| Validators.UniformExact | hopnet-consensus/src/context.rs:126-141 | with equal powers: exactly the non-empty lists without duplicate addresses |
| Validators.DuplicatePasses | hopnet-consensus/src/context.rs:126-141 | with unequal powers a duplicate address can pass |
| Validators.RoundsDiffer | hopnet-consensus/src/context.rs:294-304 | rounds less than n apart have different proposers |
| Validators.TurnMoves | hopnet-consensus/src/context.rs:294-304 | the turn starts at the head of the list and moves one place down with every round and with every height, back to the head at its end and where the 64-bit sum wraps |
| Validators.TurnComes | hopnet-consensus/src/context.rs:294-304 | within n rounds every validator proposes |
| Validators.HonestTurn | hopnet-consensus/src/context.rs:294-304 | of k + 1 consecutive rounds one has a proposer outside any faulty set of size k |

## Left out

- SQLite itself: type affinity, collations, foreign keys, NOT NULL, rowid assignment and SQL text. A table is its
  columns with a primary-key flag and a default each, and its rows; rows whose keys tie, which only NULLs allow, are
  read in insertion order.
- Lengths that do not fit the machine word: the error for a 64-bit length on a 32-bit machine is not modelled.
- Row counts and section counts beyond their fields: the writer truncates silently; `States.Sized` excludes it.
- Error message texts and display forms; errors carry their kind and the names or offsets they report.
- Quorums.QuorumMeetsThreshold: set sizes are unbounded numbers, so the 64-bit overflow of `v * 2` is not modelled.
- Membership.RunProtected: does not include departures, vote-outs and deaths of proven members, because the planners
  that decide them are elsewhere; `Membership.LeaveExact` says when a departure keeps the protection.
- `ConsensusPolicy`: policy rows, probe windows and required spans are tables and sums that would add only easy
  members.
- Mesh codes and the retired-reason bytes: small fixed-width codecs of the kind proved for the container.
- The test-mode override of the compat head.
- Validators.RoundsDiffer: stated while height plus round stays below 2^64.
- Divergence report printing, fetching of node reports, and the list of tables catching up.
- The codec of consensus messages, the consensus engine, signing, the storage engine, the shell and the user
  interface.
