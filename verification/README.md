# Verified model of MVPC-X

This project models, in Dafny, the algorithms and state machines on which MVPC-X's verdicts rest, and
proves what they promise. `dafny verify dfyconfig.toml` checks all of it.

| file | what it models |
|---|---|
| `Wrappers.dfy` | the optional value the other modules share |
| `Hashing.dfy` | SHA-256 as a parameter with digests of 64 characters |
| `Merkle.dfy`, `MerkleProofs.dfy` | the Merkle tree: layers, proofs, verification, and what proofs and roots promise |
| `SmtTranslate.dfy`, `SmtMeaning.dfy`, `SmtUnlisted.dfy`, `SmtShapes.dfy`, `VacuityCheck.dfy`, `VacuityConverse.dfy` | the translator from Python expressions to solver terms and what it keeps of their meaning, its variable table, the vacuity check and what it reports |
| `LeanComments.dfy` | the comment stripper that blanks a buffer in place, and line numbers |
| `Brackets.dfy` | the two bracket recognisers and the grammar they share |
| `ZoneGrammar.dfy`, `ZoneSkeleton.dfy`, `ZoneExtraction.dfy`, `LexicalZones.dfy`, `ZoneValidity.dfy`, `ZoneVerdict.dfy`, `RepairLoop.dfy`, `RepairHistory.dfy`, `RepairSafety.dfy` | text split by markers into frozen parts and zones, the edit gate, the bounded repair loop |
| `ImportGraph.dfy`, `TransitiveScan.dfy` | the import graph, the worklist search over it, the scan |
| `JsonValues.dfy`, `JsonText.dfy`, `ManifestNames.dfy`, `ManifestLedger.dfy`, `ManifestVerdict.dfy`, `EvidenceLedger.dfy` | JSON values and the two hash-chained ledgers |
| `RateGuards.dfy`, `HybridAutomaton.dfy` | interval and rate audits, the Euler-stepped automaton, the trajectory auditor |
| `Text.dfy`, `Assurance.dfy`, `VerificationPlan.dfy`, `ProofRecord.dfy`, `VerificationFabric.dfy` | evidence, assurance levels, plans, records, and running a plan |
| `Ordering.dfy`, `Fingerprint.dfy`, `Canonical.dfy` | sorting, the system fingerprint and its comparison, canonical values and the composite hash |

Objects whose methods update fields are classes (`MerkleTree`, `Env`, `RepairRunner`, `Report`, the two
`Ledger`s, `HybridAutomaton`, `VerificationPlan`, `VerificationFabric`, `HashBuilder`); loops are methods
proved equal to a function, and the lemmas are about that function.

**Hashes.** No theorem assumes that a hash is injective. Where a result would need it, the statement is a
disjunction: the result holds, or two texts (or values) computed by a named function from the theorem's own
inputs differ and have the same hash. What the manifest chain asks of reading and writing JSON is met by a
text form that can be read back (`JsonText.ReadsBack`, `ManifestLedger.CodecExists`); tamper evidence does
not ask it.

**Main results.**
- Merkle: an accepted proof opens the tree at the position its sides spell, and the leaf is in the list;
  the root binds the list padded to a power of two, hence the list at a given length.
- Translation: a translated expression has the value of its source under every assignment, provided
  Python computes its constants exactly, so a vacuity report is right on such hypotheses wherever comparisons outside
  the six operators stand in positive places; and with the six operators alone a declaration is reported
  exactly when at least two of its binder types count and no assignment satisfies all that do.
- Scanners: each equals its grammar; block comments nest, brackets balance, zones split losslessly and in
  one way only.
- Edits: an edit is accepted exactly when nothing but zone bodies changed; whichever patcher drives it, the
  repair loop keeps the frozen text in exactly the cases its guards cover, and builds each proposal on the last
  admitted one. Whether an edit leaves a valid source valid depends only on the begin markers in the bodies.
- Scan: visits each reachable file once, nearest first, and all of them unless the cap stops it.
- Ledgers: runs verify; a directory verifies exactly when its items form a chain, and two such directories with one
  last hash hold the same manifests. The last entry hash binds a chained evidence list.
- Guards: an accepted rate audit bounds every pair of samples, and accepts an automaton's run exactly when
  each of its steps kept to the bound. Along a run a variable stays between the lines its derivatives allow.
- Assurance: the level is the highest one the *set* of evidence meets; a record with a
  formal check is above D0 exactly when one identity runs through it, and results alone never reach D6.
- Canonical form: idempotent, and blind to insertion and iteration order.

**Where the code falls short of its promise.** The model keeps the code as it is, gives a failing input and
says when the promise holds.
- `docs/DIAMOND_ASSURANCE_PROFILE.md` makes D3 "D2 plus integrity and provenance controls". The code lifts
  computation-only evidence to D3 as well: `ComputationAloneReachesD3`, exactly when: `HardenedFormalFailsIff`.
- Comparisons with an operator outside the six (`is`, `in`) are dropped from a chain. Under `and`, `or` and an even
  number of negations that does no harm to a report (`ReportMeansVacuous`). Under one negation it turns a true hypothesis
  into a false term exactly when the listed links hold and a dropped one does not (`NegatedChainFailsIff`). If the
  listed links always hold, the constraints contradict each other whatever else is assumed, and with at least two of
  them a solver that recognises contradictions has the declaration reported (`NegatedChainFalseAlarm`); two binder
  types on which that happens: `UnlistedOperatorFalseAlarm`.
- Constants are folded by Python, which rounds: `1 / 3` reaches the solver as 0.3333333333333333. `3 * x = 1` and
  `x = 1 / 3` are reported although one third satisfies both: `RoundedConstantFalseAlarm`, `PythonThirdIsReported`.
  The meaning of a comparison with a constant is kept exactly when the constant is computed exactly (`ConstantKeptIff`).
- A source that contains `EVOLVE` text but no `EVOLVE-BLOCK-BEGIN` passes the repair loop without a zone
  check: `ValueZoneIsErased`, `UnguardedIsErased`, exactly when: `FrozenSafeIff`.
- A capped scan can say clean while a reachable file is dirty: `CapHidesDirt`. With different texts in the files the
  verdict is right for every scanner exactly when the cap is at least the number of reachable files
  (`CleanVerdict`); every cap fails for some project (`EveryCapFails`).
- Lists of different lengths can share a Merkle root: `OddListSharesRoot`, and exactly when, `RootBindsPadding`.
- A file whose name holds a line of the fingerprint merges two files into one: `MergedFilesShareFingerprint`,
  `PythonFilesShareFingerprint`. Without such names the text decodes: `TextDecodes`; with one it splits:
  `AmbiguousPathsSplit`.
- A dictionary's canonical form depends on insertion order when two keys share their `str` text:
  `SharedTextDependsOnOrder`, exactly when: `OrderFreeIff`.
- An adapter name is stripped when registered but not when looked up: `SpacedNameIsLost`, exactly when: `FoundIff`.
- The evidence ledger never recomputes an entry's hash. Verification checks parent links and payload hashes and no more
  (`VerifiesIff`), so another kind, time or number, and another last hash, pass: `KindEditUnnoticed`.
- A result becomes evidence of whatever backend and kind it names, not of the target it was asked for:
  `ImpostorSharesSource`, exactly when results answer their targets: `AnswersIff`.
- The composite hash depends on the order of two parts with one name and different digests: `DigestDependsOnOrder`,
  exactly when: `PartsOrderFreeIff`.
- Asking a valid record for its level raises when a formally checked result has no concrete hash:
  `UnhashedComputationRaises`, exactly when: `LevelRaisesIff`.

## Model

| member | source | states |
|---|---|---|
| Merkle.MerkleTree.constructor | src/mvpc/hardening/crypto_integrity.py:97-100 | a new tree holds the leaf digests, all layers and the root of its data |
| Merkle.MerkleTree.Build | src/mvpc/hardening/crypto_integrity.py:108-123 | the layer loop computes the recursively defined layers and top, and the special root of the empty list |
| Merkle.MerkleTree.NextLayer | src/mvpc/hardening/crypto_integrity.py:116-121 | one layer: neighbours hashed in pairs, an odd last node with itself |
| Merkle.MerkleTree.Proof | src/mvpc/hardening/crypto_integrity.py:125-137 | the path of siblings from leaf to root, or an index error exactly outside the list |
| Merkle.MerkleTree.VerifyProof | src/mvpc/hardening/crypto_integrity.py:139-147 | acceptance is equality of the folded path with the root, any side but "R" counting as left |
| MerkleProofs.RootIsDigest | src/mvpc/hardening/crypto_integrity.py:108-123 | the root built by layers is the digest of a binary tree over the leaves |
| MerkleProofs.ProofComplete | src/mvpc/hardening/crypto_integrity.py:125-147 | the proof of every index of every non-empty list is accepted |
| MerkleProofs.ProofShape | src/mvpc/hardening/crypto_integrity.py:125-137 | a proof has one step per layer below the root and its sides spell the index in binary |
| MerkleProofs.DepthIsLeast | src/mvpc/hardening/crypto_integrity.py:115-122 | that length is the least k with n at most 2^k |
| MerkleProofs.PaddedExtends | src/mvpc/hardening/crypto_integrity.py:119 | duplicating odd nodes pads the list to a power of two with its own leaves |
| MerkleProofs.AcceptedOpens | src/mvpc/hardening/crypto_integrity.py:139-147 | any path and leaf that fold to a tree's digest follow a branch of that tree to that leaf, or exhibit a collision |
| MerkleProofs.OpeningAccepted | src/mvpc/hardening/crypto_integrity.py:139-147 | the converse: every branch of the tree is accepted |
| MerkleProofs.ProofSound | src/mvpc/hardening/crypto_integrity.py:139-147 | an adversarial leaf and path accepted against a built root: the leaf is in the list at the position the sides spell and the length is the number of layers minus one, or an explicit collision |
| MerkleProofs.ProofUnique | src/mvpc/hardening/crypto_integrity.py:125-147 | for a given index only the honest leaf and siblings are accepted, or an explicit collision |
| MerkleProofs.TreeBinding | src/mvpc/hardening/crypto_integrity.py:106-120 | trees with one digest are equal in shape and leaves, or an explicit collision; the `leaf:` and `node:` prefixes keep kinds apart |
| MerkleProofs.RootBindsPadding | src/mvpc/hardening/crypto_integrity.py:108-123 | roots are equal exactly for lists with equal padding, short of an explicit collision |
| MerkleProofs.RootBindsAtEqualLength | src/mvpc/hardening/crypto_integrity.py:108-123 | lists of one length with one root are equal, or an explicit collision |
| MerkleProofs.OddListSharesRoot | src/mvpc/hardening/crypto_integrity.py:119 | an odd list shares its root with itself plus its last leaf |
| SmtMeaning.TranslationMeaning | src/mvpc/backends/lean.py:286-345 | a translated expression whose constants Python computes exactly has its source value under every assignment, through folding, chains, coercions and connectives, dropped operators read as true |
| SmtUnlisted.SixOpsMeaning | src/mvpc/backends/lean.py:286-345 | with only the six comparison operators the value is that of the source itself |
| SmtMeaning.ConstantKeptIff | src/mvpc/backends/lean.py:303-315 | a variable compared with closed arithmetic keeps its meaning under every assignment exactly when Python computes the constant exactly |
| SmtMeaning.PlainIsClosed | src/mvpc/backends/lean.py:303-314 | only arithmetic over literals becomes a plain number |
| SmtMeaning.ChainMeaning | src/mvpc/backends/lean.py:315-334 | a comparison chain is the conjunction of its links, each operand shared between two links |
| SmtMeaning.JunctionMeaning | src/mvpc/backends/lean.py:289-294 | n-ary and/or agree with Python's left-to-right evaluation |
| SmtMeaning.CompareMeaning | src/mvpc/backends/lean.py:321-332 | each listed comparison of operands, plain, built, mirrored or coerced, has the meaning of the source operator |
| SmtMeaning.ComparisonMeans | src/mvpc/backends/lean.py:321-332 | a variable compared with a whole number, operator by operator |
| SmtMeaning.NamesMean | src/mvpc/backends/lean.py:335-342 | four names are truth values, every other one a real variable |
| SmtUnlisted.DroppedLinksWeaken | src/mvpc/backends/lean.py:319-334 | a chain is true exactly when its translation is and the dropped links hold |
| SmtUnlisted.PolarMeaning | src/mvpc/backends/lean.py:289-334 | with exact constants and unlisted operators only in positive (negative) positions, a true (false) hypothesis has a true (false) translation |
| SmtUnlisted.NegatedChainFailsIff | src/mvpc/backends/lean.py:301-334 | a negated chain holds against its translation exactly when its listed links hold and a dropped one does not |
| SmtShapes.TranslatesIff | src/mvpc/backends/lean.py:286-345 | translation succeeds exactly on supported expressions whose sorts fit and whose constants Python computes, and gives an operand of the shape read off the form |
| SmtShapes.TranslationWellSorted | src/mvpc/backends/lean.py:286-345 | whatever is translated is a term the solver accepts: numbers where it computes or orders, truth values where it negates or joins, one sort on both sides of a comparison |
| VacuityCheck.Env.Variable | src/mvpc/backends/lean.py:340-342 | one solver variable per name, created at first use |
| VacuityCheck.Env.AstToZ3 | src/mvpc/backends/lean.py:286-345 | the stateful translator computes the pure translation from any table and only adds names of the expression |
| VacuityCheck.Env.AllToZ3 | src/mvpc/backends/lean.py:290 | the operands of a junction are translated in order through one table, or the first failure ends it |
| VacuityCheck.Env.CompareToZ3 | src/mvpc/backends/lean.py:315-334 | the loop carrying the left operand computes the translation of the whole chain |
| VacuityCheck.Vacuous | src/mvpc/backends/lean.py:451-471 | of the binder types with a comparison character, a report means at least two translated and the solver refuted them |
| VacuityCheck.HypothesesSatisfy | src/mvpc/backends/lean.py:459-471 | an assignment that satisfies hypotheses with exact constants and unlisted operators in positive places only satisfies every term given to the solver |
| VacuityCheck.ReportMeansVacuous | src/mvpc/backends/lean.py:451-471 | for such hypotheses and a sound solver, a report means no assignment satisfies the full list, skipped hypotheses included |
| VacuityConverse.ReportedIff | src/mvpc/backends/lean.py:451-471 | with a sound and complete solver and six-operator hypotheses with exact constants and a value everywhere, a declaration is reported exactly when at least two binder types hold one of > < = ≠ ≤ ≥ and translate to truth values, and no assignment satisfies all that do |
| VacuityConverse.ConstraintsOf | src/mvpc/backends/lean.py:451-470 | the solver is given the terms of exactly these types, one each |
| VacuityConverse.IgnoredType | src/mvpc/backends/lean.py:451-469 | any other binder type changes nothing, wherever it stands |
| VacuityCheck.NegatedChainRefutedIff | src/mvpc/backends/lean.py:301-334 | a negated chain's constraint contradicts itself exactly when its listed links hold under every assignment |
| VacuityCheck.NegatedChainUnsatisfiable | src/mvpc/backends/lean.py:455-471 | such a chain with a dropped link that fails holds, yet no model satisfies the constraints, whatever the other hypotheses |
| VacuityCheck.NegatedChainFalseAlarm | src/mvpc/backends/lean.py:455-471 | with a solver that recognises contradictions the declaration is then reported exactly when at least two hypotheses translate |
| VacuityCheck.UnlistedOperatorFalseAlarm | src/mvpc/backends/lean.py:451-471 | two binder types that pass the filter and hold are translated to terms nothing satisfies |
| VacuityCheck.RoundedConstantFalseAlarm | src/mvpc/backends/lean.py:303-315 | `3 * x = 1` and `x = 1 / 3` hold together at one third, and their constraints have a model exactly when Python's third is exact |
| VacuityCheck.PythonThirdIsReported | src/mvpc/backends/lean.py:451-471 | it is not, so a complete solver has the two reported |
| LeanComments.BlankLine | src/mvpc/backends/lean.py:148-153 | blanks exactly up to the line end and returns that position |
| LeanComments.Advance | src/mvpc/backends/lean.py:127-155 | one turn of the loop: the next position and depth, and exactly the cells it blanks |
| LeanComments.StripLeanComments | src/mvpc/backends/lean.py:123-156 | the in-place loop computes the recursive specification of stripping |
| LeanComments.StripKeepsOffsets | src/mvpc/backends/lean.py:123-156 | every position keeps its character or is blanked, line ends staying where they were |
| LeanComments.LinesAgree | src/mvpc/backends/lean.py:239-240 | line numbers are the same in original and stripped text at every offset, negative ones included |
| LeanComments.LineOfCounts | src/mvpc/backends/lean.py:239-240 | a line number is one more than the number of line ends before the offset |
| LeanComments.StrippedHasNoOpener | src/mvpc/backends/lean.py:123-156 | no comment opener survives, unterminated comments included |
| LeanComments.StripIdempotent | src/mvpc/backends/lean.py:123-156 | stripping twice is stripping once |
| LeanComments.CounterIsNesting | src/mvpc/backends/lean.py:128-142 | the depth counter leaves a block where recursive nesting does |
| LeanComments.BlockEnds | src/mvpc/backends/lean.py:128-147 | a block written by the nested-comment grammar ends exactly at its own closer |
| LeanComments.BlockStripped | src/mvpc/backends/lean.py:128-147 | such a block is blanked whole and stripping goes on behind it |
| LeanComments.DocumentStripped | src/mvpc/backends/lean.py:123-156 | in a text written from code, line comments and nested block comments exactly the comments are blanked, line comments up to their line end |
| LeanComments.UnclosedStripped | src/mvpc/backends/lean.py:128-147 | a block that nothing closes is blanked to the end of the text |
| Brackets.BalancedDelimiters | src/mvpc/nexus/ast_normalizer.py:145-153 | the loop accepts when the stack run ends empty |
| Brackets.BalancedIff | src/mvpc/nexus/ast_normalizer.py:145-153 | that is exactly the inductively defined balanced strings |
| Brackets.FindParenGroups | src/mvpc/backends/lean.py:214-236 | the groups are the slices at the spans of the reference scan |
| Brackets.GroupsAreBalanced | src/mvpc/backends/lean.py:214-236 | on any input the slices are ordered, disjoint, balanced, and no proper prefix of one is |
| Brackets.ScanCovers | src/mvpc/backends/lean.py:214-236 | while no closer failed both functions hold one stack and every bracket is in a group or pending |
| Brackets.BalancedIsCovered | src/mvpc/backends/lean.py:214-236 | on a balanced input every bracket lies in exactly one slice |
| ZoneExtraction.ExtractZones | src/mvpc/core/lexical_zones.py:33-47 | the match loop returns the zones of the decomposition with kinds, names, bodies and offsets, or the first mismatch |
| ZoneVerdict.ExtractionFails | src/mvpc/core/lexical_zones.py:35-41 | extraction fails on the first zone whose end marker is not of the kind of its begin marker, with the error of that kind |
| ZoneVerdict.ExtractionGives | src/mvpc/core/lexical_zones.py:42-46 | otherwise there is one record per zone in order, with its kind, and its offsets cut out begin marker, body and end marker |
| ZoneVerdict.NameAndBody | src/mvpc/core/lexical_zones.py:43-46 | a zone is named by its stripped first line, or by its number if that is blank; its body is what follows that line, if anything does |
| ZoneVerdict.FirstZoneIff | src/mvpc/core/lexical_zones.py:14-17 | the first zone runs from the first begin marker to the first end marker behind it |
| ZoneVerdict.NoZoneIff | src/mvpc/core/lexical_zones.py:14-17 | there is none exactly when no end marker stands behind a begin marker |
| ZoneGrammar.SplitLossless | src/mvpc/core/lexical_zones.py:14-17 | the decomposition writes back the source |
| ZoneGrammar.SplitWritten | src/mvpc/core/lexical_zones.py:14-17 | a canonical layout is the only decomposition of the text it writes |
| ZoneGrammar.SplitCanonical | src/mvpc/core/lexical_zones.py:14-17 | every decomposition is canonical: leftmost begin markers, shortest bodies |
| ZoneSkeleton.NoOverlap | src/mvpc/core/lexical_zones.py:9-17 | occurrences of end markers never overlap |
| ZoneSkeleton.SplitSkeleton | src/mvpc/core/lexical_zones.py:58-62 | the skeleton decomposes into the same frozen parts and markers with placeholder bodies |
| ZoneSkeleton.SkeletonDeterminesFrozen | src/mvpc/core/lexical_zones.py:58-62 | skeletons are equal exactly when all frozen parts and markers are |
| ZoneSkeleton.SplitWithBodies | src/mvpc/core/lexical_zones.py:14-17 | other zone bodies free of end markers leave the decomposition as it was |
| LexicalZones.EvolveEndsApart | src/mvpc/core/lexical_zones.py:9-12 | the four EVOLVE markers meet the conditions of the grammar |
| LexicalZones.SkeletonExact | src/mvpc/core/lexical_zones.py:58-62 | for them the skeleton is idempotent and equal exactly on equal frozen text |
| LexicalZones.AcceptedIff | src/mvpc/core/lexical_zones.py:65-72 | acceptance is exactly: both valid, same number of zones, same markers in order, same frozen text; the accepted text is the original with other bodies |
| ZoneVerdict.ValidateIff | src/mvpc/core/lexical_zones.py:33-55 | a source is valid exactly when every zone ends with the marker of its own kind and each kind has as many end markers in the text as begin markers |
| ZoneVerdict.MismatchDecides | src/mvpc/core/lexical_zones.py:36-41 | an invalid source has the error of its first mismatched zone |
| ZoneVerdict.UnbalancedIff | src/mvpc/core/lexical_zones.py:52-55 | or else of the blocks, or else of the values that do not balance |
| ZoneVerdict.CountIsOccurrences | src/mvpc/core/lexical_zones.py:52-55 | counting a marker from the left finds all its occurrences |
| ZoneVerdict.RefusalNames | src/mvpc/core/lexical_zones.py:65-72 | a refused edit names what is wrong with the original, or else with the proposal, or else the change of frozen text |
| ZoneVerdict.SkeletonText | src/mvpc/core/lexical_zones.py:58-62 | the skeleton holds `__ZONE__` for every body and is otherwise the source |
| LexicalZones.EditInsideZones | src/mvpc/core/lexical_zones.py:65-72 | every edit of zone bodies alone is accepted when both texts are valid |
| ZoneValidity.CountAround | src/mvpc/core/lexical_zones.py:50-55 | occurrences of a marker are counted apart before, in and behind any marker |
| ZoneValidity.BodiesDecideValidity | src/mvpc/core/lexical_zones.py:50-55 | an edit of bodies leaves a valid source valid exactly when the bodies hold as many begin markers of either kind as before |
| ZoneValidity.BodyEditAcceptedIff | src/mvpc/core/lexical_zones.py:65-72 | and is accepted exactly then |
| LexicalZones.AcceptanceIsEquivalence | src/mvpc/core/lexical_zones.py:65-72 | acceptance is reflexive on valid sources, symmetric and transitive |
| RepairLoop.RepairRunner.Run | src/mvpc/hardening/repair_loop.py:52-118 | the loop computes the recursive specification, exits and attempt log included |
| RepairHistory.RepairIsHistory | src/mvpc/hardening/repair_loop.py:52-118 | a run is refused for its zones, or is a history from the source on: the patcher is given the current source, the caller's trace or the first finding, and the attempt number; an admitted proposal becomes current, a refused one does not |
| RepairHistory.HistoryUnique | src/mvpc/hardening/repair_loop.py:64-118 | and only this run is such a history |
| RepairHistory.RepairProgress | src/mvpc/hardening/repair_loop.py:64-118 | proposals build on each other: if each is admitted and the n-th is the first to scan clean, the run returns it after n attempts; if none is, it returns the last the depth allows |
| RepairHistory.ContainsIff | src/mvpc/hardening/repair_loop.py:54-89 | a text contains a word exactly when it can be cut around it |
| RepairSafety.LoopKeepsFrozen | src/mvpc/hardening/repair_loop.py:64-118 | with a block marker in the source every run keeps the skeleton, whatever the patcher |
| RepairSafety.LoopKeepsUnzoned | src/mvpc/hardening/repair_loop.py:76-89 | without EVOLVE text the source itself comes back |
| RepairSafety.RepairLog | src/mvpc/hardening/repair_loop.py:64-118 | at most `max_depth` attempts, numbered in order, only the last accepted; success means the returned source scans clean |
| RepairSafety.GuardedKeepsFrozen | src/mvpc/hardening/repair_loop.py:52-118 | in the guarded cases the frozen text survives every patcher |
| RepairSafety.UnguardedIsErased | src/mvpc/hardening/repair_loop.py:74-104 | in all others a patcher that empties the source loses it |
| RepairSafety.ValueZoneIsErased | src/mvpc/hardening/repair_loop.py:74-104 | such a source: valid, with a value zone only, and dirty |
| RepairSafety.FrozenSafeIff | src/mvpc/hardening/repair_loop.py:52-118 | frozen text is safe from all patchers exactly in the guarded cases |
| ImportGraph.FrontDistance | src/mvpc/hardening/transitive_scan.py:69-74 | a label popped for the first time is at the distance recorded when it was queued |
| ImportGraph.AdvanceKeeps | src/mvpc/hardening/transitive_scan.py:69-94 | scanning one label keeps the search invariant, duplicates in the queue allowed |
| ImportGraph.DropKeeps | src/mvpc/hardening/transitive_scan.py:70-72 | dropping a label seen before keeps it too |
| ImportGraph.DrainedIsReachable | src/mvpc/hardening/transitive_scan.py:69-96 | when the queue drains exactly the reachable labels were scanned |
| ImportGraph.ScannedExactly | src/mvpc/hardening/transitive_scan.py:69-96 | the number scanned is the smaller of the cap and the number reachable |
| TransitiveScan.Report.Record | src/mvpc/hardening/transitive_scan.py:73-82 | a scanned file adds its label and findings and clears `clean` when dirty |
| TransitiveScan.QueueImports | src/mvpc/hardening/transitive_scan.py:84-94 | each import is queued, skipped as seen, or noted as missing, in order |
| TransitiveScan.Visit | src/mvpc/hardening/transitive_scan.py:73-94 | one file's visit is one step of the search |
| TransitiveScan.Turn | src/mvpc/hardening/transitive_scan.py:69-94 | one turn of the loop skips a seen label or visits a new one, and keeps the search invariant and the report |
| TransitiveScan.Scan | src/mvpc/hardening/transitive_scan.py:65-96 | terminates; scans reachable labels once each, by non-decreasing distance, all of them within the cap; report and `clean` match what was scanned |
| TransitiveScan.WithinCapIsRight | src/mvpc/hardening/transitive_scan.py:65-96 | within the cap `clean` speaks for every reachable file |
| TransitiveScan.RightForAllScannersIff | src/mvpc/hardening/transitive_scan.py:65-96 | `clean` is right for every scanner exactly when every reachable text was scanned |
| TransitiveScan.CleanVerdict | src/mvpc/hardening/transitive_scan.py:65-96 | with different texts, that is exactly when the cap is at least the number of reachable files |
| TransitiveScan.CapHidesDirt | src/mvpc/hardening/transitive_scan.py:69 | a scanner that objects to a left-out file's text only finds every scanned file clean, whatever the cap |
| TransitiveScan.EveryCapFails | src/mvpc/hardening/transitive_scan.py:59-69 | for every cap there is a project and a scanner whose capped verdict is wrong |
| ManifestNames.NumberOfPadded | src/mvpc/nexus/manifest_ledger.py:133 | the zero-padded sequence number reads back, beyond six digits too |
| ManifestNames.NamesApart | src/mvpc/nexus/manifest_ledger.py:133-135 | file names of different sequence numbers differ |
| ManifestLedger.Ledger.Append | src/mvpc/nexus/manifest_ledger.py:115-159 | the new directory contents, or the exception with nothing changed |
| ManifestLedger.Ledger.Verify | src/mvpc/nexus/manifest_ledger.py:161-203 | the loop computes the verdict function: errors in order and the last hash |
| ManifestLedger.CleanStep | src/mvpc/nexus/manifest_ledger.py:184-202 | an entry without errors carries its own recomputed hash and the previous one |
| ManifestLedger.ChainsAgree | src/mvpc/nexus/manifest_ledger.py:161-203 | clean chains with one last hash agree entry by entry, or an explicit collision |
| ManifestLedger.TamperEvident | src/mvpc/nexus/manifest_ledger.py:161-203 | two directories that verify with one last manifest hash hold the same manifests and are equally long, or an explicit collision |
| ManifestVerdict.VerifiesIff | src/mvpc/nexus/manifest_ledger.py:161-203 | verification finds nothing exactly when the index lists items and each has its number, existing files, a manifest that names its predecessor's hash and carries its own, the same hash in the index and its line in the Markdown |
| ManifestVerdict.VerdictHash | src/mvpc/nexus/manifest_ledger.py:172-202 | it then ends in the content hash of the last manifest |
| ManifestVerdict.ErrorsAreFaults | src/mvpc/nexus/manifest_ledger.py:172-202 | otherwise, short of an uncaught exception, it reports of each item exactly what is wrong with it, the link judged by the nearest readable manifest before it |
| ManifestVerdict.AppendWrites | src/mvpc/nexus/manifest_ledger.py:118-154 | the manifest, the companion, the listed item and both file names, field by field; refused exactly when one of the names is taken |
| ManifestVerdict.AppendDecodeErrorIff | src/mvpc/nexus/manifest_ledger.py:55-58 | an index that is no JSON is refused as such |
| ManifestVerdict.AppendRaisesIff | src/mvpc/nexus/manifest_ledger.py:59-121 | a type error means JSON that lists no items or ends in no dictionary, a key error a last item without a hash |
| JsonValues.NumbersEqualIff | src/mvpc/nexus/manifest_ledger.py:170 | a value equals a sequence number exactly when it is that number, the truth value that counts as it, or the double that is exactly it |
| JsonValues.FalsyIff | src/mvpc/nexus/manifest_ledger.py:198-202 | false are exactly null, what equals zero, and what is empty |
| ManifestLedger.StoredHonest | src/mvpc/nexus/manifest_ledger.py:115-159 | an append keeps an honestly written directory honest |
| ManifestLedger.StoredManifests | src/mvpc/nexus/manifest_ledger.py:115-159 | it leaves the older manifests alone and stores the new one signed |
| ManifestLedger.AppendKeeps | src/mvpc/nexus/manifest_ledger.py:136-137 | it never refuses: the new file names are free |
| ManifestLedger.RunsVerify | src/mvpc/nexus/manifest_ledger.py:115-203 | every run of appends from an empty directory succeeds, verifies without errors and holds the requests in order |
| ManifestVerdict.RunsRecord | src/mvpc/nexus/manifest_ledger.py:115-203 | the items of such a run form a chain whose manifests say number, status, source hash, time and payload of the requests in order |
| EvidenceLedger.Ledger.Append | src/mvpc/ledger.py:37-66 | the new entry, list and index, or a refused fork with list and index unchanged |
| EvidenceLedger.Ledger.VerifyChain | src/mvpc/ledger.py:90-100 | the loop computes the chain errors, a payload hash with or without the branch flag accepted |
| EvidenceLedger.Ledger.Load | src/mvpc/ledger.py:80-88 | loading rebuilds the ledger by marked appends |
| EvidenceLedger.AppendChains | src/mvpc/ledger.py:37-66 | an append keeps sequence numbers, parent links and hashes in order |
| EvidenceLedger.AppendIndexes | src/mvpc/ledger.py:59-65 | an append keeps the index listing exactly each parent's children |
| EvidenceLedger.EqualHashesCollide | src/mvpc/ledger.py:41-49 | two entries with one hash are a collision of their bodies |
| EvidenceLedger.TipBinds | src/mvpc/ledger.py:37-49 | the last hash binds the list: two chains that end in it are equal entry by entry, or an explicit collision |
| EvidenceLedger.VerifiesIff | src/mvpc/ledger.py:90-100 | verification finds nothing exactly when every entry names the hash recorded before it and its payload has the recorded hash |
| EvidenceLedger.ErrorsFound | src/mvpc/ledger.py:90-100 | each error stands exactly where a link or a payload does not hold |
| EvidenceLedger.EditUnnoticed | src/mvpc/ledger.py:90-100 | lists that agree in links, payloads, payload hashes and all entry hashes but the last have one verdict |
| EvidenceLedger.KindEditUnnoticed | src/mvpc/ledger.py:90-100 | another kind, time or number of any entry, and another hash of the last, pass |
| EvidenceLedger.ForkMeansCollision | src/mvpc/ledger.py:59-63 | the fork guard fires only on an explicit collision |
| EvidenceLedger.RefusedIff | src/mvpc/ledger.py:59-63 | an append is refused exactly when the last hash already has a child and the payload asks for no branch |
| EvidenceLedger.OneChildEach | src/mvpc/ledger.py:59-65 | each entry but the last has its successor as only child, and the last none |
| EvidenceLedger.RunsConsistent | src/mvpc/ledger.py:26-100 | every run is chained, indexed, verifies and keeps kinds, times and payloads |
| EvidenceLedger.RunsFailOnlyByCollision | src/mvpc/ledger.py:60-63 | a run that fails exhibits a collision in one of its prefixes |
| EvidenceLedger.ReloadKeeps | src/mvpc/ledger.py:74-88 | saving and loading never fails, keeps kinds and payloads with the branch flag set, and gives a chained and indexed ledger |
| RateGuards.PointIntervalIsBand | src/mvpc/phys/interval_guards.py:14-40 | a sample's interval holds exactly the values within the noise share of its magnitude plus one, for noise of either sign |
| RateGuards.AuditIntervalTrajectory | src/mvpc/phys/interval_guards.py:43-63 | the loop records the violations of every sample of the shorter list, in order |
| RateGuards.IntervalAuditMeaning | src/mvpc/phys/interval_guards.py:43-63 | no violation exactly when every value in every band respects the limits |
| RateGuards.IntervalFindings | src/mvpc/phys/interval_guards.py:43-63 | each violation is a sample whose band leaves the limits, with the band itself |
| RateGuards.AuditRateOfChange | src/mvpc/phys/interval_guards.py:66-84 | the loop records time and rate violations step by step |
| RateGuards.RateAuditMeaning | src/mvpc/phys/interval_guards.py:66-84 | no violation exactly when times increase and every pair of samples, near or far, is within the rate |
| RateGuards.RateFindings | src/mvpc/phys/interval_guards.py:66-84 | each violation is a step that does not go forward in time or exceeds the rate, with that rate |
| RateGuards.AuditCps | src/mvpc/phys/interval_guards.py:87-109 | the combined audit accepts exactly when both signals pass both audits |
| HybridAutomata.HybridAutomaton.constructor | src/mvpc/phys/hybrid_automata.py:25-29 | time zero, and a trajectory of the one initial state |
| HybridAutomata.HybridAutomaton.Step | src/mvpc/phys/hybrid_automata.py:31-48 | one Euler step is appended, the trajectory stays the run of all steps taken and its last state current |
| HybridAutomata.StepMoves | src/mvpc/phys/hybrid_automata.py:37-44 | over a step time moves by dt and a variable by its derivative times that, a missing derivative being zero |
| HybridAutomata.RunIsLine | src/mvpc/phys/hybrid_automata.py:31-48 | a variable with one derivative throughout moves on a straight line |
| HybridAutomata.RunStaysBetween | src/mvpc/phys/hybrid_automata.py:31-48 | with derivatives between two bounds it stays between two lines |
| HybridAutomata.RunGrows | src/mvpc/phys/hybrid_automata.py:31-48 | with positive dt and derivatives it grows |
| HybridAutomata.VarsKept | src/mvpc/phys/hybrid_automata.py:37-41 | every state of every run has the initial variables |
| HybridAutomata.ModeInForce | src/mvpc/phys/hybrid_automata.py:43 | the mode is the one last named, an absent or empty name keeping it |
| HybridAutomata.RunPassesRateAudit | src/mvpc/phys/hybrid_automata.py:31-48 | a run's samples pass the rate audit exactly when each step had positive dt and a derivative within the bound |
| HybridAutomata.RunStaysInCone | src/mvpc/phys/hybrid_automata.py:31-48 | in such a run any two samples are within the rate of each other |
| HybridAutomata.AuditTrajectory | src/mvpc/phys/hybrid_automata.py:53-82 | the loop records velocity, temperature and kinetic-energy violations sample by sample |
| HybridAutomata.SafetyFindings | src/mvpc/phys/hybrid_automata.py:65-80 | exactly the samples above a bound, each with time, value and limit |
| HybridAutomata.GuardedTruthIsSafe | src/mvpc/phys/interval_guards.py:87-109 | measured samples that pass leave at most kinetic-energy violations in any true trajectory within the noise band |
| Assurance.LevelMeets | src/mvpc/assurance.py:135-208 | the derived level is the highest whose demands, stated on the set of items, are met |
| Assurance.PairsInOrderSuffice | src/mvpc/assurance.py:184-197 | comparing items only with later ones finds every independent pair |
| Assurance.ConflictMeaning | src/mvpc/assurance.py:146-159 | the early exits fire exactly on two disagreeing scoped items or a rejecting verdict |
| Assurance.SameItemsSameLevel | src/mvpc/assurance.py:135-208 | reordering and repeating evidence changes nothing |
| Assurance.MoreNeverLowers | src/mvpc/assurance.py:135-208 | more evidence never lowers the level while the total is free of conflict |
| Assurance.ConflictIsFinal | src/mvpc/assurance.py:154-159 | a conflict holds every extension at D0 |
| Assurance.UnscopedNeverLowers | src/mvpc/assurance.py:139-152 | legacy unscoped items that do not reject never lower a level |
| Assurance.OneIdentity | src/mvpc/assurance.py:146-155 | above D0 all scoped items share claim and proposition, and concrete hashes agree |
| Assurance.ConstructIff | src/mvpc/assurance.py:103-120 | which items can be built, and the first failing demand otherwise |
| Assurance.D4IsRechecked | src/mvpc/assurance.py:184-199 | D4 and above rest on two formally checked items from different sources, in different groups or one listing the other |
| Assurance.HardenedFormalFailsIff | src/mvpc/assurance.py:172-182 | exactly when D3 is reached without a formal check; D2 never is |
| Assurance.ComputationAloneReachesD3 | src/mvpc/assurance.py:179-182 | four computation items that reach D3 |
| Planning.BecomesEvidenceIff | src/mvpc/verification_plan.py:61-79 | a claim's result becomes evidence unless it is formal without a concrete hash |
| Planning.SourceIdDecodes | src/mvpc/verification_plan.py:68 | a source id names one backend and one kind |
| Planning.VerificationPlan.ValidateTargets | src/mvpc/verification_plan.py:94-100 | the check passes exactly when no two targets share backend and kind |
| Planning.VerificationPlan.Add | src/mvpc/verification_plan.py:102-105 | the target is appended, and stays even when the check then fails |
| Planning.MakePlan | src/mvpc/verification_plan.py:89-92 | building fails exactly on a blank claim or duplicate targets |
| Planning.AddAcceptsNewKeys | src/mvpc/verification_plan.py:94-105 | a plan accepts exactly new keys, and none once it holds a duplicate |
| ProofRecords.ValidationErrors | src/mvpc/proof_record.py:48-85 | the errors in the order found |
| ProofRecords.ErrorFreeIff | src/mvpc/proof_record.py:48-85 | no errors exactly when the claim ids agree and every formal result is bound to a complete, approved identity |
| ProofRecords.ErrorsFound | src/mvpc/proof_record.py:50-84 | each error is reported exactly for its fault |
| ProofRecords.MismatchesNamed | src/mvpc/proof_record.py:69-77 | mismatches name exactly the backends of formal results with another hash, or declaration |
| ProofRecords.ApprovedIff | src/mvpc/formalization.py:28-48 | a review approves exactly when no part is blank, there are tests, all passed, and nothing diverges |
| ProofRecords.ValidBindingIff | src/mvpc/claim_binding.py:44-50 | a binding can be built exactly when claim, statement and scope are not blank |
| ProofRecords.LevelRaisesIff | src/mvpc/proof_record.py:26-42 | the level of an error-free record raises exactly on a formally checked result without concrete hash |
| ProofRecords.UnhashedComputationRaises | src/mvpc/proof_record.py:26-42 | a computation marked formally checked without a hash is such a result |
| ProofRecords.IdentityChain | src/mvpc/proof_record.py:26-85 | a record with a formal result is above D0 exactly when ids agree, formal results carry the bound declaration and concrete hash, nothing names another hash, claim or proposition, and nothing rejects; it is then D2 at least |
| ProofRecords.ResultsLevelIff | src/mvpc/proof_record.py:25-42 | results alone reach D2 to D5 and never D6: D3 with all four controls, D4 with two formal checks of different targets and groups as well, D5 with two foundations as well |
| ProofRecords.NoAuthorityNoLevel | src/mvpc/proof_record.py:38-42 | without a formal or computational verdict the level is D0 |
| Fabric.VerificationFabric.Register | src/mvpc/verification_fabric.py:33-41 | the adapter is stored under the stripped lower-case name; blank names are refused |
| Fabric.VerificationFabric.Verify | src/mvpc/verification_fabric.py:43-102 | one result per target in plan order, inconclusive without adapter or artifact or after an exception; refused on claim mismatch |
| Fabric.UnansweredResult | src/mvpc/verification_fabric.py:56-94 | what a target gets without adapter or artifact or after an exception |
| Fabric.LevelIsEarned | src/mvpc/verification_fabric.py:55-102 | a level above D0 goes back to a registered adapter's own formal or computational verdict |
| Fabric.AnswersIff | src/mvpc/verification_fabric.py:83-95 | the results answer the plan's targets exactly when every adapter that is run answers its own; nothing checks it |
| Fabric.SameSourceIff | src/mvpc/verification_plan.py:68 | two results count as one source exactly when they name one backend and kind |
| Fabric.SourcesDistinct | src/mvpc/verification_fabric.py:55-95 | when every adapter answers its target, a valid plan's results have pairwise different sources |
| Fabric.ImpostorSharesSource | src/mvpc/verification_fabric.py:83-95 | an adapter that answers all targets with one result makes two targets one source |
| Fabric.FoundIff | src/mvpc/verification_fabric.py:38-57 | a newly registered name is found under itself exactly when it has no white space at its ends |
| Text.StripIs | src/mvpc/verification_fabric.py:38 | stripping takes the white space off both ends and nothing else |
| Text.LowerLetters | src/mvpc/verification_fabric.py:38 | lower case maps the 26 ASCII letters in order and the Kelvin sign to k |
| Fabric.SpacedNameIsLost | src/mvpc/verification_fabric.py:38-57 | a name with a leading space is not |
| Ordering.SortForgetsOrder | src/mvpc/canonical.py:61 | all listings of the same items sort to one list when equal keys mean equal items |
| Ordering.SortIsStable | src/mvpc/canonical.py:61 | items with one key keep their order |
| Ordering.LeqIff | src/mvpc/canonical.py:61 | a text comes before another exactly when it is a prefix of it or smaller at the first difference |
| Fingerprints.ComputeFingerprint | src/mvpc/security.py:70-90 | the entries in listing order and the hash of their text |
| Fingerprints.TextDecodes | src/mvpc/security.py:81-82 | the text determines the list of entries, for paths that contain no complete line |
| Fingerprints.NewlineFreeIsReadable | src/mvpc/security.py:81-82 | paths without a line end are such paths |
| Fingerprints.AmbiguousPathsSplit | src/mvpc/security.py:81-82 | any other path can be split into two entries with the same text |
| Fingerprints.MergedFilesShareFingerprint | src/mvpc/security.py:70-90 | a package with two files and one with a single file of their merged path have equal fingerprints, for all contents |
| Fingerprints.PythonFilesShareFingerprint | src/mvpc/security.py:70-90 | such a pair of Python packages in listing order |
| Fingerprints.EqualFingerprints | src/mvpc/security.py:70-90 | equal fingerprints mean equal paths and contents, or an explicit collision |
| Fingerprints.DiffFingerprints | src/mvpc/security.py:282-294 | names exactly the differing paths, once each, in order, with the right kind; empty exactly on equal maps |
| Fingerprints.DescriptionUnique | src/mvpc/security.py:286-294 | that description is the only one |
| Canonical.NormalizeIsNormal | src/mvpc/canonical.py:11-25 | the result has string keys in strictly ascending order and only JSON values, throughout |
| Canonical.FixedIffNormal | src/mvpc/canonical.py:11-25 | normalising leaves exactly such values alone |
| Canonical.NormalizeIdempotent | src/mvpc/canonical.py:11-25 | normalising twice is normalising once |
| Canonical.OrderIsForgotten | src/mvpc/canonical.py:11-17 | values that differ only in the insertion order of such dictionaries or in iteration order, at any depth, have one canonical form |
| Canonical.OrderFreeIff | src/mvpc/canonical.py:12-13 | no reordering of a dictionary changes its canonical form exactly when keys with one text bring values with one normal form |
| Canonical.DistinctTextsUnambiguous | src/mvpc/canonical.py:12-13 | distinct key texts are enough |
| Canonical.LastPairSurvives | src/mvpc/canonical.py:13 | of the pairs that share a text the one inserted last survives |
| Canonical.DictForm | src/mvpc/canonical.py:12-13 | under every text some key has, the normal form of the value inserted last under it, and nothing else |
| Canonical.ListForm | src/mvpc/canonical.py:14-17 | lists and tuples become lists item by item, a set the list of its normal forms in the order of their texts |
| Canonical.HexReads | src/mvpc/canonical.py:23-24 | each byte becomes the two hexadecimal digits of its value |
| Canonical.SharedTextDependsOnOrder | src/mvpc/canonical.py:13 | the keys 1 and "1" with different values |
| Canonical.HashBuilder.Add | src/mvpc/canonical.py:53-55 | the part is appended |
| Canonical.HashBuilder.AddData | src/mvpc/canonical.py:57-58 | the part carries the hash of the canonical data |
| Canonical.HashBuilder.Digest | src/mvpc/canonical.py:60-62 | the digest is the same for the parts added in any order, while a name always brings one digest, and for no other parts short of an explicit collision |
| Canonical.PayloadForm | src/mvpc/canonical.py:60-62 | what is hashed: name and digest of each part in the order of names, equal names in the order added |
| Canonical.DigestForgetsOrder | src/mvpc/canonical.py:60-62 | the order of parts does not matter while a name always brings one digest |
| Canonical.PartsOrderFreeIff | src/mvpc/canonical.py:60-62 | no order of adding the parts changes the payload exactly when a name always brings one digest |
| Canonical.DigestDependsOnOrder | src/mvpc/canonical.py:60-62 | otherwise some order changes the digest, or exhibits a collision |
| Canonical.DigestBinds | src/mvpc/canonical.py:60-62 | equal digests mean the same parts, or an explicit collision |

## Left out

- RepairLoop.RepairRunner.Run: attempts carry no `candidate_hash` and their messages are tags; patcher and safety scanner are arbitrary functions, so the default patcher is one instance.
- VacuityCheck.Vacuous: takes the binder types as texts and one parser for them; the rewriting of operators before parsing is part of that parser, and the regular expressions and `find_declarations` that select binders are not modelled.
- SmtMeaning.TranslationMeaning: arithmetic and signs on truth values count as failures, although Python and the solver's interface compute some of them; a plain value that is not a finite real number ends the translation where it arises; string constants are not modelled.
- SmtUnlisted.SixOpsMeaning: the same arithmetic on truth values falls outside it.
- SmtShapes.TranslatesIff: the same arithmetic on truth values counts as untranslatable. Comparisons are covered: plain values of any kind are compared by Python, as in `True < False`, and a truth-valued term with a real one through the solver's coercion, as in `(x < y) == z`.
- TransitiveScan.Scan: import extraction, path resolution and the safety scan are arbitrary functions; files do not change during a scan.
- TransitiveScan.QueueImports: a file that is not UTF-8 text ends the scan with an exception in the source, which catches `OSError` only; here it counts as missing. An import made of dots only raises as well, while resolution here is total.
- ManifestLedger.Ledger.Append: a directory is a map from names to texts that no one else writes; JSON text is an invertible encoding; file names leading outside the directory are not followed.
- EvidenceLedger.Ledger.Append: payloads are values, so later mutation of a payload object held by an entry is not captured.
- HybridAutomata.HybridAutomaton.Step: exact reals; a flow map that mutates the state it is given is not captured.
- RateGuards.AuditRateOfChange: exact reals instead of floating point, not-a-number and infinities left out.
- Planning.VerificationPlan.Add: options and descriptions of targets are not carried; `evaluate`, `satisfies` and the digests are straight-line members.
- Fabric.VerificationFabric.Verify: an adapter is a function of target, binding and review, so one that changes the plan while it runs is not captured.
- Text.Lower: exact for ASCII and for every comparison with ASCII text; other letters keep their case.
- Canonical.Normalize: moments arrive as their UTC text and floats as their `repr`; objects that JSON cannot hold are not modelled. That different normal values have different JSON texts is a hypothesis, used only for sets.
- Fingerprints.ComputeFingerprint: the listing of the package directory and its order are inputs.
- A second copy of the translator (`_ast_to_z3` and `_check_z3_constraints` in src/mvpc/backends/python.py) has the same branches; the lemmas about the translation hold for both, but only the loop in lean.py is a method here.
- Texts stand for their UTF-8 bytes; timestamps are inputs.
- Signing, HMAC, Ed25519 and witness seals; subprocesses, solvers and symbolic algebra; `IntegritySession`; CLI, reports, exporters, scores and the heuristic pipelines.
