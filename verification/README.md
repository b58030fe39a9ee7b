# Release pipeline: a verified model

m80 publishes releases through a chain of scripts that fail closed: a hash-chained proof
ledger, a publication planner, a remote asset inventory, a gate in front of the `latest`
pointer, a safety floor for installers, and several rewriters of public documents. This
project models those scripts and the workflow that drives them, and proves what the chain is
for, over every input, every run and every interleaving.

The main results:

- **Ledger.** Two verified ledgers with one tail hash are equal record for record, so an edit,
  insertion, deletion or reordering that keeps the tail is rejected. The duplicate-hash check
  can never fire. One ledger pins the bytes of every file it names. Every run of appends, with
  any failures and any files, only appends. The closing verification of an append passes
  exactly under a condition on the request that a caller can check, and every attempt of a run
  of sound requests on a healthy ledger is appended. A request that breaks the condition is
  written first and refused afterwards; the ledger can never verify again exactly when the
  request itself is ill formed, and not when an earlier record merely has another tag.
- **Publication and `latest`.** Jobs for any number of tags interleave with crashes, deletions
  and replacements of stored assets. Whenever `latest` moves, its release is public and serves
  exactly the manifest, unless its assets were replaced after that job downloaded them, and then
  exactly when the replacement serves the manifest too. Every step that lowers `latest` is
  explained, and it is known exactly which release lists protect it. A newer public release at
  the move was published between the job's decision and its move. A release whose job crashed
  can never become `latest` until an operator deletes it. An undisturbed job does get through.
- **Safety floor.** Every accepted floor leaves a safe install target one hop away. Tags are
  compared as text, so a zero-padded spelling of a yanked version passes; the exact condition
  is proved.
- **Documents.** The marker replacer, the snippet extractor and the changelog backfill are
  loops whose meaning is stated without them: when they succeed, what they keep, what they find.
  Last write wins and the backfill's round trip have their exact conditions; that rendering
  leaves the snippets alone is proved under a sufficient one.
- **Packaging.** From any accepted assembly the upload manifest is built and is accepted by the
  planner and the inventory.
- **Statistics, readiness, freshness URLs.** Histograms conserve samples, percentiles and
  bootstrap bounds are the order statistics they name, percentiles reach the share they name
  under an exact condition, one script's output is accepted by the script that reads it, and the
  URL table is exact.
- **What the outputs say and when the checks pass.** Appended records, publication plans,
  inventories, readiness decisions, snippets and changelogs are described by their content, field
  by field and line by line, without the function that makes them. The verifiers of ledger
  records, inventories, preflights, rollback receipts, readiness receipts and safety floors have
  their exact acceptance conditions. Tags are compared as the numbers they are written from.

Each `.dfy` file holds one module. `dafny verify dfyconfig.toml` checks them all.

## How the code is read

SHA-256 and canonical JSON enter as arbitrary functions (`Codec`, `Digest`). No injective
function into sixty-four hexadecimal digits exists, so a statement about hashes ends in its
claim or in an explicit collision. Text is a sequence of lines. GitHub's answers are inputs:
the protocol lets GitHub store and serve anything. Where a loop fills a list, a set or a
dictionary it is a method with a loop; where it updates an object in place (the ledger file,
the table of URLs) it is a class.

The steps of `Protocol` follow `.github/workflows/release-artifacts.yml`: one job per tag at a
time (lines 12-14), plan (575-595), draft and uploads without overwriting (629-651), validation
of the draft and publication (653-742), download of the public release by the manifest's names
(744-766), inventory against the asset list (767-790), and the
promotion gate, which runs only after a create plan (844-878).

Results that say something the scripts' documentation does not:

- Naming a log twice, a backslash in an install name, a ledger path among the referenced
  artifacts, or an unfinished last line makes an append write a record and then refuse it
  (`LedgerRuns.DuplicateLogIsWrittenThenRefused`); the ledger cannot be repaired by changing
  other files (`LedgerRuns.PoisonedExactly`, `LedgerRuns.PoisonedLedgerIsStuck`). A tag that
  differs from an earlier record's also ends in a refusal after the write, but the next append
  opens normally (`LedgerRuns.TagMismatchRecovers`).
- The workflow promotes only after a create plan, so a job that stopped after publishing cannot
  be completed by a rerun (`Protocol.CrashStrands`, `Protocol.StrandedReleaseNeverBecomesLatest`).
- The promotion gate trusts the list it is shown. It approves something below the current
  latest exactly when no listed release is at or above it (`PromotionOrder.ProtectsExactly`). The
  workflow asks for 100 releases.
- Listing the releases and moving `latest` are two steps, and jobs are serialised only tag by
  tag, so two honest approvals can lower `latest` (`PromotionRace.RaceLowers`). One promotion at a
  time excludes it (`PromotionOrder.SerialRunsLowerOnlyOnPurpose`). It does not exclude a move below
  a newer release that became public after the decision (`PromotionWindow.SerialMoveBelowNewer`).
- Nothing looks at the bytes again once a job has downloaded them
  (`Protocol.LateReplacementUnnoticed`).
- The median of three samples is the smallest of them: ranks are rounded down
  (`BenchSummary.ShareMissed`).
- The class `incomplete_draft_delete_and_rerun` does not look at the draft flag, and tells an
  operator to delete a public release (`RerunRecovery.PublicReleaseToldToDelete`).
- An extra tuple may take a name that the upload manifest reserves for workflow artifacts
  (`Packager.ManifestNameCanBeTaken`, `Packager.WorkflowNamesLeakExactly`). Taking the manifest's
  own name passes assembly, is overwritten when the manifest is written, and is then refused
  (`UploadManifest.WrittenManifestVerifiesExactly`).
- A release header inside the Unreleased body shadows the section that the backfill lands
  (`Backfill.UnreleasedHeaderShadows`).

## Model

| member | source | states |
|---|---|---|
| `Ledger.ReadLedgerLines` | scripts/release_proof_ledger.py:294-305 | blank lines are skipped and one unreadable line fails the whole ledger |
| `Ledger.WalkChain` | scripts/release_proof_ledger.py:254-277 | the one-pass loop succeeds exactly when every record passes, every link and hash checks and all hashes differ; its sets then hold exactly the proofs and types of the ledger |
| `Ledger.CheckRequired` | scripts/release_proof_ledger.py:279-289 | looking demands up in the sets of the walk decides whether some record meets each of them |
| `Ledger.VerifyLedger` | scripts/release_proof_ledger.py:232-291 | the verifier returns the records exactly when the loop-free acceptance predicate holds; a missing file passes only when allowed |
| `LedgerVerdict.RecordExactly` | scripts/release_proof_ledger.py:308-449 | a record is accepted exactly when its own fields are good, the files it names have the digests it states, its proof and verifier result are good, and it repeats both field by field; the other checks of the verifier follow from these |
| `LedgerContent.AcceptedRecordsAgree` | scripts/release_proof_ledger.py:345-449 | every record of an accepted ledger agrees with its proof file, its verifier result and the demanded tag |
| `LedgerContent.AcceptedMeetsDemands` | scripts/release_proof_ledger.py:279-289 | an accepted ledger has the demanded count and a record for every required proof and type |
| `PathSpelling.RelativeExactly` | scripts/release_proof_ledger.py:547-553 | a path is accepted exactly when it is ordinary components joined by single slashes, or a dot alone |
| `PathSpelling.FileNameExactly` | scripts/release_proof_ledger.py:527-531 | the name kept of a redacted path is its last component, passing over empty ones and dots |
| `Versions.PositiveExactly` | scripts/release_proof_ledger.py:23 | the run id pattern admits exactly the decimal texts of the positive numbers |
| `LedgerTamper.SameTailSameLedger` | scripts/release_proof_ledger.py:254-277 | two chains ending in one hash are equal record for record, length included, or the digest collides |
| `LedgerTamper.TamperedLedgerRejected` | scripts/release_proof_ledger.py:247-277 | any other nonempty ledger with the tail hash of an accepted one is rejected against every artifact root and every demand |
| `LedgerTamper.EqualHashesCollide` | scripts/release_proof_ledger.py:258-277 | equal hashes inside one chain descend to the first record's null link and need a collision |
| `LedgerTamper.HashesDistinct` | scripts/release_proof_ledger.py:262-277 | the duplicate-hash check never fires on a chain that links |
| `LedgerTamper.PrefixesVerify` | scripts/release_proof_ledger.py:247-289 | every nonempty prefix of an accepted ledger verifies under exactly the demands it meets, so only a record count, a required proof or a required type tells it apart |
| `LedgerTamper.RootsAgreeOnNamedFiles` | scripts/release_proof_ledger.py:345-449 | a ledger accepted against two roots makes them agree byte for byte on every proof, metadata, verifier-result and log file it names |
| `LedgerAppend.LedgerStore.Append` | scripts/release_proof_ledger.py:139-229 | the ledger file after an append and its outcome: refused and unchanged, appended, or appended and then refused |
| `LedgerContent.AppendedRecordSays` | scripts/release_proof_ledger.py:139-229 | the last record read back after a successful append has the request's run id, runner, proof, verifier result and logs in order, each with its file's digest, the proof's tag, type and substrate, the verifier result's command, version, metadata, install summary and verdict, and the previous record's hash |
| `LedgerContent.ReadyExactly` | scripts/release_proof_ledger.py:139-193 | the checks before the write pass exactly when the old ledger verifies, run id, runner and logs are given, and every named file is there, legible and consistent, field by field |
| `LedgerContent.RefusedExactly` | scripts/release_proof_ledger.py:139-193 | an append is refused with nothing written exactly when those conditions fail |
| `LedgerAppend.RedactedNameOk` | scripts/release_proof_ledger.py:527-598 | a redacted path passes its check exactly when the file name has no backslash |
| `LedgerAppend.NewRecordShape` | scripts/release_proof_ledger.py:308-342 | the new record has the required shape exactly when no log repeats and no install name has a backslash |
| `LedgerAppend.EvidenceAfterWrite` | scripts/release_proof_ledger.py:345-409 | the write keeps a record's evidence exactly when its tag matches and it does not name the ledger file |
| `LedgerAppend.ReadBack` | scripts/release_proof_ledger.py:215-229 | the written ledger reads back as the old records and the new one exactly when the write began a fresh line |
| `LedgerAppend.ExtendedAccepted` | scripts/release_proof_ledger.py:232-291 | acceptance of an extended ledger reduces to the new shape and the evidence of all records |
| `LedgerAppend.ClosingAccepts` | scripts/release_proof_ledger.py:221-229 | the written ledger verifies, for the requested tag or for none, exactly under the request's conditions |
| `LedgerAppend.ClosingVerifyExactly` | scripts/release_proof_ledger.py:139-229 | the closing verification passes exactly when the request is well formed and earlier records carry the requested tag; the ledger is then the old one and the new record |
| `LedgerRuns.RunOnlyAppends` | scripts/release_proof_ledger.py:215-229 | over every run of attempts the finished lines are a prefix of the new lines, for every ledger file |
| `LedgerRuns.RunKeepsRecords` | scripts/release_proof_ledger.py:139-229 | over every run that leaves a readable ledger the old records are a prefix of the new ones, for every ledger file |
| `LedgerSuccess.AttemptAppends` | scripts/release_proof_ledger.py:139-229 | on a ledger that verifies, ends on a fresh line, does not name itself and has one tag, a sound request is appended and the ledger stays so |
| `LedgerSuccess.HealthOutlivesGrowth` | scripts/release_proof_ledger.py:345-449 | such a ledger stays so when files are added beside it |
| `LedgerSuccess.EveryAttemptAppends` | scripts/release_proof_ledger.py:139-229 | from such a ledger every attempt of every run ends appended and adds one record, given conditions on each request and its files alone, files that only grow, and no digest collision |
| `LedgerRuns.PoisonStays` | scripts/release_proof_ledger.py:139-229 | after a write on an ill-formed request no set of other files makes the ledger verify |
| `LedgerRuns.PoisonedExactly` | scripts/release_proof_ledger.py:139-229 | a write spoils the ledger for good exactly when the request is ill formed |
| `LedgerRuns.TagMismatchRecovers` | scripts/release_proof_ledger.py:221-229 | a request that fails only on an earlier record's tag is written and refused, and the next opening verification passes |
| `LedgerRuns.PoisonedLedgerIsStuck` | scripts/release_proof_ledger.py:139-229 | from then on every run of attempts leaves the ledger unchanged |
| `LedgerRuns.DuplicateLogIsWrittenThenRefused` | scripts/release_proof_ledger.py:329-335 | a concrete request with one log named twice is written and then refused |
| `LedgerRuns.SingleLogIsAppended` | scripts/release_proof_ledger.py:139-229 | the same request with the log named once is appended |
| `Versions.LeadingZeroAliases` | scripts/release_latest_promotion.py:505-509 | every stable tag has another spelling with the same version |
| `Versions.CanonicalTagInjective` | scripts/release_latest_promotion.py:505-509 | tags without leading zeros are determined by their versions |
| `Versions.SameVersionExactly` | scripts/freshness_status.py:595-599 | two tags denote one version exactly when they differ in zero padding only |
| `Versions.StableTagExactly` | scripts/release_latest_promotion.py:20 | a tag is stable exactly when it is a v and three digit strings with dots between |
| `Versions.TagDenotes` | scripts/release_latest_promotion.py:505-509 | the tag written from three numbers has those numbers as its version, in that order |
| `Versions.PrecedenceExactly` | scripts/release_latest_promotion.py:505-509 | of two tags written from numbers one is at or below the other exactly by major, then minor, then patch |
| `Versions.EveryTagIsWritten` | scripts/release_latest_promotion.py:505-509 | every stable tag is one written from numbers, up to zero padding |
| `ReleaseAssets.CheckedAssets` | scripts/release_publication_plan.py:257-280 | the manifest reader succeeds exactly when the tag matches, every row has a flat name, a kind, a digest and a size, and no name repeats |
| `ReleaseAssets.SameMembersSameDictionary` | scripts/release_remote_asset_inventory.py:354-377 | rows without repeated names give one dictionary in any order |
| `PublicationPlan.MetadataAssets` | scripts/release_publication_plan.py:283-294 | the loop builds the size dictionary exactly when names are usable and unique and sizes are not negative |
| `PublicationPlan.CheckNameList` | scripts/release_publication_plan.py:316-322 | a name list passes exactly when its names are usable and unique |
| `PublicationPlan.NameDifferencesExact` | scripts/release_publication_plan.py:121-124 | missing and extra are sorted, without repeats, and exactly the two set differences |
| `PublicationPlan.MismatchesExact` | scripts/release_publication_plan.py:125-133 | the size list holds exactly the common names whose sizes differ, with both sizes |
| `PublicationPlan.EveryPlanVerifies` | scripts/release_publication_plan.py:92-223 | every plan returned or raised passes the plan verifier exactly when its timestamp parses |
| `PublicationPlan.DecisionExactly` | scripts/release_publication_plan.py:103-195 | create exactly when nothing is there, validate exactly for a public release equal in names and sizes, refuse otherwise; what each plan says is in the next rows |
| `PlanContent.RefusalSays` | scripts/release_publication_plan.py:121-195 | on every refusal a name is listed missing exactly when only the manifest has it, extra exactly when only GitHub has it, and mismatched exactly when both have it with the two sizes given; both counts are those of the two lists |
| `PlanContent.RefusalState` | scripts/release_publication_plan.py:134-184 | state and recovery of a refusal follow the draft flag, then the prerelease flag |
| `PlanContent.ReturnedSays` | scripts/release_publication_plan.py:103-195 | a returned plan lists no difference and there is none; action, state and counts follow from whether the release exists |
| `PlanContent.RejectedExactly` | scripts/release_publication_plan.py:92-120 | no plan is made exactly when the tag is not stable, the manifest is not one for it, or GitHub's answer has another tag or unusable rows |
| `PlanContent.VerifiedPlanIsThePlan` | scripts/release_publication_plan.py:198-223 | the verifier accepts only the plan the planner makes now, with the same timestamp |
| `PublicationPlan.ReplanAfterCreate` | scripts/release_publication_plan.py:103-195 | re-planning on what a completed create plan produced asks for validation only |
| `RemoteInventory.RemoteAssetsByName` | scripts/release_remote_asset_inventory.py:514-537 | the indexing loop succeeds exactly when all rows are usable and neither a name nor an id repeats |
| `RemoteInventory.BuiltRows` | scripts/release_remote_asset_inventory.py:238-267 | a built inventory lists the manifest's assets in name order and gives the same dictionary |
| `InventoryContent.MadeExactly` | scripts/release_remote_asset_inventory.py:238-267 | an inventory is made exactly when manifest and release are for the tag, GitHub's rows are usable, differ and have exactly the manifest's names, and file and row of each asset agree with it |
| `InventoryContent.MadeSays` | scripts/release_remote_asset_inventory.py:238-267 | it names the tag, release id and time asked for, and the manifest's assets in name order, each with GitHub's id, address and timestamps for that name |
| `RemoteInventory.BuiltInventoryVerifies` | scripts/release_remote_asset_inventory.py:270-302 | a built inventory is accepted by the verifier exactly when its timestamp parses |
| `RemoteInventory.VerifiedInventoryPinsBytes` | scripts/release_remote_asset_inventory.py:270-302 | a verified inventory equals the manifest and the downloaded bytes carry its digests and sizes |
| `InventoryVerdict.VerifiedExactly` | scripts/release_remote_asset_inventory.py:270-302 | an inventory verifies exactly when one could be made now, it names this tag and release, and it has one usable row for each asset of the manifest, in any order, with GitHub's id and address |
| `InventoryVerdict.IdentitiesForced` | scripts/release_remote_asset_inventory.py:270-302 | two lists of rows for one manifest that agree with GitHub compare equal whatever their order |
| `RemoteInventory.PreflightAgreement` | scripts/release_remote_asset_inventory.py:305-463 | a passed preflight makes manifest, inventory and receipt agree; its last receipt-to-inventory loop is implied |
| `PreflightContent.PreflightExactly` | scripts/release_remote_asset_inventory.py:305-463 | the rerun preflight passes exactly when inventory and receipt list the manifest's assets and no other, in any order, the receipt approved this tag, commit and manifest file, and the handoff is for them and published |
| `PreflightContent.SortedAlike` | scripts/release_remote_asset_inventory.py:447-455 | sorted by name, two lists with distinct names are equal exactly when they have the same assets |
| `RerunRecovery.RecoveryRemoteAssets` | scripts/release_remote_asset_inventory.py:653-673 | the tolerant loop's dictionary and list of problems, row by row |
| `RerunRecovery.NoProblemsExactly` | scripts/release_remote_asset_inventory.py:653-673 | no problem is reported exactly when every row is named and no name or id repeats |
| `RerunRecovery.ProblemsExactly` | scripts/release_remote_asset_inventory.py:653-673 | each problem is reported exactly for its reason: a row that is no object, a row without a name, a name or an id that two rows share |
| `RerunRecovery.IncompleteExactly` | scripts/release_remote_asset_inventory.py:181-235 | a rerun is classed incomplete and told to delete the release exactly when the receipt is there and the remote rows are a clean strict part of the manifest, each matching in digest and both sizes |
| `RerunRecovery.PublicReleaseToldToDelete` | scripts/release_remote_asset_inventory.py:190-204 | the draft flag never changes the class; a public release without assets is told to delete and rerun |
| `LatestPromotion.NormalizedManifestAssets` | scripts/release_latest_promotion.py:276-299 | the error list is empty exactly when tag and rows are good, and then no row was dropped |
| `LatestPromotion.NormalizedInventoryAssets` | scripts/release_latest_promotion.py:302-336 | the same for inventory rows, ids and timestamps included |
| `LatestPromotion.ValidateRemoteInventory` | scripts/release_latest_promotion.py:250-273 | no complaint exactly when both lists are well formed and their name-to-content dictionaries are equal |
| `LatestPromotion.BuiltInventoryAccepted` | scripts/release_latest_promotion.py:250-374 | an inventory built from the manifest passes the gate exactly when no asset kind is blank |
| `LatestPromotion.StablePublicTags` | scripts/release_latest_promotion.py:377-392 | the loop collects exactly the tags of public stable rows, once each, in the order the list first shows them |
| `LatestPromotion.Highest` | scripts/release_latest_promotion.py:89-91 | the highest tag is a listed tag with no listed version above it; `Versions.PrecedenceExactly` says what above means |
| `LatestPromotion.HighestIsFirst` | scripts/release_latest_promotion.py:89-91 | of several spellings of the highest version the first listed one is taken |
| `LatestPromotion.ApprovedExactly` | scripts/release_latest_promotion.py:88-131 | approval without receipt exactly when the inventory is accepted and no listed version is above the target |
| `LatestPromotion.LoweringNeedsReceipt` | scripts/release_latest_promotion.py:132-247 | a move below a listed version rests on a receipt for this target, highest tag, publish digest and ledger digest |
| `LatestPromotion.ReceiptAuthorisesOne` | scripts/release_latest_promotion.py:193-247 | two rollbacks approved by one receipt agree in target, highest tag and both digests |
| `PromotionContent.RollbackExactly` | scripts/release_latest_promotion.py:132-247 | a rollback is approved exactly when the inventory is accepted, a newer release is listed, and the receipt is approved and well formed for this target, highest tag and both digests |
| `PromotionContent.OlderIsRefused` | scripts/release_latest_promotion.py:88-131 | of two releases written from numbers the gate refuses the one that is lower by number while the other is listed, unless a receipt for exactly that is given |
| `PromotionContent.DecisionNamesHighest` | scripts/release_latest_promotion.py:88-191 | a decision names the highest listed tag, or the target when none is listed |
| `PromotionContent.InventoryAcceptedExactly` | scripts/release_latest_promotion.py:250-374 | the gate accepts an inventory exactly when it and the manifest are for this tag, both lists are well formed without repeated names or ids, and they list the same assets |
| `Protocol.InventoryMeansManifest` | scripts/release_remote_asset_inventory.py:238-267 | an inventory exists only when the asset list has exactly the manifest's names, and it lists the manifest |
| `Protocol.StepKeepsFlags` | docs/behaviors/release/publication-plan.md:8-21 | every step, crash, deletion and replacement keeps a release as public as its job's phase says |
| `Protocol.StepKeepsExact` | docs/behaviors/release/publication-plan.md:10-27 | every step keeps a downloaded release equal to the manifest under its names, and an inventoried one without other names, except a replacement of its assets after the download |
| `Protocol.LatestMovesOnlyToExactReleases` | docs/behaviors/release/latest-promotion-monotonicity.md:23-28 | in every run, at every moment `latest` moves, its release is public and the inventory equals the manifest; the bytes do too unless somebody replaced them after this very job downloaded them |
| `Protocol.ReplacedMoveIsExactExactly` | docs/behaviors/release/latest-promotion-monotonicity.md:23-28 | after the last such replacement the move is to an exact release exactly when the replacement serves the manifest |
| `Protocol.OtherTagsUntouched` | docs/behaviors/release/publication-plan.md:3-6 | a step of one tag's job leaves every other tag's job and release alone |
| `ProtocolContent.BecomesPublicExactly` | docs/behaviors/release/publication-plan.md:10-15 | a release becomes public exactly when a job publishes its own draft and that draft serves every asset of the manifest |
| `ProtocolContent.AppearsExactly` | docs/behaviors/release/publication-plan.md:10-12 | a release appears exactly when a job with a create plan makes its empty draft |
| `ProtocolContent.CreatingExactly` | docs/behaviors/release/publication-plan.md:10-12 | a job gets a create plan exactly when no release is there, tag and manifest are good and the timestamp parses |
| `ProtocolContent.PublicExactly` | docs/behaviors/release/publication-plan.md:10-18 | a job comes to a public release exactly by publishing its own validated draft, or by planning on a public release with the manifest's names and sizes |
| `ProtocolContent.DownloadedExactly` | docs/behaviors/release/publication-plan.md:13-18 | a job passes the download exactly when the public release serves the manifest, and then holds the served bytes of exactly its names |
| `ProtocolContent.InventoriedExactly` | scripts/release_remote_asset_inventory.py:238-267 | a job gets its inventory exactly when its files and GitHub's list of that moment both fit the manifest and the timestamp parses |
| `ProtocolContent.LatestExactly` | docs/behaviors/release/latest-promotion-monotonicity.md:23-28 | a job is cleared exactly when it created the release and the gate approves its case, and `latest` comes to a tag exactly when a cleared job asks while the release is there |
| `ProtocolContent.UploadExactly` | docs/behaviors/release/publication-plan.md:10-12 | an upload adds its name, or stops the job and changes nothing when the name is taken |
| `ProtocolContent.RunOverwritesNothing` | docs/behaviors/release/publication-plan.md:22-24 | over every run, what a release once served it serves unchanged until somebody outside deletes it or replaces its assets |
| `Protocol.StrandedReleaseNeverBecomesLatest` | docs/behaviors/release/publication-plan.md:10-21 | a release left behind without its creating job never becomes `latest`, in any run without its deletion |
| `PromotionOrder.ProtectsExactly` | scripts/release_latest_promotion.py:88-131 | a release list keeps the gate from approving anything below `latest` exactly when it shows a stable release at or above it; an empty list protects only v0.0.0 |
| `PromotionOrder.UncoveredApproval` | scripts/release_latest_promotion.py:88-131 | a list that does not cover the pointer lets its highest tag through below the pointer, with any manifest and inventory that agree |
| `PromotionOrder.EveryLoweringExplained` | docs/behaviors/release/latest-promotion-monotonicity.md:36-46 | in every run, every step that lowers `latest` deletes its release, or carries a receipt for that target, highest tag, publish digest and ledger digest, or moves on a list that does not cover the pointer |
| `PromotionOrder.ApprovedMoveReachesMaximum` | scripts/release_latest_promotion.py:88-131 | in every run, an approved move leaves `latest` at a version no listed release is above |
| `PromotionOrder.LatestNeverLowers` | docs/behaviors/release/latest-promotion-monotonicity.md:36-38 | over every run whose moves are approved on covering lists and that keeps the latest release, the version of the pointer never goes down; unread receipts and other deletions are allowed |
| `PromotionOrder.SerialRunsLowerOnlyOnPurpose` | docs/behaviors/release/latest-promotion-monotonicity.md:36-46 | with honest lists and one promotion at a time, only deletions of the latest release and receipted rollbacks lower the pointer, in every run |
| `PromotionWindow.NewerReleaseCameBetween` | docs/behaviors/release/latest-promotion-monotonicity.md:7-11 | with honest lists, at every approved move of every run each public stable release above the target was published between that job's decision and its move |
| `PromotionWindow.SerialMoveBelowNewer` | docs/behaviors/release/latest-promotion-monotonicity.md:7-11 | a serial run on an honest list, from any idle state, that ends with `latest` at the older tag while the newer one is public |
| `PromotionRace.RaceFromIdle` | docs/behaviors/release/latest-promotion-monotonicity.md:10-11 | from any state without jobs, a run of two undisturbed jobs on honest lists moves `latest` to the newer tag and then down to the older one, without a receipt |
| `PromotionRace.RaceLowers` | docs/behaviors/release/latest-promotion-monotonicity.md:10-11 | two jobs, both approved on honest lists: the older one, having asked before the newer one was public, moves `latest` down without a receipt |
| `ProtocolProgress.UploadsStore` | docs/behaviors/release/publication-plan.md:10-12 | uploading assets with distinct names one by one leaves the draft holding them in order |
| `ProtocolProgress.UndisturbedPublication` | docs/behaviors/release/publication-plan.md:10-15 | an undisturbed job for a new tag ends with a public release holding what was uploaded |
| `ProtocolProgress.UndisturbedDecision` | docs/behaviors/release/latest-promotion-monotonicity.md:23-38 | a public release that GitHub serves honestly gets its inventory and the gate clears the move |
| `ProtocolProgress.UndisturbedJobPromotes` | docs/behaviors/release/publication-plan.md:10-15 | the whole job moves `latest` to its tag when no newer stable release is listed |
| `SafetyFloor.CollectYanked` | scripts/freshness_status.py:359-367 | the first loop passes exactly when every row is valid and no tag is yanked twice |
| `SafetyFloor.CheckRules` | scripts/freshness_status.py:369-392 | the second loop passes exactly when every yanked row's rules hold |
| `SafetyFloor.ValidateSafetyFloor` | scripts/freshness_status.py:330-392 | the loops decide the loop-free acceptance predicate |
| `SafetyFloor.PinnedRoundTrip` | scripts/freshness_status.py:575-588 | the tag read out of a pinned install command is the tag it was written for |
| `FloorContent.PinnedExactly` | scripts/freshness_status.py:575-588 | a command has a tag exactly when it is the prefix, that stable tag and the installer suffix |
| `FloorContent.AcceptedExactly` | scripts/freshness_status.py:330-456 | a floor is accepted exactly when schema and time are right, no tag is yanked twice, every yanked release is well described, its replacement unyanked and at or above the minimum, the resolved tag has a replacement if yanked, and the minimum is not above it |
| `FloorContent.MinimumMayBeLatest` | scripts/freshness_status.py:393-438 | a floor whose minimum is the resolved tag itself is accepted |
| `FloorContent.FollowExactly` | scripts/freshness_status.py:439-456 | a tag is sent to its replacement exactly when it is yanked and has one |
| `SafetyFloor.ReplacementsAreSafe` | scripts/freshness_status.py:369-384 | the replacement of every yanked release of an accepted floor is unyanked and at or above the minimum |
| `SafetyFloor.MinimumReplacementIsSafe` | scripts/freshness_status.py:385-392 | so is the replacement of the minimum safe tag, and it is not replaced further |
| `SafetyFloor.SafeTargetExists` | scripts/freshness_status.py:330-456 | following the resolved latest tag once reaches a safe target |
| `SafetyFloor.ReplacementsSettle` | scripts/freshness_status.py:439-456 | following any number of times equals following once, so replacements never cycle |
| `SafetyFloor.LeadingZeroEscapesYank` | scripts/freshness_status.py:439-456 | for every stable tag an accepted floor exists whose target is the yanked version respelled |
| `SafetyFloor.TargetUnyankedExactly` | scripts/freshness_status.py:330-456 | the target is no yanked version exactly when no yanked tag is its text with other zero padding |
| `SafetyFloor.CanonicalFloorIsSafeByVersion` | scripts/freshness_status.py:330-456 | with tags in canonical spelling a safe target is no yanked version |
| `Markers.MarkersDisjoint` | scripts/freshness_status_render.py:16 | no line is both a freshness marker and a snippet marker |
| `MarkerSpelling.FreshnessExactly` | scripts/freshness_status_render.py:16 | the freshness markers are exactly the comments that spell the marker's name and start or end, with white space between and around |
| `MarkerSpelling.SnippetExactly` | scripts/quickstart_snippets.py:19-21 | the snippet markers are exactly the comments that spell the marker's name, a snippet name, and start or end |
| `StatusMarker.ReplaceStatusMarker` | scripts/freshness_status_render.py:69-102 | the pass succeeds exactly when the markers are one start and then one end, and keeps every line outside the block |
| `StatusMarker.BlockAfter` | scripts/freshness_status_render.py:69-102 | a replacement without markers leaves a proper block where it was |
| `StatusMarker.LastWriteWins` | scripts/freshness_status_render.py:69-102 | replacing again works exactly when the first replacement had no marker, and the last write wins |
| `StatusMarker.RenderingIdempotent` | scripts/freshness_status_render.py:69-102 | rendering twice equals rendering once |
| `QuickstartSnippets.TrimBlankEdges` | scripts/quickstart_snippets.py:197-204 | the two index loops cut exactly the blank lines at both ends |
| `QuickstartSnippets.DedentIdempotent` | scripts/quickstart_snippets.py:207-214 | dedenting leaves no common indent and is idempotent |
| `QuickstartSnippets.ExtractMarkedSnippets` | scripts/quickstart_snippets.py:156-186 | the loop computes `Extracted`, whose meaning the next four rows state |
| `SnippetMeaning.ExtractionSucceedsExactly` | scripts/quickstart_snippets.py:156-186 | extraction succeeds exactly when start and end markers alternate with matching, pairwise distinct names and none is left open; the names found are the names marked |
| `SnippetMeaning.SnippetFound` | scripts/quickstart_snippets.py:161-183 | a marked snippet has an entry, made from the lines between its markers |
| `SnippetText.SnippetHolds` | scripts/quickstart_snippets.py:161-214 | the entry is the text between the markers without blank edges, without the code fence if one encloses it, and without the common indent: each nonblank line is that many spaces followed by its result, blank lines are unchanged, and some result starts flush |
| `SnippetText.EntryUnique` | scripts/quickstart_snippets.py:189-214 | no other text meets that description |
| `SnippetMeaning.EntriesExactly` | scripts/quickstart_snippets.py:156-186 | a name has an entry exactly when it marks a snippet, and the entry is that snippet's body |
| `QuickstartSnippets.PlainLinesLeaveNoTrace` | scripts/quickstart_snippets.py:156-186 | lines without markers outside a snippet change nothing in the scanner's state |
| `QuickstartSnippets.RenderingKeepsSnippets` | scripts/freshness_status_render.py:105-113 | replacing a block outside snippets leaves the extracted snippets unchanged, so the renderer's guard never fires |
| `Changelog.ExtractSection` | scripts/apply-backfill-review.py:125-137 | the flag-and-body loop returns the section of the tag |
| `Changelog.ExtractReleaseNotes` | scripts/extract-release-notes.py:12-28 | returns the same section as the backfill's extractor and fails exactly where that one is empty |
| `Changelog.HeaderRoundTrip` | scripts/apply-backfill-review.py:72-83 | the tag read from a rendered header is the tag it was rendered for |
| `ChangelogContent.HeaderExactly` | scripts/apply-backfill-review.py:17 | a line is the header of a tag exactly when it spells the tag in brackets, a dash and a date of four, two and two digits, with white space after it |
| `Changelog.StripOfPadded` | scripts/apply-backfill-review.py:125-137 | a stripped body put between blank lines strips to itself |
| `Backfill.ApplyBackfill` | scripts/apply-backfill-review.py:86-122 | the search and extension loops build the changelog of the loop-free definition, or refuse |
| `ChangelogContent.BackfilledSpelled` | scripts/apply-backfill-review.py:72-122 | every line of the new changelog: the lines before the Unreleased heading, the new Unreleased block, each reviewed section in order under its tag and date, and the rest from the next heading on, with white space taken off at the end |
| `ChangelogContent.RefusedExactly` | scripts/apply-backfill-review.py:86-100 | the backfill is refused exactly when there is no Unreleased heading or a v0.2 header is already there |
| `Backfill.OutsidePreserved` | scripts/apply-backfill-review.py:86-122 | lines before the Unreleased block are kept, lines after it are kept up to white space at the end |
| `Backfill.BackfillRoundTrip` | scripts/apply-backfill-review.py:72-137 | extracting a landed tag returns its reviewed body |
| `Backfill.UnreleasedHeaderShadows` | scripts/apply-backfill-review.py:125-137 | a header of the tag in the Unreleased body shadows the landed section, and what is extracted is the text under that header |
| `Backfill.RoundTripExactly` | scripts/apply-backfill-review.py:72-137 | the round trip holds exactly when the Unreleased body has no header of the tag or the same body under it |
| `Backfill.ShadowedRoundTripFails` | scripts/apply-backfill-review.py:86-137 | a concrete Unreleased body with text under the release's header: that text is extracted, and not the reviewed body |
| `Backfill.SectionIgnoresTrailingSpace` | scripts/apply-backfill-review.py:120-137 | no section depends on white space at the end of the changelog |
| `Backfill.SecondBackfillRefused` | scripts/apply-backfill-review.py:86-122 | a changelog that received a backfill refuses every further one |
| `BenchSummary.PercentileMonotone` | scripts/bench-summary.py:100-105 | percentiles are sample members between minimum and maximum and grow with the percentage |
| `BenchSummary.PercentileRank` | scripts/bench-summary.py:100-105 | at least the rounded-down share of samples is at or below the percentile |
| `BenchSummary.PercentileHasRank` | scripts/bench-summary.py:100-105 | the percentile of unsorted samples is their value of the clamped, rounded-down rank |
| `BenchSummary.ShareMetExactly` | scripts/bench-summary.py:100-105 | the stated share itself is at or below it exactly when the share is at most one sample, a whole number of samples, or the next sample is as large |
| `BenchSummary.ShareMissed` | scripts/bench-summary.py:100-105 | for the median of three different samples it is not |
| `BenchSummary.LogHistogram` | scripts/bench-summary.py:115-136 | the loop ends, the buckets are those of the scale from the smallest sample by the factor, with exact counts, and the counts sum to the samples that are at least one |
| `BenchSummary.BucketsDisjoint` | scripts/bench-summary.py:115-136 | no value falls in two buckets |
| `BenchSummary.BootstrapMedian` | scripts/bench-summary.py:139-158 | for any resamples the bounds are the resampled medians of the two ranks that the confidence names; each median has the middle rank of its resample; the lower bound is at most the upper and both are observed values |
| `OrderStatistics.RankUnique` | scripts/bench-summary.py:139-158 | only one value of a list has a given rank |
| `OrderStatistics.RankAfterSort` | scripts/bench-summary.py:100-105 | sorting and reading a position gives the value of that rank |
| `Readiness.SummarizeLanes` | scripts/release_readiness_decision.py:70-120 | the loop succeeds exactly when every lane passes its checks, and its blocking list is exactly the lanes whose summary blocks; what a summary rests on is in the next rows |
| `ReadinessContent.DecisionMadeExactly` | scripts/release_readiness_decision.py:70-207 | a decision is made exactly when the stage is known, each of its lanes has an argument, no lane is named twice, and every receipt names its configured lane, this tag and this commit, agrees on the run id where both have one, has an allowed substrate, is no fixture where a real one is needed, used no auth on the public-access lane, has a well-formed digest, and passed or merely warns on a non-blocking lane |
| `ReadinessContent.RowExactly` | scripts/release_readiness_decision.py:144-197 | one argument gives a row that does not block exactly under those conditions |
| `ReadinessContent.DecisionSays` | scripts/release_readiness_decision.py:70-120 | the decision repeats what it was asked for and has one row per argument in lane order, with that receipt's status, fixture flag and digest |
| `Readiness.LaneSatisfiesExactly` | scripts/release_readiness_decision.py:144-207 | a lane satisfies the consumer exactly when its receipt passed and is no fixture, or the lane is the hostless one |
| `Readiness.DecisionAcceptedExactly` | scripts/release_publish_receipt.py:468-508 | a pre-upload decision is accepted by the publish receipt exactly when some lane is required and the required receipts passed for real |
| `ReadinessContent.AcceptedExactly` | scripts/release_publish_receipt.py:468-508 | the publish receipt accepts a decision exactly when it is a pre-upload one for this tag, commit and run, blocks nothing, and its required lanes are named once each and all shown satisfied |
| `Readiness.PromisedConfigAccepted` | scripts/release_publish_receipt.py:468-508 | under the promised configuration every pre-upload decision is accepted |
| `Packager.AssembleTuples` | scripts/package-release-bundle.py:664-737 | reserving names tuple by tuple accepts exactly the lists whose names avoid the core names and whose keys and names are unique, and returns them sorted |
| `Packager.TuplesInOrder` | scripts/package-release-bundle.py:664-706 | the assembled tuples are ordered by operating system, then architecture, then image kind |
| `Packager.RequireUnique` | scripts/package-release-bundle.py:740-756 | the set-filling check decides uniqueness of keys and names |
| `Packager.CollectNames` | scripts/package-release-bundle.py:1036-1056 | the duplicate check over the subject names passes exactly when none repeats |
| `Packager.UniqueUnderSort` | scripts/package-release-bundle.py:740-756 | uniqueness does not depend on the order of the tuples |
| `Packager.AssembledNamesDistinct` | scripts/package-release-bundle.py:1036-1056 | after an accepted assembly no later duplicate check fires, and k extra tuples give exactly 9 + 2k public names |
| `UploadManifest.ExpectedPublicAssets` | scripts/release_upload_manifest.py:280-328 | the loop returns subjects and proof rows exactly when every subject is well formed, new and equal to its file in digest and size, and the proof files exist |
| `UploadManifest.AssemblyGivesManifest` | scripts/release_upload_manifest.py:280-315 | from an accepted assembly with its files on disk the manifest is built with the 9 + 2k public names in order, and the planner and the inventory accept it |
| `UploadManifest.ManifestKinds` | scripts/release_upload_manifest.py:280-315 | every row has the kind that goes with its file: bundles, their metadata, the four core subjects and the three proofs |
| `UploadManifest.WrittenManifestVerifiesExactly` | scripts/release_upload_manifest.py:114-190 | written next to the files it lists, the manifest verifies exactly when no subject has its own name, or its text has the digest and size of the file it replaced |
| `Packager.RequiredAssetsArePublic` | scripts/stable_release_channel.py:20-30 | the public names include every asset the stable channel requires |
| `Packager.WorkflowNamesLeakExactly` | scripts/release_upload_manifest.py:52-79 | a public name is a workflow-only name exactly when some tuple was given it |
| `Packager.ManifestNameCanBeTaken` | scripts/package-release-bundle.py:708-737 | a concrete accepted assembly takes the upload manifest's own name |
| `FreshnessUrls.UrlTable.AddFreshnessUrl` | scripts/release_freshness.py:385-418 | one call changes one entry: created, left alone, or its sources merged and sorted |
| `FreshnessUrls.UrlTable.AddEntries` | scripts/release_freshness.py:292-340 | a series of calls leaves the table of the whole series |
| `FreshnessUrls.AddKeepsTable` | scripts/release_freshness.py:385-418 | one more call keeps the table exact |
| `FreshnessUrls.TableIsExact` | scripts/release_freshness.py:385-418 | each URL is held once, with the first call's fields and exactly the sorted set of its sources |
| `FreshnessUrls.ListIsExact` | scripts/release_freshness.py:340 | the sorted list has one exact row for each URL named and no other |
| `FreshnessUrls.ListInOrder` | scripts/release_freshness.py:369-370 | the list is ordered by role, release tag, asset name and address |
| `Ordering.StringLeExactly` | scripts/release_freshness.py:369-370 | one text comes before another exactly when it is a prefix of it or has the smaller character where they first differ |
| `FreshnessUrls.ProofRowsValidate` | scripts/freshness_proof.py:409-527 | the proof rows are the list itself and pass validation under the rows' own key |
| `FreshnessUrls.RowsValidExactly` | scripts/freshness_proof.py:480-493 | rows are valid exactly when they and the sources of each are in order |

## Left out

- JSON parsing: a line or document that does not parse or lacks its exact fields is one `Bad` case; Python's `True == 1` and `1 == 1.0` are not modelled.
- Timestamps: only whether they parse, and in the safety floor their order as integers.
- Error wording, printed diagnostics, repair commands, receipts' free text and the integrity-subject flag.
- Unicode: white space is ASCII and line ends are those of a sequence of lines.
- Floating point: percentages and confidence are exact reals, so rounding of ranks is not modelled.
- `Sort` is stable insertion sort, standing for Python's stable sort.
- Protocol: GitHub resolving `latest` anew after a deletion, the receipts and the preflight as separate steps, validating and publishing the draft as two steps, and the later upload of the freshness proof are not steps; one job per tag is taken from the workflow's concurrency group.
- QuickstartSnippets.RenderingKeepsSnippets: the condition is sufficient, not necessary; a block inside a snippet may also leave the normalised text unchanged.
- Changelog.ExtractSection: equals the pattern with the escaped tag only for tags without a closing bracket.
- Backfill.RoundTripExactly: section bodies with a `## [` line are excluded, as the review format promises.
- BenchSummary: snapshots, sweeps, throughput, outliers and `compute_diff` would add only easy members.
- FreshnessUrls: the regular expression that finds URLs in documents; its matches are inputs. The command inventory digest and the public asset rows of the proof.
- UploadManifest: the workflow artifact inventory and the reasons of non-public artifacts; tar and gzip output.
- Readiness: remediation texts, artifact paths and the quickstart proof rows of the publish receipt.
- SafetyFloor: `validate_public_assets`, install URL proofs and policy references beyond their presence.
- The evidence bundle, token authority, repository protection, workflow lint and docs receipt scripts: long lists of field equalities.
- The Rust crates.
