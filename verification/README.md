# dnfast: caches, protocols and orders, proved

dnfast is a package manager that answers quickly by keeping caches of slower truths: hashed files, verified
RPM databases, solved plans. This project models the parts where a cache, a protocol or an encoding has to
agree with the slow and simple form of the same thing, and proves that it does.

Hash functions are parameters everywhere. Where a result needs them not to collide, that is a precondition of
the lemma; everywhere else the results are about the bytes that are hashed.

| file | part of dnfast |
|---|---|
| `Bytes.dfy`, `Framing.dfy` | byte strings, big-endian integers, length frames and the incremental hasher |
| `RpmVersion.dfy` | the two-cursor RPM version comparison and the order of package versions |
| `PlanPolicy.dfy` | plan validation, canonical actions and the replacement and removal policy |
| `RootInputs.dfy` | the byte strings behind the metadata and trust digests |
| `PrimaryFiles.dfy` | the sorted fixed-width projection of file names and its validator |
| `SolvCache.dfy`, `SolvCommit.dfy` | the content-addressed solv cache: small steps of many processes, and whole commits |
| `ReceiptText.dfy`, `RpmdbReceipt.dfy` | the texts of RPMDB verification receipts, and the receipts as a protocol |
| `ResidentPlanner.dfy` | the resident planner: pool, last solve, verified cookie, pending context, refresh |
| `DaemonProtocol.dfy` | the solve token and the prepare, decision, outcome exchange |
| `Publication.dfy` | staged publication of immutable metadata objects and repository pointers |
| `ArtifactStore.dfy` | capacity arithmetic, verified streaming and the artifact transaction |
| `ExecutorFd.dfy` | the descriptor shuffle before `execve` and the taking back after it |
| `OpenPgp.dfy` | packet and subpacket walking, subkey fingerprints, the signer of a packet |
| `Selection.dfy` | order-independent choice of a provider and of a replacement |
| `TransactionRun.dfy` | phases, counters and authorized problems of the RPM transaction |

## Assumptions

They are written as preconditions or as part of a state's validity, never left to prose alone.

- Files carry a generation that changes with every change of their content (`SolvCache.Fs.clock`,
  `ResidentPlanner.GenerationCovers`); equal RPMDB cookies list equal packages
  (`ResidentPlanner.CookieDetermines`), but say nothing about whether a full verification would pass.
- Cookies and receipts are written by this code alone. Of receipts the planner relies on no more than it keeps
  itself: they were published after a hit or after a bracketed verification (`ResidentPlanner.ReceiptEarned`,
  `ResidentPlanner.Planner.Valid`), from which it follows that they all tell the truth
  (`ResidentPlanner.ReceiptsAreHonest`). That a hit is on a published receipt is `RpmdbReceipt.HitWasPublished`.
- Concurrency is interleaving of system calls with processes that may stop between any two of them. What is
  visible stays visible: lost directory entries after a power failure are not modelled.

## What was found

Statements that turned out not to hold of the code as it stands are kept as lemmas with the exact condition
under which they do hold, or with a concrete case.

- `PlanPolicy.ValidNowIsCanonicalUnlessDuplicate` and `PlanPolicy.DuplicatesPass`: `canonical_actions` refuses two
  actions on the same package, `validate_now` does not; the two agree exactly when the keys are distinct.
- `PlanPolicy.ReplacementKindsExclude` and `PlanPolicy.EqualButDifferent`: a candidate that compares equal to the
  installed version without being the same text is accepted neither as upgrade nor as downgrade nor as reinstall.
- `Selection.OrderIndependentExact`: the selected provider is independent of the pool's order exactly when the
  identities are distinct or two candidates of one identity lead all others.
- `ResidentPlanner.Planner.RefreshedIntegrityExact`: a pool carries the metadata digest of the snapshot it was opened
  from through all refreshes. Its integrity is a rebuild's exactly if it was never refreshed or that snapshot had
  the current schema; `ResidentPlanner.TwiceRefreshedDiffers` runs a planner into the other case, by a second refresh
  whose source snapshot has the current schema.
- `ExecutorFd.ClosedSourceIsMistaken`: a source descriptor that is closed on entry may name a temporary and be handed
  over as an earlier source's object. `ExecutorFd.ExecCompact` says exactly when, and `ExecutorFd.HandedOverExact`
  that the slots of open sources, and only those, hold what was named.
- `ArtifactStore.StageArtifacts`: a request may bind one digest with two sizes. It is accepted and starts, and never
  drains (`ArtifactStore.AcceptedButNeverDrains`); requests drain exactly if their digests are pairwise distinct.

## Model

| member | source | states |
|---|---|---|
| RpmVersion.PartCompare | crates/dnfast-core/src/value.rs:155-245 | The two-cursor loop terminates and is the lexicographic comparison of token sequences, tilde below the end, the end below caret, caret below letters, letters below digits |
| RpmVersion.CompareRunsIsCompareToken | crates/dnfast-core/src/value.rs:214-243 | Dropping zeros, comparing lengths and then bytes orders digit runs of any length as the natural numbers they denote, and letter runs as bytes |
| RpmVersion.CompareIsTotalPreorder | crates/dnfast-core/src/value.rs:155-245 | Equal exactly on equal token sequences; exchanging the arguments reverses the result; transitive, strictly so if either side is |
| RpmVersion.IsStrictlyNewerThan | crates/dnfast-core/src/value.rs:121-129 | Epoch first, then version, then release, each by the order above |
| RpmVersion.CompareEvraIsTotalPreorder | crates/dnfast-core/src/value.rs:121-129 | The order of epoch, version and release is a total preorder |
| RpmVersion.NewerIsStrictWeakOrder | crates/dnfast-core/src/value.rs:121-129 | "Strictly newer" is irreflexive, asymmetric and transitive, and so is being neither newer nor older |
| PlanPolicy.ReplacementKindsExclude | crates/dnfast-core/src/policy.rs:303-386 | At most one of upgrade, downgrade and reinstall is acceptable for a pair; none is exactly when the pair compares equal but differs |
| PlanPolicy.EqualButDifferent | crates/dnfast-core/src/policy.rs:349-370 | A concrete pair that compares equal and differs, hence cannot be replaced at all |
| PlanPolicy.UpgradesNeverReturn | crates/dnfast-core/src/policy.rs:303-326 | In any chain of accepted upgrades every later version is strictly newer than every earlier one, on the same architecture |
| PlanPolicy.NeighboursSuffice | crates/dnfast-core/src/plan.rs:630-634 | Comparing neighbours, as the validator does, orders all pairs |
| PlanPolicy.CanonicalIsCanonical | crates/dnfast-core/src/plan.rs:513-529 | Canonical actions do not depend on the order they were found in, and canonicalizing again changes nothing |
| PlanPolicy.CanonicalIsValid | crates/dnfast-core/src/plan.rs:513-529 | What canonicalization returns is a strictly ordered permutation of valid actions within the limit |
| PlanPolicy.ValidateNow | crates/dnfast-core/src/plan.rs:616-650 | Accepts exactly an unexpired envelope whose actions are pairwise strictly ordered, valid, and from selected repositories |
| PlanPolicy.ValidNowIsCanonicalUnlessDuplicate | crates/dnfast-core/src/plan.rs:513-529 | A plan that is valid now could have been built exactly when no two actions share operation, name and target |
| PlanPolicy.DuplicatesPass | crates/dnfast-core/src/plan.rs:616-650 | A plan with one installation twice, under two reasons, is valid now though it is never built |
| PlanPolicy.ValidateExecutable | crates/dnfast-core/src/plan.rs:691-811 | Accepts exactly plans valid now under a consistent policy whose every action fits the intent or is a tied side effect, and meets the policy |
| PlanPolicy.RemovalsAreSafe | crates/dnfast-core/src/policy.rs:388-405 | No accepted plan removes a protected, install-only or running-kernel package, nor one whose reason asks to keep it |
| PlanPolicy.RemovalsAreTied | crates/dnfast-core/src/plan.rs:698-743 | Outside remove and autoremove every removal names an install or replacement of the same plan; inside them there are only removals |
| PlanPolicy.OperationsMeanWhatTheySay | crates/dnfast-core/src/plan.rs:703-807 | In accepted plans upgrades go up, downgrades go down, reinstalls stay, within one architecture; only installs and dependencies add packages |
| RootInputs.MetadataDigest | crates/dnfast-executor/src/root_inputs.rs:688-747 | The digest is the hash of exactly the framed byte string of the repositories |
| RootInputs.TrustDigest | crates/dnfast-executor/src/root_inputs.rs:749-761 | The digest is the hash of exactly the framed trust string |
| RootInputs.MetadataBytesInjective | crates/dnfast-executor/src/root_inputs.rs:162-242 | For validated lists and schemas 3 to 5 the bytes determine the schema and every repository field, optional files included |
| RootInputs.FileIsNotRepository | crates/dnfast-executor/src/root_inputs.rs:725-744 | A present optional file is never mistaken for a following repository, even one whose id looks like a digest |
| RootInputs.RepositoryPeel | crates/dnfast-executor/src/root_inputs.rs:688-747 | One repository can be read off the front, whatever validated repositories follow |
| RootInputs.TrustBytesInjective | crates/dnfast-executor/src/root_inputs.rs:749-777 | The trust bytes determine the ids and trust digests in order |
| PrimaryFiles.EncodePrimaryFiles | crates/dnfast-cache/src/publication.rs:453-473 | The output is the concatenation of the sorted, duplicate-free records |
| PrimaryFiles.CanonicalSpec | crates/dnfast-cache/src/publication.rs:453-473 | Sorting and deduplication give the one strictly ascending list of the same records |
| PrimaryFiles.StrictListingUnique | crates/dnfast-cache/src/publication.rs:453-473 | A set of records has only one strictly ascending listing |
| PrimaryFiles.RecordBytesOrder | crates/dnfast-cache/src/publication.rs:425-473 | Fixed-width big-endian records compare as bytes exactly as they compare as records |
| PrimaryFiles.FlattenParse | crates/dnfast-cache/src/publication.rs:453-473 | Reading the written records back gives the records |
| PrimaryFiles.ParseFlatten | crates/dnfast-cache/src/loading.rs:460-479 | Writing the records read off any whole number of records gives the bytes back |
| PrimaryFiles.ValidatePrimaryFiles | crates/dnfast-cache/src/loading.rs:460-479 | The single pass with a previous record decides exactly the acceptance predicate |
| PrimaryFiles.AcceptsExactlyEncodings | crates/dnfast-cache/src/loading.rs:460-479 | A byte string is accepted if and only if it is the encoding of some record list with ordinals below the package count |
| SolvCache.HandlesAreVerified | crates/dnfast-cache/src/solv_cache.rs:317-437 | Over every interleaving a handle given out carries the digest and size of the content its generation stands for; while the file keeps that generation the full hash, size limits included, accepts it |
| SolvCache.HandOutIsExact | crates/dnfast-cache/src/solv_cache.rs:293-437 | At the moment a handle is given out the full hash accepts its file for the reported digest, and the size is the reported one |
| SolvCache.CookieImpliesHash | crates/dnfast-cache/src/solv_cache.rs:341-382 | Whenever the cookie check passes and the generation is still the same, the full hash accepts the file, size limits included |
| SolvCache.WriteKeeps | crates/dnfast-cache/src/solv_cache.rs:317-437 | Rewriting any file from outside keeps the invariant: cookies and handles stand for the content of their own generation |
| SolvCache.OutsideKeeps | crates/dnfast-cache/src/solv_cache.rs:317-437 | Any outside write, or removal or replacement of names, keeps that invariant |
| SolvCache.CookieKeeps | crates/dnfast-cache/src/solv_cache.rs:476-640 | Each step that reads, links or rereads a cookie keeps that invariant |
| SolvCache.CommitKeeps | crates/dnfast-cache/src/solv_cache.rs:106-255 | Each step of a commit keeps that invariant, so it may stop after any of them |
| SolvCache.RunKeeps | crates/dnfast-cache/src/solv_cache.rs:48-208 | The invariant holds in every state of every run of any number of processes |
| SolvCommit.HashFile | crates/dnfast-cache/src/solv_cache.rs:727-757 | Hashing buffer by buffer is hashing the whole, and refuses exactly empty and oversized files |
| SolvCommit.Directory.OpenContent | crates/dnfast-cache/src/solv_cache.rs:308-437 | Opens exactly content that has a matching cookie, or none and the right hash; other contents are unaffected |
| SolvCommit.Directory.OpenCached | crates/dnfast-cache/src/solv_cache.rs:293-306 | Succeeds exactly if the binding has a winner, and then hands out the winner |
| SolvCommit.Directory.LinkContent | crates/dnfast-cache/src/solv_cache.rs:106-154 | Afterwards the staged content opens under its name, whatever was there before |
| SolvCommit.Directory.BindReference | crates/dnfast-cache/src/solv_cache.rs:155-208 | A reference whose content opens stays; a missing, malformed or corrupt one goes to the staged content |
| SolvCommit.Directory.Commit | crates/dnfast-cache/src/solv_cache.rs:106-208 | The first valid winner stays, anything else is replaced, the binding opens afterwards, and other bindings are untouched |
| SolvCommit.Directory.CommitAll | crates/dnfast-cache/src/solv_cache.rs:106-208 | All commits of any sequence for one binding return the first winner |
| ReceiptText.DescriptorInjective | crates/dnfast-cache/src/rpmdb_receipt.rs:252-262 | The descriptor text determines the binding and all seven measured numbers |
| ReceiptText.CurrentRoundTrip | crates/dnfast-cache/src/rpmdb_receipt.rs:429-449 | Parsing a printed current receipt gives back its binding, state and descriptor |
| RpmdbReceipt.HitWasPublished | crates/dnfast-cache/src/rpmdb_receipt.rs:86-147 | Over every run a check hits only for a generation that publish was called on |
| RpmdbReceipt.CurrentHitWasPublished | crates/dnfast-cache/src/rpmdb_receipt.rs:149-236 | A current state is returned only if it was published for exactly that generation |
| RpmdbReceipt.MeasureKeeps | crates/dnfast-cache/src/rpmdb_receipt.rs:238-281 | Each measuring step keeps the invariant, whatever the database and its WAL do in between: what is measured is written or compared only as itself |
| RpmdbReceipt.FileKeeps | crates/dnfast-cache/src/rpmdb_receipt.rs:461-503 | Each step that links, rereads or repairs a receipt keeps the invariant: only published texts are under receipt names |
| RpmdbReceipt.ReadCurrentKeeps | crates/dnfast-cache/src/rpmdb_receipt.rs:149-172 | What the current record is parsed into was published together |
| RpmdbReceipt.RunKeeps | crates/dnfast-cache/src/rpmdb_receipt.rs:86-281 | The directory invariant holds in every reachable state |
| RpmdbReceipt.UndisturbedCheckHits | crates/dnfast-cache/src/rpmdb_receipt.rs:86-113 | With its receipt there and the database unchanged, an undisturbed check hits |
| RpmdbReceipt.UndisturbedPublishes | crates/dnfast-cache/src/rpmdb_receipt.rs:128-147 | An undisturbed publication of the present generation puts its receipt in place, whatever is there before: nothing, the same text, or another one that is then repaired |
| RpmdbReceipt.WriteThen | crates/dnfast-cache/src/rpmdb_receipt.rs:461-503 | From the link on, an undisturbed write ends with its text under its name, by linking, rereading or repairing |
| ResidentPlanner.GenerationSeen | crates/dnfast-cache/src/rpmdb_receipt.rs:121-126 | Any sight of a truthful receipt's generation is a sight of the sound database it was issued for |
| ResidentPlanner.PrefetchAgrees | crates/dnfast-executor/src/resident.rs:2086-2261 | File selectors prefetched from the pool's own snapshot map to exactly what the pool would map |
| ResidentPlanner.NothingToMap | crates/dnfast-executor/src/resident.rs:1138-1156 | When primary metadata provides every path the prefetch is not needed |
| ResidentPlanner.Planner.VerifyUnchanged | crates/dnfast-executor/src/resident.rs:1599-1622 | Success means a passed full verification between two reads with one cookie and one inventory digest |
| ResidentPlanner.VerifiedIsTruthful | crates/dnfast-executor/src/resident.rs:983-996 | A verification between two sights of one generation attests the database of that generation |
| ResidentPlanner.ReceiptsAreHonest | crates/dnfast-executor/src/resident.rs:966-1003 | If every receipt was published as planners publish, after a hit or after a verification, then every receipt there ever is tells the truth about its generation |
| ResidentPlanner.Planner.PublishCurrent | crates/dnfast-cache/src/rpmdb_receipt.rs:194-236 | A receipt is published only where it was earned by a hit or a verification, and it is then truthful |
| ResidentPlanner.Planner.StartFromReceipt | crates/dnfast-executor/src/resident.rs:913-954 | Starting without opening the RPMDB rests on a receipt that holds for the published inventory and the stored cookie |
| ResidentPlanner.Planner.StartFromDatabase | crates/dnfast-executor/src/resident.rs:966-1003 | Otherwise the reading rests on a binding receipt or on a full verification made in this call |
| ResidentPlanner.Planner.VerifyStartup | crates/dnfast-executor/src/resident.rs:902-1015 | The pending context and the verified cookie rest on evidence of this call; a failure changes neither |
| ResidentPlanner.Planner.TakeInstalled | crates/dnfast-executor/src/resident.rs:1410-1449 | The packages a pool is built on were the RPMDB's during this call; a lost generation asks for full verification |
| ResidentPlanner.Planner.AcceptInstalled | crates/dnfast-executor/src/resident.rs:1450-1453 | Acceptance on the cookie alone happens only for a verified cookie, with no generation lost |
| ResidentPlanner.Planner.BuildPool | crates/dnfast-executor/src/resident.rs:1400-1586 | A built pool has the snapshot's integrity and inventory, and evidence for its cookie |
| ResidentPlanner.Planner.StillCurrent | crates/dnfast-executor/src/resident.rs:1256-1286 | The pool is kept exactly if its snapshot is published and its generation, or without one its cookie, is current |
| ResidentPlanner.Planner.Rebuild | crates/dnfast-executor/src/resident.rs:1287-1306 | After a generation miss the new pool rests on evidence gathered in this call, never on the cookie alone |
| ResidentPlanner.Planner.Ensure | crates/dnfast-executor/src/resident.rs:1256-1306 | On success snapshot, cookie and packages of the pool were current at instants of this call; a pool that still holds is kept; when nothing fails or changes it succeeds |
| ResidentPlanner.Planner.Warm | crates/dnfast-executor/src/resident.rs:1017-1020 | The cookie it answers with was the RPMDB's during this call |
| ResidentPlanner.Planner.MapNames | crates/dnfast-executor/src/resident.rs:1138-1174 | Whatever was prefetched, the selectors mapped are those of the pool's own snapshot |
| ResidentPlanner.Planner.SolvePool | crates/dnfast-executor/src/resident.rs:1108-1253 | A remembered solve that fits and has not expired is returned unchanged; either way the plan is a fresh solve's |
| ResidentPlanner.Planner.Solve | crates/dnfast-executor/src/resident.rs:1070-1254 | Cached or not, the plan is what a fresh solve of the pool gives, unexpired, for a snapshot and RPMDB state current during this call |
| ResidentPlanner.Planner.RequiresFullFilelists | crates/dnfast-executor/src/resident.rs:1022-1068 | A fallback is asked for only when some path is provided neither by primary metadata nor by an index |
| ResidentPlanner.Planner.RefreshAfterMutation | crates/dnfast-executor/src/resident.rs:1319-1378 | A refreshed pool has the reported inventory and the published snapshot, rests on the agreeing RPMDB, and has forgotten solve and generation; any other pool is dropped |
| ResidentPlanner.Planner.RefreshedIntegrityExact | crates/dnfast-executor/src/resident.rs:1333-1378 | For the pool of any planner, after any requests and refreshes, the integrity is the one a rebuild would compute exactly if the pool was never refreshed or the snapshot it was opened from had the current schema |
| ResidentPlanner.PoolIntegrityExact | crates/dnfast-executor/src/resident.rs:1357-1370 | The same, stated of the pool alone |
| ResidentPlanner.RefreshedManyTimes | crates/dnfast-executor/src/resident.rs:1333-1378 | After any number of refreshes of a newly built pool the integrity is a rebuild's exactly if the snapshot is still the first or the first had the current schema |
| ResidentPlanner.TwiceRefreshedDiffers | crates/dnfast-executor/src/resident.rs:1319-1378 | A run: opened on a schema 6 snapshot and refreshed twice, the second time from a current-schema snapshot, the pool has an integrity that is not a rebuild's |
| DaemonProtocol.TokenBytesInjective | crates/dnfast-executor/src/resident.rs:2263-2290 | The hashed bytes determine nonce, sequence, plan digest, cookie, metadata, trust, policy and expiry |
| DaemonProtocol.SolveToken | crates/dnfast-executor/src/resident.rs:2263-2284 | The token is the hash of exactly those bytes |
| DaemonProtocol.SecureEqual | crates/dnfast-executor/src/resident.rs:2374-2382 | The comparison without early exit, with which returned tokens are checked, is equality |
| DaemonProtocol.TokensNeverRepeat | crates/dnfast-executor/src/resident.rs:704-710 | Two prepares within 2^64 of each other have different tokens unless the hash collides on just these two inputs |
| DaemonProtocol.Daemon.ReadyToExecute | crates/dnfast-executor/src/resident.rs:757-790 | Passes exactly if the plan is executable, its snapshot is published at both looks, and bindings, recovery and staging succeed |
| DaemonProtocol.Daemon.Execute | crates/dnfast-executor/src/resident.rs:757-834 | The journal entry precedes the executor; exactly one execution is recorded, and only past every check |
| DaemonProtocol.Daemon.AskDecision | crates/dnfast-executor/src/resident.rs:704-741 | Approval is reported exactly if the token reached the client and came back approved in the right schema |
| DaemonProtocol.Daemon.PrepareAndExecute | crates/dnfast-executor/src/resident.rs:697-835 | Executes exactly on an approval of this plan's token; otherwise journal, planner and executions stay as they were |
| DaemonProtocol.Daemon.Answer | crates/dnfast-executor/src/resident.rs:598-656 | A request that executes nothing is answered, if at all, with the pool's cookie or with a plan for that request that is executable and whose snapshot was published during the call |
| DaemonProtocol.Daemon.Serve | crates/dnfast-executor/src/resident.rs:504-556 | Over every run each connection executes at most one plan, and while no client approves nothing is journalled or executed |
| DaemonProtocol.Daemon.HandleConnection | crates/dnfast-executor/src/resident.rs:598-683 | Whatever a client sends, at most one plan is executed: the one it asked to prepare and then approved |
| Publication.FinishedLoads | crates/dnfast-cache/src/publication.rs:257-308 | A staging directory with its manifest written is one the plain reader accepts |
| Publication.FinishedVerifies | crates/dnfast-cache/src/loading.rs:170-254 | The verified reader accepts a finished complete object exactly if its origin is there, primary and filelists are the ones the repomd records, and the file projection is valid for the package count |
| Publication.EncodedProjectionIsConsistent | crates/dnfast-cache/src/loading.rs:205-216 | The projection the publisher encodes from records with ordinals below the package count always passes that reader |
| Publication.FastPathsVerified | crates/dnfast-cache/src/publication.rs:26-57 | Reusing the current generation, and publishing fast onto an existing object, go on only with an object that passes the verified reader |
| Publication.RenameKeeps | crates/dnfast-cache/src/publication.rs:309-319 | The rename keeps objects, current entries and all other publishers in order: it adds a complete object and never replaces one |
| Publication.PointKeeps | crates/dnfast-cache/src/publication.rs:321-353 | So does the replacement of `current`: what it names is complete and belongs to the repository |
| Publication.ObjectsAreImmutable | crates/dnfast-cache/src/publication.rs:205-319 | Under any interleaving the first object published for a digest never changes |
| Publication.CurrentIsComplete | crates/dnfast-cache/src/publication.rs:321-353 | A repository's current pointer is absent or names a complete object of that repository, unless the id of a stored object collides with its own |
| Publication.CollidingPublishersExclude | crates/dnfast-cache/src/publication.rs:205-255 | Of publishers colliding on one digest all that succeed agree on repository and integrity level |
| Publication.UndisturbedPublishes | crates/dnfast-cache/src/publication.rs:205-353 | From any state an undisturbed publisher of a new digest gets its object and pointer in place |
| ArtifactStore.ValidateExact | crates/dnfast-cache/src/artifact.rs:177-209 | The 64-bit checked arithmetic decides the four limits on unbounded numbers; no overflow ever decides |
| ArtifactStore.ForSpecs | crates/dnfast-cache/src/artifact.rs:155-174 | Accepts exactly distinct identities within the count and size limits |
| ArtifactStore.StreamVerified | crates/dnfast-cache/src/artifact_store.rs:326-360 | Accepts exactly a delivered body of the declared size and hash, and never writes more than that size |
| ArtifactStore.CachedBytes | crates/dnfast-cache/src/artifact_store.rs:198-226 | The sum over the directory is the same in whatever order it is listed |
| ArtifactStore.MissingBytes | crates/dnfast-cache/src/artifact_store.rs:178-196 | Refuses exactly a present artifact that is not intact; else sums the absent ones |
| ArtifactStore.MissingIsOutstanding | crates/dnfast-cache/src/artifact_store.rs:178-196 | The reserved bytes are the total size of the identities not yet stored |
| ArtifactStore.StoringPays | crates/dnfast-cache/src/artifact_store.rs:252-270 | A stored artifact takes at least its size off what is outstanding |
| ArtifactStore.Begin | crates/dnfast-cache/src/artifact_store.rs:54-86 | Starts exactly when present artifacts are intact and the missing ones fit the limits, the cap and the reserve |
| ArtifactStore.ArtifactTransaction.Obtain | crates/dnfast-cache/src/artifact_store.rs:228-280 | Adds nothing but the whole named artifact, and succeeds whenever the outside does |
| ArtifactStore.ArtifactTransaction.Fetch | crates/dnfast-cache/src/artifact_store.rs:94-108 | A pending identity leaves the remaining ones exactly when its artifact is in the store |
| ArtifactStore.ArtifactTransaction.Bounded | crates/dnfast-cache/src/artifact_store.rs:54-108 | In every state written bytes are within the reservation, stored bytes within the cap, and names hash as they did |
| ArtifactStore.SharedDigestFetchedOnce | crates/dnfast-cache/src/artifact_store.rs:94-108 | Of two identities with one digest and different sizes at most one is fetched |
| ArtifactStore.ArtifactTransaction.FetchAll | crates/dnfast-executor/src/resident.rs:1805-1840 | Whatever is sent, a transaction drains only if no two identities share a digest; if none do and everything is delivered, it drains with every artifact stored |
| ArtifactStore.StageArtifacts | crates/dnfast-executor/src/resident.rs:1793-1841 | From request to drained transaction: when everything fits and is delivered, it succeeds exactly if no two artifacts share a digest |
| ArtifactStore.AcceptedButNeverDrains | crates/dnfast-executor/src/resident.rs:1793-1841 | A request with one digest under two sizes is accepted and starts on an empty cache, and never drains, whatever is sent |
| ExecutorFd.Stage | native/src/executor_fd.c:43-57 | Succeeds exactly if every slot is within the limit and every source is open on entry or is an earlier slot; then the temporaries are the free slots in order, and otherwise nothing is changed |
| ExecutorFd.Place | native/src/executor_fd.c:58-73 | The temporaries are copied down to the targets and nothing else is touched |
| ExecutorFd.ExecCompact | native/src/executor_fd.c:37-78 | Succeeds exactly on legal arguments whose sources can be served; slots 3, 4, 5... then hold exactly the source objects, however sources and targets overlap, and nothing is open above |
| ExecutorFd.ClosedSourceIsMistaken | native/src/executor_fd.c:47-51 | The whole shuffle succeeds on a closed artifact descriptor that is the plan's temporary, and hands the plan over in its slot |
| ExecutorFd.HandedOverExact | native/src/executor_fd.c:43-78 | After a successful shuffle a slot holds the object its source named on entry exactly if that source was open on entry |
| ExecutorFd.SlotFacts | native/src/executor_fd.c:47-57 | The slots are the free descriptors from the minimum on, ascending, with nothing free between them |
| ExecutorFd.RoomServes | native/src/executor_fd.c:43-57 | Open sources with room above all open descriptors can always be served |
| ExecutorFd.TakeInherited | native/src/executor_fd.c:106-125 | The descriptor returned is a fresh close-on-exec duplicate of the inherited object |
| ExecutorFd.TakeAll | native/src/executor_fd.c:106-125 | The take calls return distinct descriptors on the handed-over objects in order |
| ExecutorFd.HandOver | native/src/executor_fd.c:37-125 | End to end, what is taken at a position is what was passed at that position |
| OpenPgp.HeaderRead | native/src/keyring_identity.c:106-135 | A header in any accepted format is read back, whatever follows |
| OpenPgp.HeaderWasWritten | native/src/keyring_identity.c:106-135 | Whatever is read as a header is the header an encoder writes |
| OpenPgp.SpanIsEncoding | native/src/keyring_identity.c:106-135 | What the packet walker accepts is an encoded packet, inside the data |
| OpenPgp.PacketsInvert | native/src/keyring_identity.c:106-135 | The packet reader makes progress, stays in bounds and inverts the encodings of section 4.2 of RFC 4880, accepting nothing else |
| OpenPgp.WalkReads | native/src/keyring_identity.c:154-183 | A walk visits the encoded items the data start with and stops where none starts |
| OpenPgp.PacketsVisitedExactly | native/src/keyring_identity.c:154-183 | On any concatenation of encoded packets the walk visits exactly those |
| OpenPgp.SubkeyFingerprint | native/src/keyring_identity.c:154-183 | Returns the first visited subkey whose key id is the wanted one, or nothing |
| OpenPgp.SubpacketsInvert | native/src/keyring_identity.c:27-40 | The subpacket reader inverts the encodings of section 5.2.3.1 of RFC 4880, accepting nothing else |
| OpenPgp.SeeAllFinds | native/src/keyring_identity.c:54-69 | The loop over subpackets ends with a fingerprint exactly if one subpacket is an issuer fingerprint and it is of version 4 |
| OpenPgp.IssuerExact | native/src/keyring_identity.c:42-69 | What the walk over the hashed area finds is what the encoded packet says |
| OpenPgp.FindOnly | native/src/keyring_identity.c:70-79 | The scan of the ring returns the only identity with the signing key, or nothing |
| OpenPgp.FindPacketSigner | native/src/keyring_identity.c:42-80 | An identity is returned exactly if the packet is one signature with one issuer fingerprint in its hashed area and the ring has one matching identity |
| Selection.SelectedProvider | native/src/decisions.c:46-78 | The loop gives the outcome of scanning the selected candidates |
| Selection.DisplacesIsBetter | native/src/decisions.c:69-74 | The three displacement conditions amount to installed first, then the smaller identity |
| Selection.DistinctFindsBest | native/src/decisions.c:46-78 | With distinct identities the provider is the installed-first, identity-minimal candidate |
| Selection.OrderIndependentExact | native/src/decisions.c:46-78 | The outcome is independent of the order exactly when identities are distinct or two of one identity lead |
| Selection.BeatsOrder | native/src/solver.c:541-551 | Version, priority, subpriority and lowest id order the candidates strictly and totally |
| Selection.FindTarget | native/src/solver.c:473-523 | The one package to replace is told by the sets of selected and matched installed packages |
| Selection.FindGreatest | native/src/solver.c:524-552 | The last loop returns the greatest eligible candidate |
| Selection.ExactReplacement | native/src/solver.c:473-561 | Every outcome, errors included, is told by sets alone |
| Selection.GreatestUnique | native/src/solver.c:541-551 | There is at most one greatest candidate |
| Selection.SelectionIsASet | native/src/solver.c:473-561 | Targets and candidates are those of the set of selected ids |
| TransactionRun.AuthorizedFilters | native/src/transaction_run.c:198-209 | The filters are exactly the overrides some installed item asks for |
| TransactionRun.ProblemIsAuthorized | native/src/transaction_run.c:153-167 | A problem passes exactly if it is the one its own item asked to override |
| TransactionRun.Context.Notify | native/src/transaction_run.c:84-143 | Every callback keeps the counters balanced, and raises the failure flag exactly when a failure is counted |
| TransactionRun.Context.AddInstall | native/src/transaction.c:101-137 | An item is added exactly in preflight, writable, with the bound keyring, verified, and below the limit |
| TransactionRun.Context.AddErase | native/src/transaction.c:139-166 | An erase is added exactly in preflight, writable, with a legal instance, below the limit |
| TransactionRun.Context.Attempt | native/src/transaction_run.c:211-260 | The real run starts exactly after every stage and an accepted start, and succeeds exactly if nothing unauthorized and no callback failure is left |
| TransactionRun.Context.Execute | native/src/transaction_run.c:263-297 | Succeeds exactly if writable, with a keyring and items, in preflight, past every stage and with a clean run; the phase changes exactly on an accepted real run, and once started nothing runs again |
| TransactionRun.Context.Clear | native/src/transaction.c:168-186 | Clearing drops the items but neither phase nor counters |
| TransactionRun.Context.RealRunAtMostOnce | native/src/transaction_run.c:211-297 | Over the life of a context there is at most one real run, right after an accepted start, and no item is added later |

## Left out

- libsolv, librpm, SQLite and libmodulemd: their answers are arbitrary inputs (`ResidentPlanner.Library`, `TransactionRun.Answers`, `Selection.Pool`).
- SHA-256, SHA-1, signatures and fs-verity measurement: functions without properties, except where a lemma asks for no collisions.
- JSON text: plans, requests and states are values; a malformed text is a value of its own.
- Ownership, mode, link-count and symbolic-link checks: one outcome of the call that makes them.
- Power failure: no unsynced directory entry is lost.
- The `repo-id` file of a repository directory while it is first written; parsing of the search index, primary and filelists in `open_by_digest`; manifests of versions before 5, which this code reads but no longer writes.
- HTTP, sockets, peer credentials, systemd, mount namespaces and tracing.
- Fixture fault injection in the native transaction code (`transaction_fail_callback`), allocation failure, and the message texts of problems.
- RpmdbReceipt.HitWasPublished: UTF-8 validity of receipt files is not modelled; a text is readable if it is short enough and ends in a newline.
- SolvCache.HandlesAreVerified: cookie and reference files are values with a malformed case instead of texts, because only this code writes them.
- SolvCommit.Directory.CommitAll: commits are whole here, because with overlapping committers a cookie can vanish between link and reread and the commit then fails.
- ResidentPlanner.Planner.Solve: a receipt check is two observations, not its single system calls, which `RpmdbReceipt` has; the packages loaded into the native context are arbitrary, since librpm reads them separately from the inventory.
- ResidentPlanner.Planner.BuildPool: loading repositories into the native context is one step that works or fails.
- ResidentPlanner.Planner.VerifyStartup: the cached installed packages are arbitrary contents of the native context.
- DaemonProtocol.Daemon.Execute: the executor's run and the publication of its inventory are given outcomes, not steps.
- ExecutorFd.ExecCompact: `close_range`, `clearenv` and allocation do not fail, and the process image after `execve` is only its descriptor table.
- ArtifactStore.ForSpecs: the in-place sort only serves to find duplicates and is not modelled.
- ArtifactStore.Begin: the locks and owner markers that make a transaction hold the directory are not part of this model.
- PlanPolicy.ValidateExecutable: the consistency of a policy with itself and of repository bindings are flags.
- PlanPolicy.CanonicalActions: the derived order of actions is a parameter, any strict total order; the sort is an insertion sort.
- TransactionRun.Context.Notify: callbacks outside `rpmtsRun` are not modelled.
- Selection.ExactReplacement: the version comparison of libsolv is a parameter, any total preorder.
- `selected_repositories`, candidate evidence and the plan builder of the planner: one function from question to answer.
