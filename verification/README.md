# nix-seal: ciphertext custody, modelled and proved

nix-seal keeps encrypted secrets in a repository, re-encrypts them for targets, moves the results
through content-addressed caches and activates them on machines. This project models the four state
machines that move the ciphertext and proves what they keep over every run, including runs in which
file operations fail at any point. It is checked with `dafny verify dfyconfig.toml`.

| Part | Files |
|---|---|
| Batch authoring transaction | `Authoring`, `AuthoringTransaction`, `AuthoringTheorems` |
| Generators | `GeneratorOrder`, `Generators`, `GeneratorTheorems`, `OutputPairing` |
| Ciphertext cache | `CacheAddress`, `BoundedStreams`, `Ordering`, `CacheStore`, `CacheLimits`, `CacheTransfer`, `CacheRecords`, `CacheRetention`, `CacheCollection`, `CacheInventory`, `CacheRoom`, `CacheOperations`, `CacheProtocol` |
| Selection and retention | `ArtifactPolicy`, `ArtifactSelection`, `ArtifactInspection`, `ArtifactRetention`, `ArtifactCollection`, `OverfullCache` |
| Transport and preparation | `Base64`, `Wire`, `FullSelection`, `Transport`, `Readiness`, `TransportLimits`, `Packing`, `Installation`, `ResponseInstallation`, `PreparedResponse`, `PreparationRequest`, `ArtifactCreation`, `TargetPreparation`, `PreparationReasons`, `Preparation`, `ExhaustedTarget`, `Delivery` |

## How it is modelled

- Code that updates files, directories or counters step by step is a class or a method with loops
  (`Repository`, `Cache`, `RetentionTables`, `PreparedBundle`, `Reader`, `BoundedReader`,
  `Collector`), proved against recursive specification functions; the theorems are lemmas about those
  functions. Processes sharing a cache are a state machine over their steps.
- A repository or cache directory is a map from names to contents. Where a theorem quantifies over
  failures, they are explicit: `Faults` says at which positions of a batch each kind of file operation
  fails. In the cache, any file operation may fail nondeterministically (`Io`), except
  that a collection's loop over bundles is given explicitly what goes wrong with which (`BundleFault`).
- A cache is on reliable storage or not (`Cache.reliable`). On reliable storage no file operation fails, and every
  cache operation, inspection, preparation, installation and delivery ensures that it then never ends with an I/O
  error. "I/O aside" below therefore means: on reliable storage, exactly so.
- A specification function that a method mirrors has a lemma beside it that says what it means in elementary
  terms (`SucceedsIff`, `DecisionIsExact`, `ImportableIff`, `TargetPolicyIff`, `AcceptedIff`, `ActiveIff`,
  `SpecReadyIff`, `PreparableIff` and others).
- Directories are listed in an arbitrary order, and every result about a listing is shown not to depend
  on it; only the records of artifacts, which the source sorts, come in key order (`Ordering`).
- BLAKE3, SHA-256, signature checks, the JSON forms of envelopes and generator state, the policy hash
  and plan validation are unknown functions (`HashFunction`, `World`, `Codec`). Nothing is assumed of
  them; `GeneratorTheorems` names the one assumption it needs (`RoundTrips`: what is serialised parses
  back). No theorem assumes that hashes do not collide; `CacheAddress.SharedKeyIsCollision` says where a
  collision would be needed.
- `u64` arithmetic is checked against `U64_MAX` where the source checks it.
- The clock is a parameter. `prepare_request` reads it several times; the model uses one reading.

## Findings

1. **Backup creation can lose originals.** In `write_secret_public_private_batch` creating a backup
   file leaves through `?` without restoring (`crates/nix-seal-authoring/src/lib.rs:1287-1288`; the
   batch rekey and the plain batch have the same lines at 830 and 1151); dropping the earlier backups then deletes
   originals that were already moved. `BackupCreationExit` says exactly what is left, `LosingRun` is a
   run that loses files, and `BackupExitHarmlessIff` shows that the exit is harmless for every failure
   exactly when the batch is refused beforehand or at most one destination exists. The loop that treats
   this failure like a failed rename is all-or-nothing (`RepairedLoopIsAtomic`). The promise in the
   repository's `README.md:767-769` that failures restore the complete prior set fails for this exit.
2. **Durability failures keep the new state.** The documentation at lines 1172-1175 of the same file
   says replacements are restored if a durability step fails; the code returns `DurabilityUnknown` with every destination new
   (`CompletionIsTotal`). `UnsyncedRun` is such a run of any batch that is not refused, and
   `DurabilityExitHarmlessIff` shows that this exit is as promised for every failure exactly when the
   batch is refused beforehand or asks for nothing that is not there already.
3. **`--replace` cannot repair a partial output set**, although the error message suggests it: with
   some outputs missing every attempt, with or without `--replace`, fails and changes nothing
   (`PartialSetIsNeverRepaired`, `ReplaceWorksIff`). Together with finding 1 one failed backup can wedge
   a generator for good (`LostBackupWedgesGenerator`).
4. **Recorded generator state over 64 KiB is written but never read back**, so the generator does not
   converge; it converges exactly up to that size (`ConvergesIff`). The state lists the output ids, so
   `LargeStateIsRefused` gives the failure for every generator whose ids are together longer than 64 KiB,
   under every encoding at least as long as the ids; plan validation allows 10,000 outputs and ids of any
   length. `WideGeneratorIsRefused` is one such generator.
5. **From eleven outputs on, numbered generator files are paired wrongly**: names are iterated as
   strings, so "10" precedes "2" (`PairingIsIntendedIff`).
6. **Retention agrees with activation within a clock window.** A record activation accepts at clock `a`
   with skew `s` is retained by a collection at clock `g` for every possible manifest exactly when
   `g <= a` and `a + s <= g + 300` (`WindowCoveredIff`), given that the repository holds the pinned
   ciphertext (`AcceptedIsActiveIff`).
7. **Retention is computed before the collection takes the lock**: an artifact published in between is
   collected, however valid, so the selection survives exactly if it contains no such artifact
   (`LateArtifactsDecide`; without assumptions on clocks and repository, `GcKeepsSelectionIff`). Readers take no lock either, and are refused
   exactly while some bundle transaction is on disk (`ReaderRefusedIff`).
8. **An artifact of generation 18446744073709551615 ends preparation for its target**, although nothing is
   missing: `crates/nix-seal-cli/src/preparation.rs:584-596` adds one to the newest generation before it
   looks at what was asked for or whether anything has to be created. After a successful run the same
   request fails again, I/O and hash collisions aside, exactly when some reused artifact has that
   generation, and creating under it is enough (`PrepareTwice`). `ExhaustedExample` is a plan and a cache in
   which every check passes and nothing is missing, and `ExhaustedRun` the request that fails there.
9. **A collection that fails between the files of one bundle leaves a cache that no inspection accepts.**
   Removing a bundle is three removals (`crates/nix-seal-cache/src/lib.rs:979-994`). `DamagingRun` is such a
   run, for every directory with something to remove and every order of listing it. What a collection may
   leave stays readable whatever fails if and only if it is a dry run or has no artifact candidate
   (`SafeToCollectIff`), which the dry run announces (`NoCandidatesIff`). A bundle that was left half
   removed makes every later collection (`CacheGc`, `GarbageCollect`) and every later inspection
   (`InspectActivationArtifacts`) fail; an interruption that left none keeps every selection
   (`InterruptionKeepsSelection`).

10. **A cache accepts more bundles than its own reader does, and is then stuck.** Neither storing nor
    importing bounds what the cache holds afterwards (`crates/nix-seal-cache/src/lib.rs:447-494`, `513-605`),
    while the reader refuses more than 10,000 bundles or 64 MiB of envelopes (`685-700`, `870-888`). An import
    into a readable cache leaves it readable if and only if there is room (`UnionReadsIff`); one new bundle
    into a full cache is accepted (`FullAcceptsMore`, `OverfillingRun`; `OverfillingExample` gives such caches),
    and from then on every inspection, both forms of the collection and the export fail and nothing can
    shrink the cache (`StuckRun`). An installation therefore makes every activation ready if and only if
    every destination had room (`ReadyIffRoom`, `Deliver`), and its final check notices only afterwards. The
    administrator's own cache can be overfilled by a preparation in the same way (`PrepareRequest`).
11. **A generator with 10,000 outputs can never be run**: plan validation accepts it
    (`crates/nix-seal-policy/src/lib.rs:1213-1220`), but with the state file its batch has one write too many, so
    every attempt is refused (`CrowdedGeneratorIsRefused`, `CrowdedGeneratorCreatesNothing`).

## Model

| member | source | states |
|---|---|---|
| AuthoringTransaction.Repository.WriteBatch | crates/nix-seal-authoring/src/lib.rs:1200-1360 | for any batch, mode and failures the loops end in exactly the files and outcome of the specification, with no staged file or backup left over |
| AuthoringTransaction.Repository.RekeyBatch | crates/nix-seal-authoring/src/lib.rs:721-857 | a batch rekey that overlaps its sources is refused before any write, and on every exit each source is as it was |
| AuthoringTransaction.RekeyAdmittedIff | crates/nix-seal-authoring/src/lib.rs:735-757 | admitted exactly when every source exists, none is named twice and none is a destination |
| AuthoringTransaction.Repository.Prepare | crates/nix-seal-authoring/src/lib.rs:1521-1574 | staging changes no destination; it stops at the first duplicate, misplaced or failing item |
| AuthoringTransaction.Repository.BackUp | crates/nix-seal-authoring/src/lib.rs:1281-1300 | the originals before the stopping position, and only those that need a backup, are moved aside |
| AuthoringTransaction.Repository.Publish | crates/nix-seal-authoring/src/lib.rs:1302-1345 | destinations before the stopping position hold the requested contents, the others are as the backup loop left them |
| AuthoringTransaction.Repository.Restore | crates/nix-seal-authoring/src/lib.rs:1499-1519 | it reports success exactly when nothing it had to undo failed, continuing past failures, and says what each destination then holds |
| AuthoringTransaction.Repository.MoveAside | crates/nix-seal-authoring/src/lib.rs:1281-1300 | one item of the backup loop: the original is under its backup name or nothing has changed |
| AuthoringTransaction.Repository.RestoreOne | crates/nix-seal-authoring/src/lib.rs:1602-1621 | one item of the rollback: a committed file is taken back and an original put back unless its operation fails |
| AuthoringTheorems.RolledBackIsExact | crates/nix-seal-authoring/src/lib.rs:1281-1335 | `BatchRolledBack` leaves every path with exactly its earlier contents or absence |
| AuthoringTheorems.SucceedsIff | crates/nix-seal-authoring/src/lib.rs:1200-1360 | a batch is reported as written if and only if it has 1 to 10,000 writes to different files, each allowed by its kind, mode and size, and no operation it needs fails |
| AuthoringTheorems.ChangedDestinationRefuses | crates/nix-seal-authoring/src/lib.rs:1264-1279 | an existing destination that changed after it was staged fails the batch with every file as it was |
| AuthoringTheorems.RefusedAtTheFirst | crates/nix-seal-authoring/src/lib.rs:1521-1574 | staging is refused at the first write that is too large, repeats a destination, is misplaced or fails, with the first of these reasons as the error |
| AuthoringTheorems.StopsAtTheFirstFailure | crates/nix-seal-authoring/src/lib.rs:1281-1335 | a started batch stops at the first position whose backup, move or publication fails, and nothing failed before it |
| AuthoringTheorems.RolledBackIff | crates/nix-seal-authoring/src/lib.rs:1499-1519 | a stopped batch is reported as rolled back if and only if every original can be put back and every published file removed |
| AuthoringTheorems.FailuresAreReasoned | crates/nix-seal-authoring/src/lib.rs:1200-1360 | each error names its cause in the request, the files or a failed operation |
| AuthoringTheorems.CompletionIsTotal | crates/nix-seal-authoring/src/lib.rs:1337-1360 | success and `DurabilityUnknown` are exactly the outcomes after which every destination is new |
| AuthoringTheorems.UnsyncedRun | crates/nix-seal-authoring/src/lib.rs:1337-1360 | any batch that is not refused, with a failing directory sync, ends in `DurabilityUnknown` with every destination new |
| AuthoringTheorems.DurabilityExitHarmlessIff | crates/nix-seal-authoring/src/lib.rs:1172-1360 | that exit leaves the earlier state for all failures if and only if the batch is refused or every destination already holds what is requested |
| AuthoringTheorems.ExitClassification | crates/nix-seal-authoring/src/lib.rs:1209-1360 | every outcome but three is all new or all old, and which one follows from the outcome |
| AuthoringTheorems.MixedStatesAreBounded | crates/nix-seal-authoring/src/lib.rs:1281-1335 | even then a destination holds its original, the requested bytes or nothing, and other paths are untouched |
| AuthoringTheorems.WorkingRollback | crates/nix-seal-authoring/src/lib.rs:1315-1335 | as long as undoing works, only the backup-creation exit can be mixed |
| AuthoringTheorems.BackupCreationExit | crates/nix-seal-authoring/src/lib.rs:1287-1288 | that exit at position k has deleted exactly the destinations before k |
| AuthoringTheorems.LosingRun | crates/nix-seal-authoring/src/lib.rs:1287-1288 | two existing destinations and one failing backup creation lose a file |
| AuthoringTheorems.BackupExitHarmlessIff | crates/nix-seal-authoring/src/lib.rs:1281-1300 | the exit is harmless for all failures if and only if the batch is refused or at most one destination exists |
| AuthoringTheorems.RepairedLoopIsAtomic | crates/nix-seal-authoring/src/lib.rs:1281-1300 | treating the failure like a failed rename makes every batch all-or-nothing while undoing works |
| GeneratorOrder.Collector.Collect | crates/nix-seal-cli/src/main.rs:4230-4248 | the recursion over a shared visited set ends, extends the order by newly reached generators and reports an undeclared one |
| GeneratorOrder.OrderFor | crates/nix-seal-cli/src/main.rs:2779-2785 | an order exists exactly when everything reachable is declared; it lists each reachable generator once, dependencies first unless the two are on a cycle |
| OutputPairing.PairingIsIntendedIff | crates/nix-seal-cli/src/main.rs:3625-3650 | sorted file names pair with declared outputs in the intended order if and only if there are at most ten |
| OutputPairing.NamesAreTheExpected | crates/nix-seal-cli/src/main.rs:3625-3650 | the sorted names are the expected numbers, each exactly once |
| OutputPairing.AcceptedIff | crates/nix-seal-cli/src/main.rs:3625-3650 | a directory is accepted if and only if it holds exactly the expected names |
| OutputPairing.CollectedOutputs | crates/nix-seal-cli/src/main.rs:3625-3650 | from an accepted directory the k-th output gets the file of the k-th name in string order, which is the k-th file for every content only up to ten outputs; every file reaches some output |
| GeneratorRun.GenerateOne | crates/nix-seal-cli/src/main.rs:2808-2939 | one turn of the loop leaves exactly the files and result of the specification; if it succeeds, every secret holds its own ciphertext and every public output its own bytes, or nothing changed |
| GeneratorRun.Generate | crates/nix-seal-cli/src/main.rs:2797-2939 | so does the whole run, which stops at the first failing generator; after a successful run every generator that was run has its values in place |
| GeneratorTheorems.EachOutputGetsItsOwn | crates/nix-seal-cli/src/main.rs:2857-2884 | a turn that writes gives the i-th secret the i-th ciphertext and the i-th public output the i-th bytes |
| GeneratorTheorems.PublicOutputsArePublic | crates/nix-seal-cli/src/main.rs:2887-2899 | it writes only if each public output can be made public and is at most 64 MiB |
| GeneratorTheorems.DecisionIsExact | crates/nix-seal-cli/src/main.rs:2997-3077 | create, replace, leave alone or refuse, exactly, from which outputs exist and what is recorded; outputs that are all there are replaced exactly when they were recorded for another declaration |
| GeneratorTheorems.ReadStateMeans | crates/nix-seal-cli/src/main.rs:3150-3189 | a state file is read exactly if it is at most 64 KiB, parses and is the generator's own; a missing one is no state |
| GeneratorTheorems.RunDelivers | crates/nix-seal-cli/src/main.rs:2797-2939 | after a successful run each generator has the values of its turn in place, or its files as they were if it was left alone |
| GeneratorTheorems.RunStopsAtTheFailure | crates/nix-seal-cli/src/main.rs:2797-2939 | a failing run has finished the turns before the failing one and done nothing after it |
| GeneratorTheorems.ConvergesIff | crates/nix-seal-cli/src/main.rs:3150-3189 | after a write the next decision is Unchanged if and only if the recorded state fits the reader's limit |
| GeneratorTheorems.LargeStateIsRefused | crates/nix-seal-cli/src/main.rs:3150-3189 | a generator whose output ids alone exceed 64 KiB writes its batch and then fails with a bad state, for every encoding that is as long as the ids |
| GeneratorTheorems.WideGeneratorIsRefused | crates/nix-seal-core/src/lib.rs:26-50 | there is such a generator: one output whose id is longer than 64 KiB, which nothing forbids |
| GeneratorTheorems.FailedTurnForgets | crates/nix-seal-cli/src/main.rs:2997-3077 | after a turn that failed all-or-nothing every later decision is what it was |
| GeneratorTheorems.NoSilentRotation | crates/nix-seal-cli/src/main.rs:2997-3077 | without `--replace` an existing output changes only if all outputs exist and the recorded state differs |
| GeneratorTheorems.MisplacedOutputRefuses | crates/nix-seal-authoring/src/lib.rs:1906-1922 | an output that exists in create mode, or is missing in replace mode, refuses the batch untouched |
| GeneratorTheorems.PartialSetIsStuck | crates/nix-seal-cli/src/main.rs:3035-3048 | a partial output set fails and stays as it is in either mode |
| GeneratorTheorems.PartialSetIsNeverRepaired | crates/nix-seal-cli/src/main.rs:3035-3048 | no sequence of attempts repairs it |
| GeneratorTheorems.ReplaceWorksIff | crates/nix-seal-cli/src/main.rs:2997-3077 | without failures `--replace` succeeds if and only if there are fewer than 10,000 outputs, all of them exist, no two files coincide and none is over 64 MiB |
| GeneratorTheorems.CrowdedGeneratorIsRefused | crates/nix-seal-authoring/src/lib.rs:1217-1225 | a generator of 10,000 outputs or more changes nothing in either mode, whatever its values and failures, and is refused wherever it would write |
| GeneratorTheorems.CrowdedGeneratorCreatesNothing | crates/nix-seal-policy/src/lib.rs:1213-1220 | one that plan validation accepts never creates an output |
| GeneratorTheorems.LostBackupWedgesGenerator | crates/nix-seal-cli/src/main.rs:2927-2939 | a failed backup creation between the outputs leaves a set no attempt repairs |
| GeneratorTheorems.StepFrame | crates/nix-seal-cli/src/main.rs:2808-2939 | a turn touches only the generator's own files, whatever fails |
| GeneratorTheorems.RunSettles | crates/nix-seal-cli/src/main.rs:2797-2939 | after a successful run over generators with separate files every one of them is up to date |
| GeneratorTheorems.RunIsIdempotent | crates/nix-seal-cli/src/main.rs:2797-2939 | running them again, with any values and failures, changes nothing and reports Unchanged throughout |
| CacheAddress.PreimageInjective | crates/nix-seal-cache/src/lib.rs:91-109 | different addresses are hashed from different bytes |
| CacheAddress.PreimageReadsBack | crates/nix-seal-cache/src/lib.rs:91-109 | the address can be read back from the hashed bytes: domain, format, the five texts in order and the generation |
| CacheAddress.IdIff | crates/nix-seal-cache/src/lib.rs:130-143 | an identifier is one or more names of permitted characters between single slashes, none of them a dot or two |
| CacheAddress.DigestIff | crates/nix-seal-cache/src/lib.rs:1322-1327 | a digest is 64 lower-case hexadecimal digits |
| CacheAddress.SharedKeyIsCollision | crates/nix-seal-cache/src/lib.rs:91-109 | two addresses share a key only through a hash collision |
| BoundedStreams.CopyAndHashBounded | crates/nix-seal-cache/src/lib.rs:1291-1320 | for any pattern of short reads it succeeds exactly within the limit, outputs and hashes the whole stream and consumes at most one byte more than the limit |
| BoundedStreams.ReadBounded | crates/nix-seal-cache/src/lib.rs:1133-1146 | the whole stream exactly within the limit |
| BoundedStreams.BoundedReader.Read | crates/nix-seal-cli/src/main.rs:98-130 | an empty chunk means the producer is exhausted; a full budget with more to come is an error |
| BoundedStreams.Drain | crates/nix-seal-cli/src/main.rs:98-130 | a consumer that stops at the first error never sees a truncated stream |
| CacheOperations.Cache.Get | crates/nix-seal-cache/src/lib.rs:295-306 | what is returned has the digest it was asked for |
| CacheOperations.Cache.Put | crates/nix-seal-cache/src/lib.rs:266-293 | bytes are stored under their digest; an existing object is verified and never replaced |
| CacheOperations.Cache.PutArtifactByKey | crates/nix-seal-cache/src/lib.rs:447-494 | success is exactly the addition of one complete bundle under a free key; any failure changes nothing |
| CacheOperations.Cache.PreflightTransferLimits | crates/nix-seal-cache/src/lib.rs:922-959 | the running counters agree with the recursive verdict over some listing |
| CacheLimits.LimitsVerdictExact | crates/nix-seal-cache/src/lib.rs:922-1015 | in any listing order the incremental checks accept exactly the directories whose totals meet the limits, and report the exact size |
| CacheLimits.ListingsAgree | crates/nix-seal-cache/src/lib.rs:524-605 | a second listing in another order cannot fail a limit the first passed |
| CacheLimits.NoLaterObjectLimit | crates/nix-seal-cache/src/lib.rs:524-560 | after preflight no counter of the object copy loop can exceed a limit |
| CacheLimits.NoLaterArtifactLimit | crates/nix-seal-cache/src/lib.rs:560-605 | nor can one of the artifact copy loop |
| CacheLimits.RecordsVerdictExact | crates/nix-seal-cache/src/lib.rs:685-700 | the record reader accepts exactly the directories within its plain totals |
| CacheOperations.Cache.CopyListed | crates/nix-seal-cache/src/lib.rs:524-605 | a copy ends at a well-defined place with exactly the entries before it copied |
| CacheOperations.Cache.CopyInto | crates/nix-seal-cache/src/lib.rs:513-605 | success is the exact union; an error other than I/O means the exchange could not be imported |
| CacheOperations.Cache.ImportFrom | crates/nix-seal-cache/src/lib.rs:360-383 | an error other than I/O changes nothing and has a reason; success is exactly the union with an exact report; on every exit nothing is overwritten; on reliable storage it succeeds exactly if the exchange is importable |
| CacheTransfer.ImportableIff | crates/nix-seal-cache/src/lib.rs:386-433 | importable exactly if every entry is sound and named by its digest, the totals are within the limits, and whatever the destination holds under the same name is sound and, for a bundle, has the same envelope and ciphertext digest |
| CacheOperations.Cache.PreflightDestination | crates/nix-seal-cache/src/lib.rs:386-433 | it passes exactly when every entry verifies and nothing at the destination contradicts it |
| CacheOperations.Cache.ExportTo | crates/nix-seal-cache/src/lib.rs:324-357 | an export holds exactly the cache's entries |
| CacheOperations.Cache.ImportTwice | crates/nix-seal-cache/src/lib.rs:360-383 | importing the same exchange again fails only by I/O, reports the same and changes nothing |
| CacheOperations.Cache.Reproduce | crates/nix-seal-cache/src/lib.rs:324-383 | exporting and importing into an empty cache reproduces the cache, I/O aside exactly when it is within the transfer limits |
| Ordering.InOrderAscends | crates/nix-seal-cache/src/lib.rs:685-700 | the listing used is the keys in ascending order, each once |
| CacheOperations.Cache.ArtifactRecords | crates/nix-seal-cache/src/lib.rs:685-700 | the records of every bundle in key order, each verified, or a limit or malformed entry that is really there |
| CacheOperations.Cache.GarbageCollect | crates/nix-seal-cache/src/lib.rs:706-795 | I/O aside it succeeds exactly when the request names digests, every entry reads and the candidates' bytes fit 64 bits; success reports exact counts and bytes and, executed, leaves precisely the retained entries; on every exit retained entries are untouched and the artifact directory is what the loop over some listing leaves |
| CacheCollection.CollectableIff | crates/nix-seal-cache/src/lib.rs:706-795 | collectable exactly if the request names digests, every object and bundle is sound, and the candidates' bytes fit 64 bits |
| CacheOperations.Cache.CollectArtifacts | crates/nix-seal-cache/src/lib.rs:750-795 | the loop leaves exactly what its specification says for the listing and for what goes wrong with which bundle, and stops exactly then |
| CacheOperations.Cache.CollectBundle | crates/nix-seal-cache/src/lib.rs:979-994 | a candidate is removed, untouched or, if its removal stops after the first file, half removed; a retained bundle is never touched |
| CacheOperations.Cache.TakeInventory | crates/nix-seal-cache/src/lib.rs:626-679 | the exact counts and byte totals; I/O aside it succeeds exactly when every entry verifies and the totals fit 64 bits |
| CacheInventory.OneMoreBundle | crates/nix-seal-cache/src/lib.rs:626-679 | one more bundle adds one to the artifacts and the lengths of its two files to their totals |
| CacheInventory.OneMoreObject | crates/nix-seal-cache/src/lib.rs:626-679 | one more object adds one to the objects and its length to their bytes |
| CacheOperations.Cache.AnnounceAndCollect | crates/nix-seal-cache/src/lib.rs:706-795 | a dry run followed by an execution: only I/O can stop what was announced, both report the same apart from the flag, the entries counted before are those left plus the announced candidates, and with no artifact candidate announced the bundles stay as they are |
| CacheRetention.ReportCoversInventory | crates/nix-seal-cache/src/lib.rs:626-795 | retained and candidate counts add up to the inventory |
| CacheRetention.BytesConserved | crates/nix-seal-cache/src/lib.rs:706-795 | candidate bytes and the bytes that stay add up to the inventory's bytes |
| CacheRetention.ObjectSplitExact | crates/nix-seal-cache/src/lib.rs:706-795 | the counters of a complete object loop over any listing are how the directory splits |
| CacheRetention.BundleSplitExact | crates/nix-seal-cache/src/lib.rs:706-795 | so are those of a complete artifact loop |
| CacheRetention.SplitCounts | crates/nix-seal-cache/src/lib.rs:706-795 | the reported counts are those of the retained and of the other entries |
| CacheCollection.DamagingRun | crates/nix-seal-cache/src/lib.rs:979-994 | if every removal stops half-way the loop leaves the first candidate half removed, for every listing of every readable directory with a candidate |
| CacheCollection.SafeToCollectIff | crates/nix-seal-cache/src/lib.rs:706-795 | whatever a collection may leave of a readable artifact directory is readable if and only if it is a dry run or every artifact is retained |
| CacheCollection.NoCandidatesIff | crates/nix-seal-cache/src/lib.rs:706-795 | every artifact is retained exactly when the report announces no artifact candidate |
| CacheCollection.LeftReadableIff | crates/nix-seal-cache/src/lib.rs:979-994 | of what was left, the directory reads exactly if no bundle is half removed |
| CacheRoom.UnionReadsIff | crates/nix-seal-cache/src/lib.rs:685-700 | a readable cache that gains bundles that read stays readable if and only if their number and their envelopes fit beside what it holds |
| CacheRoom.GrownReadsIff | crates/nix-seal-cache/src/lib.rs:685-700 | a cache that grew by bundles that read is readable exactly within the reader's limits |
| CacheRoom.FullAcceptsMore | crates/nix-seal-cache/src/lib.rs:513-605 | a full cache can import one more bundle and is unreadable afterwards |
| CacheRoom.FullCacheExists | crates/nix-seal-cache/src/lib.rs:870-888 | there is a readable cache with as many bundles as the reader accepts |
| OverfullCache.OverfillingRun | crates/nix-seal-cache/src/lib.rs:360-383 | importing a new bundle into a full cache fails only by I/O, never on reliable storage, and after it every inspection and collection fails |
| OverfullCache.OverfillingExample | crates/nix-seal-cache/src/lib.rs:870-888 | such caches exist, for every hash function |
| OverfullCache.StuckRun | crates/nix-seal-cli/src/main.rs:6828-6880 | at an unreadable cache inspection, collection, dry or executed, and export fail and change nothing |
| CacheProtocol.Safety | crates/nix-seal-cache/src/lib.rs:259-494 | over every interleaving of writers, crashes, failed clean-ups, reopenings and collections, objects are named by their digests and bundles are complete and as requested |
| CacheProtocol.StepsTakeEffect | crates/nix-seal-cache/src/lib.rs:259-494 | publishing files exactly what was asked for, a collection removes exactly what it names, and no other step changes what is published |
| CacheProtocol.StoresObject | crates/nix-seal-cache/src/lib.rs:266-293 | whoever holds the lock can store a missing object, and nothing else changes |
| CacheProtocol.StoresBundle | crates/nix-seal-cache/src/lib.rs:447-494 | whoever holds the lock can store a bundle under a free name, and nothing else changes |
| CacheProtocol.Reopens | crates/nix-seal-cache/src/lib.rs:808-844 | when nobody holds the lock a new process can open the cache, which removes every transaction and keeps everything published |
| CacheProtocol.NoInterference | crates/nix-seal-cache/src/lib.rs:802-806 | while a process is busy under the lock the only thing another can do is die |
| CacheProtocol.RecoveryRemovesOrphans | crates/nix-seal-cache/src/lib.rs:808-844 | recovery removes no transaction of a live process |
| CacheProtocol.OpenLeavesNoTransaction | crates/nix-seal-cache/src/lib.rs:808-844 | a successful open leaves no transaction behind |
| CacheProtocol.BundleNeverOverwritten | crates/nix-seal-cache/src/lib.rs:1017-1066 | a published bundle stays as it is until it is collected |
| CacheProtocol.ObjectNeverOverwritten | crates/nix-seal-cache/src/lib.rs:266-293 | so does a published object |
| CacheProtocol.ReaderRefusedIff | crates/nix-seal-cache/src/lib.rs:870-888 | a reader without the lock is refused exactly while a bundle transaction is on disk |
| ArtifactPolicy.WindowCoveredIff | crates/nix-seal-manifest/src/lib.rs:1003-1017 | one verifier accepts the dates of every manifest another accepts if and only if its clock is not ahead and its latest issue time not earlier |
| ArtifactPolicy.TargetPolicyIff | crates/nix-seal-policy/src/lib.rs:1570-1598 | a target has a policy exactly when the plan is valid and resolves it; the policy holds the identity's key and, for each consumed secret and no other, its source, ciphertext digest, phase and approval |
| ArtifactSelection.AcceptedIff | crates/nix-seal-cli/src/main.rs:4646-4728 | a record is accepted exactly when its manifest is about the secret and generation, was made for its present policy, source and recipient, names the record's own address and ciphertext, is by this version and current, and is endorsed by the threshold of well-formed signers |
| ArtifactSelection.VerifiesIff | crates/nix-seal-manifest/src/lib.rs:1003-1029 | for a complete bundle this is a statement about its two files: the manifest carries the digest of the ciphertext beside it |
| ArtifactSelection.RejectedIff | crates/nix-seal-cli/src/main.rs:4646-4728 | a record is rejected for a reason exactly when that is the first comparison to fail |
| ArtifactSelection.FatalIff | crates/nix-seal-cli/src/main.rs:4667-4710 | a record makes inspection fail exactly when the policy hash of a wanted secret cannot be computed or a signer key is malformed where verification would be next |
| ArtifactSelection.InspectExact | crates/nix-seal-cli/src/main.rs:4636-4747 | the loop computes the greatest verified generation of every secret, in any order of records |
| ArtifactSelection.SelectionUnique | crates/nix-seal-cli/src/main.rs:4636-4747 | there is only one such selection |
| ArtifactSelection.OnePerGeneration | crates/nix-seal-cli/src/main.rs:4687-4703 | equal secret and generation force equal cache keys |
| ArtifactSelection.NeverEquallyRecent | crates/nix-seal-cli/src/main.rs:4736-4741 | the failure over equally recent artifacts is unreachable |
| ArtifactSelection.FailsIffFatal | crates/nix-seal-cli/src/main.rs:4667-4710 | inspection fails exactly when some record makes it fail, whatever the order |
| ArtifactSelection.ReasonsExact | crates/nix-seal-cli/src/main.rs:4646-4728 | the reasons given for a secret are exactly those of its rejected candidates |
| ArtifactInspection.InspectActivationArtifacts | crates/nix-seal-cli/src/main.rs:4624-4779 | the selection is the newest genuine artifact of every secret, stated of the bundles themselves; required = verified + missing, ready exactly when every required secret is selected, the exact reasons for each missing one, never a failure over equally recent artifacts, and no I/O error on reliable storage |
| ArtifactInspection.OrderIrrelevant | crates/nix-seal-cli/src/main.rs:4636-4779 | two inspections of the same bundles select the same and agree on readiness |
| ArtifactRetention.AcceptedIsActiveIff | crates/nix-seal-cli/src/main.rs:6981-7083 | a record activation accepts is retained if and only if the repository holds the pinned ciphertext and the manifest is current for the collector |
| ArtifactRetention.ActiveIff | crates/nix-seal-cli/src/main.rs:6981-7083 | a record is kept exactly when its manifest was made for the present policy, the ciphertext in the repository and the target's recipient, names the record's own address and ciphertext, is endorsed, and is current with 300 seconds of tolerance |
| ArtifactRetention.ActiveIffAcceptable | crates/nix-seal-cli/src/main.rs:6981-7083 | where the repository holds the pinned ciphertext, that is exactly when an activation would accept it at the collector's clock |
| ArtifactRetention.UnavailableIff | crates/nix-seal-cli/src/main.rs:7018-7033 | a canonical ciphertext is asked for in vain exactly for a manifest made for the secret's present policy |
| ArtifactRetention.VerifiesAlike | crates/nix-seal-cli/src/main.rs:7058-7083 | the two verifications of a record differ in the clock only |
| ArtifactRetention.GcKeepsSelectionIff | crates/nix-seal-cli/src/main.rs:6828-6843 | a collection keeps a selection if and only if every selected artifact was there when retention was computed, the repository holds its pinned ciphertext and its manifest is current for the collector |
| ArtifactRetention.GcKeepsSelection | crates/nix-seal-cli/src/main.rs:6828-6843 | so with matching sources it changes no target's selection in any phase under a covered clock |
| ArtifactRetention.InterruptionKeepsSelection | crates/nix-seal-cli/src/main.rs:6828-6843 | a collection that was interrupted without leaving a half removed bundle changes no selection either |
| ArtifactRetention.GcAddsNoFailure | crates/nix-seal-cli/src/main.rs:6828-6843 | and a complete one makes no inspection fail |
| ArtifactRetention.LateArtifactsDecide | crates/nix-seal-cli/src/main.rs:6834-6843 | with artifacts published after retention was computed, a collection preserves the selection if and only if none of the selected ones is among them |
| ArtifactCollection.RetentionTables.ArtifactIsActive | crates/nix-seal-cli/src/main.rs:6981-7083 | with memo tables filled in any order the answer is that of recomputing everything, and unavailable sources are counted once |
| ArtifactCollection.AuthenticatedGcRetention | crates/nix-seal-cli/src/main.rs:6934-6979 | the retained keys are exactly the active records and the count exactly the secrets needed in vain |
| ArtifactCollection.CacheGc | crates/nix-seal-cli/src/main.rs:6828-6880 | executed, it leaves exactly the bundles whose manifests justify it, so none of a superseded policy, and no generic object; a dry run changes nothing, active artifacts survive every exit, what else is left is what the loop may leave, an error other than I/O has a reason, there is no I/O error on reliable storage, and on a cache that does not read, for whatever reason, every run fails untouched |
| FullSelection.InspectAll | crates/nix-seal-cli/src/preparation.rs:502-521 | the union over the phases is the newest verified artifact of every secret in its own phase |
| FullSelection.FullSelectionIsGenuine | crates/nix-seal-cli/src/preparation.rs:502-521 | stated of the bundles: the selected ones are genuine in their secrets' own phases, and no genuine one is newer |
| FullSelection.OneOwner | crates/nix-seal-cli/src/main.rs:4646-4666 | a bundle verifies for one target and one secret only |
| FullSelection.FullSelectionUnique | crates/nix-seal-cli/src/preparation.rs:502-521 | two inspections of one cache select the same |
| Base64.RoundTrip | crates/nix-seal-cli/src/preparation.rs:650-653 | decoding an encoding gives the bytes back |
| Base64.Canonical | crates/nix-seal-cli/src/preparation.rs:668-680 | every accepted text is the encoding of what it decodes to |
| Base64.LongerExamples | crates/nix-seal-cli/src/preparation.rs:650-653 | the encodings of the examples of section 10 of RFC 4648 |
| Base64.EncodedLength | crates/nix-seal-cli/src/preparation.rs:628-660 | the exact length of an encoding |
| Wire.EstimateShortIff | crates/nix-seal-cli/src/preparation.rs:637-641 | the doubled size falls short of the encoding only for one-byte files |
| Wire.PreparedBundle.AppendArtifacts | crates/nix-seal-cli/src/preparation.rs:628-660 | artifacts are appended in order, I/O aside exactly when every one is within the bound at its turn, and what is left always fits |
| Wire.BundleFits | crates/nix-seal-cli/src/preparation.rs:136-144 | a filled bundle's JSON is within the reader's limit, for any number and size of artifacts |
| Wire.ResponseFits | crates/nix-seal-cli/src/preparation.rs:136-144 | so is a response carrying one |
| Transport.StagingReproduces | crates/nix-seal-cli/src/preparation.rs:662-683 | staging recomputes the same keys with the same bytes and never meets an existing artifact |
| Transport.UnpackIff | crates/nix-seal-cli/src/preparation.rs:662-683 | an artifact unpacks exactly if both texts are strict encodings and the envelope's manifest names a valid address, whose key it is stored under |
| Transport.StagedHolds | crates/nix-seal-cli/src/preparation.rs:662-683 | the staging cache holds every artifact of the bundle under its own key and nothing else, and no two artifacts share a key |
| Transport.TransportKeepsSelection | crates/nix-seal-cli/src/preparation.rs:662-683 | selecting from the staged cache gives the administrator's selection |
| Transport.VerifiedIsPortable | crates/nix-seal-cli/src/main.rs:4687-4703 | the manifest of a verified artifact names the key it is stored under |
| Transport.ImportSupplies | crates/nix-seal-cli/src/preparation.rs:692-699 | after importing a complete staged cache the destination holds a verified artifact of every secret, whatever else it holds |
| Readiness.CheckSpec | crates/nix-seal-cli/src/readiness.rs:155-170 | I/O aside it says exactly whether an activation can read the cache and finds every artifact it needs |
| Readiness.SpecReadyIff | crates/nix-seal-cli/src/readiness.rs:155-170 | ready means that the recipient has a fingerprint, the cache reads and every secret of the phase has a genuine artifact at this clock and the specification's skew |
| Readiness.ReportsReadyIff | crates/nix-seal-cli/src/readiness.rs:48-51 | an inspection reports that nothing is missing exactly if nothing is |
| Readiness.ProvidedIsReadyIff | crates/nix-seal-cli/src/readiness.rs:155-170 | a cache that provides for a target is ready for its activation in every phase if and only if the cache's reader accepts it |
| Transport.SuppliedNeverFatal | crates/nix-seal-cli/src/main.rs:4667-4710 | and no record in it can make an inspection fail |
| TransportLimits.StagedIsTransferable | crates/nix-seal-cache/src/lib.rs:922-1015 | a staged bundle from a readable cache meets every limit of an import |
| Installation.StageBundle | crates/nix-seal-cli/src/preparation.rs:662-683 | a new cache holding exactly the unpacked artifacts, or a bad artifact that is really there |
| Installation.Install | crates/nix-seal-cli/src/preparation.rs:692-699 | success is the exact union; otherwise, I/O aside, the cache is unchanged and the bundle is bad or contradicted |
| Installation.InstallTarget | crates/nix-seal-cli/src/preparation.rs:782-790 | the destination gains exactly the selection from the staging cache, provides what that provides and stays readable if and only if it has room; I/O aside it fails only if the staging cache cannot be inspected, its selection cannot be packed, or the destination contradicts it |
| Installation.CheckTarget | crates/nix-seal-cli/src/preparation.rs:760-771 | counting selected artifacts decides whether a target is provided for |
| ResponseInstallation.InstallResponse | crates/nix-seal-cli/src/preparation.rs:755-806 | on success every destination provides its target and every specification is ready there; unless the whole response was staged, complete and ready no destination is touched; if only the final check fails, each destination holds exactly what it held and what its targets added |
| ResponseInstallation.CheckStaged | crates/nix-seal-cli/src/preparation.rs:772-778 | before the imports every specification is ready in the staging cache, or one is not |
| ResponseInstallation.CheckInstalled | crates/nix-seal-cli/src/preparation.rs:791-806 | after them every specification is ready at its destination, or one is not |
| ResponseInstallation.ReadyIffRoom | crates/nix-seal-cli/src/preparation.rs:782-806 | after the imports every activation is ready if and only if every destination had room beforehand for what its targets' selections add |
| ResponseInstallation.AcceptableIsComplete | crates/nix-seal-cli/src/preparation.rs:755-778 | a response only I/O and the destinations can refuse passes the first checks, for specifications that allow at least the skew preparation verifies with |
| PreparedResponse.FilledGrows | crates/nix-seal-cli/src/preparation.rs:578-623 | packing one more target keeps every key once, the bundle within the limit and every earlier target provided for |
| PreparedResponse.FilledIsAcceptable | crates/nix-seal-cli/src/preparation.rs:755-790 | a filled response from a readable cache stages without error, provides for every target, can be packed again for each and is within every limit of an import |
| PreparationRequest.CheckRequest | crates/nix-seal-cli/src/preparation.rs:442-476 | accepted exactly when targets are distinct, have policies and need exactly the given sources; a refusal names the repeated target, the target without a policy, or follows from a source too many or missing |
| PreparationRequest.AccountedIff | crates/nix-seal-cli/src/preparation.rs:442-476 | what an accepted request is: the policies its plans give its targets, no target twice, and a source for exactly the paths some secret needs |
| PreparationRequest.CheckSecrets | crates/nix-seal-cli/src/preparation.rs:538-565 | the first pass accepts a target exactly when every secret has an artifact or may be given one, and otherwise names a secret and the first reason |
| PreparationRequest.PreparableIff | crates/nix-seal-cli/src/preparation.rs:538-565 | every secret of every target has a verified artifact or meets no reason to deny one: authority, a single approval, the pinned ciphertext |
| PreparationRequest.FirstPass | crates/nix-seal-cli/src/preparation.rs:530-565 | every refusal before the first write has its reason: the request, a target that cannot be prepared, or a cache that cannot be inspected |
| ArtifactCreation.ChooseGeneration | crates/nix-seal-cli/src/preparation.rs:584-596 | the default generation is the first that is at least one, not before the clock and later than every reused one; it fails exactly when a reused one is the last there is, even when a generation is given |
| ArtifactCreation.CreateTargetArtifact | crates/nix-seal-cli/src/main.rs:2254-2314 | it fails or leaves one record under the secret's own key, and changes nothing else |
| ArtifactCreation.CreateRest | crates/nix-seal-cli/src/preparation.rs:580-616 | every new record is for a secret that had no artifact and carries the chosen generation: the one asked for, or the first newer than everything reused |
| ArtifactCreation.CreateMissing | crates/nix-seal-cli/src/preparation.rs:597-616 | one creation for every secret without an artifact, none when all have one |
| TargetPreparation.ExtendedIsMade | crates/nix-seal-cli/src/preparation.rs:580-616 | in terms of the cache: every new key is that of a secret without a verified artifact under the next generation |
| TargetPreparation.VerifiedIsFiledAsNew | crates/nix-seal-cli/src/preparation.rs:597-616 | a verified artifact is filed where a creation of its secret and generation would file it |
| PreparationReasons.MadeBefore | crates/nix-seal-cli/src/preparation.rs:566-616 | the next generation is the same before and after earlier targets were prepared, collisions aside |
| TargetPreparation.PackTarget | crates/nix-seal-cli/src/preparation.rs:615-623 | what is appended is the target's whole selection, from a readable cache; a refusal for size means that it does not fit |
| Packing.PackedInOrder | crates/nix-seal-cli/src/preparation.rs:615-660 | artifacts are packed in ascending order of their secrets |
| TargetPreparation.LastGenerationExhausts | crates/nix-seal-cli/src/preparation.rs:584-596 | a target completed under the last generation there is has an artifact of that generation, collisions aside |
| ExhaustedTarget.ExhaustedExample | crates/nix-seal-cli/src/preparation.rs:584-596 | a plan and, over a hash without collisions, a cache that provides for its target and reads, with an artifact of the last generation |
| ExhaustedTarget.ExhaustedRun | crates/nix-seal-cli/src/preparation.rs:523-596 | executing the request for that target fails, whoever executes it: by I/O or because the generation is exhausted, and on reliable storage always the latter |
| PreparationReasons.SuppliedDecides | crates/nix-seal-cli/src/preparation.rs:572-578 | counting what can be reused shows exactly whether anything is missing |
| PreparationReasons.SuppliedBefore | crates/nix-seal-cli/src/preparation.rs:572-578 | what earlier targets were given adds nothing to what a later one can reuse, collisions aside |
| PreparationReasons.TargetReasoned | crates/nix-seal-cli/src/preparation.rs:566-626 | the reason one target failed is a reason for the whole request, in terms of the cache before and after it |
| Preparation.PrepareRequest | crates/nix-seal-cli/src/preparation.rs:523-626 | reused is the number of secrets with a verified artifact beforehand, collisions aside, and reused + created the number of secrets, the response carries every target's selection from a cache that reads, dry runs, refusals and requests with nothing missing write nothing, every new key is that of a secret without a verified artifact under the generation asked for or the first that is newer, every failure has its reason in the request or the cache and none is I/O on reliable storage, and a cache that read before still does exactly within its reader's limits |
| Preparation.PrepareTwice | crates/nix-seal-cli/src/preparation.rs:523-626 | after a successful run the same request at the same clock leaves the cache alone whether or not it succeeds; if it does it creates nothing and returns the same artifacts, and no reused artifact has the last generation; it fails only by I/O, a hash collision, or because one has |
| Delivery.Deliver | crates/nix-seal-cli/src/preparation.rs:810-853 | on success every destination provides its target and is ready for every activation; a failed preparation has its reason and touches no cache but the administrator's; once prepared, I/O aside, for readable destinations and specifications that allow at least the preparation's skew, the installation fails exactly when a destination has no room, or because one contradicts the administrator's cache |

## Left out

- Ownership, modes, link counts, no-follow opens, path resolution and fsync: the store's operations succeed or fail as a whole.
- Temporary and staged files are named by batch position, so a staged file is never missing; the branch of the publish loop that handles one is unreachable and omitted, and so are the re-checks of a written hash and length.
- Concurrent mutation by programs that ignore the lock, and of an import source while it is copied.
- Crashes inside a collection: the crash model takes a collection as one step, because removing a bundle is three removals that recovery does not repair.
- CacheOperations.Cache.CollectBundle: a half removed bundle is a malformed entry; the model does not say which of its files remain.
- CacheOperations.Cache.Get: the check that the requested digest is 64 hexadecimal digits is not modelled; the names used here come from a listing or from the hash function.
- CacheOperations.Cache.Put: every failure leaves the store as it was; in the source a directory sync that fails after the object was published (`crates/nix-seal-cache/src/lib.rs:288`) returns an error with the object stored.
- CacheOperations.Cache.PutArtifactByKey: the same holds for the directory sync after the bundle was renamed into place (`crates/nix-seal-cache/src/lib.rs:485`).
- CacheOperations.Cache.ExportTo: an existing destination and the rename that publishes the export are not modelled; the export is a new cache.
- Encryption, signing, identities and key handling: created artifacts have arbitrary bytes, and signature checking is one unknown predicate over the envelope, the signers and the threshold.
- Target policies: consumer expansion, approval resolution and plan validation are unknown functions of the plan; delivery modes, templates and runtime settings are not part of the policy's model.
- PreparationRequest.CheckRequest: the projected response size, the 70 MiB bound on sources, entry limits, schema names and the syntax of source paths are not modelled.
- PreparationRequest.CheckSecrets: signing-key, identity and ciphertext-header checks are one unknown predicate.
- FullSelection.InspectAll: one clock reading serves the four phases; the source reads the clock for each.
- Preparation.PrepareRequest: one clock reading serves the whole request; the source reads the clock again for every inspection.
- Delivery.Deliver: the same clock reading serves preparation and installation, and the preparation is local; the remote worker runs the same function behind SSH.
- ResponseInstallation.InstallResponse: a specification is the phase and clock skew it adds to its target's policy; reading the files and the checks that they match the deployment (`crates/nix-seal-cli/src/preparation.rs:398-407`) are left out, as are the child processes that run the imports and the final check as another user; each is a direct call. Unpacking is written before storing, which only the private staging directory could tell apart.
- Serialisation: envelopes, generator state and exchange JSON are read through unknown functions; only the length of the exchange JSON is computed.
- Generator prompts, external commands and the persistence of prompts after a write.
- SSH, sudo, Nix evaluation, command-line parsing, migration, readiness messages and the runtime crates, which would add only bounded walks or parsing.
