# OrIsyVra: a verified model

A Dafny model of the storage core of OrIsyVra, with proofs of what that core promises. `dafny verify dfyconfig.toml`
checks the whole project.

The model covers five subsystems, each in the form of its source: methods that update fields and arrays are methods
on classes and arrays, proved equal to functions on values; the promises are then proved about those functions.

* **The encrypted volume** (`VolumeFormat`, `VolumeCodec`, `VolumeLog`, `VolumeProtocol`, `VolumeRecovery`,
  `VolumeRuns`, `VolumeScan`, `Volume`, `VolumeResults`, `VolumeNonces`, over the disk of `Storage`). An append-only log
  of sealed block records, two alternating superblocks, and a recovery scan. A `Disk` holds what is durable, what reads return
  and the operations between the two. A crash keeps every durable byte that no pending operation touches, and lets
  anything else be kept, lost, torn or reordered. The main result, `VolumeRuns.CrashAtomicity`, is about every run of
  commits, refused writes, clean and dirty marks, flushes, closes, reopens and crashes in the middle of any of them:
  there is one history of whole transactions, holding every acknowledged one, to which every file the next crash may
  leave recovers. The methods of the class `EncryptedVolume.Volume` are tied to those runs: each states, as `Next`,
  the very step of the run that it takes, and its whole trace of disk operations.
* **The mounted disk** (`ByteRange`, `FlatDisk`, `Mount`). Byte ranges over blocks behave as one flat, zero-filled
  array, and, stacked on the volume, every write request is crash-atomic (`FlatDisk.FlatCrashAtomicity`). The mount
  host is a state machine of its main thread, stop watcher and dispatcher callbacks; a crash while a disk is mounted
  leaves a volume that reopens dirty until the next clean mark.
* **The permutation and the keyed sponge** (`Words`, `WordBits`, `NativeWords`, `Permutation`, `PermutationInPlace`,
  `PermutationShape`, `Sponge`, `SpongeMachine`, `SpongeBinding`). The in-place rounds, forwards and backwards, run the
  same list of elementary steps, each of which is undone exactly; the buffered machine computes a pure function of the
  concatenated input; the input encoding is injective, and inputs that differ in one block never share a final state.
* **The file container** (`ContainerFormat`, `ContainerSpec`, `ContainerFile`, `ContainerBinding`). Streaming encryption
  and decryption over a reader that may return short; the decryptor accepts exactly the containers, and accepted files
  are prefix-free; every byte of a body is masked by the keystream, and no two seals of a file share a nonce message.
* **The PNG chunk walkers** (`Crc`, `CrcAnswers`, `Png`, `PngCards`, `PngFile`), after sections 3.2 and 3.4 of RFC 2083.
  Two readers and two writers over one chunk layout, and a checksum that separates messages differing within four bytes.

The cryptographic primitives are values of the type `Cipher.Suite`, of which only this is known: opening undoes
sealing, sealing adds 16 bytes, and the other outputs have their fixed lengths. `Cipher.Resealing`, the deterministic
shape of section 2.8 of RFC 8439 (what opens was sealed), is a hypothesis only where the canonical form of an opened
message matters: of `VolumeCodec.RecordBytes` and `VolumeResults.LogTiles`, and, for files of guarded mode alone, of
the canonicity results of `ContainerSpec` (`ParsedRecordSealed`, `ParsedManifestSealed`, `ParsedIsContainer`,
`AcceptedIffContainer`) with `ContainerFormat.GuardUnguarded`. That a crash cannot forge a superblock is part of
`VolumeRecovery.CrashImage`: a slot hit by a crash reads as before, as after, or not at all.

## Findings

Four promises hold only under a condition. For each, the model keeps what the code does, names the failing case, and
proves exactly when the promise holds.

* Marking a volume dirty or clean at superblock generation 2^64-1. The counter saturates there
  (`crates/orisyvra-volume/src/lib.rs:567`), and the exhaustion test after it compares with zero, so it never fires
  (line 571). Both superblocks then carry the same generation and slot 0 wins. `VolumeResults.MarkSurvives` proves,
  for every open volume, however often it was marked before, that a mark is seen by the next open if and only if the
  generation could still grow or the mark went to slot 0. In a run the first mark at that generation always goes to
  slot 1 and is lost (`VolumeResults.MarkInRun`); `VolumeResults.DirtyMarkLost` is a volume that stays clean.
* Clean only after the safe path. `docs/VOLUME.md:123` says that the clean flag is written only after the safe path
  completes. A dispatcher that fails to start also writes it
  (`crates/orisyvra-volume/src/bin/orisyvra-volume-mount.rs:1108`), and so does the partition set-up before a mount
  (line 1385 of the same file), even on a volume that an earlier crash left dirty. `Mount.CleanMarkIsSafeStop` proves
  that a clean mark has a dismount and a sync behind it if and only if it is neither of these;
  `Mount.FailedStartHidesCrash` is a run in which a failed start hides a crash.
* Marking a PIN card twice. If the file holds an older, damaged marker chunk, the new one is written behind it and the
  reader, which looks at the first only (`crates/orisyvra-pin/src/lib.rs:189`), still says no; each further call adds
  another chunk. `PngCards.MarkedAfterAdd` and `PngCards.AddMarkerIdempotent` give the exact condition,
  `PngCards.StaleMarkerStays` the file.
* Injecting a key into a card that already has a key chunk. It succeeds, but the reader stops at the older chunk
  (`crates/orisyvra/src/keycard.rs:570`), which keeps deciding; `PngCards.ExtractAfterInject` is exact.

## Model

| member | source | states |
|---|---|---|
| VolumeRuns.CrashAtomicity | crates/orisyvra-volume/src/lib.rs:323-588 | for every run of commits, refusals, marks, flushes, closes, opens and crashes there is one history of whole transactions, explained by what was acknowledged, to whose block map every file a crash may now leave recovers |
| VolumeRuns.RunExplained | crates/orisyvra-volume/src/lib.rs:432-588 | after any run the two-superblock invariant holds for a history that contains each acknowledged transaction in order, and a transaction hit by a crash wholly or not at all: out before its superblock write is issued, in once that write is synced; the generation is odd exactly when slot 0 is active |
| VolumeRuns.StepKeeps | crates/orisyvra-volume/src/lib.rs:432-588 | every step, completed or cut short by a crash, keeps the invariant, moves the history exactly as acknowledged, changes the clean flag only as the last commit or mark says, and publishes at most the next generation, in the other slot |
| VolumeRuns.CrashInCommit | crates/orisyvra-volume/src/lib.rs:453-540 | a crash after any number of the disk operations of a commit leaves the old history or the old one plus the whole transaction; which of them is fixed except while the superblock write is unsynced |
| VolumeRuns.CrashInSlotOps | crates/orisyvra-volume/src/lib.rs:522-540 | a crash once a superblock write is issued leaves the old state or the new one, each with nothing pending, and the new one once the write is synced |
| VolumeRuns.CrashInMark | crates/orisyvra-volume/src/lib.rs:562-588 | a crash anywhere in a clean or dirty mark keeps the history and leaves the flag old or new |
| VolumeRuns.CommitDone | crates/orisyvra-volume/src/lib.rs:432-542 | a completed commit appends its transaction to the recovered history and leaves the volume dirty |
| VolumeRuns.RecoversTo | crates/orisyvra-volume/src/lib.rs:323-365 | in every reachable state, whatever the next crash leaves, open succeeds and finds exactly the blocks and the clean flag of the history |
| VolumeRuns.HistoryMap | crates/orisyvra-volume/src/lib.rs:458-541 | the last record of each block in the log of a history is the payload of the last transaction that wrote it |
| VolumeRuns.HistoryAccounting | crates/orisyvra-volume/src/lib.rs:458-521 | each block's generation is its number of committed writes, the record count is their sum, and the log ends at its start plus 48 bytes and the payload of every record |
| VolumeRuns.CreatedGood | crates/orisyvra-volume/src/lib.rs:289-310 | the file that create leaves recovers to the empty log from slot 0, with slot 1 as the older copy |
| VolumeResults.CountersOfRun | crates/orisyvra-volume/src/lib.rs:458-521 | in every reachable state generations count writes, the counters in the superblock are exact, and no two records share block and generation |
| VolumeResults.TxSetsItsBlocks | crates/orisyvra-volume/src/lib.rs:432-542 | a transaction sets exactly its own blocks and leaves every other block as it was |
| VolumeResults.FirstCommitIsDurable | crates/orisyvra-volume/src/lib.rs:289-542 | creating a volume, one acknowledged write and a power cut is a run, for every transaction a new volume accepts, and the file left behind opens to exactly the blocks written |
| VolumeResults.LogTiles | crates/orisyvra-volume/src/lib.rs:759-843 | when only sealed messages open, the bytes of a scanned log are the encodings of its records, with no gap and nothing over |
| VolumeResults.MarkSurvives | crates/orisyvra-volume/src/lib.rs:562-588 | for every open volume, at every generation and after any earlier marks, a mark is seen by the next open if and only if the generation could still grow or the mark went to slot 0, and the records found are the same |
| VolumeResults.MarkPicks | crates/orisyvra-volume/src/lib.rs:323-365 | which superblock the next open chooses after a mark, for every open volume: the new one, or slot 0 when the generation could not grow |
| VolumeResults.MarkInRun | crates/orisyvra-volume/src/lib.rs:289-588 | in every run, a mark is seen by the next open if and only if the generation could still grow: the generation is odd exactly when slot 0 is active, so the first stuck mark goes to slot 1 |
| VolumeResults.StuckMark | crates/orisyvra-volume/src/lib.rs:566-586 | for every open volume at the last generation, slot 0 is chosen whichever slot the mark went to |
| VolumeResults.DirtyMarkLost | crates/orisyvra-volume/src/lib.rs:566-575 | a volume at generation 2^64-1 that is marked dirty, synced and reopened opens, and opens clean |
| VolumeResults.OptionsAccepted | crates/orisyvra-volume/src/lib.rs:598-612 | a new volume is accepted if and only if its capacity is positive and its block size is 2^k for some k from 12 to 24 |
| Storage.AnyPartMayLand | crates/orisyvra-volume/src/lib.rs:453-540 | what a crash may leave includes every outcome of the pending operations: lost, kept, reordered, repeated, torn or garbage |
| Storage.LostOrKept | crates/orisyvra-volume/src/lib.rs:453-540 | after any operations, a crash may lose everything pending or nothing of it |
| VolumeRecovery.CrashWhilePublishing | crates/orisyvra-volume/src/lib.rs:522-540 | while the new superblock is unsynced, a crash leaves the new state if that superblock is readable and the old one otherwise: the slot recovery needs is never the one written |
| VolumeRecovery.Published | crates/orisyvra-volume/src/lib.rs:522-540 | once synced, the new superblock is the recovered one and the old one is its exact fallback |
| VolumeRecovery.CrashInTail | crates/orisyvra-volume/src/lib.rs:453-507 | a crash while only bytes past the committed end are pending loses nothing |
| VolumeRecovery.RecoverablePicks | crates/orisyvra-volume/src/lib.rs:330-361 | under the two-superblock invariant open chooses the active superblock and its records |
| VolumeRecovery.PicksUnique | crates/orisyvra-volume/src/lib.rs:339-361 | what open finds is a function of the bytes: slot, state and records |
| VolumeProtocol.WriteErrorMeaning | crates/orisyvra-volume/src/lib.rs:437-520 | a non-empty transaction is committed if and only if its blocks are distinct, in range and small enough and no 64-bit counter runs out |
| VolumeProtocol.ValidationAccepts | crates/orisyvra-volume/src/lib.rs:437-451 | the validation loop finds no error if and only if all blocks are in range, no larger than a block, and pairwise distinct |
| VolumeProtocol.AppendExtendsLog | crates/orisyvra-volume/src/lib.rs:453-505 | appending a transaction extends the log by exactly its records and touches nothing before its old end |
| VolumeProtocol.ExtendedStep | crates/orisyvra-volume/src/lib.rs:489-504 | writing one more record after an extension of the log is again an extension of it |
| VolumeProtocol.TailEndIsLogEnd | crates/orisyvra-volume/src/lib.rs:492-504 | the running offset and index of the append loop are those of the log that results |
| VolumeLog.IndexReads | crates/orisyvra-volume/src/lib.rs:405-420 | reading where the index points gives the block's last payload and passes every metadata check |
| VolumeLog.IndexHoldsLast | crates/orisyvra-volume/src/lib.rs:827-835 | the index names exactly the blocks with records, and for each the last one |
| VolumeLog.LogUnique | crates/orisyvra-volume/src/lib.rs:798-843 | at most one sequence of records accounts for a superblock in a given file |
| VolumeLog.IsLogFrame | crates/orisyvra-volume/src/lib.rs:759-843 | a log depends only on the bytes before its end |
| VolumeCodec.SlotRoundTrip | crates/orisyvra-volume/src/lib.rs:671-740 | a superblock written to a slot reads back as itself |
| VolumeCodec.WrittenRecordReads | crates/orisyvra-volume/src/lib.rs:470-491 | a record written to the file reads back as itself |
| VolumeCodec.ReadRecordIsRec | crates/orisyvra-volume/src/lib.rs:759-796 | whatever reads back is a record in range and of allowed size, lying inside the file |
| VolumeCodec.RecordBytes | crates/orisyvra-volume/src/lib.rs:759-796 | when only sealed messages open, what reads back as a record is its encoding byte for byte |
| VolumeNonces.NoncesOfRun | crates/orisyvra-volume/src/lib.rs:630-757 | in every reachable state no two records of the recovered log are sealed under the same nonce message, no record shares one with a superblock, and neither do the two superblocks |
| VolumeNonces.FreshNonces | crates/orisyvra-volume/src/lib.rs:458-491 | each record a transaction adds is sealed under a nonce message that no record already in the log has |
| VolumeNonces.NonceMessageInjective | crates/orisyvra-volume/src/lib.rs:630-650 | a nonce message determines its domain and both counters |
| VolumeNonces.NonceMessageFields | crates/orisyvra-volume/src/lib.rs:638-645 | where label, volume, domain and the two counters stand in a nonce message |
| VolumeNonces.RecordSealing | crates/orisyvra-volume/src/lib.rs:470-491 | a record on disk is its header, then a body that opens to its payload under the nonce of its block and generation, with that header authenticated |
| VolumeNonces.SlotSealing | crates/orisyvra-volume/src/lib.rs:671-703 | a superblock slot opens to its state under the nonce of its slot and generation, with both authenticated |
| VolumeNonces.AssociatedDataSeparates | crates/orisyvra-volume/src/lib.rs:662-757 | what is authenticated with a record determines its header, with a superblock its slot and generation, never coincides, and begins with the bootstrap header |
| VolumeNonces.KeysAreHalves | crates/orisyvra-volume/src/lib.rs:614-628 | the key and the nonce key are the two halves of one string derived from master key, salt and volume |
| VolumeNonces.SlotReading | crates/orisyvra-volume/src/lib.rs:705-740 | a slot reads as blank if and only if all its bytes are zero, and a readable one carries the generation of its state |
| VolumeFormat.BlocksCover | crates/orisyvra-volume/src/lib.rs:155-158 | a block is below the block count exactly when it starts inside the capacity |
| VolumeFormat.BootstrapRoundTrip | crates/orisyvra-volume/src/lib.rs:112-153 | an encoded bootstrap header decodes to itself |
| VolumeFormat.BootstrapCanonical | crates/orisyvra-volume/src/lib.rs:124-153 | only headers whose 94 field bytes are the encoding of the result decode |
| VolumeFormat.SuperStateRoundTrip | crates/orisyvra-volume/src/lib.rs:176-209 | a superblock payload survives encoding exactly when it does not point before the log |
| VolumeFormat.RecordHeaderRoundTrip | crates/orisyvra-volume/src/lib.rs:221-251 | an encoded record header decodes to itself |
| VolumeFormat.RecordHeaderCanonical | crates/orisyvra-volume/src/lib.rs:231-251 | a record header is determined byte for byte by what it decodes to |
| VolumeFormat.EncodeBootstrap | crates/orisyvra-volume/src/lib.rs:112-122 | filling the buffer in place gives the encoding |
| VolumeFormat.EncodeSuperState | crates/orisyvra-volume/src/lib.rs:176-184 | filling the buffer in place gives the encoding |
| VolumeFormat.EncodeRecordHeader | crates/orisyvra-volume/src/lib.rs:221-229 | filling the buffer in place gives the encoding |
| VolumeScan.ScanLog | crates/orisyvra-volume/src/lib.rs:798-843 | on arbitrary bytes the scan succeeds if and only if some sequence of records accounts exactly for the superblock, and then returns the index of those records |
| VolumeScan.ReadRecordAt | crates/orisyvra-volume/src/lib.rs:759-796 | reads and opens one record with every check, in order |
| VolumeScan.WriteSuperblock | crates/orisyvra-volume/src/lib.rs:671-703 | writes the sealed slot, and nothing else, with one operation |
| VolumeScan.ReadSuperblock | crates/orisyvra-volume/src/lib.rs:705-740 | gives the state of a slot, none for a blank one, or the first failed check |
| EncryptedVolume.Volume.Create | crates/orisyvra-volume/src/lib.rs:289-321 | rejects exactly the invalid options, and otherwise leaves the initial state of a run, with no blocks |
| EncryptedVolume.Volume.Open | crates/orisyvra-volume/src/lib.rs:323-365 | on arbitrary bytes: succeeds exactly when some readable superblock has an exactly matching log, takes the newest such one, and cuts all that follows; on failure changes nothing |
| EncryptedVolume.Volume.Restore | crates/orisyvra-volume/src/lib.rs:347-359 | cutting the tail leaves an open volume on the chosen superblock, as the opening step of a run |
| EncryptedVolume.Volume.ReadCandidates | crates/orisyvra-volume/src/lib.rs:330-335 | finds exactly the readable superblocks, in slot order |
| EncryptedVolume.Volume.ReadBlock | crates/orisyvra-volume/src/lib.rs:405-420 | returns the last payload written to the block or none, and never reports corruption |
| EncryptedVolume.Volume.BlockGeneration | crates/orisyvra-volume/src/lib.rs:557-560 | returns the generation of the block's last record, or none |
| EncryptedVolume.Volume.ValidateBlocks | crates/orisyvra-volume/src/lib.rs:437-451 | returns the first reason, in loop order, to refuse a transaction |
| EncryptedVolume.Volume.WriteRecord | crates/orisyvra-volume/src/lib.rs:470-491 | writes the header and the sealed body of one record, adjacent, and nothing else |
| EncryptedVolume.Volume.AppendBlocks | crates/orisyvra-volume/src/lib.rs:453-505 | appends one record per block after the committed end, or stops at the first exhausted counter having touched only the tail |
| EncryptedVolume.Volume.WriteBlocks | crates/orisyvra-volume/src/lib.rs:432-542 | commits all blocks, returning their new generations, as one commit step of a run; or fails with the first error and leaves the committed state alone |
| EncryptedVolume.Volume.Publish | crates/orisyvra-volume/src/lib.rs:522-541 | writes the other slot, enters the new records in the index, and syncs |
| EncryptedVolume.Volume.SetCleanState | crates/orisyvra-volume/src/lib.rs:562-588 | does nothing if the flag is as wanted, and otherwise publishes the same log with the new flag |
| EncryptedVolume.Volume.MarkClean | crates/orisyvra-volume/src/lib.rs:544-546 | the clean mark as a step of a run |
| EncryptedVolume.Volume.MarkDirty | crates/orisyvra-volume/src/lib.rs:548-550 | the dirty mark as a step of a run |
| EncryptedVolume.TruncationHarmless | crates/orisyvra-volume/src/lib.rs:347-350 | cutting the uncommitted tail of any file, wholly or in part, changes nothing open depends on |
| EncryptedVolume.OpenAgain | crates/orisyvra-volume/src/lib.rs:323-365 | opening any file and opening it again finds the same superblock and the same records |
| EncryptedVolume.CommitConsistent | crates/orisyvra-volume/src/lib.rs:453-540 | a commit keeps the class invariant: the new active superblock accounts exactly for the old records and the new ones |
| EncryptedVolume.MarkConsistent | crates/orisyvra-volume/src/lib.rs:562-588 | a mark keeps the class invariant with the same records, at every generation |
| FlatDisk.FlatCrashAtomicity | crates/orisyvra-volume/src/bin/orisyvra-volume-mount.rs:564-626 | over every run with crashes, the disk is a zero-initialised flat array on which each write request happens wholly or not at all; every file the next crash may leave opens to that array, and an open volume reads it |
| FlatDisk.FlatRun | crates/orisyvra-volume/src/bin/orisyvra-volume-mount.rs:593-626 | the flat array after a run is an outcome of its requests, and is the array of the recovered history |
| FlatDisk.StoredIsHistory | crates/orisyvra-volume/src/lib.rs:405-420 | in every reachable state, reading the blocks back through the index gives the map of the history |
| FlatDisk.WriteBytesIsByteWrite | crates/orisyvra-volume/src/bin/orisyvra-volume-mount.rs:604-625 | the transaction the adapter builds from an open volume is the one a run of the flat disk commits |
| ByteRange.ReadBytes | crates/orisyvra-volume/src/bin/orisyvra-volume-mount.rs:564-591 | fills the output with exactly the requested range of the flat array, or refuses a range past the capacity and leaves the output alone |
| ByteRange.WriteBytes | crates/orisyvra-volume/src/bin/orisyvra-volume-mount.rs:593-626 | overwrites exactly the requested range of the flat array, in one commit step; on any error no byte and no in-memory state changes |
| ByteRange.BuildUpdates | crates/orisyvra-volume/src/bin/orisyvra-volume-mount.rs:604-624 | the read-modify-write loop terminates and builds the transaction of the write |
| ByteRange.PatchBlock | crates/orisyvra-volume/src/bin/orisyvra-volume-mount.rs:617-621 | a stored block, cut or zero-filled to its logical length, with the new bytes in place, is the block as the write must leave it |
| ByteRange.WriteTxValid | crates/orisyvra-volume/src/bin/orisyvra-volume-mount.rs:605-624 | every in-range write builds a valid transaction: non-empty, strictly increasing blocks below the block count, no payload above the block size |
| ByteRange.WriteTxSplices | crates/orisyvra-volume/src/bin/orisyvra-volume-mount.rs:605-625 | committing that transaction overwrites exactly the written range, for short, partial and unallocated blocks alike |
| Mount.DirtyWhileMounted | crates/orisyvra-volume/src/bin/orisyvra-volume-mount.rs:1083-1178 | from the synced dirty mark until the volume is closed, and from a crash in that time until the next clean mark, every file a crash may leave opens dirty |
| Mount.DirtyUntilMarkedClean | crates/orisyvra-volume/src/bin/orisyvra-volume-mount.rs:1033-1191 | after a crash that found the disk mounted, every reopen is dirty, through any number of further mounts and crashes, until a safe stop, a failed dispatcher start or a partition set-up marks it clean |
| Mount.DirtyAfterCrash | crates/orisyvra-volume/src/bin/orisyvra-volume-mount.rs:1083-1178 | a crash in the middle of any disk operation of a mounted volume, other than the closing clean mark, leaves a file that opens dirty |
| Mount.CleanAfterFinish | crates/orisyvra-volume/src/bin/orisyvra-volume-mount.rs:1174-1178 | a stop that ends with the clean mark leaves a volume that reopens clean, whatever a later crash does to the file |
| Mount.CleanAfterSafeStop | crates/orisyvra-volume/src/bin/orisyvra-volume-mount.rs:1131-1178 | once the dispatcher has started, a clean mark happens only after a dismount and then a sync of the same mount |
| Mount.CleanMarkIsSafeStop | crates/orisyvra-volume/src/bin/orisyvra-volume-mount.rs:1098-1178 | a clean mark has a dismount and then a sync of the same mount behind it if and only if it is not written by a failed dispatcher start or by the partition set-up |
| Mount.FailedStartHidesCrash | crates/orisyvra-volume/src/bin/orisyvra-volume-mount.rs:1098-1115 | a run in which a crash finds the disk mounted, the next dispatcher start fails, and the volume then opens clean with no dismount at all |
| Mount.WatcherHistory | crates/orisyvra-volume/src/bin/orisyvra-volume-mount.rs:1131-1157 | the watcher's state tells what it has dismounted and synced since the last mount |
| Mount.SyncSettles | crates/orisyvra-volume/src/bin/orisyvra-volume-mount.rs:1017-1025 | after each sync of the host nothing is pending: what a crash can then leave is exactly the files that begin with every byte written so far |
| Mount.SafeStopSettles | crates/orisyvra-volume/src/bin/orisyvra-volume-mount.rs:1131-1157 | the sync of a safe stop has put everything written before it on the disk |
| Mount.FinishSettles | crates/orisyvra-volume/src/bin/orisyvra-volume-mount.rs:1160-1178 | a stop finds nothing pending when it writes the clean mark, and leaves nothing pending |
| Mount.HostStep | crates/orisyvra-volume/src/bin/orisyvra-volume-mount.rs:1033-1191 | every step of the host keeps: mounted means recovered dirty, and the safe-shutdown flag means a finished watcher |
| Permutation.PermutationInvertible | crates/orisyvra-core/src/permutation.rs:165-193 | for every state and round count up to 18, inverting undoes permuting and permuting undoes inverting |
| Permutation.PermutationBijective | crates/orisyvra-core/src/permutation.rs:165-193 | the permutation is injective and reaches every state |
| Permutation.StepBack | crates/orisyvra-core/src/permutation.rs:32-163 | each elementary step of a round, on either rail, is undone exactly by its hand-written inverse, from both sides |
| Permutation.RunBack | crates/orisyvra-core/src/permutation.rs:103-163 | undoing any run of steps in reverse order cancels it |
| Permutation.CollideBack | crates/orisyvra-core/src/permutation.rs:32-69 | the collision of two lanes and its inverse cancel in both orders |
| Permutation.ShuffleBack | crates/orisyvra-core/src/permutation.rs:71-85 | the word permutations are permutations and the inverse loop undoes them |
| PermutationInPlace.RoundForward | crates/orisyvra-core/src/permutation.rs:102-132 | one in-place round, whose lanes read neighbours already updated, applies the listed steps in order |
| PermutationInPlace.RoundInverse | crates/orisyvra-core/src/permutation.rs:134-163 | the in-place inverse round undoes the same steps in reverse order |
| PermutationInPlace.CollidePairs | crates/orisyvra-core/src/permutation.rs:110-112 | the collision loop applies the three collisions of the round's pairing |
| PermutationInPlace.WaveLanes | crates/orisyvra-core/src/permutation.rs:113-117 | the in-place wave loop applies the six wave steps in lane order |
| PermutationInPlace.InversePermuteWords | crates/orisyvra-core/src/permutation.rs:79-85 | the scattering loop writes every lane once and inverts the gathering one |
| PermutationInPlace.PermuteRounds | crates/orisyvra-core/src/permutation.rs:179-185 | the loop computes the pure permutation of the given number of rounds |
| PermutationInPlace.InvertRounds | crates/orisyvra-core/src/permutation.rs:187-193 | the loop computes the pure inverse of the given number of rounds |
| PermutationInPlace.Permute | crates/orisyvra-core/src/permutation.rs:165-170 | the full loop computes the pure permutation of eighteen rounds |
| PermutationInPlace.Invert | crates/orisyvra-core/src/permutation.rs:172-177 | the full loop computes the pure inverse of eighteen rounds |
| PermutationInPlace.PermuteAndInvert | crates/orisyvra-core/src/permutation.rs:165-177 | permuting and then inverting leaves any state as it was |
| PermutationInPlace.PermuteThenInvert | crates/orisyvra-core/src/permutation.rs:179-193 | running the two reduced-round methods one after the other leaves any state as it was |
| Words.RotateBack | crates/orisyvra-core/src/permutation.rs:43-66 | rotating left and right by the same amount cancel on 64-bit words |
| Words.XorBack | crates/orisyvra-core/src/permutation.rs:42-65 | exclusive or with the same word twice cancels |
| WordBits.RotlBit | crates/orisyvra-core/src/permutation.rs:43-47 | bit i of a word is bit (i + r) mod 64 of the word rotated left by r |
| WordBits.RotrBit | crates/orisyvra-core/src/permutation.rs:63-66 | bit (i + r) mod 64 of a word is bit i of the word rotated right by r |
| WordBits.RotlAdd | crates/orisyvra-core/src/permutation.rs:43-47 | rotating by a and then by b is rotating by a + b |
| WordBits.WordXorBit | crates/orisyvra-core/src/permutation.rs:42-65 | a bit of an exclusive or is one exactly when the two bits differ |
| WordBits.ByteXorBit | crates/orisyvra/src/container.rs:266-271 | a bit of an exclusive or of two bytes is one exactly when the two bits differ |
| WordBits.WrappingSum | crates/orisyvra-core/src/permutation.rs:42-66 | wrapping addition and subtraction are those of integers, corrected by 2^64 when out of range |
| WordBits.XorIsNative | crates/orisyvra/src/container.rs:266-271 | exclusive or of two bytes is that of the 8-bit machine operation |
| NativeWords.XorIsMachine | crates/orisyvra-core/src/permutation.rs:42-65 | exclusive or of two words is that of the 64-bit machine operation, bit string by bit string |
| PermutationShape.RotationAdvances | crates/orisyvra-core/src/permutation.rs:26-29 | rotation amounts start at the base and grow modulo 63 by the stride per round and by five per lane |
| PermutationShape.RotationsDiffer | crates/orisyvra-core/src/permutation.rs:26-29 | in one round no two lanes of equal base turn by the same amount |
| PermutationShape.EveryLaneCollides | crates/orisyvra-core/src/permutation.rs:10-14 | in every round each lane of the collision rail meets exactly one other |
| PermutationShape.MeetingsRepeat | crates/orisyvra-core/src/permutation.rs:10-14 | two lanes that meet meet again three rounds later and not before |
| PermutationShape.CollisionOrders | crates/orisyvra-core/src/permutation.rs:16 | the three orders in which the words of the collision rail leave a round |
| PermutationShape.WaveOrders | crates/orisyvra-core/src/permutation.rs:17 | the three orders in which the words of the wave rail leave a round |
| PermutationShape.RoundsInjectApart | crates/orisyvra-core/src/permutation.rs:106-108 | any two rounds inject different constants into each of the three lanes |
| PermutationShape.FirstCollision | crates/orisyvra-core/src/permutation.rs:33-51 | the first two lanes of the zero state after the first collision, as numbers |
| SpongeMachine.KeyedSponge.constructor | crates/orisyvra-core/src/prf.rs:26-45 | a new machine holds the permuted keyed state and no input |
| SpongeMachine.KeyedSponge.Absorb | crates/orisyvra-core/src/prf.rs:47-58 | however the input is split, the state is the fold of the permutation over the 48-byte blocks of all of it, and the unused buffer is zero |
| SpongeMachine.KeyedSponge.CommitBlock | crates/orisyvra-core/src/prf.rs:60-73 | absorbs the buffered block and empties the buffer |
| SpongeMachine.KeyedSponge.Finalize | crates/orisyvra-core/src/prf.rs:75-89 | absorbs the input with its 10*1 padding, also when both pad bits share byte 47, and binds key and lengths |
| SpongeMachine.KeyedSponge.Squeeze | crates/orisyvra-core/src/prf.rs:91-111 | writes the block stream of the state, cut to the output length |
| SpongeMachine.PrfParts | crates/orisyvra-core/src/prf.rs:115-123 | the whole machine computes a pure function of key, domain, parts and output length |
| SpongeMachine.SameInputSameMachine | crates/orisyvra-core/src/prf.rs:47-73 | two machines keyed alike and fed the same bytes, split anyhow, have the same state, buffer and counters |
| SpongeMachine.CompleteBlock | crates/orisyvra-core/src/prf.rs:47-73 | filling the buffer to its end completes exactly the next block of the input |
| Sponge.PartsSeparate | crates/orisyvra-core/src/prf.rs:60-80 | different lists of parts, each below 2^64 bytes, feed different words to the permutation |
| Sponge.EncodePartsInjective | crates/orisyvra-core/src/prf.rs:117-120 | length prefixes make the list of parts recoverable |
| Sponge.PaddedInjective | crates/orisyvra-core/src/prf.rs:75-78 | equal padded inputs are equal inputs |
| Sponge.SqueezePrefix | crates/orisyvra-core/src/prf.rs:91-111 | a shorter output of a state is a prefix of a longer one |
| SpongeBinding.InputBinds | crates/orisyvra-core/src/prf.rs:47-89 | two inputs that differ within one 48-byte block have different final states |
| SpongeBinding.AbsorbBinds | crates/orisyvra-core/src/prf.rs:60-73 | absorbing different blocks into one state gives different states |
| SpongeBinding.AbsorbAllKeeps | crates/orisyvra-core/src/prf.rs:60-73 | absorbing the same blocks into different states gives different states |
| SpongeBinding.ShortPartBinds | crates/orisyvra-core/src/prf.rs:115-123 | two different one-part inputs of equal length up to 40 bytes have different final states |
| SpongeBinding.KeyBinds | crates/orisyvra-core/src/prf.rs:26-45 | different keys give different initial states |
| SpongeBinding.DomainBinds | crates/orisyvra-core/src/prf.rs:9-16 | different domains give different initial states under one key |
| SpongeBinding.FinalStateBinds | crates/orisyvra-core/src/prf.rs:75-89 | different domains, or different output lengths, give different final states for one key and input |
| SpongeBinding.FinalMixedBinds | crates/orisyvra-core/src/prf.rs:79-88 | the final mixing of one state binds the key and both lengths |
| SpongeBinding.PaddingShape | crates/orisyvra-core/src/prf.rs:75-78 | each byte of a padded input: the input, then the two pad bits and zeros |
| SpongeBinding.SqueezedByte | crates/orisyvra-core/src/prf.rs:91-111 | each output byte is the byte at its place of the state its block was squeezed from |
| SpongeBinding.OutputLanes | crates/orisyvra-core/src/prf.rs:94-98 | an output block, read back lane by lane, gives the six rate lanes of its state |
| SpongeBinding.WordAtBytes | crates/orisyvra-core/src/prf.rs:60-69 | the words cut from a block, written out again, are its bytes |
| SpongeBinding.TweakBinds | crates/orisyvra-core/src/prf.rs:103-107 | the step between output blocks keeps states apart, separates block numbers and always changes the last lane |
| ContainerSpec.AcceptedIffContainer | crates/orisyvra/src/container.rs:593-752 | a file is accepted with given header and chunks if and only if it is what sealing those chunks under that header produces; in guarded mode, when only sealed messages open, in native mode with no assumption |
| ContainerSpec.ContainerAccepted | crates/orisyvra/src/container.rs:467-752 | every container is accepted and gives back its header and chunks, whatever the primitives |
| ContainerSpec.ParsedIsContainer | crates/orisyvra/src/container.rs:621-740 | canonicity: resealing the recovered chunks reproduces an accepted file byte for byte, with no assumption in native mode |
| ContainerSpec.ParsedRecordSealed | crates/orisyvra/src/container.rs:628-690 | a record that passes the checks is the sealed record, frame and body, with no assumption in native mode |
| ContainerSpec.ParsedManifestSealed | crates/orisyvra/src/container.rs:691-740 | a manifest that passes the checks is the sealed one, frame and body, with no assumption in native mode |
| ContainerSpec.AcceptedPrefixFree | crates/orisyvra/src/container.rs:621-743 | with no cryptographic assumption, no accepted file is a proper prefix of another |
| ContainerSpec.NoAcceptedExtension | crates/orisyvra/src/container.rs:621-743 | from any record on, of two accepted files that extend one another both are the same |
| ContainerSpec.TotalFits | crates/orisyvra/src/container.rs:543-546 | the total length of an accepted number of chunks never overflows 64 bits |
| ContainerFile.EncryptThenDecrypt | crates/orisyvra/src/container.rs:467-752 | decrypting an encrypted file gives back its header and its bytes, for every plaintext of at most 2^20 chunks |
| ContainerFile.SplitExact | crates/orisyvra/src/container.rs:495-508 | splitting loses nothing and fills every chunk but the last |
| ContainerFile.Encrypt | crates/orisyvra/src/container.rs:467-591 | for every schedule of short reads, writes the container of the split plaintext, or refuses a bad chunk size or too many chunks |
| ContainerFile.EncryptChunks | crates/orisyvra/src/container.rs:495-590 | the streaming loop seals the chunks of the split in order and closes with their manifest |
| ContainerFile.Decrypt | crates/orisyvra/src/container.rs:593-752 | for every schedule of short reads, returns the recovered chunks or the first failed check, as `ContainerSpec.Accept` defines them |
| ContainerFile.OpenRecord | crates/orisyvra/src/container.rs:628-690 | checks and opens one record and advances just past it |
| ContainerFile.OpenManifest | crates/orisyvra/src/container.rs:691-740 | checks the manifest against totals, count and transcript, and that nothing follows it |
| ContainerFile.SealNativeBytes | crates/orisyvra/src/container.rs:243-274 | the sponge-based sealing computes the pure sealing function |
| ContainerFile.OpenNativeBytes | crates/orisyvra/src/container.rs:276-314 | the sponge-based opening computes the pure opening function |
| ContainerFile.Reader.Fill | crates/orisyvra/src/container.rs:495-505 | whatever the short reads, the buffer receives exactly the next bytes of the input, full unless it ends |
| ContainerFormat.NativeInverse | crates/orisyvra/src/container.rs:243-314 | a native body opens to a plaintext if and only if it is the sealing of that plaintext |
| ContainerFormat.ManifestInverse | crates/orisyvra/src/container.rs:372-424 | verification accepts exactly the manifest that total, count and transcript determine |
| ContainerFormat.GuardUnguarded | crates/orisyvra/src/container.rs:330-370 | a body that passes the guard is the guarding of its contents; in guarded mode, when only sealed messages open |
| ContainerFormat.UnguardGuarded | crates/orisyvra/src/container.rs:330-370 | opening a guarded body gives its contents |
| ContainerFormat.HeaderRoundTrip | crates/orisyvra/src/container.rs:108-147 | an encoded header decodes to itself |
| ContainerFormat.HeaderCanonical | crates/orisyvra/src/container.rs:120-147 | all eighty header bytes are determined by what they decode to |
| ContainerBinding.BodyIsMasked | crates/orisyvra/src/container.rs:243-274 | each byte of a sealed body differs from its plaintext byte by exactly the keystream byte at its place, after the tag |
| ContainerBinding.TagInputsSeparate | crates/orisyvra/src/container.rs:235-258 | records that differ in number, length or plaintext are tagged over different blocks |
| ContainerBinding.StreamInputsSeparate | crates/orisyvra/src/container.rs:259-265 | records that differ in number, length or tag are masked by streams of different inputs |
| ContainerBinding.KeyInputsSeparate | crates/orisyvra/src/container.rs:173-193 | keys of different purpose or of different headers are derived from different inputs |
| ContainerBinding.KeysOfFile | crates/orisyvra/src/container.rs:173-217 | which derived string each key of a file is; the two guard keys are the halves of one |
| ContainerBinding.GuardSealing | crates/orisyvra/src/container.rs:316-349 | in guarded mode a body opens under its own nonce with header and frame authenticated |
| ContainerBinding.NoncesOfFile | crates/orisyvra/src/container.rs:316-328 | no two records of a file, and no record and the manifest, are guarded under one nonce message |
| ContainerBinding.GuardNoncesDiffer | crates/orisyvra/src/container.rs:316-328 | a guard nonce message determines file, number and kind |
| ContainerBinding.GuardedDataSeparates | crates/orisyvra/src/container.rs:529-531 | what the guard authenticates determines the header and the frame |
| ContainerBinding.ManifestBinds | crates/orisyvra/src/container.rs:372-392 | two lists of chunks with one manifest have as many chunks and bytes, and show two strings with one SHA-384 |
| ContainerBinding.HeaderLayout | crates/orisyvra/src/container.rs:108-118 | where each field of a header stands |
| ContainerBinding.FrameLayout | crates/orisyvra/src/container.rs:219-233 | where each field of a record frame and of a manifest frame stands |
| Crc.CrcSeparates | crates/orisyvra/src/keycard.rs:482-492 | two different strings of equal length, however long, that differ only within four consecutive bytes have different checksums |
| Crc.ComputeCrc32 | crates/orisyvra/src/keycard.rs:482-492 | the two nested loops compute the checksum |
| Crc.CrcBitInjective | crates/orisyvra/src/keycard.rs:486-489 | one bit step maps different states to different states |
| Crc.CrcBitShift | crates/orisyvra/src/keycard.rs:486-489 | the bit step is linear in the bits above the lowest, which move one place down |
| Crc.WindowIsWord | crates/orisyvra-pin/src/lib.rs:157-167 | up to four bytes are absorbed as one little-endian word added to the state |
| CrcAnswers.Residue | crates/orisyvra/src/keycard.rs:482-492 | a message followed by its checksum, low byte first, always leaves the register at 0xdebb20e3 |
| CrcAnswers.EndChecksum | crates/orisyvra/src/keycard.rs:482-492 | the checksum of the end chunk is 0xae426082 |
| CrcAnswers.CrcBitIsStep | crates/orisyvra/src/keycard.rs:487-488 | the bit step is a machine shift and a machine exclusive or with 0xedb88320 when a one bit falls out |
| Png.NetworkOrder | crates/orisyvra/src/keycard.rs:520-524 | a length is read with its highest byte first |
| Png.OrdinaryFile | crates/orisyvra/src/keycard.rs:519-544 | a file of a 13-byte header chunk, any chunks, an end chunk and any rest, given by its bytes, walks to its end with those chunks |
| Png.EndChunkBytes | crates/orisyvra/src/keycard.rs:532-538 | the end chunk is written as the twelve bytes 00000000 49454e44 ae426082 |
| Png.WalkWrittenClosed | crates/orisyvra/src/keycard.rs:519-544 | any list of chunks ended by one end chunk is read back from its bytes, whatever follows them |
| Png.WalkReads | crates/orisyvra/src/keycard.rs:557-602 | the walked chunks are, byte for byte, what the file starts with |
| Png.WalkShape | crates/orisyvra-pin/src/lib.rs:174-204 | a walk that reaches an end chunk saw no earlier one, any other walk saw none |
| Png.InsertedChunks | crates/orisyvra/src/keycard.rs:516-549 | a written file holds the old chunks in order and the new one just before the last, and nothing after the end chunk |
| Png.DamageNoticed | crates/orisyvra/src/keycard.rs:482-492 | damage within four consecutive bytes of a chunk's type and data never leaves its check value right |
| PngCards.ExtractAfterInject | crates/orisyvra/src/keycard.rs:507-604 | the injected key is the one extracted exactly when no key chunk came before it; otherwise the answer is what it was |
| PngCards.InjectKeepsMarker | crates/orisyvra/src/keycard.rs:507-550 | injecting a key does not change what the marker reader says |
| PngCards.MarkerKeepsKey | crates/orisyvra-pin/src/lib.rs:208-254 | marking does not change what the key reader returns, errors included |
| PngCards.MarkedAfterAdd | crates/orisyvra-pin/src/lib.rs:208-254 | after a successful marking the file is marked if and only if it was before or held no marker-type chunk |
| PngCards.AddMarkerIdempotent | crates/orisyvra-pin/src/lib.rs:208-254 | marking twice is marking once if and only if the first marking took; otherwise each call adds 24 bytes |
| PngCards.StaleMarkerStays | crates/orisyvra-pin/src/lib.rs:182-197 | a file with a damaged marker chunk stays unmarked, and marking it is not idempotent |
| PngCards.PinCardOpens | crates/orisyvra-pin/src/lib.rs:256-290 | a key injected into a fresh image, then marked, is extracted again, and the marker is present |
| PngCards.KeyChunkRoundTrip | crates/orisyvra/src/keycard.rs:494-604 | a built key chunk parses back to its key |
| PngCards.ParsedKeyChunkIsBuilt | crates/orisyvra/src/keycard.rs:571-597 | whatever parses as a key chunk is the built chunk of a valid key, byte for byte |
| PngCards.DigestBinds | crates/orisyvra/src/keycard.rs:588-595 | two accepted key chunks with one digest and different contents show two keys with one SHA-256 |
| PngFile.ExtractKeyChunk | crates/orisyvra/src/keycard.rs:552-604 | the cursor loop answers from the first key chunk: its key, its first failed check, or none |
| PngFile.MarkerPresent | crates/orisyvra-pin/src/lib.rs:169-206 | the cursor loop answers from the first marker-type chunk |
| PngFile.InjectKeyChunk | crates/orisyvra/src/keycard.rs:507-550 | signature and key are checked first, then the key chunk goes in before the end chunk |
| PngFile.AddPinMarker | crates/orisyvra-pin/src/lib.rs:208-254 | a marked file is returned as it is; any other gets the marker chunk before its end chunk |
| PngFile.CopyInserting | crates/orisyvra-pin/src/lib.rs:221-253 | the copying loop writes every chunk through the end chunk, with the new one before that, or reports truncation or a missing end |

## Left out

- Graphical programs, command lines, build scripts, the analysis tool, and the drawing of cards, PDFs and QR codes.
- The virtual-disk driver, Windows calls, drive letters, `mountvol`, scheduled tasks and the mount-entry file. Of the
  mount host the order of its events is kept, with one mount and one stop watcher at a time in a process. The read and
  unmap callbacks change nothing on the volume and are not events. The partition set-up writes any transaction in place
  of the boot record, and its check that the first sector is empty is not kept.
- Internals and strength of XChaCha20-Poly1305, HMAC, HKDF, SHA-2 and Argon2. They are functions with the laws named
  above; secrecy is not stated. Zeroisation and constant-time comparison are plain assignment and equality.
- The contents of key capsules (`keyfile.rs`): a capsule is checked by an arbitrary predicate that implies a length of
  128 bytes.
- Paths, temporary files, renaming and overwriting: an operation gives some bytes or an error. File metadata is the
  length of the file, and seeking followed by an exact read or write is one operation at an offset.
- Random salts and identifiers are parameters.
- I/O errors of the disk. A run ends at the first one: the memory of a volume whose sync failed is not followed.
- Crashes inside `Volume::create`: the volume exists once its last sync has returned.
- The command that creates a volume writes a boot record and marks the volume clean before any mount; a host starts with
  any volume file that the invariant covers.
- VolumeRuns.StepKeeps: marks are steps of a run only below superblock generation 2^64-1, because at that generation a
  mark may be lost; `VolumeResults.MarkSurvives` is exact there, for any number of marks. The runs of the mount host
  have the same bound.
- VolumeRuns.RunExplained: a refused write may have put any operations past the committed end on the disk, more than
  the program's own appends.
- VolumeRecovery.CrashWhilePublishing: that a torn superblock slot does not read as a third state is part of the crash
  model and not derived from the cipher.
- EncryptedVolume.TruncationHarmless: covers files cut to any length between the committed end and their old end; that
  the bytes past the committed end keep their values until they are cut is part of the statement. In the runs of
  `VolumeRuns`, where the invariant holds, those bytes may become arbitrary.
- VolumeNonces.NoncesOfRun: speaks of the records of the recovered log, not of everything ever written: a record that
  was discarded, by a crash before its superblock or by a refused write, may be sealed again for the same block and
  generation.
- VolumeFormat.BootstrapCanonical: the bytes of a bootstrap header after the 94th are ignored by the program, so two
  files may differ there.
- The version field of the bootstrap and of the container header is a constant, since every other value is refused.
- EncryptedVolume.Volume.WriteBlocks: the text of the error for an oversized payload does not carry the block size.
- The master boot record written into a new volume, and the sector arithmetic of the driver's callbacks.
- SpongeBinding.InputBinds: inputs that differ in two or more blocks may meet in one state; that they are hard to find
  is an assumption about the permutation and not stated.
- The known-answer vectors of the permutation: one collision is computed (`PermutationShape.FirstCollision`), not all
  eighteen rounds.
- Words are bounded integers, and exclusive or is defined bit by bit on them. A `usize` has 64 bits, so offsets inside
  a byte string in memory do not overflow.
- PngFile.CopyInserting: the repository has this loop twice, once in each writer; the model has it once.
- Container.rs's states "data after manifest" and "duplicate manifest" cannot be reached, because the loop leaves at
  the manifest; the model has neither.
