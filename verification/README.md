# Verified models of the storage and crypto engines

Dafny models of seven engines of this repository, each proved against what its callers rely on.
`dafny verify dfyconfig.toml` checks everything.

* **Job manager** (`ImbJob`, `JobCheck`, `JobAccepted`, `Dispatch`, `Scheduling`, `JobManager`): the multi-buffer
  crypto library's in-order ring of 128 jobs over out-of-order lanes. A lane is known by contract
  only: submit takes the job in and may hand back any job it holds, flush hands one back unless the
  lane is empty. Validation, both dispatch tables, the loops that push half-done jobs on, and the
  ring arithmetic are modelled branch by branch; the main theorem is about whole runs.
* **spdk_dd** (`DdModel`, `DdGrid`, `DdSteps`, `DdEngine`, `DdPlan`): the copy between two block devices as a
  step system. Transfers are performed and completed in any order; an I/O may fail on the device
  without the callbacks noticing, a submission may be refused, an interrupt may come at any time.
* **Tracing** (`TraceRing`, `TraceRecord`, `TraceRead`): the per-core ring with a ghost log of
  everything ever recorded, the poller that drains it into a file, and the reader that puts rings in
  order and merges them.
* **DES** (`DesBlock`, `DesBytes`, `DesModes`, `DesInPlace`): the block cipher for any round function
  and any table contents, CBC, 3DES and DOCSIS-DES over byte arrays that may be the same for input
  and output.
* **SHA driver** (`ShaPad`, `ShaDriver`, `ShaConstants`): padding and block loop for any compression function.
* **NBFS2 metadata** (`HashModel`, `HashTable`, `MetaStore`, `MetaFile`, `FileSystem`): the chained
  hash table with its linked nodes, its way to the super blob and back, and whole lives of a file
  system over creations, deletions and remounts.
* **Map files** (`AbiMap`, `AbiRegex`, `AbiRewrite`, `AbiLinker`, `AbiScript`): the parser and printer of the version script.

`Basics` and `Wrappers` hold what several of them use.

Code that changes state is a class or a method over arrays, with a function of plain values as its
specification; the properties are lemmas about those functions and postconditions of methods that
run whole sequences of calls.

## What turned out not to hold

Where the code does less than one would expect of it, the model follows the code, a lemma gives a
concrete input, and another one the exact condition.

* `linkedlist_insert` links a new node behind the last but one (hash_table.h:99-108), so from the
  third node of a chain on the last one is replaced and its key is lost: `HashModel.FourthLosesThird`,
  and exactly when not, `HashModel.InsertKeepsOthers`. Saving and rebuilding reproduces a table
  exactly under the condition of `MetaStore.SaveReload`; `MetaStore.RepeatedKeyIsMerged` is a table
  that comes back different.
* `ht_delete` of the first key of a chain drops the whole chain: `HashModel.DeleteTakesNext`, and
  exactly when not, `HashModel.DeleteKeepsOthers`.
* A removal of a key that comes first behind the head of a chain frees a node that stays linked,
  because `prev` is that node by then (hash_table.h:346-371): `HashTable.ThirdDangles`, and exactly
  when, `HashTable.Table.Delete`; `HashTable.Run` stops there.
* A deleted file stays in the table, because `_nbfs2_blob_deleted` asks for the text of its blob id to
  be removed and not for its name (NBFS2.c:77-80); and as the data size is lowered all the same
  (NBFS2.c:82), the next unload may copy more records than its buffer holds (NBFS2.c:242, 286).
  `FileSystem.DeletedOverruns` is the input for both. A deleted file is taken out exactly under the
  condition of `FileSystem.ErasedIffDropped`, and the records fit exactly under that of
  `FileSystem.UnloadFitsIff`; `FileSystem.Live` stops at an unload that overruns.
* Validation asks for `enc_keys` for ECB in both directions, as the header documents
  (intel-ipsec-mb.h:270), but decryption reads `dec_keys` (mb_mgr_code.h:148-181):
  `JobAccepted.EcbDecryption`. `JobAccepted.AcceptedKeys` lists exactly the accepted jobs that lack a key.
* A custom callback ahead of a lane stage makes `complete_job` submit a job to the lane that holds it:
  `JobManager.CustomAheadOfLane` is a run that comes to it with a job that validation accepts. On any
  ring the loop comes to it exactly for an unfinished job that is not `Supported`, that is, whose first
  stage is a callback and whose second one is queued: `Scheduling.UnsupportedIsQueuedTwice`,
  `JobManager.Manager.CompleteJob`. Such jobs are harmless while no call has to complete one unfinished,
  and `JobManager.Run` covers those runs.
* The checks of `dd_run` admit a unit that is no whole number of output blocks, whose rounded transfer
  overruns the buffer: `DdPlan.ChecksDoNotImplyFit`, where the device takes that transfer.
  `DdModel.FitsIsExact` is the exact condition; `DdEngine.CopyDevice` covers such copies up to the
  first transfer that overruns.
* A trace that starts with the time stamp 0 is recorded twice: `TraceRecord.ZeroStampRepeats` and
  `TraceRecord.TakenIsWhatIsNew`.
* The version script accepts an ABI number in digits of another script and does not recognise its own
  section header then: `AbiRewrite.ForeignDigitsLoseSection` and `AbiRewrite.RewriteIsIdempotent`.
* Comments in the dispatch code are incomplete: the default branch of the hash submit ("assume GCM,
  PON or NULL") also gets DOCSIS-CRC32, that of the hash flush also the plain SHA, SNOW3G, KASUMI and
  PON algorithms (`Dispatch.AcceptedDefaultHashes`). GCM and PON jobs go from status 0 to COMPLETED in
  one step, without a stage bit in between.

## Model

| member | source | states |
|---|---|---|
| JobManager.Run | src/spdk_NBFS/intel-ipsec-mb/mb_mgr_code.h:1835-2013 | for every sequence of GET_NEXT_JOB/SUBMIT_JOB, SUBMIT_JOB_NOCHECK, FLUSH_JOB and GET_COMPLETED_JOB calls on jobs of any kind, every order in which lanes hand jobs back and every return code of a callback, followed by flushing until NULL: the returned jobs are the submitted ones, in order, each once, INVALID_ARGS exactly when checked and refused, else COMPLETED, or INTERNAL_ERROR only with a custom callback; the request is as submitted but for an AES-CMAC length, multiplied by 8 once if the hash stage ran; the final drain takes fewer than 128 flushes. It breaks off only in front of an oldest job that is not `Supported` and was not refused |
| JobManager.CustomAheadOfLane | src/spdk_NBFS/intel-ipsec-mb/mb_mgr_code.h:1772-1833 | a concrete run that breaks off: a custom cipher ahead of HMAC-SHA1 passes validation, its callback succeeds, the lane keeps the job, and FLUSH_JOB comes to submitting it to that lane again |
| JobManager.Perform | src/spdk_NBFS/intel-ipsec-mb/mb_mgr_code.h:1905-2013 | one call keeps the invariant or breaks off, logs exactly the submission it makes and returns at most the next job in order |
| JobManager.Manager.SubmitJobAndCheck | src/spdk_NBFS/intel-ipsec-mb/mb_mgr_code.h:1835-1903 | logs the job with the verdict of validation; a job that comes back is the oldest one and is appended to the returned ones; NULL only while the oldest job is unfinished; the invariant holds again, also when the ring was empty or becomes full; it breaks off only when the ring becomes full |
| JobManager.Manager.Collect | src/spdk_NBFS/intel-ipsec-mb/mb_mgr_code.h:1867-1903 | the part after submit_new_job: on an empty ring a direct return is the job just submitted; a full ring is relieved by completing the oldest job, and breaks off exactly if that is unfinished and not `Supported`; the window offsets follow |
| JobManager.Manager.StartJob | src/spdk_NBFS/intel-ipsec-mb/mb_mgr_code.h:1853-1865 | the job is logged and either refused with STS_INVALID_ARGS or set going; a NULL result means some lane is busy |
| JobManager.Manager.OpenWindow | src/spdk_NBFS/intel-ipsec-mb/mb_mgr_code.h:1855-1864 | the next slot enters the window with the status its verdict calls for, without disturbing any job under way |
| JobManager.Manager.SubmitNewJob | src/spdk_NBFS/intel-ipsec-mb/mb_mgr_code.h:1797-1807 | a returned job is under way and finished; NULL leaves a lane busy |
| JobManager.Manager.ResubmitJob | src/spdk_NBFS/intel-ipsec-mb/mb_mgr_code.h:1783-1795 | terminates (the unfinished stages of all jobs go down with every lap that returns a job); what comes back is finished, and after a NULL some lane is busy |
| JobManager.Manager.CompleteJob | src/spdk_NBFS/intel-ipsec-mb/mb_mgr_code.h:1809-1833 | terminates and leaves the job waited for finished, in either chain order and whatever jobs the lanes choose to hand back, unless it is unfinished and not `Supported`: then, and only then, it comes to submitting that job, untouched, to the lane that holds it |
| JobManager.Manager.FinishOldest | src/spdk_NBFS/intel-ipsec-mb/mb_mgr_code.h:1876-1883 | complete_job on the oldest job, which is then handed back; it breaks off exactly if that job is unfinished and not `Supported` |
| JobManager.Manager.FlushForward | src/spdk_NBFS/intel-ipsec-mb/mb_mgr_code.h:1815-1828 | the cipher flush and the hash flush cannot both return NULL while the job is unfinished; what they return has one stage less to go for a `Supported` job, and is the job itself with nothing changed for any other |
| JobManager.Manager.FlushTurn | src/spdk_NBFS/intel-ipsec-mb/mb_mgr_code.h:1815-1830 | one turn of the loop lowers the total of unfinished stages, or comes to submitting the held job again, exactly if the job is not `Supported` |
| JobManager.Manager.FlushAesJob | src/spdk_NBFS/intel-ipsec-mb/mb_mgr_code.h:1772-1781 | for a waiting job the cipher flush returns NULL only if the job is past its cipher stage; a custom cipher's flush returns the job itself and changes nothing; any other hands back a job with one stage less to go |
| JobManager.Manager.FlushHashJob | src/spdk_NBFS/intel-ipsec-mb/mb_mgr_code.h:760-821 | the same for the hash flush; its default branch never finds the stage open, and a custom hash's flush is the identity |
| JobManager.Manager.SubmitAesJob | src/spdk_NBFS/intel-ipsec-mb/mb_mgr_code.h:401-641 | a cipher stage that is not queued sets its bit (both bits for the one-pass engines, the callback's verdict for a custom one) and returns the job itself; a queued job is held by the lane its status calls for, and whatever comes back has one stage less to go |
| JobManager.Manager.SubmitHashJob | src/spdk_NBFS/intel-ipsec-mb/mb_mgr_code.h:644-758 | the same for the hash stage |
| JobManager.Manager.LengthToBits | src/spdk_NBFS/intel-ipsec-mb/mb_mgr_code.h:644-758 | the byte length of an AES-CMAC job becomes bits, modulo 2^64, when its hash stage is queued, and nothing else changes |
| JobManager.Manager.RunCallback | src/spdk_NBFS/intel-ipsec-mb/mb_mgr_code.h:193-245 | a custom stage sets its bit or ends the job with STS_INTERNAL_ERROR |
| JobManager.Manager.EndCallback | src/spdk_NBFS/intel-ipsec-mb/mb_mgr_code.h:193-245 | one return code: 0 sets the bit of the stage, any other ends the job with STS_INTERNAL_ERROR |
| JobManager.Manager.FlushJob | src/spdk_NBFS/intel-ipsec-mb/mb_mgr_code.h:1917-1954 | NULL exactly on an empty ring, or where it breaks off: exactly if the oldest job is unfinished and not `Supported`; otherwise the oldest job, finished |
| JobManager.Manager.GetCompletedJob | src/spdk_NBFS/intel-ipsec-mb/mb_mgr_code.h:1977-2001 | NULL exactly if the ring is empty or the oldest job unfinished; otherwise that job |
| JobManager.Manager.QueueSize | src/spdk_NBFS/intel-ipsec-mb/mb_mgr_code.h:1959-1975 | the masked slot difference is the number of jobs under way, across the wrap, and at most 127 |
| JobManager.Manager.GetNextJob | src/spdk_NBFS/intel-ipsec-mb/mb_mgr_code.h:2003-2013 | the slot handed out belongs to no job under way |
| JobManager.OffsetLaw | src/spdk_NBFS/intel-ipsec-mb/mb_mgr_code.h:60-66 | ADV_JOBS moves a byte offset on by one slot round the ring |
| JobManager.SlotLaw | src/spdk_NBFS/intel-ipsec-mb/mb_mgr_code.h:60-66 | slots of two jobs within one turn coincide exactly for the same job or a full turn, and their difference modulo 128 is the number of jobs between them |
| JobManager.OffsetLaws | src/spdk_NBFS/intel-ipsec-mb/mb_mgr_code.h:60-66 | within one turn two offsets coincide exactly for an empty or a full ring, and the difference of their slots modulo 128 is the window length |
| Scheduling.FinishKeeps | src/spdk_NBFS/intel-ipsec-mb/mb_mgr_code.h:1783-1795 | ending a stage keeps the invariant, never takes a status back, and lowers the work left |
| Scheduling.QueueKeeps | src/spdk_NBFS/intel-ipsec-mb/mb_mgr_code.h:401-758 | a job is queued in a lane only when no lane holds it; its AES-CMAC length is turned into bits then, which the invariant ties to the stage it has reached |
| Scheduling.TakeKeeps | src/spdk_NBFS/intel-ipsec-mb/mb_mgr_code.h:1787-1792 | a job a lane hands back lies in the window, is unfinished and in that lane's stage |
| Scheduling.LaneOfStage | src/spdk_NBFS/intel-ipsec-mb/mb_mgr_code.h:1787-1792 | the lane a job waits in sets the bit of the stage it waits for |
| Scheduling.EnterKeeps | src/spdk_NBFS/intel-ipsec-mb/mb_mgr_code.h:1853-1871 | opening the window for the next slot keeps the invariant, and that slot was free |
| Scheduling.HandBackKeeps | src/spdk_NBFS/intel-ipsec-mb/mb_mgr_code.h:1877-1892 | closing the window behind the finished oldest job keeps the invariant, and the job answers its submission: status, request and length |
| Scheduling.FillKeeps | src/spdk_NBFS/intel-ipsec-mb/mb_mgr_code.h:2003-2013 | writing the slot of GET_NEXT_JOB disturbs no job under way |
| Scheduling.BitLengthKeeps | src/spdk_NBFS/intel-ipsec-mb/mb_mgr_code.h:644-758 | the length rewrite of AES-CMAC changes no dispatch decision, no status and no support |
| Scheduling.EmptyRingEmptyLanes | src/spdk_NBFS/intel-ipsec-mb/mb_mgr_code.h:1867-1873 | no lane holds a job when the ring is empty |
| Scheduling.LoneJob | src/spdk_NBFS/intel-ipsec-mb/mb_mgr_code.h:1867-1873 | with one job under way, a busy lane means that job is unfinished, and no other can come back |
| Scheduling.HeldIsUnderWay | src/spdk_NBFS/intel-ipsec-mb/mb_mgr_code.h:1867-1892 | every job in a lane lies in the window [earliest, next) and is unfinished |
| Scheduling.FlushFindsWaitingJob | src/spdk_NBFS/intel-ipsec-mb/mb_mgr_code.h:1809-1833 | the flush of the stage a job waits in drains the very lane that holds it; the flush complete_job tries first is a custom one exactly for jobs that are not `Supported`, and then that stage is done |
| Scheduling.UnsupportedIsQueuedTwice | src/spdk_NBFS/intel-ipsec-mb/mb_mgr_code.h:1809-1833 | for every reachable ring and unfinished job under way: a turn of complete_job hands the job back as it is while a lane holds it, and its next stage queues it in that very lane, if and only if it is not `Supported` |
| Scheduling.UnsupportedIsAccepted | src/spdk_NBFS/intel-ipsec-mb/mb_mgr_code.h:846-1759 | validation accepts a job that is not `Supported`: a custom cipher ahead of HMAC-SHA1; `JobManager.CustomAheadOfLane` runs it |
| Scheduling.OrdinaryAnswer | src/spdk_NBFS/intel-ipsec-mb/mb_mgr_code.h:401-758 | a job that answers its submission, was not refused and uses no callback is COMPLETED; an accepted one comes back as submitted, but for an AES-CMAC length, which is 8 times the one given, modulo 2^64 |
| Scheduling.SupportedIff | src/spdk_NBFS/intel-ipsec-mb/mb_mgr_code.h:193-245 | exactly the jobs that are not `Supported`: an encryption by callback ahead of a queued hash, or a hash by callback ahead of a queued cipher |
| Scheduling.PendingUpdate | src/spdk_NBFS/intel-ipsec-mb/mb_mgr_code.h:1783-1833 | the total of unfinished stages changes by what one job's change contributes |
| Dispatch.FlushDrainsSubmitLane | src/spdk_NBFS/intel-ipsec-mb/mb_mgr_code.h:401-821 | for every job, the lane that submit queues it in is the lane that flush drains, in both stages; the only other flush of a lane is that of a short DOCSIS frame |
| Dispatch.AcceptedKeysAndCipher | src/spdk_NBFS/intel-ipsec-mb/mb_mgr_code.h:846-1759 | for an accepted job the "assume 32" branches are taken for 32-byte keys only and the "assume NULL" cipher branch for the NULL cipher only |
| Dispatch.CipherLaneServes | src/spdk_NBFS/intel-ipsec-mb/mb_mgr_code.h:401-606 | an accepted job queued in a cipher lane has that lane's mode, key length and direction, and a CRC if and only if the lane computes one |
| Dispatch.HashLaneServes | src/spdk_NBFS/intel-ipsec-mb/mb_mgr_code.h:644-758 | two jobs queued in the same hash lane have the same algorithm, the two forms of AES-CMAC being one |
| Dispatch.AcceptedPairs | src/spdk_NBFS/intel-ipsec-mb/mb_mgr_code.h:846-1759 | for an accepted job GCM goes with GMAC, CCM with its own hash and PON with its CRC, each both ways, and DOCSIS-CRC32 only with the DOCSIS cipher |
| Dispatch.AcceptedDefaultHashes | src/spdk_NBFS/intel-ipsec-mb/mb_mgr_code.h:748-821 | for an accepted job, exactly which algorithms reach the default branches of the hash submit and the hash flush |
| Dispatch.CipherLaneIff | src/spdk_NBFS/intel-ipsec-mb/mb_mgr_code.h:401-641 | exactly the accepted jobs that are queued in a cipher lane: by mode, key length, direction, CRC, what the build has, and for a DOCSIS frame its length |
| Dispatch.HashLaneIff | src/spdk_NBFS/intel-ipsec-mb/mb_mgr_code.h:644-821 | exactly the jobs that are queued in a hash lane: those of its algorithm, and the bit-counting AES-CMAC with the byte-counting one |
| Dispatch.OtherActions | src/spdk_NBFS/intel-ipsec-mb/mb_mgr_code.h:401-821 | exactly the jobs of the one-pass engines, of the callbacks, of the hashes done at once, and of the custom flushes |
| JobAccepted.AcceptedIff | src/spdk_NBFS/intel-ipsec-mb/mb_mgr_code.h:846-1759 | validation accepts exactly the requests that meet one table: per mode which buffers, IV and keys must be there and which lengths of key, IV and message are taken; per algorithm the source, the tag and its lengths; the pairs of modes and algorithms; and the particulars of each |
| JobAccepted.AcceptedCombinations | src/spdk_NBFS/intel-ipsec-mb/mb_mgr_code.h:846-1759 | some accepted job of either direction has a mode and an algorithm if and only if both are of the enumerations and they are paired |
| JobAccepted.AcceptedKeys | src/spdk_NBFS/intel-ipsec-mb/mb_mgr_code.h:401-606 | an accepted job has every key that its engine reads, but for exactly three cases: ECB decryption, PON with something to cipher, and a direction that is neither ENCRYPT nor DECRYPT |
| JobAccepted.UnreadKeys | src/spdk_NBFS/intel-ipsec-mb/mb_mgr_code.h:846-1759 | the verdict does not depend on a key that the engine does not read, ECB decryption apart |
| JobAccepted.EcbDecryption | src/spdk_NBFS/intel-ipsec-mb/mb_mgr_code.h:145-181 | an ECB decryption without the key it reads is accepted, and one with that key alone is refused |
| JobAccepted.AcceptedTag | src/spdk_NBFS/intel-ipsec-mb/mb_mgr_code.h:1435-1610 | the accepted tag of a plain hash is as long as the digest the SHA driver writes; that of a keyed one is that long or half of it, for SHA-1 96 bits |
| JobAccepted.AcceptedBlocks | src/spdk_NBFS/intel-ipsec-mb/mb_mgr_code.h:896-1240 | an accepted block cipher job has a positive number of whole blocks, an IV of one block, and its buffers |
| DdEngine.CopyDevice | src/spdk_NBFS/app/spdk_dd/spdk_dd.c:288-503 | a whole run, for every order of transfers and completions and an interrupt at any moment: it ends; the exit is signalled once if anything was started, else once per context; a run that ends with code 0, uninterrupted and without a failed transfer leaves the old output with exactly the copied bytes replaced; in every run without a failed transfer each output byte is the old one or the final one; the code is 0, -ENOMEM, or, only if `Accepts` fails, -EINVAL, and an uninterrupted run ends with code 0 only if it holds; a transfer overruns its buffer only if rounded lengths do not fit, and a run where they do not and none does fails without a byte written |
| DdEngine.FirstFetch | src/spdk_NBFS/app/spdk_dd/spdk_dd.c:435-503 | when rounded transfers do not fit, the first transfer is a fetch of the longest chunk: accepted, it overruns the buffer; refused, every context exits with the error, which is -ENOMEM unless the fetch is invalid |
| DdEngine.Drive | src/spdk_NBFS/app/spdk_dd/spdk_dd.c:288-433 | from the first I/O in flight to none: terminates, and signals the exit once, with the error so far, when nothing is outstanding |
| DdEngine.Engine.Start | src/spdk_NBFS/app/spdk_dd/spdk_dd.c:895-897 | after the start loop either something is outstanding and no exit was signalled, or each context has signalled one, which happens only for an empty copy or an error |
| DdEngine.Engine.Complete | src/spdk_NBFS/app/spdk_dd/spdk_dd.c:288-433 | each completion lowers the number of completions still to come, keeps the invariant and the count of I/Os in flight, and signals the exit exactly if nothing is outstanding |
| DdEngine.Engine.PopulateBuffer | src/spdk_NBFS/app/spdk_dd/spdk_dd.c:435-503 | an idle context claims the next chunk, reads it or fetches the blocks of a ragged one, or parks; the books balance in every branch, also when the submission is refused, which happens as invalid only if `Accepts` fails |
| DdEngine.Engine.ClaimAndFetch | src/spdk_NBFS/app/spdk_dd/spdk_dd.c:458-503 | a ragged chunk's blocks are fetched, or the submission is refused and the chunk lost |
| DdEngine.Engine.Lost | src/spdk_NBFS/app/spdk_dd/spdk_dd.c:493-502 | after a refused populate the position has moved on, the error is kept and the exit signalled if nothing is outstanding |
| DdEngine.Engine.TargetRead | src/spdk_NBFS/app/spdk_dd/spdk_dd.c:374-420 | the chunk goes on to its read or is given up with the exit rule kept |
| DdEngine.Engine.TargetWrite | src/spdk_NBFS/app/spdk_dd/spdk_dd.c:301-358 | the chunk goes on to its rounded write or is given up with the exit rule kept |
| DdEngine.Engine.Claim | src/spdk_NBFS/app/spdk_dd/spdk_dd.c:446-471 | the position moves on by the chunk, which is disjoint from all others in flight |
| DdEngine.Engine.Release | src/spdk_NBFS/app/spdk_dd/spdk_dd.c:288-299 | a finished write lets go of its chunk and lowers the completions to come |
| DdEngine.Engine.Refused | src/spdk_NBFS/app/spdk_dd/spdk_dd.c:348-357 | a refused submission records the error, gives up one chunk and signals the exit if nothing is outstanding |
| DdEngine.Engine.Perform | src/spdk_NBFS/lib/bdev/bdev.c:3634-3681 | the device carrying out one I/O keeps the invariant |
| DdEngine.Engine.Submit | src/spdk_NBFS/lib/bdev/bdev.c:3590-3626 | an accepted transfer is whole blocks within the device; -EINVAL only for one that is not, and otherwise 0 or -ENOMEM |
| DdEngine.Engine.Interrupt | src/spdk_NBFS/app/spdk_dd/spdk_dd.c:729-733 | the interrupt only withdraws the promise that nothing is given up |
| DdGrid.TakenClaim | src/spdk_NBFS/app/spdk_dd/spdk_dd.c:446-471 | claiming the next chunk: every chunk handed out before it is in flight or had all its transfers accepted as valid, and no other chunk starts inside it |
| DdGrid.TakenUpdate | src/spdk_NBFS/app/spdk_dd/spdk_dd.c:288-433 | a chunk going on to its next transfer, or let go after its last, keeps that account |
| DdGrid.AllTaken | src/spdk_NBFS/app/spdk_dd/spdk_dd.c:435-458 | everything handed out, nothing in flight and nothing given up means that no transfer of the copy was invalid |
| DdSteps.ClaimKeeps | src/spdk_NBFS/app/spdk_dd/spdk_dd.c:446-471 | claiming a chunk keeps chunks in flight side by side, inside the buffer after rounding, below the position |
| DdSteps.AdvanceKeeps | src/spdk_NBFS/app/spdk_dd/spdk_dd.c:301-433 | moving a chunk to its next transfer keeps the invariant |
| DdSteps.ReleaseKeeps | src/spdk_NBFS/app/spdk_dd/spdk_dd.c:288-299 | letting go of a written chunk leaves its bytes settled in the output |
| DdSteps.LoseKeeps | src/spdk_NBFS/app/spdk_dd/spdk_dd.c:460-502 | a chunk lost to a refused populate leaves the other chunks sound |
| DdSteps.FillKeeps | src/spdk_NBFS/app/spdk_dd/spdk_dd.c:467-490 | performing a populate or a read keeps the invariant: buffers hold the old tail and then the input bytes |
| DdSteps.WriteKeeps | src/spdk_NBFS/app/spdk_dd/spdk_dd.c:301-346 | performing a write keeps the invariant of every other chunk, of the settled bytes and of the bytes outside the copy |
| DdSteps.WrittenBytes | src/spdk_NBFS/app/spdk_dd/spdk_dd.c:301-346 | a write changes exactly the bytes of its chunk: the read-modify-write of a ragged last unit puts back every byte past the end |
| DdSteps.WrittenKeepsOutput | src/spdk_NBFS/app/spdk_dd/spdk_dd.c:301-346 | after a write every byte is old or final, its own bytes are final, and settled bytes stay |
| DdSteps.TailOutside | src/spdk_NBFS/app/spdk_dd/spdk_dd.c:462-471 | the rest of a rounded block lies past the end of the copy, in bytes that keep their old value |
| DdSteps.FinishedIsExact | src/spdk_NBFS/app/spdk_dd/spdk_dd.c:435-458 | everything handed out, nothing in flight and nothing given up means an exact copy |
| DdModel.RaggedIsLast | src/spdk_NBFS/app/spdk_dd/spdk_dd.c:446-471 | a chunk that is no whole number of blocks is the last one, and fits the buffer after rounding |
| DdModel.FitsIsExact | src/spdk_NBFS/app/spdk_dd/spdk_dd.c:305-305 | all rounded transfers fit the buffer exactly if the longest one does |
| DdModel.AcceptsIsExact | src/spdk_NBFS/lib/bdev/bdev.c:3590-3626 | no read, fetch or write of any chunk is refused as invalid if and only if the offsets, the unit and the end of the copy are on the block grids as `Accepts` says and the rounded end lies within the output |
| DdModel.RoundUpLaws | src/spdk_NBFS/app/spdk_dd/spdk_dd.c:305-305 | rounding never goes down, is the identity exactly on whole blocks, and is monotone |
| DdModel.CountsUpdate | src/spdk_NBFS/app/spdk_dd/spdk_dd.c:288-503 | I/Os in flight, completions to come and transfers to perform change by one context's share |
| DdModel.FlightZero | src/spdk_NBFS/app/spdk_dd/spdk_dd.c:288-503 | the count of I/Os in flight is 0 exactly if no context has one |
| DdPlan.PlanIsSound | src/spdk_NBFS/app/spdk_dd/spdk_dd.c:693-875 | the checks before the start keep the copy inside the input, start it inside the output, end it there if a count is given, and leave at least one context |
| DdPlan.PlanGoesIff | src/spdk_NBFS/app/spdk_dd/spdk_dd.c:796-875 | exactly the copies that go ahead: both offsets on their devices, a given count within both, and a unit of at least one block of each; anything but the last refused for want of space |
| DdPlan.DepthIs | src/spdk_NBFS/app/spdk_dd/spdk_dd.c:718-725 | the number of contexts is the least of what was asked for, the units left on either device plus one, and the count |
| DdPlan.ChecksDoNotImplyFit | src/spdk_NBFS/app/spdk_dd/spdk_dd.c:869-875 | the checks let through a unit of 768 bytes over 512-byte blocks, whose first transfer is a fetch of 1024 bytes that the device accepts and the buffer does not hold |
| DdPlan.WholeBlocksFit | src/spdk_NBFS/app/spdk_dd/spdk_dd.c:305-305 | a unit that is a whole number of output blocks always fits |
| DesBlock.BlockInverse | src/spdk_NBFS/intel-ipsec-mb/des_basic.c:413-460 | decrypt mode inverts encrypt mode and the reverse, for every block, key schedule and round function |
| DesBlock.EncDec1 | src/spdk_NBFS/intel-ipsec-mb/des_basic.c:413-460 | the sixteen assignments of either branch are the sixteen rounds with the subkeys in order or in reverse, between the two permutations |
| DesBlock.BlockIsDes | src/spdk_NBFS/intel-ipsec-mb/des_basic.c:381-460 | the algorithm of FIPS 46-3 for any round function, without the permutation code: from the halves whose bits the table of IP selects, through sixteen rounds, with the subkeys in order or in reverse, to a block of which that table selects the halves exchanged |
| DesBlock.IpSelects | src/spdk_NBFS/intel-ipsec-mb/des_basic.c:51-69 | ip_z is the bit selection IP of FIPS 46-3: each byte of a half gathers one bit of each byte of the block |
| DesBlock.RoundIsDes | src/spdk_NBFS/intel-ipsec-mb/des_basic.c:381-400 | fRK: window i of the half, XORed with six bits of byte i of the subkey, indexes table i, and the results are joined |
| DesBlock.FpInvertsIp | src/spdk_NBFS/intel-ipsec-mb/des_basic.c:49-69 | fp_z with its halves exchanged inverts ip_z, on both sides |
| DesBlock.PermutationsComplement | src/spdk_NBFS/intel-ipsec-mb/des_basic.c:49-69 | both permutations commute with complementing the block |
| DesBlock.RoundsUndo | src/spdk_NBFS/intel-ipsec-mb/des_basic.c:413-460 | the rounds with reversed subkeys on exchanged halves walk back, n rounds at a time |
| DesBlock.EncryptRounds | src/spdk_NBFS/intel-ipsec-mb/des_basic.c:422-438 | the unrolled encryption branch |
| DesBlock.DecryptRounds | src/spdk_NBFS/intel-ipsec-mb/des_basic.c:439-456 | the unrolled decryption branch |
| DesBlock.ExpandComplement | src/spdk_NBFS/intel-ipsec-mb/des_basic.c:74-99 | complementing a half and XORing its subkey with 0x3f in each byte leaves the table indices unchanged |
| DesBlock.EPhaseWindows | src/spdk_NBFS/intel-ipsec-mb/des_basic.c:71-99 | e_phase is the bit selection of FIPS 46-3: eight windows of six bits, a byte each, overlapping by two round the word |
| DesBlock.RoundsComplement | src/spdk_NBFS/intel-ipsec-mb/des_basic.c:381-460 | complemented halves and subkeys run through any number of rounds to the complemented halves |
| DesBlock.DesComplementation | src/spdk_NBFS/intel-ipsec-mb/des_basic.c:381-460 | XORing every subkey with 0x3f3f3f3f3f3f3f3f and complementing the block complements the result, in both directions and for any table contents |
| DesModes.DecryptEncrypt | src/spdk_NBFS/intel-ipsec-mb/des_basic.c:555-606 | one block of DES or 3DES is restored, both ways |
| DesModes.TripleIsSingle | src/spdk_NBFS/intel-ipsec-mb/des_basic.c:558-560 | 3DES with three equal schedules is DES on every block |
| DesModes.TripleOrder | src/spdk_NBFS/intel-ipsec-mb/des_basic.c:555-606 | 3DES enciphers with the first schedule, deciphers with the second and enciphers with the third, and undoes them in reverse; with the first two, or the last two, equal it is DES with the other one |
| DesModes.CbcIs | src/spdk_NBFS/intel-ipsec-mb/des_basic.c:462-612 | section 6.2 of NIST SP 800-38A block by block: each is XORed with the cipher block before it, the first with the IV, in both directions |
| DesModes.DocsisIs | src/spdk_NBFS/intel-ipsec-mb/des_basic.c:664-702 | the whole blocks are CBC, and each byte of the rest is XORed with its byte of the enciphered last cipher block, or of the enciphered IV |
| DesModes.CbcRoundTrip | src/spdk_NBFS/intel-ipsec-mb/des_basic.c:462-612 | CBC decryption undoes encryption on every number of blocks, for DES and 3DES |
| DesModes.CbcTripleIsSingle | src/spdk_NBFS/intel-ipsec-mb/des_basic.c:529-612 | 3DES-CBC with three equal schedules is DES-CBC, both ways |
| DesModes.DocsisRoundTrip | src/spdk_NBFS/intel-ipsec-mb/des_basic.c:664-750 | DOCSIS decryption of encryption is the identity for every number of bytes |
| DesInPlace.CbcEncrypt | src/spdk_NBFS/intel-ipsec-mb/des_basic.c:462-568 | the loop writes CBC of what the input held before the call, in place or not, and no byte beyond the whole blocks |
| DesInPlace.CbcDecrypt | src/spdk_NBFS/intel-ipsec-mb/des_basic.c:494-612 | the same for decryption, which keeps the cipher block before overwriting it |
| DesInPlace.CbcThereAndBack | src/spdk_NBFS/intel-ipsec-mb/des_basic.c:462-612 | encrypting and decrypting a buffer in place restores every byte, for DES and 3DES |
| DesInPlace.CfbOne | src/spdk_NBFS/intel-ipsec-mb/des_basic.c:614-662 | the one-, two- and four-byte steps are the bytewise XOR with the key stream, in place or not, and touch nothing else |
| DesInPlace.XorTwoBytes | src/spdk_NBFS/intel-ipsec-mb/des_basic.c:642-650 | the 16-bit XOR of the tail is two bytewise ones |
| DesInPlace.XorFourBytes | src/spdk_NBFS/intel-ipsec-mb/des_basic.c:652-657 | the 32-bit XOR of the tail is four bytewise ones |
| DesInPlace.KeyedMore | src/spdk_NBFS/intel-ipsec-mb/des_basic.c:636-650 | XORing the next bytes and shifting them out of the key stream goes on along the same key stream |
| DesInPlace.DocsisEncrypt | src/spdk_NBFS/intel-ipsec-mb/des_basic.c:664-702 | writes DOCSIS-DES of what the input held, in place or not, and no byte beyond the size |
| DesInPlace.DocsisDecrypt | src/spdk_NBFS/intel-ipsec-mb/des_basic.c:704-750 | the same for decryption, whose tail is keyed before the loop overwrites the last cipher block |
| DesInPlace.DocsisThereAndBack | src/spdk_NBFS/intel-ipsec-mb/des_basic.c:664-750 | encrypting and decrypting a buffer in place restores every byte, for every size |
| DesBytes.WordsOfBytes | src/spdk_NBFS/intel-ipsec-mb/des_basic.c:474-475 | words written to a byte buffer are read back |
| DesBytes.LittleEndian | src/spdk_NBFS/intel-ipsec-mb/des_basic.c:474-475 | the byte at address i of a word is its bits from 8i on |
| DesBytes.BytesOfWords | src/spdk_NBFS/intel-ipsec-mb/des_basic.c:474-475 | a buffer of whole words is the bytes of its words |
| DesBytes.Xor32Bytes | src/spdk_NBFS/intel-ipsec-mb/des_basic.c:652-657 | a 32-bit XOR is four 8-bit ones, least significant byte first |
| TraceRing.MaskIsModulo | src/spdk_NBFS/lib/event/app.c:907-912 | the start-up check accepts exactly the powers of two, which are exactly the sizes at which masking an index reduces it modulo the size |
| TraceRing.History.Record | src/spdk_NBFS/lib/trace/trace.c:50-83 | appends the entry to the log, with the clock's time for a zero stamp, and the ring still holds the latest entries of the log |
| TraceRing.EmitKeeps | src/spdk_NBFS/lib/trace/trace.c:69-82 | overwriting the slot of the next number keeps the ring a window on the log |
| TraceRing.RingSlice | src/spdk_NBFS/app/trace_record/trace_record.c:291-349 | any number of latest entries is one slice of the ring or two, by the two masked indices |
| TraceRecord.Recorder.Poll | src/spdk_NBFS/app/trace_record/trace_record.c:351-452 | every branch of a poll: nothing new, rollback with -1 and no change, or the last entries of the log appended in order with all counters; the wrong-use errors of the padding functions never occur |
| TraceRecord.Recorder.AppendFirst | src/spdk_NBFS/app/trace_record/trace_record.c:385-405 | the first poll appends what the ring has |
| TraceRecord.Recorder.AppendNew | src/spdk_NBFS/app/trace_record/trace_record.c:407-431 | a later poll appends the last min(gap, n) entries and reports the rest as missed |
| TraceRecord.Recorder.AppendPart | src/spdk_NBFS/app/trace_record/trace_record.c:418-430 | a partial update is appended in one piece or across the end of the ring |
| TraceRecord.Recorder.PaddingBackward | src/spdk_NBFS/app/trace_record/trace_record.c:291-310 | appends the slice, or refuses a wrong range |
| TraceRecord.Recorder.PaddingAcross | src/spdk_NBFS/app/trace_record/trace_record.c:312-342 | appends the two pieces, or refuses a wrong range |
| TraceRecord.Recorder.LastEntryIdx | src/spdk_NBFS/app/trace_record/trace_record.c:277-289 | finds the slot of the newest entry |
| TraceRecord.TakenIsWhatIsNew | src/spdk_NBFS/app/trace_record/trace_record.c:384-431 | a poll appends exactly min(gap, n) entries if and only if first_entry_tsc is nonzero, or nothing was seen before, or the gap is at least n |
| TraceRecord.ZeroStampRepeats | src/spdk_NBFS/app/trace_record/trace_record.c:384-405 | with a first time stamp of 0 the second poll appends what is already in the file |
| TraceRecord.PollKeeps | src/spdk_NBFS/app/trace_record/trace_record.c:351-452 | a poll keeps the file a duplicate-free, ordered part of the log that ends at the last entry seen, with counters and time stamps that match it |
| TraceRecord.RunFollows | src/spdk_NBFS/app/trace_record/trace_record.c:351-452 | for every interleaving of recording and polling: the file refines the log, rec_next_entry is the log length at the last poll, and the missed entries are exactly those overrun between polls |
| TraceRecord.NoGapIsContiguous | src/spdk_NBFS/app/trace_record/trace_record.c:407-431 | with no gap above n the file is one contiguous slice of the log ending at rec_next_entry |
| TraceRecord.ContiguousIffNothingMissed | src/spdk_NBFS/app/trace_record/trace_record.c:407-411 | the file is one contiguous slice exactly if nothing was missed |
| TraceRecord.Run | src/spdk_NBFS/app/trace_record/trace_record.c:351-452 | the ring and the recorder objects, through any sequence of events, end in the state of the functions above; no poll fails |
| TraceRead.Reader.PopulateEvents | src/spdk_NBFS/app/trace/trace.cpp:223-277 | enters the entries of the walk in the map and raises g_first_tsc to the walk's first time stamp if that is later |
| TraceRead.Reader.Circle | src/spdk_NBFS/app/trace/trace.cpp:264-274 | the loop around the ring terminates and visits exactly the walk from first to last |
| TraceRead.Reader.EldestAndLatest | src/spdk_NBFS/app/trace/trace.cpp:239-248 | the scan finds the first smallest and the first largest time stamp |
| TraceRead.Reader.CountFilled | src/spdk_NBFS/app/trace/trace.cpp:234-237 | the scan drops exactly the unwritten entries at the end |
| TraceRead.VisitedIffHolds | src/spdk_NBFS/app/trace/trace.cpp:223-277 | the walk visits every filled entry once, with nonzero stamps in increasing order, if and only if the ring holds a rotation of a strictly increasing sequence of stamped entries, or such a sequence followed by zeros |
| TraceRead.HoldsVisited | src/spdk_NBFS/app/trace/trace.cpp:223-277 | for such a ring the walk is that sequence |
| TraceRead.RingHolds | src/spdk_NBFS/lib/trace/trace.c:50-83 | what the producer leaves in its ring is of that form |
| TraceRead.FileHolds | src/spdk_NBFS/app/trace_record/trace_record.c:351-452 | what the recorder writes to its file is of that form and is read in file order |
| TraceRead.PutSorted | src/spdk_NBFS/app/trace/trace.cpp:54-69 | entering a key keeps the map ordered by time stamp and core |
| TraceRead.PutHas | src/spdk_NBFS/app/trace/trace.cpp:54-69 | entering a key replaces the entry of that key and keeps the others |
| TraceRead.Reader.Report | src/spdk_NBFS/app/trace/trace.cpp:426-456 | all cores or one are entered, and the last loop reports what is not older than g_first_tsc, by rising time stamp and, for equal ones, rising core |
| TraceRead.GatheredHas | src/spdk_NBFS/app/trace/trace.cpp:426-438 | after any number of cores the map has exactly their entries, in order |
| TraceRead.GatheredFirst | src/spdk_NBFS/app/trace/trace.cpp:254-262 | g_first_tsc is the largest first time stamp of the active cores |
| TraceRead.SinceHas | src/spdk_NBFS/app/trace/trace.cpp:450-456 | the report keeps the order and exactly the entries from g_first_tsc on |
| TraceRead.ReportIsExact | src/spdk_NBFS/app/trace/trace.cpp:426-456 | the report of all cores lists, by rising time stamp and for equal ones by rising core, exactly the entries not older than the first entry of any core |
| TraceRead.OneCoreIsExact | src/spdk_NBFS/app/trace/trace.cpp:440-456 | the report of one core lists all its entries in the order they were recorded |
| ShaDriver.Sha | src/spdk_NBFS/intel-ipsec-mb/sha_one_block.c:248-298 | for messages below 2^61 bytes and each of the five algorithms, whatever the compression function: the digest is the fold over the blocks of the padded message of FIPS 180-4, truncated and stored big-endian |
| ShaConstants.Sha256Init | src/spdk_NBFS/intel-ipsec-mb/constants.h:40-47 | section 5.3.3 of FIPS 180-4: word i of the initial state is the first 32 bits of the fraction of the square root of the i-th prime |
| ShaConstants.Sha512Init | src/spdk_NBFS/intel-ipsec-mb/constants.h:62-69 | section 5.3.5: 64 bits of the same |
| ShaConstants.Sha384Init | src/spdk_NBFS/intel-ipsec-mb/constants.h:51-80 | sections 5.3.4 and 5.3.2: 64 bits for the ninth to sixteenth prime, and for SHA-224 the low halves of those |
| ShaConstants.Sha1Init | src/spdk_NBFS/intel-ipsec-mb/constants.h:32-36 | section 5.3.1: the bytes 01, 23, ... ef and back, and f0, e1, d2, c3 |
| ShaConstants.ListedArePrime | src/spdk_NBFS/intel-ipsec-mb/constants.h:40-80 | the sixteen numbers used are primes |
| ShaConstants.OthersAreNot | src/spdk_NBFS/intel-ipsec-mb/constants.h:40-80 | and there are no others up to the last of them |
| ShaConstants.SizesAgree | src/spdk_NBFS/intel-ipsec-mb/sha_one_block.c:248-298 | a block is sixteen words and the length field two, and the digests have 160, 224, 256, 384 and 512 bits |
| ShaDriver.DigestAt | src/spdk_NBFS/intel-ipsec-mb/sha_one_block.c:90-110 | word i of the digest is stored most significant byte first |
| ShaPad.PaddedForm | src/spdk_NBFS/intel-ipsec-mb/sha_one_block.c:273-285 | byte by byte: the message, 0x80, zeros up to the length field, and there the number of bits of the message |
| ShaDriver.ShaGeneric | src/spdk_NBFS/intel-ipsec-mb/sha_one_block.c:248-286 | for every length the block loop and the one- or two-block tail fold the compression function over the encoded message |
| ShaDriver.WholeBlocks | src/spdk_NBFS/intel-ipsec-mb/sha_one_block.c:270-271 | the loop folds over the whole blocks and stops at the remainder |
| ShaDriver.FillTail | src/spdk_NBFS/intel-ipsec-mb/sha_one_block.c:273-277 | the buffer holds the remainder, 0x80 and zeros |
| ShaDriver.PutLength | src/spdk_NBFS/intel-ipsec-mb/sha_one_block.c:285-285 | the bit length, modulo 2^64, goes big-endian into the last eight bytes of the block |
| ShaDriver.EncodedBlocks | src/spdk_NBFS/intel-ipsec-mb/sha_one_block.c:268-286 | the encoded message ends in one block of the buffer or in two, decided by the remainder |
| ShaDriver.Bswap4Stores | src/spdk_NBFS/intel-ipsec-mb/sha_one_block.c:57-64 | storing a swapped 32-bit word puts its bytes most significant first |
| ShaDriver.Bswap8Stores | src/spdk_NBFS/intel-ipsec-mb/sha_one_block.c:66-77 | the same for 64-bit words |
| ShaDriver.Store8Be | src/spdk_NBFS/intel-ipsec-mb/sha_one_block.c:73-77 | writes exactly the eight big-endian bytes |
| ShaDriver.VarMemcpy | src/spdk_NBFS/intel-ipsec-mb/sha_one_block.c:79-88 | copies the bytes and nothing else |
| ShaDriver.CopyBswap4 | src/spdk_NBFS/intel-ipsec-mb/sha_one_block.c:90-99 | the digest bytes of 32-bit words, most significant first |
| ShaDriver.CopyBswap8 | src/spdk_NBFS/intel-ipsec-mb/sha_one_block.c:101-110 | the digest bytes of 64-bit words, most significant first |
| ShaPad.EncodedIsPadded | src/spdk_NBFS/intel-ipsec-mb/sha_one_block.c:275-285 | the driver's encoding is the padding of sections 5.1.1 and 5.1.2 of FIPS 180-4: always for the 64-bit length field, for the 128-bit one if and only if the message is below 2^61 bytes |
| ShaPad.PaddingIsMinimal | src/spdk_NBFS/intel-ipsec-mb/sha_one_block.c:273-285 | no shorter padding reaches a whole number of blocks |
| ShaPad.PaddingIsInjective | src/spdk_NBFS/intel-ipsec-mb/sha_one_block.c:273-285 | messages within the length limit of the standard are told apart by their padded forms |
| HashTable.Run | src/NBFS2/hash_table.h:236-372 | every sequence of insertions and removals keeps the links, the count of occupied primary slots and chains of at most two nodes, and leaves the bindings of the model; it is carried out in full exactly if no removal comes to a key behind the head of its chain, and stops at the first that does |
| HashTable.Table.Insert | src/NBFS2/hash_table.h:236-279 | the linked table after an insertion is the model's, and the branch for a full table is never taken |
| HashTable.Table.HandleCollision | src/NBFS2/hash_table.h:216-234 | the chain gets the new node as linkedlist_insert links it, and no other bucket changes |
| HashTable.LinkedListInsert | src/NBFS2/hash_table.h:78-111 | a list of one node is extended; from two nodes on the new node takes the place of the last |
| HashTable.Table.Search | src/NBFS2/hash_table.h:281-300 | the first binding of the key in primary slot and chain, or nothing |
| HashTable.Table.Delete | src/NBFS2/hash_table.h:302-372 | the linked table after a removal of any key is the model's: primary slot emptied, or refilled from the chain, or the whole chain dropped when the key heads it; a node is freed that stays linked exactly if the key comes first behind the head of the chain, and then nothing is unlinked |
| HashTable.Table.Unlink | src/NBFS2/hash_table.h:357-365 | the unlinking from `prev`, which is the node itself by then, changes no link |
| HashTable.ThirdDangles | src/NBFS2/hash_table.h:346-371 | three keys of one bucket inserted and the third removed: its node is freed and stays linked |
| HashTable.HashOf | src/NBFS2/hash_table.h:63-69 | the 64-bit wrapping sum modulo 65536 is the sum of the signed characters modulo 65536 |
| HashModel.HashIs | src/NBFS2/hash_table.h:63-69 | the bucket of a name is the sum of its bytes, less 256 for each one above 127, modulo 65536 |
| HashModel.InsertEffect | src/NBFS2/hash_table.h:236-279 | what every search finds after an insertion |
| HashModel.InsertKeepsOthers | src/NBFS2/hash_table.h:236-279 | an insertion changes no other key's answer if and only if the bucket's chain has fewer than two nodes, or the key is the primary one or the last one of the chain, or the last node is shadowed |
| HashModel.FourthLosesThird | src/NBFS2/hash_table.h:99-110 | four keys of one bucket: inserting the fourth makes the third unfindable |
| HashModel.InsertVisible | src/NBFS2/hash_table.h:236-300 | a search finds the inserted value if and only if the key was new, primary, bound to that value already, or bound by the node that is replaced |
| HashModel.LookupInserted | src/NBFS2/hash_table.h:236-300 | the same for one bucket: its bindings but possibly the last, and the new one |
| HashModel.DeletePrimary | src/NBFS2/hash_table.h:302-341 | removing a primary key changes no other answer and leaves the key unbound exactly if it was bound once |
| HashModel.DeleteAbsent | src/NBFS2/hash_table.h:302-312 | removing an unbound key changes nothing |
| HashModel.DeleteKeepsOthers | src/NBFS2/hash_table.h:302-372 | a removal keeps every other answer if and only if the key, where it heads a chain, is alone in it but for repetitions of itself and of the primary key |
| HashModel.DeleteTakesNext | src/NBFS2/hash_table.h:346-356 | three keys of one bucket: removing the second makes the third unfindable |
| HashModel.DeleteLoses | src/NBFS2/hash_table.h:302-372 | a removal takes a findable key out of the table, whether it is the key asked for or not, if and only if the key is the one asked for, is primary and is not repeated, or the key asked for heads the chain and the primary key is another |
| HashModel.OperationsShort | src/NBFS2/hash_table.h:78-111 | insertions and removals keep every chain at two nodes or fewer |
| HashModel.InsertHomed | src/NBFS2/hash_table.h:236-279 | every binding stays in the bucket of its key |
| HashModel.OccupiedUpdate | src/NBFS2/hash_table.h:259-260 | the number of occupied primary slots changes by what one bucket contributes |
| HashModel.OccupiedAll | src/NBFS2/hash_table.h:246-256 | an empty primary slot means the table is not full |
| MetaFile.Reload | src/NBFS2/NBFS2.c:218-326 | writing a table out into a buffer of the size given and building it again: the records overrun the buffer exactly if they are more bytes than that; otherwise every bucket comes back exactly if its chain has at most two nodes, does not repeat its primary key, and its values are texts of ids |
| MetaFile.WriteTable | src/NBFS2/NBFS2.c:230-265 | the records are the bindings bucket by bucket, primary slot first, and the data size counts them; the copying overruns the buffer exactly if all records together are longer |
| MetaFile.WriteBucket | src/NBFS2/NBFS2.c:235-262 | the records of one occupied bucket, in the order of its chain, behind those already in the buffer, which it overruns exactly if they do not fit |
| MetaFile.BuildTable | src/NBFS2/NBFS2.c:305-322 | the table after inserting the records one by one, as many as the data size says |
| MetaStore.SaveReload | src/NBFS2/NBFS2.c:230-322 | saving and rebuilding is the identity on tables if and only if every bucket is reloadable |
| MetaStore.DistinctKeysReload | src/NBFS2/NBFS2.c:230-322 | a table of short chains with distinct keys and id texts is rebuilt as it was, whatever operations made it |
| MetaStore.RepeatedKeyIsMerged | src/NBFS2/NBFS2.c:230-322 | a reachable table with a repeated key that is not rebuilt as it was |
| FileSystem.Live | src/NBFS2/NBFS2.c:66-326 | any sequence of creations, deletions and remounts, with any names and any ids of the blobstore: the linked table and the counter follow the model through every event up to the first that does not go through, at a remount exactly if the records are longer than the buffer |
| FileSystem.UnloadFitsIff | src/NBFS2/NBFS2.c:66-292 | the records fit the buffer at unload if and only if the deletions since the load are at most the records spared since then: creations that rebound a primary key or took the place of the last node of a full chain, bindings that a deletion dropped, and records merged by the load; if no file is named by the text of a deleted one, those creations alone |
| FileSystem.Balance | src/NBFS2/NBFS2.c:66-292 | for any names: the data size is the length of the records, plus one record for each one spared since the load and less one for each deletion |
| FileSystem.ApartSpares | src/NBFS2/NBFS2.c:66-326 | no file being named by the text of a deleted one, only creations spare a record: deletions drop none, and loading merges none |
| FileSystem.NextGoes | src/NBFS2/NBFS2.c:66-326 | no file being named by the text of a deleted one: a deletion of a file found never leaves a freed node linked, and a remount goes through exactly if the deletions since the load are at most the creations that added no record |
| FileSystem.CreationsFit | src/NBFS2/NBFS2.c:135-292 | where nothing is ever deleted the records fit at every unload, and every remount gives the table back, whatever names are used |
| FileSystem.LifeKeepsFiles | src/NBFS2/NBFS2.c:66-326 | through every creation, deletion and remount that goes through, the table is the one the creations alone make, no file being named by the text of a deleted one |
| FileSystem.SizeCounts | src/NBFS2/NBFS2.c:66-158 | the unsigned data size never wraps below zero: it leaves room for a record of every blob that can still be deleted |
| FileSystem.DeletedOverruns | src/NBFS2/NBFS2.c:66-292 | a file created in a new file system and deleted: it is still found, and the next unload overruns its buffer, both exactly unless its name is the text of its id |
| FileSystem.ErasedIffDropped | src/NBFS2/NBFS2.c:66-105 | a deletion takes its own file out of the table if and only if the removal of the text of its id makes the table drop the file's bindings |
| FileSystem.RecordsAdded | src/NBFS2/NBFS2.c:135-158 | a creation adds one record to the table exactly if it neither rebinds a primary key nor meets a full chain |
| MetaStore.RefilledIff | src/NBFS2/NBFS2.c:305-322 | the same for one bucket |
| MetaStore.BuildSaved | src/NBFS2/NBFS2.c:230-322 | the rebuilt table is the records of each bucket inserted into that bucket alone |
| MetaStore.IdRoundTrip | src/NBFS2/id_and_char.h:5-12 | a 64-bit blob id survives sprintf with 0x%016x and strtoull |
| MetaStore.TextIs | src/NBFS2/id_and_char.h:5-12 | the text of an id is 0x and sixteen digits in lower case, digit i from the right having the value of its place |
| AbiScript.RewriteTwice | src/spdk_NBFS/dpdk/devtools/update_version_map_abi.py:161-202 | running the script on its own output changes nothing if and only if there was no stable section or the ABI number is in ASCII digits |
| AbiScript.Rewrite | src/spdk_NBFS/dpdk/devtools/update_version_map_abi.py:186-202 | the writers in the order of the main program, on the sorted stable names; of the file written, the linker reads first, if there is a stable section, one node of the new version in which exactly the functions collected are visible |
| AbiLinker.StableLinked | src/spdk_NBFS/dpdk/devtools/update_version_map_abi.py:107-128 | to the linker the stable section is one node, whose name is the new version, that lists exactly the names given as global and makes all others local |
| AbiLinker.GeneratedLinked | src/spdk_NBFS/dpdk/devtools/update_version_map_abi.py:186-202 | in the whole file that node is the first |
| AbiRegex.NamedIff | src/spdk_NBFS/dpdk/devtools/update_version_map_abi.py:18-34 | section_begin_regex and func_line_regex: a line is matched with a name exactly if it is white space, that name, white space, the brace or semicolon, white space |
| AbiRegex.EndIff | src/spdk_NBFS/dpdk/devtools/update_version_map_abi.py:35-45 | section_end_regex likewise, with an optional version |
| AbiRegex.StripIs | src/spdk_NBFS/dpdk/devtools/update_version_map_abi.py:60-62 | strip removes white space at both ends and nothing else |
| AbiRewrite.SectionParsed | src/spdk_NBFS/dpdk/devtools/update_version_map_abi.py:58-104 | any section of a file: of an experimental or internal one the parser collects the lines as they are but for white space at their ends, of any other one the functions named, and that there is a stable section |
| AbiRewrite.BeforeIff | src/spdk_NBFS/dpdk/devtools/update_version_map_abi.py:118-118 | the order of the names: the smaller character where they first differ, or the common beginning |
| AbiScript.ParseMapFile | src/spdk_NBFS/dpdk/devtools/update_version_map_abi.py:17-104 | the loop computes the fold of one step per line |
| AbiScript.GenerateStable | src/spdk_NBFS/dpdk/devtools/update_version_map_abi.py:107-128 | the lines of the stable section |
| AbiScript.GenerateVerbatim | src/spdk_NBFS/dpdk/devtools/update_version_map_abi.py:131-159 | the lines of the experimental or internal section |
| AbiScript.Sorted | src/spdk_NBFS/dpdk/devtools/update_version_map_abi.py:118-118 | the sorted list of a set |
| AbiRewrite.Reparsed | src/spdk_NBFS/dpdk/devtools/update_version_map_abi.py:17-159 | parsing the generated text gives back the verbatim lines, the stable names if there was a stable section, and that section if its number is in ASCII digits |
| AbiRewrite.RewriteIsIdempotent | src/spdk_NBFS/dpdk/devtools/update_version_map_abi.py:17-202 | generating from what was parsed from the generated text gives the same text, under exactly that condition |
| AbiRewrite.ForeignDigitsLoseSection | src/spdk_NBFS/dpdk/devtools/update_version_map_abi.py:179-192 | with the number in Arabic-Indic digits the second run no longer sees the stable section |
| AbiRewrite.StableParsed | src/spdk_NBFS/dpdk/devtools/update_version_map_abi.py:107-128 | the generated stable section reads back as its names |
| AbiRewrite.VerbatimParsed | src/spdk_NBFS/dpdk/devtools/update_version_map_abi.py:131-159 | a generated experimental or internal section reads back line by line |
| AbiRewrite.ForeignHeaderStep | src/spdk_NBFS/dpdk/devtools/update_version_map_abi.py:28-33 | a section header with digits of another script is not recognised |
| AbiRewrite.ParseClean | src/spdk_NBFS/dpdk/devtools/update_version_map_abi.py:58-102 | what the parser collects are function names and stripped lines that end no section |
| AbiRewrite.SortedOnce | src/spdk_NBFS/dpdk/devtools/update_version_map_abi.py:118-118 | a set of names has one sorted list |

## Left out

- Job manager: what the lanes and the SIMD kernels compute, lane capacities and which job a lane picks; a job's data is never looked at.
- Job manager: the NULL-state guards of the SAFE_PARAM build, register saving, and sizeof(IMB_JOB) other than the 184 bytes of an LP64 target.
- JobManager.Run: does not say what a lane makes of a job that is submitted to it twice, which its contract leaves open; the run stops in front of that call. A callback is known by its return code only.
- Job manager: pointer and length fields are unbounded naturals; unions of a byte and a bit length are one field.
- spdk_dd: files (AIO, io_uring), progress output, option parsing, a copy from a device to itself, and the 64-bit wrap of offsets.
- DdEngine.CopyDevice: stops at a transfer that is longer than its buffer, which the checks of dd_run do not exclude; what a real device then does is not modelled.
- DdEngine.CopyDevice: promises nothing about the data once a transfer has failed on the device, because the completion callbacks ignore their success argument.
- Tracing: short writes in cont_write, a producer that overwrites the ring during a poll, the per-tracepoint counters, the aggregation of the files, the 32-bit width of ring indices in the recorder, and the 64-bit wrap of entry counts.
- TraceRecord.RunFollows: requires time stamps other than 0; TraceRecord.ZeroStampRepeats shows what happens otherwise.
- Trace reader: how an event is printed; the mapped file is a sequence, not an array.
- DES: the contents of the S-box tables and of key schedules are parameters; the key expansion and the clearing of temporaries are not modelled, nor are buffers that overlap without being the same.
- SHA: the compression functions are a parameter; words are numbers, and `|` of disjoint fields is addition.
- ShaDriver.Sha: states nothing for messages of 2^61 bytes and more; ShaDriver.ShaGeneric covers every length with the length field as the code computes it.
- HashTable.Table.Delete: says which removals free a node that stays linked, but not what the freed memory holds afterwards; HashTable.Run stops there.
- Hash table: the uninitialised `next` of a first chain node is taken to be null; freeing and leaking of items, the overflow of a longer value copied over a shorter one, and printing are not modelled.
- Super blob: a record is an id and a name; its 136 bytes in the buffer, names beyond 127 characters, extended attributes and the blobstore's callbacks are not modelled; neither is a data size of 2^64 bytes.
- FileSystem.Live: the data size of a new file system is taken to be 0, which main does not set; stops at an unload that overruns its buffer, and says nothing of the bytes beyond it; requests are made one after the other.
- FileSystem.LifeKeepsFiles: not for a file named by the text of the id of a deleted one; FileSystem.Live, FileSystem.UnloadFitsIff and FileSystem.ErasedIffDropped cover those lives as well.
- MetaStore.Char2Id: strtoull without leading white space or sign, which the texts written by blobid2char do not have.
- Map files: a file is its lines; argument parsing and the encoding of the file are not modelled.
- AbiLinker.Link: of the linker's syntax only what stands alone on a line: a header, labels, a symbol, the wildcard and the end of a node; the verbatim sections are not read for visibility.
- Other metadata structures (the B+ tree), RPC, user interfaces, build scripts and application mains.
