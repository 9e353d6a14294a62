# Verified model of the xclone2 trash-bin modules

The repository adds a system call to a Linux kernel that moves files into a trash bin, plain,
encrypted, compressed, or both, synchronously for small files and through a work queue for
large ones.  This project models the four parts that carry the logic and proves what they are
for:

- **The work queue** (`sys_xclone2async.c`): any number of requests (producer threads), any
  number of consumer threads, any capacity and throttle, one mutex, `wq_size`, `t_producers`,
  two wait queues.  `QueueModel` is a transition system whose steps are single accesses to
  shared state, but for finding and unlinking the first entry under the mutex; list update,
  counter update and wake-up, throttle test and throttle increment, reading and writing a page
  are separate steps.  `QueueSafety` proves what every reachable state satisfies (early returns of `wait_event_interruptible`
  included), `QueueProgress` that every run without them ends and where it ends, `QueueReturns`
  with what each request returns and why, `QueueFiles`
  that the concurrent page-by-page copies amount to running `processunlink` on the jobs one
  by one in queue order, whatever transfers fail, `QueueNames` that the trash names provide the
  distinct paths which that needs, and `JobList` that the ring of linked nodes is the sequence
  the queue model uses.  `QueueAsWritten` shows what each of the two missing locking steps does
  with every other repair in force, and what happens with both missing.
- **Moving, encrypting and compressing files** (`sys_xclone2.c`, `sys_xclone2_myorg.c`):
  loops over byte arrays on a small file system (`FileSystem.Disk`: read at an offset,
  overwrite at an offset without truncation, create, unlink).  Each loop is proved against a
  function that gives its outcome for every size, every short or failing write and every
  wrap-around of a position (`MovePages`, `EncryptFiles`, `CompressFiles`, `Pipeline`,
  `CompressAndBack`).  The formats and their round trips are in `Encryption` and `Framing`;
  `EncryptLoss`, `CompressLoss`, `PackedMove` and `PipelineLoss` say when what a loop leaves is what
  the format asks for, and when data is lost; `Outcomes` what each call returns and leaves
  whichever step fails, and over older files; `ShortWrites` what a write that is not complete does to
  everything written after it.  The disk keeps a ghost log of every state the files go
  through, about which recoverability is proved.
- **Names in the trash bin** (all handlers): building, reading back, and when two collide.
- **The common prefix of two files** (`read_write.c`).

AES is any permutation of the 16-byte blocks (`Encryption.Cipher`), deflate any partial
function with an inverse and a page of output (`Framing.Deflate`).  Padding is that of
section 6.3 of RFC 5652, chaining CBC of section 6.2 of NIST SP 800-38A, from the same
initialization vector in every chunk.  `int` variables that can overflow are wrapped to 32
bits (`Bytes.Wrap32`).

## Repairs

The model follows the code except for these repairs; where the unrepaired behaviour has been
analysed the module is named.

| repair | lines |
|---|---|
| the insert unlocks the mutex on every exit (without it: `QueueAsWritten.NoJobEverTaken`) | sys_xclone2async.c:413-422 |
| the producer locks the mutex again after waiting | sys_xclone2async.c:402-403 |
| the throttle test and increment come before the unlock | sys_xclone2async.c:398-401 |
| the consumer locks again after waiting and tests again, in a loop (without it: `QueueAsWritten.TwoConsumersInside`, `QueueAsWritten.SizeBelowZero`; without both: `QueueAsWritten.WaitingConsumerFrees`) | sys_xclone2async.c:291-297 |
| the first entry is taken, or none; the loop has a stray semicolon (as written: `JobList.WorkList.ProcessItemAsWritten`) | sys_xclone2async.c:45-46 |
| the exit path drains the list; its loop has the same semicolon | sys_xclone2async.c:571-577 |
| the consumer takes the flags from the job, and has an argument structure | sys_xclone2async.c:283, 321-329 |
| the compressed length, not `sizeof(buff4)`, is written (as written: `AsWrittenFraming`) | sys_xclone2.c:691, sys_xclone2_myorg.c:119 |
| the write position advances by header and payload | sys_xclone2.c:702, sys_xclone2_myorg.c:130 |
| the reader consumes header and payload, and a malformed or cut-off header is an error | sys_xclone2_myorg.c:154-167, 196 |
| the source is kept, and the error returned, when compressing it failed (as written: `Framing.FailureLosesIff`) | sys_xclone2.c:807-814, 940-947 |
| the index is tested before the byte, and buffers start zeroed | read_write.c:47-48, 66 |

## Where the code and its documentation differ

The code was followed.  The name of a file that is compressed and encrypted ends in
`.enc.cmp` although compression runs first, so it is to be decrypted and then unpacked
(sys_xclone2.c:930-940).  README.txt of the repository says that the work queue serves compression and
encryption of large files too; its consumers only move files, and other requests return
without being queued (sys_xclone2async.c:456-472).

## What turned out false

- No call acts on a short write as a failure.  A move into a fresh trash file loses data exactly if
  the first fault is a short write: the loop ends and the source is unlinked all the same
  (`MovePages.MoveLosesIff`, and for the queue `QueueFiles.AcceptedFileLostIff`).  What an
  encrypting call leaves in a fresh trash file is the ciphertext exactly if every write was
  complete (`EncryptLoss.MoveIntactIff`); what a compressing call leaves is the packed file, or
  its ciphertext, exactly if every write was complete and the source has less than 2^31 bytes
  (`PackedMove.PackedMoveIntactIff`, `PipelineLoss.BothIntactIff`; headers supposed complete, see
  `CompressLoss.ShortHeaderUnnoticed`).  The call returns 0 and the source is gone in any case.  What a write
  that falls short or fails does to the writes after it is in `ShortWrites`: they follow right behind,
  or land on what was already written.  On a
  device that takes nothing any more once a write has fallen short, the data is then lost for
  certain (`EncryptLoss.MoveLosesIffShort`, with `EncryptLoss.MoveLosesOneChunkIff` and
  `EncryptLoss.FullDeviceLoses` as special cases, and `PackedMove.PackedMoveLosesIff`);
  compress-then-encrypt loses everything on a full device (`PipelineLoss.FullDeviceLosesBoth`).
- Sizes and positions are kept in an `int`.  Without faults a move is complete exactly up to 2^31
  bytes (`MovePages.MoveWithoutFaults`); an encrypted file is recoverable exactly up to 2^19 * 4080
  bytes (`EncryptLoss.RecoverableIffFits`, `EncryptLoss.MoveLosesIffLarger`): the write after
  that is refused, and the one after it lands 22 bytes before the end of the ciphertext, for the
  error code -22 has been added to the position (`ShortWrites.OneIncompleteWrite`).  A compressed file, encrypted or not, is
  recoverable only below 2^31 bytes (`PackedMove.PackedMoveRecoverableIff`,
  `PipelineLoss.BothRecoverableIff`): of a source of 2^31 up to 2^32 bytes nothing is read
  (`Encryption.SeenMeaning`).
- A move returns 0 with the source still in place exactly if the trash file opens and the first
  fault is a failing read (`MovePages.SuccessKeepsSourceIff`).
- A frame reads back exactly if its payload has at most 999 bytes (`Framing.FrameExact`).  A
  file comes back from its packed form exactly if all its blocks do, given that the start of a
  compressed block that the header of a longer one counts does not decompress, as is so for
  deflate (`Framing.RoundTripIffFits`, `Pipeline.PipelineIffFits`); `Framing.LongBlockBreaks` is an
  example.  Called on a file with a longer block, both compressing calls lose it
  (`PackedMove.PackedMoveRecoverableIff`, `PipelineLoss.BothRecoverableIff`).
- Files are opened without truncation, so an older, longer file leaves a tail behind.  What
  is recovered then is settled exactly by `Framing.StalePackExact` and
  `Encryption.StaleCipherExact`, and for the calls by `Outcomes.EncryptOver`, `Outcomes.CompressOver` and
  `Outcomes.BothOver`; `Framing.StaleTailBreaks` is an example.
- Compress-then-encrypt called on `temp.txt` loses it: the file is compressed over itself,
  unlinked, and cannot be reopened (`PipelineLoss.TempAsSource`).  The condition is that the
  source is another file (`PipelineLoss.RecoverableIffNotTemp`).
- The handler that compresses and decompresses again loses the error of the first loop: a file with a
  block that cannot be compressed comes back cut off, with no error (`CompressAndBack.BackCutOff`).
- A trash name reads back exactly if the path has no `[` and no suffix that the operation
  could have added (`TrashName.NameExact`; collisions in `TrashName.NamesCollide`).

## Model

| member | source | states |
|---|---|---|
| QueueSafety.MutualExclusion | sys_xclone2async.c:289-314 | After any run at most one thread is between lock and unlock |
| QueueSafety.SizeAccounting | sys_xclone2async.c:289-420 | `wq_size` is the list length, plus one while a consumer has unlinked but not decremented, minus one while a producer has linked but not incremented; it stays between 0 and the capacity; a consumer that found it positive finds an entry |
| QueueSafety.FifoExactlyOnce | sys_xclone2async.c:40-58 | Jobs taken, then jobs still listed, are the jobs inserted in order of insertion; no job twice; each inserted job is queued, in the hand of one consumer, or processed, exactly one of these |
| QueueSafety.NoLostWakeUp | sys_xclone2async.c:291-312 | A sleeping consumer with jobs counted means some producer still has its `wake_up_all` ahead, and a sleeping producer with room in the queue means some consumer has |
| QueueSafety.ThrottleBound | sys_xclone2async.c:396-410 | `t_producers` is the number of producers between increment and decrement and is at most `max_producers` + 1 |
| QueueSafety.RefusedOnlyWhenFull | sys_xclone2async.c:396-408 | A producer goes to the throttle test if and only if the queue is full, and is refused there if and only if the queue is still full and the throttle bound is reached (over whole runs: `QueueReturns.RefusedIff`) |
| QueueSafety.RunInv | sys_xclone2async.c:278-424 | The conjunction of all these, with ownership of the mutex, holds after any run |
| QueueSafety.StepKeepsInv | sys_xclone2async.c:278-424 | Each single step of any thread, early returns included, keeps the invariant |
| QueueProgress.StepFalls | sys_xclone2async.c:278-473 | Every step that is no early return makes a well-founded measure fall: fewer events ahead, or as many and the threads closer to a stop |
| QueueProgress.RunMeasure | sys_xclone2async.c:278-473 | Length of a run plus the measure left never exceeds the initial measure |
| QueueProgress.RunsEnd | sys_xclone2async.c:278-473 | No run without early returns is longer than a limit known from the number of requests, the number of consumers and the longest file |
| QueueProgress.StopsOnlyWhenDone | sys_xclone2async.c:278-473 | A run can only stop with the mutex free, the list empty, both counters zero, every consumer asleep, every producer returned, and every accepted job processed exactly once |
| QueueReturns.RefusedIff | sys_xclone2async.c:396-424 | At any point of any run, early returns included, a request is on its way out refused if and only if it once found the queue full and every place to wait taken, and on its way out without memory if and only if its allocation failed: having waited costs no request its place |
| QueueReturns.StoppedRunSettles | sys_xclone2async.c:390-473 | When a run has stopped, each request has returned: invalid exactly if the argument or the name is missing, unqueued exactly if it is then no move, refused or without memory exactly by those events, and otherwise accepted, which is exactly when its job has been processed |
| QueueReturns.MoveBits | sys_xclone2async.c:441-456 | A request is a move exactly if all bits of the flag are set, whichever others are |
| QueueFiles.ConcurrentIsSequential | sys_xclone2async.c:211-250 | With paths pairwise distinct, whenever no job is in hand the files are what running the whole move on the jobs taken, one after another in queue order, makes of them, for every pattern of failing and short transfers |
| QueueFiles.StoppedRunMovedAll | sys_xclone2async.c:314-356 | The same for all accepted jobs, in insertion order, when a run has stopped |
| QueueFiles.AcceptedFileMoved | sys_xclone2async.c:202-250 | After a stopped run the two files of an accepted request are what moving it alone would have left |
| QueueFiles.AcceptedFileLostIff | sys_xclone2async.c:211-241 | An accepted request with a fresh trash file loses its data if and only if the first fault of its move is a short write |
| QueueFiles.JobIsMine | sys_xclone2async.c:299-354 | A job in hand is an accepted move, not processed, and no other consumer has it |
| QueueFiles.StageAdvances | sys_xclone2async.c:202-247 | Each step of a consumer keeps its copy on the way to what the whole copy ends in, and finishing leaves exactly that |
| QueueAsWritten.NoJobEverTaken | sys_xclone2async.c:390-424 | With only the unlock missing, no run takes a job, and no run inserts a second one |
| QueueAsWritten.OneRequestDeadlocks | sys_xclone2async.c:412-422 | With the unlock missing, one request accepted before any consumer waits leads to a state in which no thread can move and the job is still listed |
| QueueAsWritten.TwoConsumersInside | sys_xclone2async.c:291-299 | With only the second locking of the consumer missing, one request brings both consumers to the list at the same time, with nobody holding the mutex |
| QueueAsWritten.SizeBelowZero | sys_xclone2async.c:291-308 | Without that locking, one request and one early return make `wq_size` -1 |
| QueueAsWritten.WaitingConsumerFrees | sys_xclone2async.c:291-314 | With neither repair, a consumer that was waiting takes the job while the request that has returned holds the mutex, and frees it |
| QueueNames.NamesAreDistinct | sys_xclone2async.c:167-202 | Requests for different files outside the trash bin whose paths have no `[` have pairwise distinct source and trash paths |
| JobList.WorkList.constructor | sys_xclone2async.c:370-376 | The list starts as the closed ring of the sentinel alone |
| JobList.WorkList.AddTail | sys_xclone2async.c:419 | Linking at the tail appends to the sequence and keeps the ring closed and doubly linked |
| JobList.WorkList.TakeFirst | sys_xclone2async.c:45-55 | Takes the first node off, or reports that there is none; the rest stays a ring |
| JobList.WorkList.Drain | sys_xclone2async.c:566-577 | Ends with the empty ring, having unlinked every node once, in order |
| JobList.WorkList.EmptyIff | sys_xclone2async.c:45 | The sentinel points to itself exactly if the sequence is empty |
| JobList.WorkList.ProcessItemAsWritten | sys_xclone2async.c:45-55 | As written the cursor ends on the sentinel, which is unlinked and returned as the job, leaving the nodes a ring nobody reaches |
| MovePages.ProcessUnlink | sys_xclone2.c:213-379 | Files and result are those of the recursive copy from the first page, for every device behaviour |
| MovePages.CopyPages | sys_xclone2.c:307-337 | The loop ends, also at exact page multiples, and leaves in the trash file what the recursive copy says |
| MovePages.MoveWithoutFaults | sys_xclone2.c:307-341 | Without faults the trash file is the source over any old content and the source is gone, exactly up to 2^31 bytes; of a longer file the first 2^31 are kept |
| MovePages.FaultFreeCopy | sys_xclone2.c:307-333 | From any page on, the copy completes the source up to the reach of the `int` offset |
| MovePages.MoveLosesIff | sys_xclone2.c:311-341 | Into a fresh trash file, data is lost if and only if trash opens, unlink works and the first fault is a short write |
| MovePages.SuccessKeepsSourceIff | sys_xclone2.c:311-341 | The move returns 0 with the source still in place if and only if the trash file opens and the first fault is a failing read; a source in place is as it was |
| MovePages.MoveSettles | sys_xclone2.c:213-379 | Files and result of every call: over the old content of the trash file the bytes of the source before the page of the first fault, and of that page what the device took; the source is unlinked exactly if no failing read came first and the unlink works |
| MovePages.CopyIsPrefix | sys_xclone2.c:307-337 | On every device what is copied is a prefix of the source over the old content, all of it exactly if nothing fails |
| Storage.OverwriteAppends | sys_xclone2.c:317-321 | Writing two pieces one behind the other is writing them at once, whatever the file held |
| Storage.OverwriteExact | sys_xclone2.c:317-321 | Byte by byte: the data where it was written, what was there elsewhere, zeros in a gap |
| FileSystem.TransferredExact | sys_xclone2async.c:105-115 | A write is complete exactly if its position is not negative and the device takes all of it; otherwise it returns what the device takes, or -22 |
| FileSystem.Disk.ReadAt | sys_xclone2async.c:87-97 | Short reads only at the end of the file; the rest of the buffer is untouched |
| FileSystem.Disk.WriteAt | sys_xclone2async.c:105-115 | Overwrites at the offset and keeps any tail; a negative offset is refused |
| Encryption.UnpadPad | sys_xclone2.c:183-192 | The padding comes off again for every length |
| Encryption.PadExact | sys_xclone2.c:183-192 | The chunk comes first, then at least one and at most 16 bytes, each their number, up to a multiple of 16 |
| Encryption.CbcExact | sys_xclone2.c:200-204 | A ciphertext is that of a chunk if and only if it is as long and each of its blocks is the cipher of the 16 bytes whose bits are those of the plain block, changed where the ciphertext block before it has a 1, the vector for the first |
| Bytes.XorBlockExact | sys_xclone2.c:200-204 | The exclusive or of two blocks is the one block with a 1 exactly where their bits differ |
| Encryption.CbcRoundTrip | sys_xclone2.c:200-204 | Chaining over a block permutation is undone by its inverse |
| Encryption.ChunkFillsBuffer | sys_xclone2.c:183-193 | A chunk becomes 16(n/16 + 1) bytes, never more than the buffer, and fills it exactly if it is a full one |
| Encryption.ChunkRoundTrip | sys_xclone2.c:179-209 | Each encrypted chunk decrypts to the chunk |
| Encryption.PieceExact | sys_xclone2.c:508-557 | Piece k of the ciphertext is chunk k of the file encrypted by itself |
| Encryption.FileRoundTrip | sys_xclone2.c:508-557 | Cutting the output at multiples of 4096 and decrypting each piece from the same vector gives back every file |
| Encryption.EncryptFileInjective | sys_xclone2.c:508-557 | Two files with the same ciphertext are the same |
| Encryption.FileThenTail | sys_xclone2.c:497-557 | What follows a ciphertext spoils it, unless the ciphertext consists of full pieces and what follows is one encrypted empty chunk |
| Encryption.EmptyTail | sys_xclone2.c:183-202 | Only nothing, or one encrypted empty chunk, decrypts to nothing |
| Encryption.StaleCipherExact | sys_xclone2.c:497-557 | Encrypted over an older trash file, a file comes back if and only if the old one was no longer, or its tail is such a harmless one |
| Encryption.EncryptedSize | sys_xclone2.c:510-519 | n = 4080q + r gives 4096q bytes plus 16(r/16 + 1) if r > 0 |
| Encryption.SizeFitsInt | sys_xclone2.c:554-555 | The write position ends within an `int` exactly if n < 2^19 * 4080 |
| EncryptLoss.IntactIff | sys_xclone2.c:508-557 | Into a fresh file the loop writes the ciphertext if and only if every write is complete; otherwise what it leaves is shorter |
| EncryptLoss.WrittenIffFits | sys_xclone2.c:545-555 | Complete writes are impossible beyond 2^19 * 4080 bytes, and certain up to there on a device that takes all |
| EncryptLoss.RecoverableIffFits | sys_xclone2.c:490-557 | On such a device what the loop writes gives the file back if and only if it has at most 2^19 * 4080 bytes |
| EncryptLoss.Beyond | sys_xclone2.c:545-555 | What is written of a larger file decrypts to less than the file, or not at all, wrapped positions included |
| EncryptLoss.MoveIntactIff | sys_xclone2.c:497-575 | A call whose opens, allocations and unlink work returns 0 with the source gone; the ciphertext of the source is in the fresh trash file if and only if every write was complete |
| EncryptLoss.MoveLosesIffLarger | sys_xclone2.c:497-575 | On a device that takes all, such a call loses the data if and only if the file has more than 2^19 * 4080 bytes |
| EncryptLoss.MoveLosesIffShort | sys_xclone2.c:508-575 | On a device that takes nothing more once a write has fallen short, such a call loses the data if and only if some write falls short |
| EncryptLoss.BeyondStart | sys_xclone2.c:545-555 | What is written of a file of more than 2^19 * 4080 bytes still decrypts, if at all, to all but the last full chunk that fits |
| EncryptLoss.MoveLosesOneChunkIff | sys_xclone2.c:508-575 | Of a file of one chunk such a call loses the data if and only if the only write falls short |
| EncryptLoss.FullDeviceLoses | sys_xclone2.c:545-575 | On a full device such a call returns 0 with an empty trash file and loses every file that is not empty |
| EncryptFiles.CloneEncryption | sys_xclone2.c:179-209 | Leaves the padded and chained chunk in the buffer, or reports the failed allocation |
| EncryptFiles.EncryptInto | sys_xclone2.c:508-557 | Fails exactly if no cipher can be allocated for some chunk; the target ends as the recursive loop over data, positions and device says, for every size and every short write; nothing else changes at any moment |
| EncryptFiles.ProcessEncryption | sys_xclone2.c:382-583 | Files and result of the whole call, for every device behaviour: the source is unlinked exactly if everything opens and every allocation and the unlink work |
| Outcomes.EncryptSettles | sys_xclone2.c:382-583 | What every call returns and why: the source is gone exactly if it returns 0, and as it was otherwise; -ENOMEM exactly if everything opened and a cipher could not be had; files other than the two are untouched |
| Outcomes.EncryptOver | sys_xclone2.c:497-575 | Into any trash file, if everything works and every write is complete, the call leaves the ciphertext over the old content; it gives the source back if and only if the old file was no longer, or went on with one encrypted empty chunk behind full pieces |
| Outcomes.EncryptCutOff | sys_xclone2.c:531-538 | If chunk n is the first without a cipher, the call returns -ENOMEM and leaves the ciphertext of the n chunks before it over the old content, with the source in place |
| ShortWrites.OneIncompleteWrite | sys_xclone2.c:542-555 | One piece not written whole: if it falls short the next follows right behind; if it fails, everything after it is written as many bytes earlier as the error code says, over the pieces before; the same of the write refused at 2^31 |
| ShortWrites.FirstWriteFails | sys_xclone2.c:542-555 | If the very first write fails, nothing is written at all |
| Numerals.DecimalRoundTrip | sys_xclone2.c:687 | A decimal string reads back as the number, in headers and in names |
| Framing.HeaderExact | sys_xclone2_myorg.c:115-166 | A header reads back as the three leading digits, as the length exactly up to 999 |
| Framing.HeaderDigits | sys_xclone2.c:687 | The four bytes of a header of each length, the ones behind the NUL left over from before |
| Framing.FrameExact | sys_xclone2_myorg.c:115-167 | A frame reads back if and only if its payload has at most 999 bytes; of a longer one a proper prefix is read |
| Framing.PackThenTail | sys_xclone2_myorg.c:63-201 | Unpacking a packed file and whatever follows gives the file, then what the rest unpacks to |
| Framing.FrontThenTail | sys_xclone2_myorg.c:63-201 | The same if a block cannot be compressed: the data before that block, then what the rest unpacks to |
| Framing.PackRoundTrip | sys_xclone2_myorg.c:63-201 | Decompressing inverts compressing, for any number of blocks of at most 999 compressed bytes |
| Framing.RoundTripIffFits | sys_xclone2_myorg.c:63-201 | A file that could be compressed comes back if and only if every block has at most 999 compressed bytes, and otherwise nothing does, provided the start of a compressed block that the header of a longer one counts does not decompress |
| Framing.StalePackExact | sys_xclone2.c:801-807 | Compressed over an older file, a file comes back if and only if the old tail unpacks to nothing |
| Framing.FailureLosesIff | sys_xclone2.c:672-677 | What is left after a failing block unpacks to the data before it, a prefix of the file, which is all of it exactly if no block failed |
| Framing.StaleTailBreaks | sys_xclone2.c:801-807 | An older file of 100 zero bytes keeps a file of one byte from coming back |
| Framing.LongBlockBreaks | sys_xclone2.c:687-691 | With a compressor that stores, a block of 1000 bytes does not come back |
| CompressFiles.CompressInto | sys_xclone2.c:635-706 | Fails exactly if a block cannot be compressed; the target ends as the recursive loop says, for every size and every short write, also if source and target are the same file; nothing else changes at any moment |
| CompressFiles.ProcessCompress | sys_xclone2.c:708-829 | Files and result of the whole call, for every device behaviour: the source is unlinked exactly if everything opens, every block compresses and the unlink works |
| Outcomes.CompressSettles | sys_xclone2.c:708-829 | What every call returns and why: the source is gone exactly if it could be opened, compressed and unlinked, and as it was otherwise; -1 exactly if a block that is seen cannot be compressed; no call that returns an error loses the data, and files other than the two are untouched |
| Outcomes.CompressOver | sys_xclone2.c:797-827 | Into any trash file, if every write is complete, the call leaves what could be packed over the old content, whether a block failed or not; with blocks that fit it unpacks to the data before such a block, then to what the old tail unpacks to, which is the source exactly if that is the part left out |
| ShortWrites.OneIncompletePayload | sys_xclone2.c:689-702 | One payload not written whole: the next frame follows right behind what was taken of it, or is set back by the error code |
| CompressLoss.FramedOver | sys_xclone2.c:683-702 | Complete writes leave the packed file over whatever there was, and only a block that cannot be compressed is an error |
| CompressLoss.FramesIntactIff | sys_xclone2.c:683-702 | Into a fresh file, headers being complete, the loop writes the packed file if and only if every payload is complete; otherwise what it leaves is shorter |
| CompressLoss.ShortHeaderUnnoticed | sys_xclone2.c:689-702 | Without complete headers the packed file can be there all the same: an example |
| PackedMove.PackedMoveIntactIff | sys_xclone2.c:797-827 | A call whose opens and unlink work, on a file of any size that can be compressed, seen and whole, returns 0 with the source gone; with complete headers, the packed file is in the fresh trash file if and only if the source has less than 2^31 bytes and every payload was complete |
| PackedMove.PackedMoveRecoverableIff | sys_xclone2.c:797-827 | On a device that takes all, that trash file unpacks to the source if and only if the source has less than 2^31 bytes and every block fits its header, wrapped positions included |
| PackedMove.PackedMoveLosesIff | sys_xclone2.c:683-827 | On a device that takes nothing more once a write has fallen short, the call keeps the data if and only if the source has less than 2^31 bytes, every block fits its header, and no write falls short |
| PackedMove.ZippedUnpacks | sys_xclone2.c:646-704 | What the loop writes on a device that takes all, of a file below 2^31 bytes, unpacks to the file if every block fits, and not at all otherwise |
| PackedMove.LongStays | sys_xclone2.c:683-702 | The packed file up to its first long block stays as it was written, wherever wrapped positions lead |
| CompressLoss.UnpackFails | sys_xclone2_myorg.c:148-200 | Decompressing a stored file whose size fits an `int` fails exactly if it does not unpack |
| CompressLoss.UnpackedWhole | sys_xclone2_myorg.c:148-200 | On a device that takes all the target then holds what the stored file unpacks to |
| ShortWrites.OneIncompleteBlock | sys_xclone2_myorg.c:185-199 | One block not written whole: the next one follows right behind what was taken of it, or is set back by the error code |
| CompressFiles.DecompressInto | sys_xclone2_myorg.c:135-201 | Target and failure are those of the recursive loop, for every size and every short write; nothing else changes at any moment |
| CompressFiles.ReadFrame | sys_xclone2_myorg.c:162-167 | Takes exactly the first frame of the rest of the file, or reports that there is none |
| AsWrittenFraming.Pack8Size | sys_xclone2.c:683-702 | The unrepaired writer makes 8k + 4 bytes of k blocks in a fresh file |
| AsWrittenFraming.Unpack8Size | sys_xclone2_myorg.c:148-199 | The unrepaired reader yields at most a page for every 4080 bytes of its input |
| AsWrittenFraming.NoLongFileComesBack | sys_xclone2_myorg.c:63-201 | So no file longer than a page survives the unrepaired pair, whatever the buffers hold |
| AsWrittenFraming.OneBlockExact | sys_xclone2_myorg.c:111-175 | A file of one block makes 12 bytes and reaches the decompressor intact if and only if it compressed to at most 8 bytes, or to at most 999 and the buffer held the missing bytes by chance |
| Pipeline.PipelineRoundTrip | sys_xclone2.c:934-1031 | Decrypting, then unpacking, what compress-then-encrypt wrote gives the file, though encryption cuts the frames anew, if every block fits its header |
| Pipeline.PipelineIffFits | sys_xclone2.c:934-1031 | For a compressible file it does so if and only if every block fits its header |
| CompressLoss.PackedSize | sys_xclone2.c:648-704 | If every block fits its header, packed size is at most 1003 bytes for every block begun |
| CompressLoss.PackedFits | sys_xclone2.c:974-991 | If every block fits its header, no position of either stage overflows for files below 2^31 bytes |
| Pipeline.CompressStage | sys_xclone2.c:934-957 | Result and files of the first stage, also on `temp.txt` itself; in every state of it only the temporary file has changed, until the source goes |
| Pipeline.EncryptStage | sys_xclone2.c:959-1047 | Result and files of the second stage; in every state of it only the trash file has changed, until the temporary file goes |
| Pipeline.ProcessEncComp | sys_xclone2.c:831-1058 | Files and result of the whole call, for every device behaviour and every source; and if both stages are sound (see below), in every state of the run, whichever open, allocation, compression or unlink fails, the bytes can be had from the source, from the temporary file by unpacking, or from the trash file by decrypting and unpacking |
| Pipeline.FirstStageSound | sys_xclone2.c:934-957 | A sound first stage fails exactly if a block cannot be compressed, and otherwise leaves a temporary file that unpacks to the source |
| Pipeline.SecondStageSound | sys_xclone2.c:959-1047 | A sound second stage keeps the temporary file if it fails, and otherwise leaves a trash file that decrypts and unpacks to the source |
| Outcomes.BothReturns | sys_xclone2.c:831-1058 | What every call on another file than `temp.txt` returns and why |
| Outcomes.BothSettles | sys_xclone2.c:831-1058 | The source is gone exactly if it was compressed and the unlink worked, and as it was otherwise; once the temporary file is open, it stays, with what the first stage made of it, exactly if an error is returned; the trash file is untouched unless the second stage opened everything, and files other than the three are in any case |
| Outcomes.BothOver | sys_xclone2.c:934-1047 | Into any temporary and trash file, if nothing fails and every write is complete, the call leaves the ciphertext of the packed file over the old temporary one, over the old trash file; it decrypts to that exactly if the tail is harmless, and that unpacks as for the compressing call |
| PipelineLoss.SoundSucceeds | sys_xclone2.c:934-1047 | If both stages are sound, a call that returns 0 leaves the bytes in the trash bin and no temporary file, and it returns 0 if nothing fails |
| PipelineLoss.FreshOutcome | sys_xclone2.c:934-1047 | A call into fresh files in which nothing but writes can fail, on a file that is compressible as far as it is seen, returns 0 with the source and the temporary file gone; the trash file is what encrypting makes of what compressing left |
| PipelineLoss.BothIntactIff | sys_xclone2.c:934-1047 | After such a call on a compressible file, with complete headers, the trash file is the encrypted packed file if and only if the source has less than 2^31 bytes and every payload and every piece was written whole |
| PipelineLoss.BothRecoverableIff | sys_xclone2.c:934-1047 | After such a call on devices that take all, the bytes can be had if and only if the source has less than 2^31 bytes and every block fits its header |
| PipelineLoss.FullDeviceLosesBoth | sys_xclone2.c:940-1047 | On a device that takes nothing, such a call on a file that is not empty returns 0 and the bytes are in none of the three files |
| PipelineLoss.TempAsSource | sys_xclone2.c:934-964 | Called on `temp.txt` the call returns an error with `temp.txt` gone and nothing in the trash bin, unless a block cannot be compressed |
| PipelineLoss.RecoverableIffNotTemp | sys_xclone2.c:934-1047 | Nothing failing and both stages sound, the bytes can be had afterwards if and only if the source is not `temp.txt` |
| Pipeline.NoTailHarmless | sys_xclone2.c:934-966 | Older working files that are missing or not longer than what replaces them do not get in the way |
| CompressAndBack.CompressDecompress | sys_xclone2_myorg.c:254-273 | Both files and the result, for every source, `out.txt` and `out.txt.cmp` included, every size and every short write |
| CompressAndBack.BackExact | sys_xclone2_myorg.c:254-273 | On devices that take all, of a source whose seen blocks fit, the part before the first block that cannot be compressed comes back over the old content, and the failure is no error of the call, followed by what an older `out.txt` below 2^31 bytes leaves behind; it is the whole file exactly if that is the part left out, which is nothing exactly if the file has less than 2^31 bytes and can be compressed; an error exactly if it does not unpack; of an older file of 2^31 up to 2^32 bytes nothing is read back |
| CompressAndBack.BackCutOff | sys_xclone2_myorg.c:258-263 | With fresh files, a source with a block that cannot be compressed comes back cut off before that block, and the call returns no error |
| CompressAndBack.BackOverItself | sys_xclone2_myorg.c:254-273 | A source of one block that is `out.txt` itself comes back, unless it cannot be compressed, followed by what its own tail unpacks to, and is an error exactly if that does not unpack |
| TrashName.NameExact | sys_xclone2.c:449-487 | A name reads back to time, path and operation if and only if the path has no `[` and no suffix the operation could have added |
| TrashName.NamesDiffer | sys_xclone2.c:449-487 | Clear paths, times or operations that differ give different names |
| TrashName.MovesDiffer | sys_xclone2.c:269-293 | Among moves, paths without `[` or times that differ give different names, whatever the paths end in |
| TrashName.NamesCollide | sys_xclone2.c:750-795 | Without that, two files meet in one trash file: three examples |
| TrashName.NeverItself | sys_xclone2.c:269-293 | The trash name is never the path itself and always absolute, so none of the relative working files |
| TrashName.DateRoundTrip | sys_xclone2.c:274-283 | Date and time to the minute read back, hours below zero included |
| TrashName.ClockExact | sys_xclone2.c:264-269 | The fields of every time are a minute and, four behind, the hour of that time of day |
| TrashName.NameTellsTime | sys_xclone2.c:269-293 | What is read off a name are the hour and minute of the time it was built at |
| TrashName.NameExample | sys_xclone2.c:888-931 | The name of a file that is compressed and encrypted, in full |
| TrashName.NameExamples | sys_xclone2.c:449-487 | The names of the three other operations, in full |
| TrashName.StrReplace | sys_xclone2.c:291 | Replaces every occurrence, in place |
| TrashName.BuildName | sys_xclone2.c:888-931 | The name put together piece by piece is the specified one, from the old content of the path buffer, and tells the time it was built at |
| CommonPrefix.CommonIsLongest | read_write.c:65-70 | The specified prefix is the longest common one without a NUL byte |
| CommonPrefix.CompareBlocks | read_write.c:65-70 | Stops at the first NUL or difference, or at the end of the block |
| CommonPrefix.Dedup | read_write.c:45-122 | The run ends in one of three ways, and exactly when: with nothing in common; with an output cut short and removed; or, block by block, with exactly that prefix written and `file_size` its length |
| CommonPrefix.DedupPass | read_write.c:45-120 | Each pass settles one block: what is written stays the common prefix so far, or the loop ends with all of it |

`QueueModel.ProducerStep` and `QueueModel.ConsumerStep` hold the transitions of
sys_xclone2async.c:390-473 and 278-358, one case per program point; the members of
`QueueSafety`, `QueueProgress` and `QueueFiles` state what they mean.  `EncryptFiles.EncryptFrom`,
`CompressFiles.CompressFrom` and `CompressFiles.DecompressFrom` are the recursive loops that the
rows above speak of; the members of `EncryptLoss`, `CompressLoss`, `PackedMove`,
`PipelineLoss`, `Outcomes` and `ShortWrites` state what they mean.

## Left out

- Pipeline.ProcessEncComp: soundness of a stage (`Pipeline.FirstSound`, `Pipeline.SecondSound`) asks for a file below 2^31 bytes whose blocks fit their headers, complete writes, and older working files whose tails unpack or decrypt to nothing. Each condition is exact for its stage (`RoundTripIffFits`, `IntactIff`, `FramesIntactIff`, `StalePackExact`, `StaleCipherExact`); for the two stages together they are sufficient, since spoilt bytes may by chance be read as the right ones. After the second open the code tests the wrong file pointer (sys_xclone2.c:967); the model stops there.
- CompressLoss.FramesIntactIff: the direction from the packed file to complete writes supposes that the four bytes of each header are written whole. `CompressLoss.ShortHeaderUnnoticed` shows that this is needed where the position advances by the full header whatever was written of it, which is how the repair of sys_xclone2.c:702 is read here. `FramedOver` does not suppose it, nor does the outcome of the loop.
- QueueFiles.ConcurrentIsSequential: for pairwise distinct paths only, which `QueueNames.NamesAreDistinct` supplies; a file is found by its path, not by an inode that stays open after unlinking, which makes a difference only when paths coincide.
- CompressFiles.ReadFrame: the code ignores an error of the header conversion and goes on with the size of the frame before, or an undefined one in the first pass (sys_xclone2_myorg.c:138, 166); the model reports an error.
- CompressAndBack.BackExact: an older `out.txt` of 2^32 bytes and more is read in part; that case is only in the outcome of the loop.
- PackedMove.PackedMoveIntactIff: for a source of 2^31 bytes and more the last block that is seen may be cut, so that the call needs both the source and its seen part to be compressible.
- EncryptFiles.EncryptInto: reads are complete in this loop and in those of compression; a failing read would pass a negative length on as a huge one.
- AsWrittenFraming.Pack8: the unrepaired framing is modelled as functions on byte strings, not as loops on buffers.
- JobList.WorkList.Drain: built from repeated take-first instead of the safe traversal macro.
- CommonPrefix.Dedup: reads are complete; `file_size` never exceeds the size of the first file, so its `int` width is not modelled; a failing open or unlink of the output is not either.
- TrashName.BuildName: appends to a value instead of a zero-filled buffer of fixed size; the calendar date and the clock are inputs, tied only in hour and minute.
- EncryptFiles.ProcessEncryption: like the other handlers needs a trash path that is not the source, which `TrashName.NeverItself` supplies, as it does that the trash path is no relative working file.
- Opening a file of 2^31 bytes or more is assumed to work; without O_LARGEFILE some file systems refuse it, and cut writes short at that size.
- `kmalloc` failures except those named, wrong allocation sizes, leaks and `printk`.
- AES, deflate and key setup; the key as an extended attribute of the trash file.
- `create_trashbin`, module entry and exit but for the list, the dispatch on flags in `xclone2`, user-space programs, `proc_*.c`, `tbctl.c`.
- Undelete, periodic deletion and purge: announced in the repository's documentation, without code there.
