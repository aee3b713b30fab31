# CPCF core: verified models

CPCF is a C++ foundation library. This project models the self-contained engines of its `core` directory in Dafny and proves what they are for: a lock-free queue that never lets two threads share a slot, a log writer whose output is exactly the finalized chunks up to the first empty one, a zip allocator whose regions always partition the data area, a preprocessor whose flat scanner agrees with nested conditionals, stream transducers that do not depend on how the stream was cut, codecs that undo themselves.

`dafny verify dfyconfig.toml` checks everything.

## How it is organised

| file | system |
|---|---|
| mpsc_queue.dfy | `ProducerConsumerQueue` as a step system: one step per atomic access, flag write or counter read, any number of producers, unbounded counters |
| mpsc_queue_impl.dfy | the same queue with its real fields (32-bit wrapping counters, power-of-two mask), each access refining one step |
| parallel_writer.dfy | `ParallelWriter`: claims, header stores, fills, finalizes, write-downs and swaps as steps over raw bytes, and the class that refines them |
| zip_space.dfy, zip_archive.dfy, zip_directory.dfy, file_zip.dfy | `FileZip`: space allocation, runs of operations and extraction, the central directory, and the class with its fields |
| circular_buffer.dfy, quick_select.dfy, top_frequent.dfy | `CircularBuffer`, `FindTopKth`, `TopFrequentValues` |
| conditional.dfy, include_expander.dfy | the conditional scanner and the include expander of `Precompiler` |
| carriage_return.dfy, http_body.dfy, request_framing.dfy | terminal carriage returns, HTTP body reassembly, HTTP request framing |
| base64.dfy, base32.dfy, utf8.dfy | the codecs |
| garbage_bin.dfy | the delayed-free sweeper |
| bytes.dfy, arith.dfy | bytes, little-endian words, overwriting a range; division and powers of two |

Where the source changes things step by step the model is a class or a loop, proved against a function on values; the properties are lemmas about that function. Protocols are step systems, and the main theorems speak about every run from an initial state.

## What the source demands

- The queue has fewer than 2^30 - 1 producers inside `Produce` at a time, so that `_Count` fits an `INT`, and memory is sequentially consistent.
- Both buffers of the log writer start zeroed, and a claim has its header written before its buffer is written down (the timing rule of core/os/multi_thread.h:1087-1089). `Open` itself does not clear the buffers.
- Directives start in column one: the seek at core/os/precompiler.cpp:168 cuts at the first blank.
- A file is a byte sequence with seek and write; a write may stop short. A socket is the sequence of bytes still to come; a receive takes any nonempty piece of it or fails. `reliable` sessions are those in which nobody times out, breaks, cancels or stops.
- CRC, condition evaluation, macro substitution, the Content-Length search and the request-line test are parameters: functions of the bytes or of the macro table.
- An HTTP connection carries fewer than 2^32 bytes, header included, because its positions are `UINT`; announced lengths may be larger.
- `_EnlargeTo32AL` is any rounding up: the block size handed to `Push` is its result. The buffer is smaller than 2^32 - 1, because `Next` uses that value as its sentinel.

## Where the code does not do what its name or comments say

Each of these is kept as it is in the model; a lemma gives the exact condition, and in most cases another one a concrete input.

- `Reset` above 2^31 does not round up (`RoundCapacity`), and a capacity of 2^31 or more admits nobody (`HugeCapacityAdmitsNobody`).
- A log claim of size 0 hides what follows it (`EmptyClaimHidesRest`), and claims whose capacity test overflows `int` are accepted although they do not fit (`ClaimPlacedIff`).
- Space claims whose sizes do not fit 32 bits (`AllocateKeepsPartitionIff`), and removal of zero-sized entries (`RemoveKeepsPartitionIff`), break the partition of the archive; a stream write whose size test wraps runs past its claim (`WriteStaysInClaimIff`).
- A streamed zip entry carries the CRC of its last write only (`StreamedFileExtractsIff`).
- A directory whose last entry has an empty name cannot be opened again (`SaveThenOpen`).
- A file given up for a missing header is taken for a loop when it is included again (`LoopIsCycle`, `FalseLoop`).
- A stray `#endif` goes unreported once a branch has been taken (`StrayEndifReportedIff`), and so does a missing one behind the lines of a taken branch (`UnclosedIf`).
- An included file is pasted without the blanks around it the first time, and with them after that (`PlainFileTwice`).
- An entry whose local header is missing extracts as whatever the buffer held, if the CRC agrees (`ExtractWithoutHeader`); a directory whose end leaves 32 bits can open as empty (`OpenByEndRecord`).
- Carriage-return folding looks at the byte behind its fragment (`RemoveCarriageReturn`).
- A last chunk line longer than "0" leaves digits in the response, and a connection lost inside a size line counts as the end (`ReceiveChunked`).
- A negative Content-Length is accepted, with a body that ends before it starts (`BodyBackwardsIff`).
- `Base64DecodeLength` is 0 for texts of two or three symbols, and one short for whole groups followed by one foreign symbol (`DecodeLengthExact`).
- Base32 limits for leftovers let through 16 and 4, one more than any encoding has (`EncodeDecoded`); the Crockford table decodes characters it does not know to -1 without an error (`AcceptedIff`).
- Looking for the smallest value of an array runs off the buffer for the arrays that `NarrowsIff` describes, for example all of one element (`FindTopKth`): the partition loop's bound wraps at r = 0 (`BoundAsWritten`).
- A response whose Content-Length, counted from its start, ends beyond 32 bits is reported complete at once (`ReceiveContent`, `HugeLengthAccepted`); the same happens to chunk sizes (`RecvPayload`).
- `Push` accepts requests whose end leaves 64 bits (`AcceptedIff`).
- A TTL within 999 of 2^32 wraps to zero (`DueWhenRounded`).

## Model

| member | source | states |
|---|---|---|
| `MpscQueue.CapacityRespected` | core/os/multi_thread.h:725-753 | In every interleaving of any number of producers with the consumer: live window + admitted producers + the popped item not yet uncounted never exceed capacity, the count is never negative (and at least 1 before the consumer decrements), and the next slot to be handed out lies outside the live window with its flag clear |
| `MpscQueue.SlotsExclusive` | core/os/multi_thread.h:738-753 | No two producers ever hold the same slot |
| `MpscQueue.HeldSlotUntouched` | core/os/multi_thread.h:731-753 | The slot of a producer that holds a ticket is unfinished and is never the slot the consumer is reading or releasing |
| `MpscQueue.ConsumedInTicketOrder` | core/os/multi_thread.h:721-763 | In every run the consumed values are a prefix of the values in ticket order, and a value is only ever read after its producer finished |
| `MpscQueue.HeadSeenIff` | core/os/multi_thread.h:685-724 | In every run: the consumer sees a size iff some accepted value is not consumed, and then a finished head iff no producer still holds the oldest ticket |
| `MpscQueue.ConsumerProgress` | core/os/multi_thread.h:721-736 | In every reachable state with the consumer outside, once nobody works on the oldest unconsumed value: reading the size, the flag and the value, clearing, advancing and uncounting is possible, takes exactly that value, and leaves the consumer outside |
| `MpscQueue.ReleasedValueStays` | core/os/multi_thread.h:721-724 | A value looked at and not popped is the one seen at the next look, with nothing changed |
| `MpscQueue.ProducerProgress` | core/os/multi_thread.h:738-759 | In every reachable state a thread that is outside can produce: while the count is below capacity its value is accepted next and it is outside again; otherwise the attempt leaves no trace |
| `MpscQueue.NothingLostAtRest` | core/os/multi_thread.h:721-763 | With no thread inside an operation, the count is the number of accepted values not consumed, and each of them sits finished in its own slot |
| `MpscQueue.RejectedExactlyWhenFull` | core/os/multi_thread.h:739-744 | A producer is turned away if and only if the threads counted so far (admitted, rejected but not yet undone, live, popped but not uncounted) already fill the ring |
| `MpscQueue.RoomForTicket` | core/os/multi_thread.h:745-748 | An admitted producer always finds its slot free |
| `MpscQueue.HistoriesGrow` | core/os/multi_thread.h:721-763 | Accepted and consumed histories only ever grow at their ends |
| `MpscQueue.StepKeepsInv` | core/os/multi_thread.h:721-763 | Each atomic access of a producer or the consumer keeps the counting, ownership and window invariant |
| `MpscQueue.RunKeepsInv` | core/os/multi_thread.h:721-763 | The invariant holds after every finite run |
| `MpscQueueImpl.RoundCapacity` | core/os/multi_thread.h:695-710 | The rounding loop gives the least power of two at least max(2, request) if and only if the request is at most 2^31 |
| `MpscQueueImpl.TicketPosition` | core/os/multi_thread.h:745-746 | The masked position computed from the wrapped tail is the slot of the unbounded ticket |
| `MpscQueueImpl.ViewSizeExact` | core/os/multi_thread.h:685-688 | The size seen by the consumer on wrapped counters is nonzero iff head differs from tail; its exact value, off by the capacity once the tail has wrapped past the head |
| `MpscQueueImpl.HugeCapacityAdmitsNobody` | core/os/multi_thread.h:741-744 | A capacity of 2^31 or more is negative after the cast to INT, so every producer is turned away |
| `MpscQueueImpl.ProducerConsumerQueue.constructor` | core/os/multi_thread.h:690-690 | A new queue has no slots and represents an initial state |
| `MpscQueueImpl.ProducerConsumerQueue.Reset` | core/os/multi_thread.h:691-719 | Counters and flags are cleared for every request; up to 2^30 the fields represent an initial state, and the capacity is the least power of two at least max(2, request) iff the request is at most 2^31 |
| `MpscQueueImpl.ProducerConsumerQueue.ProduceCount` | core/os/multi_thread.h:739-741 | The increment and test refine the abstract counting step and admit exactly when it does; the producer is told it is the first one iff nothing was counted |
| `MpscQueueImpl.ProducerConsumerQueue.ProduceUndo` | core/os/multi_thread.h:742-743 | Taking the count back refines the abstract undo step |
| `MpscQueueImpl.ProducerConsumerQueue.ProduceTicket` | core/os/multi_thread.h:745-748 | Drawing a 32-bit ticket refines the unbounded ticket; the position returned is its slot and its flag is clear |
| `MpscQueueImpl.ProducerConsumerQueue.ProduceFill` | core/os/multi_thread.h:758-758 | Writing the value touches only the held slot |
| `MpscQueueImpl.ProducerConsumerQueue.ProduceFinish` | core/os/multi_thread.h:750-753 | The flag set by Produce_End was clear before (its assertion never fails) |
| `MpscQueueImpl.ProducerConsumerQueue.SizeInConsumerView` | core/os/multi_thread.h:685-688 | Nonzero iff some accepted value is not yet consumed |
| `MpscQueueImpl.ProducerConsumerQueue.HeadFinished` | core/os/multi_thread.h:721-724 | True iff no producer still holds the oldest ticket; the flag read at the masked index is that of the abstract head ticket |
| `MpscQueueImpl.ProducerConsumerQueue.HeadValue` | core/os/multi_thread.h:721-724 | The value read is the one accepted under ticket number head |
| `MpscQueueImpl.ProducerConsumerQueue.ConsumeClear` | core/os/multi_thread.h:731-731 | Refines the clearing step |
| `MpscQueueImpl.ProducerConsumerQueue.ConsumeAdvance` | core/os/multi_thread.h:733-733 | The wrapping increment of the head refines the unbounded one |
| `MpscQueueImpl.ProducerConsumerQueue.ConsumeDecrement` | core/os/multi_thread.h:734-736 | The count stays non-negative, and the result is true iff some thread is counted or the ring is not empty |
| `ParallelWriter.ClaimsDisjoint` | core/os/multi_thread.h:1060-1077 | In every run whose claims do not overflow, accepted claims of a buffer are disjoint, in claim order, and inside the buffer |
| `ParallelWriter.ClaimPlacedIff` | core/os/multi_thread.h:1060-1077 | After any such run, a claim of any 32-bit size leaves the claims disjoint and inside the buffer iff the capacity test, computed in int, does not overflow; it never does below 2^31 |
| `ParallelWriter.HugeClaimsAccepted` | core/os/multi_thread.h:1063-1065 | A claim of 2^31 bytes on fresh buffers is accepted whatever their size; of two claims of 2^30 bytes the first is refused and the second accepted |
| `ParallelWriter.CycleFinalizes` | core/os/multi_thread.h:1060-1090 | A claim that fits, filled and finalized by its thread, ends up finalized with exactly its bytes, the rest of the state as before |
| `ParallelWriter.CycleOpens` | core/os/multi_thread.h:1060-1077 | The same without the finalize: the claim is left open with its bytes |
| `ParallelWriter.WalkFindsAll` | core/os/multi_thread.h:866-880 | The walk over raw chunk headers emits exactly the finalized claims before the first empty one, in claim order, and counts the unfinalized ones, even after refused claims pushed Used past the end |
| `ParallelWriter.WriteDownEmits` | core/os/multi_thread.h:866-903 | A write-down appends exactly those payloads to the output, leaves the buffer zeroed and unused, and touches nothing else |
| `ParallelWriter.OutputIsFinalizedClaims` | core/os/multi_thread.h:866-903 | Over any run the output is the concatenation of the finalized claims of the written-down batches, once each and in order; unfinalized ones are counted; claims are conserved (claimed = failed + written down + still buffered) |
| `ParallelWriter.LinesWritten` | core/os/multi_thread.h:866-1090 | From the initial state, any number of nonempty lines that fit, some finalized and some not: after a swap and a write-down the output is exactly the finalized lines, whole and in claim order, and the others are counted |
| `ParallelWriter.CloseWritesEverything` | core/os/multi_thread.h:965-968 | Write-down, swap, write-down empties both buffers: the back buffer's claims are emitted before the front buffer's, and none is left behind |
| `ParallelWriter.FinalizeSucceedsIff` | core/os/multi_thread.h:1079-1090 | FinalizeWritten stores the length iff the chunk is still open and the length fits; otherwise only the failure counter changes |
| `ParallelWriter.RefusedUntilWriteDown` | core/os/multi_thread.h:1063-1076 | After a refused claim, until the buffer is written down, a later claim on it is refused iff it does not overflow |
| `ParallelWriter.EmptyClaimHidesRest` | core/os/multi_thread.h:871-880 | A claim of size 0 ends the walk: everything claimed after it is not emitted (the exact condition under which a finalized claim is lost) |
| `ParallelWriter.StepKeepsInv` | core/os/multi_thread.h:866-1090 | Every step of claimers, finalizers and the writer thread keeps tiling, headers, zeroed tail and output accounting; for claims, ClaimPlacedIff says that not overflowing is the exact condition |
| `ParallelWriter.RunKeepsInv` | core/os/multi_thread.h:866-1090 | The invariant holds after every finite run |
| `ParallelWriter.WalkChunks` | core/os/multi_thread.h:866-880 | The pointer loop computes the recursive walk |
| `ParallelWriter.Writer.constructor` | core/os/multi_thread.h:1001-1012 | Two zeroed buffers of the size rounded up to a multiple of 4, in an initial state |
| `ParallelWriter.Writer.Reserve` | core/os/multi_thread.h:1060-1076 | For every 32-bit size, the atomic add, the int casts and the capacity test compute the abstract claim: a new claim at the returned offset when the test passes, overflowing or not, or a counted failure |
| `ParallelWriter.Writer.StoreSize` | core/os/multi_thread.h:1067-1068 | The size store refines its step |
| `ParallelWriter.Writer.StoreInfinite` | core/os/multi_thread.h:1069-1070 | The length store refines its step |
| `ParallelWriter.Writer.MayFinalize` | core/os/multi_thread.h:1082-1083 | The test on the raw header passes iff the claim is open and the length fits |
| `ParallelWriter.Writer.FinalizeWritten` | core/os/multi_thread.h:1079-1090 | Refines the finalize step |
| `ParallelWriter.Writer.WriteDownBackBuffer` | core/os/multi_thread.h:866-903 | Refines the write-down step; what is written is the finalized visible claims of the back buffer |
| `ParallelWriter.Writer.Swap` | core/os/multi_thread.h:929-929 | Exchanges the two buffers and nothing else |
| `ZipArchive.BuiltArchivePartitioned` | core/os/file_zip.cpp:269-434 | For an archive built from empty by any sequence of adds, stream writes, commits, rollbacks and removals, live regions, holes and any open claim exactly partition [0, m_CentralDirectoryStart) |
| `ZipArchive.RunKeepsInv` | core/os/file_zip.cpp:269-434 | Every sequence of operations keeps the partition and the link between a claim and the hole it came from |
| `ZipArchive.RollbackRestores` | core/os/file_zip.cpp:352-404 | Begin, any stream writes, then rollback or a header that cannot be written: entries, hole sizes and offsets, data end and modified flag are what they were before |
| `ZipArchive.ShortNameForgotten` | core/os/file_zip.cpp:333-342 | An add whose name cannot be written leaves everything but file bytes as it was |
| `ZipArchive.ClaimWriteKeepsStored` | core/os/file_zip.cpp:333-385 | A write inside the open claim changes no byte of any stored file |
| `ZipArchive.AddChangesOnlyClaim` | core/os/file_zip.cpp:269-434 | Begin, any stream writes, then commit or rollback: no file byte outside the claimed region changes and the file does not grow beyond it |
| `ZipArchive.BeginChangesOnly` | core/os/file_zip.cpp:333-342 | The same for Begin alone, also when the name is only partly written |
| `ZipArchive.WriteStaysInClaim` | core/os/file_zip.cpp:421-434 | The same for one stream write, refused or not |
| `ZipArchive.FinalizeChangesOnly` | core/os/file_zip.cpp:352-404 | The same for commit, rollback and a failed header write |
| `ZipArchive.WriteStaysInClaimIff` | core/os/file_zip.cpp:423-428 | Stream writes of a given size stay inside the claim for all contents iff the 32-bit size test does not wrap |
| `ZipArchive.SomeWriteWraps` | core/os/file_zip.cpp:423-423 | Once something was written, a size for which the test wraps exists |
| `ZipArchive.RunKeepsStored` | core/os/file_zip.cpp:269-434 | A stored file keeps its directory entry and its bytes through any later operations that do not remove it |
| `ZipArchive.ExtractStored` | core/os/file_zip.cpp:718-776 | ExtractFile on a stored entry returns its bytes iff both sizes agree and the CRC matches, and fails otherwise |
| `ZipArchive.ExtractForeign` | core/os/file_zip.cpp:718-776 | Behind a local header with a name and an extra field of any length the data are found; they are returned iff the method is 0, the sizes agree and the CRC matches |
| `ZipArchive.ExtractWithoutHeader` | core/os/file_zip.cpp:723-774 | Without a local header extraction succeeds iff the CRC of what was in the buffer is the one of the entry, and leaves the buffer as it was |
| `ZipArchive.AddedFileExtracts` | core/os/file_zip.cpp:653-702 | A file added in one piece extracts to its original bytes after any later adds and removals of other entries, and its record still describes it |
| `ZipArchive.StreamedFileExtractsIff` | core/os/file_zip.cpp:414-434 | A file streamed in any pieces that fit extracts to their concatenation iff they fill the claim and the CRC of the last piece is that of the whole; otherwise extraction fails |
| `ZipArchive.StreamedReceives` | core/os/file_zip.cpp:421-434 | Pieces that fit are all received in order, and the CRC kept is that of the last one |
| `ZipArchive.ShortWriteForgotten` | core/os/file_zip.cpp:421-434 | A write of which only a part reaches the file leaves what was received before, and its length, as they were |
| `ZipArchive.TwoPiecesLost` | core/os/file_zip.cpp:421-434 | Two bytes streamed one by one into an empty archive do not extract, for a checksum that tells lengths apart |
| `ZipArchive.AddedFileStored` | core/os/file_zip.cpp:653-702 | Claim, write and commit store the bytes under a record with matching sizes and CRC, the time, date and attribute given, and a name with "/" wherever the path has "/" or a backslash and the path's own byte elsewhere |
| `ZipArchive.NameWritten` | core/os/file_zip.cpp:333-337 | Behind the local header the file has the path byte for byte as it was given |
| `ZipSpace.AllocateKeepsPartitionIff` | core/os/file_zip.cpp:282-302 | Claiming space keeps the partition iff the sizes involved fit 32 bits |
| `ZipSpace.AllocateInRoom` | core/os/file_zip.cpp:282-296 | The first removed entry with room gives up exactly header, name and data sizes at its front; nothing else changes |
| `ZipSpace.AllocateAtEnd` | core/os/file_zip.cpp:273-302 | Without such an entry the claim starts at the end of the data area, which grows by those sizes; refused iff the name is longer than 65535, the list holds 65535 entries or the end would pass 4294901737 |
| `ZipSpace.AllocateDescribes` | core/os/file_zip.cpp:304-328 | The record of a claim carries the name, time, date and attribute as AddedFileStored states them |
| `ZipSpace.RollbackKeepsInv` | core/os/file_zip.cpp:394-402 | Giving a claim back keeps the invariant |
| `ZipSpace.CommitKeepsInv` | core/os/file_zip.cpp:371-388 | Committing a claim and returning its unused part keeps the invariant |
| `ZipSpace.RemoveKeepsPartitionIff` | core/os/file_zip.cpp:704-710 | RemoveFile keeps the partition iff the entry owns a local header, i.e. is not a zero-sized entry at offset 0 |
| `ZipSpace.AddZeroSizedKeepsInv` | core/os/file_zip.cpp:214-258 | Zero-sized entries take no space |
| `ZipSpace.ZeroSizedDescribed` | core/os/file_zip.cpp:214-258 | A zero-sized entry is added last with the time, date and attribute given; its name is the path with slashes, and one more slash exactly for a directory without one; refused iff the name is too long or the list full |
| `ZipSpace.FindHole` | core/os/file_zip.cpp:286-296 | The first hole that is large enough, if any |
| `ZipSpace.WriteAt` | core/os/file_zip.cpp:368-369 | Seek and write changes exactly the bytes of the range, growing the file as needed |
| `ZipDirectory.SaveThenOpen` | core/os/file_zip.cpp:882-923 | Opening a saved archive gives back the live entries in order, iff the last one has a nonempty name, and fails otherwise; also when the file goes on behind the new directory, as long as nothing there looks like an end record |
| `ZipDirectory.SavedOnce` | core/os/file_zip.cpp:882-923 | After a save nothing is left to save |
| `ZipDirectory.QuietAtEnd` | core/os/file_zip.cpp:910-919 | A file that does not extend past the new directory has nothing of the kind behind it |
| `ZipDirectory.BuiltSavedOpenedExtracts` | core/os/file_zip.cpp:718-923 | End to end: a file added to an archive built from nothing, followed by any operations that do not remove it, is listed in the archive once saved and opened again, under its path with slashes, with its time, date and attribute, and extracts to its bytes |
| `ZipDirectory.StoredSurvivesReopen` | core/os/file_zip.cpp:718-776 | A stored file is found among the reopened entries with the record it had, and extracts to its bytes |
| `ZipDirectory.RunInRange` | core/os/file_zip.cpp:269-405 | Every run from an archive whose records fit their fields keeps them so, for inputs that fit |
| `ZipDirectory.OpenWritten` | core/os/file_zip.cpp:79-143 | The same for any file with a written directory and nothing like an end record behind it |
| `ZipDirectory.OpenByEndRecord` | core/os/file_zip.cpp:79-143 | What any file opens to, from its last end record: refused for disk numbers other than 0 or different counts; scanned if the directory ends inside the file; empty if the 32-bit sum of its offset and size wraps to a place inside the file; refused otherwise |
| `ZipDirectory.EndFound` | core/os/file_zip.cpp:84-101 | The backward search stops at the end record just written, under the same condition |
| `ZipDirectory.ScanWritten` | core/os/file_zip.cpp:127-143 | The scan returns the records written, or fails exactly when the last record has an empty name (its bounds test needs one byte more) |
| `ZipDirectory.ScanListed` | core/os/file_zip.cpp:127-143 | The same for directories of other archivers: whatever extra fields and comments lie between the records, the scan returns them all in order, or fails exactly when nothing follows the fixed part of the last one |
| `ZipDirectory.ReadListed` | core/os/file_zip.cpp:130-138 | One record reads back field by field (layout of section 4.3.12 of the PKWARE APPNOTE), with extra field and comment of any length |
| `ZipDirectory.SaveKeepsStored` | core/os/file_zip.cpp:882-919 | Saving changes no byte of a stored file |
| `ZipDirectory.LocalFields` | core/os/file_zip.cpp:352-369 | The local header field by field (section 4.3.7 of the APPNOTE) |
| `ZipDirectory.LowByteFirst` | core/os/file_zip.cpp:908-919 | Words of the end record are stored low byte first |
| `ZipDirectory.RemovedNotListed` | core/os/file_zip.cpp:704-710 | A removed entry is gone from the saved directory, and no other one is |
| `FileZip.Archive.constructor` | core/os/file_zip.cpp:27-31 | A new archive is empty |
| `FileZip.Archive.FirstHole` | core/os/file_zip.cpp:287-288 | The loop finds the first large enough hole |
| `FileZip.Archive.AddBegin` | core/os/file_zip.cpp:269-343 | The fields and the file become those of the abstract begin step, including refusal and the failed name write |
| `FileZip.Archive.RollBack` | core/os/file_zip.cpp:394-404 | Refines the rollback step |
| `FileZip.Archive.Write` | core/os/file_zip.cpp:421-434 | Refines the stream write: refused past the claim, CRC restarted, progress only when all bytes reach the file |
| `FileZip.Archive.AddEnd` | core/os/file_zip.cpp:345-405 | Refines commit and rollback, including the rollback after a failed header write |
| `FileZip.Archive.RemoveFile` | core/os/file_zip.cpp:704-710 | Refines the removal step |
| `FileZip.Archive.SaveDirectory` | core/os/file_zip.cpp:882-923 | The writing loop produces the directory and the end record at m_CentralDirectoryStart; when a write falls short, exactly that many bytes of them are in the file, the archive stays modified and the result is false |
| `FileZip.OpenFile` | core/os/file_zip.cpp:79-143 | The search loop and the checks compute the abstract Open |
| `FileZip.ScanRecords` | core/os/file_zip.cpp:127-143 | The record loop computes the abstract scan |
| `CircularBuffer.PushEnqueues` | core/rt/buffer_type.h:1000-1023 | A successful Push appends one block to the queue and changes no byte of a live block other than the Next link, across wraparound |
| `CircularBuffer.PopDequeues` | core/rt/buffer_type.h:1024-1039 | Pop removes the oldest block, if any, and writes nothing |
| `CircularBuffer.EmptyIff` | core/rt/buffer_type.h:1026-1026 | Back equals NewBlock iff there is no live block |
| `CircularBuffer.PlaceIsFree` | core/rt/buffer_type.h:1002-1013 | The place chosen by Push overlaps no live block |
| `CircularBuffer.LiveApart` | core/rt/buffer_type.h:1000-1039 | Live blocks never overlap and lie inside the buffer |
| `CircularBuffer.RefusedExactlyWhenFull` | core/rt/buffer_type.h:1004-1014 | Push fails iff neither the free space after the newest block nor, when not wrapped, the space before the oldest one is large enough |
| `CircularBuffer.PlacedBehindIff` | core/rt/buffer_type.h:1002-1014 | An accepted block goes right behind the newest one iff the free run there is longer than it, else to the start |
| `CircularBuffer.AcceptedIff` | core/rt/buffer_type.h:1002-1014 | The test of Push, in 64-bit arithmetic, accepts exactly what fits iff the request is not oversized; a request whose end behind the newest block is below 2^64 is not |
| `CircularBuffer.HugeRequestAccepted` | core/rt/buffer_type.h:1002-1006 | A request of 2^64 - 24 bytes is accepted by every ring not filled to its last byte |
| `CircularBuffer.ChainListsBlocks` | core/rt/buffer_type.h:1016-1036 | Following Next from Back lists exactly the live blocks in push order |
| `CircularBuffer.SetLength` | core/rt/buffer_type.h:1040-1046 | Setting a payload length keeps all blocks, links and payload bytes |
| `CircularBuffer.Buffer.constructor` | core/rt/buffer_type.h:986-999 | A new buffer is an empty queue |
| `CircularBuffer.Buffer.PushBlock` | core/rt/buffer_type.h:1000-1023 | Returns a payload iff the 64-bit test accepts; unless the request is oversized, that is iff there is room, the queue gains that block at its end and every other live block keeps its bytes; on refusal nothing changes |
| `CircularBuffer.Buffer.LinkBlock` | core/rt/buffer_type.h:1016-1021 | Writing the header and linking it to the last block computes the abstract push |
| `CircularBuffer.Buffer.PopBlock` | core/rt/buffer_type.h:1024-1039 | The queue loses its oldest block |
| `CircularBuffer.Buffer.SetBlockSize` | core/rt/buffer_type.h:1040-1046 | Stores the final length and nothing else |
| `CircularBuffer.Buffer.Peek` | core/rt/buffer_type.h:1047-1055 | Returns the oldest block's finalized bytes, iff it exists and has a nonzero length |
| `QuickSelect.FindTopKth` | core/rt/buffer_type.h:218-247 | With the loop bound as written: the search runs off the buffer iff k = 1 and the array narrows; otherwise, so for every array and 2 <= k <= size, the array is permuted and the element returned is the k-th smallest |
| `QuickSelect.NarrowsIff` | core/rt/buffer_type.h:218-247 | An array narrows iff, behind the first place of its smallest value, there is a value smaller than each one before that place |
| `QuickSelect.SmallestOfTwo` | core/rt/buffer_type.h:218-247 | Concrete arrays: [x] narrows, [x, y] narrows iff x <= y |
| `QuickSelect.Kth` | core/rt/buffer_type.h:231-242 | The same on a range: it runs off iff the range starts at 0, k = 1 and it narrows; otherwise it returns the k-th smallest, nothing outside the range changing; the recursion terminates |
| `QuickSelect.Partition` | core/rt/buffer_type.h:220-230 | With the unsigned bound j <= r - 1: it runs off the buffer iff r = 0; otherwise everything before the returned index is at most the pivot, in its old order, everything after is greater, the rest of the array is unchanged; a permutation in any case |
| `QuickSelect.BoundAsWritten` | core/rt/buffer_type.h:223-223 | The loop bound as written, in unsigned arithmetic, is the intended one iff r is not 0 |
| `QuickSelect.KthIsSortedElement` | core/rt/buffer_type.h:231-242 | The k-th smallest, defined by counting, is element k-1 of any sorted permutation |
| `QuickSelect.KthIsPivot` | core/rt/buffer_type.h:234-235 | When the pivot lands at position k-1 it is the k-th smallest |
| `QuickSelect.KthInLeft` | core/rt/buffer_type.h:236-237 | Otherwise the k-th smallest of the left part is that of the whole |
| `QuickSelect.KthInRight` | core/rt/buffer_type.h:238-238 | And the right part is searched for k less the elements passed |
| `TopFrequent.RunKeepsOrder` | core/rt/buffer_type.h:1073-1108 | Over any sample sequence counts stay non-negative and non-increasing by index, and live values distinct |
| `TopFrequent.RunHonest` | core/rt/buffer_type.h:1073-1108 | No count ever exceeds how often its value was sampled |
| `TopFrequent.MajorityIsTop` | core/rt/buffer_type.h:1098-1115 | With one entry, a value making up a strict majority of the samples is the one Get returns |
| `TopFrequent.Balance` | core/rt/buffer_type.h:1098-1108 | With one entry, how far any value can lead, in terms of the entry kept |
| `TopFrequent.MatchKeepsOrder` | core/rt/buffer_type.h:1073-1093 | What matching does to an ordered table: order kept, other live entries untouched, the verdict exact |
| `TopFrequent.MatchCounts` | core/rt/buffer_type.h:1073-1093 | A match raises the count of the sampled value by exactly one and no other |
| `TopFrequent.SampleKeepsOrder` | core/rt/buffer_type.h:1098-1108 | One sample keeps order and distinctness |
| `TopFrequent.SampleCounts` | core/rt/buffer_type.h:1098-1108 | A value that is in the table or finds a free entry gains one and no other count changes; otherwise exactly the last entry loses one |
| `TopFrequent.Table.constructor` | core/rt/buffer_type.h:1095-1097 | Reset zeroes all entries |
| `TopFrequent.Table.MatchAt` | core/rt/buffer_type.h:1073-1093 | The recursive in-place match computes the abstract one on the table from that level on |
| `TopFrequent.Table.SampleValue` | core/rt/buffer_type.h:1098-1108 | Computes the abstract sample; on an ordered table the branch for a negative count is never taken |
| `Conditional.ScannerAgreesWithTree` | core/os/precompiler.cpp:188-294 | For every well-nested text the flat scanner emits the same lines, leaves the same macro table and reports the same errors and warnings as the recursive interpreter of the block tree |
| `Conditional.TextsPass` | core/os/precompiler.cpp:290-292 | Text lines are substituted and put behind the output in order, whatever follows |
| `Conditional.ReadingExtends` | core/os/precompiler.cpp:188-294 | For every text, well nested or not: output only grows at its end, errors and warnings never go down, and a defined macro keeps its meaning unless the text has an #undef of it |
| `Conditional.DefineLine` | core/os/precompiler.cpp:624-648 | #define of a free name, or of one that means the same, sets exactly that name; a predefined name, a macro function or another value changes no macro and is one error |
| `Conditional.DefineFunctionLine` | core/os/precompiler.cpp:569-622 | A macro function is defined iff the name is neither predefined nor defined; otherwise one error |
| `Conditional.UndefLine` | core/os/precompiler.cpp:668-686 | #undef takes exactly that name away; a predefined one is an error, an unknown one a warning |
| `Conditional.FirstTrueBranch` | core/os/precompiler.cpp:235-280 | Of an #if with any number of #elif and an #else, each over text lines, exactly the lines of the first branch whose condition is true come out, and every condition that cannot be evaluated before it counts two errors |
| `Conditional.UnclosedIf` | core/os/precompiler.cpp:245-255 | An #if without #endif is one error when its lines are skipped and none when they are read |
| `Conditional.UnclosedArms` | core/os/precompiler.cpp:268-287 | A taken branch followed by an #else without #endif is one error |
| `Conditional.FlatReadsTree` | core/os/precompiler.cpp:188-294 | The same with any text following, and the exact effect on branch_level |
| `Conditional.FlatReadsBranch` | core/os/precompiler.cpp:235-267 | From a branch directive on, the scanner takes the first branch that holds and skips to its close |
| `Conditional.SeekItems` | core/os/precompiler.cpp:162-186 | The search for the next close directive steps over well-nested text at any depth |
| `Conditional.SkipArms` | core/os/precompiler.cpp:268-280 | After a taken branch the remaining ones are skipped up to their #endif |
| `Conditional.StrayEndifReportedIff` | core/os/precompiler.cpp:282-284 | A stray #endif after a well-nested text is reported iff no branch was taken before it: branch_level is increased where it should be decreased |
| `Conditional.Precompiler.PlainLine` | core/os/precompiler.cpp:202-234 | A line outside the conditionals: define, undef or output, with their errors and warnings |
| `Conditional.Precompiler.SubstituteFile` | core/os/precompiler.cpp:188-294 | The loop computes the flat scanner |
| `Conditional.Precompiler.EvaluateIf` | core/os/precompiler.cpp:239-244 | The condition and its error report |
| `Conditional.Precompiler.Branches` | core/os/precompiler.cpp:237-264 | The branch loop computes the abstract one |
| `Conditional.Precompiler.CloseBranch` | core/os/precompiler.cpp:268-287 | The closing part computes the abstract one |
| `IncludeExpander.ExpansionSafe` | core/os/precompiler.cpp:703-869 | For every finite file set, cyclic or not: expansion terminates, each name is compiled at most once, a loop is reported only on re-entering an unfinished file that has not read #pragma once, and without errors every file is finalized |
| `IncludeExpander.LoopIsCycle` | core/os/precompiler.cpp:719-723 | A loop reported about a file being read exhibits a cycle of includes through it; any other report is about a file given up before |
| `IncludeExpander.LoopsMeanCycle` | core/os/precompiler.cpp:703-869 | When every include line is well formed and names a file that exists, any reported loop means that files include one another in a cycle |
| `IncludeExpander.FalseLoop` | core/os/precompiler.cpp:715-724 | An acyclic set of files for which a loop is reported: a file given up for a missing header is included again |
| `IncludeExpander.AcyclicExpansionInlines` | core/os/precompiler.cpp:755-869 | On ranked (acyclic, fully resolvable) file sets without #pragma the result is the recursive inlining of the root, each include replaced by the inlined text of its file up to blanks at its ends, without errors |
| `IncludeExpander.TrimBlank` | core/os/precompiler.cpp:730-736 | Trimming takes exactly the blanks off both ends: what is left starts and ends with something else, or is empty |
| `IncludeExpander.PlainLinesRead` | core/os/precompiler.cpp:775-868 | Lines without includes are appended in order, unknown pragmas counted as errors, #pragma once remembered, and what follows them is then read |
| `IncludeExpander.PlainFileTwice` | core/os/precompiler.cpp:703-744 | A file without includes is pasted without the blanks around it when first included, with a warning iff it is all blank; at its next inclusion with them, or not at all iff it has #pragma once |
| `IncludeExpander.OncePasted` | core/os/precompiler.cpp:708-714 | Once a file has read #pragma once, whatever is read afterwards, including it adds no text and no report |
| `IncludeExpander.FileGivenUp` | core/os/precompiler.cpp:782-826 | A malformed include, or one that names no file, ends the file with one error and no text |
| `IncludeExpander.LinesKeepsInv` | core/os/precompiler.cpp:775-868 | Reading a file to its end keeps the invariant on the stack of open files |
| `IncludeExpander.MergeKeepsInv` | core/os/precompiler.cpp:703-744 | So does merging an included file |
| `IncludeExpander.SearchKeepsInv` | core/os/precompiler.cpp:801-824 | So does the search over candidate names |
| `IncludeExpander.Expander.ReadLine` | core/os/precompiler.cpp:777-864 | One line: text, pragma, include or the errors that abandon the file |
| `IncludeExpander.Expander.IncludeLine` | core/os/precompiler.cpp:782-826 | An include: merged, abandoned on a loop, or reported missing |
| `IncludeExpander.Expander.CompileFile` | core/os/precompiler.cpp:755-869 | The line loop computes the abstract expansion |
| `IncludeExpander.Expander.FindAndMerge` | core/os/precompiler.cpp:801-824 | The candidates are tried in order until one is found |
| `IncludeExpander.Expander.MergeIncludedFile` | core/os/precompiler.cpp:703-744 | Once-only files merge as nothing, finished ones as their content, unfinished ones are loops, others are compiled |
| `CarriageReturn.RemoveCarriageReturn` | core/os/high_level.cpp:413-499 | The pointer algorithm equals the per-character fold, except for one extra CR exactly when it is misled: a fragment without CR or LF, output not pending, and the byte behind the fragment a CR |
| `CarriageReturn.FoldConcat` | core/os/high_level.cpp:413-499 | Folding a concatenation is folding piece after piece |
| `CarriageReturn.FoldFragments` | core/os/high_level.cpp:413-499 | For every split of the stream into fragments, each followed by a byte other than CR, the output is the fold of the whole stream |
| `CarriageReturn.FoldOverwrites` | core/os/high_level.cpp:413-499 | Behind complete lines, a text, a return and another text leave the second text alone; a return and a newline end the line |
| `CarriageReturn.FoldRest` | core/os/high_level.cpp:469-498 | The main loop finishes the fold |
| `CarriageReturn.KeepLine` | core/os/high_level.cpp:447-449 | Truncation to the last newline |
| `HttpBody.Session.ReceiveContent` | core/inet/http_client.cpp:965-988 | For a Content-Length body whose end has a 32-bit position, what the callback removed followed by what remains is the body, for every fragmentation and every removal sequence; it fails only if somebody disturbed the transfer or the stream is too short, so undisturbed it succeeds iff all bytes come. It succeeds without the body iff the sum of start and length wraps: then at once, with nothing received and a response length of the full Content-Length |
| `HttpBody.EndPositionIff` | core/inet/http_client.cpp:967-967 | The 32-bit end position lies at or behind the start iff the sum does not wrap |
| `HttpBody.HugeLengthAccepted` | core/inet/http_client.cpp:965-976 | A Content-Length of 4294967286 with three bytes to come succeeds, with a response of that length |
| `HttpBody.Session.ReceiveChunked` | core/inet/http_client.cpp:955-964 | For a chunked body (section 4.1 of RFC 7230), however fragmented, an undisturbed transfer succeeds, and the response is the concatenated payloads followed by all but the last digit of the closing size line (nothing when it is exactly "0"); failure and a lost end happen only if somebody disturbed it, and a connection lost inside a size line is reported as an end, after the digits scanned so far |
| `HttpBody.Session.RecvOneChunk` | core/inet/http_client.cpp:456-504 | One chunk: its payload joins the response and the rest of the wire comes next; or the end; an error or a lost end only if somebody disturbed the transfer |
| `HttpBody.Session.RecvLineAndPayload` | core/inet/http_client.cpp:460-504 | The same stated for one size line and its payload |
| `HttpBody.Session.ReadSizeLine` | core/inet/http_client.cpp:460-468 | The size line read across any fragmentation, and the number it writes in base 16; failure only on a disturbed transfer |
| `HttpBody.HexValueIff` | core/inet/http_client.cpp:468-468 | The value read is n iff the line is n in base 16: its last digit, from "0123456789abcdef" in either case, is n mod 16, and the digits before it write n / 16 or are none |
| `HttpBody.PrintedWrites` | core/inet/http_client.cpp:468-468 | Printing by repeated division gives such a line for every n |
| `HttpBody.Session.TakePayload` | core/inet/http_client.cpp:472-489 | The size line is cut out, the payload received behind it, its CR LF cut; an error only on a disturbed transfer |
| `HttpBody.Session.CutBreak` | core/inet/http_client.cpp:482-484 | The memmove behind the payload, and the two stale bytes it leaves |
| `HttpBody.Session.RecvUntilBreak` | core/inet/http_client.cpp:514-572 | With a plain line next, the token found is the end of that line, despite stale bytes behind the data; failure only on a disturbed transfer |
| `HttpBody.Session.ReceiveMore` | core/inet/http_client.cpp:534-557 | One receive inside a line: it cannot find the stream at its end |
| `HttpBody.Session.SearchBreak` | core/inet/http_client.cpp:521-531 | strstr finds the end of the line exactly when it has arrived |
| `HttpBody.Session.RecvUpTo` | core/inet/http_client.cpp:623-671 | Conserves the byte stream and ends with exactly the bytes asked for; failure only on a disturbed transfer or when the stream ends before them; a size already received succeeds at once, even when that takes the parsing back |
| `HttpBody.Session.RecvPayload` | core/inet/http_client.cpp:479-479 | The receive of a chunk of any announced size: when it succeeds, the bytes are missing iff their end position wraps; otherwise it fails only on a disturbed transfer or a short stream |
| `HttpBody.Session.RecvMore` | core/inet/http_client.cpp:630-664 | One round of it, stopping only for those reasons |
| `HttpBody.Session.Receive` | core/inet/http_client.cpp:534-557 | A receive appends a nonempty piece of the stream; it fails, without effect, only when disturbed or at the end of the stream |
| `HttpBody.Session.Probe` | core/inet/http_client.cpp:574-614 | The callback removes a prefix of the response or cancels; header and remaining bytes are kept |
| `RequestFraming.Connection.Receive` | core/inet/tinyhttpd.cpp:678-799 | After every read the outcome is that of the whole stream received in one piece, and on OK the body, unless it ends before it starts, is those bytes of the stream |
| `RequestFraming.Connection.Continue` | core/inet/tinyhttpd.cpp:681-689 | The same while waiting for the rest of a body |
| `RequestFraming.Connection.Scan` | core/inet/tinyhttpd.cpp:690-748 | The same while scanning for the end of the header from three bytes before the new data |
| `RequestFraming.Connection.HeaderComplete` | core/inet/tinyhttpd.cpp:710-741 | The same when the end of the header is found |
| `RequestFraming.CompleteExactly` | core/inet/tinyhttpd.cpp:681-748 | For a request with a header of h bytes and Content-Length n: a prefix is OK with body h to h + n iff it has h + n bytes, and more data is asked for before that (section 3.3.3 of RFC 7230); without Content-Length the body is empty; a negative h + n counts as h + n + 2^32; a length over the limit is out of memory and an illegal request line invalid |
| `RequestFraming.HeaderMissing` | core/inet/tinyhttpd.cpp:690-709 | Without a blank line: more data is asked for up to four bytes, then anything but GET and POST fails, and the others wait until 104857600 bytes |
| `RequestFraming.BodyBackwardsIff` | core/inet/tinyhttpd.cpp:724-733 | An accepted body ends before it starts iff Content-Length is negative by no more than the size of the header |
| `RequestFraming.OverlapSuffices` | core/inet/tinyhttpd.cpp:702-708 | Three bytes of overlap find the first CRLFCRLF of the whole stream |
| `RequestFraming.FrameKnown` | core/inet/tinyhttpd.cpp:681-689 | Once the header is known, further data cannot change it or the body range |
| `Base64.DecodeEncoded` | core/os/kernal_encode.cpp:334-418 | For every byte string, decoding undoes encoding with all, part or none of the trailing "=" |
| `Base64.EncodesSixBitGroups` | core/os/kernal_encode.cpp:276-308 | Symbol j shows bits 6j to 6j+5 of the input, zero-filled, and "=" pads to groups of four (section 4 of RFC 4648) |
| `Base64.SymbolTable` | core/os/kernal_encode.cpp:276-290 | The symbols are those of the table of section 4 of RFC 4648 |
| `Base64.RevTable` | core/os/kernal_encode.cpp:334-360 | The reverse table knows exactly the characters of that table, each at its place |
| `Base64.DecodeLengthExact` | core/os/kernal_encode.cpp:310-332 | The length function is exact for every accepted text of more than three symbols, and covers what is decoded from every text except two families, given exactly |
| `Base64.EncodedLengthExact` | core/os/kernal_encode.cpp:310-332 | On an encoding with part of its padding dropped the length is that of the data, iff it is not one or two bytes without all their padding |
| `Base64.EncodeHasLength` | core/os/kernal_encode.cpp:271-274 | Base64EncodeLength is the length of the encoding |
| `Base64.EncodeInjective` | core/os/kernal_encode.cpp:276-308 | Different data have different texts |
| `Base64.Base64Encode` | core/os/kernal_encode.cpp:276-308 | The loop writes the encoding and nothing behind it |
| `Base64.Base64Decode` | core/os/kernal_encode.cpp:334-418 | The loop and the last group compute the abstract decoder: bytes, reported length, verdict, on every text |
| `Base64.RoomByEnd` | core/os/kernal_encode.cpp:314-331 | The length formula against the decoder, for every text of at least two symbols |
| `Base32.DecodeEncoded` | core/os/kernal_encode.cpp:561-680 | In all six alphabets decoding undoes encoding, for every byte string, and the length is Base32EncodeLength |
| `Base32.AcceptedIff` | core/os/kernal_encode.cpp:607-680 | A text is accepted iff the table knows its symbols and the caller expects 5 bytes per 8 symbols plus 0, 1, 2, 3 or 4 for 0, 2, 4, 5 or 7 left over, the last of which is at most 7, 1, 16 or 4 |
| `Base32.EncodeDecoded` | core/os/kernal_encode.cpp:607-680 | With the extended hex alphabet, encoding what was decoded gives the text back in upper case, iff the leftover is not the 16 or 4 that only the limits let through |
| `Base32.PackUnpacked` | core/os/kernal_encode.cpp:634-679 | The same on codes: packing undoes unpacking iff the leftover is not one of those |
| `Base32.UnpackPacked` | core/os/kernal_encode.cpp:561-680 | Unpacking undoes packing, with the unshifted last group |
| `Base32.PackHasLength` | core/os/kernal_encode.cpp:682-696 | Base32EncodeLength is the number of symbols, and Base32DecodeLength inverts it |
| `Base32.GroupValue` | core/os/kernal_encode.cpp:566-575 | A full group holds the same number in base 32 as its bytes do in base 256 |
| `Base32.TailValue` | core/os/kernal_encode.cpp:576-605 | The same for a short group, its last symbol holding the bits left over |
| `Base32.GroupIsOrs` | core/os/kernal_encode.cpp:634-655 | Each bit of a decoded group is the or of the shifted codes of its symbols, a code of -1 being all ones |
| `Base32.TailIsOrs` | core/os/kernal_encode.cpp:656-679 | The same for the last byte of a short group, the leftover or-ed in unshifted |
| `Base32.CodeOfSymbol` | core/os/kernal_encode.cpp:489-559 | In every alphabet the decoding table undoes the encoding table |
| `Base32.SymbolTables` | core/os/kernal_encode.cpp:516-524 | The six encoding tables, symbol by symbol |
| `Base32.CodeTables` | core/os/kernal_encode.cpp:487-549 | Both decoding tables, character by character |
| `Base32.SymbolOfCode` | core/os/kernal_encode.cpp:526-540 | In the extended hex alphabet the encoding table undoes the decoding one, up to case |
| `Base32.TextIsUnpacked` | core/os/kernal_encode.cpp:615-679 | Decoding by groups is unpacking of the codes of the whole text, provided the table knows every symbol |
| `Base32.Base32Encode` | core/os/kernal_encode.cpp:561-605 | The loop and the short last group write the encoding and nothing behind it |
| `Base32.Base32Decode` | core/os/kernal_encode.cpp:607-680 | The loop accepts iff the abstract decoder does, and then fills the buffer with its result |
| `Utf8.DecodeEncoded` | core/os/kernal_encode.cpp:23-138 | For every sequence of 16-bit units decoding undoes encoding whatever follows in memory, every cell is written, and UTF8DecodeLength is the number of units |
| `Utf8.DecodeLengthExact` | core/os/kernal_encode.cpp:45-64 | UTF8DecodeLength is the number of cells decoding steps over, for every text |
| `Utf8.BehindUnread` | core/os/kernal_encode.cpp:117-138 | The bytes behind a text do not matter unless its last sequence is cut off |
| `Utf8.EveryCellWritten` | core/os/kernal_encode.cpp:117-138 | Decoding leaves no cell unwritten iff every step starts at a lead byte of one to three bytes |
| `Utf8.StrayByteSkipped` | core/os/kernal_encode.cpp:117-138 | A byte that leads nothing takes one unwritten cell and one step |
| `Utf8.EncodeConcat` | core/os/kernal_encode.cpp:23-41 | Encoding distributes over concatenation |
| `Utf8.UnitRoundTrip` | core/os/kernal_encode.cpp:28-38 | One unit reads back whatever follows it |
| `Utf8.Example` | core/os/kernal_encode.cpp:23-41 | The first example of section 7 of RFC 3629 encodes as printed there |
| `Utf8.UTF8EncodeLength` | core/os/kernal_encode.cpp:6-21 | The counting loop gives the length of the encoding |
| `Utf8.UTF8Encode` | core/os/kernal_encode.cpp:23-41 | The loop writes the encoding, and one zero byte more after a last unit of three bytes |
| `Utf8.UTF8DecodeLength` | core/os/kernal_encode.cpp:45-64 | The counting loop computes the abstract count |
| `Utf8.UTF8Decode` | core/os/kernal_encode.cpp:117-138 | For every text, cut off or not, the loop writes the decoded units, completing the last one from the bytes behind, and leaves the skipped cells as they were |
| `GarbageBin.RunOnTime` | core/os/multi_thread.cpp:48-115 | In every run of adds and sweeps each freed object went at once (TTL 0) or on exactly the sweep its TTL says, the waiting ones are as old as the sweeps they saw, in order, and freed plus pending are everything handed over |
| `GarbageBin.DueWhenRounded` | core/os/multi_thread.cpp:113-113 | That sweep is the ceil(TTL/1000)-th iff TTL + 999 fits 32 bits; a longer TTL goes on the first sweep |
| `GarbageBin.ExitFreesEverythingOnce` | core/os/multi_thread.cpp:77-83 | After exit every object handed over has been freed exactly once and nothing else |
| `GarbageBin.ReplacedObjectSurvives` | core/os/multi_thread.h:809-816 | An object replaced through ThreadSafeMutable survives all but the last of its sweeps |
| `GarbageBin.Sweeper.constructor` | core/os/multi_thread.cpp:24-28 | An empty bin |
| `GarbageBin.Sweeper.Tick` | core/os/multi_thread.cpp:18-21 | Ages one item; true while it must not be deleted |
| `GarbageBin.Sweeper.SweepOnce` | core/os/multi_thread.cpp:58-74 | In-place ticking, compaction and shrinking computes the abstract sweep |
| `GarbageBin.Sweeper.DeleteObject` | core/os/multi_thread.cpp:88-115 | Frees at once or appends with the rounded TTL |
| `GarbageBin.Sweeper.DeleteRemaining` | core/os/multi_thread.cpp:77-83 | Frees what is pending, in order |
| `GarbageBin.Mutable.constructor` | core/os/multi_thread.h:819-819 | No object yet |
| `GarbageBin.Mutable.EndUpdate` | core/os/multi_thread.h:809-816 | A replaced object is handed to the sweeper with old_TTL; no new object or nothing to replace hands over nothing |
| `ParallelWriter.FinalizedClaimLost` | core/os/multi_thread.h:871-880 | From the initial state: one byte claimed, finalized and written down is the output; with an empty claim before it, the output is empty |
| `ZipSpace.PartitionCanBreak` | core/os/file_zip.cpp:284-302 | Concrete inputs that break the partition: a claim of 2^32 - 1 bytes, and the removal of a zero-sized entry |
| `ZipDirectory.NamelessArchiveLost` | core/os/file_zip.cpp:130-142 | Adding one byte without a name to an empty archive and saving it gives a file that Open rejects |
| `Conditional.StrayEndifUnreported` | core/os/precompiler.cpp:282-284 | A stray #endif is reported alone, and not after one taken branch |
| `CarriageReturn.MisledLosesLine` | core/os/high_level.cpp:438-456 | The extra CR of a misled call erases a line that the whole stream keeps |
| `Base64.LengthFallsShort` | core/os/kernal_encode.cpp:310-332 | Concrete members of both families |
| `Base32.LooseTailCollides` | core/os/kernal_encode.cpp:661-666 | Two accepted texts of the same data |
| `Base32.CrockfordLetsUnknownPass` | core/os/kernal_encode.cpp:544-549 | A text with a character outside the alphabet is accepted |
| `GarbageBin.LongestTtlGoesFirst` | core/os/multi_thread.cpp:113-113 | The longest TTL is over on the first sweep |

## Left out

- MpscQueueImpl.ProducerConsumerQueue.Reset: allocation always succeeds; a capacity above 2^30 is not tied to the step system.
- MpscQueueImpl.ProducerConsumerQueue.ProduceCount: leaves out counts beyond 2^31.
- ParallelWriter.Writer.Reserve: what threads do with a claim that passed the test by overflow is not modelled; overflowing `int` sums wrap. The statistics and their averages are not modelled.
- ParallelWriter.Writer.constructor: zeroed buffers, which `Open` itself does not provide; sizes below 2^31, beyond which twice the size does not fit the field; allocation always succeeds.
- ZipArchive.AddedFileExtracts: store mode only; zlib streams and `m_CompressionMode` are not part of this model.
- ZipDirectory.SaveThenOpen: `Save` does not truncate, and stale bytes behind the directory that do look like an end record are left open. Archive comments, sorting of entries (`ReindexAllEntries`) and lookup by name are not modelled.
- CircularBuffer.Buffer.PushBlock: the writes for an oversized request, partly outside the buffer, are not modelled.
- QuickSelect.Partition: once the loop has run off the buffer nothing more is said than that it did. Elements are integers with their order.
- TopFrequent.Table.SampleValue: counts do not overflow `int`; `store_last_val`, `Remove` and the significance ratios are not modelled.
- Conditional.Precompiler.SubstituteFile: works on lines already classified; splitting of directive lines, bodies of macro functions (`_DefineMacroFunction`) and `_SubsituteMacrosInline` are parameters.
- IncludeExpander.Expander.CompileFile: works on classified lines; comment trimming, line joining with a trailing backslash and path resolution are not modelled, an include is its list of candidate names.
- HttpBody.Session.ReceiveChunked: no removal by the data callback while chunks arrive, plain hexadecimal size lines without extensions; bodies ended by closing the connection (`_RecvUntilClose`) are not modelled.
- HttpBody.Session.ReceiveContent: what the callback does with the null pointer it is shown when the sum wraps is not modelled, nor are buffers of 2^30 bytes and more, whose doubling overflows `int`.
- RequestFraming.Connection.Receive: URI decoding is not modelled; growing the receive buffer is invisible because the buffer is a sequence.
- Base32.Base32Decode: lengths that no encoding has go with a nonempty buffer; with an empty one the length test lets them pass and the source then reads and writes outside its arguments. What a failed call leaves in the buffer is not stated.
- Utf8.UTF8Decode: two bytes behind the text are readable, because the source reads them when its last sequence is cut off.
- GarbageBin.Sweeper.DeleteObject: the thread start, the lock and the debug-build check for double deletion are not modelled; a null object does nothing.
- `ThreadFence` and `TimeLimitedThreadSafeAccess`: their guarantees rest on timing between separate reads.
- Graphics, windows, user input, sockets, TLS, DNS, processes and files as such: foreign calls.
- JSON, Base16, URL and date conversions, statistics, logging, `HttpNavigator` and `HttpDownloader`: easy members, or helpers that are not part of this model.
