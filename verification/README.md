# Verified model of the AMC525 PCIe driver

The repository is a Linux driver for FPGA boards on PCIe. A board carries a
small PROM that names the device and its DMA regions; the driver reads it,
makes one device node per entry, and serves two kinds of file: DMA files, which
read and write a window of board memory through one shared DMA engine, and a
register file, which delivers interrupt events and an exclusive lock. This
project models that logic in Dafny and proves what it promises.

Verify everything with `dafny verify dfyconfig.toml`.

## Layout and main results

| files | subject | main result |
|---|---|---|
| `DmaSystem`, `DmaCompletion`, `AtomicMemory`, `DmaAtomic`, `DmaSignals`, `DmaRefinement`, `DmaProgress` | any number of DMA handles, the mutex, the byte-moving engine, the interrupt controller and the handler as interleaved steps; the atomic memory they are meant to be | every sound run refines the atomic memory, killed waits included, and every run without killed waits is sound; in those, each ended transfer gives one completion and no wait hangs; in all runs, at most one transfer in flight, aligned and inside its window |
| `DmaService` | calls that should succeed | reads and writes that should succeed can, from every initial state |
| `DmaRuns`, `DmaFaults` | what the steps that sound runs exclude lead to | from each of them a run to a response that no atomic memory gives, and runs from every initial state to all of them |
| `DmaStream` | one handle in a run of the device without writes | what it reads is its window over and over |
| `Bits`, `DmaWindow`, `DmaFile` | window, alignment and file position arithmetic; the read and write calls as statements | repeated reads give device memory over and over; each call returns or stores the right slice |
| `Checksum`, `PromFormat`, `PromCells`, `PromLoader`, `PromIndex`, `PromRecords`, `PromRoundTrip` | the Python image writer, the memory cells, the C loader and its lookups | the loader accepts what the writer wrote and reads back the configuration, if and only if the names are ASCII without NUL |
| `Lifetime` | reference count, completion, removal, freeing | removal ends only with no handle open, signalled exactly once, and can always end; when the structure is used after it is freed |
| `RegisterDevice`, `RegisterFile` | reader slots, event masks, exclusive register lock | each reader gets the events posted to it, no more, no fewer and nobody else's; the lock has one owner, who is alone |
| `Boards` | board numbers, blocks of minors, probe and removal | boards never share a number or a node |

`Wrappers` holds the option type and `Errno` the error numbers.

Where the original updates state in place the model does too (`DmaFile`,
`Boards`, `RegisterFile`, the loops of the PROM modules). Protocols between
concurrent parties are state machines: a state, an `Enabled` predicate, an
`Apply` function, and theorems over every run.

## Findings

- A wait that is killed (driver/dma_control.c:205-211) leaves its transfer
  running. A run is *sound* when no transfer is started while a signal of an
  earlier one is about, and a transfer left behind changes neither device memory
  nor bytes that a write has copied in; sound runs are atomic
  (`DmaRefinement.SoundRunsAreAtomic`). The three ways to be unsound all happen:
  - A write copies its bytes into the buffer (driver/memory.c:83) before the
    engine is reset (driver/dma_control.c:166), and a read left behind can
    overwrite them in between. The write then answers with success having stored
    something else (`DmaFaults.KilledReadSpoilsWrite`).
  - A write left behind goes on changing the device after its call has returned
    (`DmaFaults.KilledWriteGoesOn`).
  - The signal of a transfer that ended just before the kill ends the next wait.
    The next read then answers with the killed one's bytes
    (`DmaFaults.KilledReadAnswersNext`). A wait can end too early exactly when
    such a signal is about at the start (`DmaCompletion.EarlyWakeExactly`).
- A write sends its whole count even after a partial copy from the user
  (driver/memory.c:83-87). It has stored its user's bytes if and only if it
  copied as many as it transferred, or the buffer held the rest before
  (`DmaFile.MemoryFile.Write`, `DmaFaults.PartialCopyStores`).
- The writer puts the number of characters of a name in the size byte, not the
  number of encoded bytes (driver/tools/prom_data_creator.py:58, 64, 73). A name
  outside ASCII derails every walk over the image, and a NUL cuts the name:
  `PromRoundTrip.RoundTrip` is an equivalence.
- An image of exactly 4096 bytes is refused, though it fits the memory
  (driver/prom_processing.c:201).
- A change from 0x0000 to 0xffff in one word, or back, passes the checksum.
- The repository's README.rst says that only DMA reads are supported (line 45);
  the code writes as well (driver/memory.c:61-99). The model follows the code.
- A probe that fails after making nodes leaves them behind
  (driver/amc_pci_core.c:290-293, 499-502): those before the first entry out of
  place when creation fails, all of them when a sysfs file cannot be made
  (`Boards.Driver.FinishProbe`, `Boards.NodesMadeExactly`).
- `amc_pci_open` tests a count that lies in the structure `amc_pci_remove` frees
  (driver/amc_pci_core.c:149, 538), and nothing waits for an open that has found
  the structure and not yet tested the count. The structure is used after it is
  freed exactly when there is such an open at that moment
  (`Lifetime.FreeIsSafeExactly`).
- `read_prom` rounds an offset down to a word, so that a read at any other offset
  gets bytes from before it (driver/prom_processing.c:144, `PromCells.OffsetIsExact`).

## Model

| member | source | states |
|---|---|---|
| `Bits.AlignMeaning` | driver/memory.c:119 | the mask form of ALIGN on 64-bit words is rounding up to a multiple, for every power of two |
| `Bits.AlignDownMeaning` | driver/memory.c:121-122 | the mask form of ALIGN_DOWN is rounding down to a multiple, for every power of two |
| `Bits.IsAlignedMeaning` | driver/dma_control.c:161-163 | the mask form of IS_ALIGNED is divisibility |
| `Checksum.CalcChecksum16` | driver/utils.c:3-14 | the loop, wrapping at 32 bits, gives the complement of the completely folded word sum for every string up to 131074 bytes |
| `Checksum.PythonChecksum` | driver/tools/prom_data_creator.py:98-106 | the writer's loop on unbounded integers gives the same reference value |
| `Checksum.SumFitsAccumulator` | driver/utils.c:5-10 | up to 131074 bytes the word sum fits the 32-bit accumulator |
| `Checksum.AccumulatorBoundIsTight` | driver/utils.c:5-10 | with one byte more the C and Python results can differ |
| `Checksum.TwoFoldsSuffice` | driver/utils.c:11-12 | two folds of a 32-bit sum leave no carry and give its residue modulo 65535, zero only for a zero sum |
| `Checksum.ChecksumsAgree` | driver/tools/prom_data_creator.py:98-106 | C result, Python result and the fold-until-done reference are equal up to 131074 bytes |
| `Checksum.ZeroChecksum` | driver/prom_processing.c:61-64 | a string validates if and only if its sum is a nonzero multiple of 65535 |
| `Checksum.SealedImage` | driver/tools/prom_data_creator.py:109-118 | content with its end record has even length and checksum zero, for odd and even content |
| `Checksum.OneWordChange` | driver/utils.c:3-14 | a change within one word of a valid string goes unnoticed if and only if it swaps 0x0000 and 0xffff and leaves the sum nonzero |
| `PromFormat.ProcessConfigFile` | driver/tools/prom_data_creator.py:131-156 | the assembly loop yields the records in order followed by the end record, and fails exactly when some line is not packable |
| `PromFormat.ImageExactly` | driver/tools/prom_data_creator.py:55-82 | an image can be written if and only if in every line version, mask, shift and permission are bytes, base and length are below 2^64, and the name leaves the size a byte: 254 characters for the device, and for a region 243 in the short form and 237 in the long one |
| `PromFormat.EncodedLength` | driver/tools/prom_data_creator.py:55-74 | a name encodes to as many bytes as characters if and only if it is ASCII |
| `PromFormat.CharReadsBack` | driver/tools/prom_data_creator.py:59-74 | the encoding of a character is at most four bytes, continued in 0x80 to 0xbf, and decodes to it |
| `PromCells.IntFromByteArray` | driver/tools/prom_data_creator.py:27-32 | the shifting loop is the little-endian value |
| `PromCells.DumpCoe` | driver/tools/prom_data_creator.py:35-45 | the loop emits one little-endian 32-bit cell per four bytes, the last from fewer |
| `PromCells.BurntImage` | driver/tools/prom_data_creator.py:35-45 | burnt cells hold the image followed by zeros |
| `PromCells.ReadProm` | driver/prom_processing.c:138-152 | for any offset and count: refuses offsets beyond the memory, else copies whole words from the word the offset lies in, clipped to the end, and returns the clipped count; changes nothing behind the last word |
| `PromCells.OffsetIsExact` | driver/prom_processing.c:143-145 | the bytes returned are those at the offset asked for, for every memory, if and only if the offset is a multiple of four |
| `PromCells.FetchedSlice` | driver/prom_processing.c:138-152 | from a burnt image, any fetched slice is the image's slice, zeros after its end |
| `PromLoader.LoadProm` | driver/prom_processing.c:155-217 | loads exactly the well-formed buffers, with their counts and length, whatever byte lies beyond the buffer |
| `PromLoader.AcceptedExactly` | driver/prom_processing.c:178-208 | a buffer is accepted if and only if its version is 1, entries fill the bytes from offset 5 to an end tag of size two or three that ends before the last byte, and the sum of the words to there is a nonzero multiple of 65535 |
| `PromLoader.CountEntries` | driver/prom_processing.c:181-194 | the index walk ends, at the walk's stop, having counted all entries, the DMA entries and those that need a minor |
| `PromLoader.AcceptedTiles` | driver/prom_processing.c:181-205 | the entries of every accepted PROM fill the bytes from offset 5 to an end marker inside the data, without gap or overlap |
| `PromLoader.OneWordCorruption` | driver/prom_processing.c:196-208 | two accepted PROMs of one length that differ in one word have 0x0000 and 0xffff there |
| `PromIndex.FindEntry` | driver/prom_processing.c:81-92 | entry number `index` of the loader's walk, or nothing outside it |
| `PromIndex.FindEntryWithMinor` | driver/prom_processing.c:95-110 | found exactly for minors below the loader's count, and then that entry in order among those that need one |
| `PromIndex.FindEntryByTag` | driver/prom_processing.c:113-122 | the first entry with the tag, or none if no entry has it |
| `PromIndex.ValidIsMarked` | driver/prom_processing.h:22-25 | the pointer walk of an accepted PROM passes the loader's entries and stops at its validated end tag |
| `PromIndex.CreateDeviceNodes` | driver/amc_pci_core.c:225-294 | succeeds if and only if the kernel takes the character device and there is exactly one device entry, first among the nodes; makes nodes, numbered in order, up to the first entry out of place, also when it fails |
| `PromRecords.WalkFollows` | driver/prom_processing.c:181-194 | a walk over concatenated records visits exactly their starts if and only if every record's size byte is its length |
| `PromRoundTrip.RecordReadsBack` | driver/amc_pci_core.c:170-208 | a record, in any form, decodes to the tag, name, base, length, permission, mask or shift it was written from, if and only if no NUL cuts its name |
| `PromRoundTrip.Base48ReadsBack` | driver/amc_pci_core.c:183-185 | the three 16-bit words of the short form join to the base that the writer split in 32 and 16 bits |
| `PromRoundTrip.ImageIsAccepted` | driver/prom_processing.c:155-209 | a written image of ASCII names loads if and only if its version is the driver's and it is shorter than 4096 bytes, with the right length and counts |
| `PromRoundTrip.FallbackIsAccepted` | driver/prom_processing.c:164-169 | without the magic the built-in image is loaded instead, with its own entries |
| `PromRoundTrip.RoundTrip` | driver/tools/prom_data_creator.py:55-82 | walking and decoding a written image gives back the configuration if and only if every name is ASCII without NUL |
| `PromRoundTrip.PublishedConfiguration` | driver/tools/prom_data_creator.py:131-156 | from configuration through cells to driver: accepted and read back exactly |
| `DmaWindow.MaxTransferMeaning` | driver/dma_control.c:291-294 | the largest transfer is the largest multiple of the alignment within the 23-bit count and the buffer, and is not zero |
| `DmaWindow.PlanReadMeaning` | driver/memory.c:108-125 | a read faults exactly in the unaligned tail or when nothing is asked for at a block boundary; otherwise its transfer starts at the block of the position and ends where the request ends, rounded up, or the window, rounded down |
| `DmaWindow.ReadTransfer` | driver/memory.c:115-132 | the transfer of a read is aligned, within count register, buffer and window, covers the position, and offers at least one byte if any was asked for |
| `DmaWindow.ReadBytesInside` | driver/memory.c:115-134 | a read hands out bytes if and only if it asks for some, some can be copied, and its position is below the rounded-down length; how many: what is asked for and copied, as far as the window in whole blocks and the largest transfer reach |
| `DmaWindow.ReadsCycle` | driver/memory.c:102-140 | with aligned length, any successful reads from the start concatenate to a prefix of the window repeated for ever, at least a byte each, position below the length |
| `DmaWindow.ReadsStopShort` | driver/memory.c:102-140 | with unaligned length, they concatenate to a prefix of the window below its rounded-down length |
| `DmaFile.DmaControl.Operation` | driver/dma_control.c:183-227 | the return value in every case: misaligned, reset failed, transfer error, or the clipped count; what was moved, and the error bits and idle state after it |
| `DmaFile.DmaControl.Configure` | driver/dma_control.c:128-179 | refuses misaligned transfers; resets when error bits are set or the engine is not idle; on success neither is left |
| `DmaFile.MemoryFile.Read` | driver/memory.c:102-144 | the return value in every case, errors of the hardware included, and for a success exactly how many bytes; they are those of device memory at base plus position, and the position advances or wraps; device memory is unchanged |
| `DmaFile.MemoryFile.Write` | driver/memory.c:61-99 | the return value in every case; stores the copied bytes, followed after a partial copy by old buffer bytes, at base plus position; these are the user's bytes if and only if as many were copied as transferred or the buffer held the rest; changes nothing outside the window, and nothing at all unless a transfer was started |
| `DmaSystem.InvRun` | driver/memory.c:61-144 | in every run, killed waits included, the mutex holder is the only handle past the lock and its request lies in its window and the buffer |
| `DmaSystem.AdmitReadExactly` | driver/memory.c:108-130 | a read goes on to the lock exactly where the file device does not refuse it, with the range of whole blocks around its bytes, cut to the window and the largest transfer |
| `DmaSystem.AdmitWriteExactly` | driver/memory.c:67-87 | a write goes on to the lock exactly if it fits the rest of the window and the buffer, with its bytes cut to the largest transfer |
| `DmaSystem.StartsAreExclusive` | driver/dma_control.c:154-179 | in every run a transfer is started only under the mutex on an idle engine without error bits, aligned, within count register, buffer and window |
| `DmaSystem.OthersOnlyCall` | driver/dma_control.c:230-239 | while one handle holds the mutex the others can only enter a call, which changes nothing shared |
| `DmaCompletion.EarlyWakeExactly` | driver/dma_control.c:194-211 | a waiter can be woken before its own transfer has ended if and only if a signal of an earlier one was outstanding at its start |
| `AtomicMemory.FullCopy` | driver/memory.c:82-89 | in the atomic memory a write that copied all it transferred puts exactly its user's bytes in place |
| `AtomicMemory.WriteIsExact` | driver/memory.c:82-89 | a successful write is bound to have stored its user's bytes if and only if it copied at least as many as it transferred |
| `AtomicMemory.StoredExactly` | driver/memory.c:83-87 | what a partial copy leaves in the buffer is the user's bytes if and only if enough were copied or the rest was there before |
| `DmaAtomic.SteadyRun` | driver/memory.c:61-144 | in every sound run, killed waits included, the holder's stage fixes what memory and buffer hold: which bytes have moved, whose bytes they are, and that a leaving call has had the effect of an atomic one |
| `DmaSignals.OrderlyRun` | driver/dma_control.c:194-211 | in a run without killed waits there is no signal outside a wait and one at most in it, and every step is sound |
| `DmaSignals.LateKillsAreSound` | driver/dma_control.c:205-211 | a run is sound if its waits are killed only after the end of the transfer and its transfers are started with no stale signal about |
| `DmaRefinement.SoundRunsAreAtomic` | driver/memory.c:61-144 | every sound run of any number of handles, killed waits included, shows calls and results that the atomic memory shows: each successful read one slice, each successful write one update, at base plus position |
| `DmaRefinement.DeviceIsAtomic` | driver/memory.c:61-144 | so does every run without killed waits |
| `DmaRefinement.LateKillsAreAtomic` | driver/dma_control.c:205-211 | and every run whose kills come after the transfer, if their signals are gone before the next start |
| `DmaRefinement.UnlockExactly` | driver/memory.c:89-98 | a response is an atomic step if and only if its call has had the effect of one |
| `DmaRefinement.SignalsAreOneToOne` | driver/dma_control.c:145-151 | in such runs completions match ended transfers one to one; a waiter can wake only when its own transfer has ended, and none starts with a stale signal about |
| `DmaProgress.NoWaitHangs` | driver/interrupts.c:116-140 | in every state of such a run a waiting call can be brought to its end by the hardware and the handler alone: no signal is lost, even one raised between complete and acknowledge |
| `DmaService.ReadIsServed` | driver/memory.c:102-140 | from every initial state a read on an aligned window has, for every number of bytes asked for and reachable, a run in which it returns just those bytes of the window |
| `DmaService.WriteIsServed` | driver/memory.c:61-95 | from every initial state a write that fits, in whole blocks, has a run in which it stores as many of its bytes as one transfer takes and says so |
| `DmaFaults.HarmfulReadBreaks` | driver/dma_control.c:183-227 | from every steady state in which a read left behind is about to change a byte that a write has copied in and will send, that step leads to a write that answers with success and has not the effect of one |
| `DmaFaults.HarmfulWriteBreaks` | driver/dma_control.c:205-211 | from every steady state with the lock free and a read waiting for it in which a write left behind is about to change device memory, that step leads to a read that has not the effect of one |
| `DmaFaults.StaleStartBreaks` | driver/dma_control.c:194-222 | a transfer started with a stale signal about can be answered for before it has moved a byte, and the answer is an atomic one if and only if the bytes were in place already |
| `DmaFaults.KilledReadSpoilsWrite` | driver/memory.c:82-89 | from every initial state that admits a read and a write: a run, with no stale signal at any start, in which the killed read's transfer overwrites a copied byte and the write answers with success, broken whenever the bytes differ |
| `DmaFaults.KilledWriteGoesOn` | driver/dma_control.c:205-211 | from every initial state that admits a write and a read: a run in which the killed write changes memory after its call has returned |
| `DmaFaults.KilledTooLateIsReached` | driver/dma_control.c:194-211 | from every initial state that admits two reads: a run to a wait whose transfer has ended and whose interrupt is not served, with the other read at the lock |
| `DmaFaults.KilledWaitGoesStale` | driver/dma_control.c:205-211 | from every such state the kill and the next read's ordinary steps lead to its start with the signal still about |
| `DmaFaults.KilledReadAnswersNext` | driver/dma_control.c:194-222 | from every initial state that admits two reads: a run in which the second answers with the first one's bytes, an atomic answer if and only if they agree |
| `DmaFaults.PartialCopyStores` | driver/memory.c:83-89 | from every initial state that admits a write, and for every part of it that is copied: a run in which it answers with success, having stored its user's bytes if and only if enough were copied or the buffer held the rest |
| `DmaStream.HandleReadsCycle` | driver/memory.c:102-140 | in every sound run in which nobody writes, what the successful reads of a handle return, put together, is its window repeated for ever, at least a byte each |
| `Lifetime.RemovalIsSafe` | driver/amc_pci_core.c:516-532 | in every run the count is the driver's hold plus opens in progress plus handles, complete is called at most once and exactly once by termination, which finds nothing open |
| `Lifetime.ZeroIsFinal` | driver/amc_pci_core.c:149-150 | once zero, the count stays zero, and every later open that tests it before the structure is freed takes nothing |
| `Lifetime.OpenIsLetInExactly` | driver/amc_pci_core.c:149-150 | in every reachable state before the free, an open raises the count and goes on if and only if the driver, an open in progress or a handle holds it; otherwise it takes nothing |
| `Lifetime.OpenIsServed` | driver/amc_pci_core.c:141-216 | in every reachable state of a running board any newcomer can open it by its own steps and is then counted |
| `Lifetime.RemovalIsNeverStuck` | driver/amc_pci_core.c:119-125 | from every reachable state, closing the handles lets the removal end: no wake-up is lost |
| `Lifetime.FreeIsSafeExactly` | driver/amc_pci_core.c:524-539 | the freed structure can be used if and only if, when it is freed, an open has found it and not yet tested its count |
| `Lifetime.StrayOpenHappens` | driver/amc_pci_core.c:141-150 | a run from the start in which such an open tests the freed count |
| `RegisterDevice.LockIsExclusive` | driver/registers.c:50-82 | in every reachable state the reference count is the number of live contexts, and an owner of the lock is the only one |
| `RegisterDevice.LockGranted` | driver/registers.c:108-129 | the lock is given if and only if the asker is the only live context and there is no owner |
| `RegisterDevice.UnlockUndoesLock` | driver/registers.c:132-148 | an owner's unlocking brings back the state before its locking; an unlocking without ownership changes nothing |
| `RegisterDevice.SlotsAreExclusive` | driver/interrupts.c:48-69 | in every reachable state contexts hold different reader slots, and the bits set are exactly the slots held, through every failing open |
| `RegisterDevice.OpenIsServed` | driver/registers.c:28-67 | in every reachable state with a free slot an open left to itself gets the lowest one, emptied, and is counted if nobody owns the lock; else it fails and gives the slot back |
| `RegisterDevice.OpenFailsWhenFull` | driver/interrupts.c:48-62 | with no slot free an open fails and changes nothing |
| `RegisterDevice.CloseIsServed` | driver/registers.c:70-84 | in every reachable state a context that nobody reads from can close by its own steps, and it, its count, its slot and its lock are gone |
| `RegisterDevice.EventsAreConserved` | driver/interrupts.c:78-111 | in every run, for every context with a cleared slot: the bits posted to it since then are those its own calls came back with and those pending, and its next call comes back with exactly what was posted since its last exchange, or sleeps on if that is nothing and it may wait |
| `RegisterDevice.BlockingReadReturnsEvents` | driver/interrupts.c:87-93 | in every reachable state a blocking read that has returned has returned some event |
| `RegisterDevice.ReadIsServed` | driver/interrupts.c:78-94 | with events pending, a call that begins or wakes comes back with just these; a sleeping call can be interrupted |
| `RegisterDevice.InterruptedReadIsInvisible` | driver/interrupts.c:87-93 | in every run a blocking read that is interrupted or asleep has taken nothing: the same run without the call leaves the same device |
| `RegisterDevice.EveryReaderGetsThePost` | driver/interrupts.c:104-111 | a handler that has finished has posted its whole mask to every context that kept its slot, whatever came in between |
| `RegisterDevice.InterruptReachesEveryReader` | driver/interrupts.c:104-111 | an interrupt that has been handled from start to end has posted its mask to every context that kept its slot |
| `RegisterDevice.NothingIsMadeUp` | driver/interrupts.c:104-111 | no bit is posted to a reader that no interrupt brought |
| `RegisterFile.InterruptControl.AssignReaderNumber` | driver/interrupts.c:48-62 | gives the lowest free slot with its events cleared, and fails if and only if there is none |
| `RegisterFile.InterruptControl.EventInterrupt` | driver/interrupts.c:104-111 | the loop adds the mask to all slots |
| `RegisterFile.InterruptControl.ReadInterruptEvents` | driver/interrupts.c:78-94 | without waiting takes what is pending; waiting takes what is pending or else the first event that comes before an interruption, with the other slots gaining it; interrupted it takes and changes nothing |
| `RegisterFile.RegisterLocking.Open` | driver/registers.c:28-67 | succeeds if and only if there is a slot, memory and no owner; counts the context in with a fresh, empty slot; a failed open leaves slots and count as they were |
| `RegisterFile.RegisterLocking.Release` | driver/registers.c:70-84 | drops the lock if it was the owner's, the count and the slot |
| `RegisterFile.RegisterLocking.Lock` | driver/registers.c:108-129 | granted exactly to the only live context when nobody owns the lock |
| `RegisterFile.RegisterLocking.Unlock` | driver/registers.c:132-148 | only the owner can give the lock up |
| `Boards.Driver.GetFreeBoard` | driver/amc_pci_core.c:325-337 | the lowest free number below four, or an error if and only if all are taken |
| `Boards.Driver.BeginProbe` | driver/amc_pci_core.c:461-480 | takes a number nobody has, or leaves everything as it was |
| `Boards.Driver.FinishProbe` | driver/amc_pci_core.c:482-511 | succeeds exactly on the kernel's and the PROM's good answers, and which error comes first; when it succeeds the board has its nodes, all in its own block; when it fails the number is free again, exactly the nodes made so far are left behind, and other blocks are untouched |
| `Boards.NodesMadeExactly` | driver/amc_pci_core.c:240-293 | a probe makes no node if and only if it fails before creation or the first entry that needs a minor is not the device entry, and all of them if and only if the device entry is the only one and first |
| `Boards.Driver.DestroyDeviceNodes` | driver/amc_pci_core.c:297-306 | destroys exactly one minor per PROM entry from the board's first |
| `Boards.Driver.BeginRemove` | driver/amc_pci_core.c:524-530 | none of the board's nodes is left and no other block is touched |
| `Boards.Driver.FinishRemove` | driver/amc_pci_core.c:532-539 | the number is free again; other boards keep theirs |
| `Boards.Driver.EntryOf` | driver/amc_pci_core.c:154-158 | opening a minor finds an entry if and only if the board owns that node, and it is the entry the node was made for |
| `Boards.DestroyCovers` | driver/amc_pci_core.c:297-306 | what removal destroys includes every node creation made and stays in the board's block |
| `Boards.NodesAreDisjoint` | driver/amc_pci_core.c:466 | different boards have disjoint blocks of sixteen minors and disjoint nodes |
| `Boards.NodesHaveOneOwner` | driver/amc_pci_core.c:240-287 | while no probe has failed half-way, the nodes are exactly the bound boards' nodes, each with one owner |

## Assumptions

- A window's `base + length` and a read's `count` stay below 2^63, so that no
  64-bit sum wraps; the alignment is at most 2^22 and at most the buffer, so
  that the largest transfer is not zero.
- Each handle has one call outstanding at a time; the file position is the
  handle's own.
- The host is little-endian. The DMA interrupt line is level-triggered, and
  the engine's idle, interrupt and error bits behave as the driver's comments
  say. Error bits are cleared by a reset only.
- Event masks are sets of bit numbers. A context is not released while a call is
  reading from it, as the kernel's file layer sees to.
- The image compiled in as `default_prom` is a parameter of the loader.

## Left out

- Seeking, mapping, polling, ioctl dispatch, permission flags and `prom_used`: single-branch wrappers.
- Reading the configuration text, the hexadecimal text of the two output formats and command line handling: the model starts from parsed fields and ends with cells.
- The reset deadline and its polling loop: a reset is one step that works or fails.
- Cache synchronisation, page allocation, DMA mapping and mask setting.
- Releasing memory and mappings when a probe fails: the code does not unwind all of it, and no balance is claimed.
- The events between the interrupt controller's pins and `event_interrupt`: a repeat of a bit between reading and acknowledging the status is merged there.
- The copy of events to the user in `amc_pci_reg_read`: events are already consumed when it fails.
- Return codes of DMA calls refused before the lock are silent in the interleaved system; `DmaFile` states them.
- DmaRefinement.SoundRunsAreAtomic: the abstract memory is the one the last finished call left; a write left behind that changes memory between two calls counts as unsound, though nobody may ever read the bytes.
- DmaFaults.HarmfulWriteBreaks: needs a free lock and a read waiting for it; a write that holds the lock and fails may hide the change.
- AtomicMemory.Effect: of a failed write it says only that some bytes from the position on, inside the window, may have changed.
- DmaFile.DmaControl.Operation: runs one call to its end, without a killed wait; interleaving and kills are in DmaSystem.
- RegisterFile.RegisterLocking.Open: runs one call to its end; the interleaving of opens, events and reads is in RegisterDevice.
- Boards.Driver.GetFreeBoard: one caller at a time; a race on the bit mask is modelled for reader slots in RegisterDevice, which use the same test-and-set loop.
