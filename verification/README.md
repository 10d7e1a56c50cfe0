# Verified model of an x86 emulator core

This project models the parts of an emulator for the x86 family where the same
information is kept in two places, or where a printer and a reader must agree,
and proves that they do. It covers seven areas.

- Memory access. Segmented reads and writes are cut into chunks at the end of a
  64 KiB segment and again at the end of a page; each layer is proved equal to a
  map of single bytes (`SegmentedAccess.dfy`). Behind them the emulator keeps a
  directory of lazily allocated pages, which refines a flat memory of 16 MiB
  (`PageDirectory.dfy`). In front of them lies the prefetch queue, a cache of the
  code after the instruction pointer (`PrefetchQueue.dfy`).
- The NEC V25, whose register file and on-chip RAM mirror each other
  (`V25.dfy`). One view of memory is defined, in which the words of the current
  bank are the live registers; reads return it, writes update exactly the
  addressed bytes of it, and switching banks leaves it alone.
- The queue instructions of the NEC V55, linked lists in raw memory that refine a
  sequence of links (`V55Queue.dfy`).
- The DMA transfers of the Intel 8089, a step machine (`X89Transfer.dfy`).
- The builder of the initial process stack and the allocator of descriptor table
  entries, each against its reader (`InitialStack.dfy`, `GdtEntries.dfy`).
- Interrupt entry and return of the 8086, escalation to double and triple
  faults, and the long mode control registers (`Interrupts.dfy`,
  `FaultEscalation.dfy`, `ModeControl.dfy`).
- Bit fields, flag formulas, and the processor tests generated from the
  instruction table (`Bitfields.dfy`, `FlagFormulas.dfy`, `CpuConditions.dfy`).

`ByteMemory.dfy`, `FlagsWord.dfy` and `Arithmetic.dfy` hold what several of them share: memory as a
total function from addresses to bytes, block stores, stores into a memory that
wraps, and words as sixteen binary digits.

Code that changes state is modelled by classes whose methods change their fields;
each method is tied to a function of the old state, and what the emulator
promises is proved about that function or about runs of the methods. External
memory is reached without side effects; it, the input processors and the faults
that a delivery meets are parameters. Registers that the code touches only
through bitwise operations are sets of bit numbers (`ModeControl`, `Bitfields`).

What the shared definitions mean is stated once more in plain numbers, so that no
definition is only compared with itself: bytes at addresses, binary digits, masks
and vectors (the members named `...InBytes`, `...Image`, `...Meaning` and
`...InNumbers`, and the contracts of the main operations).

## Where the code falls short

Each of these is proved, with the exact condition under which the code does what
it should.

- V55: removing the last link of a queue fails exactly when its unused forward
  word names the link itself; an ordinary run of insertions and removals on an
  empty queue leads there (`V55Queue.Cpu.QueueOut`, `V55Queue.RemovalCanFail`).
  Removing a link keeps the backward links exactly when it is the first or the
  last, because the link after it comes to name itself; and a search for a link
  that is not in the queue can write over the header
  (`V55Queue.StrayWriteHappens`).
- Prefetch queue: a fill runs past the 16-byte buffer exactly when the queue was
  drained to its last byte and its start plus its size exceed 16, because only a
  queue with bytes left is moved to the front; three 6-byte instructions in a row
  do it (`PrefetchQueue.Fetcher.Run`, `PrefetchQueue.DrainedQueueOverruns`).
  After a drain a rewind to the current instruction leaves the queue out of step
  with the instruction pointer (`PrefetchQueue.RewindAfterDrain`).
- V33: writing and reading back is right for every page map exactly up to
  16 KiB (`SegmentedAccess.BankedRoundTrip`).
- Descriptor tables: an allocation with a table limit of 0xFFF8 or more wraps to
  selector 0 (`GdtEntries.Tables.AllocateGdtEntry`).
- Initial stack: the terminator of the argument array is never written, so the
  array ends there exactly if that slot was zero before; and the 8-bit layout
  stores its pointer to the arguments without the segment base, so in zeroed
  memory a program finds them exactly if its segment starts at 0
  (`InitialStack.LaunchReadsBack`).
- Fault escalation: a benign exception raised during the delivery of another one
  does not reset the class that later ones are compared with. A chain is
  handled as the table of the manual says exactly if every exception that follows
  a benign one has a higher class than the latest one that was not benign
  (`FaultEscalation.Cpu.Step`); and benign exceptions can nest without bound
  (`FaultEscalation.BenignChain`).
- Mode control: the guards of CR0 and CR4 leave out checks of the manual: invalid
  combinations of PG and PE and of NW and CD, the L bit of the code segment and
  the type of the TSS when long mode is activated, and the conditions on
  process-context identifiers. `ModeControl.PagingAgainstManual` and
  `ModeControl.StructureAgainstManual` say exactly where they agree.
- Mode control: a reset without initialisation, which only users of the public
  entry `x86_reset` can ask for, clears CR4 but keeps PG and EFER, so it leaves
  an incoherent state exactly when long mode was active
  (`ModeControl.ControlUnit.SoftReset`). The `value &= ~X86_EFER_LME` after a
  write of CR0 or CR4 has no effect and is left out.
- Processor tests: for a set without any processor of the list the generated test
  is always true (`CpuConditions.MakeCondition`).

## Model

| member | source | states |
|---|---|---|
| SegmentedAccess.MemoryUnit.PageTranslate | src/cpu/memory.c:378-404 | The physical address and the number of bytes left on its page: the address modulo 2^20, or the place in its 16 KiB window with the page register of that window, 64 windows to each 1 MiB |
| SegmentedAccess.WindowPhysical | src/cpu/memory.c:381-388 | Byte r of window k, in any 1 MiB, is byte r of page `pages[k]` modulo 2^10 |
| SegmentedAccess.OtherWindows | src/cpu/memory.c:381-388 | Changing a page register moves its own windows and no other |
| SegmentedAccess.MemoryUnit.MemoryRead | src/cpu/memory.c:546-561 | A read of any length returns for each byte the byte at its own address, modulo 2^20 or through the page register of its window, although each chunk reads past its page; nothing else in the buffer changes |
| SegmentedAccess.ReadExtends | src/cpu/memory.c:556-559 | A chunk that reads all remaining bytes still extends the result by exactly the bytes of its own page |
| SegmentedAccess.MemoryUnit.MemoryWrite | src/cpu/memory.c:618-633 | Without paging each byte lands at its address modulo 2^20, the last one of a cell stays, and nothing else below 1 MiB changes; with paging up to 16 KiB land through the page registers of their windows; always the write is the composition of its overlapping chunk stores |
| SegmentedAccess.ChunkedStoreIsRing | src/cpu/memory.c:618-633 | Without paging, the chunk stores are the byte-at-a-time write in a 1 MiB ring, below 1 MiB |
| SegmentedAccess.MemoryUnit.SegmentedRead | src/cpu/memory.c:766-828 | Byte `i` of a read of any length is the byte at offset `o + i` modulo 64 KiB, modulo 2^20 or through the page register of its window |
| SegmentedAccess.MemoryUnit.SegmentedWrite | src/cpu/memory.c:986-1048 | Without paging each byte lands at (base + (offset + i) mod 2^16) mod 2^20, the last 64 KiB stay, and nothing else below 1 MiB changes; with paging up to 16 KiB land through the page registers of their windows, across the end of the segment too |
| SegmentedAccess.SegmentChunksAreBytes | src/cpu/memory.c:1012-1027 | The pieces at the 64 KiB wrap and the chunks at the 1 MiB wrap together amount to one byte at a time |
| SegmentedAccess.SegmentStoreExact | src/cpu/memory.c:986-1048 | A write leaves each byte of its last 64 KiB at (base + (offset + i) mod 2^16) mod 2^20 and changes no byte that it does not reach |
| SegmentedAccess.SegmentPhysicalInjective | src/cpu/memory.c:398-404 | The bytes of an access of up to 64 KiB have different addresses |
| SegmentedAccess.BankedWriteLands | src/cpu/memory.c:381-388 | A V33 write of up to 16 KiB leaves each byte where the page register of its own window puts it, for every page map, aliasing ones included |
| SegmentedAccess.SegmentChunksLand | src/cpu/memory.c:986-1048 | A segmented V33 write leaves a byte at its own translated address, across the end of the segment too, if no other value belongs at its place in a page |
| SegmentedAccess.ChunksKeep | src/cpu/memory.c:618-633 | Where a chunk runs past its page, it writes each byte at its own place of another page: a cell changes only to a value that belongs at its place |
| SegmentedAccess.BankedRoundTrip | src/cpu/memory.c:381-388 | Writing and reading back returns the data for every V33 page map, memory and data if and only if there are at most 16 KiB |
| PageDirectory.Directory.GetPage | src/x86emu.c:867-877 | Allocating a page on first use leaves the visible contents as they were |
| PageDirectory.Directory.MemoryRead | src/x86emu.c:879-900 | A read of any length, across any pages, returns the bytes of the flat memory modulo 2^24 |
| PageDirectory.Directory.MemoryWrite | src/x86emu.c:955-976 | A write of any length is the byte-at-a-time write to the flat memory modulo 2^24 |
| PageDirectory.Directory.CopyIn | src/x86emu.c:963-971 | A copy into one page is the byte-at-a-time write to the flat memory and leaves all other pages alone |
| PageDirectory.Directory.Run | src/x86emu.c:862-976 | Any sequence of reads and writes leaves the contents and returns the results of the flat memory |
| PageDirectory.FlatStoreMeaning | src/x86emu.c:955-976 | Of the bytes of a write that reach a cell modulo 2^24 the last stays, and no other cell changes |
| PageDirectory.WriteThenRead | src/x86emu.c:879-976 | A read after a write returns the bytes written, wherever addresses meet modulo 2^24, and elsewhere what it returned before the write |
| PrefetchQueue.Fetcher.SetIp | src/cpu/registers.c:4-9 | A jump leaves a queue that agrees with the instruction pointer |
| PrefetchQueue.Fetcher.Flush | src/cpu/memory.c:662-667 | An empty queue agrees with any instruction pointer |
| PrefetchQueue.Fetcher.Compact | src/cpu/memory.c:677-681 | Moving the queued bytes to the front keeps the queue a copy of the code |
| PrefetchQueue.Fetcher.FillQueue | src/cpu/memory.c:669-699 | A fill stays inside the 16-byte buffer if and only if the queue was not drained exactly or its start leaves room; then the queue is full, its bytes are the code at the instruction pointer, and the pointers agree, whether or not they did before |
| PrefetchQueue.Fetcher.FetchBytes | src/cpu/memory.c:598-616 | A fetch returns the code bytes at the instruction pointer, whatever part of them is queued, takes exactly that part and moves the instruction pointer past them |
| PrefetchQueue.Fetcher.Rewind | src/cpu/memory.c:655-660 | After a rewind the queue agrees with the instruction pointer if and only if that was set back to the front of the buffer |
| PrefetchQueue.Fetcher.Run | src/cpu/memory.c:598-699 | In any run of jumps, fills and fetches every fetch returns what a fetch without a queue would, up to the first fill that overruns the buffer; there is none if and only if every fill of the run fits, which the step sequence alone decides |
| PrefetchQueue.Fetcher.Perform | src/cpu/memory.c:598-699 | One step of such a run moves the counters of the queue as described, and fails exactly for a fill that overruns |
| PrefetchQueue.DrainedQueueOverruns | src/cpu/memory.c:677-694 | With a 6-byte queue the run fill, fetch 6, fill, fetch 6, fill overruns at its last fill and not before |
| PrefetchQueue.RewindAfterDrain | src/cpu/memory.c:655-660 | After a drained queue was filled again, rewinding to the start of the current instruction leaves a queue that holds the code from the instruction before |
| V25.Cpu.StoreRegisterBank | src/cpu/registers.c:171-189 | Afterwards every byte of the on-chip RAM is what a program sees, and that has not changed |
| V25.Cpu.LoadRegisterBank | src/cpu/registers.c:192-210 | Afterwards the registers are what the current bank stores |
| V25.BankImage | src/cpu/registers.c:171-210 | Which bytes of the current bank show which register, low byte first, and that all other bytes are the stored ones |
| V25.ViewImage | src/cpu/memory.c:161-234 | At which addresses the on-chip RAM and its base register are seen |
| V25.Cpu.SetRegisterBankNumber | src/cpu/registers.c:212-217 | Switching banks leaves the view of the whole memory unchanged |
| V25.Cpu.ReadNoPaging | src/cpu/memory.c:161-234 | A read below 1 MiB returns the view, live registers included, and leaves it unchanged |
| V25.Cpu.WriteNoPaging | src/cpu/memory.c:237-315 | A write that does not cover the registers that place the RAM updates exactly the addressed bytes of the view, live registers included |
| V25.Cpu.WriteMapped | src/cpu/memory.c:237-315 | Even a write that moves the RAM puts each byte where the RAM was mapped before it |
| V25.Cpu.FlagsSet16 | src/cpu/registers.c:301-351 | Loading FLAGS sets the flags and the bank number and otherwise leaves the visible RAM alone, whether or not the bank changes |
| V25.FlagsRoundTrip | src/cpu/registers.c:240-351 | Setting FLAGS from a saved FLAGS word restores every flag and the bank number |
| V25.PswImage | src/cpu/registers.c:238-298 | The FLAGS word as a number, with F0, F1 and the bank number |
| V25.PswLoaded | src/cpu/registers.c:254-351 | Which digit of a FLAGS word each flag and the bank number are loaded from |
| V25.Cpu.EnterInterruptBankSwitching | src/cpu/protection.c:2279-2300 | Entry saves FLAGS and the return address in the new bank, takes the vector from it, and changes nothing else a program sees |
| V25.Cpu.ReturnFromBankSwitching | src/cpu/x86.isa:3621-3625 | RETRBI restores the flags, the bank and the instruction pointer from the save area |
| V25.Cpu.BankInterruptRoundTrip | src/cpu/protection.c:2279-2300 | Entry into another bank, any handler that leaves the interrupted bank and the save area alone, and RETRBI restore the whole register file, IP and FLAGS |
| V25.EnterInBytes | src/cpu/protection.c:2279-2300 | Entry in bytes of the on-chip RAM: where FLAGS and the return address are saved, and where the address of the handler comes from |
| V25.ReturnInBytes | src/cpu/x86.isa:3621-3625 | RETRBI in bytes of the on-chip RAM |
| V25.SameBankSameRegisters | src/cpu/registers.c:171-210 | The visible bytes of the current bank determine the registers |
| V55Queue.Cpu.QueueTailIn | src/cpu/x86.c:729-748 | Insertion appends the link to the sequence, with head, tail, forward and backward links right; it stores the link at the last one and in the header and the last one behind the link, low byte first, and changes no other byte |
| V55Queue.QueueInBytes | src/cpu/x86.c:641-748 | Memory holds a queue exactly if the bytes of the header name its ends and those at 16 times a link plus the field offset name the next link |
| V55Queue.BackInBytes | src/cpu/x86.c:711-747 | The backward links are right exactly if the two bytes behind name the link before |
| V55Queue.InsertionInBytes | src/cpu/x86.c:729-748 | Every byte after the writes of an insertion |
| V55Queue.Append | src/cpu/x86.c:733-747 | The writes of an insertion append a link, whatever the order of cells in memory |
| V55Queue.Cpu.QueueHeadOut | src/cpu/x86.c:641-666 | Removal at the head returns and drops the first link, or reports an empty queue and changes nothing; the two bytes of the head become those at the first link, or zero, and no other byte changes |
| V55Queue.DropFirst | src/cpu/x86.c:654-663 | Naming the second link as the head drops the first one |
| V55Queue.BeheadingInBytes | src/cpu/x86.c:654-663 | Every byte after a removal at the head |
| V55Queue.Cpu.QueueOut | src/cpu/x86.c:669-726 | A link of the queue is removed, and only it, if and only if it is not a last link whose forward word names itself; its removal keeps the backward links if and only if it is the first or the last; a link not in the queue is left alone if and only if the search does not write over the header; no byte outside the header, the links and the link after the removed one changes |
| V55Queue.QueueOutInBytes | src/cpu/x86.c:669-726 | The bytes that a removal writes: at the head only the head; elsewhere the word at the removed link moves to its predecessor, the next link names itself behind, and the header names the new ends |
| V55Queue.Cpu.SearchAndUnlink | src/cpu/x86.c:697-722 | The search visits the links in order, ends at the tail, and unlinks the one it looks for |
| V55Queue.SearchedIsRemoval | src/cpu/x86.c:697-722 | The outcome of the search as a queue in memory |
| V55Queue.SelfLinkRestored | src/cpu/x86.c:697-722 | A last link that names itself is put back by the last round of the search |
| V55Queue.Unlink | src/cpu/x86.c:701-719 | Those writes unlink a link in the middle or at the end and keep the rest of the sequence |
| V55Queue.RemovalBack | src/cpu/x86.c:711-717 | A removal that searches keeps the backward links if and only if the link is the last |
| V55Queue.MissBack | src/cpu/x86.c:711-717 | A search for a link that is not in the queue keeps the backward links if and only if it does not write to one of the links after the first |
| V55Queue.Cpu.ChainPast | src/cpu/x86.c:701-719 | The exact memory after the writes of one removal, the backward word of the following link included |
| V55Queue.ChainedInBytes | src/cpu/x86.c:701-719 | The same in bytes |
| V55Queue.ChainedRelinks | src/cpu/x86.c:701-719 | Those writes as changes of forward words, backward words and the header: the following link names itself as its predecessor |
| V55Queue.TailCanSelfLink | src/cpu/x86.c:641-748 | Insertions and removals on an empty queue lead to a last link whose unused forward word names itself |
| V55Queue.RemovalCanFail | src/cpu/x86.c:669-726 | The removal of that link leaves the queue as it was |
| V55Queue.StrayWriteHappens | src/cpu/x86.c:711-717 | There is a queue and a link not in it for which the search writes over the header |
| X89Transfer.Channel.ChannelTransfer | src/cpu/x89.c:369-489 | One call is one step of the transfer machine, and leaves the index register and the other status bits alone |
| X89Transfer.Channel.Compare | src/cpu/x89.c:419-466 | A unit ends the transfer in the modes 1 to 3 if it agrees with the low byte of MC in every digit set in the high byte, in the modes 5 to 7 if not; then TP moves once, by 0, 4 or 8 |
| X89Transfer.MatchesMeaning | src/cpu/x89.c:424 | The masked comparison is agreement in each binary digit of the mask |
| X89Transfer.FiresMeaning | src/cpu/x89.c:419-466 | Which units end a transfer, by mode |
| X89Transfer.Channel.StopOnCount | src/cpu/x89.c:382-398 | A count that has run out ends the transfer and moves TP once, by 0, 4 or 8 for the count modes 1 to 3 |
| X89Transfer.Channel.Take | src/cpu/x89.c:401-417 | A unit is counted and read, the source pointer advanced, and a single transfer ended |
| X89Transfer.Channel.Deliver | src/cpu/x89.c:472-486 | A unit is translated if asked for, written, and the destination pointer advanced |
| X89Transfer.Channel.RunTransfer | src/cpu/x89.c:493-496 | With a search and a byte count armed, stepping ends in the state after the first firing unit, or after the whole count, whichever comes first |
| X89Transfer.StepAfter | src/cpu/x89.c:369-489 | One step in the middle of a transfer, whatever its source, destination and table overlap |
| X89Transfer.SearchTransfer | src/cpu/x89.c:369-489 | A search copies the units up to and including the first that ends it by the digits of CC and MC, changes no other byte, clears XF and moves TP exactly once, by the displacement of the cause that came first |
| X89Transfer.BlockTransfer | src/cpu/x89.c:369-489 | A transfer without search, between ranges that do not overlap, copies exactly BC units; destination equals source, or the table entry of the source byte; the pointers advance by BC times the width modulo 2^20 and the count ends at 0; no other byte changes |
| X89Transfer.CopyBytes | src/cpu/x89.c:369-489 | A copy of bytes in terms of the registers: which bytes are copied where, in which direction, and what PSW, the pointers, BC and TP hold afterwards |
| X89Transfer.BytesCopied | src/cpu/x89.c:369-489 | The same for the transfer machine |
| X89Transfer.IndependentUnits | src/cpu/x89.c:403-477 | When source, table and destination are apart, each unit is read and translated as it was before the transfer |
| InitialStack.Emulator.BuildInitialStack | src/x86emu.c:3336-3450 | The builder leaves the planned image in memory: count, both pointer arrays, strings; it leaves the argument terminator as it was, and changes nothing outside of the image but the two bytes of the 8-bit argument pointer |
| InitialStack.BuildInBytes | src/x86emu.c:3336-3450 | The image byte by byte: the stack pointer in numbers, count and pointers of 2, 4 or 8 bytes, lowest byte first, the strings with their terminators where the pointers say, the terminator of the environment, and the 8-bit argument pointer |
| InitialStack.ImageInBytes | src/x86emu.c:3420-3447 | The same for any memory that holds the image |
| InitialStack.PlanInNumbers | src/x86emu.c:3362-3418 | Where the parts of the image are, for each code size |
| InitialStack.Emulator.WriteAddress | src/x86emu.c:3320-3334 | One slot of an array receives the value, truncated to the slot |
| InitialStack.Emulator.WriteString | src/x86emu.c:3426-3432 | A string is copied with its terminator, and nothing else changes |
| InitialStack.Emulator.WriteList | src/x86emu.c:3422-3445 | The loop over a list leaves an array of pointers and the strings they name, and changes nothing else |
| InitialStack.PlanFits | src/x86emu.c:3338-3418 | Count, pointer arrays and strings do not overlap, and the strings end exactly at the original stack top |
| InitialStack.PlanAligned | src/x86emu.c:3362-3418 | The returned stack pointer is aligned, to 16 bytes for 64-bit code |
| InitialStack.ImageReadsBack | src/x86emu.c:3420-3447 | From the stack pointer, count and terminators yield the environment list and, where the argument array is found, the argument list; following that array to a zero yields the arguments if and only if the slot after it is zero |
| InitialStack.TerminatedReadsBack | src/x86emu.c:3420-3447 | An array of pointers followed up to a zero yields its list if and only if the slot after it is zero |
| InitialStack.LaunchReadsBack | src/x86emu.c:3336-3450 | In any memory a started program reads back the count and the environment, and the arguments if it finds their array; that is ended by a zero if and only if its slot held one before; the array is found in every layout, but in the 8-bit one with a zeroed pointer slot if and only if the segment starts at 0 |
| InitialStack.UziPointer | src/x86emu.c:3364-3381 | What the program reads as the 8-bit argument pointer for a segment at 0 and for any other |
| GdtEntries.Tables.AllocateGdtEntry | src/x86emu.c:3737-3762 | The selector is the next multiple of 8, or 0 if the table is full; the eight bytes of the entry hold limit, base and access bits of the request, so that it decodes to its request, and no other byte changes |
| GdtEntries.WrittenIsEntry | src/x86emu.c:3741-3757 | The numbers that are stored are the eight bytes of an entry for the request, the granularity chosen by the limit |
| GdtEntries.EncodedDecodes | src/cpu/protection.c:564-575 | Decoding an encoded request gives its base and access bits (G apart) and a limit at least as large, by less than 4096, equal when G is clear |
| GdtEntries.Tables.AllocateAll | src/x86emu.c:3737-3762 | After any sequence of allocations the selectors are consecutive multiples of 8 modulo 64 KiB, distinct and increasing until the table is full, and each of the last 8192 entries still describes its own request |
| Interrupts.FlagsRoundTrip | src/cpu/registers.c:272-351 | Loading a saved FLAGS word restores every flag of the 8086 |
| Interrupts.FlagsImage | src/cpu/registers.c:238-298 | The FLAGS word as a number |
| Interrupts.FlagsLoaded | src/cpu/registers.c:254-351 | Which digit of a FLAGS word each flag is loaded from |
| Interrupts.Cpu.Push16 | src/cpu/x86.c:257-265 | A push puts its two bytes on top of the bytes that were there, for every SS:SP |
| Interrupts.Cpu.Pop16 | src/cpu/x86.c:290-300 | A pop returns the top word and moves SP past it |
| Interrupts.Cpu.EnterInterrupt | src/cpu/protection.c:2124-2146 | Entry puts IP, CS and FLAGS on top of the stack, clears IF and TF, loads the vector, and changes no other byte below 1 MiB |
| Interrupts.Cpu.ReturnInterrupt16 | src/cpu/protection.c:2514-2537 | IRET takes IP, CS and FLAGS from the stack, in this order |
| Interrupts.EnterInBytes | src/cpu/protection.c:2124-2146 | Entry in bytes: the six bytes below the stack pointer, the vector that IP and CS come from, and that no other byte below 1 MiB changes |
| Interrupts.ReturnInBytes | src/cpu/protection.c:2514-2537 | IRET in bytes: where IP, CS and each flag come from |
| Interrupts.Cpu.Perform | src/cpu/protection.c:2124-2537 | Any properly nested run of entries and returns restores CS:IP, SP, every flag and the stack in use, as long as the frames fit the segment and the work in between leaves them alone |
| Interrupts.Cpu.NestedRun | src/cpu/protection.c:2124-2537 | Up to 10922 entries followed by as many IRETs restore everything, for every SS:SP |
| FaultEscalation.Cpu.Classify | src/cpu/protection.c:2387-2422 | The code assigns the classes of the manual |
| FaultEscalation.ClassVectors | src/cpu/protection.c:2387-2422 | The classes as sets of vectors, by processor |
| FaultEscalation.Cpu.Trigger | src/cpu/protection.c:2424-2465 | Each exception of a chain is handled by the table, compared with the latest one that was not benign, and the last one is delivered or ends in a triple fault |
| FaultEscalation.Cpu.Step | src/cpu/cpu.c:1197-1209 | In one step every exception is handled as the table of the manual says if and only if each one that follows a benign one has a higher class than the latest one that was not; at most four are raised beside the benign ones; a triple fault comes only after an exception that was or became a double fault; and the outcome of one and of two exceptions is given by their vectors |
| FaultEscalation.PairOfChain | src/cpu/protection.c:2424-2449 | In any chain the vectors of an exception and of the latest severe one before it, and whether that became a double fault, decide how it is handled |
| FaultEscalation.FirstOfChain | src/cpu/protection.c:2424-2429 | An exception with no severe one before it is handled serially |
| FaultEscalation.PairOutcome | src/cpu/protection.c:2424-2449 | What two exceptions lead to, by their vectors |
| FaultEscalation.ShutdownAfterDouble | src/cpu/protection.c:2445-2448 | A triple fault comes only after an exception that was or became a double fault |
| FaultEscalation.TableFollowed | src/cpu/protection.c:2424-2449 | Serial handling, double fault and shutdown are chosen for a whole chain as the table says if and only if its masked exceptions rise |
| FaultEscalation.ShortChain | src/cpu/protection.c:2424-2449 | Exceptions that are not benign strictly rise in class, so at most four of them occur beside the benign ones |
| FaultEscalation.StopsAtShutdown | src/cpu/protection.c:2445-2448 | A chain that is cut short has ended in a triple fault |
| FaultEscalation.AtMostFourNested | src/cpu/protection.c:2424-2449 | At most four nested exceptions; a longer chain has ended in a triple fault |
| FaultEscalation.LongestChain | src/cpu/protection.c:2424-2449 | The bound is reached |
| FaultEscalation.MaskedPageFault | src/cpu/protection.c:2424-2449 | Contributory, benign, page fault is handled as the table says |
| FaultEscalation.MaskedPair | src/cpu/protection.c:2424-2449 | Contributory, benign, contributory ends in a double fault, where the table handles both pairs serially |
| FaultEscalation.BenignChain | src/cpu/protection.c:2424-2449 | Benign exceptions nest without bound |
| ModeControl.ControlUnit.constructor | src/cpu/cpu.c:286-343 | Hardware reset leaves a coherent state without long mode |
| ModeControl.ControlUnit.SoftReset | src/cpu/cpu.c:286-343 | Reset without initialisation leaves a coherent state if and only if long mode was not active |
| ModeControl.LongModeThenSoftReset | src/cpu/cpu.c:286-343 | The state in which that reset goes wrong is reachable |
| ModeControl.ControlUnit.SetControl32 | src/cpu/registers.c:602-690 | The 32-bit write of each register, bit by bit: when it is rejected and with which fault, which bits of the value an accepted one keeps, by the masks of the processor, LMA following PG, and that nothing else changes |
| ModeControl.ControlUnit.SetControl64 | src/cpu/registers.c:692-739 | The same for the 64-bit write, which stores the value as it is |
| ModeControl.MaskDigits | src/cpu/registers.c:612-645 | The binary digits of the masks of CR0 and CR3 |
| ModeControl.WriteKeepsMode | src/cpu/registers.c:602-739 | Every write keeps LMA = LME and PG and LMA implies PAE; it changes nothing if rejected, keeps PAE and VA57 while long mode stays active, and switches long mode only through CR0 |
| ModeControl.RunKeepsMode | src/cpu/registers.c:602-739 | The same over any run of writes |
| ModeControl.PagingAgainstManual | src/cpu/registers.c:623-629 | Exactly when the guard of CR0 agrees with the manual |
| ModeControl.StructureAgainstManual | src/cpu/registers.c:661-663 | Exactly when the guard of CR4 agrees with the manual |
| ModeControl.ActivationFromL | src/cpu/registers.c:623-629 | A write that the manual rejects and the code accepts |
| ModeControl.ControlUnit.SetEfer | src/cpu/registers.c:2304-2316 | A write of EFER is rejected exactly if it changes LME while paging is on; LMA is not taken from the value |
| ModeControl.ControlUnit.LoadStatusWord | src/cpu/x86.isa:2982-2989 | LMSW replaces the low four bits of CR0, of which the 376 alone keeps PE set |
| ModeControl.ControlUnit.ClearTaskSwitchedFlag | src/cpu/x86.isa:2188 | CLTS clears TS and nothing else |
| ModeControl.ControlUnit.Run | src/cpu/registers.c:602-739 | In any run each state and fault is the outcome of its write on the state before; from a coherent state every state is coherent, rejected writes change nothing, and PAE and VA57 are the same throughout any stretch in which long mode is active |
| Bitfields.Cpu.InsertBitfield16 | src/cpu/x86.c:569-587 | Insertion makes the field the low bits of the value and changes no other bit of the segment, across its end too |
| Bitfields.Cpu.Merge | src/cpu/x86.c:574-584 | The masks and shifts replace exactly the bits of the field in each of its bytes |
| Bitfields.Cpu.ExtractBitfield16 | src/cpu/x86.c:607-623 | Extraction returns exactly the bits of the field |
| Bitfields.BitInByte | src/cpu/x86.c:569-623 | Bit `i` of a field is bit (offset + i) mod 8 of byte address + (offset + i) / 8, modulo 64 KiB |
| Bitfields.InsertThenExtract | src/cpu/x86.c:569-623 | An inserted value is extracted again modulo 2^length |
| Bitfields.ExtractElsewhere | src/cpu/x86.c:569-623 | A field without common bits is not affected |
| Bitfields.MaskIsRemainder | src/cpu/x86.c:574-575 | Masking is the remainder modulo 2^length |
| FlagFormulas.AddMeaning | src/cpu/parse.c:1069-1103 | Carry is what the wrapped sum lacks, overflow that the signed sum does not fit, at every width |
| FlagFormulas.SubMeaning | src/cpu/parse.c:1069-1108 | Borrow and overflow of a subtraction with borrow, and L as its signed comparison |
| FlagFormulas.CompareMeaning | src/cpu/parse.c:982-999 | After a comparison B, BE, L and LE are the unsigned and signed comparisons they are named for |
| FlagFormulas.AddChainIsSum | src/cpu/parse.c:1079-1082 | Chained additions give the exact sum of numbers of any length, with the last carry as highest digit |
| FlagFormulas.SubChainIsDifference | src/cpu/parse.c:1084-1087 | Chained subtractions give the exact difference, with the last borrow |
| FlagFormulas.SubChainCompares | src/cpu/parse.c:982-999 | After chained subtractions B and L compare the whole numbers, unsigned and signed |
| FlagFormulas.SignedLimbsMeaning | src/cpu/parse.c:1074-1077 | The highest bit of the highest limb is the sign of the whole number |
| CpuConditions.FindIntervals | src/cpu/generate.py:2768-2778 | The loop finds disjoint intervals of exactly the implemented processors |
| CpuConditions.ConditionMeaning | src/cpu/generate.py:2782-2796 | The test of an interval holds for exactly its processors |
| CpuConditions.MakeCondition | src/cpu/generate.py:2768-2807 | The generated test is true for exactly the processors of the set if and only if the list is empty or has one of them |
| CpuConditions.RunsMeaning | src/cpu/generate.py:2780-2807 | The test is true for a processor if it is in the set or the set is empty |
| ByteMemory.BlockStoreIsRing | src/cpu/memory.c:628 | A block store past the end of a wrapping memory is the byte-at-a-time write of the bytes that fit |
| ByteMemory.RingStoreHits | src/cpu/memory.c:618-633 | The last byte of a wrapping write that reaches a cell stays in it |
| ByteMemory.RingStoreMisses | src/cpu/memory.c:618-633 | A cell that a wrapping write does not reach is as it was |

## Left out

- Terminal, display, keyboard, interrupt controller, operating system calls, file loaders, command line and debug printing: input and output.
- Instruction bodies, x87, system management mode, and the other writers of control registers: those in it and the MSR writes of CR0 and CR4 on the GX2 (src/cpu/registers.c:2209-2223), which check nothing.
- Paging of the 80386 and later: the enable test compares CR0 with PG for equality (src/cpu/memory.c:398), so those branches do not describe working paging.
- Task switching, privilege checks, expand-down limits and the accessed bit of segment loads.
- The 80186 control block overlay, the on-chip RAM segment of the V55, and macro services.
- Breakpoints, and faults during a fetch or a fill of the prefetch queue.
- Bit field variants of 32 bits and the wide multiplication fallback.
- The delay of one instruction before an 8089 transfer, units in I/O space, and the channel program between transfers.
- SegmentedAccess.MemoryUnit.SegmentedWrite: with V33 paging it states where up to 16 KiB land; of longer writes, which can overwrite themselves, only the sequence of linear writes.
- SegmentedAccess.BankedWriteLands: does not claim that no other byte changes, because a chunk that crosses a page also writes behind its page; SegmentedAccess.ChunksKeep says what it can write there.
- V25.Cpu.ReadNoPaging: accesses below 1 MiB that do not wrap; the same holds for writes.
- V25.Cpu.WriteNoPaging: leaves out writes to the registers that place the RAM, for which V25.Cpu.WriteMapped states where the bytes go.
- V25.Cpu.FlagsSet16: the mode flag, which FLAGS loads only on the V25S subtype, is always native.
- V55Queue.Cpu.QueueOut: memory does not wrap: headers and links lie below the end of the 24-bit address space of the V55.
- PrefetchQueue.Fetcher.Compact: the move to the front copies as if the two areas did not overlap.
- PrefetchQueue.Fetcher.Run: code is not modified, and no fetch crosses the end of the 64 KiB segment.
- X89Transfer.CopyBytes: units of one byte without translation; X89Transfer.BlockTransfer covers the others.
- X89Transfer.Channel.RunTransfer: a count must be armed and single transfer off; without a count a search may never end.
- InitialStack.Emulator.BuildInitialStack: the image must fit below the stack top; memory is not masked to the address space of the processor.
- Interrupts.Cpu.Perform: real mode of the 8086 and 8088, without mode flag, alignment flag and limit checks, which that processor does not have.
- ModeControl.PagingAgainstManual: reserved bits and shadow stacks (CR0.WP with CR4.CET) are left out of the manual's conditions.
- FaultEscalation.Cpu.Trigger: what a delivery raises is given by a list; in-circuit emulation on a debug exception and the V60 are not modelled.
- FlagFormulas.SubMeaning: the auxiliary and parity flags are not modelled.
- CpuConditions.MakeCondition: processor features and modes, and the text of the test, are not modelled.
