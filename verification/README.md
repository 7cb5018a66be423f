# virtdbg: a verified model

virtdbg is a small VT-x hypervisor with a boot loader. This project models its stateful core in Dafny
4.11 and proves what that core promises, for all inputs, runs and interleavings. Check it with
`dafny verify dfyconfig.toml`.

## What is modelled

**Page tables in flat memory** (`Bits`, `RadixTree`, `Ept`, `DemandPaging`, `Hypervisor`,
`LoaderPaging`, `Loader`). Memory is a map from word addresses to 64-bit words. `RadixTree` gives both
walkers one specification, `MapLeaf`, and an invariant, `Tree`: which table sits in which frame, what
each of its 512 words holds, no frame shared, all of them below the allocator's next free byte.
`MapLeafRefinesUpdate` shows that an insertion is a map update whichever levels had to be created.
`Ept` and `LoaderPaging` read the same memory the way the processor does (sections 28.2.2 and 28.2.3.1
of Intel SDM volume 3C, and section 4.5 of volume 3A), independently of the code that writes it.
The classes `Hypervisor` and `Loader` hold the code itself, bitfield store by bitfield store and mask
by mask, proved equal to that specification. `DemandPaging` runs the guest against the processor's walk
and the EPT-violation handler, from every state that has an identity map and room, whatever was mapped or
allocated before; the guest loads and stores anywhere but in the tables, and may halt. `Loader.StartUp` composes the
boot loader's own start, from the memory map to what it hands over.

**The ticket lock** (`TicketLock`, `LockedAllocator`). One atomic operation is one step of one of n
CPUs, with counters modulo m. The ghost parts of the state (`draws`, `entries`, `releases`) only record
what has happened. `LockedAllocator` runs the statements of `palloc_aligned` one at a time between the
lock's steps.

**The assembly** (`Machine`, `WorldSwitch`, `ExceptionEntry`). An interpreter for the instructions used,
`vm_resume` and `vmlaunch_first` instruction by instruction, and the exception stubs together with what
the processor pushes and what `iretq` pops.

**The formatter** (`NumberFormat`, `Printf`, `Conversions`). `num_fmt` filling its 65-byte buffer backwards,
the format loop, and the bounded buffer callback, against an independent reader of numbers and the text of
every conversion.

**Lists and packets** (`RingList`, `GdbPacket`, `PacketBytes`). The intrusive lists on a heap with any number of rings,
the walk over the exception hooks, and the GDB packet sender and receiver on a byte stream
(appendix E.1 of the GDB manual), against hexadecimal as a debugger writes it.

## What the proofs found

- `vm_resume` (`virtdbg/vmx/vmx.asm:72-152`) keeps its promise, also when `vmresume` fails. The first
  exit (`virtdbg/vmx/vmx.asm:61-65`) does not pass the block pointer on: `rdi` holds the return address
  of `vmlaunch_first`, for every start state.
- `vmlaunch_first` (`virtdbg/vmx/vmx.asm:17-24`) overwrites the `rsp` and `rip` that `init_vmcs` has set
  (`virtdbg/vmx/vmm.c:256-257`): the guest starts at `cont`, on the host's stack, whatever its initial state says.
- HLT is resumed at the same instruction (`virtdbg/vmx/vmm.c:390-393`): a guest that starts with one faults once
  and then leaves for ever.
- Vectors 0x10, 0x11 and 0x15 have the wrong exception stub (`virtdbg/arch/idt.c:178-183`): the handler
  sees a shifted context, and a handler that changes nothing resumes at `cs` or at the error code. All
  other vectors below 0x20 are right for every interrupted state. `es` is not saved and returns as `ds`.
- `str_to_hex` (`virtdbg/gdb/gdb.c:12-23`) values letters of either case from 0. A packet therefore gets
  through exactly when neither digit of its checksum is a letter. Asking again never helps, and no other packet
  gets through after it: the receiver resumes at a `$` it takes for data (`virtdbg/gdb/gdb.c:107-137`).
  The packet `OK` is one that is lost.
- A packet too long for the buffer is never refused: the check at `virtdbg/gdb/gdb.c:112` prints its error
  with `%R`, which divides by zero for an error it has no name for (`virtdbg/util/trace.c:251`).
- `num_fmt` decides the sign on the low 32 bits (`virtdbg/util/trace.c:15-19`), so `%ld` is right exactly
  for negative ints and for non-negative values with bit 31 clear; 2^31 is printed as its negative.
- `%u` prints an int as 64 bits (`virtdbg/util/trace.c:117-130`), so it is right exactly when the int is not
  negative; -1 is printed as 18446744073709551615.
- `%S` prints the whole units again after the point (`virtdbg/util/trace.c:226`). Below 2^40, where the table
  of units ends, it is right exactly when there are no hundredths to print, or they equal the whole units and
  need no padding (`Printf.SizeIsRightIff`); 1536 is printed as `1.1KB`.
- The inner loop of `vmm_init` (`loader/vmm.c:11-14`) can miss the page of an entry's last byte, exactly when
  the entry crosses the page boundary its length rounds up to. Every byte of the entry is reached at both
  addresses exactly when it does not, or when some entry's loop covers that page. A round of it leaves direct
  pages exactly when its address is below 2^47; from there on the copy takes the place of a low page.
- `ALIGN_UP` (`virtdbg/util/defs.h:11`) is right for every number exactly when the alignment is a power
  of two; it leaves 1 at 1 when aligning to 3.
- `buffer_output_cb` (`virtdbg/util/trace.c:274-285`) writes a terminator only when the output fills the
  buffer; shorter output is left unterminated.
- `list_pop` takes the last entry; the comment at `virtdbg/util/list.h:42` says the first, which holds
  exactly for a list of one entry. The model follows the code.
- `init_pmm` ignores `size` (`virtdbg/mm/pmm.c:33-37`), and no allocation checks a limit. The tables stay
  inside the memory set aside exactly when the root and one page for each distinct 9-, 18- and 27-bit prefix
  fit in the whole pages there. A guest that touches one page in each 2 MiB of the first GiB takes 515 pages;
  the loader sets aside 512 (`loader/kernel.c:96`).

## Model

| member | source | states |
|---|---|---|
| `Bits.AlignUpIsLeastMultiple` | virtdbg/util/defs.h:11-14 | the mask form gives the least multiple of a power of two not below the number |
| `Bits.LeastMultipleIsLeast` | virtdbg/util/defs.h:11 | no other multiple of the alignment at or above the number is smaller |
| `Bits.AlignUpNotBelow` | virtdbg/util/defs.h:11 | whatever the alignment, the result is not below the number |
| `Bits.AlignUpCorrectIffPow2` | virtdbg/util/defs.h:11 | the mask form is right for all numbers if and only if the alignment is a power of two |
| `Bits.AlignUpFailsForThree` | virtdbg/util/defs.h:11 | aligning 1 to 3 gives 1, which is no multiple of 3 |
| `RadixTree.ShiftedAddress` | virtdbg/vmx/ept.c:45-49 | the shifts and masks of the walk pick the digit of the page number that selects each level's entry |
| `RadixTree.AlignUpToFrame` | virtdbg/mm/pmm.c:39-46 | aligning the bump pointer to a page reaches the first whole frame at or above it |
| `RadixTree.NextTableKeepsTree` | virtdbg/vmx/ept.c:48-61 | following or creating one link keeps the tree invariant: the table it ends in is the one that covers the page, and no entry elsewhere changes |
| `RadixTree.MapLeafRefinesUpdate` | virtdbg/vmx/ept.c:45-67 | a whole insertion keeps the tree invariant and is exactly an update of the page map, whichever levels were missing |
| `RadixTree.GrownTables` | virtdbg/vmx/ept.c:47-61 | an insertion moves no table, adds exactly the missing tables of the page's path, and advances the allocator by a page for each |
| `RadixTree.InsertionWritesTables` | virtdbg/vmx/ept.c:45-67 | an insertion writes into the tables there are after it and nowhere else |
| `RadixTree.PathTableCount` | virtdbg/vmx/ept.c:47-61 | a tree grown by insertions has 1 table plus one for each distinct 9-, 18- and 27-bit prefix, at most 1 + 3n |
| `RadixTree.AllocationKeepsTree` | virtdbg/mm/pmm.c:58-62 | any other zeroed allocation, of any size and alignment, leaves the tree as it is while room remains |
| `RadixTree.StoreKeepsTree` | virtdbg/virtdbg.h:51-60 | so does any store outside the tables |
| `Ept.EntryRoundTrip` | virtdbg/vmx/ept.h:12-29 | the sixteen bitfields of an entry tile the word: decoding an encoded entry gives it back |
| `Ept.EntryBits` | virtdbg/vmx/ept.h:12-29 | each field of an entry by the position of its bits in the word |
| `Ept.WordRoundTrip` | virtdbg/vmx/ept.h:12-29 | encoding a decoded word gives it back |
| `Ept.EptpFields` | virtdbg/vmx/ept.c:35 | the processor reads the EPT pointer as write-back, four levels, and the root table |
| `Ept.TranslateIsIdentity` | virtdbg/vmx/ept.c:41-74 | in an identity tree every guest access reaches its own address with rwx write-back, or is a violation; never a misconfiguration |
| `Ept.EveryEntryClean` | virtdbg/vmx/ept.c:53-67 | every word of every table is zero, a clean rwx link to its child, or the rwx write-back leaf of its own page |
| `Ept.RemapIsIdentity` | virtdbg/vmx/ept.c:41-74 | mapping a mapped page changes neither memory nor the allocator |
| `Ept.RunKeepsIdentity` | virtdbg/vmx/ept.c:41-74 | any run of ept_map calls, other allocations and stores outside the tables keeps an identity tree of the pages there were and those mapped |
| `Ept.RunIsIdentityMap` | virtdbg/vmx/ept.c:41-74 | after any such run from any identity tree the processor's walk is defined exactly on those pages, and is the identity there |
| `Ept.InitThenRunIsIdentityMap` | virtdbg/vmx/ept.c:15-74 | after init_ept and any such run it is defined exactly on the pages mapped since |
| `Ept.RunHasOneTablePerPrefix` | virtdbg/vmx/ept.c:47-61 | after init_ept and any such run there are exactly 1 table plus one for each distinct prefix, at most 1 + 3n |
| `Ept.RunTakesOnePagePerPrefix` | virtdbg/mm/pmm.c:33-46 | if nothing else is allocated, m_base has advanced by exactly 4096 times that number |
| `Ept.StaysInsideIff` | virtdbg/mm/pmm.c:33-37 | after init_pmm(from, size) and init_ept the run stays below from + size if and only if the whole pages there are enough for the root and one table for each prefix |
| `Ept.FirstGibOverflows` | loader/kernel.c:96 | a page in each 2 MiB of the first GiB takes 515 pages, past the end of what the loader sets aside |
| `DemandPaging.HandleIs` | virtdbg/vmx/vmm.c:383-410 | the guest is resumed exactly after exit reasons 0, 12 and 48 of an entry that did not fail, and only 48 changes memory |
| `DemandPaging.HaltingGuest` | virtdbg/vmx/vmm.c:390-393 | a guest whose first instruction is a HLT faults in its page once and then halts and is resumed for ever |
| `DemandPaging.FaultingPage` | virtdbg/vmx/vmm.c:386-387 | the handler's mask turns a faulting address into its page's address |
| `DemandPaging.MappedIsFaulted` | virtdbg/vmx/vmm.c:374-415 | from any identity map with room, at every moment of every run of loads, stores, NMIs and HLTs the guest reaches exactly what was mapped and the pages that have faulted, each once and unmapped before; memory outside the tables is what its own stores make of it |
| `DemandPaging.UnmappedDecreases` | virtdbg/vmx/vmm.c:374-415 | from any such state, every round before the end or the first HLT either lets the guest go on or strictly lowers the number of unmapped 48-bit pages |
| `DemandPaging.GuestIsServed` | virtdbg/vmx/vmm.c:374-415 | from any such state every guest program runs to its end or its first HLT; the faults are its unmapped pages in the order of first touch, each access reaches its own address, and memory outside the tables is that of the same program on flat memory |
| `DemandPaging.FinishedIsServed` | virtdbg/vmx/vmm.c:374-415 | the same for any run that has come so far, however many steps it took, and another step changes nothing |
| `Hypervisors.RwxStored` | virtdbg/vmx/ept.c:53-67 | storing frame, r, w, x (and memory type) as bitfields gives the link word (and the leaf word) |
| `Hypervisors.Hypervisor.InitPmm` | virtdbg/mm/pmm.c:33-37 | m_base becomes the least page boundary not below base |
| `Hypervisors.Hypervisor.PallocAligned` | virtdbg/mm/pmm.c:39-46 | the block starts at the least multiple of a power-of-two alignment not below m_base, which is left at its end |
| `Hypervisors.Hypervisor.PalloczAligned` | virtdbg/mm/pmm.c:58-62 | the same, with every word of the block reading zero and no other word changed |
| `Hypervisors.Hypervisor.AllocateRegion` | virtdbg/vmx/vmm.c:19 | an allocation after init_ept, with room left, keeps the guest's tables and is no part of them |
| `Hypervisors.Hypervisor.Start` | virtdbg/entry.c:35-52 | the root table and the regions of vmxon and of the VMCS lie one behind the other, zeroed, the regions starting with the revision number; all other memory is kept, and the guest can be served from there |
| `Hypervisors.Hypervisor.InitEpt` | virtdbg/vmx/ept.c:15-26 | leaves a valid empty tree, with an error exactly when the allocator returned address 0 |
| `Hypervisors.Hypervisor.StoreLink` | virtdbg/vmx/ept.c:53-56 | the stores over an empty entry leave exactly the link word |
| `Hypervisors.Hypervisor.StoreLeaf` | virtdbg/vmx/ept.c:63-67 | the stores over an empty entry, or over the same leaf, leave exactly the leaf word |
| `Hypervisors.Hypervisor.NextLevel` | virtdbg/vmx/ept.c:48-61 | one round of the loop refines one level of the specification and keeps the tree |
| `Hypervisors.Hypervisor.EptMap` | virtdbg/vmx/ept.c:41-74 | the loop refines the specification: memory, allocator, tables and page map after it, with the invariant kept and no error |
| `Hypervisors.Hypervisor.HandleExit` | virtdbg/vmx/vmm.c:374-410 | it resumes the guest exactly after exit reasons 0, 12 and 48 of an entry that did not fail; reason 48 maps the page and creates exactly the tables it lacks, any other changes nothing |
| `Hypervisors.Hypervisor.ServeNext` | virtdbg/vmx/vmm.c:374-415 | one round of guest and handler refines one step of the specification, stores included, and keeps the invariant |
| `Hypervisors.Hypervisor.ServeGuest` | virtdbg/vmx/vmm.c:374-415 | from any valid state the endless loop serves any guest program that does not store to the tables, up to its first HLT: the pages mapped are those there were and those touched, each faulting once, in order, and memory outside the tables holds the guest's stores |
| `LoaderPaging.LinearReadsTree` | loader/vmm.c:25-57 | the processor's 4-level walk reads exactly the page map of the tree, for every linear address |
| `LoaderPaging.MapPageChangesOneTranslation` | loader/vmm.c:25-57 | map_page leaves a tree with one page updated, gives its page the word stored, and changes the walk of no address in any other page |
| `LoaderPaging.AlignedLeaf` | loader/vmm.c:54 | for an aligned frame and flags below a page the stored word is their sum |
| `LoaderPaging.WalkersAgree` | loader/vmm.c:25-57 | from trees of one shape the looped and the unrolled walker need the same new tables and leave trees of one shape |
| `Loaders.EntryIndices` | loader/vmm.c:26-29 | the four mask-and-shift expressions are the four digits of the page number, high address bits ignored |
| `Loaders.Loader.PmmInit` | loader/pmm.c:7-22 | base becomes that of the first largest region of kind 1, 0x1000 or 0x1001, and stays if none of them has a length |
| `Loaders.Loader.PmmAllocAligned` | loader/pmm.c:24-29 | the block starts at the least multiple of a power-of-two alignment not below base, which is left at its end |
| `Loaders.Loader.PmmAlloczAligned` | loader/pmm.c:31-35 | the same, with the block zeroed and no other word changed |
| `Loaders.Loader.AllocPagemap` | loader/kernel.c:70 | the page allocated for the root is a valid empty tree |
| `Loaders.Loader.MapPage` | loader/vmm.c:25-57 | the unrolled code refines the specification and updates one page of the map, with the invariant kept |
| `Loaders.Loader.VmmInit` | loader/vmm.c:5-15 | the loops write what the specification writes, wrap-around included, in a valid tree, and put every new table behind what was allocated before |
| `Loaders.MemmapPages` | loader/vmm.c:5-15 | for any map below 2^47 exactly the low 4 GiB and both copies of the entries' pages are mapped, to their frames, and all other pages are left alone |
| `Loaders.PairIsDirectIff` | loader/vmm.c:12-13 | one round of the inner loop leaves both copies direct if and only if its address is below 2^47 |
| `Loaders.HighEntryHidesPageZero` | loader/vmm.c:12-13 | after an entry at 2^47, address 0 reaches the frame at 2^47 |
| `Loaders.VmmInitTranslation` | loader/vmm.c:5-15 | every linear address walks to its page's frame if it is in that domain, writable and, for aligned maps, for the supervisor only; it is not present otherwise |
| `Loaders.Loader.StartUp` | loader/kernel.c:67-82 | from the memory map to base at the end: image, page tables, stack and guest state lie one behind the other from the start of the largest usable region, stack and state zeroed, and the tables hold vmm_init's pages under the image's |
| `Loaders.ImageIsMapped` | loader/kernel.c:74-76 | the loop maps the image's pages from KERNEL_OFFSET on to the image and leaves all other pages alone |
| `Loaders.StartTranslation` | loader/kernel.c:67-76 | when the image starts, every linear address walks to the image's frame at KERNEL_OFFSET, elsewhere to what vmm_init maps, and is not present otherwise |
| `Loaders.ImageReached` | loader/kernel.c:74-76 | each byte of the image is reached through its address from 0xffffffff80000000 on, writable and for the supervisor only |
| `Loaders.AddressReachedIff` | loader/vmm.c:10-15 | an address and its copy at MEM_PHYS_OFFSET both reach its own frame if and only if some entry's loop steps through its page |
| `Loaders.EntryReachedIff` | loader/vmm.c:10-15 | every byte of an entry, whatever its base, is reached at both addresses if and only if its own loop reaches the page of its last byte or some entry's does |
| `Loaders.UnalignedEntryIsMissed` | loader/vmm.c:11-14 | the end of a one-page entry that straddles two pages is not mapped |
| `Loaders.EntryCoveredIff` | loader/vmm.c:11-14 | the entry's own inner loop steps through every page of it if and only if base and last byte offsets do not carry into another page |
| `Loaders.OrderAndOverlapIrrelevant` | loader/vmm.c:10-15 | maps whose entries cover the same pages give the same leaves, whatever their order and overlap |
| `TicketLock.StepKeepsInv` | virtdbg/sync/lock.c:13-25 | every atomic step of every CPU keeps the invariant |
| `TicketLock.OutstandingTickets` | virtdbg/sync/lock.c:13-25 | in every reachable state with n at most m the outstanding tickets are distinct and are the cyclic range from now_serving to next_ticket |
| `TicketLock.HolderIsServed` | virtdbg/sync/lock.c:23-25 | the holder is alone, its ticket is now_serving, and the successor it loaded cannot have gone stale |
| `TicketLock.MutualExclusionIff` | virtdbg/sync/lock.c:8-25 | at most one CPU is inside in every interleaving if and only if there are no more CPUs than tickets |
| `TicketLock.FirstComeFirstServed` | virtdbg/sync/lock.c:13-14 | the order of entries is a prefix of the order of draws, and at most one entry is not yet released |
| `TicketLock.EntersAfterExactly` | virtdbg/sync/lock.c:13-25 | a waiting CPU can enter exactly when the releases since its draw number (ticket - now_serving at the draw) mod m, and they never exceed that |
| `TicketLock.HeadReleases` | virtdbg/sync/lock.c:13-25 | at most three steps of the CPU at the head of the line release the lock |
| `TicketLock.StepProgress` | virtdbg/sync/lock.c:13-25 | a step of the head is progress, and no other CPU's step delays or changes the head |
| `TicketLock.EveryDrawEnters` | virtdbg/sync/lock.c:8-25 | from every reachable state each ticket drawn enters, in its place in the order of draws, within 3n - 2 rounds in which every CPU runs at least once |
| `LockedAllocator.AdvanceKeepsOk` | virtdbg/mm/pmm.c:39-46 | one statement of any CPU keeps m_base and the returned blocks where a serial run would have them |
| `LockedAllocator.AllocationIsLinearizable` | virtdbg/mm/pmm.c:39-46 | in every interleaving the blocks returned are those of one CPU serving the requests in ticket order |
| `LockedAllocator.AdvanceProgress` | virtdbg/mm/pmm.c:39-46 | a step of the request at the head of the line is progress, and no other CPU's step delays or changes the head |
| `LockedAllocator.EveryRequestReturns` | virtdbg/mm/pmm.c:39-46 | after 8n rounds in which every CPU runs at least once, every request made so far has returned the block a single CPU would give it |
| `LockedAllocator.SeqBlocksPacked` | virtdbg/mm/pmm.c:41-43 | each block starts at the least multiple of its alignment not below the end of the one before |
| `LockedAllocator.BlocksNeverOverlap` | virtdbg/mm/pmm.c:39-46 | blocks returned to any CPUs ascend in ticket order, packed, and are disjoint |
| `WorldSwitch.LoadGuestEffect` | virtdbg/vmx/vmx.asm:97-113 | the load sequence brings in all fifteen guest registers from their fields of struct guest_state, rdi through itself |
| `WorldSwitch.SaveGuestEffect` | virtdbg/vmx/vmx.asm:116-134 | the save sequence stores all fifteen guest registers into their fields and nothing outside the block and one stack word |
| `WorldSwitch.AtVmResumeEffect` | virtdbg/vmx/vmx.asm:72-114 | at vmresume the guest's registers equal the fields rax to r15 at offsets 0 to 112 of the block, the host's are saved, and VMCS fields 6C14H and 6C16H lead back here |
| `WorldSwitch.VmResumeRoundTrip` | virtdbg/vmx/vmx.asm:72-152 | on return the fields at offsets 0 to 112 of the block hold exactly the guest's rax to r15 (or what they held, if vmresume failed), the host's registers, rsp and return address are as at the call, and all other memory is as the guest left it |
| `WorldSwitch.GuestContinuity` | virtdbg/vmx/vmm.c:374-415 | over any number of rounds each entry gives the guest the registers of its last exit, and every call finds the stack pointer of the first |
| `WorldSwitch.AtLaunchEffect` | virtdbg/vmx/vmx.asm:11-47 | at vmlaunch the guest's registers equal the block, VMCS fields 681CH and 681EH start it at cont on the host's stack, and 6C14H and 6C16H lead back to hexit |
| `WorldSwitch.FirstExitPassesReturnAddress` | virtdbg/vmx/vmx.asm:11-65 | the first exit saves the guest whole but hands exit_handler the return address instead of the block |
| `ExceptionEntry.HandlerStack` | virtdbg/arch/idt.c:18-78 | for every vector: the registers, ds and the frame on the handler's stack, and nothing written outside |
| `ExceptionEntry.HandlerSelectors` | virtdbg/arch/idt.c:23-75 | the handler runs with ds, es and ss 16, the gate's code segment, and the direction flag clear |
| `ExceptionEntry.ContextDepth` | virtdbg/arch/idt.c:18-78 | with the right stub kind the context lies right below the interrupted stack pointer, aligned down to 16 |
| `ExceptionEntry.MatchingStubIsFaithful` | virtdbg/arch/idt.c:17-193 | with the right stub kind the handler's argument is the struct exception_context of the interrupted state, each field at its offset |
| `ExceptionEntry.EntryIsFaithfulIff` | virtdbg/arch/idt.c:162-193 | of the 32 vectors, the context is right for all states if and only if the vector is not 0x10, 0x11 or 0x15 |
| `ExceptionEntry.ReturnRestoresContext` | virtdbg/arch/idt.c:79-130 | iretq resumes with the registers, rip, cs, rflags, rsp, ss and ds the handler left in the fields of the context |
| `ExceptionEntry.EntryThenReturnIsIdentity` | virtdbg/arch/idt.c:18-131 | a handler that leaves the context words alone resumes the interrupted code unchanged, but for es |
| `ExceptionEntry.MismatchedVectorResumesElsewhere` | virtdbg/arch/idt.c:178-183 | from the three mismatched vectors it resumes at cs or at the error code instead |
| `NumberFormat.DigitCount` | virtdbg/util/trace.c:26-34 | the number of digits is that of the value in the base, or the limit |
| `NumberFormat.DigitsValue` | virtdbg/util/trace.c:26-34 | the digits read as the value, modulo base^len when truncated |
| `NumberFormat.DigitsFit` | virtdbg/util/trace.c:21-34 | 64 characters hold any 64-bit value and 32 any negative one |
| `NumberFormat.DigitsInCase` | virtdbg/util/trace.c:24-27 | every digit belongs to the base, and every letter is upper case exactly if that is asked for |
| `NumberFormat.ParseInvertsNumText` | virtdbg/util/trace.c:14-46 | for every value, base, padding and limit the printed text parses to the (truncated) magnitude with its sign |
| `NumberFormat.SignedTextIsRightIff` | virtdbg/util/trace.c:15-19 | a signed 64-bit value is printed as itself if and only if it is a negative int, or non-negative with bit 31 clear |
| `NumberFormat.TwoToThe31IsPrintedNegative` | virtdbg/util/trace.c:15-19 | 2^31 is printed as -2^31 |
| `NumberFormat.NumFmt` | virtdbg/util/trace.c:14-46 | the buffer holds exactly that text and its terminator from the index returned, and is unchanged before it |
| `Printf.EscapedPrintsItself` | virtdbg/util/trace.c:51-57 | a text with its percent signs doubled prints itself, whatever the arguments |
| `Printf.FormatOfAppended` | virtdbg/util/trace.c:48-265 | a format after a format prints one text after the other, the second from the arguments the first left |
| `Printf.NumberReadsBackIff` | virtdbg/util/trace.c:102-173 | with any flags and padding that fit, what a number conversion prints of an int, a long or a pointer reads back as the argument, or its two's complement, if and only if it is not %u of a negative int or %ld with the wrong sign |
| `Printf.NumberIsLaidOut` | virtdbg/util/trace.c:102-173 | its text is a minus if bit 31 of a %d is set, then pads up to the width, then digits of the conversion's base and case without a leading zero |
| `Conversions.WrittenIsRead` | virtdbg/util/trace.c:61-84 | a leading zero asks for zeros, the decimal digits after it are the width, any number of l makes it wide, and the next character is the conversion |
| `Conversions.StringPrinted` | virtdbg/util/trace.c:175-185 | %s prints the string, and a null pointer as <null> |
| `Conversions.CharPrinted` | virtdbg/util/trace.c:96-100 | %c prints the low byte of its argument |
| `Conversions.ErrorPrinted` | virtdbg/util/trace.c:242-257 | %R prints the names of the errors 0 to 4, and covers no others |
| `Conversions.SizePrinted` | virtdbg/util/trace.c:197-240 | %S covers exactly the sizes below 2^40 and prints their text |
| `Conversions.UnknownPrintsNothing` | virtdbg/util/trace.c:187-190 | a percent sign prints itself; any other character prints nothing and takes no argument |
| `Printf.MinusOnePrintsWide` | virtdbg/util/trace.c:117-130 | %u of -1 reads back as 2^64 - 1 |
| `Printf.ScaleIs` | virtdbg/util/trace.c:197-219 | below 2^40, and only there, the unit is in the table; the scaled size is the quotient by the unit and the remainder the 1024ths of one |
| `Printf.SizeIsRightIff` | virtdbg/util/trace.c:197-240 | for any number of fraction digits, %S prints units, point, hundredths and the unit B, KB, MB or GB of the size if and only if there are no hundredths, or they equal the whole units and need no padding |
| `Printf.SizeRepeatsWhole` | virtdbg/util/trace.c:197-240 | 1536 bytes are printed as 1.1KB |
| `Printf.EmitSize` | virtdbg/util/trace.c:197-240 | for any size below 2^40 the text of SizeIsRightIff is sent |
| `Printf.BufferContext.Output` | virtdbg/util/trace.c:274-285 | the buffer stays what it must be for the text sent so far |
| `Printf.EmitNumber` | virtdbg/util/trace.c:109-114 | the characters sent are those of the number, up to the first terminator |
| `Printf.EmitConversion` | virtdbg/util/trace.c:91-259 | the switch sends the text of the conversion and takes its argument |
| `Printf.Kvcprintf` | virtdbg/util/trace.c:48-265 | the callback receives exactly the text of the format, and the result is its length |
| `Printf.Kvsnprintf` | virtdbg/util/trace.c:287-293 | returns the full length n; the buffer holds the first min(n, size - 1) characters, a terminator at size - 1 exactly when n is at least size, and nothing else is written |
| `RingList.InitList` | virtdbg/util/list.c:5-8 | adds an empty ring to the rings of the heap |
| `RingList.ListPush` | virtdbg/util/list.c:10-19 | appends to its ring; every other ring is as before |
| `RingList.ListRemove` | virtdbg/util/list.c:21-28 | deletes the entry from whichever ring holds it, without being told which |
| `RingList.ListPop` | virtdbg/util/list.c:30-39 | takes the last pushed entry, which is the first exactly if it is alone, or returns null and changes nothing |
| `RingList.HookExceptionHandler` | virtdbg/arch/idt.c:272-274 | a new hook comes after those already there |
| `RingList.CommonExceptionHandler` | virtdbg/arch/idt.c:277-291 | the walk terminates with the outcome of calling the hooks in order; fatal if one failed or none handled it |
| `RingList.CallsUpToFirstError` | virtdbg/arch/idt.c:282-285 | called are a prefix of the hooks in registration order: all, or up to and with the first that fails |
| `GdbPacket.AcceptedIsChecked` | virtdbg/gdb/gdb.c:107-140 | whatever the input, an accepted packet fits with its terminator, has no '#', stood before its checksum and sums to it |
| `GdbPacket.FrameIsAcceptedIff` | virtdbg/gdb/gdb.c:64-140 | a sender's frame after noise without '$' is accepted at once, as sent, with '+' alone sent back, if and only if both checksum digits are decimal |
| `GdbPacket.LaterFramesFail` | virtdbg/gdb/gdb.c:132-137 | after a refusal no sequence of frames, of the same packet or of others, is ever accepted |
| `GdbPacket.TooLongPacketFaults` | virtdbg/gdb/gdb.c:112 | a frame that does not fit is answered with the beginning of a log line and a division by zero, and no reply |
| `GdbPacket.OkIsLost` | virtdbg/gdb/gdb.c:12-23 | the packet OK is never accepted, however often its frame is sent |
| `GdbPacket.DeliveredIff` | virtdbg/gdb/gdb.c:64-140 | however often it is repeated and whatever frames follow, a packet is delivered if and only if its checksum digits are decimal |
| `PacketBytes.FrameIs` | virtdbg/gdb/gdb.c:64-90 | a frame is '$', the packet, '#', and the sum of its bytes modulo 256 in two upper-case hexadecimal digits |
| `PacketBytes.FrameCountIs` | virtdbg/gdb/gdb.c:71-90 | frames go out up to the first one answered with '+', and ten at most |
| `PacketBytes.TrailerRead` | virtdbg/gdb/gdb.c:12-37 | the byte any two characters are taken for: letters of either case count from 0, and a character that is no digit sets all bits from its digit up |
| `PacketBytes.TrailerIsAcceptedIff` | virtdbg/gdb/gdb.c:107-140 | whatever two characters follow its '#', a packet that fits is accepted at once if and only if its bytes sum to that byte, with every byte sent either way |
| `PacketBytes.HexTrailerIsAcceptedIff` | virtdbg/gdb/gdb.c:107-140 | a packet with its right checksum in hexadecimal of either case is accepted with '+' if and only if neither digit is a letter, and refused with '-' otherwise |
| `PacketBytes.PartialBlocks` | virtdbg/gdb/gdb.c:104-127 | a line that ends before '$', inside a packet that fits or inside its checksum leaves the receiver waiting, and sends nothing but a warning |
| `PacketBytes.FullBufferFaults` | virtdbg/gdb/gdb.c:111-112 | once the buffer is full of bytes other than '#', the division by zero follows, whatever comes next |
| `GdbPacket.SendPacket` | virtdbg/gdb/gdb.c:64-91 | for any replies, sends identical frames up to the first '+' and at most ten, reading one reply for each |
| `GdbPacket.SerialReadHex` | virtdbg/gdb/gdb.c:12-37 | reads the value of the next characters, or blocks, with a warning sent for each that is no digit |
| `GdbPacket.CheckSum` | virtdbg/gdb/gdb.c:127-140 | two digits against the sum: acknowledged exactly when equal, with every byte sent, or blocked on input |
| `GdbPacket.ReadOnce` | virtdbg/gdb/gdb.c:107-141 | one pass from retry: the packet, a mismatch, a full buffer or a blocked line, the bytes sent, writing inside the buffer only |
| `GdbPacket.ReceivePacket` | virtdbg/gdb/gdb.c:96-149 | for every input: the payload in the buffer with a terminator, the input left, and every byte sent, log lines included; nothing beyond size is written |

## Assumptions

- Allocation has room for a complete tree below the 52-bit physical limit and does not wrap; the code
  checks neither. The guest does not store to a table there is by then (`virtdbg/virtdbg.h:51-60`), or in the
  world switch to its stack frame; it may store anywhere else.
- `invept` and the `cr3` load leave no stale translations: a walk reads memory as it is.
- The lock's steps are sequentially consistent.
- The loader's `base` starts at or below 2^47 (it is zero), entries handed to `StartUp` end there, and the sizes
  of the image and of the guest's state are at most 2^48.
- Words are the unit of memory. The assembly only touches addresses a multiple of 8 apart on the stack
  and a block apart from it, and the page tables only aligned entries.
- `-(signed)i` for the smallest int, undefined in C, wraps. The padding of a conversion fits an int.
- Exception hooks do not change the list of hooks.
- Serial input is a finite stream; a read past its end is a read that never returns.
- `iretq` loads rflags as popped, and exceptions are delivered at the privilege level of the handler.

## Left out

- EptMap: does not take the EPT lock, which is proved apart, or execute invept, which the walk makes redundant.
- HandleExit: does not model the vmread of the instruction error, the trace output or the reload of the descriptor tables.
- ServeGuest: returns at the first HLT, where the loop in C goes on resuming the guest at the same instruction for ever.
- TranslateIsIdentity: does not model MAXPHYADDR below 52 bits or execute-only entries, which the walk reports as misconfigured.
- VmmInit: does not cover entries longer than 2^64 - 4096 bytes, on which the inner loop never ends.
- StartUp: does not copy the image or fill in the guest's state; those are stores outside the tables.
- OutstandingTickets: does not model interrupt flags, memory order or cpu_pause; restoring interrupts is right only without contention.
- Step: does not update a lock object in place, because interleavings need a state machine; it has one lock, and each atomic operation is one step.
- Exec: does not update a machine in place; a run of instructions is a function of the machine's state.
- GuestContinuity: does not cover the first exit, which passes the wrong pointer on.
- EmitConversion: does not cover the conversions listed under Format.
- Kvcprintf: nor formats that contain them.
- Kvsnprintf: nor formats that contain them.
- Format: does not cover what is undefined in C: %R of an error without a name (division by zero), %S of 1 TiB or more (a unit past the table), formats that end inside a specification, padding that overruns the number buffer, and mistyped arguments.
- ReceivePacket: does not model a null buffer, or what happens after the division by zero.
- Start: does not program the VMCS or the control registers, and stores the revision number as a whole word of a zeroed region.
- The buddy allocator (`virtdbg/mm/pmm.c:64-183`) is inside a comment.
- The gdb command dispatch and `init_vmcs`, `vmxon` and `validate_controls` are not part of this model: the first returns before its loop for the signals it knows, the others are field writes.
- `hook_interrupt_handler` and the interrupt handlers index one table two ways and are not part of this model.
- Serial ports, MSRs, descriptor tables, linker scripts and boot protocol tags are hardware or build plumbing.
