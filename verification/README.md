# Verified models of the tiny386 PC emulator

The emulator is fast because it does simple things in a roundabout way: arithmetic flags are recorded and computed
later, page walks are cached as XOR differences, instruction bytes come through a running pointer, string
instructions run in page-sized chunks. Its devices are state machines whose guarantees hold over whole commands or
whole runs. Each file here models one such part of `jni/tiny386`, as classes whose methods change the fields that the
C functions change, and proves it against a plain description of what it stands for.

| file | part |
|---|---|
| `Words.dfy`, `EntryBits.dfy` | shifts and bitwise operations on numbers; bytes, accessed and dirty bits |
| `LazyFlags.dfy`, `ShiftLaws.dfy`, `LazyCpu.dfy` | lazy flags against the EFLAGS rules of Intel SDM Vol. 1, section 3.4.3 |
| `Paging.dfy`, `Tlb.dfy` | the 32-bit TLB against a fresh two-level walk (SDM Vol. 3A, sections 4.3, 4.6 and 4.7) |
| `Paging64.dfy`, `Tlb64.dfy` | the 64-bit TLB against a fresh four-level walk with 2-MiB and 1-GiB pages |
| `SplitAccess.dfy` | loads and stores that straddle two pages against byte-by-byte translation |
| `RepString.dfy` | REP MOVS and REP STOS in chunks against one element at a time |
| `Fetch.dfy` | the fetch pointer and fused compare-and-jump against separate translation and execution |
| `Segments.dfy`, `Returns.dfy`, `Handlers.dfy`, `Interrupts.dfy`, `RoundTrip.dfy`, `DeliveryExamples.dfy` | protected-mode interrupt entry and IRET (SDM Vol. 3A, section 6.12), with examples on one small machine |
| `Pic.dfy` | the two cascaded interrupt controllers and the interrupt latch of the CPU |
| `IdePio.dfy`, `Atapi.dfy` | PIO transfers of the hard disk and of the CD drive |
| `Ne2000.dfy` | the receive ring of the network card and remote DMA reads |
| `Resample.dfy` | the rational approximation and the two-counter resampler |
| `FloatBits.dfy`, `Fpu.dfy` | 80-bit patterns and the cached FPU register file |
| `Ps2.dfy` | the PS/2 queues and the keyboard controller |

Memory is a sequence or array of bytes, machine words are bounded numbers with wrap-around written out, disks are byte
sequences, and EFLAGS is a record of the six arithmetic flags where only those matter (`LazyFlags`) and a 32-bit vector
where all of it is pushed and popped (`Segments`). PIC registers are sets of lines. Ghost fields and ghost parameters log
what has been accepted, delivered or announced. The block device, received frames and the host's accesses are inputs.

What a method and its description both call - a bitwise operation, a table index, a descriptor bit, a mark in a page-table
entry, a conversion of samples - has a statement of its own in digits, bytes or memory addresses, which the methods that
depend on it repeat (`FlagSemantics.ByDigits`, `Fetch.JumpsTo`, `Tlb.Marks`, `Paging64.Spells`, `Handlers.Begins`,
`Returns.ComesBack`).

Where the code departs from what it stands for, the model keeps the code, and the condition is exact:

- After MUL or IMUL, OF is read through CF, so an instruction that then changes CF alone makes OF wrong; ROL and ROR
  by a nonzero multiple of 32 write CF and OF (`LazyCpu.Departs`).
- A 2-MiB or 1-GiB entry with bits set below its frame, such as the PAT bit, has them ORed into the address
  (`Paging64.FrameIsAligned`); runs that meet no such entry are translated as the architecture means
  (`Tlb64.CleanRunIsMeant`).
- With 16-bit addresses the pointer of a REP MOVS or REP STOS chunk goes on where the index wraps: a chunk accesses the
  bytes of its elements exactly if no index wraps before its last element (`RepString.ChunkVisits`), and a run in
  which no chunk wraps, as in any segment that starts on a page boundary (`RepString.PagedSegments`), ends as
  single elements would. The whole run asks for the addresses of single elements exactly if no chunk wraps
  (`RepString.ChunkedAsksEach`). `RepString.WrapExample` is a run of two bytes that ends with another memory.
- Special mask mode and special fully nested mode can free a request of which the CPU is not told. The events that do
  so are known from the state before them (`Pic.Strands`, `Pic.StrandsExactly`).
- A device on line 2, mask-mode commands to the slave, initialising the master and polling it can leave a request
  of the slave off the master's line 2, again known from the state before (`Pic.Unhooks`, `Pic.StaysCascaded`,
  `Pic.UnhookExample`).
- INT n is the one caller of the delivery that goes on after a failure. To an inner privilege it then leaves ESP moved
  once the TSS has been read, and SS too once its descriptor has loaded, and nothing else
  (`Interrupts.IntFromProtected`, `DeliveryExamples.FailedIntExample`). From virtual-8086 mode it changes nothing, or the
  core aborts (`Interrupts.IntFromVm`). Hardware interrupts and exceptions abort on any failure
  (`Interrupts.Interrupted`, `Interrupts.Excepted`).
- IRET to a conforming code segment of privilege 0 from privilege 0 to an outer one is refused
  (`RoundTrip.OuterPrivilege`, `DeliveryExamples.ConformingExample`), and EIP of virtual-8086 code is cut to 16 bits
  (`RoundTrip.FromVirtual8086`, `DeliveryExamples.VmAddressExample`).
- A disk command that ends with the last sector that the address registers can name leaves them at sector 0: the
  address advances by the count modulo that capacity (`IdePio.AddressComesBack`, `IdePio.Drive.ReadWhole`,
  `IdePio.LastSectorExample`).
- A CD transfer with a byte count limit below 2 never moves a byte (`Atapi.CdDrive.ReadCd`, `Atapi.CdDrive.HostStalls`).
  A host that reads by dwords gets the whole of a read exactly if all of it fits into one block or the limit leaves a
  remainder below 2 by four; with the usual limit FFFFh that fails from 64 KiB on
  (`Atapi.CdDrive.ReadWholeByDwords`).
- A frame that takes exactly the free pages of the receive ring makes the ring look empty (`Ne2000.Card.Receive`,
  `Ne2000.FullRingExample`).
- A subnormal double with more than one mantissa bit set does not survive FNSAVE and FRSTOR
  (`FloatBits.RoundTrip`, `Fpu.Agrees`).
- The packets of one mouse event are cut exactly if the mouse queue has no room for all of them, which the guard of the
  event does not rule out for large movements (`Ps2.NothingCut`, `Ps2.CutExample`).
- The comment above `ps2_read_data` speaks of the last keyboard byte for any empty queue; the mouse queue is only read
  while it has bytes, so the code and the model do this for the keyboard queue.

## Model

| member | source | states |
|---|---|---|
| LazyFlags.ParityTabIsParity | jni/tiny386/i386.c:384-409 | the parity table says whether a byte has an even number of ones |
| FlagSemantics.BitwiseByDigits | jni/tiny386/i386.c:1737-1748 | each digit of the result of AND, OR and XOR is that of the truth table, at every position |
| FlagSemantics.ByDigitsDecides | jni/tiny386/i386.c:1737-1748 | and no other number has these digits |
| LazyFlags.AddReads | jni/tiny386/i386.c:332-512 | the record left by ADD or ADC reads back as carry, overflow, half carry, zero, sign and parity of the sum, at every width |
| LazyFlags.SubReads | jni/tiny386/i386.c:332-512 | the same for SUB and SBB, with borrows |
| LazyFlags.IncReads | jni/tiny386/i386.c:411-512 | the record of INC, which holds no operand, reads back as the flags of adding 1, except CF |
| LazyFlags.DecReads | jni/tiny386/i386.c:411-512 | the record of DEC reads back as the flags of subtracting 1, except CF |
| LazyFlags.NegReads | jni/tiny386/i386.c:332-512 | the record of NEG reads back as the flags of subtracting from 0 |
| LazyFlags.ImulReads | jni/tiny386/i386.c:350-512 | CF and OF read from the record of IMUL say that the signed product does not fit, and the register pair holds it |
| LazyFlags.MulReads | jni/tiny386/i386.c:350-512 | CF and OF read from the record of MUL say that the upper half is not zero, and the register pair holds the product |
| ShiftLaws.ShlRounds | jni/tiny386/i386.c:1828-1841 | n single-bit rounds of SHL come to one shift and one bit of the operand |
| ShiftLaws.SarRounds | jni/tiny386/i386.c:1986-1999 | n rounds of SAR come to one arithmetic shift |
| ShiftLaws.RclRounds | jni/tiny386/i386.c:1864-1880 | n rounds of RCL come to the shifted pieces of operand and carry |
| ShiftLaws.RcrRounds | jni/tiny386/i386.c:1882-1898 | the same for RCR |
| ShiftLaws.RolRounds | jni/tiny386/i386.c:1843-1862 | the same for ROL |
| ShiftLaws.RorRounds | jni/tiny386/i386.c:1900-1919 | the same for ROR |
| LazyCpu.Cpu.Acop | jni/tiny386/i386.c:1721-1728 | ADC and SBB give the architecture's result and six flags, read through the lazy record |
| LazyCpu.Cpu.Aop | jni/tiny386/i386.c:1730-1744 | ADD, SUB and CMP do |
| LazyCpu.Cpu.Lop | jni/tiny386/i386.c:1737-1748 | AND, OR, XOR and TEST give the result digit by digit and the flags of the result; AF is what the flags word holds |
| LazyCpu.Cpu.IncDec | jni/tiny386/i386.c:1750-1756 | INC and DEC do, with CF as it was |
| LazyCpu.Cpu.Neg | jni/tiny386/i386.c:1758-1763 | NEG does |
| LazyCpu.Cpu.Mul | jni/tiny386/i386.c:2042-2096 | MUL and IMUL give the double-width product, and CF and OF |
| LazyCpu.Cpu.Shift | jni/tiny386/i386.c:1828-1841 | SHL, SHR and SAR agree with the round-by-round definition for every count |
| LazyCpu.Cpu.Rcl | jni/tiny386/i386.c:1864-1880 | RCL does |
| LazyCpu.Cpu.Rcr | jni/tiny386/i386.c:1882-1898 | RCR does |
| LazyCpu.Cpu.Rol | jni/tiny386/i386.c:1843-1862 | ROL does exactly unless a count that is a nonzero multiple of 32 changes CF or OF |
| LazyCpu.Cpu.Ror | jni/tiny386/i386.c:1900-1919 | ROR does exactly unless such a count changes CF or OF |
| LazyCpu.Cpu.Clc | jni/tiny386/i386.c:2397-2399 | CLC changes CF alone, exactly unless OF hangs on a multiplication and CF changes |
| LazyCpu.Cpu.Stc | jni/tiny386/i386.c:2401-2403 | STC likewise |
| LazyCpu.Cpu.Cmc | jni/tiny386/i386.c:2392-2395 | CMC likewise |
| LazyCpu.Cpu.RefreshFlags | jni/tiny386/i386.c:514-522 | makes the flags word equal to what the record stands for, and changes no flag |
| LazyCpu.Cpu.Lahf | jni/tiny386/i386.c:2381-2384 | AH gets the flags byte, the flags stay |
| LazyCpu.Cpu.Sahf | jni/tiny386/i386.c:2386-2390 | the flags byte is loaded, exactly unless OF hangs on a multiplication and CF changes |
| LazyCpu.Cpu.Exec | jni/tiny386/i386.c:1721-1999 | every instruction meets the architecture exactly unless `Departs` says otherwise, and the assertion in `get_CF` is never reached |
| LazyCpu.Cpu.Run | jni/tiny386/i386.c:332-522 | over any program every step meets the architecture, exactly unless the step departs in the state that the steps before it left |
| LazyCpu.ClcAfterMulExample | jni/tiny386/i386.c:465-471 | MUL of 16 by 16 in a byte, then CLC: OF reads 0 though the architecture keeps it |
| LazyCpu.RotateBy32Example | jni/tiny386/i386.c:1843-1858 | ROL of 1 by 32 sets CF, which the architecture leaves clear |
| Paging.LookupIsPermits | jni/tiny386/i386.c:555-568 | the eight-row table agrees with the access rules for user, write, U/S, R/W and WP |
| Paging.SameWalks | jni/tiny386/i386.c:570-605 | setting accessed and dirty bits changes no walk |
| Paging.WalkFields | jni/tiny386/i386.c:570-605 | the walk written out: the entries read are those at four times the two ten-bit fields of the address, and the frame and the rights are theirs |
| EntryBits.SetsOneBit | jni/tiny386/i386.c:583-637 | an accessed mark sets bit 5 of the entry and a dirty mark bit 6, and every other bit stays |
| Tlb.XorPages | jni/tiny386/i386.c:570-605 | the XOR of frame and page, applied to an address in the page, gives the address in the frame |
| Tlb.AccessMarks | jni/tiny386/i386.c:570-640 | an access sets bit 5 of the present entries that its walk reads, bit 6 of the page's entry exactly if it writes and is allowed, and no other bit of memory |
| Tlb.Mmu.Clear | jni/tiny386/i386.c:546-552 | no entry stays valid |
| Tlb.Mmu.Refill | jni/tiny386/i386.c:570-605 | the two levels are walked and marked as a walk marks them; a slot is filled exactly if both entries are present |
| Tlb.Mmu.Translate | jni/tiny386/i386.c:607-640 | outcome, error code and memory are those of a fresh walk; bit 6 of the page's entry is set behind a permitted write, and behind a read or a fault every bit 6 of memory is as it was; a fault leaves no entry for the page, so a retry walks again |
| Tlb.Mmu.TranslateSpan | jni/tiny386/i386.c:642-661 | the same for an access that may need two pages, with the faulting address |
| Tlb.Mmu.SetCr0 | jni/tiny386/i386.c:2280-2290 | a write to CR0 keeps every remaining entry equal to its walk |
| Tlb.Mmu.SetCr3 | jni/tiny386/i386.c:2293-2295 | a write to CR3 does |
| Tlb.Mmu.Run | jni/tiny386/i386.c:546-661 | any run of accesses, stores outside the tables, flushes and CR0/CR3 writes has the outcomes and the memory of the machine without a TLB |
| Paging64.FrameIsAligned | jni/tiny386/amd64.c:576-600 | the ORed page number is the aligned frame plus the offset exactly if the bits below the frame are among those of the address |
| Paging64.CleanEntriesAlign | jni/tiny386/amd64.c:576-600 | it is for every large-page entry whose low frame bits are clear |
| Paging64.CleanWalk | jni/tiny386/amd64.c:546-616 | a walk that ends in such an entry is the walk that the architecture means |
| Paging64.PatBitExample | jni/tiny386/amd64.c:593-600 | a 2-MiB entry with bit 12 set maps even pages one page too high |
| Paging64.SameWalk | jni/tiny386/amd64.c:546-616 | setting accessed and dirty bits changes no four-level walk |
| Paging64.IndexFields | jni/tiny386/amd64.c:561-602 | the four table indexes are the nine-bit fields of the page number, root first, and the parts inside large pages are the fields below |
| Paging64.WalkSpelled | jni/tiny386/amd64.c:546-616 | the walk reads entry after entry at eight times these fields in the table that the entry before it names; it is missing where one is absent, and else ends at the first page with the rights that all of them grant |
| Tlb64.AccessMarks | jni/tiny386/amd64.c:560-651 | an access sets bit 5 of the present entries that its walk reads, bit 6 of the last of them exactly if it writes and is allowed, and no other bit of memory |
| Tlb64.Mmu64.Visit | jni/tiny386/amd64.c:560-616 | one level: the entry is marked and ends the walk, or leads to the next table with the rights ANDed |
| Tlb64.Mmu64.Refill | jni/tiny386/amd64.c:546-616 | the walk spelled by the nine-bit fields of the address is made, bit 5 of its entries and nothing else is set, and the slot is filled exactly if it ends in a page of 4 KiB, 2 MiB or 1 GiB |
| Tlb64.Mmu64.Translate | jni/tiny386/amd64.c:618-651 | outcome, error code and memory are those of a fresh walk; bit 6 of the leaf entry is set behind a permitted write, and no bit 6 otherwise; a fault leaves no entry for the page |
| Tlb64.Mmu64.SetCr3 | jni/tiny386/amd64.c:2501-2504 | putting other tables to use keeps the TLB equal to the walk |
| Tlb64.Mmu64.Run | jni/tiny386/amd64.c:530-651 | any run, across fills, evictions and flushes, has the outcomes and the memory of the machine without a TLB |
| Tlb64.CleanRunIsMeant | jni/tiny386/amd64.c:546-651 | in a run whose accesses meet only clean large-page entries, every outcome is that of the aligned frame plus the offset |
| SplitAccess.PlaceIsBytewise | jni/tiny386/i386.c:642-661 | each byte of an access lies where translating it alone puts it, for every offset and any two frames |
| SplitAccess.StoredIsBytewise | jni/tiny386/i386.c:817-863 | a store puts each byte where a store of that byte would, and changes no other |
| SplitAccess.LoadAfterStore | jni/tiny386/i386.c:767-863 | a load after a store of the same place gives the value back |
| SplitAccess.StoreAfterLoad | jni/tiny386/i386.c:767-863 | storing what was loaded changes nothing |
| SplitAccess.Ram.Load16 | jni/tiny386/i386.c:767-778 | a 16-bit load is the little-endian number of the bytes that each translate by themselves |
| SplitAccess.Ram.Load32 | jni/tiny386/i386.c:780-802 | a 32-bit load is, in all three ways of straddling |
| SplitAccess.Ram.Load64 | jni/tiny386/amd64.c:791-836 | a 64-bit load is, in all seven ways of straddling |
| SplitAccess.Ram.Store16 | jni/tiny386/i386.c:817-832 | a 16-bit store writes exactly those bytes |
| SplitAccess.Ram.Store32 | jni/tiny386/i386.c:834-863 | a 32-bit store does |
| SplitAccess.Ram.Store64 | jni/tiny386/amd64.c:899-952 | a 64-bit store does |
| RepString.PointerFollowsIndex | jni/tiny386/i386.c:2753-2803 | a pointer stepped inside a page stays where the index register points exactly if addresses are 32 bits wide or the index does not wrap |
| RepString.ChunkVisits | jni/tiny386/i386.c:2753-2803 | a chunk accesses the addresses of its elements exactly if the index does not wrap before the last of them |
| RepString.ChunkedIsEach | jni/tiny386/i386.c:2753-2803 | the chunked run comes to what single elements come to, unless an index wraps within a chunk |
| RepString.ChunkedAsksEach | jni/tiny386/i386.c:2753-2803 | the chunked run asks for the addresses of the run by single elements exactly if no index wraps within a chunk |
| RepString.PagedSegments | jni/tiny386/i386.c:2753-2803 | in segments that start on a page boundary no index wraps within a chunk |
| RepString.WrapExample | jni/tiny386/i386.c:2652-2678 | REP STOSB of two bytes in segment 0080h, from offset FFFFh on, leaves another memory than two STOSB |
| RepString.MarkedBefore | jni/tiny386/i386.c:2753-2803 | translating an element before its chunk changes nothing that the run without chunks comes to |
| RepString.LocateByBytes | jni/tiny386/i386.c:642-661 | a translation of an element finds each byte where its own page puts it, or stops at the first byte that faults, with its own address modulo 2^32, or is not in RAM; exactly the pages of the bytes before it are marked |
| RepString.StringUnit.MovsElement | jni/tiny386/i386.c:2632-2638 | one element of MOVS, including the state that a page fault leaves |
| RepString.StringUnit.StosElement | jni/tiny386/i386.c:2617-2620 | one element of STOS |
| RepString.StringUnit.RepMovs | jni/tiny386/i386.c:2753-2803 | the run is the chunked one, with its slow path, for any wrap; it ends with the same memory, SI, DI, CX and reason as one element at a time unless an index wraps within a chunk, in both directions and for overlapping buffers |
| RepString.StringUnit.RepStos | jni/tiny386/i386.c:2652-2678 | the same for STOS |
| Fetch.SamePage | jni/tiny386/i386.c:886-910 | the XOR comparison asks for the cached page and an offset below the bound |
| Fetch.CachedByte | jni/tiny386/i386.c:886-910 | a hit reads the byte that translating the address reads |
| Fetch.Front.Peek | jni/tiny386/i386.c:886-920 | the byte, or the fault, of translating the address |
| Fetch.Front.FetchFirst | jni/tiny386/i386.c:935-949 | the same for the first byte, which sets up the pointer |
| Fetch.Front.Fetch8 | jni/tiny386/i386.c:922-933 | the same for a further byte |
| Fetch.Front.FetchWide | jni/tiny386/i386.c:951-989 | the same for 16 and 32 bits, also across a page |
| Fetch.Front.Instruction | jni/tiny386/i386.c:886-989 | from any address, wherever the running pointer was left, an instruction of up to 15 bytes is fetched as the bytes that each translate by themselves, or stops where one does not |
| Fetch.SextJumps | jni/tiny386/i386.c:1772-1773 | the sign-extended displacement leads at most 128 bytes back or 127 ahead, congruent to its byte modulo 256, within 2^32 or in 16-bit code 2^16 |
| Fetch.JumpsOnce | jni/tiny386/i386.c:1772-1773 | there is only one such address |
| Fetch.Front.TryJcc8 | jni/tiny386/i386.c:1765-1778 | a fused jump is the short JZ or JNZ that follows, taken by the lazy ZF to its target, told by distance and residue |
| Fetch.Front.Jcc | jni/tiny386/i386.c:3055-3065 | the same jump run as an instruction of its own goes to that target or behind itself |
| Fetch.Front.CompareAndJump | jni/tiny386/i386.c:1780-1786 | CMP or TEST and the jump after it end with the flags of the first and the next address of the second, fused or not |
| Fetch.Front.Run | jni/tiny386/i386.c:886-989 | in any run of instructions, comparisons with the jump after them, jumps, other transfers of control, stores to memory and flushes, every instruction has the bytes that each translate by themselves, every comparison its flags, and every next address is that of the machine without cache, pointer and fusion |
| Segments.ReachIsBytewise | jni/tiny386/i386.c:642-661 | four bytes can be accessed exactly if the page of each of them can |
| Segments.LoadsExactly | jni/tiny386/i386.c:1076-1150 | a selector loads exactly if its descriptor lies in its table, can be read and is present, and for a data register that of a segment; the cached part is made of its two dwords |
| Segments.LoadFaults | jni/tiny386/i386.c:1076-1137 | one that does not load faults with its own number, as vector 11, 12 for SS, or 13 |
| Segments.SegFields | jni/tiny386/i386.c:1139-1145 | base, limit with its granularity, and the privilege, code and size bits of the cached part, digit by digit |
| Segments.SpMoves | jni/tiny386/i386.c:1692 | a 16-bit stack pointer wraps within 64 KiB and keeps the upper half of ESP |
| Interrupts.GateOpens | jni/tiny386/i386.c:4653-4682 | a gate opens exactly if it lies in the table, is present and of type 14 or 15, and INT n is privileged for it; faults name the vector |
| Interrupts.CodeTakes | jni/tiny386/i386.c:4567-4620 | a code segment takes a handler exactly if its descriptor is present code of the current privilege or a more inner one, and of privilege 0 and not conforming from virtual-8086 mode |
| Interrupts.IsrBegins | jni/tiny386/i386.c:4622-4904 | a handler starts at the EIP and CS of the two dwords of its gate, at the privilege of its code segment; IF is off behind type 14 and as it was behind type 15, TF, NT, RF and VM are off, every other flag is as it was |
| Interrupts.StackIsTss | jni/tiny386/i386.c:4746-4781 | on an inner privilege it runs on the ESP and SS at offsets 4 + 8 pl and 8 + 8 pl of the TSS |
| Interrupts.EnteredFinds | jni/tiny386/i386.c:4698-4881 | a handler finds on its 32-bit stack, upwards, any error code, EIP, CS, EFLAGS, to an inner privilege ESP and SS, and from virtual-8086 mode ES, DS, FS and GS |
| Interrupts.Cpu.EnterSame | jni/tiny386/i386.c:4698-4745 | delivery on the same stack pushes EFLAGS, CS, EIP and any error code exactly if they fit, and else changes nothing |
| Interrupts.Cpu.EnterOuter | jni/tiny386/i386.c:4746-4820 | delivery to an inner privilege takes SS and ESP from the TSS and pushes the five dwords exactly if the stack loads and has room; a failure has its reason and leaves exactly the ESP and SS that had been loaded |
| Interrupts.Cpu.LeaveVm | jni/tiny386/i386.c:4822-4846 | leaving virtual-8086 mode clears VM and takes the stack for privilege 0 exactly if that loads, or changes nothing |
| Interrupts.Cpu.EnterFromVm | jni/tiny386/i386.c:4822-4881 | delivery from virtual-8086 mode pushes the nine dwords with VM set in the image exactly if the stack loads and has room; a failure has its reason, and VM is clear behind it exactly if the stack has loaded, in which case the core or the caller aborts |
| Interrupts.Cpu.CallIsr | jni/tiny386/i386.c:4622-4904 | the handler of the gate is entered exactly if its descriptors load and the frame fits, on the stack and at the privilege that the gate asks for, with the frame of the origin; a failure before the frame is pushed has its reason and leaves what `AfterFailure` says, and one after it aborts; a handler starts as the bytes of gate, code descriptor and TSS say (`Begins`, `TssHas`) and finds the frame of its origin (`Finds`) |
| Interrupts.Cpu.Int | jni/tiny386/i386.c:2311-2321 | INT n delivers without error code and by the privilege of the gate, the handler starts as the bytes of its gate say and finds the address of the next instruction, and a failure puts EIP back |
| Interrupts.Cpu.Interrupt | jni/tiny386/i386.c:5110-5118 | a hardware interrupt is delivered, its handler starts as the bytes of its gate say and finds the address of the next instruction, or the core aborts |
| Interrupts.Cpu.Exception | jni/tiny386/i386.c:5125-5141 | an exception is delivered, its handler starts as the bytes of its gate say and finds the address of the instruction that failed, below it an error code exactly for vectors 8 and 10 to 14, or the core aborts |
| Interrupts.IntFromVm | jni/tiny386/i386.c:2311-2321 | INT n from virtual-8086 mode changes nothing when it fails, unless the core aborts |
| Interrupts.IntFromProtected | jni/tiny386/i386.c:2311-2321 | INT n that fails in protected mode moves ESP exactly if the TSS was read for an inner privilege, and SS exactly to the descriptor that loaded; nothing else changes |
| DeliveryExamples.FailedIntExample | jni/tiny386/i386.c:2311-2321 | INT 0 with room for four of five dwords on the stack of privilege 0: page fault with SS and ESP of privilege 0, which then reaches a conforming handler on that stack at privilege 3 |
| Returns.StackDwordsOk | jni/tiny386/i386.c:4986-5010 | IRET finds its dwords exactly if each of them can be read |
| Returns.ReturnTakes | jni/tiny386/i386.c:4907-4967 | IRET takes a code segment exactly if its descriptor is present code and the privileges of segment, selector and caller fit |
| Returns.IretComesBack | jni/tiny386/i386.c:4969-5108 | a return goes to the EIP, CS and EFLAGS on the stack; outside privilege 0 IOPL stays, and IF where IOPL is below the privilege; to an outer privilege ESP and SS come from the stack, and exactly the data registers with a more inner DPL, unless of conforming code, become null |
| Interrupts.Cpu.PmRet | jni/tiny386/i386.c:4969-5108 | IRET does what `Returns.Iret` says, a completed one comes back as the stack says, and a refused one changes nothing |
| RoundTrip.PopsFrame | jni/tiny386/i386.c:4969-5108 | IRET finds the dwords of a frame in the opposite order, with wrap-around of ESP |
| RoundTrip.SamePrivilege | jni/tiny386/i386.c:4622-5108 | entry from privilege 0, handler, IRET: CS:EIP, SS:ESP, EFLAGS and CPL are back |
| RoundTrip.OuterPrivilege | jni/tiny386/i386.c:4622-5108 | the same from privileges 1 to 3, exactly unless the interrupted code is a conforming segment of privilege 0 |
| RoundTrip.FromVirtual8086 | jni/tiny386/i386.c:4622-5108 | the same from virtual-8086 mode with all six segments; EIP comes back exactly if it is below 2^16 |
| DeliveryExamples.ConformingExample | jni/tiny386/i386.c:4622-5118 | conforming code of privilege 0, run at privilege 3, takes a hardware interrupt through the gate and cannot be returned to |
| DeliveryExamples.VmAddressExample | jni/tiny386/i386.c:4622-5118 | virtual-8086 code at EIP 12345h takes a hardware interrupt through the gate and goes on elsewhere |
| PicPriority.TopIsBest | jni/tiny386/i8259.c:72-81 | in a nested stack of lines the best rank is the line acknowledged last |
| PicPriority.RotationKeepsOrder | jni/tiny386/i8259.c:138-141 | making an acknowledged line the lowest keeps the order of the lines in service |
| Pic.LinesAreBits | jni/tiny386/i8259.c:266 | bit l of a mask byte is line l |
| Pic.CommandTable | jni/tiny386/i8259.c:209-229 | a command byte by its bits: initialisation, modes, and the eight commands of bits 7 to 5, with the line in bits 2 to 0 |
| Pic.IcwByte | jni/tiny386/i8259.c:269-286 | the initialisation bytes: upper five bits of the vectors, a cascade byte unless the chip is single, a last byte if it was announced |
| Pic.DataByte | jni/tiny386/i8259.c:263-287 | outside the initialisation the data byte is the mask, and the last byte of it gives automatic end of interrupt and special nesting |
| Pic.ServiceByLine | jni/tiny386/i8259.c:136-145 | line by line, what an acknowledge and an end of interrupt make of requests, lines in service and the lowest line |
| Pic.GetPriority | jni/tiny386/i8259.c:72-81 | the loop finds the best rank in a mask, 8 for none |
| Pic.GetIrq | jni/tiny386/i8259.c:84-107 | a line is put forward exactly if some unmasked request outranks what is in service; then it is that line |
| Pic.AcknowledgePushes | jni/tiny386/i8259.c:136-145 | in fully nested mode an acknowledged line outranks all in service |
| Pic.EoiPops | jni/tiny386/i8259.c:232-242 | a non-specific end of interrupt takes the line acknowledged last |
| Pic.CommandKeepsOrder | jni/tiny386/i8259.c:205-262 | every command except set-priority and rotate-on-specific keeps the lines in service nested |
| Pic.StaysCascaded | jni/tiny386/i8259.c:111-337 | the slave's deliverable requests stay pending on the master's line 2 over an event exactly unless the event and the state before it are among `Unhooks` |
| Pic.UnhookExample | jni/tiny386/i8259.c:210-217 | initialising the master while the slave requests forgets line 2 |
| Pic.StrandsExactly | jni/tiny386/i8259.c:205-287 | an event leaves the CPU untold of a deliverable request exactly if it enters special mask or special fully nested mode with a request that outranks what still blocks it, told from the state before |
| Pic.SpecialMaskStrandsExample | jni/tiny386/i8259.c:223-224 | setting special mask mode frees line 1 behind line 0, and the CPU is not told |
| Pic.SpecialNestingStrandsExample | jni/tiny386/i8259.c:281-285 | setting special fully nested mode frees line 5 behind line 2, and the CPU is not told |
| Pic.PicPair.UpdateIrq | jni/tiny386/i8259.c:111-127 | the slave's request is pulsed on line 2, and the latch is set exactly if it was or the master has a deliverable request |
| Pic.PicPair.SetIrq | jni/tiny386/i8259.c:56-68 | an edge is latched, and no request is stranded |
| Pic.PicPair.ReadIrq | jni/tiny386/i8259.c:147-174 | the acknowledge serves the best lines of both chips, pushes them, and strands nothing |
| Pic.PicPair.Step | jni/tiny386/i386.c:5110-5120 | the CPU takes an interrupt exactly if IF and the latch are set; with IF set a deliverable request is served at once |
| Pic.PicPair.WriteCommand | jni/tiny386/i8259.c:205-262 | each command has its effect and updates or not; a request is stranded exactly if `Strands` holds of the command and the state before |
| Pic.PicPair.WriteData | jni/tiny386/i8259.c:263-287 | mask and initialisation bytes have their effect; a request is stranded exactly if `Strands` holds of the byte and the state before |
| Pic.PicPair.Poll | jni/tiny386/i8259.c:290-310 | a poll takes the best request of a chip and strands nothing on the master |
| Pic.PicPair.ReadPort | jni/tiny386/i8259.c:312-337 | a read shows the selected register, or polls |
| Pic.PicPair.Run | jni/tiny386/i8259.c:111-337 | in any run up to the first event that strands a request, each event does what it should and no request is stranded; at every point before which no event has reordered them the lines in service are nested, and the slave's requests are hooked where no event has unhooked them |
| IdePio.AddressComesBack | jni/tiny386/ide.c:549-580 | any sector number set in the ATA task-file registers is read back modulo the number of sectors that they can name, in LBA and CHS |
| IdePio.RegistersName | jni/tiny386/ide.c:549-580 | LBA registers then hold the four digits of that number, and CHS registers its cylinder, head and sector |
| IdePio.LastSectorExample | jni/tiny386/ide.c:566-580 | after the last LBA sector comes sector 0 |
| IdePio.Drive.SectorRead | jni/tiny386/ide.c:582-630 | a block of a read is in the buffer with the address advanced, or the device refuses and the command is aborted with the registers as they were |
| IdePio.Drive.ReadString | jni/tiny386/ide.c:1785-1803 | a string read delivers the next bytes of the disk, as many whole elements as the block has |
| IdePio.Drive.SectorWrite | jni/tiny386/ide.c:688-699 | the first block of a write is awaited, and the disk is untouched |
| IdePio.Drive.BlockWritten | jni/tiny386/ide.c:640-686 | a full block goes to its sectors and no others, or the device refuses and the command is aborted |
| IdePio.Drive.ReadOne | jni/tiny386/ide.c:1696-1803 | any access that fits its place delivers the next bytes of the disk, and at least one word |
| IdePio.Drive.HostReads | jni/tiny386/ide.c:1696-1803 | any sequence of such accesses, words and odd strings of words included, delivers a prefix of the sectors in order, or all of them |
| IdePio.Drive.HostWrites | jni/tiny386/ide.c:1675-1783 | any such sequence puts a prefix of the host's bytes on the way to the sectors |
| IdePio.Drive.ReadWhole | jni/tiny386/ide.c:582-638 | a read of 1 to 256 sectors, up to the last one that the registers can name, returns the disk's bytes, ends with count 0 and the address advanced modulo that capacity, for every multiple setting |
| IdePio.Drive.WriteWhole | jni/tiny386/ide.c:640-699 | such a write leaves the host's bytes in those sectors and every other byte of the disk as it was |
| IdePio.Drive.WriteThenRead | jni/tiny386/ide.c:582-699 | a write and a read of the same sectors give the host its bytes back |
| Atapi.BlockIsRight | jni/tiny386/ide.c:1052-1082 | the next block is within the byte count limit, even, and not empty |
| Atapi.BlockFillsLimit | jni/tiny386/ide.c:1052-1082 | and a block that is not the last is the largest even number within the host's limit |
| Atapi.AnnounceKeeps | jni/tiny386/ide.c:1052-1082 | the announced blocks add up to what has been sent and what is promised |
| Atapi.PieceKeeps | jni/tiny386/ide.c:1041-1051 | a piece stays inside the buffered sector and the announced block |
| Atapi.CdDrive.Continue | jni/tiny386/ide.c:1011-1084 | the next piece is the next bytes of the disc, with the bytes left as the measure, or the command ends |
| Atapi.CdDrive.ReadCd | jni/tiny386/ide.c:1103-1124 | a read command starts with the first piece of its first sector; the host is offered bytes exactly if its limit is at least 2 |
| Atapi.CdDrive.HostReads | jni/tiny386/ide.c:1696-1803 | whatever accesses the host makes, it receives the bytes of the sectors in order |
| Atapi.CdDrive.HostStalls | jni/tiny386/ide.c:1696-1803 | a command with a limit below 2 gives no byte to any accesses, and never ends |
| Atapi.CdDrive.HostReadsDwords | jni/tiny386/ide.c:1696-1803 | dword accesses make progress while blocks are whole dwords, and never pass a block that is not |
| Atapi.CdDrive.ReadWhole | jni/tiny386/ide.c:986-1124 | a whole read delivers exactly n times 2048 bytes to a host that reads by words, every announced block within the limit, and ends |
| Atapi.CdDrive.ReadWholeByDwords | jni/tiny386/ide.c:986-1124 | a host that reads by dwords gets all of it exactly if `DwordsFinish`, and else stops within the first block |
| Ne2000.Joins | jni/tiny386/ne2000.c:316-360 | a record in the free pages leaves the unread ones alone and links its frame to the chain of waiting frames, unless no page is left |
| Ne2000.HeaderSays | jni/tiny386/ne2000.c:320-338 | the header says received, with bit 5 for a group address, the page of the next record and the length, and the padded frame is behind it |
| Ne2000.FewestPages | jni/tiny386/ne2000.c:325 | a record takes the fewest whole pages |
| Ne2000.WhoseFrame | jni/tiny386/ne2000.c:289-314 | byte by byte: a broadcast, a group frame by its hash, or one whose address is every second byte of the ROM |
| Ne2000.ChainKept | jni/tiny386/ne2000.c:316-360 | writes outside the unread pages keep the chain of waiting frames |
| Ne2000.InOrder | jni/tiny386/ne2000.c:270-366 | accepted frames come out in the order in which they went in exactly if none has been lost |
| Ne2000.Card.BufferFull | jni/tiny386/ne2000.c:244-257 | true exactly if the free pages cannot hold the longest frame |
| Ne2000.Card.CopyIn | jni/tiny386/ne2000.c:341-358 | the copying loop ends, and puts the frame behind its header with wrap at the end of the ring |
| Ne2000.Card.Receive | jni/tiny386/ne2000.c:270-366 | for any boundary in the ring, a frame is recorded exactly if it fits, is for this card and the ring has room; no unread byte is written and `curpag` stays in the ring; the ring looks empty afterwards exactly if the frame took all that was free; a chain of waiting frames that starts at the boundary is kept |
| Ne2000.Card.ReceiveAndRead | jni/tiny386/ne2000.c:270-366 | for any boundary, a read of the page where a frame went returns its header and the frame |
| Ne2000.Card.ReadPort | jni/tiny386/ne2000.c:1033-1123 | a byte or word of card memory, and the remote address moves on with wrap at the end of the ring |
| Ne2000.Card.ReadBlock | jni/tiny386/ne2000.c:1067-1123 | a remote-DMA read of n bytes returns the next n bytes of the ring, by bytes or words |
| Ne2000.Card.Take | jni/tiny386/ne2000.c:1067-1123 | reading header and frame from the boundary page returns the oldest waiting frame, padded with zeros to 60 bytes |
| Ne2000.Card.Run | jni/tiny386/ne2000.c:244-366 | arrivals and polls in any order do what a queue of frames does |
| Ne2000.FullRingExample | jni/tiny386/ne2000.c:270-366 | two frames of 1514 bytes fill a ring of twelve pages: both are recorded, and a poll gets neither |
| Resample.GcdDivides | jni/tiny386/sb16.c:1304-1332 | `Gcd`, which measures exactness, is a common divisor |
| Resample.DeterminantOne | jni/tiny386/sb16.c:1311-1328 | neighbouring convergents cannot be reduced |
| Resample.StopsClose | jni/tiny386/sb16.c:1322-1324 | where the next denominator is too large, the fraction is off by at most 1/(9k) and not exact |
| Resample.ApproxFrac | jni/tiny386/sb16.c:1304-1332 | lowest terms with 1 <= k <= 8, exact exactly if the reduced denominator is at most 8, else within 1/(9k); zero exactly if d >= 9n |
| Resample.ConvertIsLinear | jni/tiny386/sb16.c:1384-1484 | in every format silence goes to 0 and a step of one sample to 1, or to 256 for bytes |
| Resample.Progress | jni/tiny386/sb16.c:1334-1381 | the two counters are the quotients of the ticks |
| Resample.Resampled | jni/tiny386/sb16.c:1334-1484 | for every length the frames consumed and made are the quotients of the ticks, output frame m repeats input frame ((m + 1) den - 1) div num of the ring, and no more than `ilen` is consumed |
| FloatBits.ToKeepsNumber | jni/tiny386/fpu.c:33-57 | the 80-bit pattern of a finite number stands for the same number exactly if the pattern survives, and that of a subnormal for its lowest bit set |
| FloatBits.ToKeepsSpecial | jni/tiny386/fpu.c:51-53 | an infinity or NaN keeps its sign and fraction below an explicit digit |
| FloatBits.NormalBack | jni/tiny386/fpu.c:33-106 | normal numbers, infinities and NaNs survive the way to 80 bits and back bit for bit |
| FloatBits.SubnormalBack | jni/tiny386/fpu.c:40-47 | a subnormal number comes back as its lowest bit set |
| FloatBits.RoundTrip | jni/tiny386/fpu.c:33-106 | a pattern survives exactly if it is not subnormal or has one mantissa bit |
| FloatBits.SubnormalExample | jni/tiny386/fpu.c:40-47 | 3 times the smallest positive number comes back as the smallest |
| Fpu.SaveThenRestore | jni/tiny386/fpu.c:666-745 | FNSAVE then FRSTOR gives back control word, status word with top, unwritten patterns bit for bit, and exactly those written values that survive |
| Fpu.Agrees | jni/tiny386/fpu.c:189-219 | a run can be told from a register file without cache exactly if it reads a written value that FNSAVE has encoded and that does not survive |
| Fpu.ExactIsNeverStale | jni/tiny386/fpu.c:189-219 | which never happens while the written patterns survive |
| Fpu.PushRenumbers | jni/tiny386/fpu.c:189-219 | a push makes its value ST(0) and ST(i) ST(i + 1), and a pop undoes the numbering |
| Fpu.RestoredRegister | jni/tiny386/fpu.c:666-700 | ST(i) of a restored image is the register i above the top in bits 11 to 13 of the status word |
| Fpu.FpuState.Get | jni/tiny386/fpu.c:189-198 | a register is decoded when first read after FRSTOR, and not again |
| Fpu.FpuState.Set | jni/tiny386/fpu.c:200-206 | a written value is newer than its pattern |
| Fpu.FpuState.Save | jni/tiny386/fpu.c:704-745 | FNSAVE stores the patterns of all eight registers, encoding those that are newer |
| Fpu.FpuState.Restore | jni/tiny386/fpu.c:666-700 | FRSTOR loads control word, status word, top and eight patterns |
| Fpu.FpuState.Run | jni/tiny386/fpu.c:189-219 | any run gives the values and images of the register file with history |
| Ps2.Queue.Put | jni/tiny386/i8042.c:476-497 | a byte joins the end of the ring, and a full ring drops it |
| Ps2.Queue.Get | jni/tiny386/i8042.c:580-612 | the oldest byte leaves, and an empty ring repeats the last one |
| Ps2.PacketReports | jni/tiny386/i8042.c:691-737 | the bytes of a packet decode to the movement that the mouse takes off its account |
| Ps2.ImexButtons | jni/tiny386/i8042.c:691-737 | the fourth byte of an IMEX packet holds the two other buttons beside the wheel |
| Ps2.ReportsAddUp | jni/tiny386/i8042.c:755-765 | the packets of one event report all of the movement |
| Ps2.NothingCut | jni/tiny386/i8042.c:739-765 | the mouse queue takes all packets of an event exactly if it has room for packet size times the packets that the longest axis needs |
| Ps2.CutExample | jni/tiny386/i8042.c:739-765 | a move of 762 with 239 bytes waiting passes the guard and loses the last byte of its sixth packet |
| Ps2.ReleaseIsPress | jni/tiny386/i8042.c:523-545 | a release sends the bytes of the press with bit 7 of the last one set |
| Ps2.KeysDiffer | jni/tiny386/i8042.c:523-545 | no two keys below 128 that send anything send the same |
| Ps2.KeyboardScans | jni/tiny386/i8042.c:619-680 | what the keyboard answers to each command, and which commands switch scanning and await an operand |
| Ps2.RatesSelectKind | jni/tiny386/i8042.c:851-895 | three sample rates in a row select IMPS/2 (200, 100, 80) or IMEX (200, 200, 80), and no others change the kind |
| Ps2.OperandsAcknowledged | jni/tiny386/i8042.c:854-891 | both operands of the mouse are acknowledged, and that of E8h is its resolution |
| Ps2.WrapEchoes | jni/tiny386/i8042.c:777-786 | in wrap mode every byte comes back, but for the one that ends it and the reset |
| Ps2.ModesSwitch | jni/tiny386/i8042.c:787-845 | each mode is switched by its two commands, and all but wrap mode by defaults and reset |
| Ps2.OnlyPollsTake | jni/tiny386/i8042.c:823-826 | only a poll takes movement off, exactly what its packet reports |
| Ps2.OperandGoes | jni/tiny386/i8042.c:191-314 | a command with an operand and the data byte after it: mode, keyboard queue, mouse queue, mouse, or nothing |
| Ps2.CommandReplies | jni/tiny386/i8042.c:191-261 | what each command of the controller puts into which queue |
| Ps2.Controller.UpdateIrq | jni/tiny386/i8042.c:126-150 | status bits and interrupt lines say what is pending |
| Ps2.Controller.ReadData | jni/tiny386/i8042.c:263-275 | keyboard bytes drain first, then mouse bytes; with both empty the last keyboard byte repeats |
| Ps2.Controller.WriteCommand | jni/tiny386/i8042.c:191-261 | every controller command has its answer and its effect on mode, pending command and self test |
| Ps2.Controller.WriteData | jni/tiny386/i8042.c:277-314 | every data byte has its effect: operand, keyboard command or mouse command |
| Ps2.Controller.PutKeycode | jni/tiny386/i8042.c:511-551 | a key sends its bytes, after the one held back before |
| Ps2.Controller.MouseEvent | jni/tiny386/i8042.c:739-765 | movement is added up and sent in packets unless the mouse is disabled, remote or backed up |
| Ps2.Controller.Run | jni/tiny386/i8042.c:126-314 | in any run the host reads what the two-queue description says, OBF and MOUSE_OBF tell which queue has bytes, and accepted bytes are the delivered ones and the waiting ones |

## Left out

- LazyCpu.Cpu.Shift: does not state CF of SHL for counts above the width, where the C shift is undefined and the architecture leaves CF open.
- DIV and IDIV, the two- and three-operand forms of IMUL, SHLD, SHRD, BT and BSF are not among the instructions of `LazyCpu`.
- `task_switch`, task gates, 16-bit gates and 16-bit task state segments, real mode, RETF and far calls are not modelled; entry through such a gate is the result `Unmodelled`.
- Interrupts.Cpu.CallIsr: linear memory with a fixed set of accessible pages stands for paging during delivery, and a state in which the C code aborts is the result `Abort`.
- Segment limit checks, which the source has disabled, and SIMD, CPUID and model-specific registers.
- Tlb.Mmu.Run: accesses do not run past the end of the address space, tables lie in RAM and the guest stores outside the tables in use; privileges 1 and 2 count as user, as in the code.
- Tlb64.Mmu64.Run: the same limits; CR0.WP is ignored and addresses are used untranslated before CR3 is first loaded, as in the code.
- RepString.StringUnit.RepMovs: translations do not change during the instruction, and a run stops with `Outside` at a page that is not RAM.
- LODS, SCAS, CMPS, INS and OUTS, and the callback for strings written to device memory.
- Fetch.Front.Run: code lies in RAM outside A0000h to BFFFFh and does not run past the end of the address space, a page translates to something else only where the cache is flushed, and cycle counts are not modelled.
- Pic.PicPair.Run: stops before the first event that `Strands` a request; what that event leaves, `WriteCommand` and `WriteData` state.
- Level-triggered mode of the controllers, on which the source aborts, is reported as `aborted`.
- IdePio.Drive.ReadWhole: the block device answers at once and refuses sectors outside the disk; commands that run past the last sector that the registers can name, or start at sector 0 of the first track, asynchronous completion, IDENTIFY, the interrupt line and drive select are not modelled.
- Atapi.CdDrive.ReadWhole: sectors of 2048 bytes, fewer than 2^20 of them so that the C byte count does not overflow, with numbers below 2^31; a host that mixes words and dwords is only told what it receives (`HostReads`), and other packet commands are not modelled.
- Ne2000.Card.Receive: the multicast hash is a parameter; transmission, remote-DMA writes, the remaining registers and host networking are not modelled.
- Ne2000.Card.Run: the driver puts the boundary where the next frame starts, not one page before; `Receive` and `ReceiveAndRead` hold for both.
- Resample.Resampled: one method with channel count and sample format stands for the six copies in the source; `muldiv64` and the ring filled by `write_audio` are not modelled.
- Fpu.FpuState.Save: the memory image is a value, so a page fault in the middle of FNSAVE or FRSTOR is not modelled; neither are packed decimals, rounding and arithmetic.
- Ps2.Controller.Run: the variant with threads, the A20 line and the action of a system reset, which is only reported, are not modelled.
- VGA, CMOS, PIT, DMA controller, PCI configuration, sound synthesis, the Android user interface and host file access.
