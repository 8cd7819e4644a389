# Nachos demand paging, modelled in Dafny

This project models the demand-paging core of the Nachos teaching kernel's
user-program layer. It covers two source files.

`code/userprog/addrspace.cc` builds and switches address spaces:

- it reads the NOFF executable header and converts its byte order when needed;
- it sizes the address space in pages and creates its page table;
- it names the per-process swap file and lays the code and initialised-data
  segments into it;
- it sets the initial registers;
- on a context switch out, it writes dirty pages back and invalidates the
  translations;
- on a context switch in, it maps the code pages eagerly.

`code/userprog/exception.cc` is the kernel's exception entry:

- the program-counter advance after a system call;
- the page-fault resolver: a TLB refill with LRU or FIFO replacement, or demand
  paging through the inverted page table with eviction and write-back;
- the dispatch on the kind of exception.

The modules follow the program's structure:

- `Hardware` (`hardware.dfy`) holds:
  - the machine constants;
  - the translation entry, shared by TLB slots and page tables;
  - the frame map (`memMap`);
  - the machine state: registers, main memory, TLB and active page table.
- `Bytes` (`bytes.dfy`) holds byte images (pages, overwrites, reads cut short
  at the end of a file) and the swap file, a byte store read and written at
  offsets.
- `Noff` (`noff.dfy`) holds the executable header and its in-place byte-order
  conversion.
- `AddressSpace` (`addrspace.dfy`) holds the `AddrSpace` class with its
  constructor, `InitRegisters`, `SaveState` and `RestoreState`, and `Load`,
  which wraps the constructor's header check and its fatal assertions.
- `Replacement` (`replacement.dfy`) holds the slot-choice functions that specify
  the fault handler's scan loops, and the lemmas about LRU and FIFO replacement.
- `Exception` (`exception.dfy`) holds `SyscallEnd`, the TLB and inverted-table
  fault paths, and `ExceptionHandler`.

The source chooses between build variants with `#ifdef`. Each variant is its
own method here:

- `SaveStateTlb` and `SaveStatePageTable`;
- `PageFaultTlbLru` and `PageFaultTlbFifo`.

An `AddrSpace` created with `withPageTable` stands for a build without
`USE_TLB`. `ExceptionHandler` is the LRU build, which is the one that
`exception.cc:62` selects.

The model follows the code on these points:

- No interval is ever incremented. Neither file ages the recency counters, so
  the model does not either.
- The inverted-table victim scan ignores `noSwap`, so pinned code pages can be
  evicted.
- `SaveState` frees every frame of the frame map, not only those of the
  outgoing address space.
- Swap-file creation failure and a wrong magic number are fatal assertions in
  the source. `Load` returns them as error values.

## Model

| member | source | states |
|---|---|---|
| Noff.WordToHost | code/userprog/addrspace.cc:27-30 | the converted word's bytes are those of the input in reverse order |
| Noff.WordToHostInvolutive | code/userprog/addrspace.cc:69-70 | converting a word twice gives the word back |
| Noff.WordAt | code/userprog/addrspace.cc:68 | a header word is the four bytes at its offset, most significant first (host order) |
| Noff.NoffHeader.Read | code/userprog/addrspace.cc:68 | the header read is the ten words in the first 40 bytes of the executable |
| Noff.SwapHeader | code/userprog/addrspace.cc:33-46 | all ten fields (the magic number and three fields of each of the three segments) are converted, and nothing else |
| Noff.SwappedInvolutive | code/userprog/addrspace.cc:33-46 | converting the header twice restores it, so the conversion must be applied at most once |
| Noff.HostHeaderMagic | code/userprog/addrspace.cc:69-72 | after the conditional conversion the magic is NOFFMAGIC iff it was right as read or right once converted |
| AddressSpace.PagesFor | code/userprog/addrspace.cc:77-78 | the page count `r` of `n` bytes satisfies `n <= r*PageSize < n + PageSize` |
| AddressSpace.PagesForMonotone | code/userprog/addrspace.cc:138 | fewer bytes never need more pages, so `codePageNum <= numPages` |
| AddressSpace.StrNCopy | code/userprog/addrspace.cc:107 | the copy is a prefix of the name of at most `n` characters without a terminator, and it stops early only at a terminator |
| AddressSpace.StrNCopyFull | code/userprog/addrspace.cc:107 | a name with no terminator among its first `n` characters is copied as exactly those `n` characters |
| AddressSpace.SwapName | code/userprog/addrspace.cc:106-110 | the name ends in ".swap", the rest is a prefix of the thread name of at most 32 characters, and the total is at most 37 characters (exactly min(len, 32) + 5 for a name without a terminator) |
| AddressSpace.SwapNameOverflowsSourceBuffer | code/userprog/addrspace.cc:106-109 | a thread name of 32 or more characters needs 38 bytes, one more than the 37-byte buffer |
| AddressSpace.SwapNameFitsBuffer | code/userprog/addrspace.cc:106-109 | every swap name, with its terminator, fits a 38-byte buffer |
| AddressSpace.CopySegments | code/userprog/addrspace.cc:119-136 | swap bytes `[0, cs)` are the code segment's file bytes, `[cs, cs+ds)` the data segment's, each only when non-empty; all later bytes are untouched |
| AddressSpace.FillSwapFile | code/userprog/addrspace.cc:111-136 | the fresh swap file has `numPages*PageSize` bytes: code at 0, initialised data after it, and beyond that the file's initial contents, taken to be zeros |
| AddressSpace.NewPageTable | code/userprog/addrspace.cc:89-101 | a fresh table of `numPages` entries, each with `valid` and `noSwap` false |
| AddressSpace.AddrSpace.constructor | code/userprog/addrspace.cc:74-138 | `numPages` is the page count of the raw size; `codePageNum` is that of the code size; the page table (page-table build only) is fresh and all invalid and swappable; the swap name and the swap image are as above |
| AddressSpace.Load | code/userprog/addrspace.cc:63-117 | the header is converted only when it needs it; construction fails iff the magic is still wrong, or the swap file cannot be created; otherwise the address space is initialised for the converted header |
| AddressSpace.AddrSpace.InitRegisters | code/userprog/addrspace.cc:165-183 | every register is 0 except PC = 0, NextPC = 4 and StackReg = `numPages*PageSize - 16` (as a C int) |
| AddressSpace.AddrSpace.SaveStateTlb | code/userprog/addrspace.cc:197-199 | every TLB slot is as before with `valid` cleared |
| AddressSpace.AddrSpace.SaveStatePageTable | code/userprog/addrspace.cc:201-211 | every entry is invalidated; swap page `i` becomes frame `physicalPage` of entry `i` exactly when that entry was valid and dirty, and is otherwise unchanged; every frame is free |
| AddressSpace.AddrSpace.WriteBack | code/userprog/addrspace.cc:206-207 | swap page `i` becomes frame `ppn` of main memory; every other swap page is unchanged |
| AddressSpace.SaveStep | code/userprog/addrspace.cc:202-210 | one loop step extends the saved prefix by entry `i`, keeping the rest of the table and of the swap file as they were |
| AddressSpace.SaveKeepsCleanSwap | code/userprog/addrspace.cc:202-210 | with no valid dirty entry, saving leaves the whole swap file as it was |
| AddressSpace.AddrSpace.MapCodePage | code/userprog/addrspace.cc:234-247 | `Find` fails iff no frame is free; then the entry gets virtual page `i` and physical page -1 and nothing else changes; otherwise the entry is mapped (valid, clean, writable, pinned) to a previously free frame that is now marked in use and loaded with swap page `i` |
| AddressSpace.MapStep | code/userprog/addrspace.cc:232-248 | mapping the next code page into a free frame extends the mapping: distinct frames, frames taken from the free ones, each loaded with its page, no other frame touched |
| AddressSpace.RestoredFull | code/userprog/addrspace.cc:232-248 | when every code page got a frame, the loop has reached the restored state |
| AddressSpace.RestoredShort | code/userprog/addrspace.cc:235-239 | when `Find` fails at page `n`, the loop has reached the restored state, with entry `n` naming physical page -1 |
| AddressSpace.AddrSpace.RestoreState | code/userprog/addrspace.cc:229-248 | the active table is this one, of size `numPages`; with `k` free frames the first min(k, codePageNum) code pages are mapped into distinct formerly free frames holding their swap pages; the entry where frames ran out has physical page -1; later entries, other frames and other bits are untouched |
| Hardware.Int32 | code/userprog/exception.cc:35-36 | the value a C `int` holds: in 32-bit range, congruent modulo 2^32, and equal to the input when it fits |
| Hardware.FrameMap.Find | code/userprog/addrspace.cc:235 | -1 iff no frame is free; otherwise a formerly free frame, now the only bit newly set, with one fewer free frame |
| Hardware.FrameMap.Refresh | code/userprog/addrspace.cc:211 | every frame is free |
| Bytes.SwapFile.constructor | code/userprog/addrspace.cc:111-112 | a newly created swap file has the given size and is taken to read as zeros, an assumption about the file system (see "## Left out") |
| Bytes.SwapFile.WriteAt | code/userprog/addrspace.cc:126 | the file after a write at an offset, cut short at its end |
| Bytes.Read | code/userprog/addrspace.cc:247 | a read delivers the file's bytes at the offset, cut short at the end of the file |
| Bytes.Written | code/userprog/exception.cc:177 | a write cut short at the end of the file changes only the bytes it covers and keeps the length |
| Bytes.CopyIn | code/userprog/exception.cc:190 | main memory after a read into it at an offset: those bytes replaced, all others kept |
| Bytes.PageOfOverwrite | code/userprog/addrspace.cc:207 | a page-sized write at a page boundary replaces that page and leaves every other page as it was |
| Bytes.LoadedFrame | code/userprog/exception.cc:190 | after the fault's load, the frame holds swap page `vpn` when the file covers it, and every other frame is unchanged |
| Replacement.FirstInvalid | code/userprog/exception.cc:109-120 | the lowest invalid slot, or -1 iff every slot is valid |
| Replacement.FirstLargest | code/userprog/exception.cc:124-132 | the first candidate whose interval is at least every candidate's and strictly above those before it, or -1 iff no candidate beats -1 |
| Replacement.FirstReplace | code/userprog/exception.cc:137-146 | the lowest slot with the `replace` flag, or -1 iff none has it |
| Replacement.TlbFaultLruInstalls | code/userprog/exception.cc:109-134 | after an LRU-build fault one slot (the lowest invalid one, else the first largest-interval one) maps `vpn` to itself, is valid with interval 0, and no other slot changed |
| Replacement.FlagFirst | code/userprog/exception.cc:137-146 | when exactly one slot carries the flag, the scan finds that slot |
| Replacement.FifoReplaceRotates | code/userprog/exception.cc:136-147 | with the flag on slot `p` alone, `p` is evicted and mapped to `vpn`, the flag sits on `(p+1) mod TLBSize` alone, and no other mapping, validity or interval changed |
| Replacement.FifoTraceAdvances | code/userprog/exception.cc:136-147 | along any run of FIFO-build faults, a full TLB flagged at `r` alone becomes one flagged at `r+1 mod TLBSize` alone |
| Replacement.FlagAfter | code/userprog/exception.cc:136-147 | after `k` faults on a full TLB flagged at `p` alone, the TLB is full and flagged at `(p+k) mod TLBSize` alone |
| Replacement.FifoRotation | code/userprog/exception.cc:136-147 | successive full-TLB faults evict slots `p, p+1, …` modulo TLBSize, whatever pages are requested |
| Exception.SyscallEnd | code/userprog/exception.cc:29-38 | PrevPC becomes the old PC, PC the old NextPC, NextPC the old NextPC + 4 (as a C int); every other register is unchanged |
| Exception.Unsigned | code/userprog/exception.cc:105 | the register value read as unsigned: in range and congruent modulo 2^32 |
| Exception.FaultPage | code/userprog/exception.cc:104-105 | the faulting address, read as unsigned, lies in page `vpn` |
| Exception.FillInvalidSlot | code/userprog/exception.cc:109-120 | the lowest invalid slot is filled with `vpn` (valid, interval 0; its flag is set when it is slot 0 and kept otherwise) and its index returned; with none, TLBSize is returned and nothing changes |
| Exception.LargestInterval | code/userprog/exception.cc:124-132 | the running-maximum scan returns `FirstLargest` of the entries scanned |
| Exception.PageFaultTlbLru | code/userprog/exception.cc:107-134 | the TLB becomes `TlbFaultLru` of the old TLB |
| Exception.PageFaultTlbFifo | code/userprog/exception.cc:136-147 | the TLB becomes `TlbFaultFifo` of the old TLB: an invalid slot is filled first, else the flagged slot is replaced and the flag moves on |
| Exception.DirectMappedDistinct | code/userprog/exception.cc:183-184 | in a table where every valid entry names its own index, no two valid entries share a frame |
| Exception.Evict | code/userprog/exception.cc:169-180 | the victim is invalidated; a dirty victim's frame is written to its owner's swap file at `virtualPage*PageSize`; a clean one writes nothing |
| Exception.Install | code/userprog/exception.cc:183-190 | entry `ppn` becomes the new mapping (vpn, ppn, clean, valid, used, interval 0, current thread) and frame `ppn` is read from the current thread's swap page `vpn` |
| Exception.FrameForFault | code/userprog/exception.cc:158-181 | a free frame when there is one, with the tables and swap files unchanged; otherwise the first valid largest-interval frame, evicted as above |
| Exception.PageFaultInverted | code/userprog/exception.cc:152-191 | the frame choice and eviction above, then only entry `ppn` changes (to the new mapping) and its frame holds the current thread's swap page `vpn`; it keeps every valid entry naming its own frame |
| Exception.ExceptionHandler | code/userprog/exception.cc:63-199 | a system call yields Halt, Exit(r4) or nothing by r2, always advances the PCs, and changes no other register, memory, frame bit, table entry, TLB slot or swap file; a page fault resumes after a TLB or inverted-table refill for the faulting page, and a TLB refill leaves memory, the frame map, the page table and the swap files as they were; any other kind is fatal and changes nothing |

## Left out

- File system: `OpenFile`, `Create`, `Open` and `Remove` are not part of this model. The executable is a byte sequence. A swap file is a `SwapFile` whose reads and writes are cut short at its end, as `Fit` states. Whether creation succeeds is a parameter of `Load`.
- Bytes.SwapFile.constructor: a newly created swap file is taken to read as zeros. Nothing in `addrspace.cc` clears it, because the `bzero` at `addrspace.cc:105` is commented out. So the zero-filled uninitialised data and stack in `SwapImage`, and therefore in `AddressSpace.FillSwapFile`, `AddressSpace.AddrSpace.constructor` and `AddressSpace.Load`, rest on this assumption about the file system.
- Hardware.FrameMap.Find: the contract does not say which free frame is chosen, because the `BitMap` code is not part of this model.
- The source of `WordToHost` is not among the modelled files. The model takes it to be the 32-bit byte reversal of a big-endian host, as the comment at `addrspace.cc:27-30` describes. The identity it would be on a little-endian host is not covered.
- The constants come from `machine.h`, `addrspace.h`, `noff.h` and `syscall.h`, which are not part of this model. They take the stock Nachos values: PageSize 128, NumPhysPages 32, TLBSize 4, UserStackSize 1024, and the standard register numbers.
- I/O and thread lifecycle are left out: `interrupt->Halt`, `currentThread->Finish`, `PrintThreadStates`, `printf` and `DEBUG`. `ExceptionHandler` reports the request as an `Outcome` and still advances the PCs, as the source's text does after the switch. Halt and Exit do not return in Nachos, so after them the advance has no effect.
- The Exit statistics (`missCnt` and `memCnt`) are left out. They include a floating-point miss rate.
- Interval aging is left out. It happens in translation code that is not part of this model.
- The destructor (`addrspace.cc:146-153`) is left out. It only removes the swap file and frees memory.
- The thread name and the swap name are Dafny strings, and each character stands for one C `char` (one byte). The counts 32, 37 and 38 for the name and its buffer are counts of those bytes.
- Scheduling and concurrency are left out. Every operation runs to completion without interruption.
- AddressSpace.AddrSpace.constructor: it requires the segment sizes plus the stack to fit in a 32-bit `int` and the non-empty segments to lie inside the executable (`Loadable`). The source computes these sizes and reads in unsigned 32-bit arithmetic without checks.
- AddressSpace.Load: it requires an executable of at least the 40-byte header. The source reads `sizeof(noffH)` bytes at `addrspace.cc:68` without checking, and a shorter file leaves the rest of the header uninitialised.
- AddressSpace.Load: it requires the header, once converted and when its magic number is right, to be `Loadable`. Sizes that overflow a 32-bit `int`, and segments that lie outside the executable, are not modelled.
- AddressSpace.AddrSpace.constructor: the swap name is kept as a string. The source stores a pointer to a local buffer that dangles once the constructor returns.
- AddressSpace.AddrSpace.RestoreState: only the page-table build is modelled. In the TLB build the function body is empty.
- AddressSpace.AddrSpace.SaveStatePageTable: it requires every valid, dirty entry to name a frame inside main memory. The source would read outside it otherwise.
- Exception.PageFaultTlbLru: it requires that some slot be invalid or have `interval >= 0`. Otherwise the source uses `LRUid` uninitialised.
- Exception.PageFaultTlbFifo: it requires that some slot be invalid or carry the `replace` flag. Otherwise the source uses `FIFOid` uninitialised.
- Replacement.FifoRotation: the "exactly one flag" invariant is stated only for a full TLB whose four slots are named one by one (TLBSize is 4).
- Exception.PageFaultInverted: when no frame is free, it requires a valid victim that has a swap file, and a dirty victim must name a real frame and a non-negative virtual page. Otherwise the source uses `LRUid` uninitialised or dereferences a missing address space.
- Exception.PageFaultInverted: faults at or above address 0x80000000 are not modelled; it requires `vpn * PageSize < 2^31`, passed on by `ExceptionHandler` as a faulting address below 0x80000000. At `exception.cc:190` the source passes the unsigned `vpn * PageSize` to `ReadAt`'s `int` position, which is negative for those faults, and what `ReadAt` does with a negative position is not part of this model.
- Exception.Install: it requires `vpn * PageSize < 2^31`, for the same reason as `PageFaultInverted`.
- Exception.Evict: a dirty victim whose `virtualPage * PageSize` reaches 2^31 is not modelled. At `exception.cc:176` the source would hand `WriteAt` a wrapped, negative `int` offset for it.
- Exception.PageFaultInverted: the table is taken to have at least NumPhysPages entries. The source scans NumPhysPages entries of `machine->pageTable`, but `RestoreState` installs a table of only `numPages` entries there (`addrspace.cc:229-230`). With fewer pages than frames, that scan reads past the table.
- Exception.ExceptionHandler: on a TLB refill it states that the page table is unchanged only when the page table is a different array from the TLB. The machine allocates them separately.
- Exception.ExceptionHandler: for the inverted-table branch it states only the new entry and that no other entry changed. The frame choice, eviction and load are stated in full by `PageFaultInverted`.

## Findings

| source | as written | input that shows it | evidently intended | confidence | as-written member | corrected member |
|---|---|---|---|---|---|---|
| code/userprog/addrspace.cc:106-109 | `char threadName[37]` receives up to 32 copied characters, a terminator at index 32, then ".swap" appended by `strcat`, ending with its terminator at index 37 | any thread name of 32 or more characters with no terminator among the first 32, such as 32 copies of 'a' | a buffer of 38 bytes, so that every truncated name, its suffix and its terminator fit | not executed | AddressSpace.SwapNameOverflowsSourceBuffer | AddressSpace.SwapNameFitsBuffer |
