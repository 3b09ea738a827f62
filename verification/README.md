# Guest page tables, program loading and cold migration of a micro VMM

This project models the third lab of the repository: a virtual machine monitor that builds x86-64 page tables inside guest
memory, loads ELF sections through them, handles the guest's system calls, saves the machine to an image file and resumes it
in a new process.

* **Words and layout.** `Word64` gives the C operators `&`, `|`, `~`, `>>` bit by bit and proves what the masks of the program
  compute; `Layout` holds the macros of `memory.h`; `LittleEndian` relates words and bytes. Guest memory is an array of bytes.
* **Tables.** `PageTable` describes the tables as a tree of paths (`Target` is the page a path leads to), `MemoryMap` has the
  operations, `Insertion` and `Refinement` show that `memory_map` inserts one translation into a finite map from 36-bit page
  numbers to frames, and exactly when; `Footprint` says which words the walks touch, and `Hardware` compares with the
  processor's walk on the bytes of memory. `Requests`, `Stack`, `Invariants`, `Accounting`, `AllocatorHistory`, `Reservation`
  and `Clients` are about whole runs. The 4-level layout is that of section 4.5 of the Intel SDM, volume 3A.
* **Loading.** `Elf` reads a file (`ElfWriter` builds files for the failing inputs below), `Loading` is the section loop,
  `Cursor` says where it copies to, `LoaderNeeds` when it works, `LoaderCorrectness` and `LoadFile` what it achieves.
  `Overflow` is about sections that run into pages the loader does not reserve: nothing changes if they are reserved
  beforehand. `SaveMachine` is the set-up of `save.c`, `AppImage` the application image in the repository
  (lab_2/vm_src/bin/app_img), by its 60 section headers, and `Save` the main function in place.
* **Shortfalls.** `Shortfalls` and `LoadShortfalls` have concrete failing inputs for the conditions below, in states that the
  program reaches by its own calls.
* **Migration.** `Image` is the image codec, `VirtualMachine` the same on an open file and a vCPU, `Migration` compares runs
  over saves and restores with one uninterrupted run, `Session` is the exit loop in place.

The classes `MemoryManager.Manager`, `LoadFile.Loader`, `VirtualMachine.Vm` and `Session.Vmm` work in place; each method is
proved equal to a function of the old state, and the theorems are about those functions. `Outcome.Fault` stands for undefined
behaviour in C, a load, store or dictionary index out of bounds, and for a file read whose offset or size does not fit a C
`int`, so that it takes place elsewhere. A method may be called whenever its function does not fault.

The number of dictionary entries and the memory size are parameters. The free pages of a dictionary, lowest first, are
`Allocator.Free`. `Space(m)` is the address space that memory `m` describes. A state is `WellFormed` when no table is reached
along two paths, tables lie in guest memory and are marked, mapped frames are marked (or page 0) and no tables, and every
unmarked page from 2 on is zero. That last clause is what makes an uncleared fresh table empty.

A state is `Sound` for a set of pages if it would be well-formed were these pages reserved: they are no tables, but they may
be unmarked and hold data. That is what `load_file` leaves behind when a section runs over the end of its first page.

Where the code falls short of what one would expect, the exact condition is proved, and an input that fails:

* `memory_map` keeps the tables well-formed exactly when enough free pages lie in guest memory and the frame is admissible
  (`Refinement.ReadyIsExact`). The code checks neither: `memory_map(0x5000, 0x2000)` on a new machine maps the guest to its
  own page table (`Shortfalls.FrameBecomesTable`), and since the dictionary knows more pages than guest memory has, the
  allocator leads it out of guest memory after `create_stack(0xE000, 0x9000)` (`Shortfalls.AllocatorOutrunsMemory`).
* `create_stack` ends exactly for sizes that are multiples of 0x1000 (`Stack.LoopEndsExactly`).
* `load_file` treats every section type with bit 3 set as having no data, truncates offsets and sizes to 32 bits, and reads
  with both as C `int`. A section comes out as specified for every file exactly if its size fits 32 bits and it is empty, of
  type `SHT_NOBITS`, or has bit 3 of its type clear and offset and size below 2^31 (`Elf.FaithfulForEveryFile`).
  `SHT_INIT_ARRAY` (14) and `SHT_FINI_ARRAY` (15) lose their contents: the guest reads zeros where app_img has its
  `.init_array` (`LoadShortfalls.InitArrayIsLost`). An offset of 2^31 is not read from (`LoadShortfalls.FarOffset`).
* `load_file` copies every section to its own address exactly when its cursor stands on the section's page; for pages not
  seen before this means that the sections of a page follow each other (`Cursor.CopiesOfFile`). In
  `LoadShortfalls.UnsortedGoesAstray` the bytes for 0x9100 arrive at 0xA100.
* `load_file` maps and reserves the start page of a section only. A byte is reachable exactly if its page was mapped before
  or is a start page (`LoadFile.GuestSeesFile`, `LoadFile.ReachableBytes`), and the machine stays well-formed exactly if the
  file has only zeros for the pages that nobody reserved (`LoadFile.WellFormedExactly`). Otherwise a later `memory_map` may
  take such a page as a table and leave an address translated to whatever the file put there
  (`LoadShortfalls.OverflowGoesWrong`, and for any state `Shortfalls.DirtyTable`).
* `load_file` does not look where the tables are. Zero-initialised data on pages 2 to 4 leaves no address below 512 GiB
  translated (`LoadShortfalls.TablesOverwritten`).
* `gva_to_hva` agrees with the system call handler's `&mem[gva]` exactly for mapped addresses other than 0 below 2^48
  (`LoadFile.HandlerPointerIsTranslation`, `Shortfalls.HandlerPointerDiffers`).
* Migration is transparent exactly when the processor state outside the image (the boot code sets the MSRs STAR and LSTAR) and
  the host state (open descriptors) carry over (`Migration.TransparentExactly`, `Migration.UnsavedStateMatters`). The image
  contains neither.
* The guest's `exit` call also makes the VMM dump an image and exit with status 0, although the comment in the source speaks of
  a save request only. The model follows the code and keeps the two apart as `Exited` and `Saved`.

## Model

| member | source | states |
|---|---|---|
| Layout.PgdIndex | lab_3/memory_manager/memory.h:5 | the top index is bits 39 to 47 of the address |
| Layout.PudIndex | lab_3/memory_manager/memory.h:6 | the second index is bits 30 to 38 |
| Layout.PmdIndex | lab_3/memory_manager/memory.h:7 | the third index is bits 21 to 29 |
| Layout.PteIndex | lab_3/memory_manager/memory.h:8 | the last index is bits 12 to 20 |
| Layout.PointerToPage | lab_3/memory_manager/memory.c:15-18 | masking with the sign-extended complement clears the low 12 bits and keeps all others |
| Layout.NotPresent | lab_3/memory_manager/memory.c:47-50 | an entry is absent exactly when it is even |
| Layout.MakeEntry | lab_3/memory_manager/memory.c:93-94 | the entry sets the last three bits and keeps all others, also for an unaligned frame address |
| Layout.Combine | lab_3/memory_manager/memory.c:146 | page base and page offset add up without overlap |
| Allocator.PopFree | lab_3/memory_manager/memory.c:32-45 | allocation marks and returns the lowest unmarked page from 2 on and pops the list of free pages |
| Allocator.FreeAfter | lab_3/memory_manager/memory.c:27-45 | if the first n free pages get marked and the next ones do not, those are the first free ones afterwards |
| AllocatorHistory.ResultsIncrease | lab_3/memory_manager/memory.c:27-45 | over any run, nonzero results strictly increase, are page addresses in the dictionary, were never marked or reserved before, and after a 0 only 0 follows |
| LittleEndian.EncodeDigit | lab_3/memory_manager/memory.c:62 | byte k of a number in memory, in an ELF file or in an image is its digit k in base 256, lowest first |
| LittleEndian.DecodeDigit | lab_3/memory_manager/memory.c:58-59 | digit k in base 256 of a number read from memory or a file is its byte k |
| LittleEndian.LowByteFirst | lab_3/memory_manager/memory.c:62 | 0x123456789ABCDEF0 is stored as F0 DE BC 9A 78 56 34 12 |
| PageTable.LoadsWord | lab_3/memory_manager/memory.c:58-59 | a load is the sum of its eight bytes, each 256 times the weight of the one before |
| PageTable.StoresWord | lab_3/memory_manager/memory.c:62 | a store puts digit k of the word at distance k and leaves every other byte alone |
| PageTable.PointUpdate | lab_3/memory_manager/memory.c:59-64 | filling one absent entry of one table changes one position of the whole tree |
| MemoryMap.OneEntryKeeps | lab_3/memory_manager/memory.c:59-64 | filling an absent entry with a suitable page keeps the state well-formed |
| Insertion.MapFromInserts | lab_3/memory_manager/memory.c:57-95 | below any table: exactly one leaf is added, new tables sit on exactly the first free pages, exactly these and the frame get marked, bytes change only in entries that became present |
| Insertion.GrowStep | lab_3/memory_manager/memory.c:65-72 | an absent interior entry gets the lowest free page as an empty table |
| Insertion.LeafStep | lab_3/memory_manager/memory.c:84-95 | an absent leaf entry gets the frame of the address, a fresh page, or page 0 for address 0 |
| Refinement.MapKeepsPresent | lab_3/memory_manager/memory.c:52-96 | in any state, well-formed or not, no call removes or redirects a present entry |
| Refinement.MapIsIdempotent | lab_3/memory_manager/memory.c:84-95 | mapping a mapped page changes neither memory nor dictionary, in any state |
| Refinement.MapInserts | lab_3/memory_manager/memory.c:52-96 | a ready call on an unmapped page has the complete effect of an insertion |
| Refinement.MapRefinesInsert | lab_3/memory_manager/memory.c:52-96 | memory_map is insert-if-absent on the address space |
| Refinement.MapThenTranslate | lab_3/memory_manager/memory.c:52-147 | afterwards the page of virt translates to its frame and every other 64-bit address translates as before |
| Refinement.ReadyIsExact | lab_3/memory_manager/memory.c:52-96 | the call stays in guest memory and keeps the state well-formed exactly when the page is mapped, or enough free pages lie in memory and the frame is in the dictionary, no table and not taken as a table by the call |
| Translation.WalkIsTranslate | lab_3/memory_manager/memory.c:110-147 | in a well-formed tree gva_to_gpa never leaves guest memory and returns frame and offset, or 0 if any level is absent |
| Footprint.TranslationLoadsAreSafe | lab_3/memory_manager/memory.c:114-146 | for every 64-bit address, every entry that gva_to_gpa loads is 8-byte aligned, in guest memory and in a table page |
| Footprint.TranslationReadsLoads | lab_3/memory_manager/memory.c:110-147 | the translation depends on these entries and on nothing else in memory |
| Footprint.MapTouchesTablesOnly | lab_3/memory_manager/memory.c:52-96 | every entry that memory_map reads or writes is 8-byte aligned, in guest memory and in a page that is a table afterwards, and no byte outside these entries changes |
| Footprint.MapReadsSlots | lab_3/memory_manager/memory.c:52-96 | in any state, memory_map depends on these entries and the dictionary only: with the same words there it faults or not alike, and leaves the same dictionary and the same bytes in the entries |
| Hardware.WalkIsHardware | lab_3/memory_manager/memory.c:110-147 | gva_to_gpa is the four-level walk of the processor, written on bytes, from 0x1000 on, for every memory and every address |
| Hardware.MapThenHardware | lab_3/memory_manager/memory.c:52-96 | after memory_map the processor finds virt's page at the frame of phys, at the next free page for phys 0, at page 0 for virt 0, unless it was mapped; and every other address as before |
| Hardware.FlagsInFirstByte | lab_3/memory_manager/memory.c:59-94 | in any state, every entry that memory_map fills has its three flags in its first byte, and an entry that was present keeps all eight bytes |
| Translation.SameLeaf | lab_3/memory_manager/memory.h:5-8 | two addresses share all four indices exactly when they share bits 12 to 47 |
| Requests.MapAllRefinesInsertAll | lab_3/memory_manager/memory.c:52-96 | any run of calls, with a frame or without, within a budget of free pages inserts its requests in turn; new tables and the frames picked by the allocator sit on the budget |
| Requests.BudgetStep | lab_3/memory_manager/memory.c:52-96 | after one call, with a frame or without, the rest of the run is within the rest of the budget |
| Requests.OrderIndependence | lab_3/memory_manager/memory.c:52-96 | any permutation of calls with frames for distinct pages gives the same translation of every address |
| Stack.LoopEndsExactly | lab_3/memory_manager/memory.c:154-158 | modulo 2^64 the counter reaches 0 exactly for multiples of 0x1000, and then first after size / 0x1000 iterations |
| Stack.StackWraps | lab_3/memory_manager/memory.c:149-159 | call j of create_stack is for address addr - j * 0x1000 modulo 2^64, also where addresses wrap around |
| Stack.StackIsExact | lab_3/memory_manager/memory.c:149-159 | exactly the pages from addr - size to addr become mapped, each to itself; every other page is left alone |
| Invariants.WriteKeeps | lab_3/load_manager/loader.c:82 | writing data to reserved pages that are no tables changes no translation and keeps the state well-formed |
| Invariants.InvalidateKeeps | lab_3/memory_manager/memory.c:27-30 | reserving any page keeps the state well-formed and memory as it is |
| Invariants.RunKeeps | lab_3/memory_manager/memory.c:27-96 | along every admissible run of mapping, reserving and data writing the invariants hold and no translation is lost |
| Invariants.ReservedNeverTable | lab_3/load_manager/loader.c:66-73 | a page reserved before a call is never taken as a table by that or any later call of an admissible run |
| Invariants.ReachableStates | lab_3/vm_manager/manager.c:26-43 | every state reached from a zero-filled machine is well-formed and each table leads to a mapped page |
| Accounting.TableAccounting | lab_3/memory_manager/memory.c:57-82 | the number of tables is the number of 512 GiB, 1 GiB and 2 MiB regions that hold a mapped page |
| MemoryManager.Manager.AllocatePage | lab_3/memory_manager/memory.c:32-45 | the scan loop computes first-fit allocation |
| MemoryManager.Manager.InvalidatePage | lab_3/memory_manager/memory.c:27-30 | exactly the dictionary entry at page modulo 2^32 becomes 1 |
| MemoryManager.Manager.MemoryMap | lab_3/memory_manager/memory.c:52-96 | the four blocks in place compute Map; from a well-formed state and a ready call they insert virt's page into the address space if it was absent; the flags of each new entry are in its first byte |
| MemoryManager.Manager.TranslateGva | lab_3/memory_manager/memory.c:110-147 | the four levels of the walk compute GvaToGpa and the processor's walk on the bytes of memory, which in a tree is frame and offset or 0 |
| MemoryManager.Manager.HostAddress | lab_3/memory_manager/memory.c:98-108 | the null pointer where the processor's walk gives 0, else the address that it gives |
| MemoryManager.Manager.CreateStack | lab_3/memory_manager/memory.c:149-159 | the loop with 64-bit wrap-around makes the calls of StackRequests in order |
| Elf.SectionsOfFile | lab_3/load_manager/loader.c:54-57 | section header i is read from the bytes at e_shoff + 64 * i, each field at its position in Elf64_Shdr, and there are e_shnum of them, both read at their positions in Elf64_Ehdr |
| Elf.SectionTests | lab_3/load_manager/loader.c:60-80 | skipped are exactly the sections with bit 1 of the flags clear or address 0, and read from the file exactly those with bit 3 of the type clear |
| Elf.EntryPointIsEntry | lab_3/load_manager/loader.c:86 | load_file returns the number at bytes 24 to 31 modulo 2^32 as a C int, which is that number exactly below 2^31 |
| ElfWriter.WriteThenEnter | lab_3/load_manager/loader.c:86 | the entry point written into a file is returned by load_file exactly if it is below 2^31 |
| Elf.ContentsAsSpecified | lab_3/load_manager/loader.c:6-13 | for one file and, in sections that are read, an offset below 2^32: the copied bytes are the ones of System V gABI chapter 4 exactly if the size fits 32 bits and the section is empty, is SHT_NOBITS, has bit 3 of its type clear and offset and size below 2^31, or has bit 3 set and is zero in the file |
| Elf.FaithfulForEveryFile | lab_3/load_manager/loader.c:74-81 | they are the specified ones for every file exactly if the size fits 32 bits and the section is empty, is SHT_NOBITS, or has bit 3 of its type clear and offset and size below 2^31, the range of a C int |
| Loading.MapSectionEffect | lab_3/load_manager/loader.c:63-73 | reserving and mapping a start page twice has the effect of doing it once |
| Loading.SectionStep | lab_3/load_manager/loader.c:60-83 | one section over any number of data pages: its start page is mapped to itself, its bytes are the file's, other bytes change only in new table entries |
| Cursor.CopiesRightExactly | lab_3/load_manager/loader.c:63-82 | whenever the loop runs through, from any dictionary and cursor, every section is copied to its own address exactly when sections of seen pages come first under the cursor and no page comes back |
| Cursor.CopiesOfFile | lab_3/load_manager/loader.c:53-82 | for unseen pages every section is copied to its own address exactly when the sections of a page follow each other; sorted sections do |
| LoaderNeeds.ConditionsSuffice | lab_3/load_manager/loader.c:57-84 | conditions checked before the loop make every section ready when its turn comes; pages that sections run into must hold data |
| Reservation.MapAllKeepsSound | lab_3/memory_manager/memory.c:27-96 | a run of calls does the same, up to marks, whether or not pages beyond its reach are reserved beforehand; of them only frames get marked |
| Reservation.SoundExactly | lab_3/memory_manager/memory.c:32-45 | a state that is sound for a set of pages is well-formed exactly if the unmarked ones among them are zero |
| Overflow.LoadAllCommutes | lab_3/load_manager/loader.c:57-84 | the loop writes the same memory as if all pages that sections touch were reserved beforehand, and of these it marks only start pages |
| LoaderCorrectness.LoadAllCorrect | lab_3/load_manager/loader.c:57-84 | the loop stays in guest memory, maps exactly the start pages, and every byte is the file's (the last section covering it decides) or unchanged outside new table entries |
| LoaderCorrectness.GuestSeesSection | lab_3/load_manager/loader.c:57-84 | every byte of a loaded section is the file's, and is read at its own address through gva_to_gpa exactly if its page was mapped before or is a start page |
| LoadFile.LoadFileCorrect | lab_3/load_manager/loader.c:45-87 | a whole file, with sections of any length, in any state that earlier loads leave: safe, identity-mapped, sound for the touched pages, exactly the start pages mapped, and every byte the file's or unchanged outside new table entries |
| LoadFile.WellFormedExactly | lab_3/load_manager/loader.c:63-82 | loading leaves a well-formed machine exactly if the file has only zeros for the pages that sections run into and nobody reserved |
| LoadFile.GuestSeesFile | lab_3/load_manager/loader.c:45-87 | for disjoint sections the byte at sh_addr + k is file byte sh_offset + k, zero past the end of the file and for sections without data; it is reachable exactly if its page was mapped before or is a start page |
| LoadFile.ReachableBytes | lab_3/load_manager/loader.c:45-87 | after load_file any address from 1 to 2^48 - 1 is reachable at itself exactly if its page was mapped before or is the start page of a loaded section |
| LoadFile.HandlerPointerIsTranslation | lab_3/syscall_manager/syscall_handler.c:38-44 | under identity mapping the handler's pointer is gva_to_hva exactly for mapped addresses other than 0 below 2^48 |
| LoadFile.HostAddressOfFrame | lab_3/memory_manager/memory.c:98-108 | in any tree, identity-mapped or not, gva_to_hva is frame and offset for a mapped page, and null for others and for address 0 |
| LoadFile.Loader.LoadFile | lab_3/load_manager/loader.c:45-87 | the loop over the section headers in place computes LoadFile, and the result is congruent to bytes 24 to 31 of the file modulo 2^32, in the range of a C int |
| Clients.MixKeeps | lab_3/vm_src/src/save.c:11-28 | any admissible mix of stacks and files keeps identity, the absence of useless tables, and well-formedness up to the pages files were loaded over |
| SaveMachine.StackOfSave | lab_3/vm_src/src/save.c:14-18 | a new 0xF000-byte machine after create_stack(0xE000, 0x3000) maps pages 0xB to 0xE to themselves and nothing else |
| AppImage.ImageOnLowMachine | lab_3/load_manager/loader.c:45-87 | on any machine with mapped pages below 2 MiB that has not seen pages 9 and 0xA, any file with the 60 section headers of app_img loads, and every byte of every section is the file's and reachable |
| AppImage.SaveWithImage | lab_3/vm_src/src/save.c:14-24 | after the stack and any boot file that starts no section on pages 9 and 0xA, the image loads: mapped are the stack, the boot file's start pages and 9 and 0xA, every byte of every section is the file's and reachable, and the machine is well-formed if the boot file leaves no page dirty |
| AppImage.HeaderOfImage | lab_3/load_manager/loader.c:54-57 | from the first 62 bytes of app_img the loader reads 60 section headers at 0x83E0 and entry point 0x9000 |
| AppImage.FirstSectionOfImage | lab_3/load_manager/loader.c:54-57 | from the bytes of its section header 1 it reads type 1, flags 6, address 0x9000, offset 0x1000 and size 0x1A5 |
| Save.SaveMain | lab_3/vm_src/src/save.c:11-29 | save.c in place: stack, boot file and application are loaded, and the process runs from a vCPU with rip and r15 at their entry points, r14 at 0xE000, rflags 2 and all else 0 |
| Save.EntryRegister | lab_3/vm_src/src/save.c:21-26 | a file's entry point arrives in its register unchanged exactly if it is a sign-extended 32-bit number |
| SaveMachine.LowFileKeepsLow | lab_3/vm_src/src/save.c:20-24 | loading a file below 2 MiB on it adds no table |
| SaveMachine.SaveMachineIsSetUp | lab_3/vm_src/src/save.c:11-28 | stack, boot code and application load safely; memory holds the application's bytes and the boot code's where the application has none |
| Shortfalls.FrameBecomesTable | lab_3/memory_manager/memory.c:52-96 | on a new machine memory_map(0x5000, 0x2000) takes page 2 as a table and maps guest page 5 to it |
| Shortfalls.AllocatorOutrunsMemory | lab_3/memory_manager/memory.c:32-82 | after create_stack(0xE000, 0x9000) memory_map(0x400000, p) takes page 15 as a table and leaves guest memory, for every p |
| Shortfalls.HandlerPointerDiffers | lab_3/syscall_manager/syscall_handler.c:38-44 | after the stack, gva_to_hva of 2^48 + 0xB000 is 0xB000 and of 0x5000 is null, unlike the handler's pointer |
| LoadShortfalls.InitArrayIsLost | lab_3/load_manager/loader.c:79-82 | load_file on a valid file with app_img's headers: the guest reads 0 at 0xA118 where the file has 1 |
| LoadShortfalls.UnsortedGoesAstray | lab_3/load_manager/loader.c:63-82 | load_file on a valid file that returns to a page: its third section arrives at 0xA100 and nothing at its address 0x9100 |
| LoadShortfalls.SeenPageGoesToZero | lab_3/load_manager/loader.c:53-82 | a file whose only section starts on a page that an earlier load has seen is copied to the section's offset within page 0, and nothing else happens |
| Shortfalls.DirtyTable | lab_3/memory_manager/memory.c:75-94 | in any state, if the next free page is not zero where the last entry for virt will be, memory_map leaves virt translated to what the page holds, whatever frame is asked for |
| LoadShortfalls.OverflowGoesWrong | lab_3/load_manager/loader.c:63-82 | load_file on a valid file whose section runs into page 6: its byte at 0x6000 is unreachable, and a later memory_map takes page 6 as a table full of the section's bytes |
| LoadShortfalls.TablesOverwritten | lab_3/load_manager/loader.c:74-82 | load_file on a valid file with zero-initialised data on pages 2 to 4, after the stack: every address below 2^39 translates to 0, where 0xB000 was mapped before |
| LoadShortfalls.FarOffset | lab_3/load_manager/loader.c:6-13 | a valid file with a section of one byte at offset 2^31 is not read as specified, in any state |
| Image.Restore | lab_3/vm_manager/manager.c:420-473 | 0 is returned exactly for an accepted header and a complete file; a refused header changes nothing; memory beyond the dumped size stays |
| Image.RestorePrefix | lab_3/vm_manager/manager.c:318-469 | for every prefix of an image: -1 unless complete, and each component, and each memory byte, is replaced exactly when covered |
| Image.RoundTrip | lab_3/vm_manager/manager.c:273-473 | restoring a dumped image reproduces registers, sregs, fpu and the dumped memory for every padding and time stamp |
| Image.RedumpReproduces | lab_3/vm_manager/manager.c:273-473 | dumping after an accepted restore reproduces magic, version, size and all components |
| Image.ImageBytes | lab_3/vm_manager/manager.c:273-312 | the bytes of an image: magic number, version, size, zero counter, time stamp, zero counter, the registers as words from 48 on, sregs from 192, fpu from 504, memory from 920, eight zeros |
| Image.AcceptedExactly | lab_3/vm_manager/manager.c:420-457 | a header is accepted exactly for 47 4D 49 4D 56 00 00 00, 01 00 00 00 and the size at bytes 16 to 23 |
| Image.RestoredBytes | lab_3/vm_manager/manager.c:318-473 | what every byte of an accepted and complete file becomes in the VM |
| VirtualMachine.Vm.DumpVmState | lab_3/vm_manager/manager.c:273-312 | the component dumps written one after the other give the image |
| VirtualMachine.Vm.RestoreVmState | lab_3/vm_manager/manager.c:420-473 | reading with a file cursor, component by component, computes Restore |
| VirtualMachine.Vm.RestoreGuestMemory | lab_3/vm_manager/manager.c:380-389 | memory is overwritten as far as the file goes, also when it is too short |
| Migration.HandlerEffect | lab_3/syscall_manager/syscall_handler.c:12-78 | with literal register positions and numbers: which calls the host performs, on which arguments, what rax, rip and the host state are afterwards, and that all other registers stay |
| Migration.ExitEffect | lab_3/vm_manager/manager.c:116-161 | the guest's exit reason and rax alone decide: HLT with 60 exits, with 999 saves, any other HLT goes on, the serial port ends, all else aborts |
| Migration.ProcessTurns | lab_3/vm_manager/manager.c:103-112 | a process is a sequence of turns, as many as exits are observed, or up to the first that does not go on |
| Migration.UninterruptedTurns | lab_3/vm_manager/manager.c:103-112 | the uninterrupted run is a sequence of turns that goes past every SAVE |
| Migration.RunPerforms | lab_3/syscall_manager/syscall_handler.c:27-50 | over runs of any length, replaying the recorded calls from the first host state yields every recorded result and the last host state |
| Migration.MigrationPerforms | lab_3/syscall_manager/syscall_handler.c:27-50 | the same over any number of saves and restores, if the state outside the image carries over |
| Migration.Transparency | lab_3/vm_src/src/restore.c:19-37 | for runs of any length with any number of saves, saving, exiting, restoring and resuming gives the same VM, host, host calls and ending as one run in which SAVE returns 0 |
| Migration.TransparentExactly | lab_3/vm_manager/manager.c:88-137 | this holds for all guests and hosts exactly when the state outside the image carries over at each SAVE |
| Migration.UnsavedStateMatters | lab_3/vm_manager/manager.c:273-312 | where it does not, some guest tells the two runs apart after two exits |
| Migration.TranslationSurvives | lab_3/vm_manager/manager.c:380-389 | if the tables lie in the dumped part, every address translates after the restore as before |
| Session.Vmm.SyscallHandler | lab_3/syscall_manager/syscall_handler.c:4-81 | the handler on the vCPU in place computes Handle: the host performs exactly calls 1 to 3 on rdi, rsi and rdx, the result goes to rax, 60 and 999 stop, rip moves by one |
| Session.Vmm.OneTurn | lab_3/vm_manager/manager.c:116-161 | one exit in place: the status is decided by exit reason and rax, and an image is written, that of the VM, exactly for HLT with 60 or 999 |
| Session.Vmm.LaunchVm | lab_3/vm_manager/manager.c:88-114 | the run starts with rip at the boot code, r15 at the application, r14 at the stack, rflags 2, all other registers 0, and everything else as it was |
| Session.Vmm.RestoreMain | lab_3/vm_src/src/restore.c:11-40 | a refused image ends the process before the guest runs, with everything but the partly read VM as it was; otherwise the loop continues from the restored VM, and the next save is the image of its VM |
| Session.GenerationsAreMigrated | lab_3/vm_src/src/restore.c:11-40 | a process, the one that takes over its image, and so on, each as its contract says, end where Migrated says |
| Session.GenerationsAreTransparent | lab_3/vm_src/src/restore.c:11-40 | so the last of them stops where one process would have that never saves, if the state outside the image carries over |

## Left out

- KVM calls, mmap, CPUID and VM creation: foreign calls; register access is field access and guest memory starts zero-filled.
- Failing host I/O: opening, reading and writing files, and the ioctls, succeed; a file is a byte sequence with a cursor.
- Printing and show_page_allocator: diagnostics without effect on state.
- The guest's instructions: the guest is an arbitrary function from VM state to VM state and exit reason, of which only the size of memory is known to stay.
- Host system calls: an arbitrary function of host state, arguments and guest memory.
- Loops that need not end: launch_vm and restore.c are observed for an arbitrary number of exits; create_stack is modelled for sizes for which its loop ends.
- Invalid ELF files: the magic number, a section header table inside the file, and a table offset below 2^31 are preconditions; get_file's failure path is not modelled.
- LoadFile.LoadFileCorrect: start pages must be new to the loader, since by Cursor.CopiesRightExactly a section on a page that an earlier load has seen is copied elsewhere (LoadShortfalls.SeenPageGoesToZero), and no section may touch a table or a page that the load takes as a table, since it would overwrite it (LoadShortfalls.TablesOverwritten); what the guest gets otherwise is not described in general.
- SaveMachine.SaveMachineIsSetUp: files with sections from 0x5000 on, as the linker scripts place them at 0x8000 and 0x9000; LoadFile.LoadFileCorrect has no such bound.
- Non-HLT exits: the serial-port exit ends the process, all others abort it; the printed byte is not modelled.
- The internal layout of struct kvm_sregs and struct kvm_fpu: opaque blocks of 312 and 416 bytes.
- lab_1 (stubs) and lab_2 (the same memory manager and loader): nothing to add.
- test_memory.c, exit.c, init_page_table, set_page and the TSS and IDT structures: unused or nothing to prove.
