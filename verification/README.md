# Verification of a small 32-bit x86 kernel

A Dafny model of four parts of the kernel, and proofs about them:

* **Physical frames and page tables.** The walk over the Multiboot2 memory map, the packed bitmap of 2^20 pages, the
  frame allocator, `setup_paging` and `map_page`. Physical memory is 2^20 frames of 1024 words. Every store to a table
  goes to a kernel virtual address and is translated by the two-level hardware walk through the very tables under
  construction, so a table that aliased another one, or a store that remapped its own window, would show. The tables are
  distinct only because the allocator hands out fresh frames; the proof crosses both components.
* **The text terminal**, which shows the last 25 rows of an unbounded eager 80-column layout, and `delete_last_char`.
* **ISO 9660 path resolution** over directory sectors, with the string routines below it: `strsplit`, `strlen`,
  `strncpy`, `reverse`, `string_equals_len`, `trim_to_len`, `itoa` and `itoa_hex`.
* **The keyboard**: the interrupt-driven scan-code queue, the polling decoder, and every interleaving of the two.

The source changes state step by step, so it is modelled by classes and loops over arrays. Each method's contract ties
the new state to a function of the old one, and the lemmas are about those functions and about runs of them.

| file | component |
|---|---|
| `Words`, `Bitmap` | machine words, bitwise or, the bitmap as a set of free pages |
| `FrameAllocator`, `AllocatorProperties`, `BootMap` | allocator, what it guarantees, the boot memory map |
| `Mmu`, `PageMapping`, `Execution` | hardware walk, what `map_page` means to do, and what its accesses do |
| `SetupPaging`, `Paging` | `setup_paging` as values; both routines as they run |
| `TextScreen`, `Terminal` | screen and layout, the driver |
| `CStrings`, `Numerals`, `Splitting` | string routines |
| `IsoRecords`, `IsoPaths`, `Iso` | directory records, path resolution and trees, the driver |
| `Keys`, `Keyboard` | queue and decoder as values, the driver and its runs |

## Where the code does less than one would expect

For each of these there is an input that shows it and, where the code works for some inputs, the exact condition under
which it does.

* A region is freed exactly if and only if no 32-bit or 64-bit sum misleads the code: one that ends at 2^32 frees
  nothing, and one that starts in the last page frees page 0 upwards (`RegionExactIffRepresentable`,
  `UnrepresentableRegions`). Only the second kind is dangerous: `RegionSafeIffHarmless` says exactly when a region frees
  no page that is not its own.
* `linker.ld` defines `kernel_start` before it adds the offset, so the kernel range that `setup_bitmap` reserves is
  empty. What protects the image is then only the start index of the search, which is rounded down to eight pages: the
  image is kept if and only if the kernel ends on a 32 KiB boundary (`LinkerValueKeepsImageIff`, `LinkerValueExample`).
* `map_page` does not check the allocator's answer, nor its target: below the self map a call keeps the invariant if
  and only if its table is there already or a frame is available, and a target that is the kernel's own view of a frame
  it needs stays a writable view of that frame (`InvKeptIff`, and over runs `InvThroughoutIffAllowed`).
  * With no frame left, a call that runs as it means to still does its one map update (`CallRefinesBind`,
    `RunThenCallRefines`); it uses frame 0 as its table, and so does the next one (`ExhaustedCallsAlias`).
    `SmallMemoryAliases` shows this right after boot.
  * A call may take away the kernel's view of a table. Then the next call into that table stores elsewhere: two calls
    are enough to overwrite the self map (`SelfMapLost`), and `StoreSparesIff` says exactly when a redirected store
    spares directory entry 1023 and the present slots.
* `setup_paging` does not check the allocator's answers either. The second loop of `boot.s` computes entries for
  `boot_page_table2` and never stores them, so the boot mapping reaches only the first 1023 frames and the VGA frame
  (`BootTargetIs`). The 384 results can serve as tables if and only if 384 pages from the start page on and below page
  1023 are free, or exactly 383 pages from the start page on are, all of them below page 1023; then frame 0 becomes the
  last user table (`BootCodeUsableIff`). Otherwise two tables share a frame or one is out of view; no store through the
  boot mapping changes a frame that is out of view (`BootStoresLow`), so that table can only be right if memory held it
  already (`NotEnoughFails`). Nothing need fault: with the kernel ending at 2.5 MiB the last table's words go to the VGA
  frame (`BoundaryExample`). The invariant of `map_page` holds afterwards if and only if no result was 0
  (`SetUpInvIff`). With all memory above the kernel free the condition means that the kernel ends below 2.5 MiB
  (`FreeGigabyteBootsIff`).
* A tab that starts at column 76 or later leaves the cursor at column 80, where the wrap test no longer fires
  (`StaysOnLineIffTabsFit`, `TabOverflow`).
* Deleting after printing restores the screen if and only if the put was undoable (`DeleteUndoesPutIff`). Within a row
  a deletion leaves a blank if and only if the current colour is the blank one (`DeleteShowsIff`); at the start of a row
  the screen goes on showing a layout if and only if moreover nothing has scrolled off, the row before is not full, and
  only blanks follow its last character (`StepBackShowsIff`).
* `strsplit` skips one leading delimiter only (`SplitIsRunsIff`, `DoubledLeadingExample`).
* `get_lba_file` passes over a component that names no directory, where `list_items` gives up. It is tree lookup of the
  path that is left (`ResolveIsLookup`), and of the path itself if and only if every directory exists or the answer is
  (0, 0) anyway (`ResolveIsLookupIff`, `MissingDirectoryExample`).
* The keyboard queue's write index is not reduced modulo 256: delivery appends if and only if there is room
  (`DeliverAppendsIff`, `PastTheEndExample`). An interrupt between the two updates of a poll loses its code, unless the
  slot it was meant for happened to hold the same code (`TornPollLosesCodeIff`, `TornPollExample`); one between the load
  and the store of `key_buffer_length--` always does (`TornDecrementLosesCode`).
* The exit system call empties the queue and keeps the decoder's flags, so it can come between the two codes of a break
  and swallow the next key (`ExitLosesKey`). A text typed after it arrives if and only if no break is pending and a shift
  that is held does not change the text (`TypedTextArrivesIff`); every text does if and only if the decoder is idle
  (`AllTextsArriveIff`).

## Model

| member | source | states |
|---|---|---|
| Bitmap.SetPageIsSetUpdate | src/libraries/paging.c:94-103 | set_page_status changes the status of that page and of no other page of its byte or the bitmap |
| Bitmap.BitLayout | src/libraries/paging.c:94-110 | in literal masks: page 8i is bit 0x01 and page 8i + 7 bit 0x80 of byte i, and a set bit reserves the page |
| Bitmap.FullByteHoldsNoFreePage | src/libraries/paging.c:116-126 | a bitmap byte is 0xFF if and only if none of its eight pages is free, so the inner loop of alloc_frame always returns |
| FrameAllocator.FirstFreeIsLowest | src/libraries/paging.c:113-128 | the page searched for is the lowest free page from the start page on, and there is none exactly when none is free there |
| FrameAllocator.FrameAllocator.SetPageStatus | src/libraries/paging.c:94-103 | the byte written, and the set of free pages with one page added or removed |
| FrameAllocator.FrameAllocator.CheckPageStatus | src/libraries/paging.c:105-110 | true exactly for a page that is not free |
| FrameAllocator.FrameAllocator.SetRegionStatus | src/libraries/paging.c:77-91 | adds or removes exactly the pages of the span its 32-bit sums give |
| FrameAllocator.FrameAllocator.SetupBitmap | src/libraries/paging.c:50-74 | free pages are those of the regions, less the kernel's span, less the lowest 16 KiB |
| FrameAllocator.FrameAllocator.AllocFrame | src/libraries/paging.c:113-128 | returns the address of the lowest free page from the start page on and takes only that one, or returns 0 and changes nothing when there is none |
| AllocatorProperties.EndAddress | src/libraries/paging.c:56-64 | where a region ends for the code: at 0 once it reaches 2^32, at the wrapped sum past 2^64 |
| AllocatorProperties.RegionExactIffRepresentable | src/libraries/paging.c:77-91 | a region frees exactly the whole pages it contains if and only if it meets the no-wrap condition |
| AllocatorProperties.UnrepresentableRegions | src/libraries/paging.c:80-85 | two concrete regions that are freed wrongly |
| AllocatorProperties.RegionSafeIffHarmless | src/libraries/paging.c:56-64 | a region frees no page but those it contains if and only if it does not start in the last page below 2^32 and end short of 2^32 or past 2^64 |
| AllocatorProperties.KernelSpanExact | src/libraries/paging.c:68-70 | with a higher-half kernel_start exactly the rounded-out kernel range is reserved |
| AllocatorProperties.SetupExact | src/libraries/paging.c:50-74 | a page is free after set-up if and only if one region contains it whole, it does not meet the kernel and its number is at least 4 |
| AllocatorProperties.SetupSafe | src/libraries/paging.c:50-74 | with harmless regions every free page lies wholly in one region, outside the kernel, at or above 16 KiB |
| AllocatorProperties.LinkerValueReservesNothing | linker.ld:5-19 | with the linker's kernel_start the reserved kernel range is empty |
| AllocatorProperties.LinkerValueKeepsImageIff | src/libraries/paging.c:113-115 | with that value no frame below the kernel's end is found, for any boot map, if and only if the kernel ends on a 32 KiB boundary |
| AllocatorProperties.LinkerValueExample | linker.ld:5-19 | a kernel ending at 0xC0101000 is handed its own first page |
| AllocatorProperties.RunConserves | src/libraries/paging.c:113-128 | over any run free plus handed out is conserved; call k succeeds if and only if k is below the number of free pages from the start page on |
| AllocatorProperties.RunIncreases | src/libraries/paging.c:113-128 | results strictly increase, nothing succeeds after the first failure, and a page taken stays taken |
| AllocatorProperties.BootFrameIsSafe | src/libraries/paging.c:50-128 | with harmless regions every frame any call returns lies wholly in one of them, outside the kernel, at or above 16 KiB |
| AllocatorProperties.RunBelow | src/libraries/paging.c:113-128 | call k finds a page below a bound if and only if more than k pages from the start page on and below it were free |
| AllocatorProperties.SmallMemoryIsFree | src/libraries/paging.c:50-74 | a concrete boot map that leaves exactly 384 free pages |
| AllocatorProperties.RunInPool | src/libraries/paging.c:113-128 | free pages below the start page play no part in any run of allocations |
| AllocatorProperties.LinkedFrameIsSafe | src/libraries/paging.c:50-128 | for the machine as linked: with harmless regions every frame lies wholly in one of them, in or above the 32 KiB block the image ends in, and above the image if that ends on such a block |
| BootMap.LinkedFrameIsAvailable | src/boot/boot.c:41-64 | the same end to end from the AVAILABLE entries |
| BootMap.AllocatedFrameIsAvailable | src/boot/boot.c:41-64 | end to end: if the AVAILABLE entries are harmless, every frame lies wholly inside one of them, outside the kernel image, at or above 16 KiB; other entries may be anything |
| BootMap.AvailableIsFromEntries | src/boot/boot.c:51-54 | a region is collected if and only if an AVAILABLE entry of a memory map tag says so |
| BootMap.MaxEndIsMaximum | src/boot/boot.c:58-61 | the value left in max_addr is an upper bound of the region ends, and one of them |
| BootMap.MaxEndInSums | src/boot/boot.c:58-62 | max_addr is the greatest base + length modulo 2^64, attained, and total_pages is that over 4096 while it is below 2^44 |
| BootMap.MaximumOfEntries | src/boot/boot.c:41-62 | where no end passes 2^64, max_addr is the greatest addr + len of an AVAILABLE entry |
| BootMap.Layout | src/boot/boot.c:25-54 | the words of the boot information: low word of a 64-bit field first, memory type 1, tag types 6 and 0 |
| BootMap.EncodedSize | src/boot/boot.c:25-28 | the 8-byte rounding of the tag loop steps over exactly one well-formed tag |
| BootMap.ReadTag | src/boot/boot.c:25-28 | at an encoded tag the walk reads its type and size, advances, and stands at the next tag |
| BootMap.ReadEntry | src/boot/boot.c:45-51 | at an encoded entry the walk reads its address, length and type, and stands at the next one |
| BootMap.BootMap.WalkEntries | src/boot/boot.c:44-55 | appends exactly the AVAILABLE entries of one tag, in order |
| BootMap.BootMap.WalkMemoryMap | src/boot/boot.c:41-64 | the entries of the tag are appended and max_addr and total_pages follow all regions so far |
| BootMap.BootMap.Walk | src/boot/boot.c:24-69 | terminates, with the regions equal to the AVAILABLE entries of all tags in order, and max_addr the maximum of their ends |
| Mmu.Mmu.Store | src/libraries/paging.c:140-146 | a store through a pointer that both entries let through for writing changes the one word the two-level walk leads to |
| Mmu.Mmu.Load | src/libraries/paging.c:137-145 | a load reads the word the two-level walk leads to |
| Mmu.EntryBits | src/libraries/paging.c:137-145 | bit 0 of an entry is Present, bit 1 read/write, and the frame is in the upper 20 bits |
| PageMapping.FreshTable | src/libraries/paging.c:138 | the frame a new table gets is neither the directory nor any table, the 0 of an exhausted allocator included |
| PageMapping.MapPageEntries | src/libraries/paging.c:133-148 | with every word in the frame it is meant for: the target's entry becomes phys or flags, a new table's other pages have entry 0, every other page below the self map keeps its entry |
| PageMapping.NewDirectoryEntry | src/libraries/paging.c:142-143 | the directory entry of a new table is its address with flags 7 if bit 2 of the call's flags is set, and 3 if not |
| PageMapping.MapPageKeepsInv | src/libraries/paging.c:133-148 | present tables stay distinct, out of the allocator's reach, apart from the directory and reachable for writing, and the self map stays |
| PageMapping.MappedPageTranslates | src/libraries/paging.c:145-146 | with an aligned address and flags below 4096 the page translates to that frame with those flags |
| PageMapping.RunRefines | src/libraries/paging.c:133-148 | any allowed run of calls keeps the invariant and equals the same run of map updates |
| PageMapping.InvKeptIff | src/libraries/paging.c:133-148 | a call below the self map keeps the invariant if and only if its table is present or a frame is available, and a needed window page is only rewritten to its own frame, writable |
| PageMapping.InvThroughoutIffAllowed | src/libraries/paging.c:133-148 | a run below the self map keeps the invariant throughout if and only if each of its calls meets that condition |
| PageMapping.RunsIff | src/libraries/paging.c:137-146 | under the invariant a call below the self map finds its directory and table in view, so that no access faults and each lands where it means to, if and only if its table is available, or no frame is left and the first window page reaches frame 0 |
| PageMapping.ExhaustedCallsAlias | src/libraries/paging.c:137-143 | with no frame left and frame 0 in view, calls into two absent slots both run, share frame 0 as their table, and the second erases the first |
| Execution.RunsExecutes | src/libraries/paging.c:133-148 | a call that finds directory and table in view does, access by access through the changing tables, exactly what it means to |
| Execution.CallRefinesBind | src/libraries/paging.c:133-148 | from the invariant such a call is a single update of the map from pages to present entries, the first that finds no frame included |
| Execution.ExecutedRunRefines | src/libraries/paging.c:133-148 | an allowed run, executed access by access, does not fault, keeps the invariant and equals the same run of map updates |
| Execution.RunThenCallRefines | src/libraries/paging.c:133-148 | after an allowed run one more call that runs is one more map update, whether or not it keeps the invariant |
| Execution.SelfMapReads | src/boot/boot.c:426-428 | after any run of calls outside slot 1023 that run as they mean to, the word at 0xFFC00000 + 4v is the entry the walk finds for page v, and the word at 0xFFFFF000 + 4pd is directory entry pd |
| Execution.StoreSparesIff | src/libraries/paging.c:145-146 | where the word of a call into a present table lands, and exactly when it spares directory entry 1023 and all present slots |
| Execution.SelfMapLost | src/libraries/paging.c:145-146 | under the invariant two calls through any present slot overwrite directory entry 1023, and the second maps nothing |
| SetupPaging.TablesAreFresh | src/boot/boot.c:400-407 | an allocation result other than 0 was free, differs from all others and is taken afterwards; there is a 0 if and only if fewer than 384 pages were free |
| SetupPaging.UserIdentity | src/boot/boot.c:413-421 | the walk is the identity with flags 7 on [0x400000, 0x40400000) |
| SetupPaging.KernelWindow | src/boot/boot.c:409-424 | the walk is virt_to_phys with flags 3 on [0xC0000000, 0xE0000000) |
| SetupPaging.KeptPagesUnmoved | src/boot/boot.c:419-427 | every page under any other slot except 1023 keeps its directory and table entries |
| SetupPaging.SetUpInvIff | src/boot/boot.c:394-428 | the memory setup_paging leaves satisfies the invariant that map_page keeps if and only if no result was 0 |
| SetupPaging.SelfMapAfterBoot | src/boot/boot.c:426-428 | after setup_paging and any run of map_page calls outside slot 1023 that run as they mean to, every entry is readable at its self-map address |
| SetupPaging.BootCodeReaches | src/boot/boot.s:55-97 | the boot mapping reaches a frame through the kernel window if and only if it is one of the first 1023 |
| SetupPaging.BootTargetIs | src/boot/boot.s:55-97 | where a store to any page goes through the boot mapping: to one of the first 1023 frames or the VGA frame from the first 4 MiB of either half, and nowhere else |
| SetupPaging.BootStoresLow | src/boot/boot.s:71-97 | no store through the boot mapping changes a frame from 1023 on |
| SetupPaging.NotEnoughFails | src/boot/boot.c:408-424 | without the condition below, and with no frame from 1023 on changed, the tables can only be right if memory held one of them already |
| SetupPaging.BoundaryExample | src/boot/boot.c:408-418 | with the kernel ending at 2.5 MiB the results are frames 640 to 1023, no store to them faults, and the last table's words go to the VGA frame |
| SetupPaging.BootCodeUsableIff | src/boot/boot.c:400-407 | on the boot mapping the 384 results can serve as tables if and only if 384 pages from the start page on and below page 1023 are free, or exactly 383 from the start page on, all below page 1023 |
| SetupPaging.DistinctAndLowIff | src/libraries/paging.c:113-128 | the same condition decides whether the 384 results, 0 included, are distinct and below 1023 |
| SetupPaging.ImageBootsIff | src/boot/boot.c:400-407 | it holds for any boot map when the boot directory and tables lie below the start page, reserved or not |
| SetupPaging.FreeGigabyteBootsIff | src/boot/boot.c:400-407 | with all pages from the start page to 1 GiB free the results can serve as tables if and only if the kernel ends below 2.5 MiB |
| SetupPaging.BootMemoryIsBootCode | src/boot/boot.s:55-97 | there is a memory as the boot code leaves it, for any three distinct low frames |
| SetupPaging.SmallMemoryBoots | src/boot/boot.c:400-407 | the machine of a concrete boot map with exactly 384 free pages, as linked, boots, and its last frame is gone |
| SetupPaging.SmallMemoryAliases | src/libraries/paging.c:137-143 | on it, of two map_page calls executed right after boot the second erases the mapping of the first |
| Paging.Pager.MapPage | src/libraries/paging.c:133-148 | whenever no access faults, redirected stores and the exhausted allocator included, memory and free pages become exactly those of the call executed access by access |
| Paging.Pager.EnsureTable | src/libraries/paging.c:137-144 | a slot that reads as absent gets the allocator's answer as its table, cleared and linked with flags 7 or 3 through the walk; a present one is left alone |
| Paging.Pager.FillTables | src/boot/boot.c:408-418 | the interleaved loops leave every word of all 384 tables right, although they are seen through the boot mapping |
| Paging.Pager.LinkTables | src/boot/boot.c:419-427 | the directory gets the user and kernel tables and the self map and keeps its other slots, while its own window slot is being switched |
| Paging.Pager.SetupPaging | src/boot/boot.c:394-428 | from the boot map, whenever the 384 results can serve as tables: they are filled and linked, all other memory is unchanged, and the invariant holds if and only if no result was 0 |
| Paging.Pager.BuildTables | src/boot/boot.c:396-428 | the same from any bitmap |
| Paging.Pager.DirectoryReached | src/boot/boot.c:419-427 | after each linking store the directory is still reached through the window |
| TextScreen.ApplyShows | src/drivers/vga.c:56-96 | one putchar or setcolor keeps the screen equal to the last 25 rows of the layout, blank-padded, and stores in bounds |
| TextScreen.RunShows | src/drivers/vga.c:68-103 | the same over any run whose tabs start below column 76, with the cursor at the layout's last row and its length |
| TextScreen.CharacterLands | src/drivers/vga.c:61-96 | a character before the last column lands in the cell under the cursor, its code in the low byte and the current colour in the high byte, and no other cell changes |
| TextScreen.LastColumn | src/drivers/vga.c:88-95 | a character in the last column lands there and the cursor starts the next row at once |
| TextScreen.ColorLands | src/drivers/vga.c:56-66 | after setcolor a character lands in that colour |
| TextScreen.ControlCharacters | src/drivers/vga.c:70-85 | code 10 starts a row, on the last one by moving every row up and leaving a blank one; code 9 moves four columns; nothing else is stored |
| TextScreen.TextKeepsBytes | src/drivers/vga.c:68-103 | the low bytes of the joined rows gain exactly the bytes of a text, without newlines and with four spaces for a tab |
| TextScreen.StaysOnLineIffTabsFit | src/drivers/vga.c:78-85 | the column stays below 80 throughout a run if and only if every tab of it starts below column 76 |
| TextScreen.TabOverflow | src/drivers/vga.c:78-89 | past such a tab the next character lands in the next row's first cell, or past the screen on the last row |
| TextScreen.LayoutKeepsText | src/drivers/vga.c:68-103 | the rows of the layout joined end to end are exactly the cells written, in order |
| TextScreen.RetreatInBounds | src/drivers/vga.c:136-150 | deleting never stores out of bounds; it leaves column 80 exactly when the previous row ends in a non-space |
| TextScreen.LastInkFacts | src/drivers/vga.c:141-146 | the scan back stops at the last cell whose low byte is not 32 |
| TextScreen.DeleteUndoesPutIff | src/drivers/vga.c:136-152 | deleting after a printable character restores the whole screen if and only if the put was undoable |
| TextScreen.DeletesUndoPuts | src/drivers/vga.c:136-152 | printing a run that stays below column 79 over blank cells and deleting once for each restores cells, row and column |
| TextScreen.InitialShows | src/drivers/vga.c:27-39 | the initial screen shows the empty layout, where every run starts |
| TextScreen.DeleteShowsIff | src/drivers/vga.c:136-152 | a deletion within a row drops the last cell of the layout's last row if and only if the current colour is the blank one |
| TextScreen.StepBackShowsIff | src/drivers/vga.c:136-152 | a deletion at the start of a row steps back in the layout if and only if the colour is the blank one, nothing has scrolled off, the row before is not full, and only blanks follow its last non-space |
| TextScreen.EditsShow | src/drivers/vga.c:56-152 | after any mixture of printing, colour changes and such deletions the screen shows the end of the layout, every store in bounds |
| Terminal.Terminal.Initialize | src/drivers/vga.c:27-39 | the initial screen, which shows the empty layout |
| Terminal.Terminal.Scroll | src/drivers/vga.c:41-54 | every row moves up by one in place and the last becomes blank |
| Terminal.Terminal.PutChar | src/drivers/vga.c:68-96 | newline, tab, store, eager wrap and scroll give exactly the next screen |
| Terminal.Terminal.Write | src/drivers/vga.c:98-103 | a whole write is the run of its characters, and a screen that shows a layout goes on showing its end |
| Terminal.Terminal.DeleteLastChar | src/drivers/vga.c:136-152 | steps back, over the spaces of the previous row if need be, and blanks that cell |
| CStrings.StrLen | src/libraries/string.c:22-28 | the number of characters before the first NUL |
| CStrings.CStringExample | src/libraries/string.c:22-28 | a string ends at the character of code 0 |
| CStrings.ReversedAt | src/libraries/string.c:117-127 | character k of the reversal is character n - 1 - k |
| CStrings.Reverse | src/libraries/string.c:117-127 | exact in-place reversal of the string, with everything from the NUL on unchanged |
| CStrings.StringEqualsLen | src/libraries/string.c:43-51 | true if and only if the C string equals the first len characters of the counted string |
| CStrings.StrNCpy | src/libraries/string.c:53-60 | copies at most n characters, always ends with a NUL, and writes nothing after it |
| CStrings.ToUpperCase | src/libraries/string.c:129-135 | upper-cases exactly the string, although it measures it again at each step |
| CStrings.UpperFacts | src/libraries/string.c:129-135 | each small letter becomes the capital of the same number, and every other character is kept |
| CStrings.UpperIdentifies | src/libraries/string.c:129-135 | two strings become equal if and only if they differ at most in the case of letters |
| CStrings.TrimToLen | src/libraries/string.c:9-20 | the string is cut to len characters; 1 if and only if nothing had to be cut, and then nothing changes |
| Numerals.NumeralParses | src/libraries/string.c:91-115 | parsing a numeral gives the number back, and only 0 starts with a zero |
| Numerals.NumeralIsTheOnly | src/libraries/string.c:91-115 | any digit string without leading zeros is the numeral of its value |
| Numerals.DigitsAre | src/libraries/string.c:107-111 | the digits are 0 to 9 and A to F |
| Numerals.NumeralExamples | src/libraries/string.c:91-115 | 2048 in decimal and 0xBEEF in hexadecimal, character by character |
| Numerals.WordNumeralLength | src/libraries/string.c:91-115 | at most 10 decimal or 8 hexadecimal digits, so 11 or 9 bytes with the NUL |
| Numerals.Itoa | src/libraries/string.c:91-101 | the buffer holds the decimal numeral and nothing after its NUL changes |
| Numerals.ItoaHex | src/libraries/string.c:103-115 | the buffer holds the hexadecimal numeral and nothing after its NUL changes |
| Splitting.SplitIsRunsIff | src/libraries/string.c:149-160 | the parts are the recursive split if and only if the string does not start with two delimiters |
| Splitting.RunsAreRuns | src/libraries/string.c:154-160 | parts are non-empty and start with no delimiter, and below the limit contain none |
| Splitting.RunsPrefix | src/libraries/string.c:154-160 | a limit keeps min(k, limit) of the k runs, all but the last of them unchanged |
| Splitting.RunsKeepText | src/libraries/string.c:149-160 | no character but delimiters is lost, added or moved |
| Splitting.DoubledLeadingExample | src/libraries/string.c:149-152 | "//A" yields an empty first part |
| Splitting.LoopSplits | src/libraries/string.c:154-160 | the loop ends with every part terminated at its offset, offsets increasing, the last part holding the unsplit rest at the limit |
| Splitting.LoopOnlyDelimiters | src/libraries/string.c:155-156 | the loop only turns delimiters into NUL |
| Splitting.StrSplit | src/libraries/string.c:145-162 | the offsets read back exactly the parts of the original string, and only delimiters changed |
| IsoRecords.RecordsReadBack | src/drivers/iso.c:49-61 | a sector that starts with encoded records and a zero byte is walked as exactly those records (ECMA-119, section 9.1) |
| IsoRecords.RecordBytes | src/include/iso.h:62-74 | a record in literal bytes: name from byte 33 on, little-endian LBA at 2 and size at 10, directory bit 1 of byte 25 |
| IsoPaths.StrippedFacts | src/drivers/iso.c:51-54 | a suffix of ';' and one character is dropped, and any other name is kept |
| IsoPaths.FindsFirst | src/drivers/iso.c:125-136 | the first directory record of the name is found, and none if there is none |
| IsoPaths.FindsFirstFile | src/drivers/iso.c:141-154 | the first file record of the name is found, and none if there is none |
| IsoPaths.RootIsEncoded | src/drivers/iso.c:113-114 | the descent starts at the LBA of the root record encoded at offset 156 of sector 16 |
| IsoPaths.DescendIsStrictOnExisting | src/drivers/iso.c:120-137 | the descent of get_lba_file is the strict one along the components that exist; nothing is dropped if and only if list_items would succeed |
| IsoPaths.EncodedDirectoryRepresents | src/include/iso.h:62-74 | a sector encoded from the dot records and one record a child represents the children |
| IsoPaths.ResolveIsLookup | src/drivers/iso.c:101-159 | for every path get_lba_file is recursive tree lookup of the path without its missing directory components, (0, 0) when that finds nothing |
| IsoPaths.KeptPathFacts | src/drivers/iso.c:120-137 | no component is dropped if and only if every directory exists; otherwise plain lookup finds nothing |
| IsoPaths.ResolveIsLookupIff | src/drivers/iso.c:101-159 | get_lba_file is tree lookup of the path itself if and only if every directory component exists or what is left leads to (0, 0) |
| IsoPaths.MissingDirectoryExample | src/drivers/iso.c:120-137 | where there is a file F and no directory X, the path X/F finds F |
| IsoPaths.ListedNamesExact | src/drivers/iso.c:69-86 | a name is listed if and only if a record other than the dot records has it, version suffix stripped |
| IsoPaths.ListingIsKids | src/drivers/iso.c:66-87 | on a tree whose names have no NUL and are not those of the dot records the listing is the children's stripped names in disc order |
| IsoPaths.StrictIsWalk | src/drivers/iso.c:44-63 | list_items' descent is the walk in the tree and ends in a sector that represents the children there |
| IsoPaths.ListingIsWalk | src/drivers/iso.c:28-88 | list_items fails if and only if the path leads nowhere in the tree, and otherwise lists the stripped names of the children there |
| IsoPaths.CaseIsIgnored | src/drivers/iso.c:33-35 | paths that differ only in the case of letters have the same components |
| IsoPaths.ComponentsAre | src/drivers/iso.c:33-35 | the components are the first 16 of the runs between slashes of the upper-cased path, the sixteenth with the rest |
| IsoPaths.FileOnDisc | src/drivers/iso.c:101-159 | get_lba_file from the disc: lookup, in the tree that the root record's sector represents, of the path without its missing directories |
| IsoPaths.ListingOnDisc | src/drivers/iso.c:28-88 | list_items from the disc: the walk in that tree |
| IsoPaths.MeowIsFound | src/drivers/iso.c:101-159 | /docs/meow.txt finds MEOW.TXT;1 in DOCS |
| IsoPaths.ComponentsAppend | src/drivers/iso.c:33-35 | appending "/name" to a path string appends one component |
| IsoPaths.ListedFileIsFound | src/drivers/iso.c:101-159 | every listed upper-case slash-free file name is found by get_lba_file under the same directory, as the first file record of that name |
| Iso.NameMatches | src/drivers/iso.c:51-55 | a record matches a component if and only if its name without version suffix equals it |
| Iso.Scan | src/drivers/iso.c:125-136 | the record loop answers the first record of the wanted kind and name, or none |
| Iso.FollowPath | src/drivers/iso.c:120-137 | the descent loop over a reused sector buffer computes the lenient descent |
| Iso.FollowStrict | src/drivers/iso.c:44-63 | the descent loop of list_items computes the strict descent |
| Iso.GetLbaFile | src/drivers/iso.c:101-159 | from the path string to the resolved LBA and size |
| Iso.CopyName | src/drivers/iso.c:78-83 | the buffer holds the name without its version suffix as a C string |
| Iso.ListRecords | src/drivers/iso.c:66-87 | the caller's first buffers hold the stripped names of all records but the dot records, in order, the others are unchanged, and the result counts them |
| Iso.ListItems | src/drivers/iso.c:28-88 | -1 if and only if the strict descent fails, and then no buffer changes; otherwise the number of names, with the names in the caller's buffers |
| Keys.DeliverAppendsIff | src/boot/isr.c:30-37 | for every code delivery appends at the back of the queue if and only if read + length is at most 255 and length below 255 |
| Keys.PastTheEndExample | src/boot/isr.c:33-34 | with read 255 and one code queued the next code is never read |
| Keys.TornPollContents | src/drivers/keyboard.c:123-126 | after a delivery between the two updates of a poll the queue ends with the old value of the slot the code was meant for, whatever the indices |
| Keys.TornPollLosesCodeIff | src/drivers/keyboard.c:123-126 | so the torn poll delivers the code if and only if that slot held it already |
| Keys.TornPollExample | src/drivers/keyboard.c:123-126 | a queue whose next code is lost |
| Keys.TornDecrementLosesCode | src/drivers/keyboard.c:125 | a delivery between the load and the store of the length is lost whatever its slot held |
| Keys.DeliveryBeforePoll | src/drivers/keyboard.c:123-126 | a delivery before the whole poll loses nothing |
| Keys.DeliveryAfterPoll | src/drivers/keyboard.c:123-126 | a delivery after the whole poll loses nothing |
| Keys.SmallLetters | src/drivers/keyboard.c:152-177 | the keys A to Z without shift give the small letters in order |
| Keys.CapitalLetters | src/drivers/keyboard.c:152-177 | and with shift the capital letters |
| Keys.Digits | src/drivers/keyboard.c:185-194 | the keys 0 to 9 without shift give the digits |
| Keys.KeyTableInverts | src/drivers/keyboard.c:152-199 | the key table has an inverse: no two keys share a character and only space, backspace, newline and tab ignore shift |
| Keys.SupportedIff | src/drivers/keyboard.c:152-199 | the supported characters are exactly those some key produces |
| Keys.Set2Codes | src/drivers/keyboard.c:152-194 | the codes of the letter and digit keys in literal bytes |
| Keys.ShiftedDigits | src/drivers/keyboard.c:185-194 | the digit keys with shift give the signs above them |
| Keys.OtherKeys | src/drivers/keyboard.c:178-197 | the other keys in literal codes and characters |
| Keys.LiteralCodes | src/drivers/keyboard.c:132-150 | in literal bytes: 0xF0 and a code give no text and release shift if the code is 0x12; 0x12 presses shift; any other code types its key |
| Keys.CodesOfCharacter | src/drivers/keyboard.c:132-150 | the bytes of a character: k, 0xF0, k, with 0x12 before and 0xF0, 0x12 after it if shift is held |
| Keys.DecoderTracksKeys | src/drivers/keyboard.c:132-152 | for any stream of make and break events the shift flag is "the last left-shift event was a make" and the text is what was typed |
| Keys.TextRoundTrip | src/drivers/keyboard.c:121-199 | typing any supported text and decoding its scan codes gives the text back |
| Keys.AnyKey | src/drivers/keyboard.c:132-150 | what one key event does to a decoder in any state: a pending break swallows a make |
| Keys.TextArrivesIff | src/drivers/keyboard.c:121-199 | a text typed into a decoder in any state comes out if and only if it is empty, or no break is pending and a held shift does not change it |
| Keys.AllTextsArriveIff | src/drivers/keyboard.c:121-199 | every text comes out if and only if the decoder is idle |
| Keyboard.Keyboard.KeyboardHandler | src/boot/isr.c:30-37 | the slot written and the length bumped; in range the contents grow by one code at the back |
| Keyboard.Keyboard.PollChar | src/drivers/keyboard.c:121-200 | takes the oldest code and decodes it, or returns NUL and changes nothing when the queue is empty |
| Keyboard.Keyboard.ExitReset | src/boot/isr.c:60-62 | the queue is empty at index 0, the decoder keeps its flags |
| Keyboard.StepConsistent | src/boot/isr.c:30-65 | polled and queued codes are the delivered ones in order after every event, and the read index wraps to 0 only when the queue is empty |
| Keyboard.RunConsistent | src/drivers/keyboard.c:121-200 | FIFO over every interleaving in range: polled codes are a prefix of those delivered since the last exit, and the text is their decoding |
| Keyboard.FewDeliveriesAreInRange | src/boot/isr.c:33-34 | a run is in range whenever at most 255 codes arrive between two exits |
| Keyboard.TypedTextArrivesIff | src/drivers/keyboard.c:121-200 | end to end: a text typed after the last exit comes out of any interleaving that empties the queue if and only if the flags the exit left let it arrive |
| Keyboard.TypedTextArrives | src/drivers/keyboard.c:121-200 | without an exit it always does |
| Keyboard.ExitLosesKey | src/boot/isr.c:60-62 | a run whose exit falls inside a break: the letter typed after it is delivered and polled, and nothing is returned |

## Conditions the results rest on

* Page tables: for the invariant, the frame a new table gets lies below 512 MiB, where the kernel's window ends.
* The boot information is 8-byte aligned, its tags have the sizes the Multiboot2 Specification 2.0 asks for, and it has
  at most 128 available entries.
* Every directory reachable from the root fills at most one sector and ends with a zero length byte inside it; path
  strings are shorter than 255 characters, and the path given to `get_lba_file` has at least one component.
* Tabs start below column 76; over runs the keyboard queue stays within its indices and a poll is one atomic step.
* Buffers that the source keeps apart (`bitmap` and `free_regions`, source and destination strings, RAM and bitmap) are
  distinct arrays.

## Left out

- Paging.Pager.MapPage: `invlpg` and the TLB are not modelled, nor the accessed and dirty bits the processor sets; the walk is taken to see every store at once. Page faults are not modelled: a call one of whose accesses would fault is outside its contract.
- Paging.Pager.SetupPaging: the loads of cr3 and cr0 are not modelled; the same directory stays active throughout. The local arrays `kernel_pt` and `user_pt` are sequences, appended to instead of indexed.
- PageMapping.MapPageEntries: says nothing about combined user and supervisor rights, which also depend on the directory flags a table was created with.
- BootMap.BootMap.Walk: the magic number test and its halt loop are left out, memory is read as aligned words, and the tags are ghost arguments that say what the words encode.
- Iso.AtapiRead: always succeeds and yields the sector of a fixed disc; the ATAPI protocol is left out.
- IsoPaths.Directories: a directory of several sectors is not modelled, since the code reads one.
- Terminal.Terminal.PutEntryAt: the cursor registers (`update_cursor`) are port output and left out.
- Keyboard.Keyboard.KeyboardHandler: the port read is an argument and the end-of-interrupt write is left out; the 511 slots stand for the memory that the index can reach, of which the buffer proper is a part.
- Keyboard.Keyboard.PollChar: one atomic step; the torn order of a poll and an interrupt is treated on its own in `Keys.TornPollContents` and `Keys.TornDecrementLosesCode`.
- Methods that the source writes as one function with several loops are split at the loops (`FillTables`, `LinkTables`, `SwapEnds`, `CopyChars`, `AtPosition`, `FollowPath` and others); array pointers into a string are offsets.
- `total_pages` is carried as computed from `max_addr`; nothing else in the kernel reads it.
- `concat` and `poll_scancode`, which do not do what their names say, and `strcpy`, `memcpy`, `string_equals`, `to_lower_case`, `phys_to_virt`: nothing else modelled here calls them.
- `read_file`, `get_file_size` and `confirm_pvd`: one call on top of what is modelled.
- PS/2, PIC and PIT set-up, GDT, IDT and TSS encoding, system calls other than exit: hardware effects and bit shuffling.
- ELF loading, `kmalloc`, `umalloc` and the buddy structures: stubs or declarations only.
- The shell loop and `run_command`: user interface.
