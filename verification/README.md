# etyOS2, modelled in Dafny

A model of the parts of etyOS2 where its state is hardest to follow, with proofs. Each module keeps the form of its
source: pools, windows, buffers and sectors are byte arrays rewritten in place, pointers are addresses into them, loops
are loops. Beside the code stand functions that say what it does, and lemmas about those functions.

- **Allocator.** `FirstFit` is the block list as a sequence; `HeapRuns` proves what holds over whole runs of it;
  `Neighbours` says when a free leaves free neighbours and when it undoes an allocation;
  `Headers` stores the list as 24-byte headers inside the pool (base address arbitrary, NULL is 0); `Allocator` is the
  pointer code over those bytes; `Clients` runs it among the stores of its callers. Clients free NULL or what they hold,
  and may write any byte of a payload they hold.
- **Console.** `Screens` says what a character does to 25x80 cells and a cursor; `Tapes` is the unbounded page behind
  the screen, laid out in one row-major tape; `Editor` is the line editor; `Console` is the code over the bytes of the
  VGA window, through the moves of `Memory`. Keys are an input sequence; when it runs out before Enter, the state
  described is that of the wait for the next key.
- **Numbers, strings, commands.** `Numbers` has what the printers print and `strtoul`; `CStrings` the string functions;
  `Commands` the dispatch of a command line, up to typing it.
- **Disk.** `Layouts` is the 32-bit sector arithmetic with its wrap-around; `Mbr` the partition table as bytes of
  sector 0; `Drives` the formatters and creators over a drive any of whose operations may fail; `DiskTool` the scan, the
  selected disk and the operations on it.
- **Paging.** `PageTables` fills the early tables and walks them as section 4.5 of the Intel SDM Volume 3A does.
- `Bytes` has little-endian fields and the frames of stores.

Where the code and its comments differ, the model follows the code:

- "Coalesce adjacent free blocks" (memory_allocator.c:96) is one sweep that steps past each merged block, so two
  neighbouring free blocks can remain; and recording the requested size in an unsplit block (line 65) loses the rest.
- `print_clear` does not reset the column (print.c:118-123).
- The "32MB minimum" of `format_ext4` is 8192 sectors, which is 4 MB (partition.c:82-83).
- `format` without a word formats ext4, against the remark beside it (disktool_cmd.c:70).

Properties that do not hold for all inputs are given with the exact condition: distinct ext4 sectors, the size of the
FAT, sectors inside a FAT32 partition, a line that stays on the screen, a partition that ends on the drive, a free
that leaves no free neighbours, allocate undone by free, create undone by delete.

## Model

| member | source | states |
|---|---|---|
| FirstFit.Find | source/implementation/x86_64/memory_allocator.c:51-53 | the index is that of the first block in address order that is free and large enough, and the list length when there is none |
| FirstFit.AllocatedLayout | source/implementation/x86_64/memory_allocator.c:53-66 | after a served request the blocks are still in address order, each header and payload ends before the next block and inside the pool |
| FirstFit.AllocatedLive | source/implementation/x86_64/memory_allocator.c:53-66 | a served request adds exactly one used block, of the requested size and at an address no live block has; a refused one changes nothing |
| FirstFit.AllocatedLeak | source/implementation/x86_64/memory_allocator.c:53-66 | a split loses no byte; an unsplit allocation loses exactly what the block had beyond the request |
| FirstFit.AllocatedPairs | source/implementation/x86_64/memory_allocator.c:55-64 | an allocation never adds a pair of neighbouring free blocks |
| FirstFit.MarkedPairs | source/implementation/x86_64/memory_allocator.c:93-94 | marking one block free adds at most two such pairs |
| FirstFit.SweepRuns | source/implementation/x86_64/memory_allocator.c:96-104 | one sweep turns every maximal run of r free blocks into one of ceil(r / 2) |
| FirstFit.SweepPairs | source/implementation/x86_64/memory_allocator.c:96-104 | a sweep at least halves the number of neighbouring free pairs |
| FirstFit.SweepOrdered | source/implementation/x86_64/memory_allocator.c:96-104 | merging keeps the blocks ordered, disjoint and inside the pool, although earlier slack may lie between merged blocks |
| FirstFit.SweepLive | source/implementation/x86_64/memory_allocator.c:96-104 | a sweep neither drops nor moves nor resizes a used block |
| FirstFit.FreedLeak | source/implementation/x86_64/memory_allocator.c:87-105 | freeing and coalescing neither lose nor recover a byte |
| FirstFit.FreedCapacity | source/implementation/x86_64/memory_allocator.c:87-105 | any request that would be served before a free is served after it |
| HeapRuns.RunInv | source/implementation/x86_64/memory_allocator.c:28-105 | in every state reachable from init: ordered disjoint blocks in the pool, at most one neighbouring free pair, and between 0 and 24 bytes lost per allocate call |
| HeapRuns.RunLive | source/implementation/x86_64/memory_allocator.c:28-105 | in every reachable state the used blocks are exactly the ranges clients hold, as recorded from requests and returned addresses alone (size 0 included) |
| HeapRuns.RunDisjoint | source/implementation/x86_64/memory_allocator.c:28-105 | any two held ranges, headers included, are disjoint and inside the pool |
| HeapRuns.RunFragmentation | source/implementation/x86_64/memory_allocator.c:28-105 | the list has at most 2 * held + 2 blocks |
| HeapRuns.RunHalfCapacity | source/implementation/x86_64/memory_allocator.c:28-105 | with nothing held, any request up to half of the pool minus the lost bytes and two headers is served |
| HeapRuns.NeighboursCanStayFree | source/implementation/x86_64/memory_allocator.c:96-104 | both bounds are tight: two requests and two frees leave the whole pool free in two neighbouring blocks |
| HeapRuns.RunConserves | source/implementation/x86_64/memory_allocator.c:53-105 | over every legal run the listed blocks and the bytes written off at each uncut allocation add up to the pool, and at most 24 bytes are written off per call of allocate |
| Neighbours.SweepLeaves | source/implementation/x86_64/memory_allocator.c:96-104 | the neighbouring free pairs a sweep leaves, exactly: those inside runs of ceil(r / 2); none remain if and only if no run was longer than two |
| Neighbours.SweepSettlesIff | source/implementation/x86_64/memory_allocator.c:96-104 | a sweep coalesces everything if and only if no three free blocks stood in a row |
| Neighbours.FreeSettlesIff | source/implementation/x86_64/memory_allocator.c:87-105 | for every reachable list and used block: free leaves no neighbouring free blocks if and only if the freed block does not stand between two free ones, after two, or before two |
| Neighbours.AllocateThenFree | source/implementation/x86_64/memory_allocator.c:48-105 | for every reachable list: freeing what was just allocated restores it if and only if, with no free neighbours in the list, the block was cut or fitted exactly, and with the one pair there can be, the block was the first of that pair and was cut |
| Headers.Sizes | source/implementation/x86_64/memory_allocator.c:5-15 | a header has 24 bytes: size at 0, the flag at 8, the link at 16; the pool has 104857600 bytes |
| Headers.HeaderStored | source/implementation/x86_64/memory_allocator.c:11-15 | a store into one header field leaves the other two fields of that header as they read before |
| Headers.StoredSplice | source/implementation/x86_64/memory_allocator.c:55-65 | stores that stay inside the rewritten blocks turn the stored linked list into the spliced one |
| Headers.PayloadFrame | source/implementation/x86_64/memory_allocator.c:55-65 | such stores leave every live payload byte alone |
| Allocator.ServeFacts | source/implementation/x86_64/memory_allocator.c:53-55 | the sum of the size and a header cannot wrap where it is computed |
| Allocator.Serve | source/implementation/x86_64/memory_allocator.c:54-65 | the in-place stores of allocate write the carved headers and nothing outside the block served |
| Allocator.SweepStep | source/implementation/x86_64/memory_allocator.c:98-104 | one iteration of the sweep keeps what finishing it gives, the stored list and every live payload |
| Allocator.Coalesce | source/implementation/x86_64/memory_allocator.c:96-104 | the pointer loop of free stops with the pool storing exactly the swept list |
| Allocator.Allocator.constructor | source/implementation/x86_64/memory_allocator.c:28-32 | over any pool contents, init stores the one-block list |
| Allocator.Allocator.Allocate | source/implementation/x86_64/memory_allocator.c:48-73 | the pointer code does first fit on the stored list: returned address, new list, one new live block; no byte changes on NULL; no live payload byte ever |
| Allocator.Allocator.Free | source/implementation/x86_64/memory_allocator.c:87-105 | for NULL nothing changes; for a live pointer the stored list is marked and swept, one live block goes, and no other live payload byte changes |
| Allocator.Allocator.ClientStore | source/implementation/x86_64/memory_allocator.c:66 | a client storing inside a payload it holds leaves the stored list as it is |
| Clients.LawfulCalls | source/implementation/x86_64/memory_allocator.c:28-105 | the calls in such a run form a legal run of the list, so all that holds of those holds here |
| Clients.LastStoredIs | source/implementation/x86_64/memory_allocator.c:66 | what is recorded for a byte is the value of the last store to it that no free of its block followed, and nothing else is recorded |
| Clients.Play | source/implementation/x86_64/memory_allocator.c:28-105 | over any interleaving of allocate, free and client stores, the pool stores the list of the calls alone and every held payload byte is the last one its holder stored since the allocation |
| Bytes.LeWord | source/interface/partition.h:12-21 | fields are stored lowest byte first |
| Memory.Set | source/implementation/x86_64/memory.c:17-23 | every byte of the destination is the value cut to eight bits, no other byte changes |
| Memory.Move | source/implementation/x86_64/memory.c:189-208 | for any overlap, each destination byte is what the source byte was before the call, and no other byte changes |
| Memory.Copy | source/implementation/x86_64/memory.c:39-59 | the same promise as memory_move, whose loops it repeats |
| Console.Console.AbsBytes | source/implementation/x86_64/print.c:7-18 | cell k is the character at byte 2k of the window and the colour at byte 2k + 1 |
| Console.Console.WriteCell | source/implementation/x86_64/print.c:112-116 | one cell changes, through a stack temporary and memory_copy, and no byte outside the window and the temporary |
| Console.Console.ClearRow | source/implementation/x86_64/print.c:106-116 | one row becomes spaces in the current colour |
| Console.Console.PrintClear | source/implementation/x86_64/print.c:118-123 | all 2000 character bytes become 32 and all colour bytes the current colour, the cursor row 0, and the column stays what it was |
| Console.Console.MoveUp | source/implementation/x86_64/print.c:131-132 | the one memory_move shifts every row up by exactly one and leaves the last row in place |
| Console.Console.PrintNewline | source/implementation/x86_64/print.c:125-135 | steps down without clearing, or scrolls and blanks the last row |
| Console.Console.PrintChar | source/implementation/x86_64/print.c:137-170 | newline, backspace with row crossing, and deferred wrap, as the screen function says; row < 25 and col <= 80 afterwards |
| Console.Console.PrintStr | source/implementation/x86_64/print.c:172-176 | prints exactly the characters before the NUL |
| Console.Console.ReadInput | source/implementation/x86_64/print.c:237-260 | the buffer is the edited text and then zeros, byte by byte, the screen is the echo of the keys, and the two agree cell by cell when the line fits |
| Console.Console.PrintDec | source/implementation/x86_64/print.c:72-92 | prints the decimal digits; the 11-byte buffer is never overrun |
| Console.Console.PrintInt | source/implementation/x86_64/print.c:182-198 | prints the same digits as print_dec; the 11-byte buffer is never overrun and always ends in NUL |
| Console.Console.PrintHex | source/implementation/x86_64/print.c:52-70 | prints the characters 0x and then the hexadecimal digits without leading zeros |
| Screens.NewlineMeans | source/implementation/x86_64/print.c:125-135 | a newline keeps all cells and goes down one row; in row 24 every cell takes the one 80 further on, and the last 80 become spaces in the current colour |
| Screens.BackspaceMeans | source/implementation/x86_64/print.c:143-157 | a backspace goes back exactly one cell, across rows and from a due wrap too, stays at the first, and leaves a space in the current colour there |
| Screens.CharacterMeans | source/implementation/x86_64/print.c:159-169 | any other character changes the one cell at the cursor, in the current colour; at column 80 a newline comes first |
| Screens.ClearMeans | source/implementation/x86_64/print.c:118-123 | 2000 spaces in the current colour, row 0, the same column |
| Screens.PutAllSnoc | source/implementation/x86_64/print.c:172-176 | printing a string is printing its characters one after the other, all of them |
| Screens.PlainText | source/implementation/x86_64/print.c:137-176 | plain characters that fit the row stand in it in order from the cursor on, and no other cell changes |
| Screens.ClearedText | source/implementation/x86_64/print.c:118-176 | after a clear at column c, a text that fits stands in the top row from cell c on, and everything else is a space |
| Tapes.ScreenRefinesTape | source/implementation/x86_64/print.c:106-170 | for every stream of characters and colours the 25x80 buffer is the 25-row window of an unbounded page given the same stream, cursor included |
| Tapes.PutShows | source/implementation/x86_64/print.c:137-170 | one printed character, of any kind, keeps the screen the window of the page |
| Tapes.BlankAheadAlways | source/implementation/x86_64/print.c:118-170 | after a print_clear at any column, every cell at or after the cursor is a space in every reachable state |
| Tapes.BlankAheadIffTape | source/implementation/x86_64/print.c:118-170 | the screens with nothing ahead of the cursor are exactly those that show some page |
| Tapes.NewlineRowIsBlank | source/implementation/x86_64/print.c:125-135 | the row print_newline steps onto is blank although it does not clear it |
| Tapes.WindowMoves | source/implementation/x86_64/print.c:125-135 | the window moves down, by one row, exactly when a newline or a due wrap happens on the last row |
| Tapes.HistoryFrozen | source/implementation/x86_64/print.c:125-170 | rows above the window never change again, and the window never moves up |
| Editor.BackspaceUndoes | source/implementation/x86_64/print.c:248-254 | wherever in the keys it happens, a character and a backspace leave the text as it is without both, and a backspace on an empty line as without it |
| Editor.EnterEnds | source/implementation/x86_64/print.c:246 | either Enter ends the line with the text typed before it, whatever follows |
| Editor.FullLineEnds | source/implementation/x86_64/print.c:243 | once one byte is left for the NUL, no further key counts |
| Editor.EditTape | source/implementation/x86_64/print.c:237-260 | whatever keys are pressed, when start column + buffer size is at most 2001, the page is the old page followed by the edited text: backspaces undo exactly what was typed |
| Editor.EditorAndScreenAgree | source/implementation/x86_64/print.c:237-260 | for every key stream, from any cursor with nothing ahead and with start column + buffer size at most 2001, the cells from the start of the line to the cursor are the text, what was before is shifted by the scrolled rows, nothing follows |
| Editor.LongLineScrollsOff | source/implementation/x86_64/print.c:237-260 | when start column + buffer size exceeds 2001, a full line pushes its own first character off the screen |
| Editor.LineStaysIffFits | source/implementation/x86_64/print.c:237-260 | the whole line stays on the screen for all key streams if and only if start column + buffer size is at most 2001, which covers every buffer up to 1922 bytes |
| CStrings.StrCmp | source/implementation/x86_64/string.c:5-11 | 0 exactly for equal strings, negative exactly when the first is smaller byte-wise; the value is the difference at the first position where the strings differ or end |
| CStrings.StrNCmp | source/implementation/x86_64/string.c:72-79 | 0 exactly when the strings agree on their first num characters, negative exactly when the first is smaller there; the value is the difference at the first position below num where they differ or end |
| CStrings.StrChr | source/implementation/x86_64/string.c:61-69 | the first occurrence; none for a character that is absent, nor for NUL |
| Numbers.Strtoul | source/implementation/x86_64/string.c:31-59 | on any string and base, the value of the longest digit prefix modulo 2^32, and the position just past it; in base 10 that is the first byte outside 48 to 57 |
| Numbers.DigitMeaning | source/implementation/x86_64/string.c:36-48 | for every byte and base: the decimal digits count 0 to 9, the letters of either case 10 to 35, each a digit exactly below the base, and no other byte is one |
| Numbers.DigitNames | source/implementation/x86_64/print.c:44-50 | the printed digits are 0123456789ABCDEF in order |
| Numbers.ValueConcat | source/implementation/x86_64/string.c:50 | the value of a string is positional: one digit is its own value, and s followed by t is s times base to the length of t plus t |
| Numbers.HornerMod | source/implementation/x86_64/string.c:50 | reducing modulo 2^32 at every digit gives the value reduced once |
| Numbers.DigitsValue | source/implementation/x86_64/print.c:72-92 | what is printed has no leading zero except for 0 itself, consists of digits, and stands for the number |
| Numbers.ParseUndoesPrint | source/implementation/x86_64/string.c:31-59 | reading back printed digits followed by any non-digit gives the number and stops after them, in base 10 and 16 |
| Numbers.TenDigits | source/implementation/x86_64/print.c:73 | a 32-bit number has at most ten decimal digits |
| Commands.ParseFsType | source/implementation/kernel/commands/disktool_cmd.c:7-14 | ext4 exactly for the bytes 101 120 116 52, FAT32 for anything else |
| Commands.ParseNewPart | source/implementation/kernel/commands/disktool_cmd.c:87-100 | the in-place cut at the first blank yields the size and the type the text says |
| Commands.Dispatch | source/implementation/kernel/commands/disktool_cmd.c:32-124 | every line in the command buffer is taken for the command its text means; at most one blank is overwritten |
| Commands.NewPartRoundTrip | source/implementation/kernel/commands/disktool_cmd.c:87-100 | for every 32-bit n and any word, the line newpart n word is read back as exactly n and ext4 if the word is ext4 and FAT32 otherwise; no earlier branch captures it |
| Commands.ArgumentRoundTrips | source/implementation/kernel/commands/disktool_cmd.c:72-110 | a printed number after selectdisk or delpart comes back as itself below 2^31 and 2^32 less from there on; format with a word asks for ext4 exactly for ext4 |
| Commands.WordsAreReached | source/implementation/kernel/commands/disktool_cmd.c:32-119 | every one-word command is reached by its own word; an empty line is skipped |
| Commands.CommandIff | source/implementation/kernel/commands/disktool_cmd.c:32-124 | which lines are which command, letter by letter and in both directions; unknown exactly when no word and no prefix matches |
| Commands.TypedLine | source/implementation/x86_64/print.c:237-260 | a line without control characters that fits, ended by Enter, is the string in the buffer |
| Commands.TypedNewPart | source/implementation/kernel/commands/disktool_cmd.c:29-100 | typing newpart, a number and a word at the prompt asks for exactly that size, and for ext4 exactly when the word is ext4 |
| Layouts.GroupsTile | source/implementation/x86_64/partition.c:115-183 | for every partition of at least 8 sectors the groups tile [0, total blocks) in order and the last has 1 to 32768 blocks |
| Layouts.GroupsInRange | source/implementation/x86_64/partition.c:124-134 | the check on the number of groups never rejects a partition that passed the size check; at most 32 groups means fewer than 2^23 + 8 sectors |
| Layouts.BitmapOffset | source/implementation/x86_64/partition.c:207 | only the byte offset of a bitmap can wrap; it starts over every 32 groups |
| Layouts.Ext4SectorIs | source/implementation/x86_64/partition.c:100-226 | the sector of every write in order: the superblock at 2, the descriptors from 3 on, the bitmaps 262144 sectors apart and starting over every 32 groups |
| Layouts.Ext4Inside | source/implementation/x86_64/partition.c:100-226 | every sector of the plan is inside the partition, wrapped bitmaps included |
| Layouts.Ext4DistinctIff | source/implementation/x86_64/partition.c:100-226 | superblock, descriptor and bitmap sectors are pairwise distinct if and only if the partition has fewer than 2^23 + 8 sectors; from there on group 32 overwrites the bitmaps of group 0 |
| Layouts.FatPlanIs | source/implementation/x86_64/partition.c:13-17 | for every total: the table size is even and is exactly the sectors behind the reserved ones over 513, rounded down to a pair, wrap included; the tables start at 32 and right behind the first |
| Layouts.FatAdequateIff | source/implementation/x86_64/partition.c:13-17 | the two tables fit and each has an entry for every data cluster and two more, if and only if 1058 <= total < 2076 or total >= 2084 |
| Layouts.FatLayout | source/implementation/x86_64/partition.c:377-382 | then boot sector and both tables are disjoint and inside the partition |
| Layouts.FatInsideIff | source/implementation/x86_64/partition.c:364-382 | the three sectors written are inside the partition if and only if it is larger than the 32 reserved sectors |
| Layouts.EmptyFatPlan | source/implementation/x86_64/partition.c:13-17 | a FAT32 partition of no sectors wraps the subtraction and gets its second table at sector 8374334 |
| Layouts.SizeMbIs | source/implementation/x86_64/disktool.c:54-55 | the shown size is the reported count modulo 2^23, in whole megabytes |
| Layouts.SizeRoundTrip | source/implementation/x86_64/disktool.c:54-55 | for every reported sector count, wrapped or not, the size in MB is below 4096 and converts back to sectors without wrapping and within the reported count |
| Layouts.MbToSectorsExactIff | source/implementation/x86_64/disktool.c:8 | MB_TO_SECTORS is exact if and only if its argument is below 4096 |
| Layouts.PartitionOnDriveIff | source/implementation/x86_64/disktool.c:113-120 | a newpart partition that passed the capacity check ends on the drive if and only if it is smaller than the shown capacity or the capacity wrapped |
| Mbr.TableInjective | source/interface/partition.h:12-21 | the four decoded slots and the bytes around them determine the sector |
| Mbr.FirstSlotIs | source/implementation/x86_64/partition.c:252-256 | the abstract search finds the first of the bytes 450, 466, 482 and 498 that is 0 |
| Mbr.CreatedBytes | source/implementation/x86_64/partition.c:254-262 | every step the table takes by a create is these stores: status, type, first sector and count at their offsets in the first free slot, all else kept |
| Mbr.DeletedBytes | source/implementation/x86_64/disktool.c:276-289 | every step by a delete is sixteen zero bytes over an occupied slot, all else kept |
| Mbr.CreateEntry | source/implementation/x86_64/partition.c:254-262 | the first slot whose type byte is 0 gets status 0, the type, the first sector at +8 and the number of sectors at +12; no other byte of the sector changes; a full table is left alone |
| Mbr.DeleteEntry | source/implementation/x86_64/disktool.c:276-289 | a slot whose type byte is not 0 becomes sixteen zero bytes and nothing else changes; otherwise it is refused and nothing changes |
| Mbr.TableRun | source/implementation/x86_64/disktool.c:251-302 | over any sequence of creates and deletes the sector decodes to the abstract four-slot table and bytes 0-445 and 510-511 never change |
| Mbr.CreateThenDelete | source/implementation/x86_64/disktool.c:285-289 | create followed by delete of its slot restores the very sector if and only if the slot was all zero |
| Drives.Drive.Write | source/implementation/x86_64/filesystem.c:155-191 | at most the addressed sector changes; only the low 28 bits of the number reach the drive |
| Drives.Images | source/implementation/x86_64/partition.c:202-219 | the block bitmap is 0x0F and zeros, the inode bitmap zeros, the table head 0x0FFFFFF8 and twice 0x0FFFFFFF and zeros |
| Drives.Landings | source/implementation/x86_64/partition.c:186-219 | where the three writes of a group land on the drive: their offsets modulo 2^28 |
| Drives.BitmapsGrow | source/implementation/x86_64/partition.c:185-226 | the three writes of a group leave the bitmaps of all earlier groups as they should be, however the sector numbers wrap |
| Drives.FormatExt4 | source/implementation/x86_64/partition.c:78-235 | it succeeds if and only if there are 8192 sectors, the buffer is granted and no operation fails; the writes are a prefix of the plan, all of it on success; nothing is sent after a failure; no other sector changes; on success every group has both its bitmaps on the drive, also where groups share sectors |
| Drives.FormatFat32 | source/implementation/x86_64/partition.c:327-388 | it succeeds if and only if no operation fails; the writes are a prefix of the three-sector plan, all of it on success; nothing is sent after a failure; no other sector changes; on success both tables begin with the same head |
| Drives.AddEntry | source/implementation/x86_64/partition.c:241-269 | the entry is added if and only if a slot is free and no operation fails; then sector 0 was written once and has it |
| Drives.CreateExt4Partition | source/implementation/x86_64/partition.c:237-291 | with a free slot and no failed operation: sector 0 and then the whole format plan are written, sector 0 ends with the one new entry of type 0x83 when the plan spares it, and all bitmaps are there; a refused buffer leaves it at the entry; a full table means no write; a failure ends it |
| Drives.CreateFat32Partition | source/implementation/x86_64/partition.c:390-440 | the same for FAT32: type 0x0C, the three planned sectors, both table heads |
| DiskTool.PresentAt | source/implementation/x86_64/disktool.c:28-60 | every position that answers is listed once, behind exactly those before it that answer, and nothing else is listed |
| DiskTool.DiskTool.Init | source/implementation/x86_64/disktool.c:20-65 | the drives that answer are listed in scan order with the size their own sector count gives; entries past the new count stay as they were |
| DiskTool.DiskTool.Select | source/implementation/x86_64/disktool.c:87-101 | exactly the listed indices are accepted |
| DiskTool.DiskTool.Format | source/implementation/x86_64/disktool.c:142-180 | for every reported 32-bit sector count: refused without a write below 32 MB; otherwise, with a free slot, a granted buffer and no failed operation, the entry over the whole disk and every planned sector are written, of the type asked for; in any case every sector written is sector 0 or in [2048, reported), none is written twice, a full table means no write, no other sector changes, and nothing follows a failure |
| DiskTool.DiskTool.CreatePartitionMb | source/implementation/x86_64/disktool.c:104-139 | refused above the shown capacity with nothing changed; otherwise, with a free slot, a granted buffer and no failed operation, the entry and every planned sector are written, of the type and size asked for; every other sector written is inside the new partition, except for FAT32 of 0 MB; a full table means no write, and only sector 0 and planned sectors change; then the disks are scanned again |
| DiskTool.DiskTool.DeletePartition | source/implementation/x86_64/disktool.c:251-302 | it succeeds if and only if the slot is occupied and no operation fails, and then sector 0 was written with the slot deleted; only sector 0 can change, and only by that |
| PageTables.OrFlags | source/implementation/x86_64/boot/main.asm:72-83 | or-ing flag bits below an aligned address adds them |
| PageTables.SetupPageTables | source/implementation/x86_64/boot/main.asm:70-90 | zeroed, aligned tables end up with the two links, flags 3 added, and 512 entries of 2 MiB with flags 0x83, eight bytes each, and no byte outside the three tables changes |
| PageTables.IdentityMapping | source/implementation/x86_64/boot/main.asm:70-90 | the 4-level walk maps every address below 1 GiB to itself, present and writable, and every other address below 2^47 is not present |

## Left out

- The ATA registers and waiting loops: a drive is a function from sector number to 512 bytes whose reads and writes may fail, and which counts the failures.
- The contents of the ext4 superblock and group descriptors and of the FAT32 boot sector: they are arbitrary 512-byte images here, unlike the bitmaps and the heads of the file allocation tables. The superblock structure is larger than the one-sector buffer it is built in, so what reaches the disk and what `memory_zero` overruns is not described; the block constants are taken as the values `init_superblock` sets.
- The ext4 counts of free blocks and inodes, which do not agree with each other in the source.
- The buffer `format_ext4` allocates: whether it is granted is a parameter, and the heap is not threaded through the formatters.
- Overlap between newpart partitions: every one starts at sector 2048.
- Alignment of allocated payloads, double frees and foreign pointers.
- Scan codes, shift and caps lock in `get_char`, prompts, help and listing texts, `display_partitions`, and `format_partition` and `select_partition`, which no command calls.
- `memory_compare`, `memory_find`, `memory_is_zero`, `memory_swap`, `strcpy` and `strlen`: nothing modelled here depends on them.
- Boot checks, the switch to long mode, the GDT, the linker script; of the walk, reserved bits, protection and caching.
- Memory.Copy: calls the loops of `Memory.Move`, because the two C functions have the same bodies.
- A `read_input` size of 0, which wraps the C loop bound and reads without end.
- Tapes.ScreenRefinesTape: fixes the colour of printed characters only; the colour of a blank cell is fixed by the contracts of `Console.ClearRow`, `PrintNewline` and `PrintChar`.
