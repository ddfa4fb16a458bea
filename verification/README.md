# Janus86 in Dafny

Janus86 is a small 32-bit x86 kernel. This project models the algorithms in it that carry invariants and
proves what they keep: the kernel heap, the formatter with the text screen behind it, the number parser, the
delay calibration, the page tables, the shell tokenizer and path walk, the ext2 directory, inode and file readers, the
partition scan, the FAT32 directory walk and the round-robin scheduler.

Code that works by updating things is modelled by methods, classes and arrays whose contracts tie the new
state to a specification function; the results about whole runs, round trips and layouts are lemmas about
those functions. `dafny verify dfyconfig.toml` checks everything.

| module | models |
|---|---|
| `HeapModel`, `HeapRuns`, `FreeList`, `Kmalloc` | `src/mm/kmalloc.c`: first fit over a circular address-ordered free list |
| `Numerals`, `Format`, `Conversions`, `Screen` | `src/kernel/kprintf.c`, `src/kernel/string.c`, `drivers/video.c` |
| `Delay` | `src/kernel/delay.c`: doubling, then bitwise search |
| `Paging` | `src/mm/pageinit.c` and the two-level walk of section 4.3 (32-bit paging) of the Intel SDM, Volume 3A |
| `Names`, `Cutting`, `Shell`, `Path` | name escaping, `strcmp`, `src/utils/shell.c`, `ext2_chdir` in `src/fs/ext2/dir.c` |
| `Ext2Layout`, `Ext2Dir`, `Ext2Volume`, `Ext2File`, `Ext2Holes` | `src/fs/ext2/ext2.c`, `ext2_rd_dir` and `ext2_rd_file` in `src/fs/ext2/dir.c` |
| `Disks`, `Partitions`, `Fat32`, `FatDir`, `FatListing`, `FatLayout`, `FatSplit` | `drivers/diskio.c`, `src/fs/vfat_module/fat32.c` |
| `Sched` | `src/kernel/sched.c` |
| `Options`, `Words`, `Sequences`, `Arithmetic` | shared definitions, powers and facts about division |

## Conventions

- Heap addresses and sizes are counted in 8-byte units from `KERNEL_MEM_START`; the heap size is a parameter
  (0x1C0000 units in the kernel). `freep == NULL` stands for the heap that the first call sets up.
- 32-bit unsigned arithmetic is written out with `%`. Negation of the smallest 32-bit integer wraps.
- The variable arguments of the formatter are a function from slot numbers to 32-bit words, and string
  arguments are looked up by address. A C string is a string without NUL.
- A drive is a function from sector numbers to 512 bytes; video memory, the page tables and all buffers that
  the code cuts or fills are arrays; the timer is a threshold: a delay of n loops spans a tick exactly when n
  reaches it.
- Recursion over an on-disk chain takes the finite chain as a ghost argument; it is determined by its start
  (`Partitions.ChainIsUnique`, `Fat32.ChainIsUnique`). The search for the first part of a long name likewise takes a
  ghost bound on its steps; `FatListing.ChainIsListed` says that 48 steps always suffice for names within reach.

## What the code does not meet

These promises hold only under a condition. Each condition is stated so that both directions are proved.

- The heap stays sound over a call exactly when a `kmalloc` does not take the whole of the only free block and
  a `kfree` does not release the block that ends where the only free block starts (`HeapRuns.CallKeepsGood`).
  In the first case the same block is handed out twice, in the second a block is on the list inside another
  (`HeapRuns.LastBlockIsHandedOutTwice`, `HeapRuns.LoneBlockIsListedTwice`). Both are reached from boot
  (`HeapRuns.WholeHeapIsHandedOutTwice`, `HeapRuns.BootReachesFailingRelease`). Callers that never take the
  whole bottom block meet both conditions (`HeapRuns.SparingRunsAreGuarded`).
- Freeing every live block restores the boot state in every order exactly when the bottom block is free
  (`HeapRuns.AnyOrderRestoresBoot`).
- The formatter steps over the end of a format exactly when the format ends in a bare `%` or in the zero flag
  (`Format.FormatMeaning`).
- The delay calibration ends exactly for thresholds up to 2^31 (`Delay.CoarseEndsExactlyUpTo31Bits`).
- An inode is found exactly when its number is no multiple of the inodes per group, its group is not a backup group
  missing from the literal list, unless the table happens to lie where the code assumes it, and its record lies
  within the first 2^32 records (`Ext2Layout.InodeIsFound`). The list is right about exactly the groups below 729 and
  those without a backup (`Ext2Layout.GroupListIsExact`, `Ext2Layout.InodeOf729IsMissed`).
- For each size and each set of holes, all such files are read as they are exactly when no hole lies below the size
  and the size is at most one block, or the blocks are of 4096 bytes and no double indirection is needed
  (`Ext2Holes.FilesAreReadExactly`).
- A directory is listed completely exactly when it has one block (`Ext2Dir.ListingIsCompleteForOneBlock`,
  `Ext2Dir.SecondBlockOverwrites`).
- A FAT32 entry is followed as the format defines exactly when its top four bits are clear and it does not mark the
  end by a value from 0x0FFFFFF8 to 0x0FFFFFFE (`Fat32.LinkIsSpecified`, `Fat32.ChainIsSpecified`).
- A long FAT32 name whose parts stand in front of their entry on the disk is found, and the scan goes on in its own
  sector, exactly when the name begins no further back than in the sector before its entry
  (`FatListing.LongNamesInReachAreFound`). Otherwise a sector of the name is repeated, or the scan goes on in the wrong
  sector (`FatListing.FoundLongName`, `FatSplit.RunOutOfReach`).
- A name with up to 16 parts at the end of one cluster and up to 15 at the start of the next one of the chain is listed
  on every volume exactly when there is a part in the second cluster and the clusters are neighbours on the disk
  (`FatSplit.SplitNamesAreListed`). Otherwise the file appears under its short name, or under one that begins with
  whatever stands in front of its cluster.
- When the first extended primary decides the partition scan, the logical partitions of all extended primaries are
  listed exactly when the later ones have no signed record (`Partitions.AllAreListed`,
  `Partitions.SecondExtendedIsLost`).
- The task queue survives a new task exactly when it is not full and does not end in the last slot of its buffer
  (`Sched.TaskKeepsRotating`).

The page directory covers 64 MB although `MEM_SIZE` is 128 MB, because the shift by `10 + 1` is a shift by 11;
the model follows the code. Likewise the partition scan looks at the slots of the last extended record, not of
the master boot record, once it has followed a chain; `Partitions.FirstExtendedDecides` says what it lists.

## Model

| member | source | states |
|---|---|---|
| HeapModel.PayloadCoversRequest | src/mm/kmalloc.c:12 | the payload covers the request exactly for sizes up to 2^32 - 8, and wastes less than one unit |
| HeapModel.Predecessor | src/mm/kmalloc.c:53-55 | the member of the circular list that is passed last before an address is reached |
| HeapModel.PredecessorIsUnique | src/mm/kmalloc.c:53-55 | there is only one such gap |
| HeapModel.AllocateKeepsSound | src/mm/kmalloc.c:19-37 | tiling, coalescing and the list survive an allocation if and only if it does not take the whole of the only free block |
| HeapModel.ReleaseKeepsSound | src/mm/kmalloc.c:47-72 | they survive a release if and only if the block does not end at the only free block |
| HeapModel.PredecessorIsBelowOrFar | src/mm/kmalloc.c:53-62 | the block joined above is the insertion point itself exactly in the failing case |
| HeapRuns.OwnerExists | src/mm/kmalloc.c:7-72 | every unit of a tiled heap lies in some block |
| HeapRuns.OwnerIsUnique | src/mm/kmalloc.c:7-72 | no unit lies in two blocks |
| HeapRuns.UnitsAreConserved | src/mm/kmalloc.c:7-72 | free and live units always add up to the heap size |
| HeapRuns.FailsExactlyWhenFull | src/mm/kmalloc.c:19-37 | NULL is returned exactly when no run of that many unallocated units exists anywhere |
| HeapRuns.FreshBlock | src/mm/kmalloc.c:21-32 | what is handed out was unallocated and every other live block stays as it was |
| HeapRuns.AllFreedIsInitial | src/mm/kmalloc.c:13-18 | with nothing live the free list is the single initial block of full size |
| HeapRuns.CallKeepsGood | src/mm/kmalloc.c:7-72 | one proper call keeps the whole invariant, payload sizes included, if and only if it is guarded |
| HeapRuns.GuardedRunsAreSafe | src/mm/kmalloc.c:7-72 | every guarded run from boot ends tiled, coalesced and conserving, with every payload large enough, and at the boot state if nothing is left live |
| HeapRuns.SparingBottomIsEnough | src/mm/kmalloc.c:15-24 | a call that does not take the whole bottom block is guarded and leaves the bottom block free |
| HeapRuns.SparingRunsAreGuarded | src/mm/kmalloc.c:15-24 | so every run of such calls is guarded and leaves the bottom block free |
| HeapRuns.RunSplits | src/mm/kmalloc.c:7-72 | a run of two parts is guarded exactly when the parts are in turn, and does what they do |
| HeapRuns.FreedToBoot | src/mm/kmalloc.c:47-72 | a guarded run that frees every live block, in whatever order, ends at the boot state |
| HeapRuns.BottomFreedLast | src/mm/kmalloc.c:47-72 | with the bottom block live, no order that frees it last is guarded |
| HeapRuns.AnyOrderRestoresBoot | src/mm/kmalloc.c:13-72 | every order of freeing all live blocks is guarded and restores the boot state if and only if the bottom block is free |
| HeapRuns.SparingRunsCanBeUndone | src/mm/kmalloc.c:13-72 | after any run that spares the bottom block, freeing everything in any order leaves the single initial block |
| HeapRuns.LastBlockIsHandedOutTwice | src/mm/kmalloc.c:23-24 | after taking the only free block whole, the same request returns the same block again |
| HeapRuns.WholeHeapIsHandedOutTwice | src/mm/kmalloc.c:13-24 | a first request for the whole heap, repeated, returns the same address |
| HeapRuns.LoneBlockIsListedTwice | src/mm/kmalloc.c:57-70 | in the failing release a block stays listed inside the merged one and is then handed out while still listed |
| HeapRuns.BootReachesFailingRelease | src/mm/kmalloc.c:57-70 | four guarded calls from boot lead to a live block whose release breaks the heap |
| HeapRuns.RestIsTriedFirst | src/mm/kmalloc.c:19-31 | after the tail of a block was taken, the next search begins with its rest |
| HeapRuns.SearchGoesOnBehind | src/mm/kmalloc.c:19-31 | after a whole block was taken, the next search goes on in the order of the blocks behind it |
| HeapRuns.ReleasedIsTried | src/mm/kmalloc.c:53-71 | after a release the released block is tried first, or last if it was joined with the block below |
| FreeList.RingInsert | src/mm/kmalloc.c:62-70 | linking a block at its gap keeps the list circular and address-ordered |
| FreeList.RingRemove | src/mm/kmalloc.c:24 | unlinking a successor keeps it so |
| FreeList.TakenStored | src/mm/kmalloc.c:21-31 | the header words written by kmalloc store exactly the carved heap |
| FreeList.SplicedRing | src/mm/kmalloc.c:57-71 | the link words written by kfree form the ring of the released heap, failing case included |
| FreeList.SplicedStored | src/mm/kmalloc.c:57-71 | links and sizes written by kfree store exactly the released heap |
| Kmalloc.KernelHeap.FindFit | src/mm/kmalloc.c:19-36 | the scan returns the first block met that is large enough and its predecessor, or none if none is, and inspects no block twice |
| Kmalloc.KernelHeap.Take | src/mm/kmalloc.c:23-30 | exactly the header words that unlinking or cutting the tail changes |
| Kmalloc.KernelHeap.KmallocUnits | src/mm/kmalloc.c:19-37 | the list state refines Allocate |
| Kmalloc.KernelHeap.Kmalloc | src/mm/kmalloc.c:7-38 | refines Allocate on the rounded size; the pointer returned points behind the header of the one block that becomes live, which has the rounded size and was not live; no word of a live block changes |
| Kmalloc.KernelHeap.FindGap | src/mm/kmalloc.c:53-55 | the search stops at the unique gap within one lap, from any starting point |
| Kmalloc.KernelHeap.Splice | src/mm/kmalloc.c:57-70 | exactly the header words that freeing changes |
| Kmalloc.KernelHeap.Kfree | src/mm/kmalloc.c:47-72 | refines Release, and no word of a block that stays live changes |
| Kmalloc.KernelHeap.Store | src/mm/kmalloc.c:32 | client stores into a payload cannot disturb the list or any header |
| Kmalloc.Serve | src/mm/kmalloc.c:7-72 | a guarded run of calls on the words in memory does to the list what the run does to the heap as a value |
| Kmalloc.ServeRequests | src/mm/kmalloc.c:7-72 | so does a guarded run of clients that free by the pointers they were given |
| Numerals.NumeralFitsBuffer | src/kernel/kprintf.c:126-140 | a 32-bit value has at most 11 digits in radix 8, 10 or 16, so the buffer suffices |
| Numerals.ConvertNumber | src/kernel/kprintf.c:78-140 | the digit loop leaves the numeral and its NUL at the end of the buffer |
| Numerals.NumeralValue | src/kernel/kprintf.c:126-140 | the positional value of a printed numeral is the number |
| Numerals.Power | src/kernel/string.c:133-140 | the 32-bit power |
| Numerals.AtoiHex | src/kernel/string.c:148-163 | the weighted sum of the characters, where one that is no digit repeats its right neighbour's value |
| Numerals.HexSumIsValue | src/kernel/string.c:152-162 | for hexadecimal digits that sum is the positional value |
| Numerals.Atoi | src/kernel/string.c:143-172 | decimal prefix or hexadecimal sum, modulo 2^32 |
| Numerals.DecimalRoundTrip | src/kernel/string.c:164-171 | parsing the decimal numeral of any 32-bit value gives it back |
| Numerals.HexRoundTrip | src/kernel/string.c:148-163 | so does parsing its hexadecimal numeral behind 0x, in either case of letters |
| Numerals.AtoiStops | src/kernel/string.c:164-168 | decimal parsing stops at the first character that is no digit |
| Numerals.AtoiRepeats | src/kernel/string.c:148-163 | 0x1g2 is parsed as 0x122 |
| Format.Emit | src/kernel/kprintf.c:155-196 | sign, padding and body come out as the field specification says |
| Format.NumberFieldShape | src/kernel/kprintf.c:117-196 | a numeric field fills the larger of width and natural length, with sign, digits and filler each in its place for every combination of flags, and one minus sign exactly for a negative value |
| Format.StringFieldShape | src/kernel/kprintf.c:151-196 | %s fills the larger of width and length with blanks on the side asked for, whatever the zero flag |
| Format.CharFieldShape | src/kernel/kprintf.c:142-196 | so does %c, and a zero byte leaves its own place out |
| Format.ConvertedHasNoNul | src/kernel/kprintf.c:142-186 | no conversion writes a NUL |
| Format.Convert | src/kernel/kprintf.c:77-200 | each conversion character prints its field |
| Format.Switch | src/kernel/kprintf.c:14-204 | one pass through the fall-through switch, with the case where it meets the end of the format |
| Format.Vsnprintf | src/kernel/kprintf.c:3-208 | the whole machine; the count returned is the output length |
| Format.ScanDirective | src/kernel/kprintf.c:14-204 | the machine prints one directive of the format language and is idle behind it, whatever follows |
| Format.PrintsDirectives | src/kernel/kprintf.c:11-205 | a sequence of directives prints its parts one after the other, arguments in order |
| Format.ScanEnding | src/kernel/kprintf.c:22-56 | what a format that breaks off inside a conversion does |
| Format.Decompose | src/kernel/kprintf.c:11-205 | every format is a sequence of directives and an ending |
| Format.FormatMeaning | src/kernel/kprintf.c:3-208 | for every format, machine output is the concatenation of its directives' output, and the scan overruns exactly for a bare % or zero flag at the end |
| Format.PrintedDecimalParsesBack | src/kernel/kprintf.c:93-141 | atoi of what %u prints is the argument |
| Format.PrintedHexParsesBack | src/kernel/kprintf.c:82-141 | atoi of what 0x%x and 0x%X print is the argument |
| Conversions.NumeralIsUnique | src/kernel/kprintf.c:126-140 | the digits printed for a value are the only ones, without leading zeros, that denote it |
| Conversions.SignedConversions | src/kernel/kprintf.c:90-122 | under any flags, %d and %i show the signed decimal value, with h of the low 16 bits |
| Conversions.UnsignedConversions | src/kernel/kprintf.c:82-115 | %u, %o, %x, %p, %n and %X show the unsigned value in base 10, 8 or 16, %X in capitals |
| Conversions.OtherConversions | src/kernel/kprintf.c:142-200 | %s shows the string, %c the low byte, and any other character prints nothing |
| Conversions.PrintedSigned | src/kernel/kprintf.c:90-141 | %d, %i, %hd and %hi alone print a minus sign for a negative value, then the decimal numeral of its magnitude |
| Conversions.PrintedUnsigned | src/kernel/kprintf.c:82-141 | the six unsigned conversions alone print the numeral of the argument, with h of its low 16 bits |
| Conversions.NextArgument | src/kernel/kprintf.c:78-154 | exactly ten characters take an argument, and the next conversion gets the one behind it |
| Conversions.ModifierMeanings | src/kernel/kprintf.c:58-72 | F and N have no effect, l wins over h |
| Conversions.FieldsOfFive | src/kernel/kprintf.c:155-196 | minus 42 under %5d, %-5d, %05d and %-05d |
| Conversions.BrokenFormats | src/kernel/kprintf.c:22-56 | a bare % and a zero flag at the end overrun the format, a dash, a digit and a modifier do not |
| Screen.PutAllConcat | src/kernel/kprintf.c:236-260 | successive calls write one text behind the other |
| Screen.HistoryIsKept | src/kernel/kprintf.c:236-260 | what lies behind the pen is never rewritten |
| Screen.TextIsLogged | src/kernel/kprintf.c:249-259 | a text without newlines stands in consecutive cells, across rows and scrolls |
| Screen.RestOfScreen | src/kernel/kprintf.c:249-259 | a text without newlines leaves the cells in front of the pen alone, and rows are added, blank, only when needed |
| Screen.NewlinesMoveDown | src/kernel/kprintf.c:238-247 | while rows are left, n newlines put the pen to the start of the n-th row below and change no cell |
| Screen.NewlinesWhenParked | src/kernel/kprintf.c:238-247 | from a parked pen every other newline adds a blank row |
| Screen.NewlinesOnAndOn | src/kernel/kprintf.c:238-247 | a longer run first uses the rows left, then goes on like that |
| Screen.BlankLineIsKept | src/kernel/kprintf.c:236-260 | after clearing, the text a, two newlines, b has b in cell 160 |
| Screen.MovedUpBytes | drivers/video.c:26-32 | every byte after a scroll |
| Screen.TextScreen.KclearScreen | drivers/video.c:5-18 | every cell blank on black, and the cursor in column 10 of row 0 |
| Screen.TextScreen.SetCursorPosition | drivers/video.c:36-60 | the clamped and wrapped cursor, and the one attribute byte written |
| Screen.TextScreen.MoveUp | drivers/video.c:21-32 | the in-place loops move every row up with its attributes, blank the last on black, and touch nothing behind the screen |
| Screen.TextScreen.KscrollDisplay | drivers/video.c:21-34 | the pending scroll appends a blank row to the log |
| Screen.TextScreen.NewLine | src/kernel/kprintf.c:238-247 | a newline leaves the row, or on a parked cursor only performs the pending scroll |
| Screen.TextScreen.PutChar | src/kernel/kprintf.c:249-259 | one character at the pen, white on black, and the attribute of the cursor's cell; the index follows the cursor and the store stays below byte 4000 |
| Screen.TextScreen.WriteNewlines | src/kernel/kprintf.c:238-247 | a run of newlines leaves the log as that many newlines put into it |
| Screen.TextScreen.WriteBuffer | src/kernel/kprintf.c:236-260 | the screen shows the last 25 rows of the log with the whole buffer put into it |
| Screen.TextScreen.Kprintf | src/kernel/kprintf.c:222-262 | the same for the formatted text, and its length is returned |
| Delay.LowBit | src/kernel/delay.c:75-84 | setting a bit below all others adds it, and clearing it restores the value |
| Delay.Coarse | src/kernel/delay.c:55-65 | the largest power of two below the threshold |
| Delay.Fine | src/kernel/delay.c:69-85 | bit search: exact within eight bits, otherwise within the last bit tried |
| Delay.CalibrateDelayLoop | src/kernel/delay.c:42-96 | below the threshold, exact up to 512, within one part in 256 beyond; then the division |
| Delay.CoarseEndsExactlyUpTo31Bits | src/kernel/delay.c:55-63 | the doubling loop ends if and only if the threshold is at most 2^31 |
| Paging.FillEntries | src/mm/pageinit.c:51-62 | consecutive entries for consecutive frames |
| Paging.PadPage | src/mm/pageinit.c:54-65 | zeroes up to the page boundary |
| Paging.PageInit | src/mm/pageinit.c:31-66 | the directory, its padding and all table entries |
| Paging.TablesMapIdentity | src/mm/pageinit.c:40-65 | the two-level walk maps every address below 64 MB to itself and finds no higher one present |
| Paging.TablesAndHeapAreMappedApart | include/mem.h:5-7 | the tables lie above the heap, and both stay reachable under paging |
| Names.EscapeName | src/fs/ext2/dir.c:157-166 | the copying loop puts a backslash before each space |
| Names.EscapeRoundTrip | src/fs/vfat_module/fat32.c:145-151 | removing the backslashes again gives the name |
| Names.EscapeIsInjective | src/fs/ext2/dir.c:157-166 | listed names are equal exactly when the names are |
| Names.EscapeIs | src/fs/ext2/dir.c:157-166 | a backslash goes before each space and nothing else changes |
| Names.Strcmp | src/kernel/string.c:68-77 | zero exactly for equal strings |
| Shell.TokensOfWords | src/utils/shell.c:110-132 | cutting a line of words joined by spaces gives the words |
| Shell.TokensOfLine | src/utils/shell.c:117-127 | so does cutting a line with any spaces and tabs between and behind them |
| Shell.ListedNamesAreTyped | src/utils/shell.c:117-127 | listed names, typed back on one line, are cut into exactly those names |
| Shell.GenArgs | src/utils/shell.c:110-132 | the argument table points at the tokens in the cut buffer; failure exactly for too many |
| Shell.TokensAreFew | src/utils/shell.c:118-121 | which no line of CMDLEN characters has |
| Shell.Parse | src/utils/shell.c:96-104 | leading blanks are skipped, and exactly the empty line fails |
| Path.TokensAreComponents | src/fs/ext2/dir.c:64-75 | the tokens are the names between slashes, less newlines directly behind a slash, plus an empty one for a leading slash |
| Path.CutPath | src/fs/ext2/dir.c:59-75 | the table points at the tokens in the cut buffer; failure exactly beyond ten |
| Path.Find | src/fs/ext2/dir.c:83-104 | the first entry of that name |
| Path.WalkComposes | src/fs/ext2/dir.c:79-118 | a walk over two lists of names is the two walks in turn, or the first one if it fails |
| Path.ChdirFollowsComponents | src/fs/ext2/dir.c:79-118 | empty pieces of a path have no effect |
| Path.ChdirComposes | src/fs/ext2/dir.c:54-120 | changing to p/q is changing to p and then to q, without newlines in front of q, and stops where p stops if p fails; with more than ten tokens in all it fails at once |
| Path.PlainNames | src/fs/ext2/dir.c:64-75 | a path without slashes is one name |
| Path.OneName | src/fs/ext2/dir.c:83-116 | the first entry of that name is entered if it is a directory, and nothing is entered otherwise |
| Path.WalkVisits | src/fs/ext2/dir.c:79-118 | a walk visits the directories its names lead to, one after the other, until one cannot be entered |
| Path.PathVisits | src/fs/ext2/dir.c:54-120 | so does a path of up to ten tokens; a longer one goes nowhere |
| Path.WorkingDirectory.EnterName | src/fs/ext2/dir.c:83-116 | the directory is read from the disk, by its inode record and blocks, and the first entry of that name is entered if it is a directory; otherwise the directory stays |
| Path.WorkingDirectory.Ext2Chdir | src/fs/ext2/dir.c:54-120 | the code ends in the directory, and with the outcome, that the walk over the directories on the disk says |
| Ext2Dir.RdRecords | src/fs/ext2/dir.c:155-186 | the loop over one block fills and adds nodes as specified, zero record lengths included |
| Ext2Dir.RdDir | src/fs/ext2/dir.c:138-192 | the list built from all direct blocks present |
| Ext2Dir.ScannedIs | src/fs/ext2/dir.c:155-186 | a well-formed block puts one entry per record in the place of the last node |
| Ext2Dir.RecordReadsBack | src/fs/ext2/dir.c:156-176 | a record written as the format lays it out is read back |
| Ext2Dir.EntryIs | src/fs/ext2/dir.c:157-176 | its entry has the escaped name, the inode, and is a directory for file type 2 |
| Ext2Dir.RecordByRecord | src/fs/ext2/dir.c:178-186 | what records of zero or too great length do to the list |
| Ext2Dir.ListingIsCompleteForOneBlock | src/fs/ext2/dir.c:148-190 | the listing is all entries but the last one of every block but the last, so it is complete if and only if there is one block |
| Ext2Dir.SecondBlockOverwrites | src/fs/ext2/dir.c:148-190 | of two blocks with one entry each, one entry is listed |
| Ext2Volume.RdRecord | src/fs/ext2/ext2.c:92-97 | the inode record at the sector and index computed, or what stands in front of the buffer |
| Ext2Volume.RdBlocks | src/fs/ext2/dir.c:148-154 | the direct blocks present, each at the front of the buffer |
| Ext2Volume.RdInode | src/fs/ext2/ext2.c:83-98 | the blocks of a directory, none for other inodes |
| Ext2Volume.FoundRecord | src/fs/ext2/ext2.c:11-38 | for an inode that is found, the record read is the partition's bytes where the layout has it |
| Ext2Volume.InodeFields | include/ext2.h:42-65 | the mode and the fifteen block numbers stand in the bytes of the record where the format has them |
| Ext2Volume.BlocksAreBytes | src/fs/ext2/dir.c:148-154 | the blocks read are the partition's bytes at block number times block size |
| Ext2Volume.DirectoryIsListed | src/fs/ext2/dir.c:138-192 | such a directory is listed as its blocks stand on the partition, completely if and only if it has one block |
| Ext2Layout.GroupListIsExact | src/fs/ext2/ext2.c:18-19 | the literal list is right about a group if and only if the group is below 729 or holds no backup |
| Ext2Layout.GroupListMisses729 | src/fs/ext2/ext2.c:18-19 | the next power of three is missing |
| Ext2Layout.SectorOf | src/fs/ext2/ext2.c:21-26 | sectors and slots count the same records as blocks, for the three block sizes |
| Ext2Layout.CodeAddresses | src/fs/ext2/ext2.c:11-38 | sector and index address the record that the assumed table block gives, less whole multiples of 2^32 records |
| Ext2Layout.InodeIsFound | src/fs/ext2/ext2.c:11-38 | they address the record of the ext2 layout if and only if the inode is no multiple of the inodes per group, its group is listed, or holds no backup, or has its table at the assumed block, and the record count fits in 32 bits |
| Ext2Layout.InodeOf729IsMissed | src/fs/ext2/ext2.c:18-19 | with ten inodes per group and the table in block 5, inode 7291 is missed |
| Ext2Layout.RootInode | src/fs/ext2/ext2.c:11-38 | the root inode of a common small partition is in slot 1 of sector 10 |
| Ext2File.CopyBuffer | src/fs/ext2/dir.c:216 | the whole buffer copied byte by byte |
| Ext2File.RdDirect | src/fs/ext2/dir.c:207-218 | the direct blocks present, in order |
| Ext2File.RdIndirect | src/fs/ext2/dir.c:221-237 | the blocks of the indirect table behind them |
| Ext2File.RdSameBlock | src/fs/ext2/dir.c:254-262 | the inner loop of the doubly indirect branch copies the second-level table itself, once per slot |
| Ext2File.RdDouble | src/fs/ext2/dir.c:240-265 | and the outer loop does so for every second-level table, whatever the stray pointer shows |
| Ext2File.BlockMapLength | include/ext2.h:65 | the block map covers the direct, singly and doubly indirect blocks |
| Ext2File.NothingSkipped | src/fs/ext2/dir.c:207-237 | without holes the reading order is the block map up to the end of the singly indirect blocks |
| Ext2File.PresentAt | src/fs/ext2/dir.c:207-218 | each direct block present is read behind those in front of it, and no other ones are |
| Ext2File.DoublyRead | src/fs/ext2/dir.c:240-265 | behind them the tables that block 13 lists are read, each as often as a table has entries |
| Ext2File.BlockByte | src/fs/ext2/superblock.c:45-50 | block b holds the bytes of the partition from b times the block size on |
| Ext2File.RdFile | src/fs/ext2/dir.c:197-268 | what lands in memory, for every inode and block size |
| Ext2File.ReadableIsRead | src/fs/ext2/dir.c:197-237 | the bytes of a file of readable size without holes are those under its block map |
| Ext2File.FileIsRead | src/fs/ext2/dir.c:197-237 | in bytes: byte x in memory is byte x % blockSize of the block mapped for x / blockSize |
| Ext2Holes.HoledHoles | src/fs/ext2/dir.c:207-265 | for every size and every set of holes there is a file with just these holes |
| Ext2Holes.SmallBlocksMisread | src/fs/ext2/dir.c:211-216 | with blocks below 4096 bytes the second block of a file is misread, whatever its holes |
| Ext2Holes.DirectHoleMisread | src/fs/ext2/dir.c:207-218 | for a hole among the direct blocks other data is read |
| Ext2Holes.SingleHoleMisread | src/fs/ext2/dir.c:228-236 | for a hole in the singly indirect table block 0 is read |
| Ext2Holes.DoubleIsMisread | src/fs/ext2/dir.c:240-265 | behind the singly indirect blocks, a second-level table or nothing stands where a block belongs |
| Ext2Holes.FilesAreReadExactly | src/fs/ext2/dir.c:197-268 | for each size and set of holes, all such files are read correctly, holes as zeros, if and only if the size is readable and no hole lies below it |
| Partitions.ChainIsUnique | drivers/diskio.c:147-174 | a finite chain of extended records is determined by its first sector |
| Partitions.ChainOfBytes | drivers/diskio.c:147-174 | the chain in bytes: a link counts from the start of the chain |
| Partitions.RecordReadsBack | drivers/diskio.c:130-174 | a boot record written slot by slot is read back |
| Partitions.CurrentIsLastLinux | drivers/diskio.c:48-126 | the current partition is the last one of kind 0x83 or 0x93 |
| Partitions.PartitionList.SavePartProps | drivers/diskio.c:48-126 | one more partition, numbered consecutively, at the record's sector plus its start, with its type byte for the four kinds that have it recorded; a Linux one becomes current |
| Partitions.PartitionList.GetBootSector | drivers/diskio.c:147-174 | the recursion lists the chain's logical partitions and stops at its last record |
| Partitions.PartitionList.TraversePrimary | drivers/diskio.c:130-141 | the four primaries of a signed record, none of an unsigned one |
| Partitions.PartitionList.CheckIfExtended | drivers/diskio.c:179-190 | one slot's share of the scan, and the record looked at next |
| Partitions.PartitionList.TraverseExtended | drivers/diskio.c:192-199 | the shares of the four slots |
| Partitions.PartitionList.ReadDrive | drivers/diskio.c:209-212 | the partitions of one drive, decoded from its sectors |
| Partitions.PartitionList.ReadDiskPartitions | drivers/diskio.c:201-214 | all drives in turn, numbered on |
| Partitions.PartitionList.FindPart | src/kernel/fs.c:42-48 | lookup by number finds exactly that partition, or the unused node |
| Partitions.FirstExtendedDecides | drivers/diskio.c:192-199 | the first extended primary's chain is all that is listed, given no extended slot behind it in the chain's last record |
| Partitions.AllAreListed | drivers/diskio.c:192-199 | then the scan lists the logical partitions of all extended primaries if and only if the later ones have no signed record |
| Partitions.SecondExtendedIsLost | drivers/diskio.c:179-199 | a drive with two signed extended primaries, of which the second one's partition is lost |
| Partitions.ProperDrive | drivers/diskio.c:130-199 | four primaries, then the logical partitions of the extended one, if any, in chain order, each read from the bytes of its record; the chain begins where the extended primary does, and each link counts from there |
| Partitions.BothAreListed | drivers/diskio.c:147-199 | a drive with a chain of two records, both of whose partitions are listed |
| Fat32.ReadsFlatTable | src/fs/vfat_module/fat32.c:203-218 | sector and slot arithmetic reads the flat array of 32-bit entries |
| Fat32.MountedLinks | src/fs/vfat_module/fat32.c:221-237 | so do the links of a mounted volume |
| Fat32.FirstCluster | src/fs/vfat_module/fat32.c:230-235 | cluster 2 begins behind the boot sectors and the tables |
| Fat32.NextClusterBegins | src/fs/vfat_module/fat32.c:230-251 | every other cluster begins where the one before ends |
| Fat32.ChainIsUnique | src/fs/vfat_module/fat32.c:329-334 | a finite cluster chain is determined by its first cluster |
| Fat32.LinkIsSpecified | src/fs/vfat_module/fat32.c:216-217 | an entry is followed as the FAT32 format defines if and only if its top four bits are clear and it marks the end, if at all, by 0x0FFFFFFF |
| Fat32.ChainIsSpecified | src/fs/vfat_module/fat32.c:203-218 | a chain of the format is walked to its end if and only if its entries are such, or the last one reads as an error code |
| FatDir.BuildShortName | src/fs/vfat_module/fat32.c:304-313 | the packed 8.3 name |
| FatLayout.ShortNameIs | src/fs/vfat_module/fat32.c:304-313 | the padded base and extension are joined by a dot if there is an extension |
| FatLayout.EntryReadsBack | src/fs/vfat_module/fat32.c:259-272 | cluster and size of an entry written as the format lays it out, with cluster 2 for a directory in cluster 0 |
| FatLayout.KindIs | src/fs/vfat_module/fat32.c:265-270 | the kind for every combination of attributes |
| FatLayout.EntryBytes | src/fs/vfat_module/fat32.c:248-256 | entry g of a cluster are its bytes from 32 times g on |
| FatDir.GenerateLongName | src/fs/vfat_module/fat32.c:154-199 | the backward search for the flagged part, with every sector it reads on the way, the escaped name it collects and the buffer it leaves |
| FatDir.DirectoryList.FindLongName | src/fs/vfat_module/fat32.c:276-298 | the same with the detour for the first slot of a sector |
| FatDir.DirectoryList.ListSlot | src/fs/vfat_module/fat32.c:256-325 | one slot: what it adds to the list, the attribute remembered and the buffer left behind |
| FatDir.DirectoryList.ListSector | src/fs/vfat_module/fat32.c:254-326 | the slots of a sector in turn |
| FatDir.DirectoryList.ListCluster | src/fs/vfat_module/fat32.c:248-327 | the sectors of a cluster, starting with nothing remembered |
| FatDir.DirectoryList.RdCluster | src/fs/vfat_module/fat32.c:240-338 | the clusters of the chain, in order, and the status of the first link |
| FatListing.FoundLongName | src/fs/vfat_module/fat32.c:276-298 | the name found in front of any slot and the sector the search comes back to, for every run of parts in front of it on the disk, also across the start of the cluster |
| FatListing.LongNamesInReachAreFound | src/fs/vfat_module/fat32.c:276-298 | name and sector are the right ones if and only if the run begins in the sector of its entry or in the one before |
| FatListing.ClusterIsListed | src/fs/vfat_module/fat32.c:248-327 | a cluster lists exactly the files of its items in order, each by its long name if it has one, also one that begins in front of the cluster, and by its short name otherwise |
| FatListing.ChainIsListed | src/fs/vfat_module/fat32.c:240-338 | so does a whole chain, with names split between clusters that are neighbours on the disk |
| FatListing.FirstEntryIsShort | src/fs/vfat_module/fat32.c:245-300 | a file whose entry begins a cluster is listed by its short name, whatever the cluster before ends with |
| FatListing.LongNameIsListed | src/fs/vfat_module/fat32.c:169-192 | a run of parts that spells a name is listed as that name with its spaces escaped |
| FatLayout.LongEntryReadsBack | src/fs/vfat_module/fat32.c:169-182 | the 13 characters of a long entry written as the format lays it out are read in their order |
| FatLayout.WrittenNameIsListed | src/fs/vfat_module/fat32.c:154-199 | a name written in up to twenty such entries is listed |
| FatSplit.NeighboursAreListed | src/fs/vfat_module/fat32.c:154-199 | between neighbours on the disk every split name is listed |
| FatSplit.NameIsLost | src/fs/vfat_module/fat32.c:160-165 | on a volume whose clusters are no neighbours, or without a part in the second cluster, the name is not listed |
| FatSplit.SplitNamesAreListed | src/fs/vfat_module/fat32.c:240-338 | a split name is listed on every volume if and only if it has a part in the second cluster and the clusters are neighbours |
| FatSplit.RunOutOfReach | src/fs/vfat_module/fat32.c:160-165 | a name of 17 parts in front of the first slot of a sector is found with its first sixteen entries doubled |
| Sched.EveryTaskOnce | src/kernel/sched.c:114-128 | of any n consecutive turns exactly one is that of task j |
| Sched.PriorityTimes | src/kernel/sched.c:89-111 | the ticks of each priority |
| Sched.RoundIsFair | src/kernel/sched.c:114-128 | the stacks selected by n ticks for n tasks are those of all tasks, rotated |
| Sched.RingAdvances | src/kernel/sched.c:59-70 | moving front to end rotates the ring's contents by one |
| Sched.TurnKeepsRotating | src/kernel/sched.c:59-70 | after every turn the ring holds the created tasks rotated once more |
| Sched.FrontTask | src/kernel/sched.c:114-120 | the front task is number turns mod n and has the time of its priority |
| Sched.TaskKeepsRotating | src/kernel/sched.c:156-161 | a task stored at the end keeps the queue if and only if there is room and the end is not the last slot, because it is not wrapped |
| Sched.Scheduler.MakeTask | src/kernel/sched.c:156-161 | at any time, the new task stands behind the others in the order of their turns, with the time of its priority and no more than 32 characters of its name |
| Sched.Scheduler.Clock | src/kernel/sched.c:8-17 | the total stays 100 times the seconds plus the ticks, modulo 2^32 |
| Sched.Scheduler.FrontToEnd | src/kernel/sched.c:59-70 | one more turn |
| Sched.Scheduler.Schedule | src/kernel/sched.c:114-120 | selects task number turns mod n and keeps every task's time |
| Sched.Scheduler.TaskTimer | src/kernel/sched.c:123-128 | clock and selection at every tick |
| Sched.Scheduler.Ticks | src/kernel/sched.c:123-128 | any run of ticks selects the tasks in the order of their turns, and the total counts the ticks |

## Left out

- Port I/O, interrupts, boot code, mode switching and the hardware cursor: effects outside memory.
- Keyboard, interrupt controller and descriptor tables: small tables with easy properties.
- `src/kernel/elf.c`, module registration and the shell's commands: printing and foreign calls.
- Attribute bytes in the row log: clearing, scrolling and cursor moves say what they do to them, the log records characters only.
- The length check of `snprintf`: the code never looks at the size it is given, so the model has none; `kprintf` is modelled for texts that fit its buffer.
- Far pointers (`%F`): the flag has no effect in the code.
- Triple indirection in ext2 files, which the code does not read.
- Sizes and modes of directory entries.
- The type names of partitions, printed by the shell only.
- `fat32_mmap`, path changes on FAT32 (the same walk as for ext2) and disk read errors.
- Saved register frames of new tasks.
- `memcmp`: its count never decreases.
- FatListing.FoundLongName: for names of up to 32 parts; the format allows 20.
- Path.WorkingDirectory.Ext2Chdir: for partitions on which no directory record that is read lies outside its buffer; the superblock and group descriptor fields are parameters.
- Screen.TextScreen.Kprintf: for texts that fit its buffer.
- FatSplit.SplitNamesAreListed: for up to 16 parts in the first cluster and 15 in the second; longer ones are out of the search's reach, which FatListing.LongNamesInReachAreFound states for neighbours on the disk.
- Screen.TextScreen.SetCursorPosition: for columns whose attribute byte lies in the 32 KB text window.
- Delay.CalibrateDelayLoop: the counter starts at 1, as on the first calibration after boot.
