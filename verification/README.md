# Virtual Lisp Machine verification

A Dafny model of the emulator for the Symbolics Ivory Lisp machine, with proofs about the parts that are hard to get
right. `dafny verify dfyconfig.toml` checks everything.

Memory is an array of words, each an 8-bit tag (two bits of cdr code, six of type) and a 32-bit datum. Code that the
emulator writes as loops over arrays and registers is written here as classes and methods; each is proved to compute a
function of the state, and the theorems are about those functions.

World load files
: `LoadMaps`, `MergeWinners`, `MergeOrder`, `MergedWorlds` and `WorldMerger` merge the load map of an incremental world
  over those of its ancestors; `MergeLimits` and `UnguardedMerge` are about where the merge fails. `WorldBytes`,
  `WorldFile`, `WorldPages`, `WorldHeader` and `SavedWorlds` write a world file and read it back, down to the bytes;
  `WorldFileWriter` and `WorldFileReader` do so step by step, and `MappedWorlds` loads it into pages that come and go.

Memory
: `TaggedMemory`, `Scavenger`, `PageFaults`, `PageScanner` and `Collection` are the collector's page bits, the page
  protections and faults that follow from them, and the page scans. `TagSearch` and `BlockTransfer` are the searches
  and the block transfers. `Wads`, `MappedLoads` and `WorldMapper` create, remove and load pages.

Instruction cache
: `InstructionCache`, `InstructionFetch` and `InstructionFetcher`.

Interpreter state
: `MemoryCycles`, `Binding` and `BindingProcessor` are dynamic binding. `ControlWord`, `CallStack`, `NestedCalls`,
  `StackRoom`, `ApplyArguments`, `StackScroll` and `StackProcessor` are calls, traps, returns, apply and the stack
  cache.
  `PackedArrays` and `ArrayProcessor` are element accesses.

Addresses in `world_tools.c` and `emulator/memory.c` are computed in the 32 bits of `emulator/ivoryrep.h:32`, on which
the layout of world files rests too; in `c-emulator/emulator.c` they have the 64 bits of `c-emulator/emulator.h:12`, and
only what is stored in a word is cut to 32.

Where the code does less than it evidently intends, the model keeps the code, and a theorem says exactly when the
intent is met:

- merging load maps: `NewestWinsExactly`, `NewestWordExactly`, `NewestWorldWinsExactly`, `OverlayExactly`,
  `MergeOrderedExactly`, `TrimExactlyAtBoundaries`, `PairMergeExactly`, `SweepExactly`; `SpecialAncestorCanWin`,
  `OvershootingSpecialLetsParentWin` and `LastPageParentWins` give load maps in which the newest word loses
- saving and loading worlds: `SaveThenLoadExactly`, `NothingLostExactly`, `StuckExactly`, `RangeExactly`,
  `LoadAllExactly`, `SaveThenMapExactly`
- the collector: `EnableExactly`, `LastStepExactly`, `ScanIsSoundExactly`, `PartialStepExactly`, `RescanExactly`,
  `PartialFindsExactly`, `FlipExactly`, `EventGoesRightExactly`
- searches and blocks: `UpwardsExactly`, `DownwardsExactly`, `FirstSegmentExactly`, `WriteBlockExactly`,
  `ReadBlockExactly`, `WriteConstantBlockExactly`, `BlockReadsBackExactly`
- the instruction cache: `FillLinksExactly`, `RunsAgreeExactly`
- the interpreter: `UnbindRestoresExactly`, `SizesFitExactly`, `FinishCallExactly`, `PreTrapExactly`,
  `PullConservesExactly`, `FullExactly`, `ScrollUpKeepsExactly`, `ScrollDownKeepsExactly`

## Model

| member | source | states |
|---|---|---|
| MergeWinners.NewestWinsExactly | world_tools.c:917-1081 | at every address the foreground covers: the merged map loads the foreground's word if no special entry, and no data pages that its turn missed, are still to come for that address; otherwise an older entry decides. The foreground is in order, special entries included; in the background special entries may stand anywhere; pages end below 2^32 |
| MergeWinners.NewestWordExactly | world_tools.c:917-1081 | a newer world's page keeps its word at an address if and only if nothing shadows it there |
| MergeWinners.PagesNeverShadow | world_tools.c:917-1081 | over data pages alone the newer world wins wherever it covers |
| LoadMaps.ElsewhereKept | world_tools.c:917-1081 | the merge does not give up where the foreground ends on page boundaries and pages end below 2^32, and outside the foreground every address loads the background's word, wherever the background's special entries stand |
| LoadMaps.TrimIsSuffix | world_tools.c:1020-1050 | the part of a background entry kept above the foreground keeps its end and the file word of every address it still covers |
| MergeOrder.MergeOrderedExactly | world_tools.c:917-1081 | data page entries come out in ascending order without overlap if and only if no turn of a foreground entry misses data pages that it should have cut: a special entry above it, right behind older pages, ends a turn too early |
| LoadMaps.MergeSize | world_tools.c:920-935 | the merged map never needs more than the background entries plus twice the foreground entries that are allocated for it, unless a foreground entry ends inside the last page of memory |
| LoadMaps.CutDenotes | world_tools.c:985-1050 | cutting a background entry around a foreground entry loses and moves no word outside the foreground entry |
| MergedWorlds.NewestWorldWinsExactly | world_tools.c:877-901 | by induction over a chain of worlds: the merged map gives each address the word of the newest world covering it if nothing shadows that world's entry, and otherwise the word of an ancestor's entry |
| MergedWorlds.PageMapsMerge | world_tools.c:917-1081 | merging two maps of whole pages that end below 2^32 never gives up, and yields a sorted, disjoint, aligned map again |
| MergedWorlds.PageChains | world_tools.c:877-901 | for any number of generations of such page maps: merging succeeds, covers exactly the union, and the newest generation supplies each word |
| MergedWorlds.NewestCovers | world_tools.c:877-901 | an address has a newest source exactly when some world covers it |
| WorldMerger.MergeAMap | world_tools.c:917-1081 | the in-place two-index sweep computes the merge relation proved above, ends computed in 32 bits, and fails exactly where it gives up; within the allocated size under the condition above; every loop terminates |
| WorldMerger.MergeRound | world_tools.c:950-1060 | one pass of the sweep for the current foreground entry |
| WorldMerger.CutBackground | world_tools.c:1008-1050 | the current background entry, trimmed in place or passed over |
| WorldMerger.MergeParentLoadMap | world_tools.c:877-901 | ancestors are merged oldest first; a base world shares its own arrays as merged ones, and only those are trimmed |
| MergeLimits.TrimExactlyAtBoundaries | world_tools.c:1025-1040 | the trimmed piece covers exactly the addresses from the foreground's end on if and only if that end is on a page boundary (the slop is subtracted from the wrong side) |
| MergeLimits.PairMergeExactly | world_tools.c:955-1060 | a child's page entry merged over a parent's, anywhere in memory, is foreground over background if and only if: away from the end of memory, it does not end strictly inside the other off a page boundary; at the end of memory, where ends are computed as 0, the two do not overlap, or the parent's starts first, or the parent's alone ends there and does not start inside the child's |
| MergeLimits.OverlayExactly | world_tools.c:917-1081 | for a child's page map and an older map of any length: the merged map is foreground over background at every address if and only if nothing shadows any of the child's addresses |
| UnguardedMerge.SweepExactly | world_tools.c:950-1075 | with its unguarded reads past the last background entry, for any memory there: the sweep emits the guarded merge's map, gives up where it does, and writes to no slot, if and only if each slot looked at starts at or above the foreground entry in whose turn that is, and does not reach beyond it when it starts inside |
| UnguardedMerge.PageMapsUnserved | world_tools.c:950-1075 | for page maps, the foreground entries in whose turns a slot is looked at: those above the last background entry, or behind one that reaches its end |
| WorldBytes.WordReadBack | world_tools.c:1460-1467 | the four bytes of a word read back in the same order give the word |
| WorldBytes.BytesExactly | world_tools.c:1445-1463 | which byte of a word comes first in either order |
| WorldBytes.BytesReadBack | world_tools.c:1460-1467 | and the bytes come back from the word |
| WorldBytes.QsAreDisjoint | world_tools.c:1445-1463 | four tags before four words: distinct Qs share no byte |
| WorldBytes.SetQReads | world_tools.c:1435-1469 | a page of Qs behaves like an array: a Q written reads back and changes no other |
| WorldBytes.PageQ | world_tools.c:1328-1381 | Q n of page k is Q 256k+n of the file |
| WorldBytes.WriteQsFill | world_tools.c:1411-1469 | any number of Qs, written one after the other over any number of pages, read back in order |
| WorldBytes.HoldsFrame | world_tools.c:1257-1323 | later writes beyond the pages of the Qs leave them alone |
| WorldBytes.FileLayout | world_tools.c:1435-1469 | where the bytes of a Q are in the file: groups of 20, the four tag bytes before the four words, lowest byte first |
| WorldFile.CanonicalDenotes | world_tools.c:1090-1147 | the canonical load map covers exactly what was requested: by file pages where the last entry covering an address starts a page, elsewhere by constants equal to memory's words |
| WorldFile.CanonicalPlaced | world_tools.c:1108-1147 | page numbers are assigned one after the other, without overlap |
| WorldPages.DataBytesAt | world_tools.c:1290-1305 | word k of the data written is at byte 4k |
| WorldPages.PutEntryStores | world_tools.c:1290-1318 | after an entry's two writes its pages hold its data and its tags |
| WorldPages.WritePagesFrame | world_tools.c:1257-1323 | writing entries touches neither the header nor any page given to an earlier entry |
| WorldPages.WritePagesStores | world_tools.c:1257-1323 | after all entries have been written, each one's pages hold its data and tags |
| WorldHeader.EntryReadBack | world_tools.c:495-510 | an entry packed into three Qs is decoded to itself |
| WorldHeader.LoadMapReadBack | world_tools.c:495-510 | a load map of any length is read back entry by entry, wherever it starts |
| WorldHeader.MapLayout | world_tools.c:1235-1253 | what the three Qs of an entry say, and which number stands for which operation |
| WorldHeader.CookieBytes | world_tools.c:1205-1222 | the first four bytes of the file are the tags of its first four Qs |
| WorldHeader.HeaderReadBack | world_tools.c:198-373 | opening a file gives back the entries, page bases and sysout fields of the header that was written; a big-endian host takes its own file for a byte-swapped one |
| WorldHeader.OldHeaderReadBack | world_tools.c:198-373 | opening a file of the older version gives its entries, the page bases in Q 3, and empty sysout fields |
| WorldHeader.ReadsExactly | world_tools.c:495-510 | a load map is readable if and only if the file goes on to its last Q and every operation is one of the four |
| WorldHeader.OpensExactly | world_tools.c:198-373 | any bytes whatever are opened as a VLM file if and only if they begin with the cookie, in either byte order, and have one of the two versions and a readable load map |
| SavedWorlds.LoadDenotes | world_tools.c:530-593 | loading a map leaves at each address the word that the map denotes there; under a constant that runs to the end of memory the tag only, the datum being that of the entries that move data |
| SavedWorlds.MergedWorldLoads | world_tools.c:66-91 | loading a merged chain gives each address the word of the newest world covering it, out of that world's file, unless an entry emitted later shadows it: then that older entry's word |
| SavedWorlds.SaveFits | world_tools.c:1148-1165 | a load map that fits in 14 header blocks has page numbers and page bases that fit in their 28 and 4 bits |
| SavedWorlds.RegionsAreDisjoint | world_tools.c:1148-1165 | header, tags pages and data pages follow each other, and no two entries share a page |
| SavedWorlds.PreallocationSuffices | world_tools.c:1169-1195 | the size that the file is given beforehand has room for the data of every entry, and at most one page to spare |
| SavedWorlds.SaveHoldsHeader | world_tools.c:1169-1253 | the header is still there after all pages have been written |
| SavedWorlds.StoredReadBack | world_tools.c:1474-1530 | what a host reads back from an entry's pages: its words, byte-swapped on a big-endian host |
| WorldFile.NothingLostExactly | world_tools.c:94-194 | a request whose entries do not overlap is entered into the load map without losing an address if and only if every extent fits the 24-bit count |
| SavedWorlds.SaveThenLoadExactly | world_tools.c:94-194 | for any memory, request, extents and previous contents: the saved file opens, all its entries load, and memory is restored exactly on the requested addresses if and only if the host is little-endian or no word on a saved page changes when its bytes are swapped, memory already held the words that the 24-bit counts cut off, and the datum of a constant for the last address, unless zero, was there already or came with a page |
| MappedWorlds.LoadAllExactly | world_tools.c:530-593 | loading a map into a space of pages gets stuck if and only if a mapped entry meets, when its turn comes, a whole wad that is there without its first page; otherwise it leaves what loading into flat memory leaves |
| MappedWorlds.SaveThenMapExactly | world_tools.c:66-194 | the save and load round trip through page creation and wad mapping: when it gets stuck, and when it restores |
| WorldFileWriter.WorldWriter.CanonicalizeVLMLoadMapEntries | world_tools.c:1090-1165 | the loop over a growing array produces the canonical map and the page bases, and fails exactly when the header is too large |
| WorldFileWriter.WorldWriter.ConvertToConstants | world_tools.c:1116-1146 | an entry is replaced in a new array by one constant per word |
| WorldFileWriter.WorldWriter.WriteIvoryWorldFileNextQ | world_tools.c:1435-1469 | the page buffer updated in place, flushed when full |
| WorldFileWriter.WorldWriter.WriteIvoryWorldFilePage | world_tools.c:1411-1431 | a page with something on it is written and a blank one begun |
| WorldFileWriter.WorldWriter.WriteVLMWorldFileHeader | world_tools.c:1169-1253 | the file gets its size and then the header |
| WorldFileWriter.WorldWriter.WriteVLMWorldFilePages | world_tools.c:1257-1323 | all data page entries are written, data and then tags |
| WorldFileWriter.WorldWriter.SaveMemory | world_tools.c:94-194 | saving computes the file that the round trip is proved about |
| WorldFileReader.WorldReader.ReadIvoryWorldFilePage | world_tools.c:1328-1347 | a page is read into the buffer unless it is there already |
| WorldFileReader.WorldReader.ReadIvoryWorldFileNextQ | world_tools.c:1385-1397 | the next Q of the file, on whatever page it is |
| WorldFileReader.WorldReader.ReadLoadMapEntries | world_tools.c:495-510 | reads the load map that the parse function gives |
| WorldFileReader.WorldReader.OpenWorld | world_tools.c:198-373 | opens a VLM file of either version, or refuses it |
| WorldFileReader.LoadEntry | world_tools.c:530-593 | one entry loaded word by word |
| WorldFileReader.LoadEntries | world_tools.c:66-91 | a world's entries loaded in order |
| Wads.NewPageExactly | emulator/memory.c:51-57 | the attributes of a new page: it takes no stores without a fault the first time, and no access at all if it is created faulting |
| Wads.EnsureExactly | emulator/memory.c:81-121 | making sure of a page leaves an existing one as it is, and otherwise creates it, blank if its wad is new |
| Wads.RunKeepsWads | emulator/memory.c:81-150 | over every run of creations and removals a wad is mapped exactly when one of its pages exists |
| Wads.RunKeepsPage | emulator/memory.c:81-150 | over every run that does not remove it, an existing page keeps all its words |
| Wads.DestroyRangeExactly | emulator/memory.c:164-176 | removes exactly the pages of the run, around the end of memory if it leads there, and returns the page size times the number that existed |
| Wads.RangeExactly | emulator/memory.c:164-170 | the pages of the run are those that the words of the range are on if and only if rounding the count up does not overflow 32 bits, and the range is not an empty one inside a page |
| MappedLoads.LoadCopies | emulator/memory.c:183-262 | when loading gets to the end, memory holds the file's words on the whole range, and every other existing word is unchanged |
| MappedLoads.CopiedPage | emulator/memory.c:183-223 | the attributes of the pages that a load copies to |
| MappedLoads.MappedPages | emulator/memory.c:225-262 | and of those that it maps |
| MappedLoads.LoadKeepsWads | emulator/memory.c:183-262 | loading keeps the wad invariant |
| MappedLoads.StuckExactly | emulator/memory.c:225-245 | loading would have to map nothing, and fails, if and only if a whole wad in the range exists without its first page |
| WorldMapper.FileWordsSplit | emulator/memory.c:200-222 | data and tag offsets advance in lock step, four to one |
| WorldMapper.MappingLoadsEntry | world_tools.c:555-560 | mapping a data page entry loads what the entry denotes |
| WorldMapper.AddressSpace.EnsureVirtualAddress | emulator/memory.c:81-121 | creates a page, and a blank wad when it is the wad's first |
| WorldMapper.AddressSpace.DestroyVirtualAddress | emulator/memory.c:123-150 | removes a page, and its wad with the last one |
| WorldMapper.AddressSpace.DestroyVirtualAddressRange | emulator/memory.c:164-176 | the loop over a range's pages |
| WorldMapper.AddressSpace.MapWorldLoad | emulator/memory.c:183-262 | the copying and mapping loop refines the load proved above, and terminates |
| TaggedMemory.Heap.LeastOldIsLeast | emulator/memory.c:712-753 | the linear scan returns the lowest oldspace pointer of a range, or none exactly when there is none |
| TaggedMemory.PointerTypesExactly | emulator/memory.c:699-718 | which types are pointers |
| TaggedMemory.OldspaceExactly | emulator/memory.c:700-732 | of the two halves of an ephemeral level exactly one is oldspace, and which; other addresses go by their zone alone |
| TaggedMemory.OldIsEphemeral | emulator/memory.c:757-849 | in an ephemeral flip only ephemeral pointers can be old |
| Scavenger.ScanIsSoundExactly | emulator/memory.c:851-911 | a page-ended scan, slow or fast, returns the lowest oldspace reference in the range although it skips pages, nothing only when none is there, and keeps the promises of all page bits, if and only if it is a slow one, or ends before the last page, or finds a reference before it, or the last page is safe |
| Scavenger.LastStepExactly | emulator/memory.c:757-849 | the step on the last page, whose end wraps to 0 so that a fast scan looks at nothing: right if and only if it is a slow one or the page holds nothing to be found |
| Scavenger.EnableExactly | emulator/memory.c:505-569 | exactly the pages of a range are set up for a flip if and only if the range ends at or before the last page, or nothing in it had to be changed |
| Scavenger.RescanExactly | emulator/memory.c:866-876 | going over a page once more keeps its promises if and only if the page is passed over or holds no oldspace pointer, and on the last page no ephemeral one |
| Scavenger.StepIsSound | emulator/memory.c:851-911 | the same for one page before the last |
| Scavenger.PartialStepExactly | emulator/memory.c:757-849 | a scan stopping inside a page keeps the page's promises if and only if nothing behind the stop contradicts them |
| Scavenger.PartialFindsExactly | emulator/memory.c:757-849 | such a scan finds the first oldspace pointer if and only if it is a slow one, stops before the last eight addresses of memory, passes the page over, or finds one before them |
| Scavenger.SkippedPageIsClean | emulator/memory.c:857-864 | a page the mask lets the scan pass over holds no oldspace pointer |
| PageFaults.ProtectionExactly | emulator/memory.c:1111-1132 | when a page is inaccessible, read-only and writable, by its attribute bits, which agrees with the masks of the attribute byte |
| PageFaults.AccessExactly | emulator/memory.c:1224-1286 | an access, with its retries, goes through if and only if no fault bit in force stands against it, a store then leaving the page touched; it is never retried forever |
| PageFaults.ReadsNothingOld | emulator/memory.c:1111-1132 | a page that can be read, and whose fault is not disabled, holds no oldspace pointer |
| PageFaults.EnabledForAccess | emulator/memory.c:505-569 | what a flip lets through: nothing on the pages it fences, and on pages enabled without faults everything that their other bits allow |
| PageFaults.ScannedForAccess | emulator/memory.c:757-911 | a page that a scan has reached can be read, whatever was found, and one that it has finished is fenced no more |
| PageFaults.ScannedEphemeral | emulator/memory.c:757-849 | a whole page scanned to the end has its ephemeral bit as its words say |
| PageScanner.VirtualMemory.PointerPass | emulator/memory.c:757-800 | eight packed tags at a time find the same first oldspace pointer as the linear scan, and note ephemeral pointers exactly |
| PageScanner.VirtualMemory.SlowScanPage | emulator/memory.c:712-753 | word at a time: the first oldspace pointer, nothing changed |
| PageScanner.VirtualMemory.ScanPage | emulator/memory.c:757-849 | on every page: the same result as the slow scan; unless a pointer is returned, both transport bits are cleared and the ephemeral bit is set exactly when the page has an ephemeral pointer up to the end of the last chunk scanned; nothing is looked at when the range ends at the end of memory |
| PageScanner.VirtualMemory.UpdatePass | emulator/memory.c:800-840 | the update pass finds exactly whether its chunks hold an ephemeral pointer |
| PageScanner.VirtualMemory.VirtualMemoryScan | emulator/memory.c:851-911 | the page loop computes the scan whose soundness is decided, for every range, page attributes and protections included |
| PageScanner.VirtualMemory.VirtualMemoryRescan | emulator/memory.c:866-876 | an empty scan, slow or fast, at a page start goes over the page before, the last one from address 0 |
| PageScanner.VirtualMemory.VirtualMemoryEnable | emulator/memory.c:505-569 | the loop over the pages of any range, whose end wraps in 32 bits |
| PageScanner.VirtualMemory.AdjustProtection | emulator/memory.c:1134-1165 | protections follow attributes, by the function decided in `ProtectionExactly` |
| PageScanner.VirtualMemory.SegvHandler | emulator/memory.c:1224-1286 | the fault handler: a page that no fault bit in force stands against is touched and the access retried |
| PageScanner.VirtualMemory.AccessPage | emulator/memory.c:1224-1286 | the loop of an access and its retries ends as `AccessExactly` decides |
| PageScanner.ReadablePageIsClean | emulator/memory.c:1111-1165 | what the protections in force let the mutator read, on pages whose faults are not disabled, is not old |
| PageScanner.PackedStep | emulator/memory.c:770-790 | shifting packed tags by a byte brings up the next tag |
| Collection.FlipFencesPage | emulator/memory.c:505-569 | after a flip to any oldspace registers, a page whose fault bit is clear holds no oldspace pointer, given only what its ephemeral bit promised |
| Collection.StoreExactly | emulator/memory.c:1224-1290 | a store keeps a page's promises if and only if it stores no oldspace pointer there, or the page's fault bit is set |
| Collection.FlipExactly | emulator/memory.c:505-569 | a flip, as new registers and any calls of the enable operation, keeps every page's promises if and only if each page that no call reaches has its fault bit set or holds no oldspace pointer; it changes no word, but which pointers are old, by the new registers |
| Collection.EventGoesRightExactly | emulator/memory.c:505-911 | each flip, store, scan or rescan goes right if and only if its condition holds before it |
| Collection.WritablePagesAreTouched | emulator/memory.c:1111-1132 | a page that can be written without a fault has its bits set already |
| Collection.RunsStaySound | emulator/memory.c:505-911 | however flips, stores, scans and rescans that meet their conditions are interleaved, clear fault bits mean no oldspace pointer, on the last page as well, reads that go through on pages without a disabled fault find none, and any scan that meets its condition finds the lowest reference |
| TagSearch.FirstIsLeast | emulator/memory.c:571-672 | the linear search upwards returns the lowest match, or none exactly when there is none |
| TagSearch.LastIsGreatest | emulator/memory.c:571-672 | the linear search downwards returns the highest match |
| TagSearch.UpwardsExactly | emulator/memory.c:585-603 | the search upwards equals the linear one if and only if its range ends by the last chunk of memory, or has a match before it, or runs to the end of memory without any match |
| TagSearch.DownwardsExactly | emulator/memory.c:604-621 | the search downwards equals the linear one if and only if its range stays above the first chunk, or has a match above it, or runs to address 0 without any match |
| TagSearch.RaisedStep | emulator/memory.c:608-612 | the high byte of packed tags is the highest tag left, and a shift brings up the next |
| TagSearch.ChunkUp | emulator/memory.c:585-603 | eight packed tags: the lowest match inside the asked range |
| TagSearch.ChunkDown | emulator/memory.c:604-621 | eight packed tags from the top: the highest match inside the asked range |
| TagSearch.VirtualMemorySearchType | emulator/memory.c:624-672 | search for types, either way, for every misalignment |
| TagSearch.VirtualMemorySearchCDR | emulator/memory.c:571-621 | search for cdr codes |
| BlockTransfer.WriteStepsRead | emulator/memory.c:327-335 | word-at-a-time writes read back and change nothing else, however they lie across the stack cache |
| BlockTransfer.WriteBlockExactly | emulator/memory.c:370-404 | the three segments write what single writes would if and only if the block does not end past the cache at the end of memory, where the end wraps to 0 and nothing is moved, or that part of it was there already |
| BlockTransfer.ReadBlockExactly | emulator/memory.c:337-368 | they read what single reads would if and only if the block does not end so, or the buffer held that part |
| BlockTransfer.WriteConstantBlockExactly | emulator/memory.c:406-460 | a counting constant is written as by single writes if and only if the block does not end so, or it is 0 throughout, or the data of that part were there already; the tags are always set |
| BlockTransfer.BlockReadsBackExactly | emulator/memory.c:337-404 | a block written and read gives itself if and only if it does not end so, or the buffer held that part |
| BlockTransfer.CountingAt | emulator/memory.c:406-437 | word k of a counting constant is the constant plus k increments, wrapped to 32 bits |
| BlockTransfer.FirstSegmentExactly | emulator/memory.c:383-392 | the first segment stays within the block if and only if this is not an empty block at address 0 below the cache |
| BlockTransfer.StackCachedMemory.VirtualMemoryWriteBlock | emulator/memory.c:383-404 | the three segments, pointer by pointer, with the end of each computed in 32 bits |
| BlockTransfer.StackCachedMemory.VirtualMemoryWriteBlockConstant | emulator/memory.c:439-460 | the three segments of a counting constant |
| BlockTransfer.StackCachedMemory.VirtualMemoryWriteBlockConstantUncached | emulator/memory.c:406-437 | tags first, then data, zeros at once |
| BlockTransfer.StackCachedMemory.VirtualMemoryReadBlock | emulator/memory.c:348-368 | the three segments into a buffer |
| InstructionCache.PackedHalvesAreWord | c-emulator/dispatch.c:1628-1642 | the two instructions of a packed word are the low and the high half of its 36 instruction bits |
| InstructionCache.DecodeExactly | c-emulator/dispatch.c:1579-1642 | for which cdr codes and types each PC of a word executes a half, the whole word, or nothing legal |
| InstructionCache.NextPcExactly | c-emulator/dispatch.c:1587-1610 | each cdr code as a distance in half words, around the end of memory |
| InstructionCache.LinkStaysInLine | c-emulator/dispatch.c:1587-1665 | after the second look, the link of an instruction whose sequencing does not lead around the end of memory leads to the entry of the same line for the next PC, or is a lookup |
| InstructionCache.LinkedInLineExactly | c-emulator/dispatch.c:1587-1665 | and it is a lookup only where the next PC is in another line, or code 2 goes back within a word |
| InstructionCache.WrappingStrays | c-emulator/dispatch.c:1587-1665 | the link of one whose sequencing does leads out of the cache |
| InstructionCache.FillLinksExactly | c-emulator/dispatch.c:1553-1667 | a fill links its line correctly if and only if the line's words do not ask for sequencing around the end of the address space |
| InstructionCache.FillKeepsLinks | c-emulator/dispatch.c:1553-1667 | a fill leaves the links of all other lines correct |
| InstructionCache.FillExecutes | c-emulator/dispatch.c:1553-1667 | for each PC of its block the filled line has an entry that executes that PC's instruction and names the PC that the cdr code asks for |
| InstructionFetch.InitiallyCoherent | c-emulator/initialization.c:116-121 | the cache as initialised is coherent, whatever else its entries contain |
| InstructionFetch.FillKeepsCoherent | c-emulator/dispatch.c:1553-1667 | a fill keeps every used entry saying what memory says |
| InstructionFetch.LookupFinds | c-emulator/emulator.c:1052-1068 | a lookup ends at a used entry for its PC, for every address but the last while its line is unused |
| InstructionFetch.EntryAgrees | c-emulator/emulator.c:1023-1026 | following a used entry gives the PC that the cdr code asks for, and a link that caches exactly that PC, or out of the cache around the end of memory |
| InstructionFetch.RunsAgreeExactly | c-emulator/emulator.c:1023-1070 | for any instruction semantics, any coherent cache and any number of steps, running through the cache executes the same instructions at the same PCs, to the same state, as decoding memory afresh each time, if and only if the run does not go on around the end of memory, and the first instruction taken from the last line is not the one at the last address, which unused entries stand for, or the line was used before |
| InstructionFetcher.Fetcher.InstructionCacheMiss | c-emulator/dispatch.c:1553-1667 | the filling loop and the five patches, in place; the entry of the PC that was missed then executes what its word says |
| InstructionFetcher.Fetcher.InstructionCacheLookup | c-emulator/emulator.c:1052-1068 | lookup, with a fill on a miss |
| InstructionFetcher.Fetcher.Sequence | c-emulator/emulator.c:1020-1070 | the sequencer's loop is the cached run |
| InstructionFetcher.Fetcher.InstructionSequencer | c-emulator/emulator.c:1020-1070 | from a coherent cache the sequencer executes what memory dictates under exactly that condition |
| MemoryCycles.ActionIsTable | c-emulator/emulator.c:202-234 | the two rows of the memory action table, type by type |
| MemoryCycles.DecideExactly | c-emulator/emulator.c:236-268 | what a read or write does with a word, by the table's actions |
| MemoryCycles.TransportsExactly | c-emulator/emulator.c:202-234 | a bind read transports exactly the pointer types, but for two that trap anyway |
| MemoryCycles.SameCell | c-emulator/emulator.c:236-279 | a chain of forwarding pointers ends at the same cell after any change that spares the rest of it |
| MemoryCycles.WriteFollowsRead | c-emulator/emulator.c:202-234 | a bind write gets past every word that a bind read gets past |
| Binding.UnbindUndoesBind | c-emulator/emulator.c:607-628 | any number of bindings followed by as many unbindings restores every word outside the binding stack (cdr codes included, through forwarding chains, with cells bound repeatedly), the binding stack pointer and the cleanup bit, and asks for a preemption where those are enabled |
| Binding.NothingLeftToUnbind | c-emulator/emulator.c:4246-4256 | in a frame entered with a clear cleanup bit, unbinding is refused if and only if it asks for more than was bound |
| Binding.BindSucceedsExactly | c-emulator/emulator.c:4189-4238 | a binding goes through if and only if there is room and the read finds a cell: the store behind it cannot trap |
| Binding.UnbindRestoresExactly | c-emulator/emulator.c:4189-4256 | one binding is undone by one unbinding if and only if the bound value was of an ordinary type; the cleanup bit then comes back if and only if the locative was unmarked |
| Binding.ForwardingValueStays | c-emulator/emulator.c:4189-4207 | a bound value that forwards or traps stays in the cell |
| Binding.BindEffect | c-emulator/emulator.c:4189-4238 | binding changes two binding stack slots and the one cell that the chain ends at, which then holds the value under its own cdr code, or is as it was when no value is bound |
| Binding.BoundValueReads | c-emulator/emulator.c:4189-4207 | a bound value that reads accept is what a read through the locative finds |
| Binding.BindStores | c-emulator/emulator.c:4189-4238 | wherever the chain leads, a binding that goes through has stored its value in one cell and changed nothing else but its slots |
| Binding.UnbindStores | c-emulator/emulator.c:607-628 | an unbinding that goes through has stored the saved word in one cell and changed nothing else |
| Binding.UnbindEffect | c-emulator/emulator.c:607-628 | unbinding in any later state that kept the slots and the chain restores the cell |
| Binding.ReturnUndoesFrame | c-emulator/emulator.c:3936-3943 | a frame entered with a clear cleanup bit undoes exactly the bindings made since |
| Binding.RestoreIsUnbindN | c-emulator/emulator.c:4258-4293 | restoring the binding stack pointer is unbinding as often as was bound since |
| BindingProcessor.Processor.MemoryReadInternal | c-emulator/emulator.c:236-268 | the forwarding loop |
| BindingProcessor.Processor.BindLocative | c-emulator/emulator.c:4189-4238 | the bind instructions, with or without a value, step by step |
| BindingProcessor.Processor.UnbindOne | c-emulator/emulator.c:607-628 | one unbinding in place |
| BindingProcessor.Processor.UnbindMany | c-emulator/emulator.c:4246-4256 | UNBIND-N |
| BindingProcessor.Processor.RestoreTo | c-emulator/emulator.c:4264-4293 | %RESTORE-BINDING-STACK |
| ControlWord.DigitReadBack | c-emulator/ivory.h:402-416 | each field of a packed word is read back by shifting and masking, for any field sizes |
| ControlWord.UnpackPack | c-emulator/ivory.h:402-440 | saving the control register in a frame and loading it back loses nothing |
| ControlWord.PackedLayout | c-emulator/ivory.h:403-442 | which bits each field of the control word has |
| ControlWord.SizesFitExactly | c-emulator/emulator.c:3694-3760 | when sizes of any extent and the disposition are ored, bit by bit, into a cleared control word, the argument size is read back if and only if it fits eight bits, then the frame size is read back modulo 256, and when both fit no other field is touched |
| CallStack.FrameControlExactly | c-emulator/emulator.c:3694-3760 | the control word of a new frame: it records both sizes if and only if they fit, and then sets or clears just the fields named |
| CallStack.CleanupBitsExactly | c-emulator/ivory.h:408 | the cleanup bits are three bits of the packed word |
| CallStack.FinishCallExactly | c-emulator/emulator.c:3694-3778 | the frame of a finished call records its own extent and gives its caller's frame pointer back if and only if both sizes fit eight bits, the words passed, with an extra argument, and the caller's frame |
| CallStack.PreTrapExactly | c-emulator/traps.c:287-355 | the frame of a trap does so if and only if the trapped frame fits |
| NestedCalls.RunNests | c-emulator/emulator.c:3616-3987 | code with calls and traps nested to any depth leaves its frame (fp, lp, control word, continuation up to cdr bits, stack below) as it found it, with its values on top |
| NestedCalls.EnterNests | c-emulator/emulator.c:3616-3778 | a call, whatever code computes its arguments, reaches its callee, in a frame that holds the extra argument, if any, and the arguments' values, and that knows its caller, under a header with both cdr bits set |
| NestedCalls.CallStaysStarted | c-emulator/emulator.c:3616-3692 | while its arguments are computed the call stays marked as started, with its callee as the continuation |
| StackRoom.RunsExactly | c-emulator/emulator.c:3616-3987 | code runs inside the stack cache if and only if it fits, as a recursion over the code tells from stack positions alone: room for every push and result, frames below the limit, sizes in eight bits, handlers for traps |
| StackRoom.BodyRunsExactly | c-emulator/emulator.c:3910-3987 | so does a body, if its frame can be returned from |
| StackRoom.EntersExactly | c-emulator/emulator.c:3616-3778 | when a call gets to its callee |
| NestedCalls.CallComesBack | c-emulator/emulator.c:3762-3987 | a called frame returns to its caller, with the value of its body delivered by the disposition |
| NestedCalls.BodyReturns | c-emulator/emulator.c:3910-3987 | running a body, through any chain of calls for return, returns its result from the frame it started in |
| NestedCalls.ReturnThrough | c-emulator/emulator.c:3910-3987 | returning from a frame called for return is returning from its caller |
| NestedCalls.ReturnDependsOnFrame | c-emulator/emulator.c:3910-3987 | a return depends only on the frame header, the control word and the continuation |
| NestedCalls.PopRestores | c-emulator/emulator.c:3930-3960 | leaving a frame restores its caller's registers and control word |
| NestedCalls.HandlerExactly | c-emulator/traps.c:270-285 | which entry of the trap vector handles a trap |
| NestedCalls.TrapCalls | c-emulator/traps.c:287-355 | a trap enters that handler, in a frame that holds the index, the trapping PC and the extra arguments, in the higher trap mode and without traces; the machine halts if and only if there is no handler |
| NestedCalls.TrapComesBack | c-emulator/traps.c:287-355 | after a trap whose handler returns, whatever the handler's own calls and traps, everything is as at the trap and the PC back at the trapping instruction, but the stack pointer is where the instruction found it |
| NestedCalls.TrapIsTransparent | c-emulator/traps.c:287-355 | the machine is then the one that the instruction started on if and only if it had left alone the other registers and the stack up to where it started |
| StackProcessor.Sequencer.ExecuteStartCall | c-emulator/emulator.c:3616-3692 | START-CALL on the stack array |
| StackProcessor.Sequencer.ExecuteFinishCall | c-emulator/emulator.c:3694-3778 | FINISH-CALL with any sizes; fails where the cache would scroll or the frame start below it |
| StackProcessor.Sequencer.ExecuteReturnSingle | c-emulator/emulator.c:3910-3987 | RETURN-SINGLE, its loop over frames called for return included |
| StackProcessor.Sequencer.ExecutePreTrap | c-emulator/traps.c:287-355 | the trap frame, pushed word by word from the restart stack pointer on |
| ApplyArguments.PullSpreads | c-emulator/emulator.c:539-603 | a pull that does not come to the stack cache limit, from any cell and for any count: exactly the first elements become arguments, lp and, in eight bits, the argument size advance with them, the apply bit is cleared exactly at the list's end, and the result is the number still wanted |
| ApplyArguments.RestFollows | c-emulator/emulator.c:582-602 | the word left on top of the stack denotes all that follows the spread elements, to any depth, circular lists included |
| ApplyArguments.PullConservesExactly | c-emulator/emulator.c:539-603 | a pull comes to the limit if and only if more arguments are wanted than there is room for and the list goes on from cell to cell that far; otherwise arguments and remaining list are conserved if and only if no visited cell has a tail that is itself in the stack cache |
| ApplyArguments.FullConserves | c-emulator/emulator.c:547-554 | up to the limit nothing is lost: the elements pulled are arguments, and the next cell is the list of all that follows them |
| ApplyArguments.RejoinMisplaces | c-emulator/emulator.c:574-593 | with such a tail the pushed element stays above lp, uncounted, where the remaining list belongs |
| StackProcessor.Sequencer.PullApplyArgsQuickly | c-emulator/emulator.c:539-603 | the loop on the stack array computes the pull proved above, up to the scroll |
| StackScroll.ScrollUpKeepsExactly | c-emulator/emulator.c:146-165 | scrolling the stack cache up keeps the stack, up to any pointer on the last page, if and only if its second, third and fourth page are the same: the pages are copied down from the last one on |
| StackScroll.ScrollDownKeepsExactly | c-emulator/emulator.c:167-184 | scrolling down keeps all words below the highest page, and those of that page if and only if memory holds them |
| StackScroll.UpThenDownExactly | c-emulator/emulator.c:146-184 | scrolling up and down gives the cache back if and only if these pages are the same |
| StackScroll.FullPullExactly | c-emulator/emulator.c:547-554 | the frame and the arguments of a pull that comes to the limit survive the scroll if and only if they are |
| StackScroll.StackCache.StackCacheScrollUp | c-emulator/emulator.c:146-165 | the scroll in place, page by page |
| StackScroll.StackCache.StackCacheScrollDown | c-emulator/emulator.c:167-184 | the scroll in place, page by page |
| PackedArrays.PackingsExactly | c-emulator/ivory.h:137-140 | packings in shifts: field size, word and first bit of each element, the lowest first |
| PackedArrays.FieldIsBits | c-emulator/ivory.h:137-140 | an element's field is those bits of the word |
| PackedArrays.DepositReads | c-emulator/ivory.h:137-140 | a field deposited reads back, and every other field of the word is as before |
| PackedArrays.FieldIsShift | c-emulator/ivory.h:137-140 | loading a field is a shift by whole fields and a mask |
| PackedArrays.WordIsFull | c-emulator/ivory.h:137-138 | for packings 1 to 5 the elements fill the 32 bits exactly |
| PackedArrays.BitsExactly | c-emulator/emulator.c:430-450 | what is stored for which value in which kind of array |
| PackedArrays.ArefAfterAset | c-emulator/emulator.c:365-453 | after a store, every element that is the same field of the same cell reads back as the value: a fixnum modulo the field's range, a character itself, a boolean as whether it is not NIL; every other element reads as before; for any packing, byte offset and forwarding of the words |
| PackedArrays.ArefSucceedsExactly | c-emulator/emulator.c:376-403 | reading an element gives a value if and only if the array is not one of objects and a chain of forwarding words, of types 4 to 7 and out of oldspace, of any length, leads from the element's word to a fixnum; the value is the element's bits of that fixnum |
| PackedArrays.AsetSucceedsExactly | c-emulator/emulator.c:408-453 | a store succeeds if and only if such a chain exists and the value suits the array, and then changes no cell but the chain's end, whose tag it keeps |
| ArrayProcessor.ArrayMemory.Aref1Internal | c-emulator/emulator.c:365-403 | the read on memory |
| ArrayProcessor.ArrayMemory.Aset1Internal | c-emulator/emulator.c:408-453 | the store in place |

## Left out

Departures from the code, where the model follows the evident intent:

- `world_tools.c:987` and `world_tools.c:1008` read the background entry without checking the index. `Merge` and
  `MergeAMap` check it; `Sweep` does not, and `SweepExactly` says when that makes no difference.
- `world_tools.c:1129` copies one load map entry past the end; the copy here stops at the end.
- `world_tools.c:1375` and `world_tools.c:1523` assign to the pointer parameter instead of the Q it points to, so that
  nothing would be read back; the readers here return the Q.
- `world_tools.c:1225` reads the sysout words through an uninitialised pointer; they are a parameter here.
- `c-emulator/dispatch.c:1634` hands the whole data word to the even instruction's operand decoder; operands of packed
  instructions are not modelled.

Not modelled:

- NewestWinsExactly: the page extents of the newer map end on page boundaries, both maps' pages end below 2^32, and
  the newer map is in order; `PairMergeExactly` decides the first two for one entry over another, and
  `UncleanCutCanBeRight` shows that off boundaries more entries can make up for one another.
- NewestWordExactly: under the same conditions.
- NewestWorldWinsExactly: under the same conditions in each generation.
- MergeOrderedExactly: under the same conditions.
- PageChains: maps of whole pages that do not reach the end of memory; `LastPageParentWins` is a pair that does.
- SaveThenLoadExactly: the file is a sequence of bytes; opening, seeking, and running out of disk are not modelled,
  nor are files in Ivory format or load map entries that copy memory.
- LoadDenotes: entries that copy other memory are left out, since what they load depends on the order of loading.
- MergedWorldLoads: as there.
- LoadEntry: as there, no entries that copy memory.
- LoadEntries: as there, no entries that copy memory.
- OpenWorld: files in Ivory format are refused.
- RunsAgreeExactly: instruction memory does not change during the run, and a run ends where it would follow a link out
  of the cache.
- UnbindUndoesBind: a binding stack pointer below 2 counts as nothing to unbind; deep binding does not exist in the
  emulator.
- RunNests: stack cache scrolling, cleanup handlers, catch blocks and multiple-value returns end a run in the model;
  `RunsExactly` says which code stays inside the cache window with frame sizes that fit, and `FinishCallExactly` and
  `PreTrapExactly` that the sizes have to.
- TrapIsTransparent: traps after an instruction, and instruction exceptions, are not modelled.
- PullApplyArgsQuickly: the pull stops where the stack cache has to scroll; what the scroll does to the stack is
  `ScrollUpKeepsExactly`. The stack cache lies below the end of memory.
- PullSpreads: as there.
- RestFollows: as there.
- RejoinMisplaces: as there.
- ArefAfterAset: a word that leads to no fixnum is one kind of failure, whatever trap it is, or if it leads in a
  circle or lies past the end of memory; arrays of whole words are plain memory accesses.
- MapWorldLoad: a run of wads is mapped one wad after the other; the host's mapping is a ghost set of wads, and page
  protections are not followed here.
- MergeAMap: the merged map grows as a sequence and is copied to an array at the end.
- AdjustProtection: failures of the host's protection calls are not modelled.
- SegvHandler: the count of faults in a row at one address, which makes the eleventh a Lisp fault, and the ring of
  resident pages are not modelled.
- AccessPage: as there.
- AccessExactly: as there.
- FinishCall: the trace bits are not acted on, and a frame beyond the stack cache limit has no result.
- ExecuteFinishCall: as there.
- ReturnSingle: the trap-on-exit and cleanup paths have no result in the model, nor does a frame called for return
  whose caller's frame has size 0, which the emulator would leave over and over again.
- ExecuteReturnSingle: as there.
- ExecutePreTrap: a trap frame beyond the stack cache limit has no result.
- Signals, suspension, sockets, clocks, floating point, the opcode tables, byte-swapping a world file as a whole, and
  `c-emulator/memory.c`, a thinner copy of `emulator/memory.c`.
