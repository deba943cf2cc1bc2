# Verified model of the minimus32 SDK

A Dafny model of the stateful parts of the minimus32 SDK, an AVR software kit: the
Petit FatFs file engine with its partial-sector card layer, the timer1 software-timer
scheduler, the LUFA DFU bootloader, the 1-Wire CRC, the LCD terminal's line buffer and
the software dither. `dafny verify dfyconfig.toml` checks all of it.

The modules, bottom up:

- `Bits` gives the shifts and masks of the C code their arithmetic meaning.
- `Card` is one memory card: byte-by-byte sector reads, and the open data block that
  `disk_writep` fills, completes with zeros and programs. A fault schedule decides which
  transfers fail, so every contract covers all error returns.
- `FatVolume`, `FatTable`: geometry, the packed allocation table, cluster chains, and a
  file as the bytes of its chain.
- `FileModel`: the cursor invariant (`curr_clust` is the chain element of the byte before
  `fptr`, `dsect` the sector of `fptr`), and what reads, seeks and runs of writes mean.
- `WriteSlip`: what `pf_write` does from a position where its round-down goes wrong.
- `FileEngine`: `get_fat`, `pf_read`, `pf_lseek`, `pf_write` as methods on the `FATFS`
  fields, proved against `FileModel`, and runs of reads and of writes.
- `FatNames`, `DirModel`, `DirEngine`, `PathEngine`: 8.3 names, directory tables, search,
  `follow_path` and `pf_open`.
- `MountEngine`: `pf_mount`, from boot record to geometry.
- `BootRecord`, `DirTable`, `PathTable`: boot records, partition tables and directory entries
  encoded into bytes by the offsets of the FAT specification, and what mounting, searching and
  opening make of a card that holds them.
- `WholeCard`: `pf_mount`, `pf_open` and `pf_read` one after the other on such a card.
- `TimerTime`, `TimerSched`, `TimerLateness`: the mixed-radix clock, the callback chain as
  a value, logs of whole runs, and how late a callback can be.
- `TimerClock`: the linked list of callbacks itself, proved to behave as `TimerSched` says, and
  what the callbacks are called with.
- `FlashModel`: page-organised flash with its page buffer.
- `DfuModel`: the bootloader as a state machine on values: one step and one reply per
  control request. `DfuSecure`, `DfuMemory` and `DfuExit` prove what holds of its steps and
  of every run: secure mode, the memories, and the way out of the main loop. `DfuHost` says
  the same in the bytes that the host sends and gets.
- `Dfu`: the bootloader as the code has it, static variables updated by functions and
  loops, each method proved equal to its step of the state machine.
- `OneWireCrc`, `Terminal`, `Dither`: the three small cores.

Five properties that one would expect do not hold of the code as it is. Each is kept as
the code has it and given with the exact condition under which it does hold:

- A fresh `pf_write` rounds `fptr` down to a sector boundary without moving `curr_clust`
  back. The sector it then finds is the right one if and only if `fptr` is not strictly
  inside the first sector of a cluster after the first (`FileModel.RoundDownExact`);
  otherwise the write goes exactly one cluster too far (`FileModel.RoundDownWrong`,
  `WriteSlip.SlipContent`). `WriteSlip.SlipExample` is such a write: it succeeds, and the
  byte meant for position 512 of the file is at 1024.
- A timer deadline is the registration time plus the delay at every time of registration
  if and only if `sec < 65535` or `msec == 0` (`TimerTime.DeadlineExact`): a carry out of
  the milliseconds wraps the 16-bit `sec`. The proof names the failing time, 999 ms.
- Printing an entry's 11-byte name and reading it back gives the same bytes if and only
  if each part is upper-case name characters followed by spaces only
  (`FatNames.CreateUndoesPrint`). An entry in lower case is one that changes
  (`FatNames.LowerCaseLost`).
- The bootloader's chip erase leaves the application section blank if and only if the
  page buffer was empty, because every page erase is followed by a page write
  (`FlashModel.ClearedBlank`). A download broken off in mid-page leaves words there: the
  section is blank after the erase if and only if those words, and what lay behind them in
  the page buffer, are (`DfuMemory.BrokenThenErase`), and `DfuMemory.EraseLeavesWord` is a
  case where they are not.
- A complete download leaves its pages blank behind its words if and only if there are no
  words, or they fill the first page, or the page buffer was blank behind them
  (`DfuMemory.ProgramsExactly`). A download broken off earlier breaks this:
  `DfuMemory.StaleExample` is one of two words, followed by a download of one word that ends
  up with the second of them behind it. The words themselves are always as downloaded
  (`DfuMemory.FlashRoundTrip`).

Two bounds are shown to be tight: with periods of `p` instead of `p + 1` ms the `p`
callbacks before another one starve it for ever, for every `p`
(`TimerLateness.BoundIsTight`), and for every dither maximum above the documented 32768
some legal run loses power (`Dither.LimitIsTight`).

## Model

| member | source | states |
|---|---|---|
| `Card.MemoryCard.ReadPart` | src/utils/petit_fat_fs/mmc_diskio.c:165-217 | delivers exactly the asked bytes of the sector to the buffer or the byte stream, and clocks exactly 514 bytes after the data token; nothing is delivered on a fault |
| `Card.MemoryCard.InitiateWrite` | src/utils/petit_fat_fs/mmc_diskio.c:245-251 | opens a data block on the sector with 512 bytes to go |
| `Card.MemoryCard.SendData` | src/utils/petit_fat_fs/mmc_diskio.c:237-243 | appends to the open block at most the bytes that still fit and counts them down |
| `Card.MemoryCard.FinalizeWrite` | src/utils/petit_fat_fs/mmc_diskio.c:252-261 | zero-fills the block and programs the sector, or reports the fault |
| `Card.DeliveredJoin` | src/utils/petit_fat_fs/mmc_diskio.c:165-217 | two deliveries one behind the other are one delivery of the joined bytes |
| `FatVolume.Clust2SectExact` | src/utils/petit_fat_fs/pff.c:400-411 | a sector exactly for cluster numbers from 2 to n_fatent - 1, 0 otherwise, in spite of the 16-bit wrap |
| `FatVolume.ClustersDisjoint` | src/utils/petit_fat_fs/pff.c:400-411 | distinct clusters are disjoint blocks inside the data area |
| `FatVolume.FatFrame` | src/utils/petit_fat_fs/pff.c:353-391 | images that agree before the data area have the same table entries |
| `FatVolume.FileSectorInjective` | src/utils/petit_fat_fs/pff.c:400-411 | distinct 512-byte parts of a file lie in distinct sectors |
| `FatVolume.WalkIsChain` | src/utils/petit_fat_fs/pff.c:353-391 | following k table links from the first cluster leads to the k-th of the chain |
| `FatTable.Fat12Decodes` | src/utils/petit_fat_fs/pff.c:353-391 | decoding undoes 12-bit packing for every entry, odd or even, also across a sector boundary |
| `FatTable.Fat16Decodes` | src/utils/petit_fat_fs/pff.c:353-391 | decoding undoes 16-bit packing for every entry |
| `FileEngine.FileSystem.ReadTableWord` | src/utils/petit_fat_fs/pff.c:369-377 | the two table bytes, read separately when they straddle sectors |
| `FileEngine.FileSystem.GetFat` | src/utils/petit_fat_fs/pff.c:353-391 | the entry of the cluster, 1 for numbers out of range and exactly on a fault |
| `FileModel.ChosenIsSector` | src/utils/petit_fat_fs/pff.c:878-889 | from a good cursor on a sector boundary, the cluster step and the sector computation arrive at the sector that holds fptr |
| `FileModel.CursorAdvance` | src/utils/petit_fat_fs/pff.c:890-895 | moving fptr inside its sector keeps the cursor invariant |
| `FileModel.CursorIsWalk` | src/utils/petit_fat_fs/pff.c:855-903 | the cached cluster is the one that walking the chain from org_clust reaches |
| `FileEngine.FileSystem.FindSector` | src/utils/petit_fat_fs/pff.c:878-889 | fails on a fault; from a good cursor it fails only then, and otherwise the cursor stands on the sector of fptr |
| `FileEngine.FileSystem.ReadStep` | src/utils/petit_fat_fs/pff.c:877-896 | one pass delivers at most the rest of the sector; from a good cursor these are the file's bytes up to the sector's end or the request's end, and it fails only on a fault |
| `FileEngine.FileSystem.Read` | src/utils/petit_fat_fs/pff.c:855-903 | for any open file: delivers got, of the length by which fptr advances, and either all of min(btr, fsize - fptr) or an error that closes the file; for a file with a good chain and cursor got is exactly contents[fptr .. fptr + br], the error comes exactly on a fault, and the cursor stays good; the error codes |
| `FileModel.ReadTwice` | src/utils/petit_fat_fs/pff.c:855-903 | a read that goes on where another ended: both together are one read of the sum |
| `FileEngine.FileSystem.ReadAll` | src/utils/petit_fat_fs/pff.c:855-903 | reads of any sizes one after the other forward together exactly what one read of their sum would; on a fault a true prefix |
| `WholeCard.FollowsIsChain` | src/utils/petit_fat_fs/pff.c:353-391 | clusters that the entries of a packed 12- or 16-bit table lead through are a chain of the volume |
| `WholeCard.ContentBytes` | src/utils/petit_fat_fs/pff.c:400-411 | byte i of a file is byte i % 512 of sector database + (c - 2) csize + i / 512 % csize, c being number i / 512 / csize of its clusters |
| `WholeCard.ReadFile` | src/utils/petit_fat_fs/pff.c:737-903 | pf_mount, pf_open and pf_read on a card with encoded boot record, table, directories and file: exactly the file's bytes come into the buffer |
| `FileModel.SeekResume` | src/utils/petit_fat_fs/pff.c:1001-1006 | when the target's cluster is not before the current one, the mask yields the start of the current chain cluster, which lies before the target |
| `FileModel.SeekMore` | src/utils/petit_fat_fs/pff.c:1011-1017 | while more than a cluster is left the chain has a next cluster, so the loop never runs off it |
| `FileModel.SeekCursor` | src/utils/petit_fat_fs/pff.c:1018-1022 | the sector computed from the chain cluster of the target restores the cursor invariant there |
| `FileEngine.FileSystem.Lseek` | src/utils/petit_fat_fs/pff.c:984-1029 | for any open file: fptr = min(ofs, fsize) or an error that closes the file; for a file with a good chain the error comes exactly on a fault and the cursor is good at the new position, so a following read returns the bytes from there; the error codes |
| `FileModel.RoundDownExact` | src/utils/petit_fat_fs/pff.c:937-938 | after the round-down the next cluster step finds the right cluster if and only if fptr is not strictly inside the first sector of a later cluster |
| `FileModel.RoundDownWrong` | src/utils/petit_fat_fs/pff.c:937-938 | otherwise it finds the sector exactly one cluster further on, or none in the last cluster |
| `FileModel.RoundDownCursor` | src/utils/petit_fat_fs/pff.c:937-938 | under that condition the cursor invariant survives the round-down |
| `WriteSlip.SlipCursor` | src/utils/petit_fat_fs/pff.c:937-938 | otherwise the cursor is that of the file without its first cluster |
| `FileModel.ChosenIsNone` | src/utils/petit_fat_fs/pff.c:944-957 | behind the last cluster of a chain the code finds no sector |
| `WriteSlip.SlipPlan` | src/utils/petit_fat_fs/pff.c:937-967 | such a write is a write to the chain without its first cluster, and has room there exactly when that chain covers it |
| `WriteSlip.SlipContent` | src/utils/petit_fat_fs/pff.c:937-967 | the file's contents then change exactly as by a write one cluster further on |
| `WriteSlip.SlipExample` | src/utils/petit_fat_fs/pff.c:937-967 | a card, a file of three clusters and a one-byte write at 600, a bad start, that leaves the byte at 512 alone and puts its data at 1024 |
| `FileModel.SendSettles` | src/utils/petit_fat_fs/pff.c:958-966 | sending a part into the open block means, once the block completes, patching that part of the file's sector and zeroing the rest |
| `FileModel.WriteRunContent` | src/utils/petit_fat_fs/pff.c:943-967 | a write of any length replaces exactly its range and zero-fills the rest of the last sector touched |
| `FileModel.WriteRunFrame` | src/utils/petit_fat_fs/pff.c:943-967 | no sector changes but those of the positions written |
| `FileModel.WriteRunKeepsChain` | src/utils/petit_fat_fs/pff.c:943-967 | a write leaves the allocation table and every chain alone |
| `FileModel.WriteRunAppend` | src/utils/petit_fat_fs/pff.c:943-967 | two writes one behind the other, wherever in a sector the first ends, leave the card exactly as one write of the joined data |
| `FileModel.WroteJoin` | src/utils/petit_fat_fs/pff.c:913-974 | so two successive pf_write calls are one of the joined data, as far as it fits |
| `FileModel.RunHeld` | src/utils/petit_fat_fs/pff.c:913-974 | after any run of writes the file holds its old contents with the data in place, as far as it fits, and the rest of the last sector zero, and every sector not passed over is unchanged |
| `FileModel.RunBytes` | src/utils/petit_fat_fs/pff.c:913-974 | the same position by position: the byte of the data, as far as it fits, zero behind it in its last sector, and elsewhere what was there |
| `FileModel.UnderwayFails` | src/utils/petit_fat_fs/pff.c:969-972 | when a pass fails the card holds whole sectors of what was sent, all but at most the last one |
| `FileModel.KeptJoin` | src/utils/petit_fat_fs/pff.c:913-974 | what the card holds of a write that goes on where another ended is what it holds of the joined data |
| `FileModel.KeptLeaves` | src/utils/petit_fat_fs/pff.c:969-972 | a write, refused or not, has left the sectors alone that it did not pass over |
| `FileEngine.FileSystem.WriteStep` | src/utils/petit_fat_fs/pff.c:944-966 | one pass sends what the sector takes; on any file that the cursor is good for the settled image is the old one with that part patched, and behind its chain the pass fails; the card's sectors change only when a sector is completed, and a failed pass leaves the card idle |
| `FileEngine.FileSystem.WriteLoop` | src/utils/petit_fat_fs/pff.c:940-967 | stops short of the data only on a fault or behind the chain; then the card is idle and holds whole sectors of the data, all but at most the last one sent; otherwise the settled image is the whole run's |
| `FileEngine.FileSystem.Finalize` | src/utils/petit_fat_fs/pff.c:932-935 | programs the open sector: the card then holds the settled image and reads may follow; refused, its sectors are as they were |
| `FileEngine.FileSystem.Write` | src/utils/petit_fat_fs/pff.c:913-974 | a step of such a run or a fault; bw is min(btw, fsize - start), start being fptr or, on a fresh write, fptr rounded down to 512; from a bad start it succeeds exactly when there is no fault and the chain without its first cluster has room, and then has written there; on a fault the file is closed, the card idle and of the same size, and it holds whole sectors of the data, all but at most the last one sent; while a sector is open the card's remaining count is 512 - fptr % 512; the error codes |
| `FileEngine.FileSystem.WriteAll` | src/utils/petit_fat_fs/pff.c:913-974 | any run of writes and then one without data: unless a transfer is refused the file holds the old contents with the joined data in place, as far as it fits, and zeros in the rest of the last sector, also said position by position, and every sector not passed over is unchanged; if one is refused the card is idle and holds whole sectors of the joined data, all but at most the last one sent |
| `FatNames.CreateName` | src/utils/petit_fat_fs/pff.c:567-607 | the 11 bytes are the padded upper-cased body and extension of the path segment, none of them a lower-case letter, byte 11 tells whether it is the last, and the answer is the next segment's start |
| `FatNames.SegmentMeaning` | src/utils/petit_fat_fs/pff.c:567-607 | which characters of any path the segment takes, in plain numbers: up to eight above the space that are neither . nor /, and behind a . up to three more |
| `FatNames.SfnBytes` | src/utils/petit_fat_fs/pff.c:567-607 | byte k of the 11, in plain numbers |
| `FatNames.GetFileName` | src/utils/petit_fat_fs/pff.c:616-649 | the buffer holds the printed name and its terminator |
| `FatNames.PrintMeaning` | src/utils/petit_fat_fs/pff.c:616-649 | the printed name byte by byte: up to the first space in each part, a dot if there is an extension, E5 for 05 in the body |
| `FatNames.PrintUndoesCreate` | src/utils/petit_fat_fs/pff.c:616-649 | printing the 11-byte form of any valid segment gives the upper-cased segment |
| `FatNames.CreateUndoesPrint` | src/utils/petit_fat_fs/pff.c:567-607 | re-reading a printed entry gives the same 11 bytes if and only if they are canonical |
| `FatNames.LowerCaseLost` | src/utils/petit_fat_fs/pff.c:567-649 | an entry called a prints as a and is read back as A |
| `FatNames.SfnCanonical` | src/utils/petit_fat_fs/pff.c:567-607 | whatever create_name produces is canonical |
| `DirModel.DecidedOnce` | src/utils/petit_fat_fs/pff.c:493-518 | every search is decided at one index of at most 65536, even on a cyclic or damaged chain |
| `DirModel.DirIsFile` | src/utils/petit_fat_fs/pff.c:448-484 | on an undamaged chain the entries are the 32-byte records of the chain's bytes and the table ends with it |
| `DirModel.NextCluster` | src/utils/petit_fat_fs/pff.c:469-477 | stepping over a cluster border follows the table entry, and ends or fails exactly as that entry says |
| `DirEngine.Directory.Rewind` | src/utils/petit_fat_fs/pff.c:420-439 | stands on entry 0, or fails exactly when there is no such place |
| `DirEngine.Directory.Next` | src/utils/petit_fat_fs/pff.c:448-484 | steps to the next entry of the fixed root area or of the chain; end, damage and faults are told apart |
| `DirEngine.Directory.Look` | src/utils/petit_fat_fs/pff.c:506-513 | classifies the current entry: the zero terminator, a match that is no volume label, or neither |
| `DirEngine.Directory.Find` | src/utils/petit_fat_fs/pff.c:493-518 | the first matching entry before the terminator, FR_NO_FILE exactly when there is none, FR_DISK_ERR on a fault or a damaged chain |
| `DirTable.TableRead` | src/utils/petit_fat_fs/pff.c:420-484 | the root area and every undamaged chain are read as their 32-byte records in order, record i being bytes 32 i to 32 i + 31, up to n_rootdir, to the chain's end or to 65536, and no further |
| `DirTable.SearchFinds` | src/utils/petit_fat_fs/pff.c:493-518 | in a table of records the search is decided at the first record with those 11 bytes and bit 3 of byte 11 clear, if no record before it starts with 0 |
| `DirTable.SearchFails` | src/utils/petit_fat_fs/pff.c:493-518 | if there is none the search ends at the record that starts with 0 or behind the last |
| `DirTable.FindRecord` | src/utils/petit_fat_fs/pff.c:493-518 | dir_find in a table of records: that record, or FR_NO_FILE exactly if there is none |
| `PathEngine.SplitJoined` | src/utils/petit_fat_fs/pff.c:658-695 | splitting a path made of valid names gives those names |
| `PathEngine.ResolveJoined` | src/utils/petit_fat_fs/pff.c:658-695 | such a path, behind any spaces and with or without a slash, up to its end or a character not above the space, resolves to what descending through its names finds |
| `PathEngine.ResolveRoot` | src/utils/petit_fat_fs/pff.c:666-673 | a path with no name leads to the root directory |
| `PathEngine.LookupIs` | src/utils/petit_fat_fs/pff.c:677-690 | one name is found where the search of its directory is decided |
| `PathEngine.FindName` | src/utils/petit_fat_fs/pff.c:680-685 | reports that lookup; a missing name is FR_NO_PATH unless it is the last |
| `PathEngine.FollowNames` | src/utils/petit_fat_fs/pff.c:676-692 | reports the descent through the directories; terminates because every segment uses up characters |
| `PathEngine.FollowPath` | src/utils/petit_fat_fs/pff.c:658-695 | reports what the path resolves to, for every path and every card contents |
| `PathEngine.Open` | src/utils/petit_fat_fs/pff.c:819-845 | open exactly when the path resolves to an entry that is no directory, with that entry's first cluster and size, fptr 0 and the supplied chain, ready to read when that chain is good; each error code |
| `PathTable.EntryParsed` | src/utils/petit_fat_fs/pff.c:295-316 | a directory entry encoded from name, attributes, first cluster and size is read back as those: bit 4 of the attributes, cluster and size |
| `PathTable.DescendThrough` | src/utils/petit_fat_fs/pff.c:658-695 | a path through directory entries continues in the table at the last one's encoded cluster |
| `PathTable.DescendEnds` | src/utils/petit_fat_fs/pff.c:676-692 | under the last name the path leads to its entry or is FR_NO_FILE; a missing name or a file before that is FR_NO_PATH |
| `PathTable.DenotedDescend` | src/utils/petit_fat_fs/pff.c:658-695 | both together, for every path into a tree of encoded directories |
| `PathTable.OpenNamed` | src/utils/petit_fat_fs/pff.c:819-845 | opening a path of valid names in such a tree: exactly the encoded first cluster and size of the file there, FR_NO_FILE for a directory or nothing, FR_NO_PATH where a name on the way is missing or a file |
| `MountEngine.CheckFs` | src/utils/petit_fat_fs/pff.c:704-720 | classifies the sector by its signature and FAT string; 3 exactly if there is no such sector or the first transfer is refused, and wrong otherwise only as 1 for a FAT boot record when the second is |
| `MountEngine.FindVolume` | src/utils/petit_fat_fs/pff.c:752-764 | sector 0 or the first partition's boot sector; under faults a FAT boot record in any case, the right one unless the second transfer was refused and sector 0, itself FAT, lists a partition; no other refusal goes unnoticed but that of the partition's FAT string |
| `MountEngine.Mount` | src/utils/petit_fat_fs/pff.c:737-810 | without faults mounts exactly the boot records with fewer than 65525 clusters; with or without, FR_OK means that such a boot record was taken, which one under a refused transfer, and that the geometry is its; each error code |
| `BootRecord.RecordParsed` | src/utils/petit_fat_fs/pff.c:704-810 | a boot record encoded by the offsets of the FAT specification is read back as its fields, with both widths of total sectors and table size, and recognised by its signature and FA at byte 54 |
| `BootRecord.NoRecord` | src/utils/petit_fat_fs/pff.c:704-720 | without the two signature bytes a sector is no boot record |
| `BootRecord.PartitionParsed` | src/utils/petit_fat_fs/pff.c:752-764 | an encoded partition table leads to the first partition's first sector |
| `BootRecord.FormattedOffers` | src/utils/petit_fat_fs/pff.c:737-810 | a card with a consistent encoded boot record of n clusters, in sector 0 or behind a partition table, offers exactly the geometry its fields describe, sound if n is below 65525 |
| `BootRecord.MountRecord` | src/utils/petit_fat_fs/pff.c:737-810 | pf_mount of such a card: FR_OK exactly for n below 65525, and that geometry |
| `MountEngine.NoWrap` | src/utils/petit_fat_fs/pff.c:771-783 | no 32-bit computation wraps on a consistent boot record |
| `MountEngine.Counted32` | src/utils/petit_fat_fs/pff.c:768-809 | whatever the boot record says, areas and clusters are counted modulo 2^32 |
| `MountEngine.GeometryMeaning` | src/utils/petit_fat_fs/pff.c:768-809 | FAT12 exactly below 4085 clusters, refused exactly from 65525 on, the areas one after the other inside the partition, and the geometry sound |
| `TimerTime.TotalFromMs` | src/board_support/timer1_clock.c:61-78 | the normal form of n milliseconds denotes n |
| `TimerTime.FromMsTotal` | src/board_support/timer1_clock.c:61-78 | a normal time is the normal form of the milliseconds it denotes |
| `TimerTime.AdvanceTotal` | src/board_support/timer1_clock.c:61-78 | the carry chain of a tick adds one millisecond and keeps the normal form, up to the day counter's wrap |
| `TimerTime.ClockAfterTicks` | src/board_support/timer1_clock.c:54-78 | after n ticks from init the clock denotes n ms |
| `TimerTime.SecondsAfterTicks` | src/board_support/timer1_clock.c:54-78 | and freerunning_sec is n / 1000 modulo 65536 |
| `TimerTime.FieldsAfterTicks` | src/board_support/timer1_clock.c:54-78 | after n ticks every field in plain numbers: n % 1000 ms, n / 1000 % 60 s and so on, also beyond the wrap of the day counter |
| `TimerTime.DueIsNumeric` | src/board_support/timer1_clock.c:15-34 | the field-by-field due test is the comparison of the two totals |
| `TimerTime.CarryChainIsDeadline` | src/board_support/timer1_clock.c:198-248 | the carries of a registration give the normal form of the deadline |
| `TimerTime.DeadlineExact` | src/board_support/timer1_clock.c:207-213 | the deadline is now + 1000 sec + msec at every time if and only if sec < 65535 or msec = 0 |
| `TimerSched.TakeAgrees` | src/board_support/timer1_clock.c:36-48 | taking up a due callback is allowed and leaves chain and armed callbacks in agreement |
| `TimerSched.RunLawful` | src/board_support/timer1_clock.c:15-255 | over every run of ticks, registrations and removals no callback fires unless it is armed and its delay has passed, and the chain holds exactly the armed callbacks |
| `TimerSched.FiringsApart` | src/board_support/timer1_clock.c:15-91 | consecutive firings of a recurring callback are at least a period apart |
| `TimerSched.OneShotOnce` | src/board_support/timer1_clock.c:36-48 | a one-shot callback fires at most once per registration |
| `TimerSched.NotArmedNotFired` | src/board_support/timer1_clock.c:15-91 | a callback out of the chain does not fire before it is registered again |
| `TimerLateness.FiresByT` | src/board_support/timer1_clock.c:80-84 | each tick that passes over a due callback uses up one of those before it |
| `TimerLateness.BoundedLateness` | src/board_support/timer1_clock.c:54-91 | with p callbacks before it, the recurring ones of period at least p + 1 ms, a callback fires at most p ticks after its deadline and never before it |
| `TimerLateness.Starvation` | src/board_support/timer1_clock.c:80-84 | if the p callbacks before another one recur with periods of at most p ms and are all due, it never fires, however long the run |
| `TimerLateness.BoundIsTight` | src/board_support/timer1_clock.c:80-84 | for every p the chain of p callbacks of period p, all due, starves the next |
| `TimerClock.Clock.constructor` | src/board_support/timer1_clock.c:93-101 | time zero and an empty chain |
| `TimerClock.Clock.InsertIntoChain` | src/board_support/timer1_clock.c:135-150 | no change if the callback is in the list, otherwise appended at its end; the list stays acyclic and without repetition |
| `TimerClock.Clock.UnlinkAfter` | src/board_support/timer1_clock.c:182-186 | takes exactly the next node out and keeps the others' order |
| `TimerClock.Clock.Unlink` | src/board_support/timer1_clock.c:153-189 | removes exactly that callback if it is there, from the head or the middle |
| `TimerClock.Clock.CarriedTime` | src/board_support/timer1_clock.c:198-248 | the fields computed carry by carry are in normal form and denote the deadline |
| `TimerClock.Clock.SetDeadline` | src/board_support/timer1_clock.c:198-253 | the fields denote now plus the delay |
| `TimerClock.Clock.RegisterCallback` | src/board_support/timer1_clock.c:191-255 | the list denotes the scheduler's chain after a registration |
| `TimerClock.Clock.UnregisterCallback` | src/board_support/timer1_clock.c:153-189 | the list denotes the chain after a removal |
| `TimerClock.Clock.Check` | src/board_support/timer1_clock.c:15-51 | due exactly when the deadline has come; then re-armed in place or removed; what the callbacks were given to call stays as it was |
| `TimerClock.Clock.AdvanceWall` | src/board_support/timer1_clock.c:61-78 | one millisecond later |
| `TimerClock.Clock.TakeUpOne` | src/board_support/timer1_clock.c:80-84 | the first due callback in list order, and only that one, is taken up; the callbacks keep what they were given |
| `TimerClock.Clock.Interrupt` | src/board_support/timer1_clock.c:54-91 | the whole interrupt is the scheduler's tick, and it calls the callback with the action and data it had been given |
| `TimerClock.Clock.Run` | src/board_support/timer1_clock.c:15-255 | any run of calls and interrupts takes the linked list through the scheduler's states and calls the callbacks of its log, each with the action and data of its last registration; from an empty list, clear of the two wraps, that log is lawful |
| `TimerClock.CalledAsRegistered` | src/board_support/timer1_clock.c:15-255 | in every run from an empty list each call is made by an interrupt for the last registration of that callback before it, with that registration's action and data |
| `TimerClock.LastRegistration` | src/board_support/timer1_clock.c:191-255 | what a callback has been given is what its last registration gave it |
| `TimerClock.Clock.InterruptsReach` | src/board_support/timer1_clock.c:54-91 | in a run of interrupts the p-th callback of the list, behind ones of period at least p + 1 ms, is called within p interrupts of its deadline and not before; every callback is called with its own action and data |
| `FlashModel.ProgrammedAt` | LUFA_130303/Bootloaders/DFU/BootloaderDFU.c:309-348 | byte by byte: the data, 0xFF to the end of its last page, every other page unchanged |
| `FlashModel.WrittenExact` | LUFA_130303/Bootloaders/DFU/BootloaderDFU.c:309-348 | what the loop writes is the data with blanks to the end of its last page if and only if there is no data, or it fills the first page, or the page buffer was blank behind it |
| `FlashModel.RunWordInside` | LUFA_130303/Bootloaders/DFU/BootloaderDFU.c:309-348 | a word inside a page keeps committed pages, erased page and page buffer in step with the data |
| `FlashModel.RunWordFull` | LUFA_130303/Bootloaders/DFU/BootloaderDFU.c:329-346 | so does the word that fills a page, with its commit and the erase of the next page |
| `FlashModel.RunWordLast` | LUFA_130303/Bootloaders/DFU/BootloaderDFU.c:329-334 | and the last word, with its commit |
| `FlashModel.RunFinish` | LUFA_130303/Bootloaders/DFU/BootloaderDFU.c:331-335 | the last, possibly partial page completes the range, with what the page buffer held behind the data if that ends in the first page |
| `FlashModel.ReadBack` | LUFA_130303/Bootloaders/DFU/BootloaderDFU.c:418-456 | reading a written range gives its data, whatever the page buffer held before |
| `FlashModel.EraseFirst` | LUFA_130303/Bootloaders/DFU/BootloaderDFU.c:643-655 | erasing the first page beforehand readies it and changes nothing else about the outcome |
| `FlashModel.ClearedBlank` | LUFA_130303/Bootloaders/DFU/BootloaderDFU.c:747-767 | after the chip erase everything below the boot section is 0xFF if and only if the page buffer was empty |
| `DfuMemory.LoopOnCourse` | LUFA_130303/Bootloaders/DFU/BootloaderDFU.c:309-348 | after k words of the loop flash and page buffer are where the run stands, for every range that fits and every page buffer |
| `DfuMemory.FlashDataWhole` | LUFA_130303/Bootloaders/DFU/BootloaderDFU.c:293-355 | a range whose words all come ends up written with them |
| `DfuMemory.FlashDataBroken` | LUFA_130303/Bootloaders/DFU/BootloaderDFU.c:293-355 | when the host goes away: whole committed pages, one blank page behind them, and in the page buffer the words of the page being filled over what was there |
| `DfuMemory.ProgramsFlash` | LUFA_130303/Bootloaders/DFU/BootloaderDFU.c:237-389 | one download request, command and data, whatever the page buffer holds: flash is the old one with the addressed words written, or, broken off, as just said; EEPROM and the rest as before |
| `DfuMemory.ProgramsExactly` | LUFA_130303/Bootloaders/DFU/BootloaderDFU.c:237-389 | the pages of a complete download are blank behind its words if and only if there are none, or they fill the first page, or the page buffer was blank behind them |
| `DfuMemory.ProgramsEeprom` | LUFA_130303/Bootloaders/DFU/BootloaderDFU.c:237-389 | the same for EEPROM: the addressed bytes are the streamed ones, as far as the stream goes, all others unchanged; writing empties the page buffer |
| `DfuMemory.FlashRoundTrip` | LUFA_130303/Bootloaders/DFU/BootloaderDFU.c:220-536 | programming a page-aligned range, selecting it and uploading it returns exactly the downloaded words, whatever the page buffer held |
| `DfuMemory.EepromRoundTrip` | LUFA_130303/Bootloaders/DFU/BootloaderDFU.c:220-536 | the same for EEPROM, with flash unchanged |
| `DfuMemory.Erases` | LUFA_130303/Bootloaders/DFU/BootloaderDFU.c:747-767 | the erase request lifts secure mode and clears the application section, byte by byte; the section is blank if and only if the page buffer was empty; the boot section, EEPROM, status and addresses as before |
| `DfuMemory.Checks` | LUFA_130303/Bootloaders/DFU/BootloaderDFU.c:676-702 | the blank-check request changes no memory; on a blank application section it reports nothing, otherwise error state, status and the address of the first byte in use |
| `DfuMemory.EraseThenCheck` | LUFA_130303/Bootloaders/DFU/BootloaderDFU.c:676-767 | the blank check behind an erase finds nothing (no error, status and address as before) if and only if the page buffer was empty or there is no application section, and otherwise reports the first byte in use of that buffer |
| `DfuMemory.CheckThenUpload` | LUFA_130303/Bootloaders/DFU/BootloaderDFU.c:390-488 | after a check that found a byte in use the upload returns its address |
| `DfuMemory.BrokenThenErase` | LUFA_130303/Bootloaders/DFU/BootloaderDFU.c:293-355 | a download that broke off and then the erase: the application section is blank if and only if the words of the unfinished page are and, in the first page, what lay behind them in the page buffer |
| `DfuMemory.EraseLeavesWord` | LUFA_130303/Bootloaders/DFU/BootloaderDFU.c:747-767 | a device and two requests after which the erased application section is not blank |
| `DfuMemory.StaleExample` | LUFA_130303/Bootloaders/DFU/BootloaderDFU.c:293-355 | from power-up: a download of two words that breaks off and one of a single word, whose page then holds the earlier second word behind it |
| `DfuHost.DownloadedBytes` | LUFA_130303/Bootloaders/DFU/BootloaderDFU.c:237-389 | a complete flash download in plain numbers of the packet: the addresses of the range, in whole words, hold the streamed bytes, the rest of their pages 0xFF (or what the page buffer had, in the first page), and no other byte changes |
| `DfuHost.BrokenBytes` | LUFA_130303/Bootloaders/DFU/BootloaderDFU.c:293-355 | one that breaks off, byte by byte: whole pages, a page of 0xFF and the page buffer |
| `DfuHost.UploadedBytes` | LUFA_130303/Bootloaders/DFU/BootloaderDFU.c:390-456 | selecting a flash range and uploading it returns exactly its bytes, last - first + 1 of them if that is even, and the state is idle again |
| `DfuHost.DownloadedEeprom` | LUFA_130303/Bootloaders/DFU/BootloaderDFU.c:356-377 | the EEPROM download in plain numbers |
| `DfuHost.UploadedEeprom` | LUFA_130303/Bootloaders/DFU/BootloaderDFU.c:457-488 | the EEPROM upload in plain numbers |
| `DfuHost.StatusBytes` | LUFA_130303/Bootloaders/DFU/BootloaderDFU.c:489-520 | the six bytes of GETSTATUS and the byte of GETSTATE, as numbers, for every status and state |
| `DfuHost.Resets` | LUFA_130303/Bootloaders/DFU/BootloaderDFU.c:503-534 | CLRSTATUS and ABORT as GETSTATUS and GETSTATE show them, with the memories unchanged |
| `DfuHost.DownloadEnds` | LUFA_130303/Bootloaders/DFU/BootloaderDFU.c:276-283 | a DNLOAD without data ends a download |
| `DfuHost.SelectsPage` | LUFA_130303/Bootloaders/DFU/BootloaderDFU.c:605-611 | command 6 with 3 and 0 selects the 64 KB page |
| `DfuHost.ReadsInfo` | LUFA_130303/Bootloaders/DFU/BootloaderDFU.c:769-783 | command 5 makes the next UPLOAD return the table's byte, on a locked device too |
| `DfuHost.SetsStart` | LUFA_130303/Bootloaders/DFU/BootloaderDFU.c:712-728 | command 4 with 3, 1 and an address sets where the application starts, high byte first |
| `DfuHost.StartsByWatchdog` | LUFA_130303/Bootloaders/DFU/BootloaderDFU.c:730-738 | command 4 with 3 and 0 sets the boot key |
| `DfuHost.SecureRefuses` | LUFA_130303/Bootloaders/DFU/BootloaderDFU.c:569-588 | a secure device answers every other command with status 3 and state 10 and changes no memory |
| `DfuSecure.SecureNext` | LUFA_130303/Bootloaders/DFU/BootloaderDFU.c:569-588 | one request on a locked device keeps it locked with its memories unchanged, unless it is the erase, which leaves the application section blank |
| `DfuSecure.SecureRun` | LUFA_130303/Bootloaders/DFU/BootloaderDFU.c:149-168 | in every run that starts locked: at every index where the device is secure its state is idle or error, no exit is pending and both memories are the initial ones; secure mode falls at most once, exactly at an erase, and in the next state the application section is blank and the rest as it was |
| `DfuSecure.BlindRun` | LUFA_130303/Bootloaders/DFU/BootloaderDFU.c:569-588 | two locked devices that differ in their memories only give the same replies to the same requests for as long as they stay secure |
| `DfuExit.PendingEnds` | LUFA_130303/Bootloaders/DFU/BootloaderDFU.c:240-248 | the DNLOAD behind a start command takes the pending exit away, and without a data stage stops the loop exactly if the second parameter is not 0 |
| `DfuExit.LoopEnds` | LUFA_130303/Bootloaders/DFU/BootloaderDFU.c:149-168 | in every run the main loop ends only at a DNLOAD that finds an exit pending, after one that brought the start command of an open device, and after one that took the run flag away with a second parameter other than 0 |
| `DfuExit.StartSequence` | LUFA_130303/Bootloaders/DFU/BootloaderDFU.c:710-746 | the start command with such a parameter and no data, then an empty DNLOAD, ends the loop and leaves the memories alone |
| `Dfu.Bootloader.constructor` | LUFA_130303/Bootloaders/DFU/BootloaderDFU.c:43-93 | the power-up state: locked if the build is secure, no exit pending, empty page buffer |
| `Dfu.Bootloader.ProgramWord` | LUFA_130303/Bootloaders/DFU/BootloaderDFU.c:309-348 | one pass of the loop is one word of the model |
| `Dfu.Bootloader.ProgramWords` | LUFA_130303/Bootloaders/DFU/BootloaderDFU.c:309-348 | finishes exactly when the stream holds all words, having taken as many as came |
| `Dfu.Bootloader.ProgramFlash` | LUFA_130303/Bootloaders/DFU/BootloaderDFU.c:293-355 | the flash half of the data stage, page buffer and addresses included |
| `Dfu.Bootloader.ProgramEeprom` | LUFA_130303/Bootloaders/DFU/BootloaderDFU.c:356-377 | the EEPROM half |
| `Dfu.Bootloader.CheckBlank` | LUFA_130303/Bootloaders/DFU/BootloaderDFU.c:676-702 | the search loop finds the first byte in use |
| `Dfu.Bootloader.EraseApplication` | LUFA_130303/Bootloaders/DFU/BootloaderDFU.c:747-767 | the page loop clears the application section and ends secure mode |
| `Dfu.Bootloader.ProcessCommand` | LUFA_130303/Bootloaders/DFU/BootloaderDFU.c:569-612 | executes the command, or refuses it in secure mode, as the state machine does |
| `Dfu.Bootloader.LoadCommand` | LUFA_130303/Bootloaders/DFU/BootloaderDFU.c:259-271 | command byte and up to five parameters, stale ones kept, the size counted down |
| `Dfu.Bootloader.HandleDnload` | LUFA_130303/Bootloaders/DFU/BootloaderDFU.c:237-389 | the pending exit, the command and the data stage |
| `Dfu.Bootloader.ReadFlash` | LUFA_130303/Bootloaders/DFU/BootloaderDFU.c:418-456 | the bytes of the addressed words |
| `Dfu.Bootloader.HandleUpload` | LUFA_130303/Bootloaders/DFU/BootloaderDFU.c:390-488 | the selected memory in the upload state, otherwise only the response byte or the blank-check address |
| `Dfu.Bootloader.Handle` | LUFA_130303/Bootloaders/DFU/BootloaderDFU.c:220-536 | every request is exactly one step of the state machine with exactly its reply, so that every statement about its runs holds of the code |
| `Dfu.Bootloader.Session` | LUFA_130303/Bootloaders/DFU/BootloaderDFU.c:149-168 | the main loop is a run of the state machine whose first and last states are the device's, with its replies; it goes on exactly while the run flag or a pending exit is set; from a locked start the whole history satisfies SecureStory, what SecureRun proves |
| `OneWireCrc.CalculateCrc` | src/board_support/onewire.c:71-88 | the loops compute the CRC of the first length bytes |
| `OneWireCrc.TakeByte` | src/board_support/onewire.c:76-85 | the inner loop feeds the byte's bits, least significant first |
| `OneWireCrc.TimesInjective` | src/board_support/onewire.c:71-88 | multiplication by the generator polynomial is injective |
| `OneWireCrc.RegisterIsRemainder` | src/board_support/onewire.c:76-85 | the register is the remainder of message times x^8, with the fed-back bits as quotient |
| `OneWireCrc.CrcIsRemainder` | src/board_support/onewire.c:71-88 | the CRC is the remainder modulo x^8 + x^5 + x^4 + 1, and the only one |
| `OneWireCrc.Divisor` | src/board_support/onewire.c:71-88 | the divisor has exactly those coefficients |
| `OneWireCrc.CrcOfOne` | src/board_support/onewire.c:71-88 | the CRC of the byte 1 is 0x5E |
| `OneWireCrc.CrcLinear` | src/board_support/onewire.c:71-88 | the CRC of a bytewise sum is the sum of the CRCs |
| `OneWireCrc.Residue` | src/board_support/onewire.c:71-88 | a message followed by a byte has residue 0 if and only if the byte is its CRC |
| `OneWireCrc.SingleByteDetected` | src/board_support/onewire.c:71-88 | messages that differ in exactly one byte have different CRCs |
| `Terminal.LinesOfAll` | src/programs/lcd_terminal/lcd_terminal.c:328-351 | splitting the received bytes into lines loses nothing and splits at every newline |
| `Terminal.LineBuffer.Store` | src/programs/lcd_terminal/lcd_terminal.c:331-337 | the byte joins the head row if it fits, a newline behind it, other rows untouched |
| `Terminal.LineBuffer.NextLine` | src/programs/lcd_terminal/lcd_terminal.c:339-349 | head and tail move on in the ring |
| `Terminal.LineBuffer.Receive` | src/programs/lcd_terminal/lcd_terminal.c:328-351 | after every byte the buffer shows what was received: the invariant over all histories |
| `Terminal.LineBuffer.Displays` | src/programs/lcd_terminal/lcd_terminal.c:320-325 | the rows from tail up to head show in ring order the last min(16, N) completed lines, cut at 22 bytes and newline-terminated when shorter |
| `Dither.Conservation` | src/board_support/sw_dither.h:47-54 | in any interleaving of settings and steps counter stays below max and counter + max * ones is the sum of the powers used |
| `Dither.ConstantPower` | src/board_support/sw_dither.h:47-54 | at constant power exactly floor(n * power / max) of n outputs are high |
| `Dither.LimitIsTight` | src/board_support/sw_dither.h:24-30 | beyond the documented limit of 2^15 conservation fails for some legal run |
| `Dither.ConservesModulo` | src/board_support/sw_dither.h:47-54 | whatever the limit and the powers, what is lost is a multiple of 65536 |
| `Dither.SwDither.constructor` | src/board_support/sw_dither.c:4-8 | an empty run, for any 16-bit limit |
| `Dither.SwDither.SetPower` | src/board_support/sw_dither.c:10-12 | the run continues with that power, any 16-bit value; the documentation is followed still if and only if the power is at most max |
| `Dither.SwDither.Step` | src/board_support/sw_dither.h:47-54 | the run continues with this output; while the documentation is followed the 16-bit sum does not overflow and counter stays below max |

## Left out

- FAT32 and multi-byte code pages, which the shipped configuration compiles out.
- Card commands, timeouts and `disk_initialize`: a transfer either succeeds or is refused as a whole by the fault schedule, and the initialisation's answer is a parameter of `Mount`.
- The configuration switches of pff.h: read, write, seek and directories are all modelled as if compiled in, and the flag byte is two booleans.
- `pf_opendir`, `pf_readdir` and the fields of `get_fileinfo` other than the name: they would only add easy members.
- FileEngine.FileSystem.Read: asks for a quiet card. The code also starts a read while a sector is open for writing, a command in the middle of a data block; what a card does then is not modelled.
- FileEngine.FileSystem.Lseek: asks for a quiet card, for the same reason.
- PathEngine.Open: asks for a quiet card, for the same reason, and so do following a path, searching a directory and mounting.
- MountEngine.Mount: leaves out cards whose sector 0 or first partition is a FAT boot record with zero sectors per cluster, on which the C code divides by zero.
- TimerSched.RunLawful: covers runs that stay clear of the wrap of the 16-bit day counter, 179 years after reset, and delays that keep their carry; beyond these the deadline itself is wrong, as DeadlineExact says.
- Interrupts that break into a registration: each interrupt and each call is one step.
- timer1 sub-timers, `timer1_clock_get_time` and the micro time: register access.
- The bodies of callbacks: `Interrupt` returns which function the code goes on to call, and with which argument.
- DFU filler and suffix bytes, detaching during an upload, the watchdog and the jump to the application: `body` is the data after the filler, and the size field is set in DNLOAD only, the one request that reads it.
- The page buffer of the flash hardware is modelled as the AVR manuals describe it, as far as they do: a page erase leaves it alone (the comments in the code say otherwise), a page write, re-enabling the read-while-write section and an EEPROM write empty it. Loading a slot a second time replaces the word; the manuals only say that the buffer has to be emptied before that.
- The version and signature tables of the read command, and how the flash hardware decodes addresses: both are functions of the modelled device. Addresses inside the memory are decoded to their page and slot; nothing is said of others but that they lead somewhere in it.
- The CDC and HID bootloaders and the rest of LUFA: a simpler repeat of the same flash model, or library code.
- Drawing of the terminal's rows, their newline fill at start-up while bytes may already arrive, the display drivers, menus and fonts.
- Register and pin drivers, integer printing, quadrature decoding, DHT11, RC servos and endianness helpers: hardware access, or small finite properties.
