# ub2lb: a verified model

ub2lb ("Parthenope") is a second-level bootloader for PowerPC Amigas. It finds its files on Smart File System,
ISO 9660 and Amiga rigid disk volumes with readers of its own, parses a boot menu, and loads and relocates ELF
modules; a host tool installs it into the boot block chain of a disk. This project models these parts over plain
bytes, words and blocks, and proves what they do.

| file | part of ub2lb |
|---|---|
| `Installer.dfy`, `InstallerTheorems.dfy` | the disk installer, tools/parthenope-install.c |
| `MenuText.dfy`, `MenuMachine.dfy`, `MenuParser.dfy`, `MenuLayout.dfy`, `MenuRoundTrip.dfy`, `MenuLimits.dfy` | the menu parsers of src/menu.c |
| `SfsVolume.dfy`, `SfsTree.dfy`, `SfsFile.dfy`, `SfsDir.dfy`, `SfsLayout.dfy` | the SFS reader, src/sfs.c |
| `ElfHeap.dfy`, `ElfReloc.dfy`, `ElfModule.dfy`, `ElfLoader.dfy`, `ElfAddresses.dfy`, `ElfRegister.dfy` | the ELF loader, src/elf.c |
| `CdromRead.dfy`, `CdromDrive.dfy`, `CdromSusp.dfy`, `CdromDir.dfy`, `CdromFind.dfy` | the ISO 9660 reader, src/cdrom.c |
| `RdbTable.dfy`, `RdbLayout.dfy` | the partition table, src/rdb.c |
| `Support.dfy`, `Paths.dfy`, `Words.dfy`, `Sequences.dfy`, `Options.dfy` | string helpers of src/support.c, paths, 32-bit words, sequences, optional values |

Loops and updates in place are methods on arrays and objects; each is proved equal to a function over values, and the
theorems are lemmas about those functions. `dafny verify dfyconfig.toml` checks the project.

## Where the code is not what it seems

Each is proved as it is, with an input that shows it or the condition under which the code does what one would expect.

- The checksum test of SFS blocks compares nothing with the stored checksum (`SfsVolume.AcceptedIsNotIntact`).
- The RDB reserves blocks RDBBlocksLo to RDBBlocksHi for hard blocks. The search for free ones begins at block 1 instead and
  runs up to block RDBBlocksHi - RDBBlocksLo, or on from there while blocks are free. Runs that complete and runs cut short
  can write below the area (`InstallerTheorems.RunCanStartBelowArea`) and behind it (`InstallerTheorems.RunCanLeaveArea`);
  exactly when all is written inside is a matter of the free blocks (`InstallerTheorems.RunStaysInAreaIff`).
- The push-back of a title line misses the start of the line if blanks, a comment or a carriage return follow the title
  (`MenuLimits.CarriageReturnLosesTitle`); the line is read again as it was under an exact condition on its last characters
  (`MenuLimits.RereadsSameIff`), and its title survives exactly if the part read again still carries it
  (`MenuLimits.TitleSurvivesIff`).
- `fsm` returns 0, which means "no menu", for a menu whose last entry has no target, although others are linked
  (`MenuLimits.ResultZeroIff`, `MenuLimits.UnfinishedEntryHidesMenu`).
- The CD-ROM buffer is used before its sector number is set (`CdromRead.FlatIffCoherent`). System Use entries behind a CE
  entry are lost (`CdromSusp.EntryIsLost`, `CdromSusp.VisitsAllIff`). A hidden directory is taken for a file
  (`CdromFind.HiddenDirectoryIsFile`, `CdromFind.DescendedIffVisible`).
- `get_partition_info` does not end on a partition block with a bad checksum (`RdbTable.ScanEndsIff`).
- An absolute symbol is looked up behind the section headers when a module is registered: exactly the symbols of real
  sections have an entry their module determines (`ElfRegister.EntryIsDeterminedIff`). A second absolute symbol named
  SysBase is not recognised (`ElfModule.SecondSysBaseIsOrdinary`); which lists of relocations are free of this is
  `ElfModule.CacheIsNameTestIff`.
- A BSS section at the physical address that is mapped to virtual 0 ends the list of BSS sections
  (`ElfLoader.Loader.ListBss`, `ElfModule.NoZeroEntryIff`).

## Model

| member | source | states |
|---|---|---|
| `Installer.Checksum` | tools/parthenope-install.c:35-48 | the returned value is the 32-bit wrapping sum of the block's first SummedLongs words, the count capped at 512 words, so that up to 384 words of heap behind the copy are summed too |
| `Installer.CalculateChecksum` | tools/parthenope-install.c:50-53 | the checksum word, and no other, is lowered by the sum found |
| `Installer.FixedValidIff` | tools/parthenope-install.c:50-53 | a corrected block sums to zero if its SummedLongs is at least 3; below that the correction does not touch the sum; a block that sums to zero already is left as it is |
| `Installer.FindRdb` | tools/parthenope-install.c:88-109 | the first of blocks 0 to 15 that is a checksummed RDSK block, or none if there is none |
| `Installer.EraseSlb` | tools/parthenope-install.c:139-160 | the disk becomes what Erase makes of it; terminates on every disk, cyclic and malformed chains included, because each round leaves one BOOT block fewer |
| `Installer.NextFreeBlock` | tools/parthenope-install.c:111-132 | the next block behind the pointer that is no RDSK, BADB, PART, FSHD, LSEG or BOOT block, whatever its checksum, or the first one at or past the limit; the pointer always advances |
| `Installer.Picks` | tools/parthenope-install.c:173-191 | the blocks that successive searches find are free, lie behind the start and strictly rise |
| `Installer.FillBlock` | tools/parthenope-install.c:192-202 | the buffer becomes the i-th block of the chain for the image: id, word count, link, 123 words of the image, and a checksum that does not depend on what the buffer held before |
| `Installer.InstallRound` | tools/parthenope-install.c:182-205 | one round writes the next chain block, or, finding no free block, changes nothing |
| `Installer.InstallSlb` | tools/parthenope-install.c:162-208 | the disk gets the chain blocks on all blocks found but the last, which is only looked ahead at; the RDB in memory points at the first one; completion is reported exactly when one block more than the image needs was found |
| `Installer.Run` | tools/parthenope-install.c:228-265 | without an RDB the disk stays; else it becomes the disk AfterRun describes, whose properties follow |
| `Installer.ReadBlock` | tools/parthenope-install.c:55-73 | the block the 32-bit byte position addresses, and whether its checksum is zero |
| `Installer.WriteBlock` | tools/parthenope-install.c:134-137 | exactly the addressed block is replaced |
| `Installer.SlotIsPosition` | tools/parthenope-install.c:55-73 | the block addressed is that of the byte position reduced to 32 bits |
| `Installer.SearchEnd` | tools/parthenope-install.c:117-121 | every block the search passes is one of these six kinds; it ends at a block of another kind or no earlier than the limit, and always behind where it began |
| `Installer.IdsAreNames` | src/rdb.h:44-49 | the six identifiers are the names of the block types, spelt from the first byte of a block on |
| `InstallerTheorems.EraseFreesRun` | tools/parthenope-install.c:147-156 | erasing visits exactly the linked run of boot blocks, in order, and frees each of them |
| `InstallerTheorems.EraseFrame` | tools/parthenope-install.c:139-160 | erasing changes BOOT blocks only, and only into free ones |
| `InstallerTheorems.EraseStable` | tools/parthenope-install.c:147-150 | behind an erased head there is no boot chain any more |
| `InstallerTheorems.ChainBlock` | tools/parthenope-install.c:182-205 | on the disk after a run, the j-th chain block has checksum zero, the BOOT id, the link to the next one or the end mark, and exactly its slice of the image as summed data words |
| `InstallerTheorems.ReadBack` | tools/parthenope-install.c:162-208 | after a completed run, following the links from the RDB to the end mark meets distinct checksummed blocks whose summed data words put together are exactly the image |
| `InstallerTheorems.RunIsErasable` | tools/parthenope-install.c:182-204 | completed or cut short by a lack of free blocks, a run leaves the RDB at the head of a run of distinct boot blocks: those it wrote |
| `InstallerTheorems.EraseUndoesRun` | tools/parthenope-install.c:139-208 | erasing after a run visits exactly the blocks written and makes the set of free blocks what it was before them; no other block changes |
| `InstallerTheorems.RunFrame` | tools/parthenope-install.c:258-261 | every RDSK, BADB, PART, FSHD and LSEG block stays bit for bit, but for the checksum and chain-head words of the RDB |
| `InstallerTheorems.RdbStays` | tools/parthenope-install.c:88-109 | after a run the same block is found as the first RDB, with the same area limits and a correct checksum, whatever its SummedLongs |
| `InstallerTheorems.RunIsIdempotent` | tools/parthenope-install.c:258-261 | installing the same image a second time leaves the disk bit for bit as the first time |
| `InstallerTheorems.PicksWithinLimit` | tools/parthenope-install.c:117-121 | the k-th block found lies up to the search limit, RDBBlocksHi - RDBBlocksLo, exactly when more than k of the blocks from 1 to that limit are free |
| `InstallerTheorems.RunStaysInAreaIff` | tools/parthenope-install.c:117-131 | completed or cut short, a run writes inside the declared area RDBBlocksLo to RDBBlocksHi only, exactly if it finds too few blocks to write any, or no block in front of the area is free and of the blocks it writes no more than RDBBlocksLo exceed the free ones up to the search limit; how many it writes is given by free counts |
| `InstallerTheorems.RunCompletesIff` | tools/parthenope-install.c:117-131 | a run completes exactly if a free block more than the image needs lies up to the search limit, or if the block at the limit leads on to enough free blocks behind it |
| `InstallerTheorems.RunCanStartBelowArea` | tools/parthenope-install.c:112-121 | inputs: with RDBBlocksLo 5 and RDBBlocksHi 15, block 1 is overwritten for any image if blocks 1 and 2 are free |
| `InstallerTheorems.RunCanLeaveArea` | tools/parthenope-install.c:117-131 | inputs: with an area of blocks 0 and 1, block 2 is overwritten for any image of two blocks or more, whether the run completes or not |
| `InstallerTheorems.AfterRunAt` | tools/parthenope-install.c:258-261 | the disk after a run, block by block: chain blocks on the blocks found, the RDB, and everything else as the erasure left it |
| `Support.StrChr` | src/support.c:153-159 | the first position of the character, or the length if there is none |
| `Support.StrCaseCmp` | src/support.c:63-67 | zero exactly for strings of one length that have at each place the same character, or one from A to Z and the one 32 above it |
| `Support.StrToL` | src/support.c:168-175 | the positional value of the characters taken as digits, reduced to a signed 32-bit number; no character is rejected |
| `Support.ValueOfDecimal` | src/support.c:168-175 | the positional value of the decimal digits of a number is that number |
| `MenuText.GetLine` | src/menu.c:88-107 | the text up to and including the next newline, or up to the end; none once the end is reached |
| `MenuText.StrTrim` | src/menu.c:141-158 | the one substring without blanks at its ends whose surroundings are blank |
| `MenuText.TrimSplits` | src/menu.c:141-158 | trimming removes nothing but blanks, in front and behind |
| `MenuText.TrimIs` | src/menu.c:141-158 | whatever stands between two stretches of blanks and has none at its ends is what trimming gives |
| `MenuText.GetNextWord` | src/menu.c:120-139 | the text before the first space, or, only if there is none, before the first tab |
| `MenuText.EatComments` | src/menu.c:109-118 | the part of a line before its first number sign |
| `MenuMachine.PushBackLands` | src/menu.c:424-431 | the offset after a title line is pushed back lies inside that line or one byte before it, and reading on from there ends where the line ends |
| `MenuMachine.StepKeeps` | src/menu.c:332-573 | every step of either parser keeps the invariant (linked entries have a title and a kernel or other target, in order of appearance) and comes nearer to the end of the parse, although a push-back moves the offset backwards |
| `MenuMachine.Run` | src/menu.c:314-575 | both parsers terminate on every text, in a state that keeps the invariant |
| `MenuMachine.LinkKeeps` | src/menu.c:552-566 | an entry is linked only behind entries whose title lines come earlier in the text, and only with a title and a target |
| `MenuLayout.IdleLinesDoNotMatter` | src/menu.c:342-346 | in any text, canonical or not, blank lines and comment lines put in front of any lines or at the end leave linked entries, header and result as they were; likewise src/menu.c:198-202, 233-237 and 405-409 |
| `MenuParser.MenuItem.Free` | src/menu.c:67-82 | an entry can be freed only while it is live, so never twice |
| `MenuParser.Append` | src/menu.c:552-556 | the entry is linked behind the last item of the list; nothing else changes |
| `MenuParser.OpenEntry` | src/menu.c:383-393 | an entry is made exactly for a title that is not blank |
| `MenuParser.LinkEntry` | src/menu.c:552-566 | the pending entry becomes the last one of the menu |
| `MenuParser.FreeEntry` | src/menu.c:558-571 | the pending entry is freed and not linked |
| `MenuParser.StoreArgument` | src/menu.c:438-455 | a kernel, other, initrd, dtb or module line changes the entry as the step function says, and no link or ownership |
| `MenuParser.SelectRoot` | src/menu.c:456-500 | a root line selects tftp, cdrom or ide d:p, the partition counting from one, or discards the entry |
| `MenuParser.ReadNumber` | src/menu.c:361-382 | a default or delay line stores its number in the header of the menu, or nothing if it has none |
| `MenuParser.Parse` | src/menu.c:171-575 | for every text, the linked list, the header and the returned number are those of Run; every entry made is linked exactly once or freed, never both; the items already in the menu keep what they hold |
| `MenuParser.OuterLine` | src/menu.c:334-360 | a line outside an entry is read, stripped and dispatched on its first word as the step function says |
| `MenuParser.InnerLine` | src/menu.c:394-437 | the same inside an entry, end of text and push-back included |
| `MenuRoundTrip.CommandsRebuild` | src/menu.c:412-436 | the lines an entry is printed as have the effect of rebuilding it, and name a target exactly if it has one |
| `MenuRoundTrip.OperandApplies` | src/menu.c:438-551 | the rest of a printed line, trimmed and split by the parser, gives back the operand it was printed from, device numbers through strtol included |
| `MenuRoundTrip.PushBackRuns` | src/menu.c:424-431 | a clean title line is pushed back exactly to where it starts, and the entry before it is linked, or freed if it has no target |
| `MenuRoundTrip.EntriesRunTo` | src/menu.c:332-573 | of printed entries that are followed by a title line, those with a target are linked, in order, and the others freed when that line is read again |
| `MenuRoundTrip.PrintedMenuParses` | src/menu.c:314-575 | for the canonical text of default, delay and any list of entries with a title, with or without a target, and with any blank and comment lines between its lines, the numbers are stored, exactly the entries with a target are linked, in order, and 0 is returned exactly if there is a last entry and it has none |
| `MenuRoundTrip.ParseUndoesPrint` | src/menu.c:314-575 | parsing the canonical text of default, delay and any list of entries with a title and a target, with any blank and comment lines in it, gives back exactly these numbers and entries, in order |
| `MenuRoundTrip.PrintedKicklayoutParses` | src/menu.c:171-312 | for any entries, with or without a kernel, and any blank and comment lines, those with one are linked in order; 1 is returned exactly if the last one has one, and 0 also for no entries at all |
| `MenuRoundTrip.KickParseUndoesPrint` | src/menu.c:171-312 | parsing the canonical Kicklayout of any entries that all have a kernel, with any blank and comment lines in it, gives back exactly these entries |
| `MenuRoundTrip.CommandRuns` | src/menu.c:394-551 | one printed command line inside an entry is read whole and has its effect |
| `MenuRoundTrip.TitleRuns` | src/menu.c:334-393 | a printed title line, met first or pushed back, opens an entry with exactly that title |
| `MenuLimits.RereadsSameIff` | src/menu.c:424-431 | a pushed-back line reads the same again exactly if it is nothing but its text, or ends with that text and one blank (the newline) or comment character, or with one blank and that text |
| `MenuLimits.RereadCarries` | src/menu.c:424-436 | a title line that reads the same again carries its title, so it survives |
| `MenuLimits.TitleSurvivesIff` | src/menu.c:424-436 | whether the entry before has a target or not, the parser opens the next one with the title of the line exactly if that title is not blank and the part read again still carries it: blanks, the title word, a separator, the title, then only blanks or a comment; the one before is linked or freed either way |
| `MenuLimits.CarriageReturnLosesTitle` | src/menu.c:424-431 | every title line without a comment whose text is followed by a carriage return and a newline, and that ends an entry, with a target or without, is lost, and the parser stays outside any entry |
| `MenuLimits.UnfinishedEntryHidesMenu` | src/menu.c:567-571 | an input: for the canonical menu of any entries with a target and a lone title line, all of these are linked, yet 0 is returned, which menu_load takes for no menu |
| `MenuLimits.ResultZeroIff` | src/menu.c:552-574 | for every canonical menu text, with or without targets and with any blank and comment lines, 0 is returned exactly if the last entry has no target, and hides linked entries exactly if another one has a target |
| `MenuLimits.ResultIs` | src/menu.c:298-311 | for any text at all: every entry linked has a title and a target, and the result is 0 if the text ends inside an entry without a target, 1 if inside one with a target, which is then the last one linked; else 1 from fsm and the number of linked entries from kick_fsm |
| `MenuLimits.EntryGoesOnIff` | src/menu.c:412-551 | for any text: a line inside an entry goes on with it exactly if it is a keyword with something behind it, or a root line with a device; any other line drops the entry, and what follows is read outside any |
| `MenuLimits.OutsideLine` | src/menu.c:334-393 | for any text: outside an entry, a title line that is not blank opens one, default and delay lines with a word set the header, every other line leaves all as it was |
| `SfsVolume.CalcChecksum` | src/sfs.c:39-51 | the value returned is the one a correct block stores; the checksum field of the buffer is cleared |
| `SfsVolume.IntactIffSumsToZero` | src/sfs.c:39-51 | the stored checksum is the value calcchecksum returns exactly if all words of the block and one add up to zero |
| `SfsVolume.AcceptedIsNotIntact` | src/sfs.c:85-88 | the only test of a block ignores the stored checksum: exactly which damaged blocks it accepts and which intact ones it rejects |
| `SfsTree.LookupIsGreatest` | src/sfs.c:144-152 | over sorted records the linear search gives the greatest key not above the one asked for, and that very record if present |
| `SfsTree.DescendKeeps` | src/sfs.c:144-157 | searching a whole tree and searching the child the scan selects give the same record |
| `SfsTree.ScanNode` | src/sfs.c:144-152 | the downward scan stops at the last key of the node not above the one asked for |
| `SfsTree.GetBNode` | src/sfs.c:129-160 | on a stored tree of any height and node stride, the record found is that of the linear search over all leaves, unless a block on the way fails the checksum test |
| `SfsLayout.LeafIsStored` | src/sfs.h:122-141 | a block made of a header, a count, a stride and any records, each laid out as key, next, prev and blocks, stores exactly these records |
| `SfsLayout.WrittenIsStored` | src/sfs.h:117-133 | a volume with such a block for each leaf, and blocks of keys and block numbers for the nodes above, stores the tree |
| `SfsFile.CopyExtent` | src/sfs.c:181-188 | the blocks of an extent go behind the bytes copied before, cut at the file size; bytes behind stay |
| `SfsFile.CopyNext` | src/sfs.c:179-190 | one round reads at least one byte and leaves the rest of the file to be read |
| `SfsFile.CopyFile` | src/sfs.c:175-192 | the buffer starts with the bytes of the extents in chain order, cut to the file size, is otherwise untouched, and their number is returned; cyclic chains end at the size |
| `SfsFile.ClosedIsLoadable` | src/sfs.c:175-192 | on a volume whose tree passes the checksum tests and holds every extent number of its records, whatever file size is asked for, every lookup of the load succeeds |
| `SfsFile.FileBytesIsConcat` | src/sfs.c:162-193 | those bytes are the first min(size, total) bytes of the plain concatenation of the extents |
| `SfsFile.ExtentBlockAt` | src/sfs.c:181-182 | block k of an extent is block key + k of the volume, behind those before it |
| `SfsLayout.FileIsChain` | src/sfs.c:189 | on a volume laid out in this way, a file is the first bytes of its extents put together in the order of their next fields |
| `SfsDir.NextObject` | src/sfs.c:60-71 | from one packed object to the next: behind two strings and padding to an even length |
| `SfsDir.FirstMatchIsFirst` | src/sfs.c:92-97 | the match is the first object with the name up to case, of those with bit 7 set if a directory is asked for; or there is none |
| `SfsDir.ScanObjects` | src/sfs.c:91-97 | the scan of one object container finds the first match among exactly the objects packed in it |
| `SfsDir.FindObject` | src/sfs.c:73-102 | the first match in the whole chain of containers, or NULL |
| `SfsDir.Find` | src/sfs.c:104-127 | the path is a fold of first matches over its components, all but the last restricted to directories |
| `SfsDir.WalkIffTrail` | src/sfs.c:104-127 | a path names an object exactly if a trail of objects leads to it: each the first with its name in the directory of the one before, all but the last directories |
| `SfsDir.LeadingSlashIsSkipped` | src/sfs.c:107-109 | a path with one slash in front has the components of the path without it |
| `SfsLayout.ObjectReads` | src/sfs.h:75-99 | an object laid out from its fields, two terminated strings and padding is read back as them |
| `SfsLayout.ContainerIdIsName` | src/sfs.h:115 | the identifier of an object container is its name, spelt from the first byte of the block on |
| `SfsLayout.DirIsChain` | src/sfs.h:107-115 | on a volume with containers laid out from their fields, each naming the next one, the reader goes through exactly these containers and objects |
| `SfsDir.LoadFile` | src/sfs.c:162-193 | -1 and an untouched buffer if the path names nothing; else the file the walk finds, as CopyFile has it |
| `Paths.SplitJoins` | src/sfs.c:109-119 | the components joined by slashes are the path, and none contains a slash |
| `Paths.ElementsAreSplitIff` | src/cdrom.c:297-302 | these are the components between slashes if and only if the path does not end in a slash, which stays part of the last component |
| `ElfHeap.MaskIsAlignDown` | src/elf.c:80-88 | for a power of two a, x & ~(a - 1) in 32 bits is the greatest multiple of a not above x |
| `ElfHeap.AllocKeeps` | src/elf.c:71-93 | one allocation keeps all chunks aligned and disjoint, writable ones below the kernel base and others above, moves the two pointers apart only, and wastes between one and two times the alignment less one below, at most that above |
| `ElfHeap.RunKeeps` | src/elf.c:71-93 | over any sequence of requests all chunks stay aligned and disjoint and earlier ones stay; in all, the lower pointer moves by the writable bytes and one to two times the sum of their alignments less one, the upper one by the read-only bytes and at most that sum for them |
| `ElfReloc.HalvesMakeAddress` | src/elf.c:184-198 | the high-adjusted half shifted up plus the sign-extended low half is the full address again |
| `ElfReloc.HalvesReachTarget` | src/elf.c:184-198 | after all entries with disjoint fields, an instruction pair that adds the patched HA and LO fields of one symbol and addend computes the virtual address S + A + offset |
| `ElfReloc.BranchKeeps` | src/elf.c:200-203 | patching a branch keeps opcode, AA and LK, and doing it twice is doing it once |
| `ElfReloc.BranchReachesIff` | src/elf.c:200-203 | the patched branch encodes exactly the distance to its target if and only if that is a multiple of 4 in [-2^25, 2^25) |
| `ElfReloc.ReachesIff` | src/elf.c:200-207 | under any common shift, the distance taken at physical addresses, and no other displacement, leads from the field to its target |
| `ElfReloc.BranchReachesTargetIff` | src/elf.c:200-203 | after all entries with disjoint fields, a patched REL24 branch, run under any shift of memory, goes to S + A under that shift if and only if S + A - P is a multiple of 4 in [-2^25, 2^25); opcode, AA and LK are those it had |
| `ElfReloc.WordsReachTarget` | src/elf.c:179-207 | after all entries with disjoint fields, an ADDR32 field is the virtual address, and a REL32 field leads there from its own place under any shift |
| `ElfReloc.BigEndian` | src/elf.c:179-207 | words and halves are those of memory read most significant byte first |
| `ElfReloc.PatchesByte` | src/elf.c:178-217 | with disjoint fields, each field ends as its formula makes it from its first content, and no other byte changes |
| `ElfReloc.OrderDoesNotMatter` | src/elf.c:131-217 | two lists of the same entries with disjoint fields have the same effect |
| `ElfReloc.PatchesAreIdempotent` | src/elf.c:131-217 | relocating twice is relocating once |
| `ElfReloc.PatchedField` | src/elf.c:178-217 | after all entries, a field that overlaps no other holds what its formula makes of its first content |
| `ElfReloc.PatchesWithin` | src/elf.c:178-217 | what entries inside a range make of it depends on nothing outside it |
| `ElfModule.LoadAllChunks` | src/elf.c:239-260 | after the first pass every section that takes memory has its own chunk, in section order |
| `ElfModule.LoadAllContent` | src/elf.c:95-100 | after the first pass each section holds its file bytes, or zeros for NOBITS |
| `ElfModule.LoadAllFrame` | src/elf.c:240-260 | memory outside the new chunks is as before |
| `ElfModule.TrackerIsBss` | src/elf.c:99-106 | one load appends to the BSS tracker exactly the non-empty allocated NOBITS sections of the module, in section order |
| `ElfModule.TrackerOverModules` | src/elf.c:99-106 | over any sequence of modules, the tracker lists exactly their non-empty allocated NOBITS sections, module after module |
| `ElfModule.NoZeroEntryIff` | src/elf.c:101-103 | no entry has the virtual address 0, at which the reader stops, if and only if no such section is loaded at physical 0x01000000 |
| `ElfModule.CacheIsNameTestIff` | src/elf.c:157-172 | the cached test resolves a list of entries to the same fixes as the test of every name, if and only if all absolute SysBase symbols met before the first entry that stops the list are one and the same |
| `ElfModule.CacheIsNameTest` | src/elf.c:157-172 | so with at most one such symbol in the table the two tests agree |
| `ElfModule.SecondSysBaseIsOrdinary` | src/elf.c:157-172 | an input: of two such symbols, the second one met is relocated like any absolute symbol |
| `ElfModule.OnlyOwnFixes` | src/elf.c:262-272 | within the memory of one section, all relocations of the module amount to those of its own relocation sections |
| `ElfModule.SectionLoaded` | src/elf.c:240-272 | after both passes each section that is allocated, not empty and no table is its file bytes, or zeros for NOBITS, patched by its own relocations only |
| `ElfModule.LoadElfFrame` | src/elf.c:240-272 | a whole load leaves memory outside its new chunks untouched |
| `ElfModule.EarlierModulesStay` | src/elf.c:221-272 | whatever sequence of modules is loaded afterwards, the memory of every chunk handed out before stays as it is |
| `ElfModule.LoadOneKeeps` | src/elf.c:240-259 | one section either takes one new chunk holding its content, with a tracker entry if it is NOBITS, or changes no shared state |
| `ElfAddresses.EntryIsRight` | src/elf.c:112-219 | after a successful load, and whatever modules are loaded after it, the field of every relocation entry, in a section not at address 0 whose patched fields are disjoint, holds what its kind asks for: S + A plus the virtual offset or its halves, the distance S + A - P, or a branch over it if and only if it is in range, opcode, AA and LK being kept. S is the symbol value from the start of its loaded section on, the value of an absolute symbol, or 4 without an offset for the one SysBase |
| `ElfAddresses.PairIsRight` | src/elf.c:184-198 | then an instruction pair with the high and low half of one symbol and addend computes its virtual address |
| `ElfAddresses.OwnHas` | src/elf.c:131-176 | if no entry stops the relocation, it makes exactly the wanted fix for each entry with an unmistaken symbol |
| `ElfLoader.Loader.BZero` | src/elf.c:99-100 | the given bytes become zero and no others change |
| `ElfLoader.Loader.TakeChunk` | src/elf.c:78-93 | the bit masks of the source move the static pointers as the allocator specified in ElfHeap does, and give its chunk |
| `ElfLoader.Loader.LoadHunk` | src/elf.c:71-109 | allocator, memory, tracker and header become what LoadOne says |
| `ElfLoader.Loader.PatchField` | src/elf.c:178-216 | memory is patched as the formula of the relocation kind says; false for an unknown kind, nothing being changed |
| `ElfLoader.Loader.Relocate` | src/elf.c:112-219 | memory is patched by exactly the entries before the first one that fails, and success means that none does |
| `ElfLoader.Loader.PlaceAll` | src/elf.c:240-260 | the first pass over the header array, in place, is LoadAll |
| `ElfLoader.Loader.RelocateAll` | src/elf.c:263-272 | the second pass patches memory by the entries of all relocation sections in order, up to the first that fails |
| `ElfLoader.Loader.LoadElf` | src/elf.c:239-272 | both passes together: shared state, result and headers are those SectionLoaded, LoadElfFrame and EarlierModulesStay are about |
| `ElfLoader.Loader.ListBss` | src/parthenope.c:246-253 | the walk over the tracker gives a prefix of its live entries; all of them if and only if none has virtual address 0 |
| `ElfLoader.Loader.Track` | src/elf.c:99-105 | one entry is added behind the live ones, and all behind it stay zero |
| `ElfRegister.Bounds` | src/elf.c:293-314 | m_lowest and m_highest are the exact hull of the executable sections at virtual addresses if and only if none of these runs past the end of the address space |
| `ElfRegister.Symbols` | src/elf.c:317-334 | the symbol list has an entry for each symbol of an executable section in the first symbol table, the last symbol first |
| `ElfRegister.EntriesGrow` | src/elf.c:321-330 | a further symbol of the table adds its entry in front exactly if its section is allocated, executable and has an address |
| `ElfRegister.SymbolInHull` | src/elf.c:322-328 | a symbol inside its executable section gets an entry of its own name and size, from its virtual address on, inside the module's bounds |
| `ElfRegister.EntriesInHull` | src/elf.c:321-330 | with every symbol inside its section, so do all entries |
| `ElfRegister.EntryIsDeterminedIff` | src/elf.c:322 | whatever lies behind the section headers, the entry of a symbol is the same if and only if its section index is one of theirs; that of an absolute symbol is not |
| `CdromRead.FlatIffCoherent` | src/cdrom.c:122-183 | all reads deliver disc bytes if and only if the buffered sector is what its number says; cdrom_create never sets that number |
| `CdromRead.ReadIsFlat` | src/cdrom.c:122-183 | for every block, offset and length, a successful read is exactly the flat disc slice from block * 2048 + offset on, and the buffer stays coherent even if the read fails |
| `CdromRead.EveryReadIsFlat` | src/cdrom.c:122-183 | over any sequence of reads, failed ones included, the next read is right |
| `CdromRead.ReadFailsIff` | src/cdrom.c:133-171 | a read fails exactly if one of its calls of block_read does, of which it makes at most three |
| `CdromDrive.Cdrom.Fetch` | src/cdrom.c:133-138 | a sector is read only if it is not the one held; a failed call leaves the buffer as it is |
| `CdromDrive.Cdrom.Read` | src/cdrom.c:122-183 | state, result and destination, bytes outside the destination range included, are those of the three phases in CdromRead |
| `CdromDrive.ReadFlat` | src/cdrom.c:122-183 | on a coherent drive, success means the flat slice and happens exactly if no call of block_read fails |
| `CdromDrive.Cdrom.BlockRead` | src/cdrom.c:155-157 | the addressed sectors go to the destination, or nothing if the call fails |
| `CdromDrive.Cdrom.SkipSectors` | src/cdrom.c:127-130 | block and offset are normalised to the sector that holds the position |
| `CdromDrive.Cdrom.ReadHead` | src/cdrom.c:132-150 | the bytes from the offset to the end of its sector or of the request |
| `CdromDrive.Cdrom.ReadMiddle` | src/cdrom.c:152-163 | the whole sectors, read past the buffer |
| `CdromDrive.Cdrom.ReadRest` | src/cdrom.c:165-180 | the bytes left, from the start of the next sector |
| `CdromSusp.VisitsAllIff` | src/cdrom.c:203-235 | following a CE entry as soon as it is met loses the entries behind it: the code sees all entries, in the order of section 5.1 of the System Use Sharing Protocol, if and only if there are none |
| `CdromSusp.EntryIsLost` | src/cdrom.c:203-220 | an input for any NM entry: a disc on which it stands behind a CE entry and is never looked at |
| `CdromSusp.GetEntry` | src/cdrom.c:185-273 | the first entry with the signature among those visited across all continuation areas; none if a read fails |
| `CdromSusp.FirstIsFirst` | src/cdrom.c:237-273 | that entry is the first whose two first bytes are those asked for |
| `CdromDir.VersionAt` | src/cdrom.c:381-387 | a name is cut at its last semicolon, one in first position apart |
| `CdromDir.ScanMeetsAll` | src/cdrom.c:310-416 | with or without Rock Ridge, in a directory laid out as section 6.8.1 of ECMA-119 demands, the scan from any record meets that record and all later ones once and in order, across the padding of every sector, each by its NM name if it has one |
| `CdromDir.DirectoryIsRead` | src/cdrom.c:310-416 | from offset 0 these are all records of the directory |
| `CdromDir.RecordReads` | src/cdrom.c:55-66 | a record built from its fields as section 9.1 of ECMA-119 lays it out is read back as those fields |
| `CdromDir.VersionIsCut` | src/cdrom.c:381-387 | of a name, a semicolon and a version, the name is left |
| `CdromDir.NameWithoutVersion` | src/cdrom.c:373-390 | the one-byte names 0 and 1 are . and .., and any other name without a version is taken as it is |
| `CdromDir.UseIsRead` | src/cdrom.c:323-328 | of a record laid out with a padded name, the System Use area begins where the code looks for it |
| `CdromDir.AltNameReads` | src/cdrom.c:339-371 | an NM entry stands for . or .. by its flags, and else gives the name it was built from, none if that is empty |
| `CdromDir.NmRenames` | src/cdrom.c:323-371 | with Rock Ridge, a record with entries of one area behind its name is met under the name its first NM entry was built from, with its own extent, size and flags |
| `CdromFind.SplitPath` | src/cdrom.c:292-302 | the buffer split in place holds, NUL-terminated at the recorded starts, the components of the path |
| `CdromFind.LeadingSlashIsSkipped` | src/cdrom.c:289-290 | one slash in front of a path changes nothing in its components |
| `CdromFind.FirstMatchIsFirst` | src/cdrom.c:399-406 | the match is the first record with the name up to case that is a directory in sight or, for the last component, is not one; or there is none |
| `CdromFind.ReadName` | src/cdrom.c:373-397 | the name is that of the record up to its version, or . or .. for the two special ones |
| `CdromFind.NameOf` | src/cdrom.c:321-397 | with Rock Ridge, the name of the NM entry if it gives one, else the record's own |
| `CdromFind.Scan` | src/cdrom.c:310-416 | the scan of a directory finds the first match among its entries; terminates because the offset strictly rises; a failed read ends it without Rock Ridge |
| `CdromFind.FindFile` | src/cdrom.c:275-437 | block, size and result are those of folding first matches over the path; failure at one level is final |
| `CdromFind.FindPathIsWalk` | src/cdrom.c:307-424 | on a disc whose directories are laid out as ECMA-119 demands, with or without Rock Ridge, that fold over bytes is the fold over the records of the directories |
| `CdromFind.GoodDirsAreCovered` | src/cdrom.c:307-424 | on such a disc with Rock Ridge, what FindFile relies on holds in every directory as soon as the System Use areas of the records are in order |
| `CdromFind.WalkIsTrace` | src/cdrom.c:307-424 | the file found is given by the last of the records the path leads over, if every component has one |
| `CdromFind.DescendedIffVisible` | src/cdrom.c:399-406 | for every path, these are the records of a walk that tells directories by the directory bit of section 9.1.6 of ECMA-119 alone, if and only if no hidden directory is the first record in question on the way |
| `CdromFind.HiddenDirectoryIsFile` | src/cdrom.c:399-406 | an input: if the one record of a name, among whatever others, is a hidden directory, nothing is found below it, and its own extent is found as a file |
| `CdromFind.LoadFile` | src/cdrom.c:446-456 | the size of the file is returned and the buffer starts with its bytes, if no read fails; 0 and an untouched buffer if there is no such file |
| `RdbTable.GetRdb` | src/rdb.c:70-89 | the first of blocks 0 to 15 that can be read and is a checksummed RDSK block |
| `RdbTable.ScanEndsIff` | src/rdb.c:102-117 | the search for a partition ends if and only if no partition block on the way has a bad checksum, cyclic chains included, and then with the block at that place of the chain or with none |
| `RdbTable.NthIffShort` | src/rdb.c:102-120 | the partitions found are numbered from 0 without a gap, up to the length of the chain |
| `RdbTable.SelfLoopIsEveryPart` | src/rdb.c:109-111 | a partition block that links to itself is every partition |
| `RdbTable.GetPartition` | src/rdb.c:91-120 | the loop gives the block at the given place of the chain |
| `RdbTable.InfoIsExtent` | src/rdb.c:122-125 | start is the first block of the partition and start + size the last: size is one less than the number of blocks its declaration in src/uboot.h:91 announces |
| `RdbTable.PartitionsApart` | src/rdb.c:122-125 | partitions on separate cylinders of one geometry share no block |
| `RdbTable.Table.Init` | src/rdb.c:141-172 | the filled slots are a prefix, as long as the chain but at most 16, holding the partitions in chain order; all empty without an RDB |
| `RdbTable.Table.Get` | src/rdb.c:174-181 | a partition if and only if its number is below the number of filled slots |
| `RdbTable.Table.GetByName` | src/rdb.c:183-190 | stopping at the first empty slot still gives the lowest match of the whole table |
| `RdbTable.NameReads` | src/rdb.c:127 | a drive name stored with its length byte in front, as src/rdb.h:129 declares it, is read back |
| `RdbLayout.RdbReads` | src/rdb.h:65-108 | an RDB laid out field by field is read back: sums, block size, partition and boot block lists, and the bounds for hard blocks |
| `RdbLayout.PartReads` | src/rdb.h:120-156 | a partition block laid out field by field is read back: its name, its type, the size of a block, its first and its last block |
| `RdbLayout.KindReads` | src/rdb.c:129-136 | a DOS type of three characters and a version below ten reads as these characters, a backslash and the digit |
| `RdbLayout.TableIsChain` | src/rdb.c:141-172 | on a disk with a chain of such blocks, slot i is the i-th partition of the chain, with its name, number and blocks, and empty behind the last one |

## Left out

Contracts that ask for more, or say less, than the code alone would suggest:

- Installer.Run: the disk is the first 2^23 blocks, which is what the 32-bit byte position of fseek addresses; disks below 4 GiB, where a read past the end fails, are not modelled, nor are failing reads and writes. The block RDBBlocksHi - RDBBlocksLo, at which the search ends, and the image behind it must fit below that bound.
- Installer.Checksum: the heap words behind the 512-byte copy are the same in every call; the same holds for the words behind the image that the last memmove copies.
- Support.StrToL: the multiplications wrap around in 32 bits, which C leaves undefined for signed numbers.
- MenuParser.Parse: the buffer holds no NUL before its length, lines are values and not character arrays trimmed in place, the memory of lines and words is not followed, and an entry may have more than the 100 modules its array has room for.
- MenuParser.MenuItem.Free: only the entry itself is followed, not the strings it owns.
- SfsTree.GetBNode: the key asked for is not below the first key of the tree, because the downward scan of a node has no lower stop; nodes are not empty, and each separator is the first key below it.
- SfsFile.CopyFile: each extent met until the size is reached is looked up without a failed checksum test, at or above the first key of the tree, because the result of get_bnode is not checked, and none is empty, because the code would not advance; loadsector is taken to succeed.
- SfsDir.Find: directory chains are acyclic, every container ends in an object whose node is zero, and objects lie inside their block.
- ElfLoader.Loader.LoadElf: addresses do not wrap around in 32 bits, alignments are powers of two, the file buffer lies outside the memory that sections get, indices of symbols and sections are in range, an unloaded section has address 0, fewer than 1024 BSS sections are tracked, and headers, symbols and entries are given decoded. That the header begins with a valid ELF identification is taken for granted.
- ElfModule.SectionLoaded: each relocation section patches inside its target section.
- ElfAddresses.EntryIsRight: the code relocates no section loaded at physical address 0, and the value of a symbol in a section without memory means nothing, so both are left out.
- ElfRegister.Bounds: says nothing about the bounds but their range if a section runs past the end of the address space.
- CdromRead.ReadIsFlat: a block_read of several sectors that passes sector 2^32 - 1 goes on at sector 0, as the code itself counts.
- CdromSusp.GetEntry: areas hold at least one entry, entries are at least four bytes long and complete, and the chain of CE entries ends.
- CdromDir.NmRenames: at most one byte is skipped in front of the entries; the code does not take skipped bytes off the length of the area, so that it reads on behind a record where more are.
- CdromFind.FindFile: a path has at most nine components, the room of the array they are recorded in; with Rock Ridge, the System Use areas of all records in the directories that can be reached are in order.
- CdromFind.LoadFile: the buffer has room for the file; with Rock Ridge, where a failed read of a System Use area counts as no NM entry, it also has room, unless no later call fails, for every file in the directories covered that has the last name of the path, by its NM entry or its record.
- RdbTable.Table.Init: no partition block on the chain has a bad checksum, else the code does not end; a block read twice reads the same; a drive name has a NUL within its 32 bytes.
- RdbTable.GetPartition: ends at the block found; the fields decoded from it are those of PartitionOf.

Not modelled:

- sfs_create and cdrom_create: finding and checking a volume.
- magic_load, dev_load and menu_load: choosing the device and the file a menu is read from, and giving entries without a device the partition they came from.
- The menu display, keys, video, serial line and progress bars: user interface.
- src/context.c, src/ext2.c, src/tftp.c, device scanning and file names of devices: calls of the firmware.
- Starting a kernel, its tag list, cache and stack handling: hardware effects.
- list_new, list_append and the other list helpers beyond the linking of entries: easy members.
- Failing allocations and memory that is never freed.
