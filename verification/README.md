# Verification of uFAT, simpledb and smaller programs of the repository

This project models the programs whose correctness rests on reasoning across functions, and proves what they are for.

**uFAT** (`mysh/fs`), a FAT12, FAT16 and FAT32 file system, layer by layer. Each layer has a simple specification that the
next one is proved against:

| module | layer | specification |
|---|---|---|
| `UfatCache` | write-back block cache, FAT mirroring, reads and writes past the cache | a flat array of blocks |
| `UfatFat` | the three packed encodings of the FAT | a sequence of cluster values |
| `UfatChain` | allocating and releasing cluster chains | chains of distinct clusters and free clusters |
| `UfatLayout`, `UfatFile` | file handles that keep a position inside a chain | a sequence of bytes |
| `UfatNames`, `UfatListing` | directory records, fragments of long names | a list of entries |
| `UfatDir`, `UfatDirOps`, `UfatShort`, `UfatDirEdit` | directories: growing, listing, inserting an entry, deleting one | the same list |
| `UfatLookup`, `UfatMove`, `UfatDelete`, `UfatMkdir` | finding, making, moving and deleting files and directories by name | the same list and the chains of the entries |
| `UfatMkfs` | formatting and opening | a planned layout with a free table |
| `UfatRuns` | runs through all layers | what is on the device in the end |

The device may refuse any request and then leaves the addressed blocks with arbitrary bytes. `Device.failures` counts the
refusals and `Device.refused` holds the blocks of refused writes, so that contracts say both what holds without refusals
and what holds in spite of them. `Ufat.Valid()`, which every operation keeps, ties the cache to the flat block array and
says which mirrors may differ from the first FAT: this is why the statement of `UfatCache.Ufat.Sync` on mirrors is one
about every run. Frames (`Protected`, `Kept`) say what an operation on one file or directory leaves alone.

**simpledb**, a paged B+tree (`SdbTree`, `SdbGrow`, `SdbTable`): the table is a sorted sequence of rows. **The expression
compiler** of `myStack.py` (`Postfix`). **The event-driven server** (`EchoServer`), proved against the blocking one.
**The H.264 bit layer** (`BitStream`, `NalUnit`; ITU-T H.264 sections 7.2, 7.3.1, 7.4.1.1 and 9.1). **Path search**
(`PathSearch`) and **the Internet checksum** (`Checksum`; RFC 1071, sections 1 and 2).

`dafny verify dfyconfig.toml` checks everything. Methods that only take ghost arguments more than the source's functions
do (a chain, a place, a set of clusters) use them to state their contracts.

## Where the code falls short

These properties are false of the code. Each has a lemma or a contract that says when the code meets it.

- Reading and skipping (`mysh/fs/ufat_file.c:98-104` and `190-227`) are exact if and only if the position is inside the
  file or the count is 0: `File.Read`, `File.Advance`, `ReadLimitExact`. A write that runs out of clusters leaves the
  position behind the recorded size (`File.WriteWhenFull`); reading 1 byte there reports an invalid cluster instead of 0
  bytes, and skipping 1 byte moves the position into no cluster.
- Counts are returned as `int`: from 2^31 bytes on they look like errors (`CountReturned`).
- A FAT12 table reads 0xff0 as an end of chain, so that this cluster could not be linked; the allocator leaves it out
  (`StoredValueSurvives`).
- Writing a FAT32 entry overwrites its four reserved bits (`mysh/fs/ufat.c:592-607`): they survive if and only if they were
  the high bits of the value, which for every value this code stores are 0 (`ReservedBitsSurvive`, `WriteFat32`).
- Refused writes to mirrors are not reported (`mysh/fs/ufat.c:54-70`): after a successful sync a mirror differs only
  if it did so at opening or a write to it or to its original was refused (`Ufat.Sync`).
- The third case of truncation ignores an error of the release (`mysh/fs/ufat_file.c:465-476`); without refusals there is
  none (`File.Truncate`).
- A delete that is refused half-way leaves the entry without its long name (`DeleteEntry`, `PartlyDeleted`).
- Short names may hold a quotation mark, which the FAT specification forbids: `LegalDosChars` says exactly which characters
  pass (`mysh/fs/ufat_ent.c:307-315`).
- A search that the device refuses counts as one that finds nothing (`mysh/fs/ufat_dir.c:355`, `383` and `525`), so that a
  name can then be given twice; without refusals it cannot (`CheckName`, `MkFile`, `MoveEntry`).
- A closing parenthesis without an opening one is an error of the stack (`FailsOnUnopened`).
- An opening parenthesis that is never closed is no error but ends up in the postfix text, where `doMath` takes it for a
  minus. The text has parentheses if and only if the numbers of opening and closing ones differ (`UnclosedEndUpInText`);
  `1 ( 2` is evaluated to -1 (`UnclosedSubtracts`, for all numbers), and one in front of a whole expression misses an operand
  (`UnclosedIsEmitted`, `UnclosedMissesOperand`).
- `BFS_path` reports a failure when the start is a target itself (`BfsPath`, `SearchesAgree`).
- Removing emulation prevention bytes inverts adding them if and only if the payload ends in an even number of zero bytes,
  which every legal payload does (`RemovalInverts`).
- `bs_read_ue` overflows a signed integer behind more than 30 leading zeros, and then nothing is said of its result
  (`ReadUe`).

## Model

| member | source | states |
|---|---|---|
| `UfatCache.Ufat.constructor` | mysh/fs/ufat.c:304-322 | an opened volume shows the blocks of the device, no block is cached, and the mirrors that count as unequal are exactly those that differ from the first FAT on the device |
| `UfatCache.Ufat.FindSlot` | mysh/fs/ufat.c:113-155 | the slot scan finds the slot that holds the block if there is one, else the last free slot, else the first of the oldest slots, which are those opened longest ago as long as the 32-bit counters have not gone round |
| `UfatCache.Ufat.Open` | mysh/fs/ufat.c:113-181 | a block is made present without changing what any block reads as; on a refusal nothing is lost; with skip_read the absent block reads as zeros and its slot has to be written next |
| `UfatCache.Ufat.WriteCached` | mysh/fs/ufat_internal.h:135-145 | a copy into a slot marked dirty changes exactly these bytes of the block as callers see it |
| `UfatCache.Ufat.MirrorFat` | mysh/fs/ufat.c:54-70 | every other FAT gets the block, a refused copy is remembered, and no block outside the mirrors changes |
| `UfatCache.Ufat.Flush` | mysh/fs/ufat.c:38-74 | a slot is clean after a flush that did not fail, the flat block array is unchanged, and only a refusal of the first write is an error |
| `UfatCache.Ufat.Evict` | mysh/fs/ufat.c:77-96 | no block of the range is cached afterwards and the flat block array is unchanged, dirty blocks included |
| `UfatCache.Ufat.Invalidate` | mysh/fs/ufat.c:98-110 | no block of the range is cached afterwards, and blocks outside the range read as before |
| `UfatCache.Ufat.ReadAround` | mysh/fs/ufat_file.c:165-177 | the device read past the cache returns the blocks that callers see |
| `UfatCache.Ufat.WriteAround` | mysh/fs/ufat_file.c:353-361 | the device write past the cache makes the range read as the buffer and leaves every other block as it was |
| `UfatCache.Ufat.Sync` | mysh/fs/ufat.c:324-337 | when it reports no error the device holds the flat block array, and a mirror block equals the FAT block that it copies unless it differed at opening or a write to one of the two was refused; with equal mirrors at opening and no refusal ever, all mirrors equal the first FAT |
| `UfatCache.Ufat.TrueAges` | mysh/fs/ufat.c:121-139 | on every opened volume the 32-bit age of a slot is the number of openings since its own, as long as that is below 2^32 |
| `UfatCache.MirrorMeans` | mysh/fs/ufat.c:54-70 | the mirrors are exactly the blocks of the second and later FATs, each a whole number of FAT sizes above the block it is a copy of |
| `UfatCache.LittleEndian` | mysh/fs/ufat_internal.h:43-56 | the low byte of a field comes first |
| `UfatFat.ReadFat12` | mysh/fs/ufat.c:416-457 | reading an entry packed in one and a half bytes, also across two blocks, gives the entry of the table |
| `UfatFat.WriteFat12` | mysh/fs/ufat.c:552-573 | writing an entry changes this entry and no neighbour that shares a byte with it |
| `UfatFat.ReadFat16` | mysh/fs/ufat.c:459-485 | reading a two-byte entry gives the entry of the table |
| `UfatFat.WriteFat16` | mysh/fs/ufat.c:575-590 | writing a two-byte entry changes this entry and no other |
| `UfatFat.ReadFat32` | mysh/fs/ufat.c:487-515 | reading a four-byte entry gives the entry of the table |
| `UfatFat.WriteFat32` | mysh/fs/ufat.c:592-607 | writing a four-byte entry changes this entry and no other; its four reserved bits become the high bits of the value, and those of other entries stay |
| `UfatFat.ReservedBitsSurvive` | mysh/fs/ufat.c:592-607 | the reserved bits survive a write if and only if they were the high bits of the value, which for every value below 2^28 means that they were 0 |
| `UfatFat.ReadFat` | mysh/fs/ufat.c:518-531 | reading refines looking up a sequence of cluster values: free for no bits, bad for the first marker, an end for the others, a link for the rest; the only error without a refusal is an index outside the table |
| `UfatFat.EntryMeans` | mysh/fs/ufat.c:416-515 | on every volume an entry is free exactly when its stored bits are 0, bad exactly when they are the first marker, an end of chain exactly when they are above it (or 0xff0 on FAT12), and otherwise the number that is stored |
| `UfatFat.WriteFat` | mysh/fs/ufat.c:609-622 | writing refines updating one element and stores its bits: the stored bits of every other entry, every block outside the FAT and, after a refusal, all elements but this one are unchanged |
| `UfatFat.StoredBits` | mysh/fs/ufat.c:552-607 | a cluster number below all markers is stored as itself, the bad marker and the end of a chain as the first two markers |
| `UfatFat.StoredValueSurvives` | mysh/fs/ufat.c:416-622 | reading back what was written gives the value exactly for the end and bad markers and the numbers below all markers, except that FAT12 takes 0xff0 for an end of chain |
| `UfatFat.PatchSetsBytes` | mysh/fs/ufat.c:533-607 | storing bytes in a FAT block sets exactly these bytes of the FAT seen as one byte string |
| `UfatChain.FreeChain` | mysh/fs/ufat.c:624-641 | releasing terminates on every table, cyclic ones included, and frees exactly the entries visited from the start |
| `UfatChain.ReleaseVisitsChain` | mysh/fs/ufat.c:624-641 | from the head of a well-formed chain, the entries visited are the clusters of the chain, no more and no fewer |
| `UfatChain.AllocCluster` | mysh/fs/ufat.c:643-671 | the allocated cluster had no bits stored, is the first free one going round from the allocation pointer, and is the only entry that changes; without refusals it fails only when nothing can be allocated |
| `UfatChain.AllocChain` | mysh/fs/ufat.c:674-691 | a chain of exactly count distinct clusters that were free, ending in the end marker, and no other entry changed; without refusals it fails only when fewer can be allocated, and then the table is as it was |
| `UfatChain.Abandon` | mysh/fs/ufat.c:674-691 | an unfinished chain is a chain, so that releasing it frees exactly what was taken |
| `UfatLayout.BlockOfCluster` | mysh/fs/ufat_internal.h:71-82 | the blocks of a cluster lie on the device and block_to_cluster maps each of them back |
| `UfatLayout.ClustersInOrder` | mysh/fs/ufat_internal.h:71-76 | cluster 2 starts at the first data block, and each cluster behind the one before it |
| `UfatFile.FromFirstCluster` | mysh/fs/ufat_internal.h:71-82 | a file in the clusters from 2 on has the bytes of the device from the first data block on |
| `UfatLayout.FileBlockInjective` | mysh/fs/ufat_internal.h:71-82 | two bytes of a chain share a block only if they have the same block number in the file |
| `UfatFile.OpenFile` | mysh/fs/ufat_file.c:38-54 | a directory is refused; for every other entry the handle stands at the first byte of the file |
| `UfatFile.File.constructor` | mysh/fs/ufat_file.c:38-54 | a handle on a well-formed file stands at its first byte |
| `UfatFile.File.Rewind` | mysh/fs/ufat_file.c:56-61 | the handle stands at the first byte again |
| `UfatFile.File.AdvancePtr` | mysh/fs/ufat_file.c:63-96 | inside the chain the previous and current cluster become the ones around the new position; in general a move inside a cluster always succeeds, and a move out of no cluster is an error |
| `UfatFile.File.Advance` | mysh/fs/ufat_file.c:98-104 | bytes of the file are skipped up to its end exactly when the position is inside the file or nothing is to be skipped; behind the end at the end of the last cluster, the position goes on into no cluster or the missing cluster is noticed |
| `UfatFile.File.ReadBlockFragment` | mysh/fs/ufat_file.c:107-139 | the next bytes of the chain up to the end of a block, none if that is a whole block |
| `UfatFile.File.ReadBlocks` | mysh/fs/ufat_file.c:142-188 | the next whole blocks of the chain inside a cluster, read past the cache |
| `UfatFile.File.Read` | mysh/fs/ufat_file.c:190-227 | exactly the next min(size, rest) bytes of the file if and only if the position is inside the file or nothing is asked for; otherwise the bytes that the clusters hold there, or a missing cluster is reported; nothing is changed |
| `UfatFile.ReadLimitExact` | mysh/fs/ufat_file.c:195-196 | the 32-bit limit is the number of bytes to be read exactly when the position is inside the file or nothing is asked for |
| `UfatFile.EndNeedsCluster` | mysh/fs/ufat_file.c:107-188 | at the end of the last cluster every read that is not empty asks for a cluster |
| `UfatFile.CountReturned` | mysh/fs/ufat_file.c:190-417 | the returned count is negative, like an error, exactly from 2^31 on |
| `UfatFile.File.SetSize` | mysh/fs/ufat_file.c:229-242 | only the size field of the directory entry changes |
| `UfatFile.File.SetStart` | mysh/fs/ufat_file.c:244-260 | only the two start fields of the directory entry change |
| `UfatFile.File.EnsureRoom` | mysh/fs/ufat_file.c:263-287 | the position gets a cluster, which was free, and the bytes stay; without refusals it fails only on a full volume, and then nothing has changed |
| `UfatFile.File.WriteBlockFragment` | mysh/fs/ufat_file.c:289-327 | the bytes up to the end of a block are stored at the position, in a new cluster if need be |
| `UfatFile.File.WriteBlocks` | mysh/fs/ufat_file.c:329-371 | whole blocks inside a cluster are stored at the position past the cache |
| `UfatFile.File.Write` | mysh/fs/ufat_file.c:373-417 | the contents become the old ones with the data written over them at the position, the size is the larger of the old size and the end of the data, the position never wraps around, and nothing but the file and free clusters is touched, even on failure; without refusals it fails only on a full volume |
| `UfatFile.WriteKeepsTight` | mysh/fs/ufat_file.c:373-417 | a chain with exactly as many clusters as the size needs has exactly as many after a write from inside the file |
| `UfatFile.File.WriteWhenFull` | mysh/fs/ufat_file.c:373-417 | on a full volume a write at the end that does not fit in the last cluster leaves the position behind the end of the file |
| `UfatFile.File.TruncateEmpty` | mysh/fs/ufat_file.c:431-446 | the first case releases all clusters |
| `UfatFile.File.TruncateInside` | mysh/fs/ufat_file.c:448-463 | the second case keeps the cluster of the position and releases those behind it |
| `UfatFile.File.TruncateBetween` | mysh/fs/ufat_file.c:465-476 | the third case keeps the clusters before the position and releases those from it on |
| `UfatFile.File.Truncate` | mysh/fs/ufat_file.c:420-477 | the position becomes the end: the bytes before it stay, the chain has exactly the clusters that these need, the others are free and nothing else has changed |
| `UfatFile.OtherFilesKept` | mysh/fs/ufat_file.c:63-477 | whatever was done to a file, and even if it failed half-way, every other file has its chain, its entry and its contents |
| `UfatMkfs.CalculateLayout` | mysh/fs/ufat_mkfs.c:61-179 | the layout for a device of n blocks of 512 bytes, 35 <= n < 2^32, is the planned one |
| `UfatMkfs.NoWrap` | mysh/fs/ufat_mkfs.c:61-179 | none of the unsigned operations of the layout wraps around |
| `UfatMkfs.LayoutSound` | mysh/fs/ufat_mkfs.c:61-179 | the regions fit, the FAT has an entry for every cluster, and the number of clusters tells the type |
| `UfatMkfs.SizeTable` | mysh/fs/ufat_mkfs.c:92-122 | the FAT type and the cluster size for every size of a device |
| `UfatMkfs.LayoutTight` | mysh/fs/ufat_mkfs.c:124-176 | no block is wasted: the smallest FAT for all clusters that could lie behind the reserved blocks, as many clusters as fit, and the rest for the root directory |
| `UfatMkfs.LeastBlocks` | mysh/fs/ufat_mkfs.c:55-60 | room for bytes is rounded up to the least number of blocks of 512 bytes |
| `UfatMkfs.TableBytes` | mysh/fs/ufat_mkfs.c:138-148 | the bytes of a table end with those of its last entry |
| `UfatMkfs.Log2ExactLoop` | mysh/fs/ufat.c:183-200 | the logarithm of every power of two, and an error for every other number |
| `UfatMkfs.BootSector` | mysh/fs/ufat_mkfs.c:201-272 | the fields of the boot sector are those of the layout |
| `UfatMkfs.ParseBpb` | mysh/fs/ufat.c:202-289 | whatever the boot sector holds: when it is accepted, the sizes are powers of two, the regions start one behind the other, the clusters are as many as the sectors behind the tables hold, their number tells the type, and FAT32 has the root cluster that is stored |
| `UfatMkfs.OpenReadsPlan` | mysh/fs/ufat.c:202-289 | parse_bpb applied to what write_bpb stores recovers type, region starts, sizes and number of clusters |
| `UfatMkfs.VolumeFits` | mysh/fs/ufat_mkfs.c:61-179 | the recovered regions are disjoint and fit on the device |
| `UfatMkfs.FillBlock12` | mysh/fs/ufat_mkfs.c:299-346 | the running counters fill a FAT12 block with the fresh table |
| `UfatMkfs.FillBlock16` | mysh/fs/ufat_mkfs.c:348-383 | the running counter fills a FAT16 block with the fresh table |
| `UfatMkfs.FillBlock32` | mysh/fs/ufat_mkfs.c:385-421 | the running counter fills a FAT32 block with the fresh table |
| `UfatMkfs.InitFat` | mysh/fs/ufat_mkfs.c:299-421 | both FATs hold the fresh table and no other block is touched |
| `UfatMkfs.WriteBpb` | mysh/fs/ufat_mkfs.c:201-272 | the boot sector is on the device, and only reserved blocks are touched |
| `UfatMkfs.WriteFsInfo` | mysh/fs/ufat_mkfs.c:274-297 | the information sector and its copy hold the signatures and the number of free clusters, and no other block is touched |
| `UfatMkfs.Mkfs` | mysh/fs/ufat_mkfs.c:441-486 | a device that was formatted without refusals holds a fresh volume of the planned layout |
| `UfatMkfs.FormattedIsFree` | mysh/fs/ufat_mkfs.c:441-486 | on a fresh volume every data cluster reads as free except the FAT32 root, and every mirror equals the first FAT |
| `UfatRuns.FreeCountRight` | mysh/fs/ufat_mkfs.c:274-297 | the number in the information sector is the number of clusters that a fresh volume can allocate |
| `UfatRuns.FormatAndOpen` | mysh/fs/ufat_mkfs.c:441-486 | formatting and opening gives a volume of its own objects, with a free table, equal mirrors and an empty root directory, or the device has refused something |
| `UfatRuns.FirstFile` | mysh/fs/ufat_dir.c:374-395 | on a formatted and opened volume, a file that is made in the root directory is after a sync exactly what the device lists, and the FATs agree if nothing was refused |
| `UfatRuns.SyncAll` | mysh/fs/ufat.c:324-337 | the device has what callers see; with equal mirrors at opening and no refusals all mirrors equal the first FAT, whatever was done in between |
| `UfatRuns.SaveFile` | mysh/fs/ufat_file.c:373-417 | after a write and a sync the new contents are on the device, and the FATs agree if nothing was ever refused |
| `UfatNames.LfnPackFragment` | mysh/fs/ufat_ent.c:560-584 | the thirteen units, the number and the checksum are read back from the fragment |
| `UfatNames.LfnParser.Parse` | mysh/fs/ufat_ent.c:412-449 | the parser collects the name from its end and remembers where it started, or forgets a fragment out of order |
| `UfatNames.ParseDirent` | mysh/fs/ufat_ent.c:240-260 | the fields of an entry are read from its record |
| `UfatNames.PackDirent` | mysh/fs/ufat_ent.c:262-279 | the names are padded with spaces, and parsing a packed entry gives it back, except that only FAT32 keeps the high half of the cluster |
| `UfatNames.ShortChecksum` | mysh/fs/ufat_ent.c:493-509 | the checksum is that of the eleven padded characters |
| `UfatNames.CksumRotates` | mysh/fs/ufat_ent.c:488-491 | a step rotates the sum by one bit to the right and adds the character |
| `UfatNames.RotatesBack` | mysh/fs/ufat_ent.c:488-491 | eight steps with characters of value 0 give the sum back |
| `UfatNames.OneCharacter` | mysh/fs/ufat_ent.c:488-509 | a change of any bit of one character changes the checksum |
| `UfatNames.LongestName` | mysh/fs/ufat_ent.c:417-430 | a long name has up to 255 units: nineteen whole fragments and eight units of the twentieth |
| `UfatListing.ScanFragments` | mysh/fs/ufat_ent.c:412-449 | reading the fragments of a name collects the name from its end |
| `UfatListing.ScanWritten` | mysh/fs/ufat_dir.c:90-143 | the records of an entry with a long name, read in any state of the parser, are listed as that entry |
| `UfatListing.EntryWritten` | mysh/fs/ufat_dir.c:282-343 | writing a whole entry into free records adds it to the listing, in its place, and nothing else |
| `UfatListing.PartlyWritten` | mysh/fs/ufat_dir.c:282-343 | writing only some of the fragments changes nothing in the listing |
| `UfatListing.EntryDeleted` | mysh/fs/ufat_dir.c:171-203 | marking the records of an entry takes it from the listing, and nothing else |
| `UfatListing.PartlyDeleted` | mysh/fs/ufat_dir.c:171-203 | marking only the first records of an entry takes its long name from the listing, and nothing else |
| `UfatListing.MoreFree` | mysh/fs/ufat_ent.c:155-204 | more free records at the end change nothing in the listing |
| `UfatDir.InitDirentCluster` | mysh/fs/ufat_ent.c:207-227 | the blocks of a new directory cluster read as zeros and no other block changes |
| `UfatDir.Directory.Rewind` | mysh/fs/ufat_dir.c:70-74 | the handle stands at the first record |
| `UfatDir.Directory.ReadRaw` | mysh/fs/ufat_ent.c:136-152 | the record at the position, none at the end |
| `UfatDir.Directory.WriteRaw` | mysh/fs/ufat_ent.c:40-58 | exactly the first bytes of this record change, and nothing outside the directory |
| `UfatDir.Directory.AdvanceBlockInChain` | mysh/fs/ufat_ent.c:60-111 | the next block of the directory, in a new zeroed cluster at the end if one may be allocated; a failure leaves the records as they were |
| `UfatDir.Directory.AdvanceRaw` | mysh/fs/ufat_ent.c:113-134 | the next record; the directory grows only at its end, if it is a chain and may grow |
| `UfatDirOps.AllocateRaw` | mysh/fs/ufat_ent.c:155-204 | the handle stands at the first run of free records, which ends in a new cluster only if there is none without; the records are the old ones, perhaps with zeroed ones behind them, and without refusals it fails only where the root area has no such run or no cluster is free either |
| `UfatDirOps.DirRead` | mysh/fs/ufat_dir.c:90-143 | the next entry of the listing with its long name and the places of its records, or none when there is none; its names fit the buffers |
| `UfatLookup.Ucs2ToUtf8` | mysh/fs/ufat_ent.c:451-486 | the text of the units up to the first zero; a buffer of three bytes for each unit and one more is always large enough |
| `UfatLookup.Utf8Form` | mysh/fs/ufat_ent.c:460-480 | the bytes of a unit are its shortest UTF-8 form |
| `UfatLookup.FormatName` | mysh/fs/ufat_dir.c:76-87 | the text of the long name if there is one, else the short name with its extension; the buffer is always large enough |
| `UfatLookup.LfnIsLegal` | mysh/fs/ufat_ent.c:285-305 | exactly the names that are not empty, a dot or two dots and consist of ASCII characters from the space on without slashes |
| `UfatLookup.DirFind` | mysh/fs/ufat_dir.c:397-414 | the first entry of the listing whose shown name is the target in capitals, or none when there is none |
| `UfatLookup.CheckName` | mysh/fs/ufat_dir.c:380-384 | an illegal name and a name that is taken are refused; without refusals of the device a taken name always is |
| `UfatLookup.UserBits` | mysh/fs/ufat_dir.c:366-389 | of the attributes that a caller asks for, those for read-only, hidden, system and archive are kept |
| `UfatLookup.FindsNew` | mysh/fs/ufat_dir.c:374-414 | an entry that is inserted under a free name is the first one with that name, however it is spelled |
| `UfatLookup.OneFirst` | mysh/fs/ufat_dir.c:397-414 | only one entry is found under a name |
| `UfatLookup.MkFile` | mysh/fs/ufat_dir.c:374-395 | an empty file is listed under its name, or the listing is the old one; illegal and taken names are refused; without refusals no two entries have the same name if none had before, the new one is the one that is found, and legal new names fail only for want of a run and, outside the root area, of clusters |
| `UfatShort.CompareName` | mysh/fs/ufat_ent.c:618-649 | the name, or its part before the first slash, matches exactly when it is equal in capitals |
| `UfatShort.UpperMeans` | mysh/fs/ufat_ent.c:618-649 | two names are equal in capitals exactly when they differ in nothing but small ASCII letters and their capitals |
| `UfatShort.LegalDosChars` | mysh/fs/ufat_ent.c:307-315 | the characters of a short name are the printable ones without * + , . / : ; < = > ? [ ] backslash and bar |
| `UfatShort.Characters` | mysh/fs/ufat_ent.c:305-391 | digits, slashes and the characters around the number of a short name are those of ASCII |
| `UfatShort.ShortFirst` | mysh/fs/ufat_ent.c:318-356 | the first legal characters of the parts around the last dot, in capitals |
| `UfatShort.ShortNext` | mysh/fs/ufat_ent.c:358-387 | the number behind the last tilde is counted up and written at the end of the name |
| `UfatShort.NewNumber` | mysh/fs/ufat_ent.c:358-387 | a number of up to seven digits stands behind a tilde in the new name, a longer one fills the name |
| `UfatShort.OneNumber` | mysh/fs/ufat_ent.c:358-387 | a name has only one number, so that names with different numbers differ |
| `UfatDirEdit.ShortExists` | mysh/fs/ufat_ent.c:389-410 | the answer is whether an entry of the listing has this short name and extension, in capitals |
| `UfatDirEdit.NextCandidate` | mysh/fs/ufat_dir.c:300-310 | the search for a short name comes closer to its end with every name that is taken, since taken numbers need as many entries |
| `UfatDirEdit.ChooseShort` | mysh/fs/ufat_dir.c:298-310 | the first short name that no entry has, in the order of ufat_short_first and ufat_short_next; the search ends |
| `UfatDirEdit.WriteFragments` | mysh/fs/ufat_dir.c:324-336 | the fragments are in the run one after the other, and while the entry is missing the listing is the old one |
| `UfatDirEdit.InsertDirent` | mysh/fs/ufat_dir.c:282-343 | the listing is the old one with one entry more, which has the long name, a short name that no other entry has and a matching checksum; or the listing is the old one, and without refusals there was no run of free records and no cluster to add them |
| `UfatDirEdit.DeleteEntry` | mysh/fs/ufat_dir.c:171-203 | the listing is the old one without the entry; after a refusal the entry is still there, at worst without its long name |
| `UfatDirEdit.InsertThenDelete` | mysh/fs/ufat_dir.c:171-343 | deleting an inserted entry gives back the old listing |
| `UfatRuns.InsertAndDelete` | mysh/fs/ufat_dir.c:171-343 | after inserting, deleting and a sync the device lists what it listed before |
| `UfatMove.Across` | mysh/fs/ufat_dir.c:516-543 | an operation on one directory leaves the records and the chain of another one as they are |
| `UfatMove.MoveEntry` | mysh/fs/ufat_dir.c:516-543 | illegal and taken names are refused; the entry has its new name in the same or in another directory, and nothing else has changed; if it cannot be inserted both listings are the old ones, and without refusals there was no room for it; if the old entry cannot be deleted the new one is deleted again as far as that goes; without refusals no two entries of a directory get the same name |
| `UfatMove.MoveKeepsDistinct` | mysh/fs/ufat_dir.c:516-543 | moving gives no name twice, in neither directory |
| `UfatDelete.OpenRoot` | mysh/fs/ufat_dir.c:39-49 | the handle stands at the first record of the root directory, in its area or its chain |
| `UfatDelete.OpenSubdir` | mysh/fs/ufat_dir.c:51-68 | the handle stands at the first record of the directory of an entry, and what is no directory is refused |
| `UfatDelete.VerifyEmpty` | mysh/fs/ufat_dir.c:145-169 | without refusals the answer is whether the directory has only dot entries |
| `UfatDelete.DirDelete` | mysh/fs/ufat_dir.c:205-224 | the entry is gone from the listing, exactly its clusters are free again and nothing else has changed; dot entries and directories with other entries are refused, and only these unless the device refuses something |
| `UfatMkdir.CreateEmptyDir` | mysh/fs/ufat_dir.c:228-280 | a cluster that was free holds exactly the entries of the directory itself and of its parent; the parent keeps its records |
| `UfatMkdir.MkDir` | mysh/fs/ufat_dir.c:346-372 | a directory that has only its two dot entries is listed under its name, in a cluster that was free and is its own; or the listing is the old one, and without refusals the root area has no run for it, or at most one cluster is free; a full root area leaves the table as it was |
| `UfatMkdir.CanBeDeleted` | mysh/fs/ufat_dir.c:205-372 | a new directory passes the check of emptiness |
| `UfatRuns.MakeAndRemoveDir` | mysh/fs/ufat_dir.c:205-372 | without refusals a new directory can be deleted again, and then the listing is the old one and the cluster is free |
| `SdbTable.FindChild` | simpledb/node_btree.c:146-163 | binary search finds the first separator that is not below the key |
| `SdbTable.Table.LeafNodeFind` | simpledb/node_btree.c:116-142 | binary search finds the first cell of the leaf that is not below the key |
| `SdbTable.Table.InternalNodeFind` | simpledb/node_btree.c:166-179 | the leaf and the cell where the key is or has to be inserted |
| `SdbTable.Table.TableFind` | simpledb/table.c:22-31 | the slot of the key, or the only slot where it can be inserted in order |
| `SdbTree.SlotAbsent` | simpledb/statement.c:34-42 | the key is in the table exactly when it is the one in its slot |
| `SdbTable.Table.TableStart` | simpledb/table.c:8-17 | the cursor stands at the first row, at the end of an empty table |
| `SdbTable.Table.CursorAdvance` | simpledb/table.c:39-53 | the cursor goes to the next cell, through the links between the leaves |
| `SdbTable.Table.ExecuteSelect` | simpledb/statement.c:49-59 | the rows printed are the rows of the table, each once, in strictly increasing order of the keys |
| `SdbTable.Table.GetPage` | simpledb/pager.c:57-86 | a page that was not in use is appended and no other page changes |
| `SdbTable.Table.constructor` | simpledb/table.c:55-69 | a new table is a root leaf without rows |
| `SdbTable.Table.CreateNewRoot` | simpledb/node_btree.c:9-35 | the old root moves to a new page, and page 0 is an internal root with two children |
| `SdbTable.Table.UpdateInternalNodeKey` | simpledb/node_btree.c:181-184 | the separator of the divided leaf becomes its new largest key |
| `SdbTable.Table.InternalNodeInsert` | simpledb/node_btree.c:187-221 | the new child and its separator are in their place, as the last child or before it; it fails exactly when the root is full |
| `SdbTable.Table.Divide` | simpledb/node_btree.c:54-76 | the descending loop distributes the old cells and the new one, in order, over the two leaves |
| `SdbTable.Table.LeafNodeSplitAndInsert` | simpledb/node_btree.c:39-89 | the tree is valid and holds the new cell in its place, with at least half of the cells on each side; it fails exactly when pages or separators are exhausted |
| `SdbTable.Table.LeftCount` | simpledb/node.h:72-73 | both sides of a division get at least half of the cells, rounded down, and the left one the odd one |
| `SdbTable.Table.LeafNodeInsert` | simpledb/node_btree.c:94-112 | the tree is valid and holds the new cell in its place, with or without dividing the leaf |
| `SdbTable.Table.ExecuteInsert` | simpledb/statement.c:29-47 | a duplicate key changes nothing; a new key keeps every invariant of the tree, half full leaves included, and the rows become the old ones with exactly the new row in order; the program exits exactly when the leaf is full and pages or separators are exhausted, and never with fewer rows than one full and otherwise half full leaves hold; for all capacities |
| `SdbTable.ExhaustedRows` | simpledb/node_btree.c:39-89 | when separators or pages are exhausted there are at least as many rows as a full leaf and maxKeys (or 98) half full ones hold |
| `SdbTable.Capacity` | simpledb/node_btree.c:39-89 | with the capacities of the source the table takes 139 rows in any order; with more separators its 100 pages are the limit |
| `SdbTable.InsertedAsMap` | simpledb/statement.c:29-47 | as a map from keys to rows, the rows with the new one are the old map and exactly the new key |
| `Postfix.Stack.Push` | python/algorithm/data_struct/myStack.py:11-12 | the item is on top |
| `Postfix.Stack.Pop` | python/algorithm/data_struct/myStack.py:13-14 | the top item is taken, and an empty stack is an error |
| `Postfix.Infix2Postfix` | python/algorithm/data_struct/myStack.py:68-99 | the loops compute the translation of the token list, errors included |
| `Postfix.PostfixVal` | python/algorithm/data_struct/myStack.py:111-125 | the loop computes the evaluation of the token list, errors included |
| `Postfix.PrecedenceIsGrammar` | python/algorithm/data_struct/myStack.py:69-74 | comparing the precedences of the dictionary accepts exactly the expressions of the usual grammar of sums, terms and factors, grouped from the left |
| `Postfix.TranslatesToPostorder` | python/algorithm/data_struct/myStack.py:68-99 | every way of writing an expression by the grammar, with any extra parentheses, is translated to its postorder |
| `Postfix.EvaluatePostorder` | python/algorithm/data_struct/myStack.py:111-125 | evaluating a postorder pushes the value of the expression: sums, differences, products and quotients of its operands, with a division by 0 as the only error |
| `Postfix.CompilerCorrect` | python/algorithm/data_struct/myStack.py:68-125 | translating and evaluating gives the value of the expression, and no stack is popped when empty |
| `Postfix.CompileAndRun` | python/algorithm/data_struct/myStack.py:68-125 | the same for the two methods |
| `Postfix.Unambiguous` | python/algorithm/data_struct/myStack.py:68-99 | a token list is a way of writing at most one expression |
| `Postfix.FailsOnUnopened` | python/algorithm/data_struct/myStack.py:87-91 | the translation fails exactly when a closing parenthesis has no opening one |
| `Postfix.UnclosedEndUpInText` | python/algorithm/data_struct/myStack.py:81-99 | the postfix text has as many opening parentheses as are never closed, so it has some exactly when the numbers of opening and closing ones differ |
| `Postfix.UnclosedSubtracts` | python/algorithm/data_struct/myStack.py:81-125 | a ( b is translated to a b ( and evaluated to a - b, for all numbers |
| `Postfix.UnclosedIsEmitted` | python/algorithm/data_struct/myStack.py:97-98 | an opening parenthesis in front of an expression is put out behind it |
| `Postfix.UnclosedMissesOperand` | python/algorithm/data_struct/myStack.py:102-125 | evaluating that misses an operand, so that the stack is empty when it is popped |
| `EchoServer.AnswerBuffer` | socket/socket_server/sequential-server.c:35-55 | the loop over a received buffer sends the answers of the transducer to it |
| `EchoServer.ServeConnection` | socket/socket_server/sequential-server.c:16-58 | the blocking server has sent a star and the transducer's output for all that was received, and stops short of that exactly when a call failed or was delayed |
| `EchoServer.Answered` | socket/socket_server/sequential-server.c:25-56 | each message between a caret and a dollar sign is answered with its bytes incremented modulo 256 |
| `EchoServer.OnlyStar` | socket/socket_server/sequential-server.c:25-56 | what holds no message is answered with the star alone |
| `EchoServer.ProcessBuffer` | socket/socket_server/select-server.c:102-123 | the loop over a received chunk appends the same answers to the send buffer, and its bound is never exceeded |
| `EchoServer.Server.OnPeerConnected` | socket/socket_server/select-server.c:63-76 | a new peer is owed a star and monitored for writing |
| `EchoServer.Server.OnPeerReadyRecv` | socket/socket_server/select-server.c:78-127 | bytes sent and bytes in the buffer are together what the blocking server would send for the input so far; the status asks for writing exactly when something is unsent, for nothing exactly when the peer hung up, and the only failures are those of the receive call |
| `EchoServer.Server.OnPeerReadySend` | socket/socket_server/select-server.c:129-161 | a partial send keeps what is owed, and an emptied buffer starts at its beginning again; the only failures are those of the send call |
| `EchoServer.Server.LooksBlocking` | socket/socket_server/select-server.c:63-161 | a peer that is open and waited for reading has been sent exactly what the blocking server would have sent |
| `EchoServer.Server.OneDirection` | socket/socket_server/select-server.c:200-292 | no peer is monitored for reading and writing at once |
| `EchoServer.Server.Pass` | socket/socket_server/select-server.c:213-292 | one pass over what select reports makes exactly one call for every reported event and keeps all peers served; it ends the program exactly when a call failed or a peer got a descriptor beyond the tables |
| `EchoServer.Server.Serve` | socket/socket_server/select-server.c:200-292 | at every loop head of every run each open peer is served and monitored for exactly one direction; the server dies exactly when a call failed or a peer got a descriptor beyond the tables |
| `PathSearch.DfsSearch.Recurse` | python/algorithm/006.graph_bfs_dfs.py:75-90 | a path to a target, or every node visited on the way is no target and all its successors are visited or dead ends |
| `PathSearch.DfsPath` | python/algorithm/006.graph_bfs_dfs.py:70-92 | a path to a target is found exactly when there is one |
| `PathSearch.Enqueue` | python/algorithm/006.graph_bfs_dfs.py:108-113 | the children not searched yet are queued with their way back, and keep the order of distances |
| `PathSearch.WalkBack` | python/algorithm/006.graph_bfs_dfs.py:115-123 | following the ways back ends at the start and gives a path of the distance of the end |
| `PathSearch.NotNearer` | python/algorithm/006.graph_bfs_dfs.py:94-124 | no path to a target is shorter than the distance at which the search stands |
| `PathSearch.BfsPath` | python/algorithm/006.graph_bfs_dfs.py:94-124 | a path with the fewest edges is found exactly when a target can be reached and the start is none |
| `PathSearch.SearchesAgree` | python/algorithm/006.graph_bfs_dfs.py:70-124 | the two searches disagree exactly when the start is a target |
| `BitStream.BitReader.ReadU1` | h264/H264Analysis/bs.h:93-112 | the next bit, 0 behind the end |
| `BitStream.BitReader.PeekU1` | h264/H264Analysis/bs.h:82-90 | the next bit without reading it |
| `BitStream.BitReader.ReadU` | h264/H264Analysis/bs.h:121-136 | the number that the next n bits make, for up to 32 bits |
| `BitStream.BytesToNumber` | h264/H264Analysis/bs.h:93-136 | the bits of a byte are read the highest first, and bytes as a number to the base 256 |
| `BitStream.ReadUe` | h264/H264Analysis/bs.h:141-161 | the value of the next code word and exactly its bits, for up to 30 leading zeros |
| `BitStream.ReadSe` | h264/H264Analysis/bs.h:166-183 | the signed value of the next code word |
| `BitStream.UeInverts` | h264/H264Analysis/bs.h:141-161 | an unsigned code word is decoded to its value and consumed exactly, for all values up to 2^31 - 2 and whatever follows |
| `BitStream.SeInverts` | h264/H264Analysis/bs.h:166-183 | the same for signed numbers up to 2^30 - 1 in size |
| `BitStream.ReadAll` | h264/H264Analysis/bs.h:141-183 | any sequence of signed and unsigned code words is decoded to the list that was coded, at any place of a stream |
| `BitStream.MoreRbspData` | h264/H264Analysis/nalu.c:222-246 | false exactly when the rest is empty or a one and zeros; the reader stays where it is |
| `NalUnit.NalToRbsp` | h264/H264Analysis/nalu.c:156-186 | the compaction in place leaves the bytes without the emulation prevention bytes |
| `NalUnit.RemovalInverts` | h264/H264Analysis/nalu.c:156-186 | removing gives back the payload exactly when the payload ends in an even number of zeros, and leaves one byte 3 too many otherwise |
| `NalUnit.NoStartCode` | h264/H264Analysis/nalu.c:156-186 | the encoded form shows no start code, which is what the removed bytes are for |
| `Checksum.SumEvery16Bits` | tcpip/common/utils.c:25-41 | the sum of the 16-bit words, with a last odd byte, modulo 2^32 |
| `Checksum.OddByte` | tcpip/common/utils.c:37-38 | a last odd byte counts as if a byte 0 followed |
| `Checksum.ByteWeight` | tcpip/common/utils.c:25-41 | a byte at an even place counts for itself, one at an odd place for 256 times as much |
| `Checksum.Checksum` | tcpip/common/utils.c:45-60 | the fold loop ends and keeps the sum modulo 65535; the result is the complement |
| `Checksum.StoredChecksumVerifies` | tcpip/common/utils.c:45-60 | a header that stores its own checksum in an aligned word has checksum 0, whatever its sum is |
| `Checksum.NoOverflow` | tcpip/common/utils.c:25-41 | the 32-bit sum of a packet of up to 65536 bytes does not overflow |
| `Checksum.ChecksumVerifies` | tcpip/common/utils.c:45-60 | the same for the method, on headers of any length up to 65536 bytes, odd ones included |
| `Checksum.OneWordChange` | tcpip/common/utils.c:45-60 | of all changes of one word the check misses exactly the exchange of 0 and 0xffff |

## Left out

- UfatFile.File.Read: does not cover a position behind the recorded size in a file whose clusters hold 2^32 bytes or more, where the 32-bit position itself can wrap around.
- UfatFile.File.Write: is stated for sound handles; a handle that ufat_file_advance has moved into no cluster (see above) is not sound any more.
- UfatFile.File.Truncate: says only what stays untouched when the device refuses something.
- UfatFile.OtherFilesKept: takes two files that share no cluster and no entry; that a directory tree keeps its files apart is not modelled.
- UfatCache.Ufat.constructor: starts with an empty cache, while ufat_open leaves block 0 in a clean slot.
- UfatChain.FreeChain: after a refusal says only that entries that are not visited are unchanged.
- UfatMkfs.CalculateLayout: block sizes other than 512 bytes are computed but nothing is promised of them; the shifts of write_bpb agree only when sectors and blocks have the same size, and near the FAT12 limit larger blocks are read back as another type.
- UfatMkfs.ParseBpb: promises nothing for a sector size of 0, by which the source divides; that the table of an arbitrary volume has room for all its clusters is not checked by the source and is an assumption of the other layers (`FatUsable`).
- UfatNames.LfnParser.Parse: excludes fragments whose number is 0 modulo 64, which make the source write in front of its buffer or, with first byte 0, are mostly ignored (`Clean`).
- UfatDirEdit.InsertDirent: long names are ASCII, as the callers refuse all others (`LfnIsLegal`), and have up to 247 characters; the last fragment of a longer one is read past the end of an array (`mysh/fs/ufat_dir.c:325`). The conversion from UTF-8 for other names, which tests continuation bytes wrongly (`mysh/fs/ufat_ent.c:526-537`), is not modelled.
- UfatDirEdit.ChooseShort: directories of fewer than 9999999 entries; in a larger one all numbers can be taken, and then the source never stops looking.
- UfatMove.MoveEntry: takes two directories that are the same or share no cluster; moving a directory does not change its entry for the parent, as in the source.
- UfatDelete.DirDelete: takes an entry whose clusters are a chain apart from those of the directory, as for all files of a sound volume; the pseudo-entry of the root directory, which has no block and which moving and deleting refuse, is no entry here.
- UfatMkdir.MkDir: when the entry cannot be inserted for want of clusters, says that the listing is the old one and at most one cluster is free, but not whether the parent has grown.
- UfatLookup.LfnIsLegal: characters are signed, as on most machines; where they are not, bytes from 128 on would be legal.
- SdbTable.Table.ExecuteInsert: a full root makes the program exit, as the source does not divide internal nodes; the tree has at most two levels.
- SdbTable.Table.GetPage: pages are records in memory; files, flushing and the byte layout of nodes and rows are not modelled (`simpledb/node.c:127` adds 4 words instead of 4 bytes, and `simpledb/row.c:38-39` copies one byte too many).
- Postfix.PostfixVal: numbers are reals; the text of numbers is not modelled, so that leading zeros, which eval rejects, and digits that only isdigit knows are not either.
- EchoServer.Server.Serve: any number of passes, each with any answer of select; that clients are served in the end depends on the kernel.
- EchoServer.ServeConnection: bounded by a number of receive calls, since clients may send for ever.
- BitStream.ReadUe: the overflow behind more than 30 leading zeros.
- Paths of several components, changing attributes and timestamps, and statistics in uFAT.
- The second FAT implementation (`fat32/thinfat32.c`), whose release of chains does not follow links reliably.
- rbsp_to_sodb, find_nal_unit and the parsing of parameter sets and slices in the H.264 analyser.
- The checksum refresh of ip_forward, the ARP cache, routes and threads of tcpip.
- Command parsing of simpledb, parChecker and baseConvert of `myStack.py`, the two plain traversals of `006.graph_bfs_dfs.py`, sorting and coin-change exercises: easy members.
- Sockets, devices, files, clocks and memory: receive, send, accept, select and device requests are nondeterministic; allocation does not fail.
- Qt, PyQt, Flask, OpenCV, scraping, database and tutorial scripts.
