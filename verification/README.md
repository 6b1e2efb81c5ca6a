# Image builders, ring protocol and checksum: a verification model

This project models four parts of the repository's host tools and boot loader and proves what they are there for.

* **Squashfs 2.0 writer and reader** (`Bits`, `BitFields`, `MetadataBlocks`, `MetadataStream`, `Inodes`,
  `Directories`, `FileBlocks`, `DataStore`, `Duplicates`, `FragmentTable`, `Room`, `Items`, `Archives`, `Appending`,
  `Trees`, `Scanning`, `Images`, `Extending`, `Formats`, `SortFiles`, `BaseName`). mksquashfs keeps growing streams of
  inodes and directories, cuts them into blocks of 8192 bytes, compresses each block and hands out inode numbers
  before the block they point into is compressed. It packs file tails into fragment blocks, looks up duplicates
  through hash chains and groups directory entries under headers. read_fs.c reads all of it back, so that a later run
  can append, or roll back when it is interrupted. The classes `MetadataTable`, `DirectoryBuffer`, `DataWriter` and
  `Archive` hold the globals of the program; the sequences `stream`, `runs`, `files`, `issued`, `blocks` and `items`
  say what these stand for: `Items` gives for every inode the file content or listing behind it. `Images.CreateImage`
  is the whole run for a new image, `Extending.AppendSources` for an append, `Extending.CreateAndAppend` any number of
  them.
* **Cramfs builder** (`CramInodes`, `CramFiles`, `CramTree`, `Cramfs`, `MkCramfs`). The directories are written with
  an explicit stack and patched afterwards, the data behind them, identical files once, all into a mapping whose size
  was estimated before. `MkCramfs.Build` is the whole run; its contract is the round trip and the exact size.
* **BCM5700 descriptor rings** (`Rings`). The class `Ether` holds the driver's indices, queues and rings together with
  the state of the NIC. Every driver call and every step of the NIC keeps the same invariant: each of the 64 packets
  is in exactly one place, and the indices say which slots are live. Calls run with steps of the NIC in between
  (`NicRuns`), and the NIC brings each field of the status block up to date on its own.
* **CRC-32** (`Crc32`). The table-driven loop, the bit-by-bit loop, what a comparison of sums is sure to notice, and
  the checksum field of the NVRAM record.

## How to read it

The compression library is a parameter (`Codec`) with the contract that decompressing a compressed block gives the
block and that compressed output is not empty. The host is little-endian where a native byte order matters. Disks and
images are byte sequences or byte arrays. A method models a loop or an update in place and is proved against a
function of its inputs or of the state; the lemmas are about these functions. `Holds(img, at, part)` says that `part`
lies at `at`. `Trees.ReadTree` and `Images.ReadImage` are a reference reader: they follow the format, from the
superblock through numbers, inodes, listings, blocks and fragments, as far as read_fs.c and mksquashfs.c fix it; each
data block but the last of a file has to be full. A run's result `ok` is false only where the contract says so:
`Room.TablesFit` is about 32-bit positions, `Scanning.SomeTooFar` about 24-bit block numbers, and `Room.Roomy` and
`Images.Modest` tell from sizes alone that neither happens.

Some results are about code that departs from its intent:

* A fragment table of a positive multiple of 1024 entries ends in a block of length zero, whose size word reads as
  0x8000 stored bytes. `FragmentTable.TableReadsBackUnlessFull` gives the exact condition,
  `FragmentTable.TableReadsBackIf` the one for a given content of the buffer the block is taken from,
  `FragmentTable.FullDependsOnScratch` the failure.
* duplicate() compares stored bytes and tails, not block lists. `FileBlocks.SharedBlocksServe` says when that is
  enough, `FileBlocks.SharedBlocksMayMislead` gives two files for which it is not. `Duplicates.Served` is the list a
  file is handed in a whole run; `Images.CreateImage` gives the condition on a tree of sources (`Duplicates.Agree`).
* create_inode copies as many words as the new file has blocks from the list of the file found, which may have fewer.
  `FileBlocks.ListIsLongEnough` says when it has enough, `FileBlocks.ListMayBeTooShort` gives two files for which it
  has not. What lies behind a list is a parameter (`behind`, `memory`). An image in which that happened cannot be
  claimed to be loaded correctly by a later append, since the words may then describe bytes beyond the data
  (`AllInBounds`).
* A directory of 2^19 bytes or more does not fit `file_size`; `Appending.ListingsAreRead` gives both directions.
* The comment at read_fs.c:123-130 says that there are always enough bytes for a regular file header. The walk reads
  such a header at every inode and can look beyond the table; the model lets these bytes be arbitrary and proves that
  they do not matter.
* set_data_offset in mkcramfs refuses offsets beyond the 28 bits of the field, write_superblock does not check the
  root's. `MkCramfs.Build` gives the condition under which the image reads back, `MkCramfs.MisreadBoot` shows that
  nothing weaker does, `MkCramfs.MisreadExample` names a run that completes and cannot be read back.

## Model

| member | source | states |
|---|---|---|
| BitFields.PutField | cfe_bcm63xx/hostTools/squashfs/mksquashfs.h:38-46 | the macro loop leaves the buffer with the bits of the value, and no others, added at the field's place, in either byte order |
| BitFields.GetField | cfe_bcm63xx/hostTools/squashfs/read_fs.h:38-47 | the macro loop returns the number whose bits are the bits of the image at the field's place |
| BitFields.PutBits | cfe_bcm63xx/hostTools/squashfs/mksquashfs.h:38-46 | bit by bit: what one write adds, and that every other bit of the buffer stays |
| BitFields.GetBits | cfe_bcm63xx/hostTools/squashfs/read_fs.h:38-47 | bit by bit: what one read returns |
| BitFields.PackHeader | cfe_bcm63xx/hostTools/squashfs/squashfs_fs.h:247-340 | clearing the buffer and writing the fields one after the other gives the packed header |
| BitFields.PackRoundTrip | cfe_bcm63xx/hostTools/squashfs/squashfs_fs.h:247-340 | for every set of disjoint fields that fit the macros' 64-bit word, every value in range is read back by the reader's macro, whatever its neighbours hold, in both byte orders |
| Inodes.LayoutsAreSound | cfe_bcm63xx/hostTools/squashfs/squashfs_fs.h:270-340 | the inode, directory and fragment headers are such sets of fields |
| Inodes.SuperBlockLayoutIsSound | cfe_bcm63xx/hostTools/squashfs/squashfs_fs.h:247-268 | so is the superblock |
| MetadataBlocks.MangleRoundTrip | cfe_bcm63xx/hostTools/squashfs/mksquashfs.c:250-315 | a block is stored in the library's form if that is shorter and it is not to be kept as it is, else as it is with the flag bit in its size word; either way it is recovered from its size word and its stored bytes; the word gives the number of bytes stored; storing never makes a block longer |
| MetadataBlocks.BlockRoundTrip | cfe_bcm63xx/hostTools/squashfs/read_fs.c:53-94 | a framed metadata block is read back from wherever it lies, and the position of the next block is right |
| MetadataBlocks.EncodeConcat | cfe_bcm63xx/hostTools/squashfs/mksquashfs.c:318-363 | a table is built piecewise: whole blocks are encoded independently of what is appended later |
| MetadataBlocks.StreamRoundTrip | cfe_bcm63xx/hostTools/squashfs/read_fs.c:108-121 | decoding a finished table gives the stream of items, for every stream and every place of the table |
| MetadataStream.NumberIsStable | cfe_bcm63xx/hostTools/squashfs/mksquashfs.c:205-205 | the number of an item depends on nothing that is appended after it |
| MetadataStream.NumberResolves | cfe_bcm63xx/hostTools/squashfs/mksquashfs.c:318-363 | a number handed out before its block was compressed leads, in the finished table, to exactly the item's bytes, also across a block boundary |
| MetadataStream.NumbersAreDistinct | cfe_bcm63xx/hostTools/squashfs/mksquashfs.c:205-205 | different positions have different numbers, in increasing order |
| MetadataStream.OldNumbersStayValid | cfe_bcm63xx/hostTools/squashfs/mksquashfs.c:318-363 | every item before the dropped root resolves under its old number in the table of every continuation of the stream |
| MetadataStream.ReadTable | cfe_bcm63xx/hostTools/squashfs/read_fs.c:97-121 | the reading loop of scan_inode_table returns the whole stream and the position in it at which the block of the root inode starts, or fails |
| MetadataStream.ReadBlocks | cfe_bcm63xx/hostTools/squashfs/read_fs.c:306-312 | the block loop of squashfs_readdir returns what decoding from that block on gives, until enough bytes are there |
| MetadataStream.ReadUntilPrefix | cfe_bcm63xx/hostTools/squashfs/read_fs.c:306-312 | on a written table that is a prefix of the rest of the stream, at least as long as was asked for |
| MetadataStream.MetadataTable.constructor | cfe_bcm63xx/hostTools/squashfs/mksquashfs.c:318-330 | an empty table for an empty stream |
| MetadataStream.MetadataTable.Loaded | cfe_bcm63xx/hostTools/squashfs/mksquashfs.c:1790-1808 | a table taken over from an existing image continues its stream; what is not pending any more is still in the buffer |
| MetadataStream.MetadataTable.EmitBlock | cfe_bcm63xx/hostTools/squashfs/mksquashfs.c:401-434 | one compressed block at the end of the table, which grows before it can overflow |
| MetadataStream.MetadataTable.FlushFullBlocks | cfe_bcm63xx/hostTools/squashfs/mksquashfs.c:318-363 | less than a block stays pending, table and pending bytes together still stand for the same stream |
| MetadataStream.MetadataTable.Append | cfe_bcm63xx/hostTools/squashfs/mksquashfs.c:318-363 | the item is added to the stream, and the number handed out at once is the one the finished table will have for it |
| MetadataStream.MetadataTable.FlushAll | cfe_bcm63xx/hostTools/squashfs/mksquashfs.c:401-434 | afterwards the table is the encoding of the whole stream |
| MetadataStream.MetadataTable.Save | cfe_bcm63xx/hostTools/squashfs/mksquashfs.c:1810-1820 | what is saved is the stream including the root that a new root replaces |
| MetadataStream.MetadataTable.Restore | cfe_bcm63xx/hostTools/squashfs/mksquashfs.c:213-235 | the saved stream is back, whatever was appended in between |
| Inodes.ReaderSplitsLikeWriter | cfe_bcm63xx/hostTools/squashfs/read_fs.c:152-155 | for every file size and both fragment options: if the fragment field is 0xffffffff exactly for an empty tail, the block count and tail length derived from it and file_size are those of write_file, and those that the options ask for |
| Inodes.WriterSplitsByOptions | cfe_bcm63xx/hostTools/squashfs/mksquashfs.c:1057-1074 | of the first 2^31 bytes of a file, all go into blocks without fragments; with them, a file shorter than a block is all tail, and of any other the rest behind the full blocks is, if that is always asked for, or nothing |
| Items.FileInodeIsWellFormed | cfe_bcm63xx/hostTools/squashfs/mksquashfs.c:536-553 | the inode create_inode makes of what write_file hands it has as many words as the walk of a later append will look for, whatever list the words are copied from |
| Inodes.IntsRoundTrip | cfe_bcm63xx/hostTools/squashfs/mksquashfs.c:547-553 | an array of block-list words reads back, in either byte order |
| Inodes.LookInvertsEncode | cfe_bcm63xx/hostTools/squashfs/mksquashfs.c:510-628 | at the start of an inode of any type, a file with as many words as its sizes call for, the walk sees its type, its sizes and its block list, and moves exactly to its end, whatever lies behind the table |
| Inodes.WalkInvertsCreation | cfe_bcm63xx/hostTools/squashfs/read_fs.c:140-226 | over any list of such inodes the walk stops at the start of each, in order, sees what was created and ends at the end; that an image holds no others is part of `Archive.Valid` |
| Inodes.ExpectedAt | cfe_bcm63xx/hostTools/squashfs/read_fs.c:140-226 | the k-th stop of the walk is the position at which create_inode put the k-th inode |
| Inodes.Walk | cfe_bcm63xx/hostTools/squashfs/read_fs.c:140-226 | the loop with its counters, byte totals and file registrations computes that walk, and fails exactly when it cannot be completed |
| Inodes.TallyCountsTypes | cfe_bcm63xx/hostTools/squashfs/read_fs.c:140-226 | each counter is the number of inodes of its type |
| Directories.EntryRoundTrip | cfe_bcm63xx/hostTools/squashfs/read_fs.c:330-344 | an entry with a name of 1 to 256 bytes is parsed back as it is, one with a longer name with the first 256 bytes of it, and the position after it is right |
| Directories.RunsRoundTrip | cfe_bcm63xx/hostTools/squashfs/read_fs.c:294-349 | the bytes of a directory, wherever they lie in a table, are parsed back to name, inode and type of every entry, in order |
| Directories.AddToRunsAdds | cfe_bcm63xx/hostTools/squashfs/mksquashfs.c:669-685 | grouping under headers keeps every entry and the order, and no header claims more than 256 entries or entries of another block |
| Directories.AddToRunsGroups | cfe_bcm63xx/hostTools/squashfs/mksquashfs.c:669-685 | a new header is written only behind 256 entries or where the block of the inodes changes |
| Directories.DirectoryBuffer.constructor | cfe_bcm63xx/hostTools/squashfs/mksquashfs.c:631-641 | an empty directory |
| Directories.DirectoryBuffer.CloseRun | cfe_bcm63xx/hostTools/squashfs/mksquashfs.c:669-679 | the pending header is filled in with the count and block of its run; the rest of the buffer stays |
| Directories.DirectoryBuffer.Add | cfe_bcm63xx/hostTools/squashfs/mksquashfs.c:644-698 | the entry joins the open run or starts a new one, and no write leaves the growing buffer |
| Directories.DirectoryBuffer.Finish | cfe_bcm63xx/hostTools/squashfs/mksquashfs.c:732-753 | the bytes handed out are those of the runs, the last header included |
| Directories.BuildDirectory | cfe_bcm63xx/hostTools/squashfs/mksquashfs.c:644-757 | for every list of entries: the parser returns it from the finished bytes, wherever they come to lie, with names of up to 256 bytes as they were; headers are written only where they have to be |
| Directories.DirectoryReadsBack | cfe_bcm63xx/hostTools/squashfs/read_fs.c:294-349 | read from the compressed table by the block and offset in its inode, a directory gives back the entries, however it is cut into blocks |
| Directories.CutDirectoryFails | cfe_bcm63xx/hostTools/squashfs/read_fs.c:294-349 | read with fewer bytes than it has, by 2^19 or more, as file_size tells once it is cut to 19 bits, it gives fewer entries or none |
| Directories.PushRun | cfe_bcm63xx/hostTools/squashfs/read_fs.c:326-344 | the inner loop computes the parser of one run |
| Directories.PushEntries | cfe_bcm63xx/hostTools/squashfs/read_fs.c:317-345 | the outer loop computes the parser of a directory |
| DataStore.GetChecksum | cfe_bcm63xx/hostTools/squashfs/mksquashfs.c:942-960 | the sum does not depend on how the data is read in chunks |
| Formats.ChecksumOnDisk | cfe_bcm63xx/hostTools/squashfs/mksquashfs.c:942-960 | adding a byte to the sum is rotating its 16 bits right by one place and adding without carry |
| FileBlocks.BlocksRoundTrip | cfe_bcm63xx/hostTools/squashfs/mksquashfs.c:1095-1108 | a file's own block list decodes its stored bytes to its data |
| FileBlocks.BlockListLength | cfe_bcm63xx/hostTools/squashfs/mksquashfs.c:1095-1108 | a file has as many size words as its split into blocks says |
| FileBlocks.BlocksByOptions | cfe_bcm63xx/hostTools/squashfs/mksquashfs.c:1095-1108 | block for block: the library's form if that is shorter and data is to be compressed, the size word being its length; else the data as it is, the size word being its length and 2^24 |
| FileBlocks.CopyStaysInside | cfe_bcm63xx/hostTools/squashfs/mksquashfs.c:536-553 | the words create_inode copies do not depend on what lies behind the list if and only if the list has as many as the file has blocks |
| FileBlocks.ListIsLongEnough | cfe_bcm63xx/hostTools/squashfs/mksquashfs.c:991-1027 | for the list of a recorded file that is so if and only if the recorded file has at least as many blocks |
| FileBlocks.SharedBlocksServe | cfe_bcm63xx/hostTools/squashfs/mksquashfs.c:991-1027 | a file whose words are copied from the list of another with the same stored bytes reads back if and only if the two lists agree, whether the other list is longer or shorter, whatever lies behind it and whatever is stored behind the bytes |
| FileBlocks.OverreadFails | cfe_bcm63xx/hostTools/squashfs/mksquashfs.c:536-553 | a list that is too short and continued with any words never decodes to the file |
| FileBlocks.StoredIsNoLonger | cfe_bcm63xx/hostTools/squashfs/mksquashfs.c:1095-1108 | the stored bytes of a file are never more than its data |
| FileBlocks.SharedBlocksMayMislead | cfe_bcm63xx/hostTools/squashfs/mksquashfs.c:991-1027 | they need not agree: a codec and two files of one block with the same stored bytes and different contents |
| FileBlocks.ListMayBeTooShort | cfe_bcm63xx/hostTools/squashfs/mksquashfs.c:536-553 | they need not even be equally long: a codec and files of one and of two blocks with the same stored bytes, of which, in one order, the second takes a word from behind a list and, in the other, reads back as the first half of the first |
| DataStore.TailStays | cfe_bcm63xx/hostTools/squashfs/mksquashfs.c:849-870 | a fragment keeps its bytes while its block fills up and leaves memory |
| DataStore.DataWriter.constructor | cfe_bcm63xx/hostTools/squashfs/mksquashfs.c:796-870 | nothing stored yet, with these options |
| DataStore.DataWriter.Loaded | cfe_bcm63xx/hostTools/squashfs/mksquashfs.c:1789-1800 | the fragment table of an existing image is taken over with what its blocks hold, under the options of this run |
| DataStore.DataWriter.GrowTable | cfe_bcm63xx/hostTools/squashfs/mksquashfs.c:833-835 | room for one more fragment entry, the others unchanged |
| DataStore.DataWriter.WriteFragment | cfe_bcm63xx/hostTools/squashfs/mksquashfs.c:825-846 | the block in memory is on disk for good, compressed or not as the option and its length say, with its place and size word in the table; nothing written before changes, every fragment issued keeps its bytes |
| DataStore.DataWriter.FillFragment | cfe_bcm63xx/hostTools/squashfs/mksquashfs.c:849-870 | the fragment handed out denotes the tail and lies behind what the block in memory holds, or at the start of the next block exactly if it does not fit there; for an empty tail it is SQUASHFS_INVALID_BLK, and nothing is written out |
| DataStore.DataWriter.GetFragment | cfe_bcm63xx/hostTools/squashfs/mksquashfs.c:796-822 | for every fragment ever issued the bytes stored under it, from memory or from disk |
| DataStore.DataWriter.SameBytes | cfe_bcm63xx/hostTools/squashfs/mksquashfs.c:1001-1015 | the chunked comparison decides equality of the stored bytes |
| DataStore.DataWriter.FindDuplicate | cfe_bcm63xx/hostTools/squashfs/mksquashfs.c:991-1027 | a match is reported if and only if some recorded file has the same stored bytes and the same tail |
| DataStore.DataWriter.Record | cfe_bcm63xx/hostTools/squashfs/mksquashfs.c:1030-1052 | the hash chains stand for the history with the new file added |
| DataStore.DataWriter.MangleBlocks | cfe_bcm63xx/hostTools/squashfs/mksquashfs.c:1095-1108 | the block loop yields block list and stored bytes of the data |
| DataStore.DataWriter.Reuse | cfe_bcm63xx/hostTools/squashfs/mksquashfs.c:1115-1120 | a file found among the recorded ones uses no space: blocks, list and tail are those of the one found |
| DataStore.DataWriter.Store | cfe_bcm63xx/hostTools/squashfs/mksquashfs.c:1121-1138 | any other file: its blocks are on disk, its tail in a fragment, and both in the duplicate index |
| DataStore.DataWriter.WriteFile | cfe_bcm63xx/hostTools/squashfs/mksquashfs.c:1057-1149 | the content is split into blocks and tail as the options ask for; where blocks and tail of the file are afterwards, in which fragment, how many words its inode gets, that the fragment is 0xffffffff exactly for an empty tail, that it counts as duplicate exactly when an equal one was recorded, and that nothing below the old end of data changes |
| DataStore.DataWriter.AddFile | cfe_bcm63xx/hostTools/squashfs/mksquashfs.c:963-988 | a file of the old image is found by later searches |
| DataStore.DataWriter.PutTail | cfe_bcm63xx/hostTools/squashfs/mksquashfs.c:860-866 | a tail that fits joins the block in memory behind what it holds |
| Duplicates.ServedStays | cfe_bcm63xx/hostTools/squashfs/mksquashfs.c:991-1027 | the list that is served for given stored bytes and tail is that of the first such file, and later files do not change it |
| Duplicates.IndexesNext | cfe_bcm63xx/hostTools/squashfs/mksquashfs.c:1030-1052 | recording a file, or finding it recorded, keeps the index in step with the history of all files: one record for each combination of stored bytes and tail, that of the first file |
| Duplicates.HandedIsServed | cfe_bcm63xx/hostTools/squashfs/mksquashfs.c:991-1027 | the list that duplicate hands out, or the file's own, is the one of that first file |
| Duplicates.OwnMeansAgree | cfe_bcm63xx/hostTools/squashfs/mksquashfs.c:991-1027 | over a whole history every file is served its own list if and only if any two files with the same stored bytes and the same tail have the same list |
| FragmentTable.WhatIsReadBack | cfe_bcm63xx/hostTools/squashfs/read_fs.c:352-389 | what read_fragment_table returns for every number of fragments, also where it differs from what was written |
| FragmentTable.TableReadsBackUnlessFull | cfe_bcm63xx/hostTools/squashfs/mksquashfs.c:873-919 | the table is read back for every content of the scratch buffer if and only if the number of fragments is not a positive multiple of 1024 |
| FragmentTable.TableReadsBackIf | cfe_bcm63xx/hostTools/squashfs/mksquashfs.c:892-905 | and for one content of the buffer: if and only if that holds or the buffer happens to decode to the last 1024 entries |
| FragmentTable.ReadsBackOrNot | cfe_bcm63xx/hostTools/squashfs/read_fs.c:352-389 | the same for a table that lies anywhere in an image |
| FragmentTable.FullDependsOnScratch | cfe_bcm63xx/hostTools/squashfs/mksquashfs.c:892-905 | for a positive multiple of 1024 two scratch buffers are named of which at least one is read back as wrong entries |
| FragmentTable.WriteFragmentTable | cfe_bcm63xx/hostTools/squashfs/mksquashfs.c:873-919 | the loop writes the table so described |
| FragmentTable.ReadFragmentTable | cfe_bcm63xx/hostTools/squashfs/read_fs.c:352-389 | the loop reads it so described, or fails |
| Formats.DirectoryInodeOnDisk | cfe_bcm63xx/hostTools/squashfs/squashfs_fs.h:299-305 | place and width of each field of a directory inode, and its type code, in numbers |
| Formats.FileInodeOnDisk | cfe_bcm63xx/hostTools/squashfs/squashfs_fs.h:290-297 | the same for a regular file, with a 32-bit word for each block behind the header |
| Formats.SymlinkInodeOnDisk | cfe_bcm63xx/hostTools/squashfs/squashfs_fs.h:285-288 | the same for a symbolic link, with the target behind the header |
| Formats.DeviceInodeOnDisk | cfe_bcm63xx/hostTools/squashfs/squashfs_fs.h:280-283 | the same for block devices, type 4, and character devices, type 5 |
| Formats.IpcInodeOnDisk | cfe_bcm63xx/hostTools/squashfs/squashfs_fs.h:270-278 | the same for pipes, type 6, and sockets, type 7 |
| Formats.MetadataBlockOnDisk | cfe_bcm63xx/hostTools/squashfs/mksquashfs.c:401-434 | a metadata block byte by byte: size word in the byte order of the image, marker, and the bytes stored, compressed exactly if the option allows it and it is shorter |
| Formats.TableOnDisk | cfe_bcm63xx/hostTools/squashfs/mksquashfs.c:318-363 | a table is cut into blocks of 8192 bytes and a rest |
| Formats.NumberOnDisk | cfe_bcm63xx/hostTools/squashfs/squashfs_fs.h:99-103 | the number of an item is the start of its block shifted by 16 bits, and its place in the block |
| Formats.RunHeaderOnDisk | cfe_bcm63xx/hostTools/squashfs/squashfs_fs.h:307-311 | the fields of a directory header in numbers |
| Formats.EntryOnDisk | cfe_bcm63xx/hostTools/squashfs/squashfs_fs.h:313-318 | the fields of a directory entry in numbers, and the name behind them, of at most 256 bytes |
| Formats.FragmentEntryOnDisk | cfe_bcm63xx/hostTools/squashfs/squashfs_fs.h:320-324 | the fields of an entry of the fragment table in numbers |
| Formats.SuperBlockOnDisk | cfe_bcm63xx/hostTools/squashfs/squashfs_fs.h:247-268 | the fields of the superblock, each starting where the one before it ends |
| Room.StreamIsFramed | cfe_bcm63xx/hostTools/squashfs/mksquashfs.c:401-434 | a table takes at most three bytes more than its stream for each block |
| Room.RunsAreLimited | cfe_bcm63xx/hostTools/squashfs/mksquashfs.c:644-698 | a listing takes at most a header, an entry and the stored name for each entry |
| Room.RoomyFits | cfe_bcm63xx/hostTools/squashfs/mksquashfs.c:1870-1875 | with so much room, told by sizes alone, the tables end below 2^32 whatever their contents |
| Items.NumberAtStays | cfe_bcm63xx/hostTools/squashfs/mksquashfs.c:205-205 | the number of an inode does not change while inodes are added |
| Items.HoldingStays | cfe_bcm63xx/hostTools/squashfs/mksquashfs.c:318-363 | what the inodes stand for, their blocks, tails and listings, stays in place while data, fragments and listings are added |
| Archives.Archive.constructor | cfe_bcm63xx/hostTools/squashfs/mksquashfs.c:1810-1820 | the state a run starts from and a rollback returns to |
| Archives.Archive.CreateInode | cfe_bcm63xx/hostTools/squashfs/mksquashfs.c:510-628 | an inode that stands for data in place joins the stream and gets its number |
| Archives.Archive.NewInode | cfe_bcm63xx/hostTools/squashfs/mksquashfs.c:510-628 | the same for devices, links, pipes and sockets |
| Archives.TracesMore | cfe_bcm63xx/hostTools/squashfs/mksquashfs.c:1057-1149 | over a whole run each new file was handed the list of the first file, old or new, with the same stored bytes and the same tail |
| Archives.Archive.WriteContent | cfe_bcm63xx/hostTools/squashfs/mksquashfs.c:1057-1149 | the inode of a file has exactly its own number of words, copied from that list or, if duplicates are not looked for, from its own; it takes no more room than its size tells |
| Archives.Archive.NewFile | cfe_bcm63xx/hostTools/squashfs/mksquashfs.c:1057-1149 | that inode is added and leads to the stored blocks and the tail of the file; it is always one the walk gets past |
| Archives.Archive.NewDirectory | cfe_bcm63xx/hostTools/squashfs/mksquashfs.c:701-757 | the inode that is added leads to the listing in the directory stream |
| Archives.Archive.Run | cfe_bcm63xx/hostTools/squashfs/mksquashfs.c:1320-1416 | any sequence of steps: one inode of the right kind for each, in order, with its number; both streams are only extended, by no more than the steps tell, and everything a rollback needs stays |
| Archives.Archive.CloseTables | cfe_bcm63xx/hostTools/squashfs/mksquashfs.c:1870-1875 | succeeds if and only if the tables end below 2^32; they lie one behind the other behind the data and hold what the streams say, inodes and directories compressed or not by one option, fragments by another |
| Archives.Archive.CloseFragments | cfe_bcm63xx/hostTools/squashfs/mksquashfs.c:873-919 | succeeds if and only if the blocks of the fragment table end below 2^32; where it and the image end, and when the table is read back |
| Archives.Archive.Finish | cfe_bcm63xx/hostTools/squashfs/mksquashfs.c:1870-1875 | the end of a run, which succeeds if and only if the tables end below 2^32: a closed image of all inodes and what they stand for, whose fragment table is read back if and only if nothing is lost in it; nothing below the saved end of data has changed |
| Archives.Archive.Abandon | cfe_bcm63xx/hostTools/squashfs/mksquashfs.c:213-235 | the end of an interrupted run, which succeeds if and only if the saved tables end below 2^32: a closed image of the saved contents, which can be appended to again if the original could and its fragment table survives |
| Appending.LoadInodes | cfe_bcm63xx/hostTools/squashfs/read_fs.c:413-469 | the rebuilt inode table and cache continue the old stream, without the root or with it, the whole old stream is saved, and the root inode's bytes are right |
| Appending.LoadDirectories | cfe_bcm63xx/hostTools/squashfs/read_fs.c:424-469 | the same for the directory table, and the entries of the root directory |
| Appending.RegisterFiles | cfe_bcm63xx/hostTools/squashfs/mksquashfs.c:963-988 | the duplicate index consists of the files the walk came across, every one of them is found in it, and for each combination of stored bytes and tail it has the first |
| Appending.WalkOfCreated | cfe_bcm63xx/hostTools/squashfs/read_fs.c:140-226 | over the inodes of an image the walk stops at each in front of the root, and what it registers and counts is what was created |
| Appending.LoadArchive | cfe_bcm63xx/hostTools/squashfs/read_fs.c:392-498 | from every image that can be appended to: the state in which the append starts, the state a rollback returns to, the duplicate index filled, and the counts and totals of what is there |
| Appending.ListingsAreRead | cfe_bcm63xx/hostTools/squashfs/read_fs.c:294-349 | in a closed image every directory with a place within the 24 bits of its inode is read back whole if its size fits the 19 bits of its inode, and only then |
| Appending.WalkSeesAll | cfe_bcm63xx/hostTools/squashfs/read_fs.c:140-226 | the walk over the decoded inode table of a closed image sees what was created, inode for inode, and its counters are the numbers of inodes of each type |
| Appending.AppendRun | cfe_bcm63xx/hostTools/squashfs/mksquashfs.c:1320-1416 | over a whole run of any steps, which succeeds if and only if the tables end below 2^32: every item before the old root resolves under its old number in the new image, every directory, old or new, is read back, the walk sees every inode, the old data is unchanged, the fragment table is read back if and only if nothing is lost in it, and if the last step made a directory that fits its inode the image can be appended to in turn |
| Appending.InterruptedAppend | cfe_bcm63xx/hostTools/squashfs/mksquashfs.c:213-235 | an interrupt after any number of steps, if and only if the original tables end below 2^32, leaves an image with the original inode and directory streams and data, every old number including the root's resolving, every directory and the walk as before, nothing below the saved position touched, and, if its fragment table survives, fit to be appended to again |
| Appending.AppendToImage | cfe_bcm63xx/hostTools/squashfs/mksquashfs.c:1789-1875 | from image to image, from nothing but that the old one can be appended to: AppendRun's results for the state that loading rebuilds, every number in front of the old root, or of a kept root, leading where it led |
| Appending.RollBack | cfe_bcm63xx/hostTools/squashfs/mksquashfs.c:213-235 | from image to image: whatever was appended before the interrupt, the old contents under the old root number, for an image of any contents |
| Trees.InodeReadsBack | cfe_bcm63xx/hostTools/squashfs/mksquashfs.c:510-628 | an inode of any type is read back whole, field by field |
| Trees.NumberLeadsTo | cfe_bcm63xx/hostTools/squashfs/mksquashfs.c:318-363 | in a closed image the number handed out for an inode leads to it |
| Trees.TailReadsBack | cfe_bcm63xx/hostTools/squashfs/mksquashfs.c:796-822 | a tail is read through the fragment table from its compressed block |
| Trees.ContentReadsBack | cfe_bcm63xx/hostTools/squashfs/mksquashfs.c:1057-1149 | from the inode of a file its content is recovered if its words are its own, and, where all lists are those of files stored in the same way, only then |
| Trees.FolderReadsBack | cfe_bcm63xx/hostTools/squashfs/mksquashfs.c:701-757 | a directory reads as its source if and only if its size fits its inode and all its children read as theirs |
| Trees.TreeReadsBack | cfe_bcm63xx/hostTools/squashfs/mksquashfs.c:1320-1416 | following the numbers from inode to listing to inode recovers the whole tree, with names, types, order, fields and contents, if every file has its own words and every directory a size that fits, and, where no list is foreign, only then |
| Trees.OrdinaryIsStoredWhole | cfe_bcm63xx/hostTools/squashfs/mksquashfs.c:1057-1061 | an image holds all of a source if and only if it has no file of more than 2^31 bytes and no name of more than 256 |
| Trees.KindIsTypeCode | cfe_bcm63xx/hostTools/squashfs/squashfs_fs.h:71-77 | the type that a directory entry gives for a source, in numbers |
| Trees.FewChildrenAreSmall | cfe_bcm63xx/hostTools/squashfs/squashfs_fs.h:299-305 | directories of at most 1993 entries fit their inodes, whatever the names |
| Scanning.AddChild | cfe_bcm63xx/hostTools/squashfs/mksquashfs.c:1345-1405 | the child gets an inode, and its entry goes behind those already made; fails only if the block of some inode number outgrows 24 bits |
| Scanning.WriteDirectory | cfe_bcm63xx/hostTools/squashfs/mksquashfs.c:1408-1409 | the directory made of the entries is the last in the directory table, and its inode the last in the inode table |
| Scanning.ScanChildren | cfe_bcm63xx/hostTools/squashfs/mksquashfs.c:1335-1406 | the loop over the children: their entries in order, their files the new ones, no more room taken than their sizes tell |
| Scanning.DirScan | cfe_bcm63xx/hostTools/squashfs/mksquashfs.c:1320-1416 | for every tree of sources, unless the block of some inode number outgrows 24 bits, each source has an inode of its kind and contents, and every directory lists its children, which were created before it, in order |
| Scanning.AddSource | cfe_bcm63xx/hostTools/squashfs/mksquashfs.c:1347-1402 | the same for one source of any kind |
| Scanning.TooFarIsLong | cfe_bcm63xx/hostTools/squashfs/mksquashfs.c:644-698 | that needs an inode table of 2^24 bytes |
| Images.ListsDecide | cfe_bcm63xx/hostTools/squashfs/mksquashfs.c:991-1027 | whether the files of a run have their own words in their inodes, and whether all lists copied from are long enough, is decided by the contents of the files alone |
| Images.MakeImage | cfe_bcm63xx/hostTools/squashfs/mksquashfs.c:1855-1875 | whatever the tree, the image is closed with an inode for every source, the root's last; within the limits of the format it holds the tree and can be appended to; the run fails only if the tables do not end below 2^32 or the block of some inode number outgrows 24 bits, and never if there is room for what the sources add at most |
| Images.CreateImage | cfe_bcm63xx/hostTools/squashfs/mksquashfs.c:1789-1875 | a new image: within the limits of the format, a reader that starts from the superblock recovers the tree if and only if no directory is too large for its inode and either duplicates are not looked for or any two files of the tree with the same stored bytes and the same tail have the same block list; what it recovers is the source itself if no file has more than 2^31 bytes and no name more than 256, else the source so cut; success and the limits can be told from the sources |
| Images.ModestInNumbers | cfe_bcm63xx/hostTools/squashfs/mksquashfs.c:1870-1875 | up to 8 MiB of inodes, 8 MiB of listings, 2 GiB of data and 1023 fragment blocks keep all limits |
| Extending.PriorIsKept | cfe_bcm63xx/hostTools/squashfs/mksquashfs.c:963-988 | what is registered of an image whose files have their own words is what was kept of them when they were stored |
| Extending.StartAppending | cfe_bcm63xx/hostTools/squashfs/mksquashfs.c:1789-1828 | what the new root directory starts with stands for the old root's children, or for the old root |
| Extending.AppendSources | cfe_bcm63xx/hostTools/squashfs/mksquashfs.c:1789-1875 | an append: the old data stays, every number in front of the old root leads where it led, and the new tree is the new sources behind the old root's children, or behind the old root; within the limits it is read back if no directory is too large and all files have their own words, and, where the old files have theirs and were stored in the same way, if and only if no directory is too large and the new files are served their own lists; it is the joined tree itself if no file has more than 2^31 bytes and no name more than 256 |
| Extending.JoinedKeepsAll | cfe_bcm63xx/hostTools/squashfs/mksquashfs.c:1789-1875 | with names of at most 256 bytes, the joined tree has the old children, or the old root, as they were, in front of the new sources |
| Extending.CreateAndAppend | cfe_bcm63xx/hostTools/squashfs/mksquashfs.c:1789-1875 | a new image and any number of appends: if there is room for all sources, no directory is too large and either duplicates are not looked for or all files with the same stored bytes and tail have the same list, every run succeeds and the last image reads back as the tree of all sources; without files of more than 2^31 bytes and names of more than 256, that is one root with the children of all of them, as they were, in order |
| SortFiles.ChainFindsLatest | cfe_bcm63xx/hostTools/squashfs/sort.c:105-118 | the first match on a hash list is the value added last for that device and inode |
| SortFiles.LatestIsLast | cfe_bcm63xx/hostTools/squashfs/sort.c:105-118 | the value for a device and inode is that of the last record with both numbers, and there is none if no record has both |
| SortFiles.PassedOnce | cfe_bcm63xx/hostTools/squashfs/sort.c:268-304 | every queued file is written exactly once |
| SortFiles.PassedOrdered | cfe_bcm63xx/hostTools/squashfs/sort.c:296-303 | in non-decreasing priority, last queued first within one priority |
| SortFiles.Search | cfe_bcm63xx/hostTools/squashfs/sort.c:141-153 | the search loop returns the first match |
| SortFiles.Sorter.AddSortInfo | cfe_bcm63xx/hostTools/squashfs/sort.c:156-168 | the sort list with one more entry |
| SortFiles.Sorter.GetPriority | cfe_bcm63xx/hostTools/squashfs/sort.c:141-153 | the priority of the last entry with this device and inode, or the inherited one if there is none |
| SortFiles.Sorter.AddPriority | cfe_bcm63xx/hostTools/squashfs/sort.c:121-138 | the queue with one more file |
| SortFiles.Sorter.AddInode | cfe_bcm63xx/hostTools/squashfs/sort.c:85-102 | the list of files written with one more |
| SortFiles.Sorter.GetSortedInode | cfe_bcm63xx/hostTools/squashfs/sort.c:105-118 | the inode of the last file written under this device and inode, 0 if there is none |
| SortFiles.Sorter.WriteSorted | cfe_bcm63xx/hostTools/squashfs/sort.c:296-303 | every queued file is written once, lower priorities first and of one priority what was queued last, and is entered with the inode it got |
| BaseName.ScanIsMachine | cfe_bcm63xx/hostTools/squashfs/mksquashfs.c:1215-1240 | one call of the recursive descent in terms of the stack of the elements before it |
| BaseName.ScanFindsTop | cfe_bcm63xx/hostTools/squashfs/mksquashfs.c:1215-1240 | the result is the top of the stack that drops "." and pops on "..": nothing when the stack ends empty, ".." exactly when a pop underflows |
| BaseName.Path.TakeElement | cfe_bcm63xx/hostTools/squashfs/mksquashfs.c:1222-1229 | the cursor moves over one element, a leading slash being one |
| BaseName.Path.BasenameR | cfe_bcm63xx/hostTools/squashfs/mksquashfs.c:1215-1240 | the recursion over the shared cursor ends, returns that result as a string cut out in place, and changes nothing it has not read |
| BaseName.Path.GetBase | cfe_bcm63xx/hostTools/squashfs/mksquashfs.c:1198-1212 | a name is returned exactly when the absolute path leaves one on the stack, and it is that one |
| CramInodes.Word32RoundTrip | cfe_bcm63xx/hostTools/cramfs/mkcramfs.cpp:407-410 | a 32-bit word reads back in either byte order |
| CramInodes.InodeRoundTrip | cfe_bcm63xx/hostTools/cramfs/mkcramfs.cpp:389-399 | both layouts of an inode read back to its fields |
| CramInodes.InodeOnDisk | cfe_bcm63xx/hostTools/cramfs/mkcramfs.cpp:389-399 | the inode byte by byte in both byte orders: which bytes and bits hold mode, user, size, group, length of the name and offset |
| CramInodes.SwapReverses | cfe_bcm63xx/hostTools/cramfs/mkcramfs.cpp:392-392 | wswap reverses the bytes of a word |
| CramInodes.FixedInode | cfe_bcm63xx/hostTools/cramfs/mkcramfs.cpp:389-399 | the arithmetic of fix_inode turns the host's inode into the one a big-endian machine reads |
| CramInodes.OffsetIsSet | cfe_bcm63xx/hostTools/cramfs/mkcramfs.cpp:401-405 | setting the offset, also through fix_offset, changes the offset and nothing else |
| CramFiles.IsZeroMeansZeros | cfe_bcm63xx/hostTools/cramfs/mkcramfs.cpp:616-628 | the comparison of a block with itself four bytes on holds if and only if the block is all zeros |
| CramFiles.DoCompress | cfe_bcm63xx/hostTools/cramfs/mkcramfs.cpp:655-781 | end pointers and blocks of the file are in place, nothing else in the image changes, and the end is a multiple of four |
| CramFiles.FileEndBound | cfe_bcm63xx/hostTools/cramfs/mkcramfs.cpp:376-376 | with at most 26 bytes of growth for each block a file stays within its share of the estimate |
| CramFiles.FileReadsBack | cfe_bcm63xx/hostTools/cramfs/mkcramfs.cpp:645-654 | following the end pointers, holes included, gives the content back |
| CramFiles.FileOnDisk | cfe_bcm63xx/hostTools/cramfs/mkcramfs.cpp:655-781 | a file byte by byte: an end pointer for each 4096 bytes, and between the pointers' positions the compressed block, or nothing for zeros if there are to be holes |
| CramTree.ListingIsPermutation | cfe_bcm63xx/hostTools/cramfs/mkcramfs.cpp:522-614 | the order in which entries are written contains every entry of the tree exactly as often as the tree |
| CramTree.ListingBytes | cfe_bcm63xx/hostTools/cramfs/mkcramfs.cpp:331-333 | the estimate counts the directory area exactly |
| CramTree.ListingReadsBack | cfe_bcm63xx/hostTools/cramfs/mkcramfs.cpp:522-614 | a reader that follows the offset and size of every directory recovers the listing and all below it, with names, order and contents, and with the fields as they were if they fit the inode |
| CramTree.KeptKeeps | cfe_bcm63xx/hostTools/cramfs/mkcramfs.cpp:546-549 | mode, user, group and size are kept if and only if they fit 16, 16, 8 and 24 bits; otherwise each keeps its low bits |
| CramTree.RecoveredIsErased | cfe_bcm63xx/hostTools/cramfs/mkcramfs.cpp:546-549 | what is recovered of a tree is the tree itself but for the identities of its entries if and only if all these numbers fit |
| Cramfs.Builder.PutEntry | cfe_bcm63xx/hostTools/cramfs/mkcramfs.cpp:540-580 | inode, name and padding are in place in the right byte order |
| Cramfs.Builder.SetDataOffset | cfe_bcm63xx/hostTools/cramfs/mkcramfs.cpp:470-484 | it fails exactly for offsets that are not multiples of four or do not fit, and otherwise changes one inode's offset only |
| Cramfs.Builder.WriteListing | cfe_bcm63xx/hostTools/cramfs/mkcramfs.cpp:539-580 | one directory in one run of bytes, its non-empty directories pushed in order |
| Cramfs.Builder.ReverseRow | cfe_bcm63xx/hostTools/cramfs/mkcramfs.cpp:588-598 | the swaps turn round the entries pushed for one directory and leave the stack below them |
| Cramfs.Builder.WriteDirectoryStructure | cfe_bcm63xx/hostTools/cramfs/mkcramfs.cpp:522-614 | it ends, every entry is written once, in `ls -UR` order, and every directory's inode leads to its own listing |
| Cramfs.PendingReversed | cfe_bcm63xx/hostTools/cramfs/mkcramfs.cpp:582-604 | reversing the pushed directories is what makes the stack pop them in order |
| Cramfs.Builder.FindIdentical | cfe_bcm63xx/hostTools/cramfs/mkcramfs.cpp:196-218 | the preorder search stops at the first file with the same content, or at the file itself |
| Cramfs.Builder.EliminateDoubles | cfe_bcm63xx/hostTools/cramfs/mkcramfs.cpp:220-227 | every file is linked to the first identical file in preorder, and to none if that is itself |
| Cramfs.LinkedToFirst | cfe_bcm63xx/hostTools/cramfs/mkcramfs.cpp:196-227 | the file a link leads to comes earlier in the order of writing, has the same content and no link of its own; a file without a link is the first with its content |
| Cramfs.Builder.PlaceFile | cfe_bcm63xx/hostTools/cramfs/mkcramfs.cpp:792-803 | the file's inode leads to its content: to the copy that is there already, and then no space is used, or to its own |
| Cramfs.Builder.WriteData | cfe_bcm63xx/hostTools/cramfs/mkcramfs.cpp:789-810 | so for every file of the tree; directories and files stored before stay whole, the data ends where each different content, stored once, takes it, and the estimate is not exceeded |
| MkCramfs.ParseSizes | cfe_bcm63xx/hostTools/cramfs/mkcramfs.cpp:331-381 | directory sizes and estimate, as the recursive accounting computes them |
| MkCramfs.WriteRootInode | cfe_bcm63xx/hostTools/cramfs/mkcramfs.cpp:433-468 | the root inode is in place in the right byte order |
| MkCramfs.RomReadsBack | cfe_bcm63xx/hostTools/cramfs/mkcramfs.cpp:433-468 | from the root inode on a reader recovers the whole tree |
| MkCramfs.BehindIsFlat | cfe_bcm63xx/hostTools/cramfs/mkcramfs.cpp:470-484 | if the directory area starts at the limit of the offset field or behind it, a run can only complete for one level of entries without content |
| MkCramfs.Build | cfe_bcm63xx/hostTools/cramfs/mkcramfs.cpp:915-1001 | for every tree and both byte orders: the run gives up only if the estimate reaches the limit of the offset field, and, if the directory area starts there or behind, exactly if some entry needs an offset; otherwise the image has exactly the length that directories and each different content, stored once, take, rounded up, which is within the estimate; it starts with the superblock and the inserted image, and reads back as the tree if the area starts before the limit or there are no entries: with all fields as they were, if users, groups and sizes fit 16, 8 and 24 bits |
| MkCramfs.OutOfReach | cfe_bcm63xx/hostTools/cramfs/mkcramfs.cpp:433-468 | the root's offset is cut to its field: behind the limit, with zeros as the inserted image, the image does not read back |
| MkCramfs.MisreadBoot | cfe_bcm63xx/hostTools/cramfs/mkcramfs.cpp:433-468 | so the condition of `Build` is exact: beyond it, for entries that are written all the same, some inserted image of the same length gives an image that does not read back |
| MkCramfs.MisreadExample | cfe_bcm63xx/hostTools/cramfs/mkcramfs.cpp:433-468 | one such run: a directory with one empty file behind an inserted image of 2^28 bytes |
| Rings.RingPush | cfe_bcm63xx/cfe/cfe/dev/dev_bcm5700.c:636-647 | an unchecked write at the producer index leaves every live slot alone as long as the ring has room for one more |
| Rings.RingPop | cfe_bcm63xx/cfe/cfe/dev/dev_bcm5700.c:700-712 | the slot at the consumer index holds the oldest entry, and the others stay |
| Rings.ConservedBounds | cfe_bcm63xx/cfe/cfe/dev/dev_bcm5700.c:557-602 | conservation bounds the contents of all places together by the 64 packets of the pool |
| Rings.PoolIsDistinct | cfe_bcm63xx/cfe/cfe/dev/dev_bcm5700.c:588-602 | every packet of the pool occurs once, and there are no others |
| Rings.ReceivedByFlag | cfe_bcm63xx/cfe/cfe/dev/dev_bcm5700.c:695-706 | of a run of descriptors without an error all packets are received, of a run with errors none |
| Rings.ReceivedOfJoined | cfe_bcm63xx/cfe/cfe/dev/dev_bcm5700.c:695-712 | what is received of two runs is what is received of the first, then of the second |
| Rings.Ether.constructor | cfe_bcm63xx/cfe/cfe/dev/dev_bcm5700.c:2214-2270 | rings of 512, 512 and, by the chip, 512 or 1024 descriptors, 32 packets free, and the invariant |
| Rings.Ether.NicTake | cfe_bcm63xx/cfe/cfe/dev/dev_bcm5700.c:636-672 | the NIC taking a buffer keeps the invariant |
| Rings.Ether.NicReturn | cfe_bcm63xx/cfe/cfe/dev/dev_bcm5700.c:688-712 | the NIC returning any of its buffers, with or without an error, keeps it |
| Rings.Ether.NicSend | cfe_bcm63xx/cfe/cfe/dev/dev_bcm5700.c:746-763 | the NIC transmitting keeps it |
| Rings.Ether.NicRuns | cfe_bcm63xx/cfe/cfe/dev/dev_bcm5700.c:2069-2120 | so does any number of steps of the NIC; they can only add to what the driver will find, change nothing that the status block shows without setting the update flag, and set it only so often |
| Rings.Ether.AllocPkt | cfe_bcm63xx/cfe/cfe/dev/dev_bcm5700.c:561-577 | the oldest free packet, or none if there is none |
| Rings.Ether.FreePkt | cfe_bcm63xx/cfe/cfe/dev/dev_bcm5700.c:579-585 | the packet is free again, last in line |
| Rings.Ether.AddRcvBuf | cfe_bcm63xx/cfe/cfe/dev/dev_bcm5700.c:635-647 | the buffer joins the producer ring without overwriting a buffer in it |
| Rings.Ether.FillRxRing | cfe_bcm63xx/cfe/cfe/dev/dev_bcm5700.c:649-675 | as many packets go from the front of the free list to the ring as the count of 512 descriptors round the ring, from the consumer index last seen, is short of 32, as far as there are any |
| Rings.Ether.ProcessReturned | cfe_bcm63xx/cfe/cfe/dev/dev_bcm5700.c:694-712 | the oldest returned packet goes to the receive queue, or back to the free list after an error |
| Rings.Ether.ProcRxRing | cfe_bcm63xx/cfe/cfe/dev/dev_bcm5700.c:687-719 | the loop ends though the NIC keeps delivering; all packets seen at the start, and those that came meanwhile, are processed in order; then the ring is refilled to 32 as far as packets are free |
| Rings.Ether.Transmit | cfe_bcm63xx/cfe/cfe/dev/dev_bcm5700.c:722-742 | the packet joins the send ring without overwriting one that is not sent |
| Rings.Ether.ReclaimSent | cfe_bcm63xx/cfe/cfe/dev/dev_bcm5700.c:752-761 | the oldest transmitted packet is free again |
| Rings.Ether.ProcTxRing | cfe_bcm63xx/cfe/cfe/dev/dev_bcm5700.c:745-763 | the loop ends though the NIC keeps transmitting, and every packet seen as sent is free again, in order |
| Rings.Ether.ServeRings | cfe_bcm63xx/cfe/cfe/dev/dev_bcm5700.c:2074-2117 | every returned packet that the status block showed is processed, in order: received ones join the receive queue, failed ones the free list; every packet shown as sent is free again; if the NIC has set the update flag meanwhile, it has used up some of what it can still do, and if not, the status block shows nothing that is not processed |
| Rings.Ether.Isr | cfe_bcm63xx/cfe/cfe/dev/dev_bcm5700.c:2069-2120 | the loop ends though the NIC may signal an update whenever it has changed an index, since it learns of new buffers only afterwards; the receive queue ends with what was in it, followed, in order, by what was received when the call started and perhaps by more; of the send ring only the newest packets, none of them shown as sent before, are left; the status block shows nothing that is not processed; the NIC is told of every buffer added |
| Rings.Ether.Reinit | cfe_bcm63xx/cfe/cfe/dev/dev_bcm5700.c:766-817 | after a reset all 64 packets are free but the 32 of the first buffers, and the NIC knows of none |
| Rings.Ether.Start | cfe_bcm63xx/cfe/cfe/dev/dev_bcm5700.c:2123-2144 | the NIC is told of every buffer in the ring |
| Rings.Ether.Read | cfe_bcm63xx/cfe/cfe/dev/dev_bcm5700.c:2386-2416 | the oldest received packet is handed out, be it in the queue or still in the return ring when the call starts, and none only if none is left; the others stay in order; nothing that the status block shows is left unprocessed |
| Rings.Ether.SendOne | cfe_bcm63xx/cfe/cfe/dev/dev_bcm5700.c:2443-2457 | a free packet, if there is one, goes to the end of the send ring |
| Rings.Ether.Write | cfe_bcm63xx/cfe/cfe/dev/dev_bcm5700.c:2434-2461 | one packet enters the send ring if the result is success, and none otherwise; it fails for want of memory only if no packet is free; no received packet is lost, for every result |
| Rings.Ether.Stop | cfe_bcm63xx/cfe/cfe/dev/dev_bcm5700.c:2148-2162 | afterwards the driver is off, its queues are empty and its packets free; nothing changes if it was off |
| Crc32.TableEntry | cfe_bcm63xx/hostTools/nvramcrc.c:59-124 | each of the 256 words is its index after eight steps of the shift register |
| Crc32.TableStepIsEightBits | cfe_bcm63xx/hostTools/nvramcrc.c:138-139 | one step of the table loop is eight bits through the shift-and-xor loop |
| Crc32.GetCrc32 | cfe_bcm63xx/hostTools/createimg.c:99-105 | the table loop computes the bit-by-bit sum, for every byte string and starting value |
| Crc32.CheckValue | cfe_bcm63xx/hostTools/createimg.c:99-105 | the sum of the nine digits from 1 to 9, without a final complement, is 0x340BC6D9 |
| Crc32.FeedByte | cfe_bcm63xx/cfe/cfe/dev/dev_bcm5700.c:626-628 | the inner loop feeds the bits of one byte, low bit first |
| Crc32.EthCrc32 | cfe_bcm63xx/cfe/cfe/dev/dev_bcm5700.c:616-630 | the nested loops compute the same sum over a buffer, from 0xFFFFFFFF |
| Crc32.BurstChangesSum | cfe_bcm63xx/hostTools/createimg.c:99-105 | two bit strings that differ only within 32 consecutive bits never have the same sum |
| Crc32.ByteBurstChangesSum | cfe_bcm63xx/hostTools/createimg.c:99-105 | two byte strings of equal length that differ only within four consecutive bytes never have the same sum |
| Crc32.VerifyTag | cfe_bcm63xx/hostTools/createimg.c:270-287 | 0 exactly for a tag whose token, its first byte the highest, is the sum of its body from 0xFFFFFFFF |
| Crc32.BigEndianIsHighFirst | cfe_bcm63xx/hostTools/createimg.c:276-281 | the bytes of htonl are those that, the first taken as the highest, are the word |
| Crc32.CorruptionIsRejected | cfe_bcm63xx/hostTools/createimg.c:270-287 | a valid tag with four consecutive bytes of its body changed, or its token changed, is accepted if and only if nothing that counts has changed |
| Crc32.NvramCrc | cfe_bcm63xx/hostTools/nvramcrc.c:136-146 | for every size of at least 4 the sum over the record with its last four bytes zeroed, for smaller sizes the sum of four zeros |
| Crc32.EmbedChecksum | cfe_bcm63xx/hostTools/nvramembed.c:212-221 | the record ends up sealed: its last four bytes, the first the highest, are the sum from 0xFFFFFFFF of the record with these bytes zeroed; its other bytes stay |
| Crc32.RewriteChecksum | cfe_bcm63xx/hostTools/nvramcrc.c:176-205 | the record in the image ends up sealed in the same way, the rest of the image unchanged |
| Crc32.SealIsFixedPoint | cfe_bcm63xx/hostTools/nvramcrc.c:136-146 | sealing a sealed record changes nothing, so the tools agree; a sealed record with four consecutive bytes changed before the field, or with the field changed, is not sealed |

## Left out

- The inside of zlib and LZMA, and the LZMA branches of mangle and do_compress: the reader knows only zlib.
- Command lines, messages, stat, readdir, mmap, malloc failure and read or write errors. In write_file the path with a
  buffer smaller than the file (`whole_file = 0`) is not modelled; it writes the same bytes.
- The superblock of squashfs apart from its layout, and the uid and guid tables (exactly 256 uids do not fit
  `no_uids`).
- Archives.Archive.CloseTables: positions of 2^32 and more do not fit; the model reports failure when the tables would
  not fit, where the source goes on with wrapped positions. Fragment numbers below `SQUASHFS_INVALID_BLK` are a
  precondition.
- MetadataStream.ReadTable: fails when a block cannot be decoded. The source tests its running byte count only: for a
  later block it would try the same block again and again.
- MetadataStream.ReadBlocks: the same for the blocks of a directory.
- FragmentTable.ReadFragmentTable: fails when a block cannot be decoded, where the source ignores the length and goes
  on with what its buffer holds.
- Appending.ListingsAreRead: says nothing about a directory whose place is in a block at 2^24 bytes of the directory
  table or more, which does not fit its inode's 24 bits.
- DataStore.DataWriter.FindDuplicate: claims equality of stored bytes and of tails, as the code decides it, not
  equality of file contents.
- DataStore.DataWriter.Record: the source enters the new file first and sets its fragment afterwards; nothing reads
  the entry in between, and the model enters it once the fragment is known.
- The exclude and sort files and the choice of names for clashing sources: they read the host's file system. With a
  sort file the inodes of files come in the order of `SortFiles.Sorter.WriteSorted`; the whole-image results are for
  runs without one.
- Scanning.DirScan: directory entries that cannot be opened, examined or recognised are left out by the source; here
  the tree consists of the others, each with the name it is stored under.
- Scanning.AddSource: reports failure once an inode lies in a block at 2^24 bytes of the inode table or more, where
  the source goes on with an entry that leads elsewhere.
- Archives.Archive.Run: the steps stand for the calls dir_scan makes, in any order and number; `Scanning.DirScan`
  makes those of a tree.
- Images.CreateImage: that an image which does not keep the limits of the format is not read back is stated for the
  single limits only (`Archives.Archive.Finish`, `Appending.ListingsAreRead`). Whether a directory fits its inode
  depends on how its entries are grouped, hence on inode numbers; from the sources alone it is told by an upper bound
  (`Source.SmallFolders`).
- Extending.AppendSources: the condition for reading the tree back is exact if the old files have their own words and
  were stored with the same setting, which main takes over from the superblock; otherwise it is sufficient.
- Trees.TreeReadsBack: the reader is a reference; the kernel's driver is not part of this model.
- BaseName.Path.GetBase: the copy into the 8192-byte buffer is not checked by the source; that the path fits is a
  precondition.
- SortFiles.Sorter.WriteSorted: write_file is represented by the inode it returns for each file.
- The cramfs superblock apart from the root inode, its checksum, and the image crc: the header that lays them out is
  not part of this model, so size and place of the root inode are parameters, and its other fields are zero in the
  model's image. The source fills them in; that matters only to `MkCramfs.MisreadBoot` when the wrapped offset leads
  into the superblock, which that of `MkCramfs.MisreadExample` does not. The field widths are those fix_inode's
  arithmetic shows.
- MkCramfs.Build: the estimate is assumed not to be capped at MAXFSLEN, where mkcramfs itself warns that it may die,
  and files that are skipped after being counted are not modelled; they only make the estimate larger.
- CramTree.ListingReadsBack: uid, gid and device numbers come back as truncated by the inode's fields, names as
  truncated by parse_directory, whose truncation of long names is not modelled. A symbolic link of length 0 is treated
  as one without data.
- Rings.Ether.Isr: updates that are about the link and not about the rings are bounded by a parameter. Only calls in
  polling order are modelled, not an interrupt in the middle of a call.
- Rings.Ether.FillRxRing: refill is triggered by initialisation and t3_procrxring only, so the claims are safety and
  termination, not that the ring is always replenished.
- Packet contents and lengths, register set-up, MII, EEPROM and reset code of the BCM5700; the DC21143 and DP83815
  rings and the other drivers.
- Crc32.RewriteChecksum: an image too short to hold the whole record is a precondition; nvramcrc does not check for
  it.
- Crc32.CorruptionIsRejected: the place of the token in the tag is fixed by a header that is not part of this model;
  body and token are separate parameters.
