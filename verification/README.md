# WAMount read path: a verified model

WAMount mounts APFS volumes read-only. This project models its read path, from the bytes of a disk to
decoded metadata, file contents, directory walks and the driver's view of a file, and proves what that
path delivers. `dafny verify dfyconfig.toml` checks everything.

The model has two layers. The classes `Disk.DiskReader`, `Apfs.BTree`, `Apfs.Volume`, `Apfs.Container`,
`WinFsp.FspFileInfo` and `WinFsp.WinFspAPFS` follow the C++ objects: the same fields, branches, loops and
early returns, with buffers as arrays. Each method is proved against a function of the disk (`ReadRange`,
`FindVolume`, `InfoAt`, `FileBytes`, `Listing`, `Walk`, ...), and the main results are theorems about these
functions:

- **Format, open, look up.** `Images.Format` turns an abstract volume (a list of inode, extent and directory
  records) into a disk image; `Session.StatFormatted` opens that image through all the objects and gets back
  exactly the recorded metadata, for every volume, node layout, file data and inode number;
  `Session.FindFormatted` does the same for paths, given a range query that honours its bounds.
  `Images.FormatFileRoundTrip` does the same for file contents, and `Images.FormatFileExactly` says on which of
  these images a read as the C++ addresses it fails. `Catalogs.MetadataOfRecords`, `Catalogs.FileOnDisk` and
  `Catalogs.FileOfRecords` say it for every disk whose root node stores the records, however it is laid out.
- **Byte layers.** Bit masks are computed bit by bit and proved to select fields; keys pack and unpack; a
  node encodes any association list and reads back as that list; `CompareKeys` is dictionary order; the
  scan of extended fields is described on arbitrary bytes.
- **File addresses.** A file read passes the length of the whole transfer where a block size is expected, so it
  starts at block number times blocks read times block size. `FileReads.AsWrittenExactly` proves that the code
  reads every disk that stores an extent correctly if and only if the transfer has fewer than 2^32 bytes and the
  blocks beyond the first come round: the block's start times their number is a multiple of 2^64 (or nothing is
  read, or no disk is large enough for the extent). They come round at block 0 and for reads of one block; while
  the product fits 64 bits, nowhere else (`AddressAgreement`, `AddressBeyond`). `Apfs.Volume.ReadFile` takes the
  addressing as a parameter; its default is the addressing of the C++.
- **Files in several extents.** `StoredFiles.ImageReadsExactly` says, for every formatted volume, every layout of a
  file behind the metadata and both addresses, which reads deliver the file's bytes whatever they are: exactly those that start at an
  extent record, transfer fewer than 2^32 bytes, have an address that names the block, and span blocks that are
  neighbours on the disk. Every other read goes wrong on some image that stores the file (`MisleadingImage`).
  `StoredFiles.PiecesExactly` says it for a file that is read piece by piece, `FileExtents.ExtentsExactly` in terms
  of extents, `FileExtents.OneBlockExactly` for the code as written without wrap-around: single blocks only.
  `WrongReads.WrongFile` is an image on which a file of zeros reads as ones.
- **Refusals.** What makes an open, a lookup, a listing or a read fail, or succeed with nothing, is stated for every
  disk and in the numbers of the format: `Superblocks.SuperblockExactly` and its neighbours, `Nodes.OtherBlocksEmpty`,
  `Disk.ReadRangeExactly`, and the module `Refusals`.
- **State over runs.** The volume cache, device handles and mounted file systems are described over every
  sequence of calls with every pattern of failures; `Session.RequestVolumes` runs any sequence of requests through
  the container itself and ties its table to that description and to uncached construction.

Where the code does not do what its names or its documentation suggest, the model follows the code:

- `readFile` addresses `block * blocks_to_read * block_size` (src/apfs/volume.cpp:320); see `AsWrittenExactly`,
  `FormatFileExactly`, `ImageReadsExactly`, `WrongFile`, `AddressCoincidence`, `PrefixConsistency`.
- `readBytes` casts its length to 32 bits, so a file read whose transfer has 2^32 bytes or more fails under either
  address. The driver can ask for that: 0xFFFFFFFF bytes in blocks of 4096; see `IntendedReadsData`,
  `LongestRequestFails`.
- `readFile` fails at every offset inside a file that is not the logical address of an extent record; see
  `FileOnDisk`, `ImageReadsExactly`.
- `readFile` ignores the length of the extent it finds. With the intended address a read past the end of the extent
  would deliver what follows it on the disk. As written such a read spans several blocks and so, unless they come
  round, starts at another place altogether; see `ExtentsExactly`, `MisleadingImage`.
- The extended-field scan compares the 40 bytes of a DSTREAM with the end of the value, not with the length
  of the field, so a short DSTREAM takes bytes from the fields behind it; see `ShortStreamBorrows` and
  `ScanAgreesExactly`.
- The allocation size wraps to 0 above 2^64 - 4096; see `AllocationSizeLeast`.
- The bounds of a directory listing are exact as numbers except at the largest id; under `compareKeys`, which
  compares little-endian bytes, they admit nothing for an id whose low byte is 255 and keys of other kinds for
  every other id; see `DirectoryBoundsExact`, `OwnRecords`, `ForeignKey`.
- The node search is linear although its comment says binary, and visits the root only although the change
  log lists tree traversal. The range query of the tree is a stub, so in the program as it stands a path is found
  only if it has no components; see `FindWithStub`.

Words are integers in their C++ ranges, and every wrap-around is written out (`Wrap`). A device is a constant
byte string, an optional size and an arbitrary function that says which reads it refuses.

`hide` statements only keep definitions out of proofs that do not need them.

## Model

| member | source | states |
|---|---|---|
| Bits.AndField | include/apfs_structures.h:217-227 | ANDing with a field mask keeps exactly that field of the word; used for the id, type, format and allocation masks |
| Bits.OrDisjoint | src/apfs/volume.cpp:136-137 | ORing a shifted type onto a masked id adds them |
| Bytes.U64Bijection | src/apfs/btree.cpp:102-108 | little-endian words of 8 bytes and 64-bit numbers correspond one to one, so equal key bytes mean equal headers |
| Structures.HeaderPackUnpack | include/apfs_structures.h:217-227 | exactly one header word unpacks to a given masked id and type, and it is the packed one |
| Structures.KeyNumbers | include/apfs_types.h:74-80 | the lookup keys in numbers: the low 60 bits of the id plus 3, 8 or 9 times 2^60 |
| Structures.InodeKeySeparates | src/apfs/volume.cpp:135-137 | an inode lookup matches the 8-byte INODE key of the masked id and no other byte string |
| Structures.ExtentKeySeparates | src/apfs/volume.cpp:290-293 | an extent lookup matches the 16-byte FILE_EXTENT key of the masked id and exact offset and no other byte string |
| Structures.DirectoryBoundsExact | src/apfs/volume.cpp:184-189 | as numbers the bounds contain exactly the DIR_REC header of the id; at the largest id they are empty |
| DirectoryBounds.OwnRecords | src/apfs/volume.cpp:184-192 | under the tree's own key order a directory's records lie between the bounds if and only if the low byte of its id is not 255 |
| DirectoryBounds.ForeignKey | src/apfs/volume.cpp:184-192 | under that order the bounds also admit the directory-statistics key of the same id, if and only if the low byte of the id is not 255; if it is, they admit no key at all |
| Nodes.CompareMeaning | src/apfs/btree.cpp:140-151 | the comparison is 0 on identical strings only, and negative or positive exactly in dictionary order |
| Nodes.CompareTotalOrder | src/apfs/btree.cpp:140-151 | antisymmetric in sign, transitive, total, and a proper prefix comes first |
| Nodes.FindFirstMeaning | src/apfs/btree.cpp:92-112 | lookup succeeds if and only if some entry has the key, and yields the value of the smallest such index |
| Nodes.OtherBlocksEmpty | src/apfs/btree.cpp:81-86 | a block is searched exactly if the type in its bytes 24 and 25 is 2 or 3; any other block has no entries, whatever it holds |
| Nodes.EntriesAt | src/apfs/btree.cpp:115-138 | in any tree node, well packed or not: the word at byte 36 counts the entries, and the locations from byte 56 on name first every key and then every value |
| Nodes.NodeRoundTrip | src/apfs/btree.cpp:115-138 | every list of entries laid out as header, key locations, value locations, keys and values reads back as that list |
| Nodes.LocationAt | src/apfs/btree.cpp:122-135 | entry i of an encoded table of contents names the place where string i lies |
| Apfs.BTree.GetKeyValue | src/apfs/btree.cpp:115-138 | yields the places of key and value number index, and fails exactly beyond the key count |
| Apfs.BTree.SearchNode | src/apfs/btree.cpp:75-113 | the search loop agrees with first-match lookup in the node's association list; in a block whose type is neither 2 nor 3 it finds nothing |
| Apfs.BTree.ReadNode | src/apfs/btree.cpp:27-50 | fills a fresh buffer with the block, or fails exactly when it cannot be read |
| Apfs.BTree.Lookup | src/apfs/btree.cpp:52-73 | agrees with lookup in the root node; a zero root or an unreadable node finds nothing |
| Inodes.ScanParses | src/apfs/volume.cpp:160-176 | arbitrary bytes split into skipped fields and a stopping place, which alone determines the size found |
| Inodes.ScanSkips | src/apfs/volume.cpp:164-176 | every field that is not a DSTREAM is skipped, whatever follows it |
| Inodes.ScanNumbers | src/apfs/volume.cpp:160-176 | the scan in numbers: headers of 4 bytes, type 8 decides, and 40 bytes must follow its header |
| Inodes.ScanOfEncoded | src/apfs/volume.cpp:160-176 | on any serialised field list the scan stops at the first DSTREAM; the size is its first word if 40 bytes are left in the value, else 0 |
| Inodes.ScanAgreesExactly | src/apfs/volume.cpp:167-172 | the scan returns the declared size if and only if the length check can delimit the first DSTREAM or the word it takes instead is 0 |
| Inodes.ScanFindsDeclaredSize | src/apfs/volume.cpp:160-176 | if every DSTREAM carries its 40 bytes, the scan returns the declared size |
| Inodes.ShortStreamBorrows | src/apfs/volume.cpp:167-172 | a field list on which the scan returns a size that no field declares |
| Inodes.InodeLayout | include/apfs_structures.h:230-251 | every field of an encoded inode lies at its packed offset: mode at 80, extended fields at 92 |
| Inodes.FormatBits | src/apfs/volume.cpp:157 | the masked comparison is true exactly for the directory format |
| Inodes.InodeRoundTrip | src/apfs/volume.cpp:145-178 | decoding an encoded inode gives its parent, times, mode, directory flag and stream size |
| Apfs.Volume.ScanFields | src/apfs/volume.cpp:160-176 | the loop computes the scan on arbitrary bytes, and ends |
| Apfs.Volume.GetFileInfo | src/apfs/volume.cpp:133-179 | the decoded value of the inode's entry in the root node; on failure the caller's record is unchanged, on success its name is |
| Catalogs.InodeKeyMatches | src/apfs/volume.cpp:135-140 | among all records, only the inode record of the masked id has the key of an inode lookup |
| Catalogs.ExtentKeyMatches | src/apfs/volume.cpp:290-296 | among all records, only the extent record of the masked id and exact offset has the key of an extent lookup |
| Catalogs.RecordBytes | include/apfs_structures.h:217-279 | the bytes of every record: headers of type 3, 8 and 9 and the packed values |
| Catalogs.FindInode | src/apfs/btree.cpp:92-112 | lookup in encoded records agrees with lookup in the records |
| Catalogs.FindExtent | src/apfs/btree.cpp:92-112 | the same for extents, and the block number is read back |
| Catalogs.MetadataOfRecords | src/apfs/volume.cpp:133-179 | on every disk whose root node stores the records, metadata lookup succeeds if and only if an inode has the masked id, and returns its metadata; its size is the declared one if and only if the first DSTREAM can be delimited or the word taken instead is 0 |
| Catalogs.ExtentOfRecords | src/apfs/volume.cpp:290-314 | the block found for an inode and offset is the one recorded for them |
| Catalogs.FileFetches | src/apfs/volume.cpp:286-314 | a read inside a stored file fetches from the block of the extent recorded for exactly the offset, cut at the end of the file |
| Catalogs.FileOnDisk | src/apfs/volume.cpp:268-329 | on any working disk and for both addresses: a read inside a stored file fails without an extent for the offset, or if its transfer has 2^32 bytes or leaves the disk; otherwise it delivers what lies at its address, right or wrong |
| Catalogs.FileOfRecords | src/apfs/volume.cpp:268-329 | where the block of an extent record is followed by the file's bytes, a read gives them, cut at the end of the file, or fails if the transfer has 2^32 bytes or more; under the intended address, and as written wherever that names the same place |
| Refusals.ForeignRoot | src/apfs/btree.cpp:52-86 | a root that is 0, unreadable or of another type answers no lookup, so nothing has metadata, extents or contents |
| Refusals.ShortValues | src/apfs/volume.cpp:139-314 | metadata needs an entry of at least 92 bytes, an extent one of at least 24, whose block number stands at byte 8 |
| Refusals.ReadCases | src/apfs/volume.cpp:271-329 | every file read on any disk: fails without an inode and on a directory, succeeds with no bytes at and behind the end, fails without an extent, else fetches the lesser of size and rest |
| Refusals.ReadAtEnd | src/apfs/volume.cpp:282-284 | at and behind the end of a stored file every read succeeds with no bytes |
| Refusals.NoFile | src/apfs/volume.cpp:271-280 | stored directories and ids that are not stored cannot be read |
| Refusals.FailedQuery | src/apfs/volume.cpp:191-195 | a listing fails exactly if the range query does |
| Refusals.ListedEntry | src/apfs/volume.cpp:197-215 | keys under 10 bytes, values under 18 and records that name no inode are passed over; any other record is listed under its name |
| Refusals.ListedInOrder | src/apfs/volume.cpp:197-215 | a listing follows the order of the records |
| Images.FormattedOpens | src/apfs/container.cpp:16-90 | opening a formatted image finds its superblock, object maps, volume and root node |
| Images.FormatRoundTrip | src/apfs/volume.cpp:133-179 | formatting any abstract volume and looking an inode up gives the stored metadata, or nothing if none is stored |
| Images.FormatFileRoundTrip | src/apfs/volume.cpp:268-329 | formatting a volume with file data and reading a file gives the stored bytes, or fails if the transfer has 2^32 bytes or more; as written, if the address names the same place |
| Images.FormatFileAsWritten | src/apfs/volume.cpp:268-329 | as written, on an image that ends with the extent, a read fails if its address lies behind the intended one or the transfer has 2^32 bytes; otherwise it delivers the bytes at its address |
| Images.FormatFileExactly | src/apfs/volume.cpp:268-329 | on such an image, while the product of block and transfer fits 64 bits, a read as written gives the stored bytes if it transfers a single block of fewer than 2^32 bytes, and fails in every other case |
| Images.FormattedStores | src/utils/disk_reader.cpp:76-84 | file data behind the metadata is found at block number times block size |
| Images.MapFields | include/apfs_structures.h:68-80 | an object map reads back as the tree that it names |
| Superblocks.SuperblockExactly | src/apfs/container.cpp:33-60 | a container superblock is found if and only if the first 4096 bytes can be read and the letters NXSB stand at byte 32 |
| Superblocks.ContainerExactly | src/apfs/container.cpp:33-90 | a container is found if and only if, besides, the word at byte 160 is not 0 and the block of that number can be read |
| Superblocks.VolumeExactly | src/apfs/volume.cpp:19-112 | a volume is found if and only if its block can be read, APSB stands at byte 32, the words at bytes 128 and 136 are not 0 and the former names a readable block |
| Directories.BetweenBounds | src/apfs/volume.cpp:184-192 | among all records, exactly the directory's own directory records have a header between the bounds |
| Directories.ChildOfRecord | src/apfs/volume.cpp:202-213 | an encoded directory record is listed as the metadata of the file it names, under its name, if that file is stored |
| Directories.ListingOfRecords | src/apfs/volume.cpp:181-218 | with a range query that honours its bounds, every directory of a stored volume lists exactly its contents, in order; the largest id lists nothing |
| Session.OpenVolume | src/main.cpp:107-141 | opening a device and a volume index succeeds if and only if the device holds such a volume, and gives that volume's state; never without a size, an index below 100 and NXSB at byte 32 |
| Session.StatFormatted | src/main.cpp:107-141 | the whole chain on a formatted disk or image file returns the stored parent, times, mode and directory flag of any inode, or fails if none is stored; with the exact condition for the size to be the declared one |
| Session.ReadFormatted | src/apfs/volume.cpp:268-329 | the whole chain reads a file of a formatted disk or image file: success, byte count and buffer are those of the read of the image that the theorems on images describe; at and behind the end it succeeds with no bytes |
| Session.OpenFormatted | src/main.cpp:107-141 | opening a formatted disk or image file yields a volume whose root node stores the records |
| Session.FindFormatted | src/apfs/volume.cpp:220-266 | with a range query that honours its bounds, which the stub of the C++ does not, looking a path up on a formatted device is the walk through the directories of the abstract volume, and the root's spellings give its inode |
| Session.FindWithStub | src/apfs/btree.cpp:153-159 | with the range query as it stands, on every open volume, a path other than the root's two spellings is found if and only if it has no components, and the caller's record is unchanged |
| Session.RequestVolumes | src/apfs/container.cpp:106-130 | any sequence of requests to a container leaves the table of the cache model; an answer is null exactly when uncached construction fails; any other answer is the volume then cached for its index, in the state of uncached construction |
| Disk.DiskReader.ReadFile | src/utils/disk_reader.cpp:106-116 | the device's read: as many bytes as there are, up to the count, nothing else in the buffer changed |
| Disk.ReadRangeExactly | src/utils/disk_reader.cpp:86-119 | a read succeeds if and only if the disk is open, the wrapped end is not behind its size, the start is below 2^63, the length below 2^32, and the device delivers all of it |
| Disk.DiskReader.ReadBytes | src/utils/disk_reader.cpp:86-119 | exactly when a read succeeds, and what the buffer then holds; the rest of the buffer is unchanged; closed disks, ranges behind the disk's size and lengths of 2^32 or more fail |
| Disk.DiskReader.ReadBlocks | src/utils/disk_reader.cpp:80-84 | the same for a run of blocks, with 64-bit wrap-around of offset and length |
| Disk.DiskReader.ReadBlock | src/utils/disk_reader.cpp:76-78 | the same for one block |
| Disk.DiskReader.OpenDisk | src/utils/disk_reader.cpp:12-66 | closes a previous handle; opens exactly a device that states a size, by its geometry or, failing that, as a file, and keeps that size; otherwise leaves nothing open |
| Disk.DiskReader.CloseDisk | src/utils/disk_reader.cpp:68-74 | releases the handle once and forgets the size; does nothing if none is held |
| Disk.HandlesNeverLeak | src/utils/disk_reader.cpp:8-74 | over any sequence of open and close with any failures no handle is closed twice, and opened minus closed is 1 exactly while one is held |
| Disk.LastCallDecides | src/utils/disk_reader.cpp:12-74 | after any sequence of calls a handle is held exactly if the last one opened a device that states a size; the reader then has that device and size |
| Ledgers.BalanceCount | src/winfsp/winfsp_ops.cpp:97-104 | a balanced ledger has created minus deleted equal to 1 or 0 with the live resource |
| FileSystem.RoundingTight | src/apfs/volume.cpp:315-318 | for every nonzero block size, rounding to blocks covers the read, one block fewer would not, and nothing overflows for any buffer that fits in memory |
| FileReads.ReadMeaning | src/apfs/volume.cpp:268-329 | a successful read has min(size, rest) bytes and equals the disk slice past the address of the extent keyed exactly (inode, offset); at or past the end it is empty |
| FileReads.FetchOnDisk | src/apfs/volume.cpp:313-326 | on a working disk a fetch succeeds if and only if its transfer has fewer than 2^32 bytes and lies on the disk, and delivers the bytes there, for both addresses and also for no bytes |
| FileReads.AddressAgreement | src/apfs/volume.cpp:314-320 | for every read of one byte or more the code's address is the intended one if and only if the start of the block times the number of further blocks is a multiple of 2^64, as at block 0 and for one block |
| FileReads.AddressBeyond | src/apfs/volume.cpp:314-320 | while the product fits 64 bits, a read of several blocks from a block other than 0 has an address beyond the intended one |
| FileReads.TransferAddresses | src/apfs/volume.cpp:314-320 | two reads of an extent have one address as written if and only if the blocks by which they differ come round modulo 2^64 |
| FileReads.AddressCoincidence | src/apfs/volume.cpp:314-320 | five blocks from block 2^50 on come round: the addresses agree although neither the block is 0 nor one block is read |
| FileReads.IntendedReadsData | src/utils/disk_reader.cpp:80-116 | with the intended address every stored extent reads back as its data if its transfer has fewer than 2^32 bytes, and fails otherwise |
| FileReads.LongestRequestFails | src/winfsp/winfsp_ops.cpp:195-217 | the longest length that the driver passes on makes a transfer of 2^32 bytes in blocks of 4096, and fails on every disk, for both addresses |
| FileReads.AsWrittenExactly | src/apfs/volume.cpp:314-326 | the code reads every disk storing the extent correctly if and only if the transfer has fewer than 2^32 bytes and the blocks beyond the first come round modulo 2^64 or nothing is asked for; or no disk is large enough to store the extent |
| FileReads.PrefixConsistency | src/apfs/volume.cpp:286-326 | a shorter read is a prefix of a longer one: under the intended address on every disk; as written on every working disk if and only if the shorter is empty, the blocks by which they differ come round, or no working disk can serve both |
| FileReads.FileReadPrefix | src/apfs/volume.cpp:286-326 | two successful file reads at one offset agree: under the intended address, and as written when the shorter is empty or the blocks by which they differ come round |
| FileExtents.DeliveredBytes | src/apfs/volume.cpp:313-326 | a read whose transfer is short enough, whose address names its first block and whose blocks are neighbours on the disk delivers the file's bytes, for both addresses and any offset |
| FileExtents.AdjoinIsConsecutive | include/apfs_structures.h:274-279 | the first blocks of a list of extents are neighbours if and only if the extents they reach follow each other |
| FileExtents.AdjoiningExactly | src/apfs/volume.cpp:313-326 | for every layout that fits a disk and for both addresses, a read delivers the file's bytes from every disk that stores it so if and only if that condition holds; as written, the blocks beyond the first must come round |
| FileExtents.OneBlockExactly | src/apfs/volume.cpp:314-326 | as written, from a block other than 0 and while the product fits 64 bits, the condition is a single block of fewer than 2^32 bytes |
| FileExtents.ExtentCondition | src/apfs/volume.cpp:313-326 | the condition on blocks is that condition on extents |
| FileExtents.ExtentsExactly | src/apfs/volume.cpp:313-326 | for a file in extents, from the start of any of them and for both addresses, a read delivers the file whatever it holds if and only if its transfer is short enough, its address names the block, and it ends within that extent or the extents it reaches follow each other on the disk |
| StoredFiles.DeliveredRead | src/apfs/volume.cpp:268-329 | on every disk whose root node stores the records and whose blocks store the file, a file read that starts at an extent record and meets the condition delivers the file's bytes, cut at its end |
| StoredFiles.MisleadingImage | src/apfs/volume.cpp:268-329 | for every other read, as written or as intended, some formatted image stores the file and the read fails or delivers a wrong byte; it succeeds with a wrong byte exactly if it has a record, is short enough and stays on the image |
| StoredFiles.ImageReadsExactly | src/apfs/volume.cpp:268-329 | for every formatted volume that describes a file and for both addresses, a file read delivers the file's bytes from every image that stores it if and only if it starts at an extent record and meets the condition |
| StoredFiles.PiecesExactly | src/winfsp/winfsp_ops.cpp:195-217 | reads one after the other, each from where the last one ended, put together the file's bytes on every image that stores it if and only if every one of them that starts inside the file starts at an extent record and meets the condition |
| WrongReads.WrongFile | src/apfs/volume.cpp:268-329 | a formatted image on which, as written, a file of 8192 zeros reads as ones while its first 100 bytes read as zeros, and one that ends with the file, on which it cannot be read at all |
| Apfs.Volume.ReadFile | src/apfs/volume.cpp:268-329 | success, byte count and buffer contents of a file read; bytes past the count are unchanged |
| Apfs.Volume.CopyBlocks | src/apfs/volume.cpp:313-326 | fetches whole blocks and copies out the bytes past the block offset |
| Apfs.Volume.ReadTemporary | src/apfs/volume.cpp:318-323 | fills the temporary buffer from the address that the two arguments of the call make, as written or as intended |
| Apfs.Volume.FindExtent | src/apfs/volume.cpp:289-314 | the block recorded under exactly the inode and offset |
| Apfs.Volume.ReadChild | src/apfs/volume.cpp:197-215 | skips short records and records that name no inode; otherwise the child's metadata under the record's name |
| Apfs.Volume.ReadDirectory | src/apfs/volume.cpp:181-218 | the children of the records between the bounds, in order, for any range query |
| Apfs.Volume.FindNamed | src/apfs/volume.cpp:251-258 | the first entry of the name |
| Apfs.Volume.LookupPath | src/apfs/volume.cpp:220-266 | the root for the empty path and a slash; otherwise the walk along the components, success, inode and record included |
| Paths.SplitPath | src/apfs/volume.cpp:232-241 | the loop computes the non-empty stretches between slashes |
| Paths.SplitOfRender | src/apfs/volume.cpp:232-241 | splitting undoes joining with any positive numbers of slashes, and any numbers in front and behind |
| Paths.RenderOfSplit | src/apfs/volume.cpp:232-241 | every path is such a join of its components |
| Paths.JoinedPath | src/apfs/volume.cpp:232-241 | the components of p/q are those of p and then those of q |
| Paths.PathCompose | src/apfs/volume.cpp:243-265 | looking p/q up is looking p up and walking q from where that ends |
| Paths.PathArrives | src/apfs/volume.cpp:243-265 | a path is found if and only if a chain of entries leads along it, each the first of its name in the listing before it; the result is the last entry |
| Paths.WalkStops | src/apfs/volume.cpp:243-265 | a walk that does not arrive stops at the first component that its directory does not list or cannot list, and keeps the entry it had by then |
| Paths.FirstNamedMeaning | src/apfs/volume.cpp:250-258 | the entry taken has the name and no entry before it does |
| Paths.WalkCompose | src/apfs/volume.cpp:243-265 | a walk can be cut anywhere and taken in two parts |
| Paths.EmptyListings | src/apfs/volume.cpp:243-265 | where every directory lists as empty, a walk takes no step: it arrives only without components and leaves the record as it was |
| Apfs.Volume.ReadSuperblock | src/apfs/volume.cpp:41-71 | reads the volume superblock and succeeds exactly if the letters APSB stand at byte 32; the copy stays even if they do not |
| Apfs.Volume.ReadObjectMap | src/apfs/volume.cpp:73-97 | fails on a zero id or an unreadable block, else keeps the map |
| Apfs.Volume.InitRootTree | src/apfs/volume.cpp:99-112 | makes a tree on the root id, or fails if it is 0 |
| Apfs.Volume.Init | src/apfs/volume.cpp:19-39 | succeeds exactly when uncached construction does, with its state |
| Apfs.Container.ReadSuperblock | src/apfs/container.cpp:33-60 | reads block 0 and succeeds exactly if the letters NXSB stand at byte 32; block size and count are taken over only then |
| Apfs.Container.ReadObjectMap | src/apfs/container.cpp:62-90 | fails on a zero id or an unreadable block; an unexpected object type is accepted; needs only a block that holds an object map |
| Apfs.Container.Init | src/apfs/container.cpp:16-31 | succeeds exactly when the disk holds a container, with its state; never without NXSB at byte 32 of the disk |
| Apfs.Container.GetVolumeCount | src/apfs/container.cpp:96-104 | the number of the first 100 indices with a nonzero object id |
| Apfs.Container.GetVolume | src/apfs/container.cpp:106-130 | answers exactly if the index is below 100, its object id is not 0 and uncached construction succeeds; changes no slot unless it initialises a volume, and then its own only; grows the table just to the index; every cached volume has the state of uncached construction |
| VolumeCache.CacheMeaning | src/apfs/container.cpp:106-130 | over every sequence of requests a slot holds the volume of the first successful request for its index, and the table has at most 100 slots |
| VolumeCache.AnswerMeaning | src/apfs/container.cpp:106-130 | every answer is the volume of the first successful request for the index |
| VolumeCache.SameVolumeForEver | src/apfs/container.cpp:111-114 | once answered with a volume, an index is answered with the same one for ever |
| VolumeCache.CachedAtMostNamed | src/apfs/container.cpp:96-130 | after every sequence of requests there are at most as many cached volumes as nonzero object ids |
| WinFsp.AllocationSizeLeast | src/winfsp/winfsp_ops.cpp:294 | the least multiple of 4096 that holds the file if and only if the size is at most 2^64 - 4096; above, 0 |
| WinFsp.FileTimeFaithful | src/winfsp/winfsp_ops.cpp:298-305 | 116444736000000000 ticks plus ten million per whole second; no overflow for any 64-bit time; monotone; converting back gives the Unix second |
| WinFsp.FspFileInfo.Fill | src/winfsp/winfsp_ops.cpp:285-309 | attributes, size and index exactly; creation and modification times to the tick, each also under a second name; an allocation that holds the file with less than one unit to spare up to 2^64 - 4096 |
| WinFsp.WinFspAPFS.MountAt | src/winfsp/winfsp_ops.cpp:20-95 | success exactly when nothing was mounted and every driver call succeeds; then the created file system is held with its dispatcher running; one that cannot be mounted is deleted, and one held before stays |
| WinFsp.WinFspAPFS.Unmount | src/winfsp/winfsp_ops.cpp:97-104 | stops and deletes the mounted file system once, after which none is held, and does nothing when none is mounted |
| WinFsp.FileSystemsNeverLeak | src/winfsp/winfsp_ops.cpp:16-104 | over any sequence of mounts and unmounts with any failures nothing is deleted twice, and created minus deleted is 1 exactly while mounted |
| WinFsp.MountedAfterRun | src/winfsp/winfsp_ops.cpp:20-104 | after any sequence of calls a file system is held, with its dispatcher running, if and only if one was mounted successfully, or held before, and not unmounted since |

## Left out

- The bodies of `lookupRange`, `enumerate` and `getObjectPhysicalAddress`: stubs without behaviour; the range query is an arbitrary function of its bounds.
- Memory behaviour on malformed data: nodes with offsets outside the block, directory names longer than their key, and blocks too small for the structure copied out of them are excluded by preconditions (`WellFormed`, `SoundRecord`, `MappedBlocks` for an object map, `UsableBlocks` and `BlockSize` for a volume).
- Apfs.Container.ReadSuperblock: the C++ reads 4096 bytes into a buffer of 1408 bytes; the model gives it a buffer of 4096, of which the first 1408 are decoded.
- StoredFiles.ImageReadsExactly: reads of no bytes, which inside a file still need an extent record and a readable address, are covered by `FileReads.AsWrittenExactly` and `Catalogs.FileOnDisk` only; the same holds for the pieces of `PiecesExactly`.
- Apfs.Volume.ReadFile: the buffer is at most 2^63 bytes long, as any object in memory is; the C++ caller passes 32-bit lengths.
- Disk.DiskReader.ReadBytes: a device refuses a read or not as a fixed function of position and count; failures that come and go are covered only where the cache and the mount outcomes are described.
- Apfs.BTree.SearchNode: the node is a byte string rather than a buffer, as the C++ takes it by constant reference.
- Weak and shared ownership: an object's container and disk are taken to be alive during its operations; destructors are not modelled beyond `CloseDisk` and `Unmount`.
- Volume names, volume size, logging, the command line, signal handling, UTF-16 conversion and the remaining driver callbacks: wrappers that add no hard property.
- Fields of superblocks, object maps and inode values that the reader never looks at.
