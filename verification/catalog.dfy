/** Abstract volumes, and the lookups of a volume whose root node encodes one. */
module Catalogs {
  import opened Bits
  import opened Bytes
  import opened Structures
  import opened Inodes
  import opened Nodes
  import opened Disk
  import opened Superblocks
  import opened FileSystem
  import opened FileReads

  type Id = i: nat | i < ID_LIMIT

  /** What a volume stores, free of keys and byte layouts. */
  datatype Record =
    | InodeRecord(id: Id, inode: Inode)
    | ExtentRecord(id: Id, offset: u64, lenAndFlags: u64, block: u64, cryptoId: u64)
    | DirectoryRecord(id: Id, name: seq<byte>, fileId: u64, dateAdded: u64, flags: u16)

  predicate ValidRecord(r: Record)
  {
    match r
    case InodeRecord(_, inode) => ValidInode(inode)
    case ExtentRecord(_, _, _, _, _) => true
    case DirectoryRecord(_, name, _, _, _) => |name| < U16_LIMIT
  }

  predicate ValidRecords(rs: seq<Record>)
  {
    forall i | 0 <= i < |rs| :: ValidRecord(rs[i])
  }

  function KindOf(r: Record): KeyType
  {
    match r
    case InodeRecord(_, _) => APFS_TYPE_INODE
    case ExtentRecord(_, _, _, _, _) => APFS_TYPE_FILE_EXTENT
    case DirectoryRecord(_, _, _, _, _) => APFS_TYPE_DIR_REC
  }

  /** The part of a record's key behind the header word. */
  function KeyTail(r: Record): seq<byte>
    requires ValidRecord(r)
  {
    match r
    case InodeRecord(_, _) => []
    case ExtentRecord(_, offset, _, _, _) => U64(offset)
    case DirectoryRecord(_, name, _, _, _) => U16(|name|) + name
  }

  function ValueOf(r: Record): seq<byte>
    requires ValidRecord(r)
  {
    match r
    case InodeRecord(_, inode) => EncodeInode(inode)
    case ExtentRecord(_, _, len, block, crypto) => U64(len) + U64(block) + U64(crypto)
    case DirectoryRecord(_, _, fileId, date, flags) => U64(fileId) + U64(date) + U16(flags)
  }

  function EncodeRecord(r: Record): Entry
    requires ValidRecord(r)
  {
    Entry(U64(KeyHeader(r.id, KindOf(r))) + KeyTail(r), ValueOf(r))
  }

  function EncodeRecords(rs: seq<Record>): (es: seq<Entry>)
    requires ValidRecords(rs)
    ensures |es| == |rs|
  {
    if rs == [] then [] else [EncodeRecord(rs[0])] + EncodeRecords(rs[1..])
  }

  /** The first inode stored under an id. */
  function InodeOf(rs: seq<Record>, id: nat): (r: Option<Inode>)
    requires ValidRecords(rs)
    ensures r.Some? ==> ValidInode(r.value)
  {
    if rs == [] then None
    else if rs[0].InodeRecord? && rs[0].id == id then Some(rs[0].inode)
    else InodeOf(rs[1..], id)
  }

  /** The block of the first extent stored under an id and an offset. */
  function BlockOf(rs: seq<Record>, id: nat, offset: u64): Option<u64>
  {
    if rs == [] then None
    else if rs[0].ExtentRecord? && rs[0].id == id && rs[0].offset == offset then Some(rs[0].block)
    else BlockOf(rs[1..], id, offset)
  }

  lemma HeaderFirst(id: u64, kind: KeyType, rest: seq<byte>)
    ensures var h := U64At(U64(KeyHeader(id, kind)) + rest, 0); ObjId(h) == id % ID_LIMIT && ObjType(h) == kind
  {
    var header := KeyHeader(id, kind);
    HoldsAppend(U64(header), rest, 0, U64(header));
    HoldsU64(U64(header) + rest, 0, header);
    HeaderPackUnpack(header, id, kind);
  }

  /** The header of a record's key names its id and its kind. */
  lemma RecordHeader(r: Record)
    requires ValidRecord(r)
    ensures var key := EncodeRecord(r).key;
            |key| >= 8 && ObjId(U64At(key, 0)) == r.id && ObjType(U64At(key, 0)) == KindOf(r)
  {
    hide KindOf, KeyTail, ValueOf, KeyHeader, ObjId, ObjType, ValidRecord;
    HeaderFirst(r.id, KindOf(r), KeyTail(r));
  }

  /** A record's key is the key of an inode lookup exactly for the inode record of the masked id. */
  lemma InodeKeyMatches(r: Record, inode: u64)
    requires ValidRecord(r)
    ensures EncodeRecord(r).key == InodeKey(inode) <==> r.InodeRecord? && r.id == inode % ID_LIMIT
  {
    RecordHeader(r);
    InodeKeySeparates(EncodeRecord(r).key, inode);
  }

  lemma ExtentKeyMatches(r: Record, inode: u64, offset: u64)
    requires ValidRecord(r)
    ensures EncodeRecord(r).key == ExtentKey(inode, offset) <==>
            r.ExtentRecord? && r.id == inode % ID_LIMIT && r.offset == offset
  {
    RecordHeader(r);
    var key := EncodeRecord(r).key;
    ExtentKeySeparates(key, inode, offset);
    if r.ExtentRecord? {
      HoldsEnd(U64(KeyHeader(r.id, APFS_TYPE_FILE_EXTENT)), U64(r.offset));
      HoldsU64(key, 8, r.offset);
    }
  }

  lemma {:induction false} FindInode(rs: seq<Record>, inode: u64)
    requires ValidRecords(rs)
    ensures var r := InodeOf(rs, inode % ID_LIMIT);
            FindFirst(EncodeRecords(rs), InodeKey(inode)) == if r.Some? then Some(EncodeInode(r.value)) else None
  {
    if rs != [] {
      InodeKeyMatches(rs[0], inode);
      FindInode(rs[1..], inode);
      assert EncodeRecords(rs)[1..] == EncodeRecords(rs[1..]);
    }
  }

  lemma ExtentValue(len: u64, block: u64, crypto: u64)
    ensures U64At(U64(len) + U64(block) + U64(crypto), 8) == block
  {
    ReadU64(U64(len), block, U64(crypto));
  }

  lemma {:induction false} FindExtent(rs: seq<Record>, inode: u64, offset: u64)
    requires ValidRecords(rs)
    ensures var b, v := BlockOf(rs, inode % ID_LIMIT, offset), FindFirst(EncodeRecords(rs), ExtentKey(inode, offset));
            && (b.Some? <==> v.Some?)
            && (v.Some? ==> |v.value| == EXTENT_VALUE_SIZE && U64At(v.value, 8) == b.value)
  {
    if rs != [] {
      ExtentKeyMatches(rs[0], inode, offset);
      FindExtent(rs[1..], inode, offset);
      assert EncodeRecords(rs)[1..] == EncodeRecords(rs[1..]);
      if rs[0].ExtentRecord? {
        ExtentValue(rs[0].lenAndFlags, rs[0].block, rs[0].cryptoId);
      }
    }
  }

  /** The bytes of every record: headers of type 3, 8 and 9, and the packed values. */
  lemma RecordBytes(r: Record)
    requires ValidRecord(r)
    ensures r.InodeRecord? ==> EncodeRecord(r) == Entry(U64(r.id + 0x3000_0000_0000_0000), EncodeInode(r.inode))
    ensures r.ExtentRecord? ==>
              EncodeRecord(r) == Entry(U64(r.id + 0x8000_0000_0000_0000) + U64(r.offset),
                                       U64(r.lenAndFlags) + U64(r.block) + U64(r.cryptoId))
    ensures r.DirectoryRecord? ==>
              EncodeRecord(r) == Entry(U64(r.id + 0x9000_0000_0000_0000) + U16(|r.name|) + r.name,
                                       U64(r.fileId) + U64(r.dateAdded) + U16(r.flags))
  {
    hide U64, U16, EncodeInode, KeyHeader;
    KeyHeaderValue(r.id, KindOf(r));
    if r.DirectoryRecord? {
      var header := U64(r.id + 0x9000_0000_0000_0000);
      assert header + (U16(|r.name|) + r.name) == header + U16(|r.name|) + r.name;
    } else if r.InodeRecord? {
      assert U64(r.id + 0x3000_0000_0000_0000) + [] == U64(r.id + 0x3000_0000_0000_0000);
    }
  }

  /** The root node can be read and packs exactly the records. */
  ghost predicate StoresRecords(d: DiskView, bs: BlockSize, root: u64, rs: seq<Record>)
  {
    && ValidRecords(rs) && root != 0
    && var node := ReadOne(d, root, bs);
       node.Some? && WellFormed(node.value) && Entries(node.value) == EncodeRecords(rs)
  }

  /** On every disk whose root node stores the records, metadata lookup succeeds exactly when an inode is
      stored under the masked id, and returns the metadata of the first such inode; and exactly when its size
      is the declared one. */
  lemma MetadataOfRecords(d: DiskView, bs: BlockSize, root: u64, rs: seq<Record>, inode: u64, name: seq<byte>)
    requires StoresRecords(d, bs, root, rs)
    ensures var r := InodeOf(rs, inode % ID_LIMIT);
            && InfoAt(d, bs, root, inode, name) == (if r.Some? then Some(InfoOf(inode, name, r.value)) else None)
            && (r.Some? ==>
                  && (InfoOf(inode, name, r.value).size == DeclaredSize(r.value.fields)
                      <==> SizeIsDeclared(r.value.fields))
                  && (FullStreams(r.value.fields) ==> SizeIsDeclared(r.value.fields)))
  {
    FindInode(rs, inode);
    var r := InodeOf(rs, inode % ID_LIMIT);
    if r.Some? {
      InodeRoundTrip(inode, name, r.value);
    }
  }

  lemma ExtentOfRecords(d: DiskView, bs: BlockSize, root: u64, rs: seq<Record>, inode: u64, offset: u64)
    requires StoresRecords(d, bs, root, rs)
    ensures ExtentBlock(d, bs, root, inode, offset) == BlockOf(rs, inode % ID_LIMIT, offset)
  {
    FindExtent(rs, inode, offset);
  }

  lemma FormatOf(inode: u64, r: Inode, size: nat)
    requires ValidInode(r) && r.mode / 4096 != 4 && BorrowedSize(r.fields) == size
    ensures !InfoOf(inode, [], r).isDirectory && InfoOf(inode, [], r).size == size
  {
  }

  /** A file of the volume: the inode that is stored under the masked id is not a directory and has the size. */
  predicate IsFile(rs: seq<Record>, inode: u64, size: nat)
    requires ValidRecords(rs)
  {
    var r := InodeOf(rs, inode % ID_LIMIT);
    r.Some? && r.value.mode / 4096 != 4 && BorrowedSize(r.value.fields) == size
  }

  /** Reading inside a stored file is fetching from the block of the extent recorded for exactly the offset. */
  lemma FileFetches(d: DiskView, bs: BlockSize, root: u64, rs: seq<Record>, how: Addressing,
                    inode: u64, offset: u64, size: u64, fileSize: u64)
    requires StoresRecords(d, bs, root, rs) && size <= MEMORY_LIMIT
    requires IsFile(rs, inode, fileSize) && offset < fileSize
    ensures var b := BlockOf(rs, inode % ID_LIMIT, offset);
            FileBytes(d, bs, root, how, inode, offset, size)
            == if b.None? then None else FetchExtent(d, bs, how, b.value, offset, Least(size, fileSize - offset))
  {
    hide DecodeInode, InfoOf, FetchExtent, FindFirst, ReadRange, Entries, EncodeInode, EncodeRecords, BorrowedSize;
    MetadataOfRecords(d, bs, root, rs, inode, []);
    ExtentOfRecords(d, bs, root, rs, inode, offset);
    FormatOf(inode, InodeOf(rs, inode % ID_LIMIT).value, fileSize);
    FileBytesOf(d, bs, root, how, inode, offset, size);
  }

  /** What a read inside a stored file does on a working disk, for both addressings: it
      fails without an extent for exactly the offset, or if the transfer has 2^32 bytes or more or leaves the
      disk; otherwise it delivers whatever lies at the block offset past the address. */
  lemma FileOnDisk(d: DiskView, bs: BlockSize, root: u64, rs: seq<Record>, how: Addressing,
                   inode: u64, offset: u64, size: u64, fileSize: u64)
    requires StoresRecords(d, bs, root, rs) && Working(d) && size <= MEMORY_LIMIT
    requires IsFile(rs, inode, fileSize) && offset < fileSize
    ensures var b, n := BlockOf(rs, inode % ID_LIMIT, offset), Least(size, fileSize - offset);
            && BlockOffset(offset, bs) + n <= Transfer(n, offset, bs)
            && FileBytes(d, bs, root, how, inode, offset, size)
               == if b.None? then None
                  else
                    var at, len := Address(how, b.value, n, offset, bs), Transfer(n, offset, bs);
                    if len < U32_LIMIT && at + len <= |d.content|
                    then Some(d.content[at + offset % bs..at + offset % bs + n]) else None
  {
    hide FileBytes, StoresRecords, FetchExtent, BlockCount, Transfer, Address, IsFile, BlockOf, ValidRecords, Working;
    FileFetches(d, bs, root, rs, how, inode, offset, size, fileSize);
    var b, n := BlockOf(rs, inode % ID_LIMIT, offset), Least(size, fileSize - offset);
    FetchOnDisk(d, bs, how, if b.Some? then b.value else 0, offset, n);
  }

  /** Reading a stored file: where an extent record names the block that holds the file's bytes from an
      offset on, the intended address delivers those bytes, cut at the end of the file, as long as the
      transfer has fewer than 2^32 bytes; so does the address as written when it names the same place. */
  lemma FileOfRecords(d: DiskView, bs: BlockSize, root: u64, rs: seq<Record>, how: Addressing,
                      inode: u64, offset: u64, size: u64, file: seq<byte>)
    requires StoresRecords(d, bs, root, rs) && size <= MEMORY_LIMIT
    requires |file| < U64_LIMIT && IsFile(rs, inode, |file|) && offset < |file|
    requires var b, data := BlockOf(rs, inode % ID_LIMIT, offset), file[offset..offset + Least(size, |file| - offset)];
             && b.Some? && StoresExtent(d, bs, b.value, offset, data)
             && (how == Intended || SamePlace(b.value, |data|, offset, bs))
    ensures var data := file[offset..offset + Least(size, |file| - offset)];
            FileBytes(d, bs, root, how, inode, offset, size)
            == if Transfer(|data|, offset, bs) < U32_LIMIT then Some(data) else None
  {
    hide FileBytes, StoresRecords, FetchExtent, BlockCount, Transfer, Address, IsFile, BlockOf, ValidRecords, SamePlace,
         StoresExtent;
    FileFetches(d, bs, root, rs, how, inode, offset, size, |file|);
    var b, data := BlockOf(rs, inode % ID_LIMIT, offset).value, file[offset..offset + Least(size, |file| - offset)];
    if how == Intended {
      IntendedReadsData(d, bs, b, offset, data);
    } else {
      AsWrittenReadsData(d, bs, b, offset, data);
    }
  }
}
