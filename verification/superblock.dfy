/** Container and volume superblocks, and what opening a container or a volume reads. */
module Superblocks {
  import opened Bits
  import opened Bytes
  import opened Structures
  import opened Disk

  const NX_SUPERBLOCK_SIZE := 1408
  const APFS_SUPERBLOCK_SIZE := 1056
  const OBJECT_MAP_SIZE := 88
  const FS_OID_AT := 184

  datatype NxSuperblock = NxSuperblock(magic: u32, blockSize: u32, blockCount: u64, omapOid: u64, fsOid: seq<u64>)

  datatype ApfsSuperblock = ApfsSuperblock(magic: u32, omapOid: u64, rootTreeOid: u64)

  /** The object map; only its tree is kept. */
  datatype ObjectMap = ObjectMap(treeOid: u64)

  function DecodeNx(b: seq<byte>): (sb: NxSuperblock)
    requires |b| >= NX_SUPERBLOCK_SIZE
    ensures |sb.fsOid| == NX_MAX_FILE_SYSTEMS
  {
    NxSuperblock(U32At(b, 32), U32At(b, 36), U64At(b, 40), U64At(b, 160),
                 seq(NX_MAX_FILE_SYSTEMS, i requires 0 <= i < NX_MAX_FILE_SYSTEMS => U64At(b, FS_OID_AT + 8 * i)))
  }

  function DecodeApfs(b: seq<byte>): ApfsSuperblock
    requires |b| >= APFS_SUPERBLOCK_SIZE
  {
    ApfsSuperblock(U32At(b, 32), U64At(b, 128), U64At(b, 136))
  }

  function DecodeOmap(b: seq<byte>): ObjectMap
    requires |b| >= OBJECT_MAP_SIZE
  {
    ObjectMap(U64At(b, 48))
  }

  /** A block holds the largest structure that is copied out of one. */
  type BlockSize = b: u32 | b >= APFS_SUPERBLOCK_SIZE witness APFS_BLOCK_SIZE

  /** The superblock in block 0, if it can be read and has the right magic. */
  function FindSuperblock(d: DiskView): (sb: Option<NxSuperblock>)
    ensures sb.Some? ==> |sb.value.fsOid| == NX_MAX_FILE_SYSTEMS
  {
    match ReadOne(d, 0, APFS_BLOCK_SIZE)
    case None => None
    case Some(b) =>
      var sb := DecodeNx(b);
      if sb.magic == NX_MAGIC then Some(sb) else None
  }

  lemma WordBytes(b: seq<byte>, at: nat, n: u32, expected: seq<byte>)
    requires at + 4 <= |b| && expected == U32(n)
    ensures U32At(b, at) == n <==> b[at..at + 4] == expected
  {
    assert Pow256(4) == U32_LIMIT;
    DecodeEncode(n, 4);
    EncodeDecode(b[at..at + 4]);
  }

  /** The words that the reader expects are the letters NXSB and APSB. */
  lemma MagicLetters()
    ensures U32(NX_MAGIC) == [0x4e, 0x58, 0x53, 0x42] && U32(APFS_MAGIC) == [0x41, 0x50, 0x53, 0x42]
  {
  }

  /** A container superblock is found exactly where the first 4096 bytes can be read and NXSB stands at byte 32. */
  lemma SuperblockExactly(d: DiskView)
    ensures FindSuperblock(d).Some? <==>
            var b := ReadRange(d, 0, 4096); b.Some? && b.value[32..36] == [0x4e, 0x58, 0x53, 0x42]
    ensures FindSuperblock(d).Some? ==> |d.content| >= 4096 && d.content[32..36] == [0x4e, 0x58, 0x53, 0x42]
    ensures Working(d) && |d.content| >= 4096 ==>
              (FindSuperblock(d).Some? <==> d.content[32..36] == [0x4e, 0x58, 0x53, 0x42])
  {
    hide U32, FromLittleEndian, ToLittleEndian;
    MagicLetters();
    var b := ReadRange(d, 0, 4096);
    if b.Some? {
      ReadRangeMeaning(d, 0, 4096);
      assert b.value[32..36] == d.content[32..36];
      WordBytes(b.value, 32, NX_MAGIC, [0x4e, 0x58, 0x53, 0x42]);
    }
    if Working(d) && |d.content| >= 4096 {
      ReadRangeSucceeds(d, 0, 4096);
    }
  }

  /** A block of the size that the disk states holds an object map. */
  predicate MappedBlocks(d: DiskView)
  {
    var sb := FindSuperblock(d);
    sb.Some? ==> sb.value.blockSize >= OBJECT_MAP_SIZE
  }

  /** A block of the size that the disk states holds any structure that is copied out of one. */
  predicate UsableBlocks(d: DiskView)
  {
    var sb := FindSuperblock(d);
    sb.Some? ==> sb.value.blockSize >= APFS_SUPERBLOCK_SIZE
  }

  datatype ContainerState = ContainerState(superblock: NxSuperblock, omap: ObjectMap)

  /** What opening a container finds. */
  function FindContainer(d: DiskView): (c: Option<ContainerState>)
    requires MappedBlocks(d)
    ensures c.Some? ==> |c.value.superblock.fsOid| == NX_MAX_FILE_SYSTEMS
    ensures c.Some? ==> FindSuperblock(d) == Some(c.value.superblock)
  {
    var sb := FindSuperblock(d);
    if sb.None? || sb.value.omapOid == 0 then None
    else
      match ReadOne(d, sb.value.omapOid, sb.value.blockSize)
      case None => None
      case Some(b) => Some(ContainerState(sb.value, DecodeOmap(b)))
  }

  datatype VolumeState = VolumeState(superblock: ApfsSuperblock, omap: ObjectMap)

  /** What opening the volume at a block finds: this is construction without any cache. */
  function FindVolume(d: DiskView, bs: BlockSize, oid: u64): (v: Option<VolumeState>)
    ensures v.Some? ==> v.value.superblock.rootTreeOid != 0
  {
    match ReadOne(d, oid, bs)
    case None => None
    case Some(b) =>
      var sb := DecodeApfs(b);
      if sb.magic != APFS_MAGIC || sb.omapOid == 0 then None
      else
        match ReadOne(d, sb.omapOid, bs)
        case None => None
        case Some(o) => if sb.rootTreeOid == 0 then None else Some(VolumeState(sb, DecodeOmap(o)))
  }

  /** A container is found exactly where there is a superblock, the word at byte 160 of it is not 0, and the block of
      that number can be read; an object map of any type will do. */
  lemma ContainerExactly(d: DiskView)
    requires MappedBlocks(d)
    ensures FindContainer(d).Some? <==>
            && FindSuperblock(d).Some?
            && var omap := U64At(d.content, 160);
               omap != 0 && ReadOne(d, omap, FindSuperblock(d).value.blockSize).Some?
  {
    hide FromLittleEndian;
    SuperblockExactly(d);
    if FindSuperblock(d).Some? {
      ReadRangeMeaning(d, 0, 4096);
      assert d.content[..4096][160..168] == d.content[160..168];
    }
  }

  /** A volume is found in a block exactly if the block can be read, APSB stands at byte 32, the words at bytes 128
      and 136 are not 0, and the block that the former names can be read. */
  lemma VolumeExactly(d: DiskView, bs: BlockSize, oid: u64)
    ensures FindVolume(d, bs, oid).Some? <==>
            var b := ReadOne(d, oid, bs);
            && b.Some? && b.value[32..36] == [0x41, 0x50, 0x53, 0x42]
            && U64At(b.value, 128) != 0 && U64At(b.value, 136) != 0
            && ReadOne(d, U64At(b.value, 128), bs).Some?
    ensures FindVolume(d, bs, oid).Some? ==>
              FindVolume(d, bs, oid).value.superblock.rootTreeOid
              == U64At(ReadOne(d, oid, bs).value, 136)
  {
    hide U32, FromLittleEndian, ToLittleEndian;
    MagicLetters();
    var b := ReadOne(d, oid, bs);
    if b.Some? {
      WordBytes(b.value, 32, APFS_MAGIC, [0x41, 0x50, 0x53, 0x42]);
    }
  }
}
