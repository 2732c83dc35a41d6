/** Whole disk images: a formatter for abstract volumes, and the proof that the reader undoes it. */
module Images {
  import opened Bits
  import opened Bytes
  import opened Structures
  import opened Inodes
  import opened Nodes
  import opened Disk
  import opened Superblocks
  import opened FileSystem
  import opened FileReads
  import opened Catalogs

  /** The formatter puts the superblock, the container object map, the volume superblock, the volume
      object map and the root node in blocks 0 to 4, and file data behind them. */
  const OMAP_BLOCK: u64 := 1
  const VOLUME_BLOCK: u64 := 2
  const VOLUME_OMAP_BLOCK: u64 := 3
  const ROOT_BLOCK: u64 := 4
  const META_BLOCKS := 5

  /** The trees that the two object maps name; the reader keeps them but never follows them. */
  const OMAP_TREE: u64 := 0x0102_0304_0506_0708
  const VOLUME_OMAP_TREE: u64 := 0x1112_1314_1516_1718

  type FormatSize = b: u32 | b >= APFS_BLOCK_SIZE witness APFS_BLOCK_SIZE

  function FlatWords(ws: seq<u64>): (s: seq<byte>)
    ensures |s| == 8 * |ws|
  {
    if ws == [] then [] else U64(ws[0]) + FlatWords(ws[1..])
  }

  lemma {:induction false} WordAt(ws: seq<u64>, i: nat)
    requires i < |ws|
    ensures Holds(FlatWords(ws), 8 * i, U64(ws[i]))
  {
    if i == 0 {
      HoldsAppend(U64(ws[0]), FlatWords(ws[1..]), 0, U64(ws[0]));
    } else {
      WordAt(ws[1..], i - 1);
      HoldsPrepend(U64(ws[0]), FlatWords(ws[1..]), 8 * (i - 1), U64(ws[i]));
    }
  }

  function NxBlock(bs: FormatSize, count: u64, oids: seq<u64>): (s: seq<byte>)
    requires |oids| == NX_MAX_FILE_SYSTEMS
    ensures |s| == bs
  {
    Zeros(32) + (U32(NX_MAGIC) + U32(bs) + U64(count)) + (Zeros(112) + U64(OMAP_BLOCK)) + Zeros(16)
    + FlatWords(oids) + Zeros(bs - FS_OID_AT - 8 * NX_MAX_FILE_SYSTEMS)
  }

  function ApfsBlock(bs: FormatSize): (s: seq<byte>)
    ensures |s| == bs
  {
    Zeros(32) + U32(APFS_MAGIC) + Zeros(92) + U64(VOLUME_OMAP_BLOCK) + U64(ROOT_BLOCK) + Zeros(bs - 144)
  }

  function MapBlock(bs: FormatSize, tree: u64): (s: seq<byte>)
    ensures |s| == bs
  {
    Zeros(48) + U64(tree) + Zeros(bs - 56)
  }

  /** An object map reads back as the tree that it names. */
  lemma MapFields(bs: FormatSize, tree: u64)
    ensures DecodeOmap(MapBlock(bs, tree)) == ObjectMap(tree)
  {
    ReadU64(Zeros(48), tree, Zeros(bs - 56));
  }

  lemma HoldsTwice(s: seq<byte>, at: nat, piece: seq<byte>, a: seq<byte>, b: seq<byte>)
    requires Holds(s, at, piece) && piece == a + b
    ensures Holds(s, at, a) && Holds(s, at + |a|, b)
  {
    HoldsAppend(a, b, 0, a);
    HoldsEnd(a, b);
    HoldsInside(s, at, piece, 0, a);
    HoldsInside(s, at, piece, |a|, b);
  }

  lemma NxFields(bs: FormatSize, count: u64, oids: seq<u64>)
    requires |oids| == NX_MAX_FILE_SYSTEMS
    ensures DecodeNx(NxBlock(bs, count, oids)) == NxSuperblock(NX_MAGIC, bs, count, OMAP_BLOCK, oids)
  {
    var s := NxBlock(bs, count, oids);
    NxWords(s, bs, count, FlatWords(oids), Zeros(bs - FS_OID_AT - 8 * NX_MAX_FILE_SYSTEMS));
    forall i: nat | i < NX_MAX_FILE_SYSTEMS ensures U64At(s, FS_OID_AT + 8 * i) == oids[i] {
      WordAt(oids, i);
      HoldsInside(s, FS_OID_AT, FlatWords(oids), 8 * i, U64(oids[i]));
      HoldsU64(s, FS_OID_AT + 8 * i, oids[i]);
    }
  }

  lemma NxWords(s: seq<byte>, bs: FormatSize, count: u64, words: seq<byte>, rest: seq<byte>)
    requires s == Zeros(32) + (U32(NX_MAGIC) + U32(bs) + U64(count)) + (Zeros(112) + U64(OMAP_BLOCK)) + Zeros(16)
                  + words + rest
    ensures |s| >= FS_OID_AT
    ensures U32At(s, 32) == NX_MAGIC && U32At(s, 36) == bs && U64At(s, 40) == count && U64At(s, 160) == OMAP_BLOCK
    ensures Holds(s, FS_OID_AT, words)
  {
    var sizes, omap := U32(NX_MAGIC) + U32(bs) + U64(count), Zeros(112) + U64(OMAP_BLOCK);
    HoldsAtPlaces(s, Zeros(32), sizes, omap, Zeros(16), words, rest, 48, 168, FS_OID_AT);
    HoldsTwice(s, 32, sizes, U32(NX_MAGIC) + U32(bs), U64(count));
    HoldsTwice(s, 32, U32(NX_MAGIC) + U32(bs), U32(NX_MAGIC), U32(bs));
    HoldsTwice(s, 48, omap, Zeros(112), U64(OMAP_BLOCK));
    HoldsU32(s, 32, NX_MAGIC);
    HoldsU32(s, 36, bs);
    HoldsU64(s, 40, count);
    HoldsU64(s, 160, OMAP_BLOCK);
  }

  lemma ApfsFields(bs: FormatSize)
    ensures DecodeApfs(ApfsBlock(bs)) == ApfsSuperblock(APFS_MAGIC, VOLUME_OMAP_BLOCK, ROOT_BLOCK)
  {
    var s := ApfsBlock(bs);
    HoldsAtPlaces(s, Zeros(32), U32(APFS_MAGIC), Zeros(92), U64(VOLUME_OMAP_BLOCK), U64(ROOT_BLOCK), Zeros(bs - 144),
                  36, 128, 136);
    HoldsU32(s, 32, APFS_MAGIC);
    HoldsU64(s, 128, VOLUME_OMAP_BLOCK);
    HoldsU64(s, 136, ROOT_BLOCK);
  }

  /** The root node fills its block. */
  predicate FillsBlock(f: NodeFrame, rs: seq<Record>, bs: FormatSize)
  {
    ValidFrame(f) && ValidRecords(rs) && Packable(EncodeRecords(rs)) && |EncodeNode(f, EncodeRecords(rs))| == bs
  }

  /** Header words that fit, and filler up to the end of the block. */
  function LeafFrame(rs: seq<Record>, bs: FormatSize): (f: NodeFrame)
    requires ValidRecords(rs) && Packable(EncodeRecords(rs))
    requires var es := EncodeRecords(rs); KeyBase(|es|) + |Flat(KeysOf(es))| + |Flat(ValuesOf(es))| <= bs
    ensures FillsBlock(f, rs, bs)
  {
    var es := EncodeRecords(rs);
    var used := KeyBase(|es|) + |Flat(KeysOf(es))| + |Flat(ValuesOf(es))|;
    NodeFrame(Zeros(24), true, 0, Zeros(8), Zeros(16), Zeros(bs - used))
  }

  function Format(bs: FormatSize, count: u64, oids: seq<u64>, f: NodeFrame, rs: seq<Record>, data: seq<byte>):
    (s: seq<byte>)
    requires |oids| == NX_MAX_FILE_SYSTEMS && FillsBlock(f, rs, bs)
    ensures |s| == META_BLOCKS * bs + |data|
  {
    NxBlock(bs, count, oids) + MapBlock(bs, OMAP_TREE) + ApfsBlock(bs) + MapBlock(bs, VOLUME_OMAP_TREE)
    + EncodeNode(f, EncodeRecords(rs)) + data
  }

  /** A healthy disk with the given contents. */
  function Healthy(content: seq<byte>): DiskView
    requires |content| < SIGNED_LIMIT
  {
    DiskView(true, |content|, content, NEVER)
  }

  lemma BlockRead(content: seq<byte>, k: u64, at: nat, bs: BlockSize, block: seq<byte>)
    requires |content| < SIGNED_LIMIT && at == k * bs && |block| == bs && Holds(content, at, block)
    ensures ReadOne(Healthy(content), k, bs) == Some(block)
  {
    WrapSmall(at);
    hide Wrap;
    ReadRangeSucceeds(Healthy(content), at, bs);
  }

  lemma FormattedBlocks(bs: FormatSize, count: u64, oids: seq<u64>, f: NodeFrame, rs: seq<Record>, data: seq<byte>)
    requires |oids| == NX_MAX_FILE_SYSTEMS && FillsBlock(f, rs, bs)
    requires META_BLOCKS * bs + |data| < SIGNED_LIMIT
    ensures var d := Healthy(Format(bs, count, oids, f, rs, data));
            && ReadOne(d, 0, APFS_BLOCK_SIZE) == Some(NxBlock(bs, count, oids)[..APFS_BLOCK_SIZE])
            && ReadOne(d, OMAP_BLOCK, bs) == Some(MapBlock(bs, OMAP_TREE))
            && ReadOne(d, VOLUME_BLOCK, bs) == Some(ApfsBlock(bs))
            && ReadOne(d, VOLUME_OMAP_BLOCK, bs) == Some(MapBlock(bs, VOLUME_OMAP_TREE))
            && ReadOne(d, ROOT_BLOCK, bs) == Some(EncodeNode(f, EncodeRecords(rs)))
  {
    var s, nx, node := Format(bs, count, oids, f, rs, data), NxBlock(bs, count, oids), EncodeNode(f, EncodeRecords(rs));
    BlocksHold(s, bs, nx, MapBlock(bs, OMAP_TREE), ApfsBlock(bs), MapBlock(bs, VOLUME_OMAP_TREE), node, data);
    BlockRead(s, OMAP_BLOCK, bs, bs, MapBlock(bs, OMAP_TREE));
    BlockRead(s, VOLUME_BLOCK, 2 * bs, bs, ApfsBlock(bs));
    BlockRead(s, VOLUME_OMAP_BLOCK, 3 * bs, bs, MapBlock(bs, VOLUME_OMAP_TREE));
    BlockRead(s, ROOT_BLOCK, 4 * bs, bs, node);
    BlockRead(s, 0, 0, APFS_BLOCK_SIZE, nx[..APFS_BLOCK_SIZE]);
  }

  lemma BlocksHold(s: seq<byte>, bs: FormatSize, nx: seq<byte>, omap: seq<byte>, apfs: seq<byte>,
                   volumeOmap: seq<byte>, node: seq<byte>, data: seq<byte>)
    requires |nx| == |omap| == |apfs| == |volumeOmap| == |node| == bs
    requires s == nx + omap + apfs + volumeOmap + node + data
    ensures Holds(s, 0, nx[..APFS_BLOCK_SIZE]) && Holds(s, bs, omap) && Holds(s, 2 * bs, apfs)
    ensures Holds(s, 3 * bs, volumeOmap) && Holds(s, 4 * bs, node)
  {
    HoldsAtPlaces(s, nx, omap, apfs, volumeOmap, node, data, 2 * bs, 3 * bs, 4 * bs);
    assert s[..bs] == nx;
  }

  /** The superblock's fields lie in its first 1408 bytes. */
  lemma NxPrefix(b: seq<byte>, n: nat)
    requires NX_SUPERBLOCK_SIZE <= n <= |b|
    ensures DecodeNx(b[..n]) == DecodeNx(b)
  {
    var p := b[..n];
    assert p[32..36] == b[32..36] && p[36..40] == b[36..40] && p[40..48] == b[40..48] && p[160..168] == b[160..168];
    forall i: nat | i < NX_MAX_FILE_SYSTEMS ensures U64At(p, FS_OID_AT + 8 * i) == U64At(b, FS_OID_AT + 8 * i) {
      assert p[FS_OID_AT + 8 * i..FS_OID_AT + 8 * i + 8] == b[FS_OID_AT + 8 * i..FS_OID_AT + 8 * i + 8];
    }
  }

  /** Opening a formatted image finds its container, its volume and a root node that stores its records. */
  lemma FormattedOpens(bs: FormatSize, count: u64, oids: seq<u64>, f: NodeFrame, rs: seq<Record>, data: seq<byte>)
    requires |oids| == NX_MAX_FILE_SYSTEMS && FillsBlock(f, rs, bs)
    requires META_BLOCKS * bs + |data| < SIGNED_LIMIT
    ensures var d := Healthy(Format(bs, count, oids, f, rs, data));
            && FindSuperblock(d) == Some(NxSuperblock(NX_MAGIC, bs, count, OMAP_BLOCK, oids))
            && UsableBlocks(d)
            && FindContainer(d)
               == Some(ContainerState(NxSuperblock(NX_MAGIC, bs, count, OMAP_BLOCK, oids), ObjectMap(OMAP_TREE)))
            && FindVolume(d, bs, VOLUME_BLOCK)
               == Some(VolumeState(ApfsSuperblock(APFS_MAGIC, VOLUME_OMAP_BLOCK, ROOT_BLOCK),
                                   ObjectMap(VOLUME_OMAP_TREE)))
            && StoresRecords(d, bs, ROOT_BLOCK, rs)
  {
    hide Format, NxBlock, ApfsBlock, MapBlock, EncodeNode, FindSuperblock, FindContainer, FindVolume, ReadOne, Entries;
    FormattedBlocks(bs, count, oids, f, rs, data);
    var d := Healthy(Format(bs, count, oids, f, rs, data));
    NxFields(bs, count, oids);
    ContainerOpens(d, bs, NxBlock(bs, count, oids));
    VolumeOpens(d, bs);
    NodeRoundTrip(f, EncodeRecords(rs));
  }

  lemma ContainerOpens(d: DiskView, bs: FormatSize, nx: seq<byte>)
    requires |nx| == bs && ReadOne(d, 0, APFS_BLOCK_SIZE) == Some(nx[..APFS_BLOCK_SIZE])
    requires ReadOne(d, OMAP_BLOCK, bs) == Some(MapBlock(bs, OMAP_TREE))
    requires DecodeNx(nx).magic == NX_MAGIC && DecodeNx(nx).blockSize == bs && DecodeNx(nx).omapOid == OMAP_BLOCK
    ensures FindSuperblock(d) == Some(DecodeNx(nx)) && UsableBlocks(d)
    ensures FindContainer(d) == Some(ContainerState(DecodeNx(nx), ObjectMap(OMAP_TREE)))
  {
    hide DecodeNx, DecodeOmap, ReadOne, MapBlock;
    NxPrefix(nx, APFS_BLOCK_SIZE);
    MapFields(bs, OMAP_TREE);
  }

  lemma VolumeOpens(d: DiskView, bs: FormatSize)
    requires ReadOne(d, VOLUME_BLOCK, bs) == Some(ApfsBlock(bs))
    requires ReadOne(d, VOLUME_OMAP_BLOCK, bs) == Some(MapBlock(bs, VOLUME_OMAP_TREE))
    ensures FindVolume(d, bs, VOLUME_BLOCK)
            == Some(VolumeState(ApfsSuperblock(APFS_MAGIC, VOLUME_OMAP_BLOCK, ROOT_BLOCK), ObjectMap(VOLUME_OMAP_TREE)))
  {
    hide DecodeApfs, DecodeOmap, ReadOne, MapBlock, ApfsBlock;
    ApfsFields(bs);
    MapFields(bs, VOLUME_OMAP_TREE);
  }

  /** Format, open, look up: for every abstract volume, metadata lookup on its image succeeds exactly for
      the stored ids and returns the stored metadata. */
  lemma FormatRoundTrip(bs: FormatSize, count: u64, oids: seq<u64>, f: NodeFrame, rs: seq<Record>, data: seq<byte>,
                        inode: u64, name: seq<byte>)
    requires |oids| == NX_MAX_FILE_SYSTEMS && FillsBlock(f, rs, bs)
    requires META_BLOCKS * bs + |data| < SIGNED_LIMIT
    ensures var d, r := Healthy(Format(bs, count, oids, f, rs, data)), InodeOf(rs, inode % ID_LIMIT);
            var v := FindVolume(d, bs, VOLUME_BLOCK);
            && v.Some? && SoundRoot(d, bs, v.value.superblock.rootTreeOid)
            && InfoAt(d, bs, v.value.superblock.rootTreeOid, inode, name)
               == if r.Some? then Some(InfoOf(inode, name, r.value)) else None
  {
    FormattedOpens(bs, count, oids, f, rs, data);
    MetadataOfRecords(Healthy(Format(bs, count, oids, f, rs, data)), bs, ROOT_BLOCK, rs, inode, name);
  }

  /** File data behind the metadata blocks is stored where its block number says. */
  lemma FormattedStores(bs: FormatSize, count: u64, oids: seq<u64>, f: NodeFrame, rs: seq<Record>, data: seq<byte>,
                        block: u64, offset: u64, piece: seq<byte>)
    requires |oids| == NX_MAX_FILE_SYSTEMS && FillsBlock(f, rs, bs)
    requires META_BLOCKS * bs + |data| < SIGNED_LIMIT
    requires block >= META_BLOCKS && |piece| <= MEMORY_LIMIT
    requires var at := BlockStart(block - META_BLOCKS, bs);
             at + Transfer(|piece|, offset, bs) <= |data| && Bytes.Holds(data, at + offset % bs, piece)
    ensures StoresExtent(Healthy(Format(bs, count, oids, f, rs, data)), bs, block, offset, piece)
  {
    hide BlockCount, EncodeNode, NxBlock, ApfsBlock, MapBlock;
    var meta := NxBlock(bs, count, oids) + MapBlock(bs, OMAP_TREE) + ApfsBlock(bs) + MapBlock(bs, VOLUME_OMAP_TREE)
                + EncodeNode(f, EncodeRecords(rs));
    var at := BlockStart(block - META_BLOCKS, bs);
    assert BlockStart(block, bs) == |meta| + at;
    HoldsPrepend(meta, data, at + offset % bs, piece);
  }

  lemma StoredRecords(bs: FormatSize, count: u64, oids: seq<u64>, f: NodeFrame, rs: seq<Record>, data: seq<byte>)
    requires |oids| == NX_MAX_FILE_SYSTEMS && FillsBlock(f, rs, bs)
    requires META_BLOCKS * bs + |data| < SIGNED_LIMIT
    ensures var d := Healthy(Format(bs, count, oids, f, rs, data));
            && ValidRecords(rs) && Working(d) && |d.content| == META_BLOCKS * bs + |data|
            && StoresRecords(d, bs, ROOT_BLOCK, rs) && SoundRoot(d, bs, ROOT_BLOCK)
  {
    FormattedOpens(bs, count, oids, f, rs, data);
  }

  /** The file's bytes from an offset on that a read asks for. */
  function Piece(file: seq<byte>, offset: u64, size: u64): (s: seq<byte>)
    requires offset < |file| < U64_LIMIT
    ensures |s| == Least(size, |file| - offset)
  {
    file[offset..offset + Least(size, |file| - offset)]
  }

  /** The records describe a file whose piece lies in the data area, where its extent record says. */
  predicate LaysOut(bs: FormatSize, rs: seq<Record>, data: seq<byte>, inode: u64, offset: u64, size: u64,
                    file: seq<byte>)
    requires ValidRecords(rs) && size <= MEMORY_LIMIT
  {
    && offset < |file| < U64_LIMIT && IsFile(rs, inode, |file|)
    && var b := BlockOf(rs, inode % ID_LIMIT, offset);
       && b.Some? && b.value >= META_BLOCKS
       && var at, piece := BlockStart(b.value - META_BLOCKS, bs), Piece(file, offset, size);
          at + Transfer(|piece|, offset, bs) <= |data| && Bytes.Holds(data, at + offset % bs, piece)
  }

  /** Format, open, read: a file whose extent record names a block behind the metadata reads back as the
      bytes stored there, cut at the end of the file, as long as the transfer has fewer than 2^32 bytes; with
      the address as written, if it names the same place. */
  lemma FormatFileRoundTrip(bs: FormatSize, count: u64, oids: seq<u64>, f: NodeFrame, rs: seq<Record>, data: seq<byte>,
                            how: Addressing, inode: u64, offset: u64, size: u64, file: seq<byte>)
    requires |oids| == NX_MAX_FILE_SYSTEMS && FillsBlock(f, rs, bs)
    requires META_BLOCKS * bs + |data| < SIGNED_LIMIT && size <= MEMORY_LIMIT
    requires LaysOut(bs, rs, data, inode, offset, size, file)
    requires how == Intended
             || SamePlace(BlockOf(rs, inode % ID_LIMIT, offset).value, |Piece(file, offset, size)|, offset, bs)
    ensures var d, piece := Healthy(Format(bs, count, oids, f, rs, data)), Piece(file, offset, size);
            && SoundRoot(d, bs, ROOT_BLOCK)
            && FileBytes(d, bs, ROOT_BLOCK, how, inode, offset, size)
               == if Transfer(|piece|, offset, bs) < U32_LIMIT then Some(piece) else None
  {
    hide Format, Healthy, FileBytes, BlockCount, Transfer, BlockOf, IsFile, StoresExtent, StoresRecords, FillsBlock,
         SamePlace, ValidRecords, SoundRoot, BlockStart;
    StoredRecords(bs, count, oids, f, rs, data);
    var d := Healthy(Format(bs, count, oids, f, rs, data));
    var b := BlockOf(rs, inode % ID_LIMIT, offset).value;
    FormattedStores(bs, count, oids, f, rs, data, b, offset, Piece(file, offset, size));
    FileOfRecords(d, bs, ROOT_BLOCK, rs, how, inode, offset, size, file);
  }

  /** What the read as written does on a formatted image whose data area ends with the extent: it fails when
      the transfer is too long or its address lies behind the intended one, and otherwise delivers what lies
      at its address. */
  lemma FormatFileAsWritten(bs: FormatSize, count: u64, oids: seq<u64>, f: NodeFrame, rs: seq<Record>, data: seq<byte>,
                            inode: u64, offset: u64, size: u64, file: seq<byte>)
    requires |oids| == NX_MAX_FILE_SYSTEMS && FillsBlock(f, rs, bs)
    requires META_BLOCKS * bs + |data| < SIGNED_LIMIT && 0 < size <= MEMORY_LIMIT
    requires LaysOut(bs, rs, data, inode, offset, size, file)
    requires var b, n := BlockOf(rs, inode % ID_LIMIT, offset).value, |Piece(file, offset, size)|;
             BlockStart(b - META_BLOCKS, bs) + Transfer(n, offset, bs) == |data|
    ensures var d, n := Healthy(Format(bs, count, oids, f, rs, data)), |Piece(file, offset, size)|;
            var b := BlockOf(rs, inode % ID_LIMIT, offset).value;
            var at := Address(AsWritten, b, n, offset, bs);
            && SoundRoot(d, bs, ROOT_BLOCK)
            && (Transfer(n, offset, bs) >= U32_LIMIT || at > BlockStart(b, bs) ==>
                  FileBytes(d, bs, ROOT_BLOCK, AsWritten, inode, offset, size) == None)
            && (Transfer(n, offset, bs) < U32_LIMIT && at <= BlockStart(b, bs) ==>
                  && at + offset % bs + n <= |d.content|
                  && FileBytes(d, bs, ROOT_BLOCK, AsWritten, inode, offset, size)
                     == Some(d.content[at + offset % bs..at + offset % bs + n]))
  {
    hide Format, FileBytes, BlockCount, Transfer, Address, BlockOf, IsFile, StoresRecords, FillsBlock, ValidRecords,
         SoundRoot, BlockStart, Healthy;
    StoredRecords(bs, count, oids, f, rs, data);
    var d := Healthy(Format(bs, count, oids, f, rs, data));
    var b, n := BlockOf(rs, inode % ID_LIMIT, offset).value, |Piece(file, offset, size)|;
    EndOfImage(bs, b, Transfer(n, offset, bs), |data|);
    FileOnDisk(d, bs, ROOT_BLOCK, rs, AsWritten, inode, offset, size, |file|);
  }

  lemma EndOfImage(bs: FormatSize, block: u64, length: nat, size: nat)
    requires block >= META_BLOCKS && BlockStart(block - META_BLOCKS, bs) + length == size
    ensures META_BLOCKS * bs + size == BlockStart(block, bs) + length
  {
  }

  /** On these images, while the product fits 64 bits, the read as written succeeds if and only if a single
      block of fewer than 2^32 bytes is transferred; it then delivers the stored bytes. */
  lemma FormatFileExactly(bs: FormatSize, count: u64, oids: seq<u64>, f: NodeFrame, rs: seq<Record>, data: seq<byte>,
                          inode: u64, offset: u64, size: u64, file: seq<byte>)
    requires |oids| == NX_MAX_FILE_SYSTEMS && FillsBlock(f, rs, bs)
    requires META_BLOCKS * bs + |data| < SIGNED_LIMIT && 0 < size <= MEMORY_LIMIT
    requires LaysOut(bs, rs, data, inode, offset, size, file)
    requires var b, n := BlockOf(rs, inode % ID_LIMIT, offset).value, |Piece(file, offset, size)|;
             && BlockStart(b - META_BLOCKS, bs) + Transfer(n, offset, bs) == |data|
             && b * Transfer(n, offset, bs) < U64_LIMIT
    ensures var d, piece := Healthy(Format(bs, count, oids, f, rs, data)), Piece(file, offset, size);
            && SoundRoot(d, bs, ROOT_BLOCK)
            && FileBytes(d, bs, ROOT_BLOCK, AsWritten, inode, offset, size)
               == if Transfer(|piece|, offset, bs) < U32_LIMIT && BlockCount(|piece|, offset, bs) == 1
                  then Some(piece) else None
  {
    var b, n := BlockOf(rs, inode % ID_LIMIT, offset).value, |Piece(file, offset, size)|;
    AddressAgreement(b, n, offset, bs);
    if BlockCount(n, offset, bs) == 1 {
      hide Format, FileBytes, BlockCount, Transfer, IsFile, FillsBlock, ComesRound, BlockOf;
      FormatFileRoundTrip(bs, count, oids, f, rs, data, AsWritten, inode, offset, size, file);
    } else {
      AddressBeyond(b, n, offset, bs);
      hide Format, FileBytes, BlockCount, Transfer, Address, IsFile, FillsBlock, BlockOf, BlockStart;
      FormatFileAsWritten(bs, count, oids, f, rs, data, inode, offset, size, file);
    }
  }
}
