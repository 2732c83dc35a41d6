/** The reader's objects: containers, volumes and B-trees over a disk. */
module Apfs {
  import opened Bits
  import opened Bytes
  import opened Structures
  import opened Inodes
  import opened Nodes
  import opened Disk
  import opened Superblocks
  import opened FileSystem
  import opened FileReads
  import opened Paths
  import opened VolumeCache

  class BTree {
    const volume: Volume
    const rootOid: u64

    constructor (volume: Volume, rootOid: u64)
      ensures this.volume == volume && this.rootOid == rootOid
    {
      this.volume, this.rootOid := volume, rootOid;
    }

    method Init() returns (ok: bool)
      ensures ok == (rootOid != 0)
    {
      ok := rootOid != 0;
    }

    /** The object id serves as the physical block number. */
    method ReadNode(oid: u64) returns (ok: bool, node: array<byte>)
      requires volume.container.Usable()
      ensures fresh(node)
      ensures ok == ReadOne(volume.container.disk.View(), oid, volume.container.blockSize).Some?
      ensures ok ==> node[..] == ReadOne(volume.container.disk.View(), oid, volume.container.blockSize).value
    {
      var blockSize := volume.container.blockSize;
      node := new byte[blockSize];
      ok := volume.container.ReadBlock(oid, node, blockSize);
      assert node[..blockSize] == node[..];
    }

    /** Where entry number index keeps its key and its value. */
    method GetKeyValue(node: seq<byte>, index: u32)
      returns (ok: bool, keyAt: nat, keyLength: nat, valueAt: nat, valueLength: nat)
      requires |node| >= NODE_HEADER && TableFits(node, KeyCount(node))
      ensures ok == (index < KeyCount(node))
      ensures ok ==> keyAt + keyLength <= |node| && valueAt + valueLength <= |node|
      ensures ok ==> Entry(node[keyAt..keyAt + keyLength], node[valueAt..valueAt + valueLength])
                     == EntryAt(node, KeyCount(node), index)
    {
      hide LocationFits, Located, FromLittleEndian;
      var n := KeyCount(node);
      if index >= n {
        return false, 0, 0, 0, 0;
      }
      keyAt, keyLength := GetLocation(node, index);
      valueAt, valueLength := GetLocation(node, n + index);
      ok := true;
    }

    /** Location number i of the table of contents. */
    static method GetLocation(node: seq<byte>, i: nat) returns (at: nat, length: nat)
      requires LocationFits(node, i)
      ensures at + length <= |node| && node[at..at + length] == Located(node, i)
    {
      var place := NODE_HEADER + LOCATION_SIZE * i;
      at, length := U16At(node, place), U16At(node, place + 2);
    }

    /** A linear search for the first entry whose key compares equal. */
    method SearchNode(node: seq<byte>, key: seq<byte>) returns (ok: bool, value: seq<byte>, found: bool)
      requires WellFormed(node)
      ensures ok
      ensures (if found then Some(value) else None) == FindFirst(Entries(node), key)
      ensures U16At(node, 24) != 2 && U16At(node, 24) != 3 ==> !found
    {
      ok := true;
      OtherBlocksEmpty(node);
      if !IsTreeNode(node) {
        return ok, [], false;
      }
      value, found := SearchTable(node, key);
    }

    method SearchTable(node: seq<byte>, key: seq<byte>) returns (value: seq<byte>, found: bool)
      requires |node| >= NODE_HEADER && TableFits(node, KeyCount(node))
      ensures (if found then Some(value) else None)
              == FindFirst(FirstEntries(node, KeyCount(node), KeyCount(node)), key)
    {
      value, found := [], false;
      var n := KeyCount(node);
      ghost var es := FirstEntries(node, n, n);
      var i := 0;
      while i < n
        invariant 0 <= i <= n && !found
        invariant forall j | 0 <= j < i :: es[j].key != key
      {
        var valid, keyAt, keyLength, valueAt, valueLength := GetKeyValue(node, i);
        if valid {
          CompareZero(key, node[keyAt..keyAt + keyLength]);
          if CompareKeys(key, node[keyAt..keyAt + keyLength]) == 0 {
            value, found := node[valueAt..valueAt + valueLength], true;
            FindFirstAt(es, key, i);
            return;
          }
        }
        i := i + 1;
      }
      FindFirstAt(es, key, n);
    }

    /** The loop of the C++ breaks at the end of its first round, so it is a conditional: only the root node
        is searched. */
    method Lookup(key: seq<byte>) returns (found: bool, value: seq<byte>)
      requires volume.container.Usable()
      requires SoundRoot(volume.container.disk.View(), volume.container.blockSize, rootOid)
      ensures (if found then Some(value) else None)
              == TreeLookup(volume.container.disk.View(), volume.container.blockSize, rootOid, key)
    {
      found, value := false, [];
      var current := rootOid;
      if current != 0 && !found {
        var ok, node := ReadNode(current);
        if !ok {
          return;
        }
        ok, value, found := SearchNode(node[..], key);
        if !ok {
          return;
        }
      }
    }
  }

  class Volume {
    const container: Container
    const volumeOid: u64
    var superblock: ApfsSuperblock
    var omap: ObjectMap
    var rootTree: BTree?

    constructor (container: Container, volumeOid: u64)
      ensures this.container == container && this.volumeOid == volumeOid && rootTree == null
    {
      this.container, this.volumeOid := container, volumeOid;
      superblock, omap, rootTree := ApfsSuperblock(0, 0, 0), ObjectMap(0), null;
    }

    /** The state that initialisation set up. */
    ghost predicate Holds(state: VolumeState)
      reads this
    {
      && superblock == state.superblock && omap == state.omap
      && rootTree != null && rootTree.volume == this && rootTree.rootOid == superblock.rootTreeOid
    }

    /** An initialised volume on a disk whose root node is sound. */
    ghost predicate Ready()
      reads this, container, container.disk
    {
      && container.Usable()
      && rootTree != null && rootTree.volume == this
      && SoundRoot(container.disk.View(), container.blockSize, rootTree.rootOid)
    }

    method ReadSuperblock() returns (ok: bool)
      requires container.Usable()
      modifies this
      ensures var b := ReadOne(container.disk.View(), volumeOid, container.blockSize);
              && superblock == (if b.Some? then DecodeApfs(b.value) else old(superblock))
              && ok == (b.Some? && superblock.magic == APFS_MAGIC)
              && ok == (b.Some? && b.value[32..36] == [0x41, 0x50, 0x53, 0x42])
      ensures omap == old(omap) && rootTree == old(rootTree)
    {
      var buffer := new byte[container.blockSize];
      ok := container.ReadBlock(volumeOid, buffer, container.blockSize);
      if !ok {
        return false;
      }
      assert buffer[..container.blockSize] == buffer[..];
      superblock := DecodeApfs(buffer[..]);
      MagicLetters();
      WordBytes(buffer[..], 32, APFS_MAGIC, [0x41, 0x50, 0x53, 0x42]);
      ok := superblock.magic == APFS_MAGIC;
    }

    method ReadObjectMap() returns (ok: bool)
      requires container.Usable()
      modifies this
      ensures var b := ReadOne(container.disk.View(), superblock.omapOid, container.blockSize);
              && ok == (superblock.omapOid != 0 && b.Some?)
              && omap == (if ok then DecodeOmap(b.value) else old(omap))
      ensures superblock == old(superblock) && rootTree == old(rootTree)
    {
      if superblock.omapOid == 0 {
        return false;
      }
      var buffer := new byte[container.blockSize];
      ok := container.ReadBlock(superblock.omapOid, buffer, container.blockSize);
      if !ok {
        return false;
      }
      assert buffer[..container.blockSize] == buffer[..];
      omap := DecodeOmap(buffer[..]);
    }

    method InitRootTree() returns (ok: bool)
      modifies this
      ensures ok == (superblock.rootTreeOid != 0)
      ensures ok ==> rootTree != null && fresh(rootTree) && rootTree.volume == this
                     && rootTree.rootOid == superblock.rootTreeOid
      ensures !ok ==> rootTree == old(rootTree)
      ensures superblock == old(superblock) && omap == old(omap)
    {
      if superblock.rootTreeOid == 0 {
        return false;
      }
      var tree := new BTree(this, superblock.rootTreeOid);
      rootTree := tree;
      ok := tree.Init();
    }

    method Init() returns (ok: bool)
      requires container.Usable()
      modifies this
      ensures ok == FindVolume(container.disk.View(), container.blockSize, volumeOid).Some?
      ensures ok ==> Holds(FindVolume(container.disk.View(), container.blockSize, volumeOid).value)
      ensures !ok ==> rootTree == old(rootTree)
      ensures var b := ReadOne(container.disk.View(), volumeOid, container.blockSize);
              superblock == if b.Some? then DecodeApfs(b.value) else old(superblock)
    {
      ok := ReadSuperblock();
      if !ok {
        return;
      }
      ok := ReadObjectMap();
      if !ok {
        return;
      }
      ok := InitRootTree();
    }

    method GetRootInode() returns (inode: u64)
      ensures inode == ROOT_INODE == 2
    {
      inode := 2;
    }

    /** On failure the caller's record stays as it was; on success all but its name is overwritten. */
    method GetFileInfo(inode: u64, previous: FileInfo) returns (ok: bool, info: FileInfo)
      requires Ready()
      ensures var r := InfoAt(container.disk.View(), container.blockSize, rootTree.rootOid, inode, previous.name);
              ok == r.Some? && info == if ok then r.value else previous
    {
      info := previous;
      var key := U64(KeyHeader(inode, APFS_TYPE_INODE));
      var found, value := rootTree.Lookup(key);
      if !found {
        return false, info;
      }
      if |value| < INODE_VALUE_SIZE {
        return false, info;
      }
      info := info.(inode := inode);
      info := info.(parentId := U64At(value, 0));
      info := info.(createTime := U64At(value, 16));
      info := info.(modTime := U64At(value, 24));
      info := info.(mode := U16At(value, 80));
      info := info.(isDirectory := And(U16At(value, 80), S_IFMT) == S_IFDIR);
      var size := ScanFields(value);
      info := info.(size := size);
      ok := true;
    }

    /** The loop over the extended fields of an inode value. */
    method ScanFields(value: seq<byte>) returns (size: u64)
      requires |value| >= INODE_VALUE_SIZE
      ensures size == ScanSize(value[INODE_VALUE_SIZE..])
    {
      size := 0;
      var at, end := INODE_VALUE_SIZE, |value|;
      while at + XFIELD_HEADER <= end
        invariant INODE_VALUE_SIZE <= at && size == 0
        invariant ScanSize(value[INODE_VALUE_SIZE..]) == if at <= end then ScanSize(value[at..]) else 0
      {
        FieldInPlace(value, at);
        if value[at] == INO_EXT_TYPE_DSTREAM {
          if at + XFIELD_HEADER + DSTREAM_SIZE <= end {
            size := U64At(value, at + XFIELD_HEADER);
          }
          return;
        }
        at := at + (XFIELD_HEADER + U16At(value, at + 2));
      }
    }

    method ReadDirectory(inode: u64, query: RangeQuery) returns (ok: bool, entries: seq<FileInfo>)
      requires Ready() && SoundQuery(query)
      ensures (if ok then Some(entries) else None)
              == Listing(container.disk.View(), container.blockSize, rootTree.rootOid, query, inode)
      ensures !ok ==> entries == []
    {
      entries := [];
      var low := KeyHeader(inode, APFS_TYPE_DIR_REC);
      var high := KeyHeader(Wrap(inode + 1), APFS_TYPE_DIR_REC);
      assert low == DirectoryLow(inode) && high == DirectoryHigh(inode);
      hide KeyHeader, DirectoryLow, DirectoryHigh, ChildOf, InfoAt, Children, SoundRecord, SoundRoot;
      var result := query(low, high);
      if result.None? {
        return false, entries;
      }
      var es := result.value;
      ghost var d, bs, root := container.disk.View(), container.blockSize, rootTree.rootOid;
      assert es[..0] == [];
      ChildrenOfNone(d, bs, root);
      for i := 0 to |es|
        invariant SoundRecords(es[..i]) && entries == Children(d, bs, root, es[..i])
      {
        ChildrenNext(d, bs, root, es, i);
        var found, child := ReadChild(es[i]);
        if found {
          entries := entries + [child];
        }
      }
      assert es[..|es|] == es;
      ok := true;
    }

    /** One round of the loop over directory records: skip what is too short or names nothing. */
    method ReadChild(e: Entry) returns (found: bool, child: FileInfo)
      requires Ready() && SoundRecord(e)
      ensures (if found then Some(child) else None)
              == ChildOf(container.disk.View(), container.blockSize, rootTree.rootOid, e)
    {
      hide InfoAt;
      child := FileInfo(0, [], 0, 0, 0, 0, false, 0);
      if |e.key| < DREC_KEY_SIZE {
        return false, child;
      }
      if |e.value| < DREC_VALUE_SIZE {
        return false, child;
      }
      child := child.(name := e.key[DREC_KEY_SIZE..DREC_KEY_SIZE + U16At(e.key, 8)]);
      found, child := GetFileInfo(U64At(e.value, 0), child);
    }

    /** The directories of the volume as a listing function. */
    ghost function Directories(query: RangeQuery): Lister
      requires Ready() && SoundQuery(query)
      reads this, container, container.disk
    {
      var d, bs, root := container.disk.View(), container.blockSize, rootTree.rootOid;
      (i: u64) => Listing(d, bs, root, query, i)
    }

    method LookupPath(path: Path, query: RangeQuery, previous: FileInfo) returns (ok: bool, info: FileInfo)
      requires Ready() && SoundQuery(query)
      ensures path == [] || path == [SLASH] ==>
                var d, bs, root := container.disk.View(), container.blockSize, rootTree.rootOid;
                var r := InfoAt(d, bs, root, ROOT_INODE, previous.name);
                ok == r.Some? && info == if ok then r.value else previous
      ensures path != [] && path != [SLASH] ==>
                var w := Walk(Directories(query), Walker(true, ROOT_INODE, previous), Components(path));
                ok == w.arrived && info == w.info
    {
      hide InfoAt, Listing, DirectoryLow, DirectoryHigh;
      info := previous;
      var current := GetRootInode();
      if path == [SLASH] || path == [] {
        ok, info := GetFileInfo(current, info);
        return;
      }
      var components := SplitPath(path);
      ghost var list, start := Directories(query), Walker(true, ROOT_INODE, previous);
      for i := 0 to |components|
        invariant Walk(list, start, components[..i]) == Walker(true, current, info)
      {
        WalkNext(list, start, components, i);
        var listed, entries := ReadDirectory(current, query);
        if !listed {
          return false, info;
        }
        var found, entry := FindNamed(entries, components[i]);
        if found {
          current, info := entry.inode, entry;
        }
        if !found {
          return false, info;
        }
      }
      assert components[..|components|] == components;
      ok := true;
    }

    /** The inner loop of the path walk. */
    static method FindNamed(entries: seq<FileInfo>, name: Path) returns (found: bool, entry: FileInfo)
      ensures (if found then Some(entry) else None) == FirstNamed(entries, name)
    {
      found, entry := false, FileInfo(0, [], 0, 0, 0, 0, false, 0);
      for i := 0 to |entries|
        invariant !found
        invariant FirstNamed(entries, name) == FirstNamed(entries[i..], name)
      {
        if entries[i].name == name {
          return true, entries[i];
        }
      }
    }

    /** Reads of a file. The C++ addresses AsWritten. */
    method ReadFile(inode: u64, offset: u64, buffer: array<byte>, size: u64, how: Addressing := AsWritten)
      returns (ok: bool, bytesRead: u64)
      requires Ready() && size <= buffer.Length && size <= MEMORY_LIMIT
      modifies buffer
      ensures var d, bs, root := container.disk.View(), container.blockSize, rootTree.rootOid;
              var r := FileBytes(d, bs, root, how, inode, offset, size);
              && ok == r.Some?
              && bytesRead == (if ok then |r.value| else 0)
              && buffer[..] == if ok then Overwrite(old(buffer[..]), r.value) else old(buffer[..])
    {
      hide FileBytes, InfoAt, ExtentBytes, ReadRange;
      bytesRead := 0;
      ghost var d, bs, root := container.disk.View(), container.blockSize, rootTree.rootOid;
      FileBytesSteps(d, bs, root, how, inode, offset, size);
      var found, info := GetFileInfo(inode, FileInfo(0, [], 0, 0, 0, 0, false, 0));
      if !found {
        return false, 0;
      }
      if info.isDirectory {
        return false, 0;
      }
      if offset >= info.size {
        OverwriteNothing(buffer[..]);
        return true, 0;
      }
      var readSize := if size < info.size - offset then size else info.size - offset;
      assert FileBytes(d, bs, root, how, inode, offset, size) == ExtentBytes(d, bs, root, how, inode, offset, readSize);
      ok := ReadExtent(inode, offset, buffer, readSize, how);
      bytesRead := if ok then readSize else 0;
      assert container.disk.View() == d;
    }

    /** The part of a file read that lies inside the file. */
    method ReadExtent(inode: u64, offset: u64, buffer: array<byte>, readSize: u64, how: Addressing) returns (ok: bool)
      requires Ready() && readSize <= buffer.Length && readSize <= MEMORY_LIMIT
      modifies buffer
      ensures var d, bs, root := container.disk.View(), container.blockSize, rootTree.rootOid;
              var r := ExtentBytes(d, bs, root, how, inode, offset, readSize);
              ok == r.Some? && buffer[..] == if ok then Overwrite(old(buffer[..]), r.value) else old(buffer[..])
    {
      var located, block := FindExtent(inode, offset);
      if !located {
        return false;
      }
      ok := CopyBlocks(block, offset, buffer, readSize, how);
    }

    /** The block of the extent that starts exactly at the offset. */
    method FindExtent(inode: u64, offset: u64) returns (ok: bool, block: u64)
      requires Ready()
      ensures (if ok then Some(block) else None)
              == ExtentBlock(container.disk.View(), container.blockSize, rootTree.rootOid, inode, offset)
    {
      var key := U64(KeyHeader(inode, APFS_TYPE_FILE_EXTENT)) + U64(offset);
      var found, value := rootTree.Lookup(key);
      if !found {
        return false, 0;
      }
      if |value| < EXTENT_VALUE_SIZE {
        return false, 0;
      }
      return true, U64At(value, 8);
    }

    /** Fetch whole blocks, copy out what was asked for. */
    method CopyBlocks(block: u64, offset: u64, buffer: array<byte>, readSize: u64, how: Addressing) returns (ok: bool)
      requires container.Usable() && readSize <= buffer.Length && readSize <= MEMORY_LIMIT
      modifies buffer
      ensures var r := FetchExtent(container.disk.View(), container.blockSize, how, block, offset, readSize);
              ok == r.Some? && buffer[..] == if ok then Overwrite(old(buffer[..]), r.value) else old(buffer[..])
    {
      hide BlockCount, ReadRange;
      var bs: BlockSize := container.blockSize;
      var blockOffset := offset % bs;
      var blocksToRead := BlockCount(readSize, offset, bs);
      RoundingTight(readSize, offset, bs);
      var temp := new byte[Wrap(blocksToRead * bs)];
      ok := ReadTemporary(block, blocksToRead, temp, bs, how);
      if !ok {
        return false;
      }
      assert temp[..temp.Length] == temp[..];
      CopyBytes(temp, blockOffset, buffer, readSize);
    }

    /** The two ways to fill the temporary buffer: the C++ passes the length of the whole buffer as the block
        size; the intended call passes the number of blocks and their size. */
    method ReadTemporary(block: u64, count: u64, temp: array<byte>, bs: BlockSize, how: Addressing) returns (ok: bool)
      requires container.Usable() && temp.Length == Wrap(count * bs)
      modifies temp
      ensures var at := if how == AsWritten then Wrap(block * Wrap(count * bs)) else Wrap(block * bs);
              var r := ReadRange(container.disk.View(), at, Wrap(count * bs));
              ok == r.Some? && (ok ==> temp[..temp.Length] == r.value)
    {
      hide ReadRange;
      if how == AsWritten {
        ok := container.ReadBlock(block, temp, temp.Length);
      } else {
        ok := container.disk.ReadBlocks(block, count, temp, bs);
      }
    }

    /** memcpy from a place in one buffer to the start of another. */
    static method CopyBytes(source: array<byte>, at: nat, target: array<byte>, n: nat)
      requires source != target && at + n <= source.Length && n <= target.Length
      modifies target
      ensures target[..] == Overwrite(old(target[..]), source[at..at + n])
    {
      var i := 0;
      while i < n
        invariant 0 <= i <= n
        invariant target[..i] == source[at..at + i]
        invariant target[n..] == old(target[n..])
      {
        target[i] := source[at + i];
        i := i + 1;
      }
      assert target[..] == target[..n] + target[n..];
    }
  }

  class Container {
    const disk: DiskReader
    var superblock: NxSuperblock
    var blockSize: u32
    var blockCount: u64
    var omap: ObjectMap
    var volumes: seq<Volume?>

    constructor (disk: DiskReader)
      ensures this.disk == disk && blockSize == 0 && volumes == []
      ensures |superblock.fsOid| == NX_MAX_FILE_SYSTEMS
    {
      this.disk := disk;
      superblock := NxSuperblock(0, 0, 0, 0, seq(NX_MAX_FILE_SYSTEMS, _ => 0));
      blockSize, blockCount, omap, volumes := 0, 0, ObjectMap(0), [];
    }

    /** Blocks can be read, and a block holds any structure that is copied out of one. */
    ghost predicate Usable()
      reads this, disk
    {
      disk.Valid() && blockSize >= APFS_SUPERBLOCK_SIZE
    }

    /** Every cached volume is an initialised volume of this container, in exactly the state that
        uncached construction from its index's object id gives. */
    ghost predicate Valid()
      reads this, disk, volumes
    {
      && Usable()
      && |superblock.fsOid| == NX_MAX_FILE_SYSTEMS
      && |volumes| <= NX_MAX_FILE_SYSTEMS
      && forall i | 0 <= i < |volumes| && volumes[i] != null :: CachedProperly(volumes[i], i)
    }

    ghost predicate CachedProperly(v: Volume, i: nat)
      requires Usable()
      reads this, disk, v
    {
      && Named(superblock.fsOid, i)
      && v.container == this && v.volumeOid == superblock.fsOid[i]
      && var state := FindVolume(disk.View(), blockSize, superblock.fsOid[i]);
         state.Some? && v.Holds(state.value)
    }

    /** The table of volumes as optional values. */
    ghost function Table(): (slots: Slots<Volume>)
      reads this
      ensures |slots| == |volumes|
    {
      seq(|volumes|, i requires 0 <= i < |volumes| reads this => if volumes[i] == null then None else Some(volumes[i]))
    }

    method ReadBlock(block: u64, buffer: array<byte>, size: u64) returns (ok: bool)
      requires disk.Valid() && size <= buffer.Length
      modifies buffer
      ensures ok == ReadOne(disk.View(), block, size).Some?
      ensures ok ==> buffer[..size] == ReadOne(disk.View(), block, size).value
      ensures buffer[size..] == old(buffer[size..])
    {
      ok := disk.ReadBlock(block, buffer, size);
    }

    method ReadSuperblock() returns (ok: bool)
      requires disk.Valid()
      modifies this
      ensures ok == FindSuperblock(disk.View()).Some?
      ensures var b := ReadOne(disk.View(), 0, APFS_BLOCK_SIZE);
              superblock == if b.Some? then DecodeNx(b.value) else old(superblock)
      ensures ok ==> superblock == FindSuperblock(disk.View()).value
                     && blockSize == superblock.blockSize && blockCount == superblock.blockCount
      ensures var b := ReadRange(disk.View(), 0, 4096);
              ok <==> b.Some? && b.value[32..36] == [0x4e, 0x58, 0x53, 0x42]
      ensures !ok ==> blockSize == old(blockSize) && blockCount == old(blockCount)
      ensures volumes == old(volumes) && omap == old(omap)
    {
      SuperblockExactly(disk.View());
      var buffer := new byte[APFS_BLOCK_SIZE];
      ok := disk.ReadBlock(0, buffer, APFS_BLOCK_SIZE);
      if !ok {
        return false;
      }
      assert buffer[..APFS_BLOCK_SIZE] == buffer[..];
      superblock := DecodeNx(buffer[..]);
      if superblock.magic != NX_MAGIC {
        return false;
      }
      blockSize := superblock.blockSize;
      blockCount := superblock.blockCount;
    }

    /** An unexpected object type of the map is reported but accepted. */
    method ReadObjectMap() returns (ok: bool)
      requires disk.Valid() && blockSize >= OBJECT_MAP_SIZE
      modifies this
      ensures superblock == old(superblock) && blockSize == old(blockSize) && blockCount == old(blockCount)
      ensures var b := ReadOne(disk.View(), superblock.omapOid, blockSize);
              && ok == (superblock.omapOid != 0 && b.Some?)
              && omap == (if ok then DecodeOmap(b.value) else old(omap))
      ensures volumes == old(volumes)
    {
      if superblock.omapOid == 0 {
        return false;
      }
      var buffer := new byte[blockSize];
      ok := ReadBlock(superblock.omapOid, buffer, blockSize);
      if !ok {
        return false;
      }
      assert buffer[..blockSize] == buffer[..];
      omap := DecodeOmap(buffer[..]);
    }

    method Init() returns (ok: bool)
      requires disk.Valid() && MappedBlocks(disk.View())
      modifies this
      ensures disk.View() == old(disk.View())
      ensures var c := FindContainer(disk.View());
              && ok == c.Some?
              && (ok ==> ContainerState(superblock, omap) == c.value && blockSize == superblock.blockSize
                         && blockCount == superblock.blockCount)
      ensures ok ==> |disk.View().content| >= 4096 && disk.View().content[32..36] == [0x4e, 0x58, 0x53, 0x42]
      ensures volumes == old(volumes)
      ensures FindSuperblock(disk.View()).None? ==> blockSize == old(blockSize) && blockCount == old(blockCount)
      ensures !ok ==> omap == old(omap)
    {
      SuperblockExactly(disk.View());
      hide ReadRange;
      ok := ReadSuperblock();
      if !ok {
        return;
      }
      ok := ReadObjectMap();
    }

    /** The number of indices that name a volume. */
    method GetVolumeCount() returns (count: nat)
      requires |superblock.fsOid| == NX_MAX_FILE_SYSTEMS
      ensures count == |set i: nat | i < 100 && superblock.fsOid[i] != 0|
      ensures count == |NamedIndices(superblock.fsOid)|
    {
      count := 0;
      var i := 0;
      ghost var seen: set<nat> := {};
      while i < NX_MAX_FILE_SYSTEMS
        invariant 0 <= i <= NX_MAX_FILE_SYSTEMS
        invariant seen == set j: nat | j < i && Named(superblock.fsOid, j)
        invariant count == |seen|
      {
        if superblock.fsOid[i] != 0 {
          count := count + 1;
          seen := seen + {i};
        }
        i := i + 1;
      }
      assert seen == NamedIndices(superblock.fsOid);
      assert seen == set i: nat | i < 100 && superblock.fsOid[i] != 0;
    }

    /** The table afterwards and the answer are those of one request; made is the volume that this call
        initialised, if it got that far and succeeded. */
    method GetVolume(index: nat) returns (volume: Volume?, ghost made: Option<Volume>)
      requires Valid()
      modifies this
      ensures Valid()
      ensures Table() == AfterRequest(old(Table()), superblock.fsOid, Request(index, made))
      ensures (if volume == null then None else Some(volume))
              == Answer(old(Table()), superblock.fsOid, Request(index, made))
      ensures volume != null ==> CachedProperly(volume, index)
      ensures made.Some? ==> fresh(made.value)
      ensures |volumes| == if index < 100 && superblock.fsOid[index] != 0 && old(|volumes|) <= index then index + 1
                           else old(|volumes|)
      ensures forall i: nat | i != index || made.None? :: Slot(Table(), i) == Slot(old(Table()), i)
      ensures volume != null <==> index < 100 && superblock.fsOid[index] != 0
                                  && FindVolume(disk.View(), blockSize, superblock.fsOid[index]).Some?
      ensures superblock == old(superblock) && blockSize == old(blockSize)
      ensures blockCount == old(blockCount) && omap == old(omap)
    {
      hide FindVolume;
      made := None;
      if index >= NX_MAX_FILE_SYSTEMS || superblock.fsOid[index] == 0 {
        return null, made;
      }
      if index < |volumes| && volumes[index] != null {
        return volumes[index], made;
      }
      if |volumes| <= index {
        volumes := volumes + seq(index + 1 - |volumes|, _ => null);
      }
      assert volumes[index] == null;
      volume := new Volume(this, superblock.fsOid[index]);
      var ok := volume.Init();
      if !ok {
        return null, made;
      }
      volumes := volumes[index := volume];
      made := Some(volume);
    }
  }
}
