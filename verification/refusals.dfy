/** What the reader refuses and what it passes over, on any disk. */
module Refusals {
  import opened Bits
  import opened Bytes
  import opened Structures
  import opened Inodes
  import opened Nodes
  import opened Disk
  import opened Superblocks
  import opened FileSystem
  import opened FileReads
  import opened Catalogs

  /** A root that is 0, cannot be read or is a block of another type answers no lookup, so there is no metadata,
      no extent and no file to read, whatever the block holds. */
  lemma ForeignRoot(d: DiskView, bs: BlockSize, root: u64, key: seq<byte>, inode: u64, name: seq<byte>, offset: u64)
    requires SoundRoot(d, bs, root)
    requires var node := ReadOne(d, root, bs);
             root == 0 || node.None? || (U16At(node.value, 24) != 2 && U16At(node.value, 24) != 3)
    ensures TreeLookup(d, bs, root, key) == None
    ensures InfoAt(d, bs, root, inode, name) == None && ExtentBlock(d, bs, root, inode, offset) == None
    ensures forall how, size: u64 | size <= MEMORY_LIMIT :: FileBytes(d, bs, root, how, inode, offset, size) == None
  {
    var node := ReadOne(d, root, bs);
    if node.Some? {
      OtherBlocksEmpty(node.value);
    }
    hide Entries, FindFirst, DecodeInode, ReadRange;
  }

  /** Values that are too short are refused: 92 bytes for an inode, 24 for an extent. */
  lemma ShortValues(d: DiskView, bs: BlockSize, root: u64, inode: u64, name: seq<byte>, offset: u64)
    requires SoundRoot(d, bs, root)
    ensures var v := TreeLookup(d, bs, root, InodeKey(inode));
            InfoAt(d, bs, root, inode, name).Some? <==> v.Some? && |v.value| >= 92
    ensures var v := TreeLookup(d, bs, root, ExtentKey(inode, offset));
            && (ExtentBlock(d, bs, root, inode, offset).Some? <==> v.Some? && |v.value| >= 24)
            && (v.Some? && |v.value| >= 24 ==>
                  ExtentBlock(d, bs, root, inode, offset) == Some(FromLittleEndian(v.value[8..16])))
  {
    hide TreeLookup;
  }

  /** Every read of at most 2^63 bytes falls under one of these cases: there is no such inode, it is a directory, the
      offset is at or behind the end, no extent starts there, or the bytes of the extent are fetched. */
  lemma ReadCases(d: DiskView, bs: BlockSize, root: u64, how: Addressing, inode: u64, offset: u64, size: u64)
    requires SoundRoot(d, bs, root) && size <= MEMORY_LIMIT
    ensures var r, info, b := FileBytes(d, bs, root, how, inode, offset, size), InfoAt(d, bs, root, inode, []),
                              ExtentBlock(d, bs, root, inode, offset);
            && (info.None? ==> r == None)
            && (info.Some? && info.value.isDirectory ==> r == None)
            && (info.Some? && !info.value.isDirectory && offset >= info.value.size ==> r == Some([]))
            && (info.Some? && !info.value.isDirectory && offset < info.value.size ==>
                  var n := if size < info.value.size - offset then size else info.value.size - offset;
                  r == if b.None? then None else FetchExtent(d, bs, how, b.value, offset, n))
  {
    hide InfoAt, ExtentBlock, FetchExtent;
  }

  /** At and behind the end of a stored file a read succeeds with no bytes. */
  lemma ReadAtEnd(d: DiskView, bs: BlockSize, root: u64, rs: seq<Record>, how: Addressing, inode: u64, fileSize: u64,
                  offset: u64, size: u64)
    requires StoresRecords(d, bs, root, rs) && IsFile(rs, inode, fileSize) && offset >= fileSize && size <= MEMORY_LIMIT
    ensures FileBytes(d, bs, root, how, inode, offset, size) == Some([])
  {
    hide DecodeInode, InfoOf, Entries, EncodeInode, EncodeRecords, BorrowedSize, InfoAt, ExtentBytes, FindFirst;
    MetadataOfRecords(d, bs, root, rs, inode, []);
    FormatOf(inode, InodeOf(rs, inode % ID_LIMIT).value, fileSize);
  }

  /** A stored directory cannot be read, and neither can an id that no inode is stored under. */
  lemma NoFile(d: DiskView, bs: BlockSize, root: u64, rs: seq<Record>, how: Addressing, inode: u64, offset: u64,
               size: u64)
    requires StoresRecords(d, bs, root, rs) && size <= MEMORY_LIMIT
    requires var r := InodeOf(rs, inode % ID_LIMIT); r.None? || r.value.mode / 4096 == 4
    ensures FileBytes(d, bs, root, how, inode, offset, size) == None
  {
    hide DecodeInode, Entries, EncodeInode, EncodeRecords, BorrowedSize, InfoAt, ExtentBytes, FindFirst;
    MetadataOfRecords(d, bs, root, rs, inode, []);
  }

  /** A failed range query fails the listing. */
  lemma FailedQuery(d: DiskView, bs: BlockSize, root: u64, query: RangeQuery, inode: u64)
    requires SoundRoot(d, bs, root) && SoundQuery(query)
    ensures Listing(d, bs, root, query, inode).None? <==> query(DirectoryLow(inode), DirectoryHigh(inode)).None?
  {
    hide Children, DirectoryLow, DirectoryHigh;
  }

  /** Of each record a listing shows the metadata of the inode that it names, under the record's name; it passes over
      records whose key has fewer than 10 bytes or whose value has fewer than 18, and those that name no inode. */
  lemma ListedEntry(d: DiskView, bs: BlockSize, root: u64, e: Entry)
    requires SoundRoot(d, bs, root) && SoundRecord(e)
    ensures |e.key| < 10 || |e.value| < 18 ==> Children(d, bs, root, [e]) == []
    ensures |e.key| >= 10 && |e.value| >= 18 ==>
              && 10 + FromLittleEndian(e.key[8..10]) <= |e.key|
              && var info := InfoAt(d, bs, root, U64At(e.value, 0), e.key[10..10 + FromLittleEndian(e.key[8..10])]);
                 Children(d, bs, root, [e]) == if info.Some? then [info.value] else []
  {
    hide InfoAt;
    assert [e][..0] == [];
    assert Children(d, bs, root, []) == [];
  }

  /** Listings of two runs of records are listed one after the other, in the order of the records. */
  lemma {:induction false} ListedInOrder(d: DiskView, bs: BlockSize, root: u64, es: seq<Entry>, more: seq<Entry>)
    requires SoundRoot(d, bs, root) && SoundRecords(es) && SoundRecords(more)
    ensures SoundRecords(es + more)
    ensures Children(d, bs, root, es + more) == Children(d, bs, root, es) + Children(d, bs, root, more)
    decreases |more|
  {
    hide SoundRecord, ChildOf;
    if more == [] {
      assert es + more == es;
    } else {
      ListedInOrder(d, bs, root, es, more[..|more| - 1]);
      assert (es + more)[..|es + more| - 1] == es + more[..|more| - 1];
    }
  }
}
