/** What the read path means: tree lookups, metadata, file reads, directory listings, as functions of the disk. */
module FileSystem {
  import opened Bits
  import opened Bytes
  import opened Structures
  import opened Inodes
  import opened Nodes
  import opened Disk
  import opened Superblocks

  const EXTENT_VALUE_SIZE := 24
  const DREC_KEY_SIZE := 10
  const DREC_VALUE_SIZE := 18

  /** If the root node can be read, its offsets stay inside it. */
  predicate SoundRoot(d: DiskView, bs: BlockSize, root: u64)
  {
    var node := ReadOne(d, root, bs);
    node.Some? ==> WellFormed(node.value)
  }

  /** A lookup visits the root node and nothing else. */
  function TreeLookup(d: DiskView, bs: BlockSize, root: u64, key: seq<byte>): Option<seq<byte>>
    requires SoundRoot(d, bs, root)
  {
    var node := ReadOne(d, root, bs);
    if root == 0 || node.None? then None else FindFirst(Entries(node.value), key)
  }

  function InfoAt(d: DiskView, bs: BlockSize, root: u64, inode: u64, name: seq<byte>): Option<FileInfo>
    requires SoundRoot(d, bs, root)
  {
    match TreeLookup(d, bs, root, InodeKey(inode))
    case None => None
    case Some(v) => DecodeInode(inode, name, v)
  }

  // ---------- File reads ----------

  /** How a file read addresses its blocks. AsWritten passes the length of the whole transfer where a
      block size is expected; Intended passes the block size and the number of blocks. */
  datatype Addressing = AsWritten | Intended

  /** The longest object that memory can hold; a caller's buffer is no longer. */
  const MEMORY_LIMIT := 0x8000_0000_0000_0000

  /** The rounding to blocks works for every block size but 0. */
  type UnitSize = b: u32 | b > 0 witness 1

  function BlockOffset(offset: u64, bs: UnitSize): u64
  {
    offset % bs
  }

  lemma QuotientBound(x: nat, b: nat)
    requires b > 0
    ensures 0 <= x / b <= x
  {
    var q := x / b;
    assert x == q * b + x % b;
    ProductBound(if q < 0 then -q else q, b);
    ScaledUp(q, b);
  }

  lemma ScaledUp(q: int, b: nat)
    requires b > 0 && q >= 0
    ensures q * b >= q
  {
  }

  function BlockCount(n: u64, offset: u64, bs: UnitSize): u64
  {
    QuotientBound(Wrap(n + BlockOffset(offset, bs) + bs - 1), bs);
    Wrap(n + BlockOffset(offset, bs) + bs - 1) / bs
  }

  /** The number of bytes transferred for a read of n bytes at an offset. */
  function Transfer(n: u64, offset: u64, bs: UnitSize): u64
  {
    Wrap(BlockCount(n, offset, bs) * bs)
  }

  function Address(how: Addressing, block: u64, n: u64, offset: u64, bs: UnitSize): u64
  {
    if how == AsWritten then Wrap(block * Transfer(n, offset, bs)) else Wrap(block * bs)
  }

  /** Where a block starts on the disk. */
  function BlockStart(block: u64, bs: UnitSize): nat
  {
    ProductBound(block, bs);
    block * bs
  }

  lemma CeilingBounds(x: nat, b: nat)
    requires b > 0
    ensures x <= (x + b - 1) / b * b <= x + b - 1
  {
    var q, r := (x + b - 1) / b, (x + b - 1) % b;
    assert x + b - 1 == q * b + r;
  }

  /** The rounding to whole blocks is sound, tight and free of overflow for every buffer that fits in memory. */
  lemma RoundingTight(n: u64, offset: u64, bs: UnitSize)
    requires n <= MEMORY_LIMIT
    ensures n + BlockOffset(offset, bs) + bs - 1 < U64_LIMIT
    ensures BlockCount(n, offset, bs) * bs < U64_LIMIT
    ensures Transfer(n, offset, bs) == BlockCount(n, offset, bs) * bs
    ensures BlockOffset(offset, bs) + n <= Transfer(n, offset, bs)
    ensures n > 0 ==> (BlockCount(n, offset, bs) - 1) * bs < BlockOffset(offset, bs) + n
  {
    var x := n + BlockOffset(offset, bs);
    CeilingBounds(x, bs);
    var count := BlockCount(n, offset, bs);
    assert count == (x + bs - 1) / bs;
    assert (count - 1) * bs == count * bs - bs;
  }

  /** The blocks of an extent, cut down to the n bytes asked for. */
  function FetchExtent(d: DiskView, bs: UnitSize, how: Addressing, block: u64, offset: u64, n: u64):
    (r: Option<seq<byte>>)
    requires n <= MEMORY_LIMIT
    ensures r.Some? ==> |r.value| == n
  {
    RoundingTight(n, offset, bs);
    match ReadRange(d, Address(how, block, n, offset, bs), Transfer(n, offset, bs))
    case None => None
    case Some(t) => Some(t[BlockOffset(offset, bs)..BlockOffset(offset, bs) + n])
  }

  function Least(a: u64, b: u64): (n: u64)
    ensures n <= a && n <= b && (n == a || n == b)
  {
    if a < b then a else b
  }

  /** The block of the extent that is stored under exactly this inode and offset. */
  function ExtentBlock(d: DiskView, bs: BlockSize, root: u64, inode: u64, offset: u64): Option<u64>
    requires SoundRoot(d, bs, root)
  {
    match TreeLookup(d, bs, root, ExtentKey(inode, offset))
    case None => None
    case Some(v) => if |v| < EXTENT_VALUE_SIZE then None else Some(U64At(v, 8))
  }

  /** n bytes of the extent that is stored under exactly this inode and offset. */
  function ExtentBytes(d: DiskView, bs: BlockSize, root: u64, how: Addressing, inode: u64, offset: u64, n: u64):
    (r: Option<seq<byte>>)
    requires SoundRoot(d, bs, root) && n <= MEMORY_LIMIT
    ensures r.Some? ==> |r.value| == n
  {
    var block := ExtentBlock(d, bs, root, inode, offset);
    if block.None? then None else FetchExtent(d, bs, how, block.value, offset, n)
  }

  /** What a file read delivers; None where it fails. */
  function FileBytes(d: DiskView, bs: BlockSize, root: u64, how: Addressing, inode: u64, offset: u64, size: u64):
    (r: Option<seq<byte>>)
    requires SoundRoot(d, bs, root) && size <= MEMORY_LIMIT
    ensures r.Some? ==> |r.value| <= size
  {
    match InfoAt(d, bs, root, inode, [])
    case None => None
    case Some(info) =>
      if info.isDirectory then None
      else if offset >= info.size then Some([])
      else ExtentBytes(d, bs, root, how, inode, offset, Least(size, info.size - offset))
  }

  lemma FileBytesSteps(d: DiskView, bs: BlockSize, root: u64, how: Addressing, inode: u64, offset: u64, size: u64)
    requires SoundRoot(d, bs, root) && size <= MEMORY_LIMIT
    ensures var info := InfoAt(d, bs, root, inode, []);
            FileBytes(d, bs, root, how, inode, offset, size)
            == if info.None? || info.value.isDirectory then None
               else if offset >= info.value.size then Some([])
               else ExtentBytes(d, bs, root, how, inode, offset, Least(size, info.value.size - offset))
  {
    hide InfoAt, ExtentBytes;
  }

  // ---------- Directories ----------

  /** A directory record whose name lies inside its key. */
  predicate SoundRecord(e: Entry)
  {
    |e.key| >= DREC_KEY_SIZE ==> DREC_KEY_SIZE + U16At(e.key, 8) <= |e.key|
  }

  predicate SoundRecords(es: seq<Entry>)
  {
    forall i | 0 <= i < |es| :: SoundRecord(es[i])
  }

  /** Key and value are long enough to be a directory record. */
  predicate IsRecord(e: Entry)
  {
    |e.key| >= DREC_KEY_SIZE && |e.value| >= DREC_VALUE_SIZE
  }

  function RecordName(e: Entry): seq<byte>
    requires IsRecord(e) && SoundRecord(e)
  {
    e.key[DREC_KEY_SIZE..DREC_KEY_SIZE + U16At(e.key, 8)]
  }

  /** The metadata of the file that a record names, under the record's name; None if there is none. */
  function ChildOf(d: DiskView, bs: BlockSize, root: u64, e: Entry): Option<FileInfo>
    requires SoundRoot(d, bs, root) && SoundRecord(e)
  {
    if IsRecord(e) then InfoAt(d, bs, root, U64At(e.value, 0), RecordName(e)) else None
  }

  /** The listing of a directory: the children of its records, in order, without the records that name nothing. */
  function Children(d: DiskView, bs: BlockSize, root: u64, es: seq<Entry>): seq<FileInfo>
    requires SoundRoot(d, bs, root) && SoundRecords(es)
  {
    if es == [] then []
    else
      var last := ChildOf(d, bs, root, es[|es| - 1]);
      Children(d, bs, root, es[..|es| - 1]) + (if last.Some? then [last.value] else [])
  }

  lemma ChildrenOfNone(d: DiskView, bs: BlockSize, root: u64)
    requires SoundRoot(d, bs, root)
    ensures Children(d, bs, root, []) == []
  {
  }

  lemma ChildrenNext(d: DiskView, bs: BlockSize, root: u64, es: seq<Entry>, i: nat)
    requires SoundRoot(d, bs, root) && SoundRecords(es) && i < |es|
    ensures SoundRecords(es[..i]) && SoundRecords(es[..i + 1])
    ensures var child := ChildOf(d, bs, root, es[i]);
            Children(d, bs, root, es[..i + 1])
            == Children(d, bs, root, es[..i]) + (if child.Some? then [child.value] else [])
  {
    hide ChildOf, SoundRecord;
    assert es[..i + 1][..i] == es[..i];
  }

  /** A range query of the tree, whose own body is not modelled: any function of the two bounds. */
  type RangeQuery = (u64, u64) -> Option<seq<Entry>>

  /** The range query as the C++ has it: a stub that finds nothing and reports success. */
  const STUB_QUERY: RangeQuery := (_, _) => Some([])

  /** For the bounds of any directory the query yields records whose names lie inside their keys. */
  ghost predicate SoundQuery(query: RangeQuery)
  {
    forall inode: u64 ::
      var es := query(DirectoryLow(inode), DirectoryHigh(inode));
      es.Some? ==> SoundRecords(es.value)
  }

  function Listing(d: DiskView, bs: BlockSize, root: u64, query: RangeQuery, inode: u64): Option<seq<FileInfo>>
    requires SoundRoot(d, bs, root)
    requires var es := query(DirectoryLow(inode), DirectoryHigh(inode));
             es.Some? ==> SoundRecords(es.value)
  {
    match query(DirectoryLow(inode), DirectoryHigh(inode))
    case None => None
    case Some(es) => Some(Children(d, bs, root, es))
  }
}
