/** A formatted image on which reading a file goes wrong. */
module WrongReads {
  import opened Bits
  import opened Bytes
  import opened Structures
  import opened Inodes
  import opened Nodes
  import opened Disk
  import opened FileSystem
  import opened FileReads
  import opened FileExtents
  import opened Catalogs
  import opened Images
  import opened StoredFiles

  const EXAMPLE_INODE: Id := 16

  /** A file of 8192 bytes in one extent, from block 5 on. */
  function ExampleRecords(): (rs: seq<Record>)
    ensures ValidRecords(rs)
  {
    var size := XField(INO_EXT_TYPE_DSTREAM, 0, U64(8192) + Zeros(32));
    [InodeRecord(EXAMPLE_INODE, Inode(2, 0, 0, 0, Zeros(UNREAD_SIZE), 0x8000, 0, 0, [size])),
     ExtentRecord(EXAMPLE_INODE, 0, 8192, 5, 0)]
  }

  lemma FlatPair(a: seq<byte>, b: seq<byte>)
    ensures |Flat([a, b])| == |a| + |b|
  {
    assert [a, b][1..] == [b] && [b][1..] == [];
    assert Flat([b]) == b + Flat([]);
  }

  lemma ExamplePacks()
    ensures var es := EncodeRecords(ExampleRecords());
            |es| == 2 && KeyBase(|es|) + |Flat(KeysOf(es))| + |Flat(ValuesOf(es))| == 256
  {
    hide ToLittleEndian, Flat, KeyHeader;
    var rs := ExampleRecords();
    var es := EncodeRecords(rs);
    var first, second := EncodeRecord(rs[0]), EncodeRecord(rs[1]);
    assert rs[1..] == [rs[1]] && EncodeRecords([rs[1]]) == [second] + EncodeRecords([]);
    assert es == [first, second];
    assert KeysOf(es) == [first.key, second.key] && ValuesOf(es) == [first.value, second.value];
    FlatPair(first.key, second.key);
    FlatPair(first.value, second.value);
    var fields := rs[0].inode.fields;
    assert fields[1..] == [];
    assert EncodeFields(fields) == EncodeField(fields[0]) + EncodeFields([]);
  }

  function Example(): (v: Formatting)
    ensures ValidFormatting(v) && v.rs == ExampleRecords() && v.bs == 4096
  {
    ExamplePacks();
    var rs := ExampleRecords();
    var oids := seq(NX_MAX_FILE_SYSTEMS, i => if i == 0 then VOLUME_BLOCK else 0);
    Formatting(4096, 12, oids, LeafFrame(rs, 4096), rs)
  }

  lemma ExampleSize()
    ensures BorrowedSize(ExampleRecords()[0].inode.fields) == 8192
  {
    hide ToLittleEndian, FromLittleEndian;
    var fields := ExampleRecords()[0].inode.fields;
    var s := fields[0].payload + EncodeFields(fields[1..]);
    assert FirstStream(fields) == 0;
    ReadU64([], 8192, Zeros(32));
    assert s == [] + U64(8192) + Zeros(32);
  }

  lemma ExampleBlock(o: u64)
    ensures BlockOf(ExampleRecords(), EXAMPLE_INODE, o) == if o == 0 then Some(5) else None
  {
    hide ToLittleEndian;
    var rs := ExampleRecords();
    assert rs[1..] == [rs[1]] && [rs[1]][1..] == [];
    assert BlockOf(rs, EXAMPLE_INODE, o) == BlockOf([rs[1]], EXAMPLE_INODE, o);
    assert BlockOf([], EXAMPLE_INODE, o) == None;
  }

  lemma ExampleIsFile()
    ensures IsFile(ExampleRecords(), EXAMPLE_INODE, 8192)
    ensures DescribesFile(ExampleRecords(), 4096, EXAMPLE_INODE, 8192, [5, 6])
    ensures BlockOf(ExampleRecords(), EXAMPLE_INODE, 0) == Some(5)
  {
    hide ToLittleEndian, BorrowedSize, BlockOf;
    ExampleSize();
    assert InodeOf(ExampleRecords(), EXAMPLE_INODE) == Some(ExampleRecords()[0].inode);
    forall o: u64 ensures BlockOf(ExampleRecords(), EXAMPLE_INODE, o) == if o == 0 then Some(5) else None {
      ExampleBlock(o);
    }
  }

  /** What a read as written of the whole file, or of its first 100 bytes, finds on a disk. */
  predicate Finds(content: seq<byte>, size: u64, r: Option<seq<byte>>)
    requires size == 100 || size == 8192
  {
    var at, length := if size == 100 then 20480 else 40960, if size == 100 then 4096 else 8192;
    r == if at + length <= |content| then Some(content[at..at + size]) else None
  }

  lemma ExampleOnDisk(d: DiskView, size: u64)
    requires StoresRecords(d, 4096, ROOT_BLOCK, ExampleRecords()) && Working(d) && (size == 100 || size == 8192)
    ensures Finds(d.content, size, FileBytes(d, 4096, ROOT_BLOCK, AsWritten, EXAMPLE_INODE, 0, size))
  {
    hide ExampleRecords, Transfer, Address, IsFile, BlockOf, FileBytes, StoresRecords, Working;
    ExampleIsFile();
    ExampleTransfer();
    FileOnDisk(d, 4096, ROOT_BLOCK, ExampleRecords(), AsWritten, EXAMPLE_INODE, 0, size, 8192);
  }

  lemma ExampleRead(data: seq<byte>, size: u64)
    requires Room(Example(), data) && (size == 100 || size == 8192)
    ensures Finds(Front(Example()) + data, size, ReadImage(Example(), data, AsWritten, EXAMPLE_INODE, 0, size))
  {
    hide ExampleRecords, ImageOf, FileBytes, StoresRecords, Front, ValidFormatting, Finds;
    ImageParts(Example(), data);
    ExampleOnDisk(ImageOf(Example(), data), size);
  }

  lemma ExampleTransfer()
    ensures Transfer(100, 0, 4096) == 4096 && Address(AsWritten, 5, 100, 0, 4096) == 20480
    ensures Transfer(8192, 0, 4096) == 8192 && Address(AsWritten, 5, 8192, 0, 4096) == 40960
  {
  }

  /** Blocks 5 and 6 of a disk hold zeros. */
  lemma ExampleStores(data: seq<byte>, behind: seq<byte>)
    requires data == Zeros(8192) + behind && |data| <= 65536
    ensures Room(Example(), data) && ImageStores(Example(), data, [5, 6], [Zeros(4096), Zeros(4096)])
  {
    hide Example, ImageOf, ValidFormatting, StoresRecords, Front;
    ImageParts(Example(), data);
    var s := Front(Example()) + data;
    assert s[20480..24576] == Zeros(4096) && s[24576..28672] == Zeros(4096);
  }

  function Ones(n: nat): (s: seq<byte>)
    ensures |s| == n
  {
    seq(n, _ => 1)
  }

  /** The example meets every condition of the theorem on images that end with the extent. */
  lemma ExampleLaysOut()
    ensures LaysOut(4096, ExampleRecords(), Zeros(8192), EXAMPLE_INODE, 0, 8192, Zeros(8192))
    ensures BlockStart(5 - META_BLOCKS, 4096) + Transfer(8192, 0, 4096) == 8192
    ensures 5 * Transfer(8192, 0, 4096) < U64_LIMIT
  {
    ExampleIsFile();
    ExampleTransfer();
    hide ExampleRecords, Transfer, IsFile, BlockOf;
    assert Zeros(8192)[0..8192] == Zeros(8192);
  }

  /** The file is all zeros; blocks 10 and 11 of the disk are all ones. The whole file reads as ones, its first 100
      bytes as zeros, so one is no prefix of the other. If the disk ends with the file, the whole file cannot be
      read at all. */
  lemma WrongFile()
    ensures var data := Zeros(20480) + Ones(8192);
            && Room(Example(), data) && ImageStores(Example(), data, [5, 6], [Zeros(4096), Zeros(4096)])
            && ReadImage(Example(), data, AsWritten, EXAMPLE_INODE, 0, 8192) == Some(Ones(8192))
            && ReadImage(Example(), data, AsWritten, EXAMPLE_INODE, 0, 100) == Some(Zeros(100))
            && !(Zeros(100) <= Ones(8192))
    ensures var data := Zeros(8192);
            && Room(Example(), data) && ImageStores(Example(), data, [5, 6], [Zeros(4096), Zeros(4096)])
            && ReadImage(Example(), data, AsWritten, EXAMPLE_INODE, 0, 8192) == None
            && ReadImage(Example(), data, AsWritten, EXAMPLE_INODE, 0, 100) == Some(Zeros(100))
  {
    hide Example, Front, ImageOf, ReadImage, ValidFormatting, ImageStores;
    var front, long, short := Front(Example()), Zeros(20480) + Ones(8192), Zeros(8192);
    assert long == short + (Zeros(12288) + Ones(8192)) && short == short + [];
    ExampleStores(long, Zeros(12288) + Ones(8192));
    ExampleStores(short, []);
    ExampleRead(long, 100);
    ExampleRead(long, 8192);
    ExampleRead(short, 100);
    ExampleRead(short, 8192);
    assert (front + long)[20480..20580] == Zeros(100) && (front + short)[20480..20580] == Zeros(100);
    assert (front + long)[40960..49152] == Ones(8192);
    assert Zeros(100)[0] != Ones(8192)[0];
  }
}
