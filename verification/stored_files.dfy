/** Files of volumes: exactly which reads, and which sequences of reads, deliver a file. */
module StoredFiles {
  import opened Bits
  import opened Bytes
  import opened Structures
  import opened Inodes
  import opened Nodes
  import opened Disk
  import opened Superblocks
  import opened FileSystem
  import opened FileReads
  import opened FileExtents
  import opened Catalogs
  import opened Images
  import opened Refusals

  // ---------- Reads on every disk ----------

  /** The records describe a file of a size that lies in the blocks: its inode has the size, and every extent
      record for it, whatever its offset, names the block that holds the offset. */
  predicate DescribesFile(rs: seq<Record>, bs: UnitSize, inode: u64, fileSize: u64, blocks: seq<u64>)
    requires ValidRecords(rs)
  {
    var capacity := |blocks| * bs;
    && IsFile(rs, inode, fileSize) && fileSize <= capacity
    && forall o: u64 | o < fileSize && BlockOf(rs, inode % ID_LIMIT, o).Some? ::
         BlockAt(o, bs) < |blocks| && BlockOf(rs, inode % ID_LIMIT, o).value == blocks[BlockAt(o, bs)]
  }

  /** A read of at least one byte that starts inside the file. */
  predicate Asks(fileSize: u64, offset: u64, size: u64)
  {
    offset < fileSize && 0 < size <= MEMORY_LIMIT
  }

  lemma AskedInFile(rs: seq<Record>, bs: UnitSize, inode: u64, fileSize: u64, blocks: seq<u64>, offset: u64, size: u64)
    requires ValidRecords(rs) && DescribesFile(rs, bs, inode, fileSize, blocks) && Asks(fileSize, offset, size)
    ensures InFile(blocks, offset, Least(size, fileSize - offset), bs) && BlockAt(offset, bs) < |blocks|
  {
    hide IsFile, BlockOf, BlockAt, BlockCount;
    Spans(blocks, offset, Least(size, fileSize - offset), bs);
  }

  /** An extent record starts exactly at the offset, and the read meets the condition on the blocks. */
  predicate ReadDelivers(rs: seq<Record>, bs: UnitSize, how: Addressing, inode: u64, fileSize: u64, blocks: seq<u64>,
                         offset: u64, size: u64)
    requires ValidRecords(rs) && DescribesFile(rs, bs, inode, fileSize, blocks) && Asks(fileSize, offset, size)
  {
    AskedInFile(rs, bs, inode, fileSize, blocks, offset, size);
    && BlockOf(rs, inode % ID_LIMIT, offset).Some?
    && Delivers(how, blocks, offset, Least(size, fileSize - offset), bs)
  }

  /** A read of the file fetches from the block that holds its offset, if an extent record starts there. */
  lemma ReadOfFile(d: DiskView, bs: BlockSize, root: u64, rs: seq<Record>, how: Addressing, inode: u64, fileSize: u64,
                   blocks: seq<u64>, offset: u64, size: u64)
    requires StoresRecords(d, bs, root, rs)
    requires DescribesFile(rs, bs, inode, fileSize, blocks) && Asks(fileSize, offset, size)
    ensures BlockAt(offset, bs) < |blocks|
    ensures var n := Least(size, fileSize - offset);
            FileBytes(d, bs, root, how, inode, offset, size)
            == if BlockOf(rs, inode % ID_LIMIT, offset).None? then None
               else FetchExtent(d, bs, how, blocks[BlockAt(offset, bs)], offset, n)
  {
    assert ValidRecords(rs);
    hide FileBytes, FetchExtent, BlockOf, IsFile, BlockAt, StoresRecords;
    AskedInFile(rs, bs, inode, fileSize, blocks, offset, size);
    FileFetches(d, bs, root, rs, how, inode, offset, size, fileSize);
  }

  /** On every disk whose root node stores the records and whose blocks store the file, a read that meets the
      condition delivers the file's bytes. */
  lemma DeliveredRead(d: DiskView, bs: BlockSize, root: u64, rs: seq<Record>, how: Addressing, inode: u64,
                      fileSize: u64, blocks: seq<u64>, chunks: Chunks, offset: u64, size: u64)
    requires StoresRecords(d, bs, root, rs) && StoresFile(d, bs, blocks, chunks)
    requires DescribesFile(rs, bs, inode, fileSize, blocks) && Asks(fileSize, offset, size)
    requires ReadDelivers(rs, bs, how, inode, fileSize, blocks, offset, size)
    ensures var n := Least(size, fileSize - offset);
            && offset + n <= |Flat(chunks)|
            && FileBytes(d, bs, root, how, inode, offset, size) == Some(Flat(chunks)[offset..offset + n])
  {
    hide FileBytes, FetchExtent, BlockOf, StoresRecords, DescribesFile, StoresFile, Delivers, BlockAt, Flat, InFile,
         ReadDelivers, ValidRecords;
    var n := Least(size, fileSize - offset);
    StoredAreValid(d, bs, root, rs);
    MetCondition(rs, bs, how, inode, fileSize, blocks, offset, size);
    ReadOfFile(d, bs, root, rs, how, inode, fileSize, blocks, offset, size);
    DeliveredBytes(d, bs, how, blocks, chunks, offset, n);
  }

  lemma StoredAreValid(d: DiskView, bs: BlockSize, root: u64, rs: seq<Record>)
    requires StoresRecords(d, bs, root, rs)
    ensures ValidRecords(rs)
  {
  }

  lemma MetCondition(rs: seq<Record>, bs: UnitSize, how: Addressing, inode: u64, fileSize: u64, blocks: seq<u64>,
                     offset: u64, size: u64)
    requires ValidRecords(rs) && DescribesFile(rs, bs, inode, fileSize, blocks) && Asks(fileSize, offset, size)
    requires ReadDelivers(rs, bs, how, inode, fileSize, blocks, offset, size)
    ensures var n := Least(size, fileSize - offset);
            InFile(blocks, offset, n, bs) && Delivers(how, blocks, offset, n, bs)
    ensures BlockOf(rs, inode % ID_LIMIT, offset).Some?
  {
    hide BlockOf, Delivers, DescribesFile, ValidRecords;
    AskedInFile(rs, bs, inode, fileSize, blocks, offset, size);
  }

  // ---------- Formatted images ----------

  /** A formatted volume without its data area. */
  datatype Formatting = Formatting(bs: FormatSize, count: u64, oids: seq<u64>, f: NodeFrame, rs: seq<Record>)

  predicate ValidFormatting(v: Formatting)
    ensures ValidFormatting(v) ==> ValidRecords(v.rs)
  {
    |v.oids| == NX_MAX_FILE_SYSTEMS && FillsBlock(v.f, v.rs, v.bs)
  }

  /** The image is no longer than a disk can be. */
  predicate Room(v: Formatting, data: seq<byte>)
  {
    META_BLOCKS * v.bs + |data| < SIGNED_LIMIT
  }

  /** The bytes of an image in front of its data area. */
  function Front(v: Formatting): (s: seq<byte>)
    requires ValidFormatting(v)
    ensures |s| == META_BLOCKS * v.bs
  {
    Format(v.bs, v.count, v.oids, v.f, v.rs, [])
  }

  /** The formatted disk with a data area. */
  function ImageOf(v: Formatting, data: seq<byte>): DiskView
    requires ValidFormatting(v) && Room(v, data)
  {
    Healthy(Format(v.bs, v.count, v.oids, v.f, v.rs, data))
  }

  lemma ImageParts(v: Formatting, data: seq<byte>)
    requires ValidFormatting(v) && Room(v, data)
    ensures Working(ImageOf(v, data)) && ImageOf(v, data).content == Front(v) + data
    ensures StoresRecords(ImageOf(v, data), v.bs, ROOT_BLOCK, v.rs)
  {
    StoredRecords(v.bs, v.count, v.oids, v.f, v.rs, data);
    hide StoresRecords;
  }

  function ReadImage(v: Formatting, data: seq<byte>, how: Addressing, inode: u64, offset: u64, size: u64):
    (r: Option<seq<byte>>)
    requires ValidFormatting(v) && Room(v, data) && size <= MEMORY_LIMIT
  {
    ImageParts(v, data);
    FileBytes(ImageOf(v, data), v.bs, ROOT_BLOCK, how, inode, offset, size)
  }

  lemma ImageIs(v: Formatting, data: seq<byte>)
    requires ValidFormatting(v) && Room(v, data)
    ensures FillsBlock(v.f, v.rs, v.bs) && |v.oids| == NX_MAX_FILE_SYSTEMS
    ensures ImageOf(v, data) == Healthy(Format(v.bs, v.count, v.oids, v.f, v.rs, data))
    ensures ImageOf(v, data).content == Format(v.bs, v.count, v.oids, v.f, v.rs, data)
  {
  }

  lemma ReadsOf(v: Formatting, data: seq<byte>, how: Addressing, inode: u64, offset: u64, size: u64)
    requires ValidFormatting(v) && Room(v, data) && size <= MEMORY_LIMIT
    ensures SoundRoot(ImageOf(v, data), v.bs, ROOT_BLOCK)
    ensures ReadImage(v, data, how, inode, offset, size)
            == FileBytes(ImageOf(v, data), v.bs, ROOT_BLOCK, how, inode, offset, size)
  {
    ImageParts(v, data);
    hide FileBytes, ImageOf, ValidFormatting;
  }

  /** At and behind the end of a file, a read of any image succeeds with no bytes. */
  lemma ImageReadAtEnd(v: Formatting, data: seq<byte>, how: Addressing, inode: u64, fileSize: u64, offset: u64,
                       size: u64)
    requires ValidFormatting(v) && Room(v, data) && size <= MEMORY_LIMIT
    requires IsFile(v.rs, inode, fileSize) && offset >= fileSize
    ensures ReadImage(v, data, how, inode, offset, size) == Some([])
  {
    hide FileBytes, ImageOf, ValidFormatting, IsFile, StoresRecords;
    ImageParts(v, data);
    ReadAtEnd(ImageOf(v, data), v.bs, ROOT_BLOCK, v.rs, how, inode, fileSize, offset, size);
  }

  /** The data area stores the file: on the image, the blocks hold the chunks. */
  ghost predicate ImageStores(v: Formatting, data: seq<byte>, blocks: seq<u64>, chunks: Chunks)
    requires ValidFormatting(v)
  {
    Room(v, data) && StoresFile(ImageOf(v, data), v.bs, blocks, chunks)
  }

  /** No block of the file is one of the volume's own. */
  predicate BehindFront(blocks: seq<u64>)
  {
    forall k | 0 <= k < |blocks| :: blocks[k] >= META_BLOCKS
  }

  /** An image of the given size that is zero behind the metadata but for byte q of block k of the file; the byte
      there differs from the one at another place. */
  lemma SpotImage(v: Formatting, total: nat, blocks: seq<u64>, k: nat, q: nat, other: nat)
    returns (data: seq<byte>, chunks: Chunks)
    requires ValidFormatting(v) && Fits(blocks, total, v.bs) && k < |blocks| && q < v.bs && BehindFront(blocks)
    requires other != BlockStart(blocks[k], v.bs) + q
    ensures ImageStores(v, data, blocks, chunks) && Working(ImageOf(v, data))
    ensures var s, at := ImageOf(v, data).content, BlockStart(blocks[k], v.bs) + q;
            at < |s| == total * v.bs && (other < |s| ==> s[other] != s[at])
  {
    var front, at := Front(v), BlockStart(blocks[k], v.bs) + q;
    forall i | 0 <= i < |blocks| ensures |front| <= BlockStart(blocks[i], v.bs) <= total * v.bs - v.bs {
      FitsBlock(blocks[i], total, v.bs);
      ScaledAtLeast(v.bs, META_BLOCKS, blocks[i]);
    }
    hide BlockStart, Front, ValidFormatting, ImageOf, StoresRecords;
    var mark := if other < |front| && front[other] == 1 then 0 else 1;
    data := seq(total * v.bs - |front|, i => if |front| + i == at then mark else 0);
    ImageParts(v, data);
    chunks := ChunksOn(ImageOf(v, data).content, v.bs, blocks);
  }

  /** What a read delivers from an image that stores the file, if it is not the file's bytes: nothing, or as many
      bytes of which one is wrong. */
  predicate GoesWrong(r: Option<seq<byte>>, file: seq<byte>, offset: u64, n: u64, j: nat)
  {
    && offset + n <= |file| && j < n
    && (r.Some? ==> |r.value| == n && r.value[j] != file[offset + j])
  }

  /** A fetch that does not meet the condition goes wrong on some image that stores the file. */
  lemma MisleadingFetch(v: Formatting, total: nat, how: Addressing, blocks: seq<u64>, offset: u64, n: u64)
    returns (data: seq<byte>, chunks: Chunks, j: nat)
    requires ValidFormatting(v) && Fits(blocks, total, v.bs) && BehindFront(blocks)
    requires InFile(blocks, offset, n, v.bs) && !Delivers(how, blocks, offset, n, v.bs)
    ensures ImageStores(v, data, blocks, chunks) && BlockAt(offset, v.bs) < |blocks|
    ensures Working(ImageOf(v, data)) && |ImageOf(v, data).content| == total * v.bs
    ensures GoesWrong(FetchExtent(ImageOf(v, data), v.bs, how, blocks[BlockAt(offset, v.bs)], offset, n),
                      Flat(chunks), offset, n, j)
  {
    hide FetchExtent, BlockAt, ValidFormatting, ImageOf, Flat, BlockCount, Transfer, Address, BlockStart, Delivers,
         StoresFile, Fits, BehindFront;
    FirstFits(blocks, total, offset, n, v.bs);
    var block := blocks[BlockAt(offset, v.bs)];
    if Transfer(n, offset, v.bs) < U32_LIMIT {
      var k, q;
      j, k, q := WrongPlace(how, blocks, offset, n, v.bs);
      data, chunks := SpotImage(v, total, blocks, k, q, Address(how, block, n, offset, v.bs) + offset % v.bs + j);
      FlatSize(ImageOf(v, data), v.bs, blocks, chunks);
      Misread(ImageOf(v, data), v.bs, how, blocks, chunks, offset, n, j, k, q);
    } else {
      j := 0;
      data, chunks := SpotImage(v, total, blocks, 0, 0, BlockStart(blocks[0], v.bs) + 1);
      FlatSize(ImageOf(v, data), v.bs, blocks, chunks);
      FetchOnDisk(ImageOf(v, data), v.bs, how, block, offset, n);
    }
  }

  /** Some image of the given size stores a file of the layout. */
  lemma AnyImage(v: Formatting, total: nat, blocks: seq<u64>) returns (data: seq<byte>, chunks: Chunks)
    requires ValidFormatting(v) && Fits(blocks, total, v.bs) && BehindFront(blocks) && blocks != []
    ensures ImageStores(v, data, blocks, chunks) && Working(ImageOf(v, data))
    ensures |ImageOf(v, data).content| == total * v.bs && |Flat(chunks)| == |blocks| * v.bs
  {
    hide BlockStart, ValidFormatting, ImageOf, StoresFile, Flat;
    data, chunks := SpotImage(v, total, blocks, 0, 0, BlockStart(blocks[0], v.bs) + 1);
    FlatSize(ImageOf(v, data), v.bs, blocks, chunks);
  }

  /** A read that does not meet the condition goes wrong on some image that stores the file, and it succeeds with
      a wrong byte if it has a record, is short enough and stays on the image. */
  lemma MisleadingImage(v: Formatting, total: nat, how: Addressing, inode: u64, fileSize: u64, blocks: seq<u64>,
                        offset: u64, size: u64)
    returns (data: seq<byte>, chunks: Chunks, j: nat)
    requires ValidFormatting(v) && DescribesFile(v.rs, v.bs, inode, fileSize, blocks) && Asks(fileSize, offset, size)
    requires Fits(blocks, total, v.bs) && BehindFront(blocks)
    requires !ReadDelivers(v.rs, v.bs, how, inode, fileSize, blocks, offset, size)
    ensures ImageStores(v, data, blocks, chunks) && BlockAt(offset, v.bs) < |blocks|
    ensures GoesWrong(ReadImage(v, data, how, inode, offset, size), Flat(chunks), offset,
                      Least(size, fileSize - offset), j)
    ensures ReadImage(v, data, how, inode, offset, size).Some? <==>
            var n := Least(size, fileSize - offset);
            && BlockOf(v.rs, inode % ID_LIMIT, offset).Some? && Transfer(n, offset, v.bs) < U32_LIMIT
            && Address(how, blocks[BlockAt(offset, v.bs)], n, offset, v.bs) + Transfer(n, offset, v.bs) <= total * v.bs
  {
    AskedInFile(v.rs, v.bs, inode, fileSize, blocks, offset, size);
    var n := Least(size, fileSize - offset);
    hide FetchExtent, BlockOf, BlockAt, ValidFormatting, DescribesFile, ImageOf, Flat, BlockCount, Transfer,
         Address, Delivers, StoresRecords, FileBytes, StoresFile, Fits, BehindFront, Working;
    if BlockOf(v.rs, inode % ID_LIMIT, offset).Some? {
      data, chunks, j := MisleadingFetch(v, total, how, blocks, offset, n);
    } else {
      data, chunks := AnyImage(v, total, blocks);
      j := 0;
    }
    var d := ImageOf(v, data);
    ImageParts(v, data);
    ReadOfFile(d, v.bs, ROOT_BLOCK, v.rs, how, inode, fileSize, blocks, offset, size);
    FetchOnDisk(d, v.bs, how, blocks[BlockAt(offset, v.bs)], offset, n);
  }

  /** On every image that stores the file, whatever it holds, the read delivers the file's bytes. */
  ghost predicate ReadsEveryImage(v: Formatting, how: Addressing, inode: u64, fileSize: u64, blocks: seq<u64>,
                                  offset: u64, size: u64)
    requires ValidFormatting(v) && Asks(fileSize, offset, size)
  {
    forall data, chunks | ImageStores(v, data, blocks, chunks) ::
      var n := Least(size, fileSize - offset);
      && offset + n <= |Flat(chunks)|
      && ReadImage(v, data, how, inode, offset, size) == Some(Flat(chunks)[offset..offset + n])
  }

  /** For every formatted volume that describes a file, and for both addresses: the read delivers the file's bytes
      from every image that stores the file if and only if an extent record starts at the offset, the transfer
      is short enough, the address names the block, and the blocks that the read spans are neighbours. */
  lemma ImageReadsExactly(v: Formatting, total: nat, how: Addressing, inode: u64, fileSize: u64, blocks: seq<u64>,
                          offset: u64, size: u64)
    requires ValidFormatting(v) && DescribesFile(v.rs, v.bs, inode, fileSize, blocks) && Asks(fileSize, offset, size)
    requires Fits(blocks, total, v.bs) && BehindFront(blocks)
    ensures ReadsEveryImage(v, how, inode, fileSize, blocks, offset, size) <==>
            ReadDelivers(v.rs, v.bs, how, inode, fileSize, blocks, offset, size)
  {
    hide ReadDelivers, ValidFormatting, ImageOf, Flat, DescribesFile, Fits, BehindFront, StoresFile, StoresRecords,
         FileBytes;
    if ReadDelivers(v.rs, v.bs, how, inode, fileSize, blocks, offset, size) {
      forall data, chunks | ImageStores(v, data, blocks, chunks)
        ensures Room(v, data) && var n := Least(size, fileSize - offset);
                offset + n <= |Flat(chunks)|
                && ReadImage(v, data, how, inode, offset, size) == Some(Flat(chunks)[offset..offset + n])
      {
        ImageParts(v, data);
        DeliveredRead(ImageOf(v, data), v.bs, ROOT_BLOCK, v.rs, how, inode, fileSize, blocks, chunks, offset, size);
      }
    } else {
      var data, chunks, j := MisleadingImage(v, total, how, inode, fileSize, blocks, offset, size);
    }
  }

  // ---------- Reading a file piece by piece ----------

  /** Reads one after the other, each from where the one before it ended; None if one of them fails. */
  function ReadPieces(v: Formatting, data: seq<byte>, how: Addressing, inode: u64, offset: u64, sizes: seq<u64>):
    Option<seq<byte>>
    requires ValidFormatting(v) && Room(v, data) && Pieces(sizes)
    decreases |sizes|
  {
    if sizes == [] then Some([])
    else
      match ReadImage(v, data, how, inode, offset, sizes[0])
      case None => None
      case Some(b) =>
        var rest := ReadPieces(v, data, how, inode, Wrap(offset + |b|), sizes[1..]);
        if rest.None? then None else Some(b + rest.value)
  }

  /** Every read asks for at least one byte. */
  predicate Pieces(sizes: seq<u64>)
  {
    forall i | 0 <= i < |sizes| :: 0 < sizes[i] <= MEMORY_LIMIT
  }

  /** Where the reads end: they stop at the end of the file. */
  function EndOf(fileSize: u64, offset: u64, sizes: seq<u64>): (end: u64)
    requires offset <= fileSize
    ensures offset <= end <= fileSize
    decreases |sizes|
  {
    if sizes == [] then offset else EndOf(fileSize, offset + Least(sizes[0], fileSize - offset), sizes[1..])
  }

  /** Every read that starts inside the file meets the condition. */
  predicate PiecesDeliver(rs: seq<Record>, bs: UnitSize, how: Addressing, inode: u64, fileSize: u64, blocks: seq<u64>,
                          offset: u64, sizes: seq<u64>)
    requires ValidRecords(rs) && DescribesFile(rs, bs, inode, fileSize, blocks) && offset <= fileSize && Pieces(sizes)
    decreases |sizes|
  {
    sizes == [] || offset == fileSize
    || (ReadDelivers(rs, bs, how, inode, fileSize, blocks, offset, sizes[0])
        && PiecesDeliver(rs, bs, how, inode, fileSize, blocks, offset + Least(sizes[0], fileSize - offset), sizes[1..]))
  }

  /** On every image that stores the file the pieces put together are the file's bytes. */
  ghost predicate PiecesOnEveryImage(v: Formatting, how: Addressing, inode: u64, fileSize: u64, blocks: seq<u64>,
                                     offset: u64, sizes: seq<u64>)
    requires ValidFormatting(v) && offset <= fileSize && Pieces(sizes)
  {
    forall data, chunks | ImageStores(v, data, blocks, chunks) ::
      PiecesOn(v, how, inode, fileSize, offset, sizes, data, Flat(chunks))
  }

  predicate PiecesOn(v: Formatting, how: Addressing, inode: u64, fileSize: u64, offset: u64, sizes: seq<u64>,
                     data: seq<byte>, file: seq<byte>)
    requires ValidFormatting(v) && Room(v, data) && offset <= fileSize && Pieces(sizes)
  {
    var end := EndOf(fileSize, offset, sizes);
    end <= |file| && ReadPieces(v, data, how, inode, offset, sizes) == Some(file[offset..end])
  }

  /** Inside the file a successful read delivers what it is asked for, cut at the end; at the end, nothing. */
  lemma ReadLength(v: Formatting, data: seq<byte>, how: Addressing, inode: u64, fileSize: u64, blocks: seq<u64>,
                   offset: u64, size: u64)
    requires ValidFormatting(v) && DescribesFile(v.rs, v.bs, inode, fileSize, blocks) && Room(v, data)
    requires offset <= fileSize && 0 < size <= MEMORY_LIMIT
    ensures var r := ReadImage(v, data, how, inode, offset, size);
            && (r.Some? ==> |r.value| == Least(size, fileSize - offset))
            && (offset == fileSize ==> r == Some([]))
  {
    ImageParts(v, data);
    if offset < fileSize {
      hide FileBytes, ValidFormatting, DescribesFile, ImageOf, BlockOf, BlockAt, StoresRecords, FetchExtent;
      ReadOfFile(ImageOf(v, data), v.bs, ROOT_BLOCK, v.rs, how, inode, fileSize, blocks, offset, size);
    } else {
      ReadAtEnd(ImageOf(v, data), v.bs, ROOT_BLOCK, v.rs, how, inode, fileSize, offset, size);
    }
  }

  lemma {:induction false} PiecesAtEnd(v: Formatting, data: seq<byte>, how: Addressing, inode: u64, fileSize: u64,
                                       blocks: seq<u64>, sizes: seq<u64>)
    requires ValidFormatting(v) && DescribesFile(v.rs, v.bs, inode, fileSize, blocks) && Room(v, data) && Pieces(sizes)
    ensures ReadPieces(v, data, how, inode, fileSize, sizes) == Some([]) && EndOf(fileSize, fileSize, sizes) == fileSize
    decreases |sizes|
  {
    hide ReadImage, ValidFormatting, DescribesFile;
    if sizes != [] {
      ReadLength(v, data, how, inode, fileSize, blocks, fileSize, sizes[0]);
      PiecesAtEnd(v, data, how, inode, fileSize, blocks, sizes[1..]);
      WrapSmall(fileSize);
      assert ReadPieces(v, data, how, inode, fileSize, sizes).value == [];
    }
  }

  lemma NoMorePieces(v: Formatting, data: seq<byte>, how: Addressing, inode: u64, fileSize: u64, blocks: seq<u64>,
                     chunks: Chunks, offset: u64, sizes: seq<u64>)
    requires ValidFormatting(v) && DescribesFile(v.rs, v.bs, inode, fileSize, blocks)
    requires ImageStores(v, data, blocks, chunks) && Pieces(sizes) && offset <= fileSize
    requires sizes == [] || offset == fileSize
    ensures PiecesOn(v, how, inode, fileSize, offset, sizes, data, Flat(chunks))
  {
    hide ReadImage, ValidFormatting, DescribesFile, StoresFile, Flat, ImageOf;
    FileInBlocks(v, data, inode, fileSize, blocks, chunks);
    assert Flat(chunks)[offset..offset] == [];
    if offset == fileSize {
      PiecesAtEnd(v, data, how, inode, fileSize, blocks, sizes);
    }
  }

  lemma FileInBlocks(v: Formatting, data: seq<byte>, inode: u64, fileSize: u64, blocks: seq<u64>, chunks: Chunks)
    requires ValidFormatting(v) && DescribesFile(v.rs, v.bs, inode, fileSize, blocks)
    requires ImageStores(v, data, blocks, chunks)
    ensures fileSize <= |Flat(chunks)|
  {
    FlatSize(ImageOf(v, data), v.bs, blocks, chunks);
    assert fileSize <= |blocks| * v.bs;
  }

  /** The pieces are right on an image exactly when the first one is and the others are. */
  lemma PiecesSplit(v: Formatting, data: seq<byte>, how: Addressing, inode: u64, fileSize: u64, blocks: seq<u64>,
                    offset: u64, sizes: seq<u64>, file: seq<byte>)
    requires ValidFormatting(v) && DescribesFile(v.rs, v.bs, inode, fileSize, blocks) && Room(v, data)
    requires Pieces(sizes) && sizes != [] && offset < fileSize
    ensures var n := Least(sizes[0], fileSize - offset);
            PiecesOn(v, how, inode, fileSize, offset, sizes, data, file) <==>
            && offset + n <= |file|
            && ReadImage(v, data, how, inode, offset, sizes[0]) == Some(file[offset..offset + n])
            && PiecesOn(v, how, inode, fileSize, offset + n, sizes[1..], data, file)
  {
    hide ReadImage, ValidFormatting, DescribesFile, Wrap;
    ReadLength(v, data, how, inode, fileSize, blocks, offset, sizes[0]);
    WrapSmall(offset + Least(sizes[0], fileSize - offset));
    var n, end := Least(sizes[0], fileSize - offset), EndOf(fileSize, offset, sizes);
    var first := ReadImage(v, data, how, inode, offset, sizes[0]);
    var rest := ReadPieces(v, data, how, inode, offset + n, sizes[1..]);
    assert end == EndOf(fileSize, offset + n, sizes[1..]);
    if end <= |file| && first.Some? && rest.Some? {
      Cut(file, offset, offset + n, end, first.value, rest.value);
    }
  }

  lemma Cut(file: seq<byte>, a: nat, b: nat, c: nat, x: seq<byte>, y: seq<byte>)
    requires a <= b <= c <= |file| && |x| == b - a
    ensures x + y == file[a..c] <==> x == file[a..b] && y == file[b..c]
  {
    assert file[a..c] == file[a..b] + file[b..c];
    if x + y == file[a..c] {
      assert x == (x + y)[..|x|] && y == (x + y)[|x|..];
    }
  }

  /** Reading a file piece by piece puts together the file's bytes, on every image that stores the file, if and
      only if every piece that starts inside the file starts at an extent record and meets the condition. */
  lemma {:induction false} PiecesExactly(v: Formatting, total: nat, how: Addressing, inode: u64, fileSize: u64,
                                         blocks: seq<u64>, offset: u64, sizes: seq<u64>)
    requires ValidFormatting(v) && DescribesFile(v.rs, v.bs, inode, fileSize, blocks)
    requires Fits(blocks, total, v.bs) && BehindFront(blocks) && Pieces(sizes) && offset <= fileSize
    ensures PiecesOnEveryImage(v, how, inode, fileSize, blocks, offset, sizes) <==>
            PiecesDeliver(v.rs, v.bs, how, inode, fileSize, blocks, offset, sizes)
    decreases |sizes|
  {
    hide ReadImage, ValidFormatting, DescribesFile, StoresFile, ReadDelivers, Fits, BehindFront, Flat, ImageOf;
    if sizes == [] || offset == fileSize {
      forall data, chunks | ImageStores(v, data, blocks, chunks)
        ensures Room(v, data) && PiecesOn(v, how, inode, fileSize, offset, sizes, data, Flat(chunks))
      {
        NoMorePieces(v, data, how, inode, fileSize, blocks, chunks, offset, sizes);
      }
    } else {
      var n := Least(sizes[0], fileSize - offset);
      ImageReadsExactly(v, total, how, inode, fileSize, blocks, offset, sizes[0]);
      PiecesExactly(v, total, how, inode, fileSize, blocks, offset + n, sizes[1..]);
      forall data, chunks | ImageStores(v, data, blocks, chunks)
        ensures Room(v, data)
        ensures PiecesOn(v, how, inode, fileSize, offset, sizes, data, Flat(chunks)) <==>
                && offset + n <= |Flat(chunks)|
                && ReadImage(v, data, how, inode, offset, sizes[0]) == Some(Flat(chunks)[offset..offset + n])
                && PiecesOn(v, how, inode, fileSize, offset + n, sizes[1..], data, Flat(chunks))
      {
        PiecesSplit(v, data, how, inode, fileSize, blocks, offset, sizes, Flat(chunks));
      }
    }
  }
}
