/** Files that lie in several extents: a read follows only the extent that it starts in. */
module FileExtents {
  import opened Bits
  import opened Bytes
  import opened Structures
  import opened Nodes
  import opened Disk
  import opened FileSystem
  import opened FileReads

  // ---------- Layouts ----------

  /** A run of blocks on the disk. */
  datatype Extent = Extent(block: u64, count: nat)

  /** The contents of a file, block by block. */
  type Chunks = seq<seq<byte>>

  predicate Whole(chunks: Chunks, bs: UnitSize)
  {
    forall i | 0 <= i < |chunks| :: |chunks[i]| == bs
  }

  predicate ValidExtents(extents: seq<Extent>)
  {
    forall i | 0 <= i < |extents| :: extents[i].count > 0 && extents[i].block + extents[i].count < U64_LIMIT
  }

  /** The disk blocks of the extents, in the order of the file. */
  function BlocksOf(extents: seq<Extent>): seq<u64>
    requires ValidExtents(extents)
  {
    if extents == [] then [] else RunOf(extents[0]) + BlocksOf(extents[1..])
  }

  function RunOf(e: Extent): (blocks: seq<u64>)
    requires e.block + e.count < U64_LIMIT
    ensures |blocks| == e.count
  {
    seq(e.count, i requires 0 <= i < e.count => e.block + i)
  }

  /** The c blocks of a file from number first on are neighbours on the disk. */
  predicate Adjoin(blocks: seq<u64>, first: nat, c: nat)
  {
    first + c <= |blocks| && forall m | first <= m < first + c :: blocks[m] == blocks[first] + (m - first)
  }

  /** The first c blocks end within the first extent, or the extents that they reach follow each other on the disk. */
  predicate Consecutive(extents: seq<Extent>, c: nat)
    requires ValidExtents(extents) && extents != []
  {
    c <= extents[0].count
    || (|extents| > 1 && extents[1].block == extents[0].block + extents[0].count
        && Consecutive(extents[1..], c - extents[0].count))
  }

  lemma AdjoinSplit(blocks: seq<u64>, more: seq<u64>, c: nat)
    requires blocks != [] && Adjoin(blocks, 0, |blocks|) && |blocks| < c <= |blocks| + |more|
    ensures Adjoin(blocks + more, 0, c) <==> more[0] == blocks[0] + |blocks| && Adjoin(more, 0, c - |blocks|)
  {
    var all, n := blocks + more, |blocks|;
    assert forall k | n <= k < c :: all[k] == more[k - n];
    if Adjoin(all, 0, c) {
      assert more[0] == all[n];
      assert forall k | 0 <= k < c - n :: more[k] == all[n + k];
    }
  }

  /** The blocks of extents are neighbours exactly when the extents follow each other. */
  lemma {:induction false} AdjoinIsConsecutive(extents: seq<Extent>, c: nat)
    requires ValidExtents(extents) && extents != [] && c <= |BlocksOf(extents)|
    ensures Adjoin(BlocksOf(extents), 0, c) <==> Consecutive(extents, c)
    decreases |extents|
  {
    var e := extents[0];
    var first := RunOf(e);
    if c > e.count {
      AdjoinSplit(first, BlocksOf(extents[1..]), c);
      assert extents[1].count > 0;
      AdjoinIsConsecutive(extents[1..], c - e.count);
    }
  }

  lemma {:induction false} BlocksSplit(extents: seq<Extent>, i: nat)
    requires ValidExtents(extents) && i <= |extents|
    ensures BlocksOf(extents) == BlocksOf(extents[..i]) + BlocksOf(extents[i..])
    decreases i
  {
    if i > 0 {
      hide RunOf;
      BlocksSplit(extents[1..], i - 1);
      assert extents[..i][1..] == extents[1..][..i - 1] && extents[1..][i - 1..] == extents[i..];
      assert BlocksOf(extents[..i]) == RunOf(extents[0]) + BlocksOf(extents[1..][..i - 1]);
    }
  }

  lemma AdjoinBehind(front: seq<u64>, blocks: seq<u64>, c: nat)
    ensures Adjoin(front + blocks, |front|, c) <==> Adjoin(blocks, 0, c)
  {
    var all, n := front + blocks, |front|;
    assert forall m | n <= m < |all| :: all[m] == blocks[m - n];
    assert forall k | 0 <= k < |blocks| :: blocks[k] == all[n + k];
  }

  // ---------- Where the bytes of a file lie ----------

  /** The disk holds every block of the file where the layout says. */
  ghost predicate StoresFile(d: DiskView, bs: UnitSize, blocks: seq<u64>, chunks: Chunks)
  {
    && Working(d) && |blocks| == |chunks| && Whole(chunks, bs)
    && forall k | 0 <= k < |blocks| :: Holds(d.content, BlockStart(blocks[k], bs), chunks[k])
  }

  lemma OneMore(k: nat, bs: UnitSize)
    ensures (k + 1) * bs == bs + k * bs && k * bs >= 0
  {
  }

  lemma {:induction false} FlatChunks(chunks: Chunks, bs: UnitSize, k: nat)
    requires Whole(chunks, bs)
    ensures |Flat(chunks)| == |chunks| * bs
    ensures k < |chunks| ==> Holds(Flat(chunks), k * bs, chunks[k])
  {
    if chunks != [] {
      var rest := Flat(chunks[1..]);
      FlatChunks(chunks[1..], bs, if k > 0 then k - 1 else 0);
      OneMore(|chunks| - 1, bs);
      if 0 < k < |chunks| {
        OneMore(k - 1, bs);
        HoldsPrepend(chunks[0], rest, (k - 1) * bs, chunks[k]);
      } else if k == 0 {
        HoldsAppend(chunks[0], rest, 0, chunks[0]);
      }
    }
  }

  /** Byte q of block k of a stored file. */
  lemma StoredByte(d: DiskView, bs: UnitSize, blocks: seq<u64>, chunks: Chunks, k: nat, q: nat)
    requires StoresFile(d, bs, blocks, chunks) && k < |blocks| && q < bs
    ensures 0 <= k * bs + q < |Flat(chunks)| == |blocks| * bs && BlockStart(blocks[k], bs) + q < |d.content|
    ensures Flat(chunks)[k * bs + q] == d.content[BlockStart(blocks[k], bs) + q]
  {
    hide BlockStart;
    OneMore(k, bs);
    FlatChunks(chunks, bs, k);
    ByteInside(Flat(chunks), k * bs, chunks[k], q);
    ByteInside(d.content, BlockStart(blocks[k], bs), chunks[k], q);
  }

  lemma ByteInside(s: seq<byte>, at: nat, piece: seq<byte>, i: nat)
    requires Holds(s, at, piece) && i < |piece|
    ensures s[at + i] == piece[i]
  {
    assert s[at..at + |piece|][i] == s[at + i];
  }

  /** The contents of blocks as they are on a disk. */
  function ChunksOn(s: seq<byte>, bs: UnitSize, blocks: seq<u64>): (chunks: Chunks)
    requires forall k | 0 <= k < |blocks| :: BlockStart(blocks[k], bs) + bs <= |s|
    ensures |chunks| == |blocks| && Whole(chunks, bs)
    ensures forall k | 0 <= k < |blocks| :: Holds(s, BlockStart(blocks[k], bs), chunks[k])
  {
    seq(|blocks|, k requires 0 <= k < |blocks| => s[BlockStart(blocks[k], bs)..BlockStart(blocks[k], bs) + bs])
  }

  /** A read of at least one byte inside the blocks of a file. */
  predicate InFile(blocks: seq<u64>, offset: u64, n: u64, bs: UnitSize)
  {
    var size := |blocks| * bs;
    0 < n <= MEMORY_LIMIT && offset + n <= size
  }

  /** The number of the block that an offset lies in. */
  function BlockAt(offset: u64, bs: UnitSize): nat
  {
    QuotientBound(offset, bs);
    offset / bs
  }

  /** The blocks that a read spans. */
  lemma Spans(blocks: seq<u64>, offset: u64, n: u64, bs: UnitSize)
    requires InFile(blocks, offset, n, bs)
    ensures var first, c, bo := BlockAt(offset, bs), BlockCount(n, offset, bs), BlockOffset(offset, bs);
            && offset == first * bs + bo && 0 <= bo < bs && 0 < c && first + c <= |blocks|
            && (c - 1) * bs < bo + n <= c * bs && Transfer(n, offset, bs) == c * bs
  {
    var first, c, bo := BlockAt(offset, bs), BlockCount(n, offset, bs), BlockOffset(offset, bs);
    RoundingTight(n, offset, bs);
    hide BlockCount;
    assert offset == first * bs + bo;
    Distribute(first, c - 1, bs);
    if first + c > |blocks| {
      ScaledAtLeast(bs, |blocks|, first + (c - 1));
    }
  }

  lemma Distribute(a: nat, b: nat, bs: UnitSize)
    ensures (a + b) * bs == a * bs + b * bs
    ensures a * bs >= 0 && b * bs >= 0
  {
  }

  // ---------- Which reads of a file are right ----------

  /** The address names the block: it is the intended one, or the code's own where the further blocks come round. */
  predicate Reaches(how: Addressing, block: u64, n: u64, offset: u64, bs: UnitSize)
    requires n <= MEMORY_LIMIT
  {
    how == Intended || SamePlace(block, n, offset, bs)
  }

  lemma ReachesBlock(how: Addressing, block: u64, n: u64, offset: u64, bs: UnitSize)
    requires 0 < n <= MEMORY_LIMIT && BlockStart(block, bs) < U64_LIMIT
    ensures Reaches(how, block, n, offset, bs) <==> Address(how, block, n, offset, bs) == BlockStart(block, bs)
  {
    AddressAgreement(block, n, offset, bs);
    IntendedAddress(bs, block, offset, n);
    hide Address, BlockCount, ComesRound, BlockStart;
  }

  /** What a caller can check: the transfer is short enough, the address names the block that the read starts
      in, and the blocks that it spans are neighbours on the disk. */
  predicate Delivers(how: Addressing, blocks: seq<u64>, offset: u64, n: u64, bs: UnitSize)
    requires InFile(blocks, offset, n, bs)
  {
    Spans(blocks, offset, n, bs);
    && Transfer(n, offset, bs) < U32_LIMIT
    && Reaches(how, blocks[BlockAt(offset, bs)], n, offset, bs)
    && Adjoin(blocks, BlockAt(offset, bs), BlockCount(n, offset, bs))
  }

  lemma NextBlock(block: u64, k: nat, bs: UnitSize)
    requires block + k < U64_LIMIT
    ensures BlockStart(block + k, bs) == BlockStart(block, bs) + k * bs
  {
  }

  /** Such a read delivers the file's bytes. */
  lemma DeliveredBytes(d: DiskView, bs: UnitSize, how: Addressing, blocks: seq<u64>, chunks: Chunks,
                       offset: u64, n: u64)
    requires InFile(blocks, offset, n, bs) && Delivers(how, blocks, offset, n, bs) && StoresFile(d, bs, blocks, chunks)
    ensures offset + n <= |Flat(chunks)| && BlockAt(offset, bs) < |blocks|
    ensures FetchExtent(d, bs, how, blocks[BlockAt(offset, bs)], offset, n) == Some(Flat(chunks)[offset..offset + n])
  {
    hide BlockCount, Transfer, BlockAt, Flat, StoresFile, Address, FetchExtent, BlockStart, Reaches, Delivers, Adjoin;
    DeliveredPlace(d, bs, how, blocks, chunks, offset, n);
    var first, c, bo := BlockAt(offset, bs), BlockCount(n, offset, bs), BlockOffset(offset, bs);
    FetchOnDisk(d, bs, how, blocks[first], offset, n);
    var s := BlockStart(blocks[first], bs) + bo;
    var got, wanted := d.content[s..s + n], Flat(chunks)[offset..offset + n];
    forall j | 0 <= j < n ensures got[j] == wanted[j] {
      NeighbourByte(d, bs, blocks, chunks, first, c, bo + j);
    }
    assert got == wanted;
  }

  /** Where it finds them. */
  lemma DeliveredPlace(d: DiskView, bs: UnitSize, how: Addressing, blocks: seq<u64>, chunks: Chunks,
                       offset: u64, n: u64)
    requires InFile(blocks, offset, n, bs) && Delivers(how, blocks, offset, n, bs) && StoresFile(d, bs, blocks, chunks)
    ensures var first, c, bo := BlockAt(offset, bs), BlockCount(n, offset, bs), BlockOffset(offset, bs);
            && offset == first * bs + bo && bo + n <= c * bs && first < |blocks| && Adjoin(blocks, first, c)
            && Transfer(n, offset, bs) < U32_LIMIT
            && Address(how, blocks[first], n, offset, bs) == BlockStart(blocks[first], bs)
            && BlockStart(blocks[first], bs) + Transfer(n, offset, bs) <= |d.content|
            && Working(d) && 0 < n <= MEMORY_LIMIT && offset + n <= |Flat(chunks)|
  {
    Spans(blocks, offset, n, bs);
    hide BlockCount, Transfer, BlockAt, Flat, SamePlace, BlockStart, Address;
    var first := BlockAt(offset, bs);
    FlatSize(d, bs, blocks, chunks);
    LastBlockStored(d, bs, blocks, chunks, first, BlockCount(n, offset, bs));
    ReachesBlock(how, blocks[first], n, offset, bs);
  }

  lemma FlatSize(d: DiskView, bs: UnitSize, blocks: seq<u64>, chunks: Chunks)
    requires StoresFile(d, bs, blocks, chunks)
    ensures |Flat(chunks)| == |blocks| * bs
  {
    FlatChunks(chunks, bs, 0);
  }

  lemma LastBlockStored(d: DiskView, bs: UnitSize, blocks: seq<u64>, chunks: Chunks, first: nat, c: nat)
    requires StoresFile(d, bs, blocks, chunks) && 0 < c && Adjoin(blocks, first, c)
    ensures BlockStart(blocks[first], bs) + c * bs <= |d.content|
    ensures BlockStart(blocks[first], bs) < U64_LIMIT
  {
    assert blocks[first + (c - 1)] == blocks[first] + (c - 1);
    StoredByte(d, bs, blocks, chunks, first + (c - 1), bs - 1);
    NextBlock(blocks[first], c - 1, bs);
    OneMore(c - 1, bs);
    hide BlockStart;
  }

  lemma Divided(i: nat, c: nat, bs: UnitSize) returns (k: nat, q: nat)
    requires i < c * bs
    ensures k < c && q < bs && i == k * bs + q
  {
    QuotientBound(i, bs);
    k, q := i / bs, i % bs;
    if k >= c {
      ScaledAtLeast(bs, c, k);
    }
  }

  /** Byte i of neighbouring blocks. */
  lemma NeighbourByte(d: DiskView, bs: UnitSize, blocks: seq<u64>, chunks: Chunks, first: nat, c: nat, i: nat)
    requires StoresFile(d, bs, blocks, chunks) && i < c * bs && Adjoin(blocks, first, c) && first < |blocks|
    ensures BlockStart(blocks[first], bs) + i < |d.content| && 0 <= first * bs + i < |Flat(chunks)|
    ensures d.content[BlockStart(blocks[first], bs) + i] == Flat(chunks)[first * bs + i]
  {
    hide BlockStart, StoresFile, Flat;
    var k, q := Divided(i, c, bs);
    assert blocks[first + k] == blocks[first] + k;
    StoredByte(d, bs, blocks, chunks, first + k, q);
    NextBlock(blocks[first], k, bs);
    Distribute(first, k, bs);
  }

  /** A place where a read looks for byte q of block k of the file, and where that byte is instead. */
  predicate Misplaced(how: Addressing, blocks: seq<u64>, offset: u64, n: u64, bs: UnitSize, j: nat, k: nat, q: nat)
  {
    && j < n <= MEMORY_LIMIT && k < |blocks| && q < bs && BlockAt(offset, bs) < |blocks|
    && offset + j == k * bs + q
    && Address(how, blocks[BlockAt(offset, bs)], n, offset, bs) + offset % bs + j != BlockStart(blocks[k], bs) + q
  }

  /** Every other read looks for some byte in the wrong place. */
  lemma WrongPlace(how: Addressing, blocks: seq<u64>, offset: u64, n: u64, bs: UnitSize)
    returns (j: nat, k: nat, q: nat)
    requires InFile(blocks, offset, n, bs) && !Delivers(how, blocks, offset, n, bs)
    requires Transfer(n, offset, bs) < U32_LIMIT
    requires BlockAt(offset, bs) < |blocks| && BlockStart(blocks[BlockAt(offset, bs)], bs) < U64_LIMIT
    ensures Misplaced(how, blocks, offset, n, bs, j, k, q)
  {
    Spans(blocks, offset, n, bs);
    var first, c, bo := BlockAt(offset, bs), BlockCount(n, offset, bs), BlockOffset(offset, bs);
    ReachesBlock(how, blocks[first], n, offset, bs);
    hide BlockCount, Transfer, Address, BlockAt, Reaches, BlockStart;
    if Reaches(how, blocks[first], n, offset, bs) {
      k :| first <= k < first + c && blocks[k] != blocks[first] + (k - first);
      j, q := FurtherByte(k - first, c, bo, n, bs), 0;
      Distribute(first, k - first, bs);
      StartsApart(blocks[first], k - first, blocks[k], bs);
    } else {
      j, k, q := 0, first, bo;
    }
  }

  /** Where block m of a read begins among the bytes that it delivers. */
  function FurtherByte(m: nat, c: nat, bo: nat, n: nat, bs: UnitSize): (j: nat)
    requires 0 < m < c && bo < bs && (c - 1) * bs < bo + n
    ensures j < n && j + bo == m * bs
  {
    ScaledAtLeast(bs, 1, m);
    ScaledAtLeast(bs, m, c - 1);
    m * bs - bo
  }

  lemma StartsApart(a: u64, m: nat, b: u64, bs: UnitSize)
    requires b != a + m
    ensures BlockStart(a, bs) + m * bs != BlockStart(b, bs)
  {
    Distribute(a, m, bs);
    if a + m < b {
      OneMore(a + m, bs);
      ScaledAtLeast(bs, a + m + 1, b);
    } else {
      OneMore(b, bs);
      ScaledAtLeast(bs, b + 1, a + m);
    }
  }

  /** If the two places hold different bytes, the read fails or delivers another byte there. */
  lemma Misread(d: DiskView, bs: UnitSize, how: Addressing, blocks: seq<u64>, chunks: Chunks, offset: u64, n: u64,
                j: nat, k: nat, q: nat)
    requires InFile(blocks, offset, n, bs) && StoresFile(d, bs, blocks, chunks)
    requires Misplaced(how, blocks, offset, n, bs, j, k, q)
    requires var at := Address(how, blocks[BlockAt(offset, bs)], n, offset, bs) + offset % bs + j;
             && BlockStart(blocks[k], bs) + q < |d.content|
             && (at < |d.content| ==> d.content[at] != d.content[BlockStart(blocks[k], bs) + q])
    ensures var r := FetchExtent(d, bs, how, blocks[BlockAt(offset, bs)], offset, n);
            offset + n <= |Flat(chunks)| && (r.Some? ==> r.value[j] != Flat(chunks)[offset + j])
  {
    hide Address, FetchExtent, BlockStart, BlockAt, Transfer, Flat;
    FlatSize(d, bs, blocks, chunks);
    FetchedByte(d, bs, how, blocks[BlockAt(offset, bs)], offset, n, j);
    StoredByte(d, bs, blocks, chunks, k, q);
  }

  lemma FetchedByte(d: DiskView, bs: UnitSize, how: Addressing, block: u64, offset: u64, n: u64, j: nat)
    requires Working(d) && j < n <= MEMORY_LIMIT
    ensures var r := FetchExtent(d, bs, how, block, offset, n);
            var at := Address(how, block, n, offset, bs) + offset % bs + j;
            r.Some? ==> at < |d.content| && r.value[j] == d.content[at]
  {
    FetchOnDisk(d, bs, how, block, offset, n);
    hide Address, FetchExtent, Transfer;
  }

  /** A disk of zeros but for one byte. */
  ghost function Spot(length: nat, at: nat, v: byte): DiskView
    requires length < SIGNED_LIMIT
  {
    DiskView(true, length, seq(length, i => if i == at then v else 0), NEVER)
  }

  /** The disk has room for every block of the file. */
  predicate Fits(blocks: seq<u64>, total: nat, bs: UnitSize)
  {
    var size := total * bs;
    size < SIGNED_LIMIT && forall k | 0 <= k < |blocks| :: blocks[k] < total
  }

  lemma FitsBlock(block: u64, total: nat, bs: UnitSize)
    requires block < total
    ensures BlockStart(block, bs) + bs <= total * bs
  {
    OneMore(block, bs);
    ScaledAtLeast(bs, block + 1, total);
  }

  lemma FirstFits(blocks: seq<u64>, total: nat, offset: u64, n: u64, bs: UnitSize)
    requires InFile(blocks, offset, n, bs) && Fits(blocks, total, bs)
    ensures BlockAt(offset, bs) < |blocks| && BlockStart(blocks[BlockAt(offset, bs)], bs) < U64_LIMIT
    ensures blocks != []
  {
    Spans(blocks, offset, n, bs);
    hide BlockCount, Transfer, BlockAt;
    FitsBlock(blocks[BlockAt(offset, bs)], total, bs);
  }

  /** On every disk that stores the file by its layout, the read delivers the file's bytes. */
  ghost predicate ReadsEveryFile(bs: UnitSize, how: Addressing, blocks: seq<u64>, offset: u64, n: u64)
    requires n <= MEMORY_LIMIT && BlockAt(offset, bs) < |blocks|
  {
    forall d, chunks: Chunks | StoresFile(d, bs, blocks, chunks) ::
      && offset + n <= |Flat(chunks)|
      && FetchExtent(d, bs, how, blocks[BlockAt(offset, bs)], offset, n) == Some(Flat(chunks)[offset..offset + n])
  }

  /** A read that does not meet the condition goes wrong on some disk that stores a file of this layout. */
  lemma MisleadingDisk(bs: UnitSize, total: nat, how: Addressing, blocks: seq<u64>, offset: u64, n: u64)
    requires InFile(blocks, offset, n, bs) && Fits(blocks, total, bs) && !Delivers(how, blocks, offset, n, bs)
    ensures BlockAt(offset, bs) < |blocks| && !ReadsEveryFile(bs, how, blocks, offset, n)
  {
    hide BlockCount, Transfer, Address, BlockStart, BlockAt, Delivers, FetchExtent, Flat, Fits, StoresFile;
    FirstFits(blocks, total, offset, n, bs);
    var block := blocks[BlockAt(offset, bs)];
    if Transfer(n, offset, bs) < U32_LIMIT {
      var j, k, q := WrongPlace(how, blocks, offset, n, bs);
      var d, chunks := SpotStores(bs, total, blocks, k, q);
      Misread(d, bs, how, blocks, chunks, offset, n, j, k, q);
    } else {
      var d, chunks := SpotStores(bs, total, blocks, 0, 0);
      FetchOnDisk(d, bs, how, block, offset, n);
    }
  }

  lemma SpotStores(bs: UnitSize, total: nat, blocks: seq<u64>, k: nat, q: nat) returns (d: DiskView, chunks: Chunks)
    requires Fits(blocks, total, bs) && k < |blocks| && q < bs
    ensures StoresFile(d, bs, blocks, chunks) && Working(d) && BlockStart(blocks[k], bs) + q < |d.content|
    ensures forall i | 0 <= i < |d.content| :: d.content[i] == if i == BlockStart(blocks[k], bs) + q then 1 else 0
  {
    forall k | 0 <= k < |blocks| ensures BlockStart(blocks[k], bs) + bs <= total * bs {
      FitsBlock(blocks[k], total, bs);
    }
    hide BlockStart;
    d := Spot(total * bs, BlockStart(blocks[k], bs) + q, 1);
    chunks := ChunksOn(d.content, bs, blocks);
  }

  /** For every layout that fits some disk, and for both addresses: a read delivers the file's bytes from every
      disk that stores the file so, if and only if its transfer is short enough, its address names the block
      that it starts in, and the blocks that it spans are neighbours. */
  lemma AdjoiningExactly(bs: UnitSize, total: nat, how: Addressing, blocks: seq<u64>, offset: u64, n: u64)
    requires InFile(blocks, offset, n, bs) && Fits(blocks, total, bs)
    ensures BlockAt(offset, bs) < |blocks|
    ensures ReadsEveryFile(bs, how, blocks, offset, n) <==> Delivers(how, blocks, offset, n, bs)
  {
    Spans(blocks, offset, n, bs);
    if Delivers(how, blocks, offset, n, bs) {
      hide FetchExtent, Flat, StoresFile, Delivers, BlockAt;
      forall d, chunks: Chunks | StoresFile(d, bs, blocks, chunks)
        ensures offset + n <= |Flat(chunks)|
        ensures FetchExtent(d, bs, how, blocks[BlockAt(offset, bs)], offset, n)
                == Some(Flat(chunks)[offset..offset + n])
      {
        DeliveredBytes(d, bs, how, blocks, chunks, offset, n);
      }
    } else {
      MisleadingDisk(bs, total, how, blocks, offset, n);
    }
  }

  /** As written, from a block other than 0 and while the product fits 64 bits, that is: a single block. */
  lemma OneBlockExactly(blocks: seq<u64>, offset: u64, n: u64, bs: UnitSize)
    requires InFile(blocks, offset, n, bs)
    requires var block := (Spans(blocks, offset, n, bs); blocks[BlockAt(offset, bs)]);
             block > 0 && block * Transfer(n, offset, bs) < U64_LIMIT
    ensures Delivers(AsWritten, blocks, offset, n, bs) <==>
            BlockCount(n, offset, bs) == 1 && Transfer(n, offset, bs) < U32_LIMIT
  {
    Spans(blocks, offset, n, bs);
    var block := blocks[BlockAt(offset, bs)];
    AddressAgreement(block, n, offset, bs);
    if BlockCount(n, offset, bs) > 1 {
      AddressBeyond(block, n, offset, bs);
    }
  }

  /** For a file in extents, from the start of one of them: the read ends within that extent, or the extents that
      it reaches follow each other on the disk. */
  lemma ExtentCondition(bs: UnitSize, how: Addressing, extents: seq<Extent>, i: nat, offset: u64, n: u64)
    requires ValidExtents(extents) && i < |extents| && offset == |BlocksOf(extents[..i])| * bs
    requires InFile(BlocksOf(extents), offset, n, bs)
    ensures Delivers(how, BlocksOf(extents), offset, n, bs) <==>
            && Transfer(n, offset, bs) < U32_LIMIT
            && Reaches(how, extents[i].block, n, offset, bs)
            && Consecutive(extents[i..], BlockCount(n, offset, bs))
  {
    var blocks, front, rest := BlocksOf(extents), BlocksOf(extents[..i]), BlocksOf(extents[i..]);
    Spans(blocks, offset, n, bs);
    BlocksSplit(extents, i);
    assert extents[i..][0].count > 0 && rest[0] == extents[i].block;
    DivModUnique(offset, bs, |front|, 0);
    assert BlockAt(offset, bs) == |front|;
    hide BlockCount, Transfer, Adjoin, Consecutive, BlocksOf, Reaches, BlockAt;
    AdjoinBehind(front, rest, BlockCount(n, offset, bs));
    AdjoinIsConsecutive(extents[i..], BlockCount(n, offset, bs));
  }

  /** So the read delivers the file whatever it holds exactly under this condition. */
  lemma ExtentsExactly(bs: UnitSize, total: nat, how: Addressing, extents: seq<Extent>, i: nat, offset: u64, n: u64)
    requires ValidExtents(extents) && i < |extents| && offset == |BlocksOf(extents[..i])| * bs
    requires InFile(BlocksOf(extents), offset, n, bs) && Fits(BlocksOf(extents), total, bs)
    ensures BlockAt(offset, bs) < |BlocksOf(extents)|
    ensures ReadsEveryFile(bs, how, BlocksOf(extents), offset, n) <==>
            && Transfer(n, offset, bs) < U32_LIMIT
            && Reaches(how, extents[i].block, n, offset, bs)
            && Consecutive(extents[i..], BlockCount(n, offset, bs))
  {
    hide BlockCount, Transfer, ReadsEveryFile, Consecutive, BlocksOf, Reaches, BlockAt, Fits, Delivers, InFile;
    AdjoiningExactly(bs, total, how, BlocksOf(extents), offset, n);
    ExtentCondition(bs, how, extents, i, offset, n);
  }
}
