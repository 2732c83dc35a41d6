/** File reads: what they deliver, and when the address as written is the intended one. */
module FileReads {
  import opened Bits
  import opened Bytes
  import opened Structures
  import opened Inodes
  import opened Nodes
  import opened Disk
  import opened Superblocks
  import opened FileSystem

  /** A successful read delivers min(size, rest of the file) bytes, and they are the disk slice at the
      block offset past the address of the extent stored under exactly this inode and offset. At or past
      the end of the file a read succeeds with no bytes. */
  lemma ReadMeaning(d: DiskView, bs: BlockSize, root: u64, how: Addressing, inode: u64, offset: u64, size: u64)
    requires SoundRoot(d, bs, root) && size <= MEMORY_LIMIT
    requires FileBytes(d, bs, root, how, inode, offset, size).Some?
    ensures var b, info := FileBytes(d, bs, root, how, inode, offset, size).value, InfoAt(d, bs, root, inode, []);
            && info.Some? && !info.value.isDirectory
            && |b| == (if offset >= info.value.size then 0 else Least(size, info.value.size - offset))
            && (b != [] ==>
                  var block := ExtentBlock(d, bs, root, inode, offset);
                  block.Some? && Holds(d.content, Address(how, block.value, |b|, offset, bs) + offset % bs, b))
  {
    hide DecodeInode, FetchExtent, FindFirst, ReadRange;
    FileBytesNeedInfo(d, bs, root, how, inode, offset, size);
    var b, info := FileBytes(d, bs, root, how, inode, offset, size).value, InfoAt(d, bs, root, inode, []).value;
    if offset < info.size {
      FileBytesOf(d, bs, root, how, inode, offset, size);
      if b != [] {
        FetchMeaning(d, bs, how, ExtentBlock(d, bs, root, inode, offset).value, offset, |b|);
      }
    }
  }

  lemma FileBytesNeedInfo(d: DiskView, bs: BlockSize, root: u64, how: Addressing, inode: u64, offset: u64, size: u64)
    requires SoundRoot(d, bs, root) && size <= MEMORY_LIMIT
    requires FileBytes(d, bs, root, how, inode, offset, size).Some?
    ensures var info := InfoAt(d, bs, root, inode, []);
            && info.Some? && !info.value.isDirectory
            && (offset >= info.value.size ==> FileBytes(d, bs, root, how, inode, offset, size) == Some([]))
  {
    hide DecodeInode, FetchExtent, FindFirst, ReadRange;
  }

  lemma FetchMeaning(d: DiskView, bs: UnitSize, how: Addressing, block: u64, offset: u64, n: u64)
    requires 0 < n <= MEMORY_LIMIT && FetchExtent(d, bs, how, block, offset, n).Some?
    ensures Holds(d.content, Address(how, block, n, offset, bs) + offset % bs,
                  FetchExtent(d, bs, how, block, offset, n).value)
  {
    hide BlockCount;
    RoundingTight(n, offset, bs);
    var at, len := Address(how, block, n, offset, bs), Transfer(n, offset, bs);
    ReadRangeMeaning(d, at, len);
    SliceOfSlice(d.content, at, len, offset % bs, n);
  }

  lemma SliceOfSlice(s: seq<byte>, at: nat, len: nat, inner: nat, n: nat)
    requires at + len <= |s| && inner + n <= len
    ensures s[at..at + len][inner..inner + n] == s[at + inner..at + inner + n]
  {
    var t := s[at..at + len];
    assert forall k | inner <= k < inner + n :: t[k] == s[at + k];
  }

  /** Exactly what a fetch does on a working disk, be it of no bytes: it succeeds if the whole transfer
      has fewer than 2^32 bytes and lies on the disk, and then delivers the bytes that are there. */
  lemma FetchOnDisk(d: DiskView, bs: UnitSize, how: Addressing, block: u64, offset: u64, n: u64)
    requires Working(d) && n <= MEMORY_LIMIT
    ensures BlockOffset(offset, bs) + n <= Transfer(n, offset, bs)
    ensures var at, len := Address(how, block, n, offset, bs), Transfer(n, offset, bs);
            FetchExtent(d, bs, how, block, offset, n)
            == if len < U32_LIMIT && at + len <= |d.content|
               then Some(d.content[at + offset % bs..at + offset % bs + n]) else None
  {
    RoundingTight(n, offset, bs);
    hide BlockCount, Transfer, Address;
    var at, len := Address(how, block, n, offset, bs), Transfer(n, offset, bs);
    if len < U32_LIMIT && at + len <= |d.content| {
      ReadRangeSucceeds(d, at, len);
      SliceOfSlice(d.content, at, len, offset % bs, n);
    }
  }

  // ---------- When the two addresses agree ----------

  /** Going on from a block by block times extra further blocks comes round to the same 64-bit address. */
  predicate ComesRound(block: u64, extra: nat, bs: UnitSize)
  {
    var distance: nat := BlockStart(block, bs) * extra;
    distance % U64_LIMIT == 0
  }

  lemma WrapEqual(a: nat, b: nat)
    requires b <= a
    ensures Wrap(a) == Wrap(b) <==> (a - b) % U64_LIMIT == 0
  {
  }

  lemma Regroup(a: nat, k: nat, j: nat, c: nat)
    requires j <= k
    ensures a * (j * c) <= a * (k * c)
    ensures a * (k * c) - a * (j * c) == a * c * (k - j)
  {
    assert a * (k * c) == a * c * k && a * (j * c) == a * c * j;
    ProductBound(a, c);
    ScaledAtLeast(a * c, j, k);
    assert a * c * k - a * c * j == a * c * (k - j);
  }

  /** Two transfers have the same address as written exactly when the blocks between them come round. */
  lemma TransferAddresses(block: u64, n1: u64, n2: u64, offset: u64, bs: UnitSize)
    requires n1 <= n2 <= MEMORY_LIMIT
    ensures BlockCount(n1, offset, bs) <= BlockCount(n2, offset, bs)
    ensures Address(AsWritten, block, n1, offset, bs) == Address(AsWritten, block, n2, offset, bs) <==>
            ComesRound(block, BlockCount(n2, offset, bs) - BlockCount(n1, offset, bs), bs)
  {
    RoundingTight(n1, offset, bs);
    RoundingTight(n2, offset, bs);
    CountMonotone(n1, n2, offset, bs);
    hide BlockCount;
    var c1, c2 := BlockCount(n1, offset, bs), BlockCount(n2, offset, bs);
    Regroup(block, c2, c1, bs);
    ProductBound(c1, bs);
    ScaledAtLeast(block, 0, c1 * bs);
    WrapEqual(block * (c2 * bs), block * (c1 * bs));
  }

  /** A read of at least one byte has the intended address exactly when the blocks beyond its first come
      round; they do so at block 0 and for reads of one block. */
  lemma AddressAgreement(block: u64, n: u64, offset: u64, bs: UnitSize)
    requires 0 < n <= MEMORY_LIMIT
    ensures BlockCount(n, offset, bs) >= 1
    ensures Address(AsWritten, block, n, offset, bs) == Address(Intended, block, n, offset, bs) <==>
            ComesRound(block, BlockCount(n, offset, bs) - 1, bs)
    ensures block == 0 || BlockCount(n, offset, bs) == 1 ==> ComesRound(block, BlockCount(n, offset, bs) - 1, bs)
  {
    AddressForms(block, n, offset, bs);
    hide BlockCount, Transfer, Address;
    var count := BlockCount(n, offset, bs);
    Regroup(block, count, 1, bs);
    SingleBlock(block, bs);
    WrapEqual(block * (count * bs), block * bs);
    Further(block, count, bs);
  }

  /** While the product fits 64 bits, every other read addresses a place beyond the intended one. */
  lemma AddressBeyond(block: u64, n: u64, offset: u64, bs: UnitSize)
    requires 0 < n <= MEMORY_LIMIT && block > 0 && BlockCount(n, offset, bs) > 1
    requires block * Transfer(n, offset, bs) < U64_LIMIT
    ensures Address(AsWritten, block, n, offset, bs) > Address(Intended, block, n, offset, bs) == BlockStart(block, bs)
    ensures !ComesRound(block, BlockCount(n, offset, bs) - 1, bs)
  {
    AddressAgreement(block, n, offset, bs);
    AddressForms(block, n, offset, bs);
    hide BlockCount, Transfer, Address, ComesRound;
    Further(block, BlockCount(n, offset, bs), bs);
    WrapSmall(block * bs);
    WrapSmall(block * (BlockCount(n, offset, bs) * bs));
  }

  lemma AddressForms(block: u64, n: u64, offset: u64, bs: UnitSize)
    requires 0 < n <= MEMORY_LIMIT
    ensures BlockCount(n, offset, bs) >= 1
    ensures block * Transfer(n, offset, bs) == block * (BlockCount(n, offset, bs) * bs)
    ensures Address(AsWritten, block, n, offset, bs) == Wrap(block * (BlockCount(n, offset, bs) * bs))
    ensures Address(Intended, block, n, offset, bs) == Wrap(block * bs)
  {
    RoundingTight(n, offset, bs);
  }

  lemma Further(block: u64, count: nat, bs: UnitSize)
    requires count >= 1
    ensures block == 0 || count == 1 ==> ComesRound(block, count - 1, bs)
    ensures block > 0 && count > 1 ==> 0 < block * bs < block * (count * bs)
  {
    Regroup(block, count, 1, bs);
    SingleBlock(block, bs);
    ProductBound(block, bs);
    ProductBound(count - 1, block * bs);
  }

  lemma SingleBlock(block: u64, bs: UnitSize)
    ensures block * (1 * bs) == block * bs
  {
  }

  /** Five blocks from block 2^50 on have the intended address, although neither the block is 0 nor one
      block is read. */
  lemma AddressCoincidence()
    ensures ComesRound(0x4_0000_0000_0000, 4, 4096) && BlockCount(20480, 0, 4096) == 5
  {
  }

  // ---------- Which files the two addresses read ----------

  /** A working disk on which the extent that starts at a block holds the data, in whole blocks. */
  ghost predicate StoresExtent(d: DiskView, bs: UnitSize, block: u64, offset: u64, data: seq<byte>)
    requires |data| <= MEMORY_LIMIT
  {
    && Working(d)
    && BlockStart(block, bs) + Transfer(|data|, offset, bs) <= |d.content|
    && Holds(d.content, BlockStart(block, bs) + offset % bs, data)
  }

  lemma IntendedAddress(bs: UnitSize, block: u64, offset: u64, n: u64)
    requires BlockStart(block, bs) < U64_LIMIT
    ensures Address(Intended, block, n, offset, bs) == BlockStart(block, bs)
  {
  }

  /** With the intended address, a stored extent reads back as the data it stores exactly when the whole
      transfer has fewer than 2^32 bytes; otherwise the read fails. */
  lemma IntendedReadsData(d: DiskView, bs: UnitSize, block: u64, offset: u64, data: seq<byte>)
    requires |data| <= MEMORY_LIMIT && StoresExtent(d, bs, block, offset, data)
    ensures FetchExtent(d, bs, Intended, block, offset, |data|)
            == if Transfer(|data|, offset, bs) < U32_LIMIT then Some(data) else None
  {
    RoundingTight(|data|, offset, bs);
    IntendedAddress(bs, block, offset, |data|);
    hide BlockCount, Transfer, Address, BlockStart;
    var at, len := BlockStart(block, bs), Transfer(|data|, offset, bs);
    if len < U32_LIMIT {
      ReadRangeSucceeds(d, at, len);
      SliceOfSlice(d.content, at, len, offset % bs, |data|);
    }
  }

  /** The longest length that the driver can ask for cannot be read in blocks of 4096 bytes, from any disk. */
  lemma LongestRequestFails(d: DiskView, how: Addressing, block: u64)
    ensures Transfer(0xffff_ffff, 0, 4096) == U32_LIMIT
    ensures FetchExtent(d, 4096, how, block, 0, 0xffff_ffff) == None
  {
    assert BlockCount(0xffff_ffff, 0, 4096) == 0x10_0000;
    hide BlockCount, Address;
  }

  /** The address as written names the place where the data is stored, or nothing is asked for. */
  predicate SamePlace(block: u64, n: u64, offset: u64, bs: UnitSize)
    requires n <= MEMORY_LIMIT
  {
    n == 0 || (RoundingTight(n, offset, bs); ComesRound(block, BlockCount(n, offset, bs) - 1, bs))
  }

  lemma AsWrittenReadsData(d: DiskView, bs: UnitSize, block: u64, offset: u64, data: seq<byte>)
    requires |data| <= MEMORY_LIMIT && StoresExtent(d, bs, block, offset, data)
    requires SamePlace(block, |data|, offset, bs)
    ensures FetchExtent(d, bs, AsWritten, block, offset, |data|)
            == if Transfer(|data|, offset, bs) < U32_LIMIT then Some(data) else None
  {
    IntendedReadsData(d, bs, block, offset, data);
    if |data| > 0 {
      AddressAgreement(block, |data|, offset, bs);
      SameFetch(d, bs, block, offset, |data|);
    } else {
      EmptyTransfer(offset, bs, block);
      if Address(AsWritten, block, 0, offset, bs) == Address(Intended, block, 0, offset, bs) {
        SameFetch(d, bs, block, offset, 0);
      } else {
        EmptyFetch(d, bs, block, offset);
      }
    }
  }

  lemma SameFetch(d: DiskView, bs: UnitSize, block: u64, offset: u64, n: u64)
    requires n <= MEMORY_LIMIT
    requires Address(AsWritten, block, n, offset, bs) == Address(Intended, block, n, offset, bs)
    ensures FetchExtent(d, bs, AsWritten, block, offset, n) == FetchExtent(d, bs, Intended, block, offset, n)
  {
    hide BlockCount, Transfer, Address, ReadRange;
  }

  lemma EmptyFetch(d: DiskView, bs: UnitSize, block: u64, offset: u64)
    requires Working(d) && Transfer(0, offset, bs) == 0 && BlockOffset(offset, bs) == 0
    ensures FetchExtent(d, bs, AsWritten, block, offset, 0) == Some([])
  {
    hide Transfer, BlockOffset;
    assert Address(AsWritten, block, 0, offset, bs) == 0;
  }

  lemma EmptyTransfer(offset: u64, bs: UnitSize, block: u64)
    ensures Address(AsWritten, block, 0, offset, bs) != Address(Intended, block, 0, offset, bs) ==>
              Transfer(0, offset, bs) == 0 && BlockOffset(offset, bs) == 0
  {
    EmptyCount(offset, bs);
    SingleBlock(block, bs);
  }

  /** A read of nothing transfers nothing, or one block if it starts inside one. */
  lemma EmptyCount(offset: u64, bs: UnitSize)
    ensures Transfer(0, offset, bs) == if BlockOffset(offset, bs) == 0 then 0 else bs
  {
    var bo := BlockOffset(offset, bs);
    assert 0 <= bo < bs;
    DivModUnique(bo + bs - 1, bs, if bo > 0 then 1 else 0, if bo > 0 then bo - 1 else bs - 1);
    assert BlockCount(0, offset, bs) == if bo > 0 then 1 else 0;
  }

  /** Some disk is large enough for the extent. */
  predicate Storable(bs: UnitSize, block: u64, offset: u64, n: u64)
  {
    BlockStart(block, bs) + Transfer(n, offset, bs) < SIGNED_LIMIT
  }

  /** A disk on which an extent is stored, but the wrong place holds something else or does not exist. */
  ghost function Decoy(bs: UnitSize, block: u64, offset: u64, data: seq<byte>): DiskView
    requires 0 < |data| <= MEMORY_LIMIT && Storable(bs, block, offset, |data|)
  {
    var at := BlockStart(block, bs) + offset % bs;
    var length := BlockStart(block, bs) + Transfer(|data|, offset, bs);
    var other := if data[0] == 0 then 1 else 0;
    var content := seq(length, i => if at <= i < at + |data| then data[i - at] else other);
    DiskView(true, length, content, NEVER)
  }

  lemma DecoyStores(bs: UnitSize, block: u64, offset: u64, data: seq<byte>)
    requires 0 < |data| <= MEMORY_LIMIT && Storable(bs, block, offset, |data|)
    ensures StoresExtent(Decoy(bs, block, offset, data), bs, block, offset, data)
  {
    hide BlockCount;
    RoundingTight(|data|, offset, bs);
    var d := Decoy(bs, block, offset, data);
    var at := BlockStart(block, bs) + offset % bs;
    assert at + |data| <= |d.content|;
    assert d.content[at..at + |data|] == data;
  }

  lemma DecoyElsewhere(bs: UnitSize, block: u64, offset: u64, data: seq<byte>, i: nat)
    requires 0 < |data| <= MEMORY_LIMIT && Storable(bs, block, offset, |data|)
    requires i < BlockStart(block, bs) + offset % bs && i < |Decoy(bs, block, offset, data).content|
    ensures Decoy(bs, block, offset, data).content[i] != data[0]
  {
    hide BlockCount;
  }

  lemma DecoyMisleads(bs: UnitSize, block: u64, offset: u64, data: seq<byte>)
    requires 0 < |data| <= MEMORY_LIMIT && Storable(bs, block, offset, |data|)
    requires Transfer(|data|, offset, bs) >= U32_LIMIT || !SamePlace(block, |data|, offset, bs)
    ensures FetchExtent(Decoy(bs, block, offset, data), bs, AsWritten, block, offset, |data|) != Some(data)
  {
    var d, n := Decoy(bs, block, offset, data), |data|;
    AddressAgreement(block, n, offset, bs);
    DecoyStores(bs, block, offset, data);
    FetchOnDisk(d, bs, AsWritten, block, offset, n);
    IntendedAddress(bs, block, offset, n);
    assert |d.content| == BlockStart(block, bs) + Transfer(n, offset, bs);
    hide BlockCount, Address, FetchExtent, Transfer, SamePlace, ComesRound, Decoy, BlockStart;
    var wrong := Address(AsWritten, block, n, offset, bs);
    if FetchExtent(d, bs, AsWritten, block, offset, n).Some? {
      assert wrong < BlockStart(block, bs);
      DecoyElsewhere(bs, block, offset, data, wrong + offset % bs);
    }
  }

  /** The code as written reads every disk that stores an extent correctly exactly when the transfer has fewer
      than 2^32 bytes and the blocks beyond its first come round (or nothing is asked for); or when no disk is
      large enough to store the extent. */
  lemma AsWrittenExactly(bs: UnitSize, block: u64, offset: u64, data: seq<byte>)
    requires |data| <= MEMORY_LIMIT
    ensures (forall d | StoresExtent(d, bs, block, offset, data) ::
               FetchExtent(d, bs, AsWritten, block, offset, |data|) == Some(data))
            <==> !Storable(bs, block, offset, |data|)
                 || (Transfer(|data|, offset, bs) < U32_LIMIT && SamePlace(block, |data|, offset, bs))
  {
    EmptyCount(offset, bs);
    hide BlockCount, Transfer, BlockStart;
    if Transfer(|data|, offset, bs) < U32_LIMIT && SamePlace(block, |data|, offset, bs) {
      forall d | StoresExtent(d, bs, block, offset, data)
        ensures FetchExtent(d, bs, AsWritten, block, offset, |data|) == Some(data)
      {
        AsWrittenReadsData(d, bs, block, offset, data);
      }
    } else if Storable(bs, block, offset, |data|) {
      DecoyStores(bs, block, offset, data);
      DecoyMisleads(bs, block, offset, data);
    }
  }

  // ---------- Prefix consistency ----------

  /** If both reads succeed, the shorter result is a prefix of the longer. */
  predicate PrefixOn(d: DiskView, bs: UnitSize, how: Addressing, block: u64, offset: u64, n1: u64, n2: u64)
    requires n1 <= n2 <= MEMORY_LIMIT
  {
    var r1, r2 := FetchExtent(d, bs, how, block, offset, n1), FetchExtent(d, bs, how, block, offset, n2);
    r1.Some? && r2.Some? ==> r1.value <= r2.value
  }

  /** Under the intended address it holds on all disks, working or not. */
  ghost predicate PrefixOnEveryDisk(bs: UnitSize, how: Addressing, block: u64, offset: u64, n1: u64, n2: u64)
    requires n1 <= n2 <= MEMORY_LIMIT
  {
    forall d | how == AsWritten ==> Working(d) :: PrefixOn(d, bs, how, block, offset, n1, n2)
  }

  lemma FetchPrefix(d: DiskView, bs: UnitSize, how: Addressing, block: u64, offset: u64, n1: u64, n2: u64)
    requires n1 <= n2 <= MEMORY_LIMIT
    requires n1 == 0 || Address(how, block, n1, offset, bs) == Address(how, block, n2, offset, bs)
    ensures PrefixOn(d, bs, how, block, offset, n1, n2)
  {
    hide BlockCount;
    var r1, r2 := FetchExtent(d, bs, how, block, offset, n1), FetchExtent(d, bs, how, block, offset, n2);
    if n1 > 0 && r1.Some? && r2.Some? {
      FetchMeaning(d, bs, how, block, offset, n1);
      FetchMeaning(d, bs, how, block, offset, n2);
      SamePlacePrefix(d.content, Address(how, block, n1, offset, bs) + offset % bs, r1.value, r2.value);
    }
  }

  lemma SamePlacePrefix(s: seq<byte>, at: nat, a: seq<byte>, b: seq<byte>)
    requires Holds(s, at, a) && Holds(s, at, b) && |a| <= |b|
    ensures a <= b
  {
    assert a == s[at..at + |b|][..|a|];
  }

  lemma TransferMonotone(n1: u64, n2: u64, offset: u64, bs: UnitSize)
    requires n1 <= n2 <= MEMORY_LIMIT
    ensures Transfer(n1, offset, bs) <= Transfer(n2, offset, bs)
  {
    RoundingTight(n1, offset, bs);
    RoundingTight(n2, offset, bs);
    CountMonotone(n1, n2, offset, bs);
    hide BlockCount, Transfer;
    ScaledAtLeast(bs, BlockCount(n1, offset, bs), BlockCount(n2, offset, bs));
  }

  lemma CountIs(n: u64, offset: u64, bs: UnitSize)
    requires n <= MEMORY_LIMIT
    ensures BlockCount(n, offset, bs) == (n + BlockOffset(offset, bs) + bs - 1) / bs
  {
    WrapSmall(n + BlockOffset(offset, bs) + bs - 1);
    hide Wrap;
  }

  lemma CountMonotone(n1: u64, n2: u64, offset: u64, bs: UnitSize)
    requires n1 <= n2 <= MEMORY_LIMIT
    ensures BlockCount(n1, offset, bs) <= BlockCount(n2, offset, bs)
  {
    CountIs(n1, offset, bs);
    CountIs(n2, offset, bs);
    hide BlockCount;
    DivMonotone(n1 + BlockOffset(offset, bs) + bs - 1, n2 + BlockOffset(offset, bs) + bs - 1, bs);
  }

  lemma DivMonotone(a: nat, b: nat, c: nat)
    requires a <= b && c > 0
    ensures a / c <= b / c
  {
    var qa, qb := a / c, b / c;
    assert qa * c <= a && b < (qb + 1) * c;
    ScaledAtLeast(c, if qa > qb then qb + 1 else 0, qa);
  }

  /** Some working disk serves both reads. */
  predicate BothServed(bs: UnitSize, block: u64, offset: u64, n1: u64, n2: u64)
    requires n1 <= n2 <= MEMORY_LIMIT
  {
    && Transfer(n2, offset, bs) < U32_LIMIT
    && Address(AsWritten, block, n1, offset, bs) + Transfer(n1, offset, bs) < SIGNED_LIMIT
    && Address(AsWritten, block, n2, offset, bs) + Transfer(n2, offset, bs) < SIGNED_LIMIT
  }

  /** A disk that is zero but for the first byte of the shorter read. */
  ghost function Beacon(bs: UnitSize, block: u64, offset: u64, n1: u64, n2: u64): DiskView
    requires n1 <= n2 <= MEMORY_LIMIT && BothServed(bs, block, offset, n1, n2)
  {
    var a1, a2 := Address(AsWritten, block, n1, offset, bs), Address(AsWritten, block, n2, offset, bs);
    var end1, end2 := a1 + Transfer(n1, offset, bs), a2 + Transfer(n2, offset, bs);
    var length := if end1 < end2 then end2 else end1;
    DiskView(true, length, seq(length, i => if i == a1 + offset % bs then 1 else 0), NEVER)
  }

  lemma BeaconServes(bs: UnitSize, block: u64, offset: u64, n1: u64, n2: u64, n: u64)
    requires 0 < n1 <= n2 <= MEMORY_LIMIT && BothServed(bs, block, offset, n1, n2)
    requires n == n1 || n == n2
    ensures Working(Beacon(bs, block, offset, n1, n2))
    ensures var r := FetchExtent(Beacon(bs, block, offset, n1, n2), bs, AsWritten, block, offset, n);
            var same := Address(AsWritten, block, n, offset, bs) == Address(AsWritten, block, n1, offset, bs);
            r.Some? && r.value[0] == if same then 1 else 0
  {
    var d := Beacon(bs, block, offset, n1, n2);
    TransferMonotone(n1, n2, offset, bs);
    FetchOnDisk(d, bs, AsWritten, block, offset, n);
  }

  lemma IntendedPrefix(bs: UnitSize, block: u64, offset: u64, n1: u64, n2: u64)
    requires n1 <= n2 <= MEMORY_LIMIT
    ensures PrefixOnEveryDisk(bs, Intended, block, offset, n1, n2)
  {
    forall d ensures PrefixOn(d, bs, Intended, block, offset, n1, n2) {
      FetchPrefix(d, bs, Intended, block, offset, n1, n2);
    }
  }

  lemma UnservedFails(d: DiskView, bs: UnitSize, block: u64, offset: u64, n1: u64, n2: u64)
    requires Working(d) && 0 < n1 <= n2 <= MEMORY_LIMIT && !BothServed(bs, block, offset, n1, n2)
    ensures FetchExtent(d, bs, AsWritten, block, offset, n1).None?
            || FetchExtent(d, bs, AsWritten, block, offset, n2).None?
  {
    FetchOnDisk(d, bs, AsWritten, block, offset, n1);
    FetchOnDisk(d, bs, AsWritten, block, offset, n2);
    hide BlockCount, Transfer, Address, FetchExtent;
  }

  /** A shorter read is a prefix of a longer one: with the intended address on every disk; with the address as
      written on every working disk exactly when the shorter one is empty, the blocks by which they differ
      come round, or no working disk can serve both. */
  lemma PrefixConsistency(bs: UnitSize, block: u64, offset: u64, n1: u64, n2: u64)
    requires n1 <= n2 <= MEMORY_LIMIT
    ensures BlockCount(n1, offset, bs) <= BlockCount(n2, offset, bs)
    ensures PrefixOnEveryDisk(bs, Intended, block, offset, n1, n2)
    ensures PrefixOnEveryDisk(bs, AsWritten, block, offset, n1, n2) <==>
            n1 == 0 || ComesRound(block, BlockCount(n2, offset, bs) - BlockCount(n1, offset, bs), bs)
            || !BothServed(bs, block, offset, n1, n2)
  {
    TransferAddresses(block, n1, n2, offset, bs);
    IntendedPrefix(bs, block, offset, n1, n2);
    hide BlockCount, Transfer, Address, FetchExtent, ComesRound;
    var same := Address(AsWritten, block, n1, offset, bs) == Address(AsWritten, block, n2, offset, bs);
    if n1 == 0 || same || !BothServed(bs, block, offset, n1, n2) {
      forall d | Working(d) ensures PrefixOn(d, bs, AsWritten, block, offset, n1, n2)
      {
        if n1 == 0 || same {
          FetchPrefix(d, bs, AsWritten, block, offset, n1, n2);
        } else {
          UnservedFails(d, bs, block, offset, n1, n2);
        }
      }
    } else {
      BeaconServes(bs, block, offset, n1, n2, n1);
      BeaconServes(bs, block, offset, n1, n2, n2);
      assert !PrefixOn(Beacon(bs, block, offset, n1, n2), bs, AsWritten, block, offset, n1, n2);
    }
  }

  /** Reads of a file at one offset: with the intended address, and as written when the shorter result is empty
      or the blocks by which the two differ come round, the shorter result is a prefix of the longer one. */
  lemma FileReadPrefix(d: DiskView, bs: BlockSize, root: u64, how: Addressing, inode: u64, offset: u64,
                       size1: u64, size2: u64)
    requires SoundRoot(d, bs, root) && size1 <= size2 <= MEMORY_LIMIT
    requires FileBytes(d, bs, root, how, inode, offset, size1).Some?
    requires FileBytes(d, bs, root, how, inode, offset, size2).Some?
    requires var n1, n2 := |FileBytes(d, bs, root, how, inode, offset, size1).value|,
                           |FileBytes(d, bs, root, how, inode, offset, size2).value|;
             how == Intended || n1 == 0
             || (var block := ExtentBlock(d, bs, root, inode, offset);
                 block.Some? && ComesRound(block.value, BlocksBetween(n1, n2, offset, bs), bs))
    ensures FileBytes(d, bs, root, how, inode, offset, size1).value
            <= FileBytes(d, bs, root, how, inode, offset, size2).value
  {
    hide FileBytes, InfoAt, ExtentBlock, FetchExtent, BlockCount, Transfer, Address, ComesRound;
    FileBytesNeedInfo(d, bs, root, how, inode, offset, size1);
    var info := InfoAt(d, bs, root, inode, []).value;
    if offset < info.size {
      FileBytesOf(d, bs, root, how, inode, offset, size1);
      FileBytesOf(d, bs, root, how, inode, offset, size2);
      var block := ExtentBlock(d, bs, root, inode, offset).value;
      var n1, n2 := Least(size1, info.size - offset), Least(size2, info.size - offset);
      if how == AsWritten {
        TransferAddresses(block, n1, n2, offset, bs);
        FetchPrefix(d, bs, how, block, offset, n1, n2);
      } else {
        IntendedPrefix(bs, block, offset, n1, n2);
        assert PrefixOn(d, bs, how, block, offset, n1, n2);
      }
    }
  }

  /** How many more blocks the longer of two reads spans. */
  function BlocksBetween(n1: u64, n2: u64, offset: u64, bs: UnitSize): nat
  {
    if BlockCount(n1, offset, bs) <= BlockCount(n2, offset, bs)
    then BlockCount(n2, offset, bs) - BlockCount(n1, offset, bs) else 0
  }

  /** Inside a file, a read is the fetch of one extent. */
  lemma FileBytesOf(d: DiskView, bs: BlockSize, root: u64, how: Addressing, inode: u64, offset: u64, size: u64)
    requires SoundRoot(d, bs, root) && size <= MEMORY_LIMIT
    requires var info := InfoAt(d, bs, root, inode, []);
             info.Some? && !info.value.isDirectory && offset < info.value.size
    ensures var n, block := Least(size, InfoAt(d, bs, root, inode, []).value.size - offset),
                            ExtentBlock(d, bs, root, inode, offset);
            FileBytes(d, bs, root, how, inode, offset, size)
            == if block.None? then None else FetchExtent(d, bs, how, block.value, offset, n)
  {
    hide InfoAt, ExtentBlock, FetchExtent;
  }
}
