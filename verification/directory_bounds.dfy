/** The bounds of a directory listing, in the order in which the tree compares keys. */
module DirectoryBounds {
  import opened Bits
  import opened Bytes
  import opened Structures
  import opened Nodes

  /** The key lies between the two bounds, as byte strings under compareKeys. */
  predicate InByteRange(key: seq<byte>, inode: u64)
  {
    CompareKeys(U64(DirectoryLow(inode)), key) <= 0 && CompareKeys(key, U64(DirectoryHigh(inode))) < 0
  }

  lemma FirstByte(id: u64, kind: KeyType)
    ensures U64(KeyHeader(id, kind))[0] == id % 256
  {
    KeyHeaderValue(id, kind);
    LowByte(id, kind);
    LeastByte(KeyHeader(id, kind), 8);
  }

  lemma LeastByte(n: nat, k: nat)
    requires k > 0
    ensures ToLittleEndian(n, k)[0] == n % 256
  {
  }

  lemma LowByte(id: nat, kind: nat)
    ensures (id % ID_LIMIT + kind * ID_LIMIT) % 256 == id % 256
  {
  }

  lemma DecidedByFirstByte(a: seq<byte>, b: seq<byte>)
    requires a != [] && b != [] && a[0] != b[0]
    ensures CompareKeys(a, b) < 0 <==> a[0] < b[0]
  {
  }

  lemma SuccessorByte(inode: u64)
    ensures Wrap(inode + 1) % 256 == if inode % 256 == 255 then 0 else inode % 256 + 1
  {
  }

  /** Keys that start with the low byte of the id come before the upper bound exactly when that byte is not 255. */
  lemma BelowHigh(key: seq<byte>, inode: u64)
    requires key != [] && key[0] == inode % 256
    ensures CompareKeys(key, U64(DirectoryHigh(inode))) < 0 <==> inode % 256 != 255
  {
    FirstByte(Wrap(inode + 1), APFS_TYPE_DIR_REC);
    SuccessorByte(inode);
    DecidedByFirstByte(key, U64(DirectoryHigh(inode)));
  }

  /** A directory's own records lie between the bounds, in the order of compareKeys, exactly when the low
      byte of its id is not 255: little-endian keys are not in numeric order. */
  lemma OwnRecords(inode: u64, tail: seq<byte>)
    ensures InByteRange(U64(DirectoryLow(inode)) + tail, inode) <==> inode % 256 != 255
  {
    var low := U64(DirectoryLow(inode));
    FirstByte(inode, APFS_TYPE_DIR_REC);
    BelowHigh(low + tail, inode);
    CompareTotalOrder(low, low + tail, low);
    if tail == [] {
      assert low + tail == low;
    }
  }

  /** Changing one byte changes the word by that byte's weight. */
  lemma {:induction false} ChangeByte(s: seq<byte>, j: nat, v: byte)
    requires j < |s|
    ensures FromLittleEndian(s[j := v]) == FromLittleEndian(s) + (v - s[j]) * Pow256(j)
  {
    if j > 0 {
      ChangeByte(s[1..], j - 1, v);
      assert s[j := v][1..] == s[1..][j - 1 := v];
      Scale(v - s[j], Pow256(j - 1));
    }
  }

  lemma Scale(x: int, p: nat)
    ensures x * (256 * p) == 256 * (x * p)
  {
  }

  /** A word is at least the weight of any of its bytes. */
  lemma {:induction false} ByteWeight(s: seq<byte>, j: nat)
    requires j < |s|
    ensures s[j] * Pow256(j) <= FromLittleEndian(s)
  {
    if j > 0 {
      ByteWeight(s[1..], j - 1);
      Scale(s[j], Pow256(j - 1));
    }
  }

  /** Adding 16 to the top byte adds one to the type. */
  lemma NextKind(id: u64, kind: KeyType)
    requires kind < 15
    ensures var s := U64(KeyHeader(id, kind)); s[7] < 240 && U64(KeyHeader(id, kind + 1)) == s[7 := s[7] + 16]
  {
    var n := KeyHeader(id, kind);
    var s := U64(n);
    KeyHeaderValue(id, kind);
    KeyHeaderValue(id, kind + 1);
    hide KeyHeader;
    DecodeEncode(n, 8);
    WideEnough();
    hide FromLittleEndian, ToLittleEndian, Pow256, U64;
    ByteWeight(s, 7);
    ChangeByte(s, 7, s[7] + 16);
    EncodeDecode(s[7 := s[7] + 16]);
  }

  lemma WideEnough()
    ensures Pow256(8) == U64_LIMIT && Pow256(7) == 0x100_0000_0000_0000
  {
  }

  /** If the low byte of the id is 255, the upper bound comes before the lower one. */
  lemma NothingBetween(inode: u64, key: seq<byte>)
    requires inode % 256 == 255
    ensures !InByteRange(key, inode)
  {
    hide CompareKeys;
    var low, high := U64(DirectoryLow(inode)), U64(DirectoryHigh(inode));
    FirstByte(inode, APFS_TYPE_DIR_REC);
    BelowHigh(low, inode);
    CompareTotalOrder(low, key, high);
    CompareTotalOrder(low, high, low);
    CompareTotalOrder(key, high, low);
    FirstByte(Wrap(inode + 1), APFS_TYPE_DIR_REC);
    SuccessorByte(inode);
  }

  /** The bounds also admit keys of other kinds, such as the directory-statistics key of the same id, exactly
      when the low byte of the id is not 255; if it is, they admit no key at all. */
  lemma ForeignKey(inode: u64)
    ensures InByteRange(U64(KeyHeader(inode, 10)), inode) <==> inode % 256 != 255
    ensures inode % 256 == 255 <==> forall key :: !InByteRange(key, inode)
  {
    var low, key := U64(DirectoryLow(inode)), U64(KeyHeader(inode, 10));
    if inode % 256 == 255 {
      forall k ensures !InByteRange(k, inode) { NothingBetween(inode, k); }
    } else {
      NextKind(inode, APFS_TYPE_DIR_REC);
      assert SplitsAt(low, key, 7);
      CompareMeaning(low, key);
      FirstByte(inode, 10);
      BelowHigh(key, inode);
    }
  }
}
