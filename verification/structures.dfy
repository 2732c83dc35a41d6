/** Constants of the on-disk format, and the keys of the file-system tree. */
module Structures {
  import opened Bits
  import opened Bytes

  datatype Option<+T> = None | Some(value: T)

  const APFS_BLOCK_SIZE := 4096
  const NX_MAGIC: u32 := 0x4253584e
  const APFS_MAGIC: u32 := 0x42535041
  const NX_MAX_FILE_SYSTEMS := 100

  const OBJECT_TYPE_BTREE := 2
  const OBJECT_TYPE_BTREE_NODE := 3

  const APFS_TYPE_INODE := 3
  const APFS_TYPE_FILE_EXTENT := 8
  const APFS_TYPE_DIR_REC := 9

  const S_IFMT: u16 := 0xF000
  const S_IFDIR: u16 := 0x4000

  const INO_EXT_TYPE_DSTREAM := 8

  const ROOT_INODE: u64 := 2

  // ---------- Keys ----------

  const OBJ_ID_MASK: u64 := 0x0fff_ffff_ffff_ffff
  const OBJ_TYPE_MASK: u64 := 0xf000_0000_0000_0000
  const OBJ_TYPE_SHIFT := 60
  const ID_LIMIT := 0x1000_0000_0000_0000

  type KeyType = t: nat | t < 16

  lemma Pow2Sixty()
    ensures Pow2(60) == ID_LIMIT && Pow2(4) == 16
  {
    assert Pow2(4) == 16 && Pow2(12) == 4096;
    Pow2Sum(12, 12);
    Pow2Sum(24, 24);
    Pow2Sum(48, 12);
  }

  lemma MasksAreFields()
    ensures Pow2(OBJ_TYPE_SHIFT) == ID_LIMIT && Pow2(4) == 16
    ensures OBJ_ID_MASK == Mask(0, 60) && OBJ_TYPE_MASK == Mask(60, 4)
  {
    Pow2Sixty();
  }

  lemma IdBits(w: u64)
    ensures And(w, OBJ_ID_MASK) == w % ID_LIMIT
  {
    hide And;
    MasksAreFields();
    AndLowBits(w, 60);
  }

  lemma TypeBits(kind: KeyType)
    ensures ShiftLeft(kind, OBJ_TYPE_SHIFT) == kind * ID_LIMIT
  {
    Pow2Sixty();
  }

  lemma OrHeader(low: nat, kind: KeyType)
    requires low < ID_LIMIT
    ensures Or(low, kind * ID_LIMIT) == low + kind * ID_LIMIT
  {
    Pow2Sixty();
    OrDisjoint(low, kind, 60);
  }

  lemma HeaderValue(id: u64, kind: KeyType)
    ensures And(id, OBJ_ID_MASK) == id % ID_LIMIT
    ensures Or(And(id, OBJ_ID_MASK), ShiftLeft(kind, OBJ_TYPE_SHIFT)) == id % ID_LIMIT + kind * ID_LIMIT
  {
    IdBits(id);
    TypeBits(kind);
    OrHeader(id % ID_LIMIT, kind);
  }

  /** The word obj_id_and_type that the reader builds for a lookup. */
  function KeyHeader(id: u64, kind: KeyType): u64
  {
    HeaderValue(id, kind);
    Or(And(id, OBJ_ID_MASK), ShiftLeft(kind, OBJ_TYPE_SHIFT))
  }

  function ObjId(header: u64): nat
  {
    And(header, OBJ_ID_MASK)
  }

  function ObjType(header: u64): nat
  {
    ShiftRight(And(header, OBJ_TYPE_MASK), OBJ_TYPE_SHIFT)
  }

  lemma KeyHeaderValue(id: u64, kind: KeyType)
    ensures KeyHeader(id, kind) == id % ID_LIMIT + kind * ID_LIMIT
  {
    HeaderValue(id, kind);
  }

  lemma SplitWord(h: nat, low: nat, high: nat)
    requires low < ID_LIMIT
    ensures h == low + high * ID_LIMIT <==> h % ID_LIMIT == low && h / ID_LIMIT == high
  {
  }

  lemma HeaderParts(h: u64)
    ensures ObjId(h) == h % ID_LIMIT && ObjType(h) == h / ID_LIMIT < 16
  {
    IdBits(h);
    TypeField(h);
    ShiftRightDivides(And(h, OBJ_TYPE_MASK), OBJ_TYPE_SHIFT);
    Pow2Sixty();
  }

  lemma TypeField(h: u64)
    ensures And(h, OBJ_TYPE_MASK) == h / ID_LIMIT * ID_LIMIT
  {
    hide And;
    MasksAreFields();
    AndField(h, 60, 4);
  }

  /** Packing and unpacking are inverse: exactly one header has a given id and type. */
  lemma HeaderPackUnpack(h: u64, id: u64, kind: KeyType)
    ensures h == KeyHeader(id, kind) <==> ObjId(h) == id % ID_LIMIT && ObjType(h) == kind
  {
    KeyHeaderValue(id, kind);
    HeaderParts(h);
    SplitWord(h, id % ID_LIMIT, kind);
  }

  /** The 8 bytes of the j_key_t that looks an inode up. */
  function InodeKey(inode: u64): (key: seq<byte>)
    ensures |key| == 8
  {
    U64(KeyHeader(inode, APFS_TYPE_INODE))
  }

  /** The 16 bytes of the j_file_extent_key_t that looks a file extent up. */
  function ExtentKey(inode: u64, logicalAddr: u64): (key: seq<byte>)
    ensures |key| == 16
  {
    U64(KeyHeader(inode, APFS_TYPE_FILE_EXTENT)) + U64(logicalAddr)
  }

  /** The bounds that a directory listing asks for: DIR_REC keys of this id up to the next id. */
  function DirectoryLow(inode: u64): u64
  {
    KeyHeader(inode, APFS_TYPE_DIR_REC)
  }

  function DirectoryHigh(inode: u64): u64
  {
    KeyHeader(Wrap(inode + 1), APFS_TYPE_DIR_REC)
  }

  /** The keys as numbers: the id in the low 60 bits and type 3, 8 or 9 in the high four. */
  lemma KeyNumbers(id: u64, offset: u64)
    ensures InodeKey(id) == U64(id % 0x1000_0000_0000_0000 + 0x3000_0000_0000_0000)
    ensures ExtentKey(id, offset) == U64(id % 0x1000_0000_0000_0000 + 0x8000_0000_0000_0000) + U64(offset)
    ensures DirectoryLow(id) == id % 0x1000_0000_0000_0000 + 0x9000_0000_0000_0000
    ensures DirectoryHigh(id) == (id + 1) % 0x1000_0000_0000_0000 + 0x9000_0000_0000_0000
  {
    hide KeyHeader, U64;
    KeyHeaderValue(id, APFS_TYPE_INODE);
    KeyHeaderValue(id, APFS_TYPE_FILE_EXTENT);
    KeyHeaderValue(id, APFS_TYPE_DIR_REC);
    KeyHeaderValue(Wrap(id + 1), APFS_TYPE_DIR_REC);
    assert Wrap(id + 1) % ID_LIMIT == (id + 1) % ID_LIMIT;
  }

  /** An inode lookup matches the 8-byte INODE key of that id and no other byte string. */
  lemma InodeKeySeparates(key: seq<byte>, inode: u64)
    ensures key == InodeKey(inode) <==>
            |key| == 8 && ObjId(U64At(key, 0)) == inode % ID_LIMIT && ObjType(U64At(key, 0)) == APFS_TYPE_INODE
  {
    if |key| == 8 {
      U64Bijection(key, KeyHeader(inode, APFS_TYPE_INODE));
      HeaderPackUnpack(U64At(key, 0), inode, APFS_TYPE_INODE);
    }
  }

  /** An extent lookup matches the 16-byte FILE_EXTENT key of that id and offset and no other byte string. */
  lemma ExtentKeySeparates(key: seq<byte>, inode: u64, logicalAddr: u64)
    ensures key == ExtentKey(inode, logicalAddr) <==>
            |key| == 16 && ObjId(U64At(key, 0)) == inode % ID_LIMIT
            && ObjType(U64At(key, 0)) == APFS_TYPE_FILE_EXTENT && U64At(key, 8) == logicalAddr
  {
    if |key| == 16 {
      assert key == key[..8] + key[8..];
      assert key[0..8] == key[..8][0..8] && key[8..16] == key[8..][0..8];
      U64Bijection(key[..8], KeyHeader(inode, APFS_TYPE_FILE_EXTENT));
      U64Bijection(key[8..], logicalAddr);
      HeaderPackUnpack(U64At(key, 0), inode, APFS_TYPE_FILE_EXTENT);
      var expected := ExtentKey(inode, logicalAddr);
      assert expected[..8] == U64(KeyHeader(inode, APFS_TYPE_FILE_EXTENT)) && expected[8..] == U64(logicalAddr);
    }
  }

  lemma SuccessorId(inode: u64)
    ensures Wrap(inode + 1) % ID_LIMIT == if inode % ID_LIMIT == ID_LIMIT - 1 then 0 else inode % ID_LIMIT + 1
  {
  }

  /** Between its two bounds, a directory listing asks for exactly the DIR_REC header of the id, as numbers;
      at the largest id the successor wraps and the interval is empty. */
  lemma DirectoryBoundsExact(inode: u64, h: u64)
    ensures DirectoryLow(inode) <= h < DirectoryHigh(inode) <==>
            inode % ID_LIMIT != ID_LIMIT - 1 && ObjId(h) == inode % ID_LIMIT && ObjType(h) == APFS_TYPE_DIR_REC
  {
    HeaderPackUnpack(h, inode, APFS_TYPE_DIR_REC);
    KeyHeaderValue(inode, APFS_TYPE_DIR_REC);
    KeyHeaderValue(Wrap(inode + 1), APFS_TYPE_DIR_REC);
    SuccessorId(inode);
  }
}
