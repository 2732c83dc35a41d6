/** Inode values: fixed fields, then extended fields of variable length. */
module Inodes {
  import opened Bits
  import opened Bytes
  import opened Structures

  // ---------- Extended fields ----------

  const XFIELD_HEADER := 4
  const DSTREAM_SIZE := 40

  datatype XField = XField(kind: byte, flags: byte, payload: seq<byte>)

  predicate ValidFields(fields: seq<XField>)
  {
    forall f <- fields :: |f.payload| < U16_LIMIT
  }

  predicate NoStream(fields: seq<XField>)
  {
    forall f <- fields :: f.kind != INO_EXT_TYPE_DSTREAM
  }

  function EncodeField(f: XField): (s: seq<byte>)
    requires |f.payload| < U16_LIMIT
  {
    [f.kind, f.flags] + U16(|f.payload|) + f.payload
  }

  function EncodeFields(fields: seq<XField>): seq<byte>
    requires ValidFields(fields)
  {
    if fields == [] then [] else EncodeField(fields[0]) + EncodeFields(fields[1..])
  }

  /** What the bytes at a place where a scan stops say about the size: the first word of a DSTREAM
      whose 40 bytes end before the value does, otherwise nothing. */
  function SizeAt(s: seq<byte>): u64
  {
    if |s| >= XFIELD_HEADER + DSTREAM_SIZE && s[0] == INO_EXT_TYPE_DSTREAM then U64At(s, XFIELD_HEADER) else 0
  }

  /** A place where no further field can be skipped: too short for a header, a DSTREAM, or a field
      whose payload runs past the end of the value. */
  predicate ScanStops(s: seq<byte>)
  {
    |s| < XFIELD_HEADER || s[0] == INO_EXT_TYPE_DSTREAM || XFIELD_HEADER + U16At(s, 2) > |s|
  }

  /** The size that a scan of arbitrary bytes finds. */
  function ScanSize(s: seq<byte>): u64
    decreases |s|
  {
    if ScanStops(s) then SizeAt(s) else ScanSize(s[XFIELD_HEADER + U16At(s, 2)..])
  }

  /** A step of the scan inside a larger value. */
  lemma FieldInPlace(value: seq<byte>, at: nat)
    requires at + XFIELD_HEADER <= |value|
    ensures var s, next := value[at..], at + XFIELD_HEADER + U16At(value, at + 2);
            && (value[at] != INO_EXT_TYPE_DSTREAM ==>
                  ScanSize(s) == if next <= |value| then ScanSize(value[next..]) else 0)
            && (value[at] == INO_EXT_TYPE_DSTREAM ==>
                  ScanSize(s) == if at + XFIELD_HEADER + DSTREAM_SIZE <= |value|
                                 then U64At(value, at + XFIELD_HEADER) else 0)
  {
    var s, n := value[at..], XFIELD_HEADER + U16At(value, at + 2);
    assert s[2..4] == value[at + 2..at + 4];
    if n <= |s| {
      assert s[n..] == value[at + n..];
    }
    if |s| >= XFIELD_HEADER + DSTREAM_SIZE {
      assert s[XFIELD_HEADER..XFIELD_HEADER + 8] == value[at + XFIELD_HEADER..at + XFIELD_HEADER + 8];
    }
  }

  lemma FieldHeader(f: XField, tail: seq<byte>)
    requires |f.payload| < U16_LIMIT
    ensures var s := EncodeField(f) + tail;
            && |s| >= XFIELD_HEADER
            && s[0] == f.kind
            && U16At(s, 2) == |f.payload|
            && s[XFIELD_HEADER..] == f.payload + tail
            && s[XFIELD_HEADER + |f.payload|..] == tail
  {
    var s := EncodeField(f) + tail;
    assert s == [f.kind, f.flags] + U16(|f.payload|) + (f.payload + tail);
    ReadU16([f.kind, f.flags], |f.payload|, f.payload + tail);
  }

  /** A scan skips every field that is not a DSTREAM, whatever follows. */
  lemma {:induction false} ScanSkips(fields: seq<XField>, tail: seq<byte>)
    requires ValidFields(fields) && NoStream(fields)
    ensures ScanSize(EncodeFields(fields) + tail) == ScanSize(tail)
  {
    if fields == [] {
      assert EncodeFields(fields) + tail == tail;
    } else {
      var rest := EncodeFields(fields[1..]) + tail;
      assert EncodeFields(fields) + tail == EncodeField(fields[0]) + rest;
      FieldHeader(fields[0], rest);
      ScanSkips(fields[1..], tail);
    }
  }

  /** Arbitrary bytes split into fields that are not DSTREAMs, then a place where the scan stops;
      the size is what that place says. */
  lemma {:induction false} ScanParses(s: seq<byte>) returns (fields: seq<XField>, tail: seq<byte>)
    ensures ValidFields(fields) && NoStream(fields) && ScanStops(tail)
    ensures s == EncodeFields(fields) + tail
    ensures ScanSize(s) == SizeAt(tail)
    decreases |s|
  {
    if ScanStops(s) {
      fields, tail := [], s;
    } else {
      var n := U16At(s, 2);
      var first := XField(s[0], s[1], s[XFIELD_HEADER..XFIELD_HEADER + n]);
      var more, end := ScanParses(s[XFIELD_HEADER + n..]);
      fields, tail := [first] + more, end;
      EncodeDecode(s[2..4]);
      assert fields[1..] == more;
      assert s == EncodeField(first) + s[XFIELD_HEADER + n..];
    }
  }

  /** The scan as numbers: a header is 4 bytes, type 8 decides, and its size is taken if 40 bytes follow the header. */
  lemma ScanNumbers(s: seq<byte>)
    ensures |s| < 4 ==> ScanSize(s) == 0
    ensures |s| >= 4 && s[0] == 8 ==> ScanSize(s) == if |s| >= 44 then U64At(s, 4) else 0
    ensures |s| >= 4 && s[0] != 8 ==>
              ScanSize(s) == if 4 + U16At(s, 2) <= |s| then ScanSize(s[4 + U16At(s, 2)..]) else 0
  {
  }

  /** The size that a list of extended fields declares: the first word of the first DSTREAM, 0 if none. */
  function DeclaredSize(fields: seq<XField>): u64
  {
    if fields == [] then 0
    else if fields[0].kind != INO_EXT_TYPE_DSTREAM then DeclaredSize(fields[1..])
    else if |fields[0].payload| < DSTREAM_SIZE then 0
    else U64At(fields[0].payload, 0)
  }

  /** The index of the first DSTREAM, or the length of the list. */
  function FirstStream(fields: seq<XField>): (k: nat)
    ensures k <= |fields|
    ensures NoStream(fields[..k])
    ensures k < |fields| ==> fields[k].kind == INO_EXT_TYPE_DSTREAM
  {
    if fields == [] || fields[0].kind == INO_EXT_TYPE_DSTREAM then 0
    else
      var k := FirstStream(fields[1..]);
      assert fields[..k + 1] == [fields[0]] + fields[1..][..k];
      k + 1
  }

  /** The scan compares a DSTREAM's 40 bytes with the end of the whole value, not with the length that
      the field declares; so a short DSTREAM borrows from the fields behind it. */
  function BorrowedSize(fields: seq<XField>): u64
    requires ValidFields(fields)
  {
    var k := FirstStream(fields);
    if k == |fields| then 0
    else
      var s := fields[k].payload + EncodeFields(fields[k + 1..]);
      if |s| < DSTREAM_SIZE then 0 else U64At(s, 0)
  }

  lemma {:induction false} EncodeFieldsSplit(fields: seq<XField>, k: nat)
    requires ValidFields(fields) && k <= |fields|
    ensures EncodeFields(fields) == EncodeFields(fields[..k]) + EncodeFields(fields[k..])
  {
    if k > 0 {
      hide EncodeField, U16;
      EncodeFieldsSplit(fields[1..], k - 1);
      assert fields[1..][..k - 1] == fields[..k][1..];
      assert fields[1..][k - 1..] == fields[k..];
    }
  }

  /** What the scan finds in any serialised field list. */
  lemma ScanOfEncoded(fields: seq<XField>)
    requires ValidFields(fields)
    ensures ScanSize(EncodeFields(fields)) == BorrowedSize(fields)
  {
    var k := FirstStream(fields);
    EncodeFieldsSplit(fields, k);
    ScanSkips(fields[..k], EncodeFields(fields[k..]));
    if k < |fields| {
      var rest := EncodeFields(fields[k + 1..]);
      assert fields[k..][1..] == fields[k + 1..];
      assert EncodeFields(fields[k..]) == EncodeField(fields[k]) + rest;
      FieldHeader(fields[k], rest);
      var s := EncodeFields(fields[k..]);
      if |s| >= XFIELD_HEADER + DSTREAM_SIZE {
        assert s[XFIELD_HEADER..XFIELD_HEADER + 8] == s[XFIELD_HEADER..][0..8];
      }
    }
  }

  /** Every DSTREAM carries at least its 40 bytes. */
  predicate FullStreams(fields: seq<XField>)
  {
    forall f <- fields :: f.kind == INO_EXT_TYPE_DSTREAM ==> |f.payload| >= DSTREAM_SIZE
  }

  lemma {:induction false} DeclaredAtFirst(fields: seq<XField>)
    ensures var k := FirstStream(fields);
            DeclaredSize(fields) == if k == |fields| || |fields[k].payload| < DSTREAM_SIZE then 0
                                    else U64At(fields[k].payload, 0)
  {
    if fields != [] && fields[0].kind != INO_EXT_TYPE_DSTREAM {
      DeclaredAtFirst(fields[1..]);
    }
  }

  /** The length check can tell a short first DSTREAM from a full one. */
  predicate StreamDelimited(fields: seq<XField>)
    requires ValidFields(fields)
  {
    var k := FirstStream(fields);
    k == |fields| || |fields[k].payload| >= DSTREAM_SIZE
    || |fields[k].payload| + |EncodeFields(fields[k + 1..])| < DSTREAM_SIZE
  }

  /** The first DSTREAM is delimited, or the word that the scan takes for its size is 0. */
  predicate SizeIsDeclared(fields: seq<XField>)
    requires ValidFields(fields)
  {
    StreamDelimited(fields)
    || (var k := FirstStream(fields); U64At(fields[k].payload + EncodeFields(fields[k + 1..]), 0) == 0)
  }

  /** Exactly when the scan finds the declared size. */
  lemma ScanAgreesExactly(fields: seq<XField>)
    requires ValidFields(fields)
    ensures ScanSize(EncodeFields(fields)) == DeclaredSize(fields) <==> SizeIsDeclared(fields)
  {
    ScanOfEncoded(fields);
    DeclaredAtFirst(fields);
    var k := FirstStream(fields);
    if k < |fields| && |fields[k].payload| >= DSTREAM_SIZE {
      var s := fields[k].payload + EncodeFields(fields[k + 1..]);
      assert s[0..8] == fields[k].payload[0..8];
    }
  }

  /** With full DSTREAMs the scan finds the declared size. */
  lemma ScanFindsDeclaredSize(fields: seq<XField>)
    requires ValidFields(fields) && FullStreams(fields)
    ensures ScanSize(EncodeFields(fields)) == DeclaredSize(fields)
  {
    ScanAgreesExactly(fields);
  }

  /** Without full DSTREAMs it need not: here a DSTREAM of 8 bytes declares no size, yet the scan returns 1. */
  lemma ShortStreamBorrows()
    ensures exists fields :: ValidFields(fields) && DeclaredSize(fields) == 0 && ScanSize(EncodeFields(fields)) == 1
  {
    hide ToLittleEndian, FromLittleEndian, ScanSize;
    var short := XField(INO_EXT_TYPE_DSTREAM, 0, U64(1));
    var other := XField(4, 0, Zeros(DSTREAM_SIZE));
    var fields := [short, other];
    ScanOfEncoded(fields);
    assert FirstStream(fields) == 0;
    var s := U64(1) + EncodeFields(fields[1..]);
    assert |EncodeFields(fields[1..])| >= DSTREAM_SIZE;
    ReadU64([], 1, EncodeFields(fields[1..]));
    assert s == [] + U64(1) + EncodeFields(fields[1..]);
    assert ValidFields(fields) && DeclaredSize(fields) == 0;
  }

  // ---------- Inode values ----------

  const INODE_VALUE_SIZE := 92

  /** j_inode_val_t, with the words that the reader skips kept as raw bytes. */
  datatype Inode = Inode(
    parentId: u64, privateId: u64, createTime: u64, modTime: u64,
    unread: seq<byte>, mode: u16, pad: u16, uncompressedSize: u64, fields: seq<XField>)

  const UNREAD_SIZE := 48

  predicate ValidInode(r: Inode)
  {
    |r.unread| == UNREAD_SIZE && ValidFields(r.fields)
  }

  function EncodeInode(r: Inode): (s: seq<byte>)
    requires ValidInode(r)
  {
    U64(r.parentId) + U64(r.privateId) + U64(r.createTime) + U64(r.modTime)
    + r.unread + U16(r.mode) + U16(r.pad) + U64(r.uncompressedSize) + EncodeFields(r.fields)
  }

  /** Every field of an encoded inode is found at its packed offset. */
  lemma InodeLayout(r: Inode)
    requires ValidInode(r)
    ensures var s := EncodeInode(r);
            && |s| >= INODE_VALUE_SIZE
            && U64At(s, 0) == r.parentId
            && U64At(s, 16) == r.createTime
            && U64At(s, 24) == r.modTime
            && U16At(s, 80) == r.mode
            && s[INODE_VALUE_SIZE..] == EncodeFields(r.fields)
  {
    hide U64, U16, EncodeFields;
    var s := EncodeInode(r);
    var a := U64(r.parentId) + U64(r.privateId);
    var b := U64(r.createTime) + U64(r.modTime);
    var c := r.unread + U16(r.mode);
    var d := U16(r.pad) + U64(r.uncompressedSize);
    var x := EncodeFields(r.fields);
    var m := U64(r.modTime) + c + d + x;
    assert s == a + b + c + d + x;
    assert s == [] + U64(r.parentId) + (U64(r.privateId) + b + c + d + x);
    assert s == a + U64(r.createTime) + m;
    assert s == (a + U64(r.createTime)) + U64(r.modTime) + (c + d + x);
    assert s == (a + b + r.unread) + U16(r.mode) + (d + x);
    ReadU64([], r.parentId, U64(r.privateId) + b + c + d + x);
    ReadU64(a, r.createTime, m);
    ReadU64(a + U64(r.createTime), r.modTime, c + d + x);
    ReadU16(a + b + r.unread, r.mode, d + x);
  }

  // ---------- Decoded metadata ----------

  datatype FileInfo = FileInfo(
    inode: u64, name: seq<byte>, size: u64, createTime: u64, modTime: u64, mode: u16,
    isDirectory: bool, parentId: u64)

  /** What an inode value says, asked for under the given inode number; a value that is too short says nothing. */
  function DecodeInode(inode: u64, name: seq<byte>, value: seq<byte>): Option<FileInfo>
  {
    if |value| < INODE_VALUE_SIZE then None
    else
      var mode := U16At(value, 80);
      Some(FileInfo(inode, name, ScanSize(value[INODE_VALUE_SIZE..]), U64At(value, 16), U64At(value, 24), mode,
                    And(mode, S_IFMT) == S_IFDIR, U64At(value, 0)))
  }

  /** The metadata of an inode record, with no reference to its layout or to masks; the size is the one that
      the scan takes, which is the declared one for full DSTREAMs. */
  function InfoOf(inode: u64, name: seq<byte>, r: Inode): FileInfo
    requires ValidInode(r)
  {
    FileInfo(inode, name, BorrowedSize(r.fields), r.createTime, r.modTime, r.mode, r.mode / 4096 == 4, r.parentId)
  }

  lemma FormatBits(mode: u16)
    ensures And(mode, S_IFMT) == S_IFDIR <==> mode / 4096 == 4
  {
    hide And;
    assert Pow2(12) == 4096 && Pow2(4) == 16;
    assert S_IFMT == Mask(12, 4);
    AndField(mode, 12, 4);
  }

  /** Decoding an encoded inode gives the record's metadata. */
  lemma InodeRoundTrip(inode: u64, name: seq<byte>, r: Inode)
    requires ValidInode(r)
    ensures DecodeInode(inode, name, EncodeInode(r)) == Some(InfoOf(inode, name, r))
    ensures InfoOf(inode, name, r).size == DeclaredSize(r.fields) <==> SizeIsDeclared(r.fields)
    ensures FullStreams(r.fields) ==> SizeIsDeclared(r.fields)
  {
    InodeLayout(r);
    ScanOfEncoded(r.fields);
    FormatBits(r.mode);
    ScanAgreesExactly(r.fields);
  }
}
