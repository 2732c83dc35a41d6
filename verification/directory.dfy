/** Directories of abstract volumes, and the listings that an exact range query yields for them. */
module Directories {
  import opened Bits
  import opened Bytes
  import opened Structures
  import opened Inodes
  import opened Nodes
  import opened Disk
  import opened Superblocks
  import opened FileSystem
  import opened Catalogs
  import opened Paths

  /** The entry's header lies between the bounds. */
  predicate HeaderBetween(e: Entry, low: u64, high: u64)
  {
    |e.key| >= 8 && low <= U64At(e.key, 0) < high
  }

  /** The entries between the bounds, in order. */
  function EntriesBetween(es: seq<Entry>, low: u64, high: u64): seq<Entry>
  {
    if es == [] then []
    else
      var last := es[|es| - 1];
      EntriesBetween(es[..|es| - 1], low, high) + (if HeaderBetween(last, low, high) then [last] else [])
  }

  lemma EntriesBetweenNext(es: seq<Entry>, k: nat, low: u64, high: u64)
    requires k < |es|
    ensures EntriesBetween(es[..k + 1], low, high)
            == EntriesBetween(es[..k], low, high) + if HeaderBetween(es[k], low, high) then [es[k]] else []
  {
    assert es[..k + 1][..k] == es[..k];
  }

  /** The range query returns exactly the entries between its bounds, as numbers. */
  ghost predicate Honours(query: RangeQuery, es: seq<Entry>)
  {
    forall low: u64, high: u64 :: query(low, high) == Some(EntriesBetween(es, low, high))
  }

  /** The file that a directory record names, if it belongs to the directory and an inode is stored for it. */
  function ChildRecord(all: seq<Record>, r: Record, id: nat): Option<FileInfo>
    requires ValidRecords(all)
  {
    if r.DirectoryRecord? && r.id == id then
      match InodeOf(all, r.fileId % ID_LIMIT)
      case None => None
      case Some(inode) => Some(InfoOf(r.fileId, r.name, inode))
    else None
  }

  /** The contents of a directory of the volume, in order. */
  function DirectoryOf(all: seq<Record>, rs: seq<Record>, id: nat): seq<FileInfo>
    requires ValidRecords(all)
  {
    if rs == [] then []
    else
      var child := ChildRecord(all, rs[|rs| - 1], id);
      DirectoryOf(all, rs[..|rs| - 1], id) + (if child.Some? then [child.value] else [])
  }

  lemma DirectoryOfNext(all: seq<Record>, rs: seq<Record>, k: nat, id: nat)
    requires ValidRecords(all) && k < |rs|
    ensures var child := ChildRecord(all, rs[k], id);
            DirectoryOf(all, rs[..k + 1], id)
            == DirectoryOf(all, rs[..k], id) + if child.Some? then [child.value] else []
  {
    assert rs[..k + 1][..k] == rs[..k];
  }

  /** What every directory of the volume lists: its contents; the largest id cannot be asked for. */
  function ListerOf(rs: seq<Record>): Lister
    requires ValidRecords(rs)
  {
    (inode: u64) =>
      var id := inode % ID_LIMIT;
      Some(if id == ID_LIMIT - 1 then [] else DirectoryOf(rs, rs, id))
  }

  lemma {:induction false} EncodedAt(rs: seq<Record>, i: nat)
    requires ValidRecords(rs) && i < |rs|
    ensures EncodeRecords(rs)[i] == EncodeRecord(rs[i])
  {
    if i > 0 {
      EncodedAt(rs[1..], i - 1);
    }
  }

  /** Between the bounds of a directory lie exactly its own directory records. */
  lemma BetweenBounds(r: Record, inode: u64)
    requires ValidRecord(r)
    ensures HeaderBetween(EncodeRecord(r), DirectoryLow(inode), DirectoryHigh(inode)) <==>
            inode % ID_LIMIT != ID_LIMIT - 1 && r.DirectoryRecord? && r.id == inode % ID_LIMIT
  {
    hide DirectoryLow, DirectoryHigh, ObjId, ObjType;
    RecordHeader(r);
    hide EncodeRecord;
    DirectoryBoundsExact(inode, U64At(EncodeRecord(r).key, 0));
  }

  lemma RecordFields(r: Record)
    requires ValidRecord(r) && r.DirectoryRecord?
    ensures var e := EncodeRecord(r);
            SoundRecord(e) && IsRecord(e) && RecordName(e) == r.name && U64At(e.value, 0) == r.fileId
  {
    hide U16, U64, KeyHeader;
    var e := EncodeRecord(r);
    var header := U64(KeyHeader(r.id, APFS_TYPE_DIR_REC));
    assert e.key == header + U16(|r.name|) + r.name;
    ReadU16(header, |r.name|, r.name);
    assert e.key[DREC_KEY_SIZE..DREC_KEY_SIZE + |r.name|] == r.name;
    assert e.value == [] + U64(r.fileId) + (U64(r.dateAdded) + U16(r.flags));
    ReadU64([], r.fileId, U64(r.dateAdded) + U16(r.flags));
  }

  lemma ChildOfRecord(d: DiskView, bs: BlockSize, root: u64, rs: seq<Record>, r: Record)
    requires StoresRecords(d, bs, root, rs) && ValidRecord(r) && r.DirectoryRecord?
    ensures SoundRecord(EncodeRecord(r))
    ensures ChildOf(d, bs, root, EncodeRecord(r)) == ChildRecord(rs, r, r.id)
  {
    RecordFields(r);
    hide EncodeRecord, InfoAt, InfoOf;
    MetadataOfRecords(d, bs, root, rs, r.fileId, r.name);
  }

  lemma ChildrenAppend(d: DiskView, bs: BlockSize, root: u64, es: seq<Entry>, e: Entry)
    requires SoundRoot(d, bs, root) && SoundRecords(es) && SoundRecord(e)
    ensures SoundRecords(es + [e])
    ensures var c := ChildOf(d, bs, root, e);
            Children(d, bs, root, es + [e]) == Children(d, bs, root, es) + (if c.Some? then [c.value] else [])
  {
    hide SoundRecord, ChildOf;
    assert (es + [e])[..|es|] == es;
  }

  /** What one more record adds to a listing. */
  lemma ListedRecord(d: DiskView, bs: BlockSize, root: u64, rs: seq<Record>, inode: u64, es: seq<Entry>, r: Record)
    requires StoresRecords(d, bs, root, rs) && ValidRecord(r) && SoundRecords(es)
    ensures var id := inode % ID_LIMIT;
            var listed := HeaderBetween(EncodeRecord(r), DirectoryLow(inode), DirectoryHigh(inode));
            var more := es + if listed then [EncodeRecord(r)] else [];
            var child := if id == ID_LIMIT - 1 then None else ChildRecord(rs, r, id);
            && SoundRecords(more)
            && Children(d, bs, root, more) == Children(d, bs, root, es) + if child.Some? then [child.value] else []
  {
    assert ValidRecords(rs) && SoundRoot(d, bs, root);
    hide EncodeRecord, DirectoryLow, DirectoryHigh, HeaderBetween, SoundRecord, ChildOf, Children, StoresRecords,
         InodeOf, SoundRecords, SoundRoot;
    BetweenBounds(r, inode);
    assert es + [] == es && Children(d, bs, root, es) + [] == Children(d, bs, root, es);
    if r.DirectoryRecord? {
      ChildOfRecord(d, bs, root, rs, r);
      ChildrenAppend(d, bs, root, es, EncodeRecord(r));
    }
  }

  lemma {:induction false} ListedRecords(d: DiskView, bs: BlockSize, root: u64, rs: seq<Record>, inode: u64, k: nat)
    requires StoresRecords(d, bs, root, rs) && k <= |rs|
    ensures var es := EntriesBetween(EncodeRecords(rs)[..k], DirectoryLow(inode), DirectoryHigh(inode));
            && SoundRecords(es)
            && Children(d, bs, root, es)
               == if inode % ID_LIMIT == ID_LIMIT - 1 then [] else DirectoryOf(rs, rs[..k], inode % ID_LIMIT)
  {
    if k > 0 {
      assert ValidRecords(rs) && ValidRecord(rs[k - 1]);
      ListedRecords(d, bs, root, rs, inode, k - 1);
      EncodedAt(rs, k - 1);
      EntriesBetweenNext(EncodeRecords(rs), k - 1, DirectoryLow(inode), DirectoryHigh(inode));
      DirectoryOfNext(rs, rs, k - 1, inode % ID_LIMIT);
      hide EncodeRecords, EncodeRecord, DirectoryLow, DirectoryHigh, HeaderBetween, SoundRecords, ChildRecord, Children,
           StoresRecords, ValidRecords, EntriesBetween, DirectoryOf;
      ListedRecord(d, bs, root, rs, inode,
                   EntriesBetween(EncodeRecords(rs)[..k - 1], DirectoryLow(inode), DirectoryHigh(inode)), rs[k - 1]);
    }
  }

  /** With a range query that honours its bounds, every directory of a stored volume lists its contents, with
      their metadata and under their names; the largest id lists nothing. */
  lemma ListingOfRecords(d: DiskView, bs: BlockSize, root: u64, rs: seq<Record>, query: RangeQuery)
    requires StoresRecords(d, bs, root, rs) && Honours(query, EncodeRecords(rs))
    ensures SoundQuery(query)
    ensures forall inode: u64 :: Listing(d, bs, root, query, inode) == ListerOf(rs)(inode)
  {
    var es := EncodeRecords(rs);
    assert es[..|es|] == es && rs[..|rs|] == rs;
    assert ValidRecords(rs);
    hide Children, DirectoryOf, DirectoryLow, DirectoryHigh, EncodeRecords, StoresRecords, EntriesBetween;
    forall inode: u64
      ensures query(DirectoryLow(inode), DirectoryHigh(inode))
              == Some(EntriesBetween(es, DirectoryLow(inode), DirectoryHigh(inode)))
      ensures SoundRecords(EntriesBetween(es, DirectoryLow(inode), DirectoryHigh(inode)))
      ensures Some(Children(d, bs, root, EntriesBetween(es, DirectoryLow(inode), DirectoryHigh(inode))))
              == ListerOf(rs)(inode)
    {
      ListedRecords(d, bs, root, rs, inode, |rs|);
    }
  }
}
