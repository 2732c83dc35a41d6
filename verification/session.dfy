/** From a device to an opened volume: the start of the program. */
module Session {
  import opened Bits
  import opened Bytes
  import opened Structures
  import opened Disk
  import opened Superblocks
  import opened Inodes
  import opened Nodes
  import opened FileSystem
  import opened FileReads
  import opened Catalogs
  import opened Images
  import opened Refusals
  import opened StoredFiles
  import opened Paths
  import opened VolumeCache
  import opened Directories
  import opened Apfs

  /** What reads see once a device is open. */
  function Opened(device: Device): DiskView
    requires DiskSizeOf(device).Some?
  {
    DiskView(true, DiskSizeOf(device).value, device.content, device.unreadable)
  }

  /** The volume that a device holds under an index, found without any object. */
  function VolumeOn(device: Device, index: nat): Option<VolumeState>
    requires DiskSizeOf(device).Some? ==> UsableBlocks(Opened(device))
  {
    if DiskSizeOf(device).None? then None
    else
      var d := Opened(device);
      match FindContainer(d)
      case None => None
      case Some(c) =>
        if Named(c.superblock.fsOid, index) then FindVolume(d, c.superblock.blockSize, c.superblock.fsOid[index])
        else None
  }

  /** Opening succeeds exactly when the device holds such a volume; the object then is in its state. */
  method OpenVolume(device: Device, index: nat) returns (volume: Volume?)
    requires DiskSizeOf(device).Some? ==> UsableBlocks(Opened(device))
    ensures volume != null <==> VolumeOn(device, index).Some?
    ensures volume != null ==>
              && device.Device? && (device.geometry.Some? || device.fileSize.Some?) && index < 100
              && |device.content| >= 4096 && device.content[32..36] == [0x4e, 0x58, 0x53, 0x42]
    ensures volume != null ==>
              && volume.container.Usable() && volume.container.disk.View() == Opened(device)
              && FindContainer(Opened(device)).Some?
              && volume.container.blockSize == FindContainer(Opened(device)).value.superblock.blockSize
              && volume.Holds(VolumeOn(device, index).value)
  {
    hide FindVolume, FindSuperblock, ReadOne, OpenStep, HandlesBalanced;
    var disk := new DiskReader();
    var ok := disk.OpenDisk(device);
    if !ok {
      return null;
    }
    assert disk.View() == Opened(device);
    var container := new Container(disk);
    ok := container.Init();
    if !ok {
      return null;
    }
    ghost var made;
    volume, made := container.GetVolume(index);
  }

  /** A device that holds exactly the content, refuses no read, and states its size: a disk by its geometry, an
      image file by the length of the file. */
  ghost predicate Carries(device: Device, content: seq<byte>)
  {
    && device.Device? && device.content == content && device.unreadable == NEVER
    && (if device.geometry.Some? then device.geometry == Some(|content|) else device.fileSize == Some(|content|))
  }

  /** A disk and an image file that carry a content. */
  lemma DiskAndFile(content: seq<byte>)
    requires |content| < SIGNED_LIMIT
    ensures Carries(Device(Some(|content|), None, content, NEVER), content)
    ensures Carries(Device(None, Some(|content|), content, NEVER), content)
  {
  }

  /** Opening a formatted disk or image file yields a volume whose root node stores the records. */
  method OpenFormatted(device: Device, bs: FormatSize, count: u64, oids: seq<u64>, f: NodeFrame, rs: seq<Record>,
                       data: seq<byte>, index: nat)
    returns (volume: Volume)
    requires |oids| == NX_MAX_FILE_SYSTEMS && FillsBlock(f, rs, bs)
    requires META_BLOCKS * bs + |data| < SIGNED_LIMIT && Carries(device, Format(bs, count, oids, f, rs, data))
    requires index < NX_MAX_FILE_SYSTEMS && oids[index] == VOLUME_BLOCK
    ensures volume.Ready() && volume.rootTree.rootOid == ROOT_BLOCK && volume.container.blockSize == bs
    ensures volume.container.disk.View() == Healthy(Format(bs, count, oids, f, rs, data))
    ensures StoresRecords(volume.container.disk.View(), bs, ROOT_BLOCK, rs)
  {
    FormattedOpens(bs, count, oids, f, rs, data);
    assert Opened(device) == Healthy(device.content);
    hide Format, FindVolume, StoresRecords;
    var candidate := OpenVolume(device, index);
    volume := candidate;
    StoredRootIsSound(volume.container.disk.View(), bs, ROOT_BLOCK, rs);
  }

  lemma StoredRootIsSound(d: DiskView, bs: BlockSize, root: u64, rs: seq<Record>)
    requires StoresRecords(d, bs, root, rs)
    ensures SoundRoot(d, bs, root)
  {
  }

  /** The whole chain on a formatted device: open it, pick the volume, ask for an inode. The answer is the
      metadata of the first record stored under the masked id, or a failure if there is none. */
  method StatFormatted(device: Device, bs: FormatSize, count: u64, oids: seq<u64>, f: NodeFrame, rs: seq<Record>,
                       data: seq<byte>, index: nat, inode: u64, previous: FileInfo) returns (ok: bool, info: FileInfo)
    requires |oids| == NX_MAX_FILE_SYSTEMS && FillsBlock(f, rs, bs)
    requires META_BLOCKS * bs + |data| < SIGNED_LIMIT && Carries(device, Format(bs, count, oids, f, rs, data))
    requires index < NX_MAX_FILE_SYSTEMS && oids[index] == VOLUME_BLOCK
    ensures var r := InodeOf(rs, inode % ID_LIMIT);
            && ok == r.Some?
            && (ok ==> info.inode == inode && info.name == previous.name && info.parentId == r.value.parentId
                       && info.createTime == r.value.createTime && info.modTime == r.value.modTime
                       && info.mode == r.value.mode && (info.isDirectory <==> r.value.mode / 4096 == 4))
            && info == (if ok then InfoOf(inode, previous.name, r.value) else previous)
            && (ok ==> (info.size == DeclaredSize(r.value.fields) <==> SizeIsDeclared(r.value.fields)))
            && (ok && FullStreams(r.value.fields) ==> SizeIsDeclared(r.value.fields))
  {
    var volume := OpenFormatted(device, bs, count, oids, f, rs, data, index);
    MetadataOfRecords(volume.container.disk.View(), bs, ROOT_BLOCK, rs, inode, previous.name);
    hide InfoAt, StoresRecords, Format, Healthy, SoundRoot;
    ok, info := volume.GetFileInfo(inode, previous);
  }

  /** The same chain for the contents of a file: the read of the image, as the theorems on images describe it. */
  method ReadFormatted(device: Device, v: Formatting, data: seq<byte>, index: nat, inode: u64, offset: u64,
                       buffer: array<byte>, size: u64)
    returns (ok: bool, bytesRead: u64)
    requires ValidFormatting(v) && Room(v, data) && Carries(device, ImageOf(v, data).content)
    requires index < NX_MAX_FILE_SYSTEMS && v.oids[index] == VOLUME_BLOCK
    requires size <= buffer.Length && size <= MEMORY_LIMIT
    modifies buffer
    ensures var r := ReadImage(v, data, AsWritten, inode, offset, size);
            && ok == r.Some? && bytesRead == (if ok then |r.value| else 0)
            && buffer[..] == if ok then Overwrite(old(buffer[..]), r.value) else old(buffer[..])
    ensures forall fileSize: u64 | IsFile(v.rs, inode, fileSize) && offset >= fileSize ::
              ok && bytesRead == 0 && buffer[..] == old(buffer[..])
  {
    hide FileBytes, StoresRecords, Format, Healthy, SoundRoot, ValidFormatting, ImageOf, FillsBlock, IsFile, ReadImage,
         Carries;
    ImageIs(v, data);
    ghost var before := buffer[..];
    var volume := OpenFormatted(device, v.bs, v.count, v.oids, v.f, v.rs, data, index);
    assert buffer[..] == before;
    ok, bytesRead := volume.ReadFile(inode, offset, buffer, size);
    ReadsOf(v, data, AsWritten, inode, offset, size);
    forall fileSize: u64 | IsFile(v.rs, inode, fileSize) && offset >= fileSize
      ensures ReadImage(v, data, AsWritten, inode, offset, size) == Some([])
    {
      ImageReadAtEnd(v, data, AsWritten, inode, fileSize, offset, size);
    }
    OverwriteNothing(before);
  }

  /** The same chain for a path, with any range query that honours its bounds: the root itself, or the walk
      through the volume's own directories. */
  method FindFormatted(device: Device, bs: FormatSize, count: u64, oids: seq<u64>, f: NodeFrame, rs: seq<Record>,
                       data: seq<byte>, index: nat, path: Path, query: RangeQuery, previous: FileInfo)
    returns (ok: bool, info: FileInfo)
    requires |oids| == NX_MAX_FILE_SYSTEMS && FillsBlock(f, rs, bs)
    requires META_BLOCKS * bs + |data| < SIGNED_LIMIT && Carries(device, Format(bs, count, oids, f, rs, data))
    requires index < NX_MAX_FILE_SYSTEMS && oids[index] == VOLUME_BLOCK
    requires Honours(query, EncodeRecords(rs))
    ensures path == [] || path == [SLASH] ==>
              var r := InodeOf(rs, 2);
              ok == r.Some? && info == if ok then InfoOf(2, previous.name, r.value) else previous
    ensures path != [] && path != [SLASH] ==>
              var w := Walk(ListerOf(rs), Walker(true, 2, previous), Components(path));
              ok == w.arrived && info == w.info
  {
    var volume := OpenFormatted(device, bs, count, oids, f, rs, data, index);
    ListingOfRecords(volume.container.disk.View(), bs, ROOT_BLOCK, rs, query);
    MetadataOfRecords(volume.container.disk.View(), bs, ROOT_BLOCK, rs, ROOT_INODE, previous.name);
    hide Listing, StoresRecords, Format, Healthy, SoundRoot, SoundQuery, InfoAt;
    ok, info := volume.LookupPath(path, query, previous);
    WalkExtensional(volume.Directories(query), ListerOf(rs), Walker(true, ROOT_INODE, previous), Components(path));
  }

  /** With the range query as the C++ has it, on any volume, every path but the root's own two spellings is
      found if and only if it has no components, and the caller's record is then left as it was. */
  method FindWithStub(volume: Volume, path: Path, previous: FileInfo) returns (ok: bool, info: FileInfo)
    requires volume.Ready() && path != [] && path != [SLASH]
    ensures ok <==> Components(path) == []
    ensures info == previous
  {
    StubListings(volume.container.disk.View(), volume.container.blockSize, volume.rootTree.rootOid);
    hide Listing, SoundRoot, SoundQuery;
    ok, info := volume.LookupPath(path, STUB_QUERY, previous);
    EmptyListings(volume.Directories(STUB_QUERY), Walker(true, ROOT_INODE, previous), Components(path));
  }

  /** The stub makes every directory list as empty. */
  lemma StubListings(d: DiskView, bs: BlockSize, root: u64)
    requires SoundRoot(d, bs, root)
    ensures SoundQuery(STUB_QUERY)
    ensures forall inode: u64 :: Listing(d, bs, root, STUB_QUERY, inode) == Some([])
  {
  }

  /** What an answer means, given the table of the container and its disk: it is null exactly when the index
      names no volume or the volume cannot be opened, and otherwise it is what the table holds for the index. */
  predicate Answered(d: DiskView, bs: BlockSize, oids: seq<u64>, slots: Slots<Volume>, index: nat, volume: Volume?)
  {
    && (volume != null <==> index < 100 && index < |oids| && oids[index] != 0 && FindVolume(d, bs, oids[index]).Some?)
    && (volume != null ==> Slot(slots, index) == Some(volume))
  }

  /** One more request, to a container whose table the requests so far have given. */
  method RequestVolume(c: Container, index: nat, ghost rs: seq<Request<Volume>>)
    returns (volume: Volume?, ghost r: Request<Volume>)
    requires c.Valid() && c.Table() == Run(c.superblock.fsOid, rs)
    modifies c
    ensures c.Valid() && c.superblock == old(c.superblock) && c.blockSize == old(c.blockSize)
    ensures r.index == index && c.Table() == Run(c.superblock.fsOid, rs + [r])
    ensures forall i: nat | Slot(old(c.Table()), i).Some? :: Slot(c.Table(), i) == Slot(old(c.Table()), i)
    ensures Answered(c.disk.View(), c.blockSize, c.superblock.fsOid, c.Table(), index, volume)
  {
    hide FindVolume, AfterRequest, Answer, Run, Slot, Named;
    ghost var before := c.Table();
    ghost var made;
    volume, made := c.GetVolume(index);
    r := Request(index, made);
    RunNext(c.superblock.fsOid, rs, r);
    forall i: nat | Slot(before, i).Some? ensures Slot(c.Table(), i) == Slot(before, i)
    {
      SlotsStay(before, c.superblock.fsOid, r, i);
    }
    SlotsStay(before, c.superblock.fsOid, r, index);
  }

  /** What a valid container holds for an index is in the state of uncached construction. */
  lemma HeldProperly(c: Container, index: nat, volume: Volume)
    requires c.Valid() && Slot(c.Table(), index) == Some(volume)
    ensures c.CachedProperly(volume, index)
  {
  }

  /** Any sequence of requests for volumes of a container that has none cached yet. The table is the one that
      the requests give; an answer is null exactly when the index names no volume or the volume cannot be
      opened; any other answer is the volume that the table holds for the index from then on, in the state of
      uncached construction; and there are no more cached volumes than the container counts. */
  method RequestVolumes(c: Container, indices: seq<nat>) returns (answers: seq<Volume?>, ghost rs: seq<Request<Volume>>)
    requires c.Valid() && c.volumes == []
    modifies c
    ensures c.Valid() && c.superblock == old(c.superblock) && c.blockSize == old(c.blockSize)
    ensures |answers| == |rs| == |indices| && forall k | 0 <= k < |rs| :: rs[k].index == indices[k]
    ensures c.Table() == Run(c.superblock.fsOid, rs)
    ensures forall k | 0 <= k < |answers| ::
              && Answered(c.disk.View(), c.blockSize, c.superblock.fsOid, c.Table(), indices[k], answers[k])
              && (answers[k] != null ==> c.CachedProperly(answers[k], indices[k]))
    ensures |FilledIndices(c.Table())| <= |NamedIndices(c.superblock.fsOid)|
  {
    answers, rs := [], [];
    ghost var oids, bs, d := c.superblock.fsOid, c.blockSize, c.disk.View();
    for i := 0 to |indices|
      invariant c.Valid() && c.superblock == old(c.superblock) && c.blockSize == bs
      invariant |answers| == |rs| == i && forall k | 0 <= k < i :: rs[k].index == indices[k]
      invariant c.Table() == Run(oids, rs)
      invariant forall k | 0 <= k < i :: Answered(d, bs, oids, c.Table(), indices[k], answers[k])
    {
      hide FindVolume, Run, Slot, Named;
      var volume;
      ghost var r;
      volume, r := RequestVolume(c, indices[i], rs);
      answers, rs := answers + [volume], rs + [r];
    }
    hide FindVolume, Run, Slot, Named;
    forall k | 0 <= k < |answers| && answers[k] != null ensures c.CachedProperly(answers[k], indices[k])
    {
      HeldProperly(c, indices[k], answers[k]);
    }
    CachedAtMostNamed(oids, rs);
  }
}
