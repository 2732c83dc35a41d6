/** The file-system driver side: metadata conversion, and mounting and unmounting. */
module WinFsp {
  import opened Bits
  import opened Structures
  import opened Inodes
  import opened Ledgers

  // ---------- Metadata conversion ----------

  const ALLOCATION_UNIT := 4096
  /** The complement of 4095 as a 64-bit word. */
  const ALLOCATION_MASK: u64 := 0xffff_ffff_ffff_f000

  const FILE_ATTRIBUTE_READONLY: u32 := 0x01
  const FILE_ATTRIBUTE_DIRECTORY: u32 := 0x10

  const NANOSECONDS := 1_000_000_000
  const WINDOWS_TICK := 10_000_000
  const SEC_TO_UNIX_EPOCH := 11_644_473_600

  function AllocationSize(size: u64): nat
  {
    And(Wrap(size + 4095), ALLOCATION_MASK)
  }

  lemma MaskRoundsDown(x: u64)
    ensures And(x, ALLOCATION_MASK) == x / ALLOCATION_UNIT * ALLOCATION_UNIT
  {
    hide And;
    assert Pow2(4) == 16 && Pow2(12) == 4096;
    Pow2Sum(12, 12);
    Pow2Sum(24, 24);
    Pow2Sum(48, 4);
    assert Mask(12, 52) == ALLOCATION_MASK;
    AndField(x, 12, 52);
  }

  /** The allocation size is the least multiple of 4096 that holds the file exactly for sizes up to
      2^64 - 4096; above that it wraps to 0. */
  lemma AllocationSizeLeast(size: u64)
    ensures AllocationSize(size) % ALLOCATION_UNIT == 0
    ensures size <= U64_LIMIT - ALLOCATION_UNIT <==> size <= AllocationSize(size)
    ensures size <= AllocationSize(size) ==>
              forall m: nat | m % ALLOCATION_UNIT == 0 && size <= m :: AllocationSize(size) <= m
    ensures size > U64_LIMIT - ALLOCATION_UNIT ==> AllocationSize(size) == 0
  {
    MaskRoundsDown(Wrap(size + 4095));
    RoundUp(size);
    forall m: nat | m % ALLOCATION_UNIT == 0 && size <= m && size <= AllocationSize(size)
      ensures AllocationSize(size) <= m
    {
      NoMultipleBetween(size, m);
    }
  }

  lemma RoundUp(size: u64)
    ensures var r := Wrap(size + 4095) / ALLOCATION_UNIT * ALLOCATION_UNIT;
            && r % ALLOCATION_UNIT == 0
            && (if size <= U64_LIMIT - ALLOCATION_UNIT then size <= r < size + ALLOCATION_UNIT else r == 0)
  {
  }

  lemma NoMultipleBetween(size: nat, m: nat)
    requires m % ALLOCATION_UNIT == 0 && size <= m
    ensures (size + 4095) / ALLOCATION_UNIT * ALLOCATION_UNIT <= m
  {
  }

  /** Nanoseconds since 1970 to 100-nanosecond ticks since 1601, in whole seconds. */
  function FileTime(t: u64): u64
  {
    Wrap(Wrap(t / NANOSECONDS * WINDOWS_TICK) + Wrap(SEC_TO_UNIX_EPOCH * WINDOWS_TICK))
  }

  function UnixSecond(fileTime: u64): int
  {
    fileTime / WINDOWS_TICK - SEC_TO_UNIX_EPOCH
  }

  /** No step of the conversion overflows, and 1970 is 116444736000000000 ticks after 1601; converting back recovers
      the second; the order of seconds is kept. */
  lemma FileTimeFaithful(t: u64, t': u64)
    ensures t / NANOSECONDS * WINDOWS_TICK + SEC_TO_UNIX_EPOCH * WINDOWS_TICK < U64_LIMIT
    ensures FileTime(t) == 116_444_736_000_000_000 + t / 1_000_000_000 * 10_000_000
    ensures UnixSecond(FileTime(t)) == t / NANOSECONDS
    ensures t <= t' ==> FileTime(t) <= FileTime(t')
    ensures FileTime(t) == FileTime(t') <==> t / NANOSECONDS == t' / NANOSECONDS
  {
    assert FileTime(t) == (t / NANOSECONDS + SEC_TO_UNIX_EPOCH) * WINDOWS_TICK;
    assert FileTime(t') == (t' / NANOSECONDS + SEC_TO_UNIX_EPOCH) * WINDOWS_TICK;
  }

  /** The driver's view of a file; unset words are zero. */
  class FspFileInfo {
    var fileAttributes: nat
    var fileSize: u64
    var allocationSize: nat
    var creationTime: u64
    var lastAccessTime: u64
    var lastWriteTime: u64
    var changeTime: u64
    var indexNumber: u64

    constructor ()
    {
      fileAttributes, fileSize, allocationSize, indexNumber := 0, 0, 0, 0;
      creationTime, lastAccessTime, lastWriteTime, changeTime := 0, 0, 0, 0;
    }

    static method AttributesOf(isDirectory: bool) returns (attributes: nat)
      ensures attributes == if isDirectory then 0x11 else 0x01
      ensures And(attributes, FILE_ATTRIBUTE_READONLY) != 0
      ensures And(attributes, FILE_ATTRIBUTE_DIRECTORY) != 0 <==> isDirectory
    {
      attributes := FILE_ATTRIBUTE_READONLY;
      if isDirectory {
        attributes := Or(attributes, FILE_ATTRIBUTE_DIRECTORY);
      }
      AttributeBits();
    }

    method Fill(info: FileInfo)
      modifies this
      ensures fileAttributes == if info.isDirectory then 0x11 else 0x01
      ensures And(fileAttributes, FILE_ATTRIBUTE_READONLY) != 0
      ensures And(fileAttributes, FILE_ATTRIBUTE_DIRECTORY) != 0 <==> info.isDirectory
      ensures fileSize == info.size && indexNumber == info.inode
      ensures allocationSize == AllocationSize(info.size) && allocationSize % ALLOCATION_UNIT == 0
      ensures info.size <= U64_LIMIT - ALLOCATION_UNIT ==> info.size <= allocationSize < info.size + ALLOCATION_UNIT
      ensures creationTime == FileTime(info.createTime) && lastWriteTime == FileTime(info.modTime)
      ensures UnixSecond(creationTime) == info.createTime / NANOSECONDS && lastAccessTime == creationTime
      ensures UnixSecond(lastWriteTime) == info.modTime / NANOSECONDS && changeTime == lastWriteTime
    {
      fileAttributes := AttributesOf(info.isDirectory);
      fileSize := info.size;
      allocationSize := AllocationSize(info.size);
      MaskRoundsDown(Wrap(info.size + 4095));
      RoundUp(info.size);
      FileTimeFaithful(info.createTime, info.createTime);
      FileTimeFaithful(info.modTime, info.modTime);
      creationTime := FileTime(info.createTime);
      lastAccessTime := creationTime;
      lastWriteTime := FileTime(info.modTime);
      changeTime := lastWriteTime;
      indexNumber := info.inode;
    }
  }

  lemma AttributeBits()
    ensures Or(FILE_ATTRIBUTE_READONLY, FILE_ATTRIBUTE_DIRECTORY) == 0x11
    ensures And(0x11, FILE_ATTRIBUTE_READONLY) == 1 && And(0x11, FILE_ATTRIBUTE_DIRECTORY) == 0x10
    ensures And(FILE_ATTRIBUTE_READONLY, FILE_ATTRIBUTE_READONLY) == 1
    ensures And(FILE_ATTRIBUTE_READONLY, FILE_ATTRIBUTE_DIRECTORY) == 0
  {
  }

  // ---------- Mounting ----------

  /** How far the driver lets a mount get. */
  datatype Outcome = CreateFails | MountPointFails | DispatcherFails | Succeeds

  datatype MountState = MountState(fileSystem: Option<nat>, dispatching: bool, ledger: Ledger)

  function MountStep(s: MountState, o: Outcome): MountState
  {
    if s.fileSystem.Some? || o == CreateFails then s
    else
      var created := Create(s.ledger);
      if o == Succeeds then MountState(Some(s.ledger.created), true, created)
      else s.(ledger := Delete(created, s.ledger.created))
  }

  function UnmountStep(s: MountState): MountState
  {
    if s.fileSystem.None? then s
    else MountState(None, false, Delete(s.ledger, s.fileSystem.value))
  }

  /** A file system is held exactly while its dispatcher runs, and every other one has been deleted once. */
  ghost predicate MountBalanced(s: MountState)
  {
    Balanced(s.ledger, s.fileSystem) && s.dispatching == s.fileSystem.Some?
  }

  datatype DriverCall = Mount(outcome: Outcome) | Unmount

  function RunDriver(s: MountState, calls: seq<DriverCall>): MountState
    decreases calls
  {
    if calls == [] then s
    else RunDriver(if calls[0].Mount? then MountStep(s, calls[0].outcome) else UnmountStep(s), calls[1..])
  }

  lemma MountKeepsBalance(s: MountState, o: Outcome)
    requires MountBalanced(s)
    ensures MountBalanced(MountStep(s, o))
  {
    if s.fileSystem.None? && o != CreateFails {
      CreateBalanced(s.ledger);
      DeleteBalanced(Create(s.ledger), s.ledger.created);
    }
  }

  lemma UnmountKeepsBalance(s: MountState)
    requires MountBalanced(s)
    ensures MountBalanced(UnmountStep(s)) && UnmountStep(s).fileSystem.None?
  {
    if s.fileSystem.Some? {
      DeleteBalanced(s.ledger, s.fileSystem.value);
    }
  }

  /** Over any sequence of mounts and unmounts with any failures, no file system is deleted twice, and
      file systems created minus deleted is 1 exactly while one is mounted. */
  lemma {:induction false} FileSystemsNeverLeak(s: MountState, calls: seq<DriverCall>)
    requires MountBalanced(s)
    ensures var e := RunDriver(s, calls);
            && MountBalanced(e)
            && e.ledger.created - |e.ledger.deleted| == if e.fileSystem.Some? then 1 else 0
    decreases calls
  {
    if calls == [] {
      BalanceCount(s.ledger, s.fileSystem);
    } else if calls[0].Mount? {
      MountKeepsBalance(s, calls[0].outcome);
      FileSystemsNeverLeak(MountStep(s, calls[0].outcome), calls[1..]);
    } else {
      UnmountKeepsBalance(s);
      FileSystemsNeverLeak(UnmountStep(s), calls[1..]);
    }
  }

  /** Call number k mounts successfully, and no unmounting follows it. */
  predicate MountedFor(calls: seq<DriverCall>, k: nat)
    requires k < |calls|
  {
    calls[k] == Mount(Succeeds) && forall i | k < i < |calls| :: calls[i] != Unmount
  }

  /** A file system was held before and never unmounted, or some successful mount was not unmounted since. */
  predicate StillMounted(before: bool, calls: seq<DriverCall>)
  {
    || (before && forall i | 0 <= i < |calls| :: calls[i] != Unmount)
    || exists k :: 0 <= k < |calls| && MountedFor(calls, k)
  }

  lemma StillMountedNext(before: bool, calls: seq<DriverCall>)
    requires calls != []
    ensures StillMounted(before, calls) <==>
            StillMounted(calls[0] == Mount(Succeeds) || (before && calls[0].Mount?), calls[1..])
  {
    var rest := calls[1..];
    assert forall i | 0 < i < |calls| :: calls[i] == rest[i - 1];
    forall k | 0 <= k < |rest| ensures MountedFor(rest, k) <==> MountedFor(calls, k + 1) {
      assert forall i | k < i < |rest| :: rest[i] == calls[i + 1];
    }
    assert (forall i | 0 <= i < |rest| :: rest[i] != Unmount)
           <==> (forall i | 0 < i < |calls| :: calls[i] != Unmount) by {
      assert forall i | 0 <= i < |rest| :: rest[i] == calls[i + 1];
    }
    if StillMounted(before, calls) && exists k :: 0 <= k < |calls| && MountedFor(calls, k) {
      var k :| 0 <= k < |calls| && MountedFor(calls, k);
      assert k > 0 ==> MountedFor(rest, k - 1);
    }
    if exists k :: 0 <= k < |rest| && MountedFor(rest, k) {
      var k :| 0 <= k < |rest| && MountedFor(rest, k);
      assert MountedFor(calls, k + 1);
    }
    if calls[0] == Mount(Succeeds) && forall i | 0 <= i < |rest| :: rest[i] != Unmount {
      assert MountedFor(calls, 0);
    }
  }

  /** After any sequence of calls a file system is held, with its dispatcher running, exactly if one was mounted
      and not unmounted since. */
  lemma {:induction false} MountedAfterRun(s: MountState, calls: seq<DriverCall>)
    requires MountBalanced(s)
    ensures RunDriver(s, calls).fileSystem.Some? <==> StillMounted(s.fileSystem.Some?, calls)
    ensures RunDriver(s, calls).dispatching == RunDriver(s, calls).fileSystem.Some?
    decreases calls
  {
    if calls != [] {
      StillMountedNext(s.fileSystem.Some?, calls);
      if calls[0].Mount? {
        MountKeepsBalance(s, calls[0].outcome);
        MountedAfterRun(MountStep(s, calls[0].outcome), calls[1..]);
      } else {
        UnmountKeepsBalance(s);
        MountedAfterRun(UnmountStep(s), calls[1..]);
      }
    }
  }

  class WinFspAPFS {
    var fileSystem: Option<nat>
    var dispatching: bool
    var ledger: Ledger

    function State(): MountState
      reads this
    {
      MountState(fileSystem, dispatching, ledger)
    }

    constructor ()
      ensures State() == MountState(None, false, FRESH) && MountBalanced(State())
    {
      fileSystem, dispatching, ledger := None, false, FRESH;
      new;
      assert Balanced(FRESH, None);
    }

    /** The driver's release of a file system; its dispatcher must not be running. */
    method DeleteFileSystem(id: nat)
      requires !dispatching && Balanced(ledger, Some(id))
      modifies this`ledger
      ensures ledger == Delete(old(ledger), id)
    {
      ledger := Delete(ledger, id);
    }

    method MountAt(outcome: Outcome) returns (ok: bool)
      requires MountBalanced(State())
      modifies this
      ensures MountBalanced(State()) && State() == MountStep(old(State()), outcome)
      ensures ok <==> old(fileSystem).None? && outcome == Succeeds
      ensures fileSystem.Some? <==> old(fileSystem).Some? || outcome == Succeeds
      ensures dispatching == fileSystem.Some?
      ensures old(fileSystem).Some? ==> fileSystem == old(fileSystem) && ledger == old(ledger)
      ensures ledger.created
              == old(ledger).created + if old(fileSystem).None? && outcome != CreateFails then 1 else 0
      ensures ok ==> fileSystem == Some(old(ledger).created) && fileSystem.value !in ledger.deleted
    {
      MountKeepsBalance(State(), outcome);
      if fileSystem.Some? {
        return false;
      }
      if outcome == CreateFails {
        return false;
      }
      CreateBalanced(ledger);
      fileSystem := Some(ledger.created);
      ledger := Create(ledger);
      if outcome == MountPointFails {
        DeleteFileSystem(fileSystem.value);
        fileSystem := None;
        return false;
      }
      if outcome == DispatcherFails {
        DeleteFileSystem(fileSystem.value);
        fileSystem := None;
        return false;
      }
      dispatching := true;
      return true;
    }

    method Unmount()
      requires MountBalanced(State())
      modifies this
      ensures MountBalanced(State()) && State() == UnmountStep(old(State()))
      ensures fileSystem.None? && !dispatching
      ensures old(fileSystem).Some? ==> ledger.deleted == old(ledger).deleted + [old(fileSystem).value]
      ensures old(fileSystem).None? ==> ledger == old(ledger)
    {
      UnmountKeepsBalance(State());
      if fileSystem.Some? {
        dispatching := false;
        DeleteFileSystem(fileSystem.value);
        fileSystem := None;
      }
    }
  }
}
