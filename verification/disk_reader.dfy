/** Raw disk access: a device handle, and reads addressed by byte or by block. */
module Disk {
  import opened Bits
  import opened Bytes
  import opened Structures
  import opened Ledgers

  const SIGNED_LIMIT := 0x8000_0000_0000_0000

  /** What the operating system offers under a device path. The contents are constant; Unreadable says
      which reads (by position and count) the device refuses. */
  datatype Device =
    | Missing
    | Device(geometry: Option<u64>, fileSize: Option<u64>, content: seq<byte>, unreadable: (nat, nat) -> bool)

  /** Everything a read depends on. */
  datatype DiskView = DiskView(open: bool, size: u64, content: seq<byte>, unreadable: (nat, nat) -> bool)

  /** The device refuses nothing. */
  const NEVER: (nat, nat) -> bool := (_, _) => false

  function Slice(content: seq<byte>, at: nat, n: nat): seq<byte>
  {
    if at + n <= |content| then content[at..at + n] else []
  }

  /** The bytes that a read of a byte range delivers, or None where it fails. The range check wraps at 64
      bits, seeking takes a signed position, and one call reads at most 2^32 - 1 bytes. */
  function ReadRange(d: DiskView, offset: u64, size: u64): Option<seq<byte>>
  {
    if d.open && Wrap(offset + size) <= d.size && offset < SIGNED_LIMIT && !d.unreadable(offset, size % U32_LIMIT)
       && size < U32_LIMIT && (size == 0 || offset + size <= |d.content|)
    then Some(Slice(d.content, offset, size))
    else None
  }

  /** A run of equal blocks, addressed by its first block number. */
  function ReadRun(d: DiskView, start: u64, count: u64, blockSize: u64): Option<seq<byte>>
  {
    ReadRange(d, Wrap(start * blockSize), Wrap(count * blockSize))
  }

  function ReadOne(d: DiskView, block: u64, blockSize: u64): Option<seq<byte>>
  {
    ReadRange(d, Wrap(block * blockSize), blockSize)
  }

  /** A successful read delivers exactly the requested bytes of the disk. */
  lemma ReadRangeMeaning(d: DiskView, offset: u64, size: u64)
    requires ReadRange(d, offset, size).Some? && size > 0
    ensures offset + size <= |d.content|
    ensures ReadRange(d, offset, size) == Some(d.content[offset..offset + size])
  {
  }

  /** Inside a readable disk every range of fewer than 2^32 bytes below 2^63 can be read. */
  lemma ReadRangeSucceeds(d: DiskView, offset: nat, size: nat)
    requires d.open && d.size == |d.content| && offset < SIGNED_LIMIT
    requires offset + size <= |d.content| && size < U32_LIMIT && !d.unreadable(offset, size)
    ensures ReadRange(d, offset, size) == Some(d.content[offset..offset + size])
  {
  }

  /** Exactly when a read succeeds: the disk is open, the end of the range, wrapped at 64 bits, is not behind the
      size of the disk, the start is a signed position, the length fits 32 bits, the device does not refuse
      it, and all of a nonempty range is there. */
  lemma ReadRangeExactly(d: DiskView, offset: u64, size: u64)
    ensures ReadRange(d, offset, size).Some? <==>
            && d.open && (offset + size) % 0x1_0000_0000_0000_0000 <= d.size
            && offset < 0x8000_0000_0000_0000 && size < 0x1_0000_0000 && !d.unreadable(offset, size)
            && (size == 0 || offset + size <= |d.content|)
  {
  }

  /** An open disk that knows its size and refuses nothing. */
  ghost predicate Working(d: DiskView)
  {
    d.open && d.size == |d.content| < SIGNED_LIMIT && forall at, count :: !d.unreadable(at, count)
  }

  /** The handle state of a reader, for reasoning about sequences of calls. */
  datatype HandleState = HandleState(handle: Option<nat>, size: u64, device: Device, ledger: Ledger)

  function CloseStep(s: HandleState): HandleState
  {
    if s.handle.None? then s
    else s.(handle := None, size := 0, ledger := Delete(s.ledger, s.handle.value))
  }

  function DiskSizeOf(d: Device): Option<u64>
  {
    if d.Missing? then None else if d.geometry.Some? then d.geometry else d.fileSize
  }

  /** Opening leaves either a live handle on the device, with its size, or nothing open at all. */
  function OpenStep(s: HandleState, d: Device): HandleState
  {
    var c := CloseStep(s).(device := d);
    if d.Missing? then c
    else
      var o := c.(handle := Some(c.ledger.created), ledger := Create(c.ledger));
      if DiskSizeOf(d).Some? then o.(size := DiskSizeOf(d).value) else CloseStep(o)
  }

  ghost predicate HandlesBalanced(s: HandleState)
  {
    && Balanced(s.ledger, s.handle)
    && (s.handle.None? ==> s.size == 0)
    && (s.handle.Some? ==> DiskSizeOf(s.device) == Some(s.size))
  }

  datatype DiskCall = Open(device: Device) | Close

  function RunCalls(s: HandleState, calls: seq<DiskCall>): HandleState
    decreases calls
  {
    if calls == [] then s
    else
      var next := if calls[0].Open? then OpenStep(s, calls[0].device) else CloseStep(s);
      RunCalls(next, calls[1..])
  }

  lemma CloseKeepsBalance(s: HandleState)
    requires HandlesBalanced(s)
    ensures HandlesBalanced(CloseStep(s)) && CloseStep(s).handle.None?
  {
    if s.handle.Some? {
      DeleteBalanced(s.ledger, s.handle.value);
    }
  }

  lemma OpenKeepsBalance(s: HandleState, d: Device)
    requires HandlesBalanced(s)
    ensures HandlesBalanced(OpenStep(s, d))
    ensures OpenStep(s, d).handle.Some? <==> DiskSizeOf(d).Some?
  {
    CloseKeepsBalance(s);
    var c := CloseStep(s).ledger;
    CreateBalanced(c);
    DeleteBalanced(Create(c), c.created);
  }

  /** Over any sequence of open and close calls, whatever fails, no handle is closed twice and handles
      opened minus closed is 1 exactly while the reader holds one. */
  lemma {:induction false} HandlesNeverLeak(s: HandleState, calls: seq<DiskCall>)
    requires HandlesBalanced(s)
    ensures var e := RunCalls(s, calls);
            && HandlesBalanced(e)
            && e.ledger.created - |e.ledger.deleted| == if e.handle.Some? then 1 else 0
    decreases calls
  {
    if calls == [] {
      BalanceCount(s.ledger, s.handle);
    } else {
      CloseKeepsBalance(s);
      if calls[0].Open? {
        OpenKeepsBalance(s, calls[0].device);
        HandlesNeverLeak(OpenStep(s, calls[0].device), calls[1..]);
      } else {
        HandlesNeverLeak(CloseStep(s), calls[1..]);
      }
    }
  }

  /** After any sequence of calls a handle is held exactly if the last call opened a device that states a size by
      its geometry or, failing that, as a file; the reader then has that device and that size. */
  lemma {:induction false} LastCallDecides(s: HandleState, calls: seq<DiskCall>)
    requires HandlesBalanced(s) && calls != []
    ensures var e, last := RunCalls(s, calls), calls[|calls| - 1];
            && (e.handle.Some? <==> last.Open? && last.device.Device?
                                    && (last.device.geometry.Some? || last.device.fileSize.Some?))
            && (e.handle.Some? ==>
                  && e.device == last.device
                  && e.size == if last.device.geometry.Some? then last.device.geometry.value
                               else last.device.fileSize.value)
            && (e.handle.None? ==> e.size == 0)
    decreases calls
  {
    var next := if calls[0].Open? then OpenStep(s, calls[0].device) else CloseStep(s);
    CloseKeepsBalance(s);
    if calls[0].Open? {
      OpenKeepsBalance(s, calls[0].device);
    }
    if |calls| > 1 {
      LastCallDecides(next, calls[1..]);
    } else {
      assert RunCalls(next, calls[1..]) == next;
    }
  }

  class DiskReader {
    var handle: Option<nat>
    var diskSize: u64
    var device: Device
    var ledger: Ledger

    function State(): HandleState
      reads this
    {
      HandleState(handle, diskSize, device, ledger)
    }

    function View(): DiskView
      reads this
    {
      if device.Missing? then DiskView(false, diskSize, [], NEVER)
      else DiskView(handle.Some?, diskSize, device.content, device.unreadable)
    }

    ghost predicate Valid()
      reads this
    {
      HandlesBalanced(State()) && (handle.Some? ==> device.Device?)
    }

    constructor ()
      ensures Valid() && State() == HandleState(None, 0, Missing, FRESH)
    {
      handle, diskSize, device, ledger := None, 0, Missing, FRESH;
      new;
      assert Balanced(FRESH, None);
    }

    method CloseDisk()
      requires Valid()
      modifies this
      ensures Valid() && State() == CloseStep(old(State())) && handle.None? && diskSize == 0
      ensures old(handle).Some? ==> ledger.deleted == old(ledger).deleted + [old(handle).value]
      ensures old(handle).None? ==> ledger == old(ledger)
    {
      CloseKeepsBalance(State());
      if handle.Some? {
        ledger := Delete(ledger, handle.value);
        handle := None;
        diskSize := 0;
      }
    }

    method OpenDisk(d: Device) returns (ok: bool)
      requires Valid()
      modifies this
      ensures Valid() && State() == OpenStep(old(State()), d)
      ensures ok == handle.Some?
      ensures ok <==> d.Device? && (d.geometry.Some? || d.fileSize.Some?)
      ensures ok ==> device == d && diskSize == if d.geometry.Some? then d.geometry.value else d.fileSize.value
      ensures !ok ==> diskSize == 0
      ensures ok ==> handle.value !in ledger.deleted
      ensures ledger.created == old(ledger).created + if d.Device? then 1 else 0
    {
      OpenKeepsBalance(State(), d);
      if handle.Some? {
        CloseDisk();
      }
      device := d;
      if d.Missing? {
        return false;
      }
      CreateBalanced(ledger);
      handle := Some(ledger.created);
      ledger := Create(ledger);
      if d.geometry.Some? {
        diskSize := d.geometry.value;
      } else if d.fileSize.Some? {
        diskSize := d.fileSize.value;
      } else {
        DeleteBalanced(ledger, handle.value);
        ledger := Delete(ledger, handle.value);
        handle := None;
        diskSize := 0;
        return false;
      }
      return true;
    }

    /** The operating system's read at a position: up to count bytes, fewer at the end of the device. */
    method ReadFile(position: nat, buffer: array<byte>, count: u32) returns (ok: bool, bytesRead: nat)
      requires device.Device? && count <= buffer.Length
      modifies buffer
      ensures ok == !device.unreadable(position, count)
      ensures ok ==> bytesRead == (if position + count <= |device.content| then count
                                   else if position <= |device.content| then |device.content| - position else 0)
      ensures ok && position + bytesRead <= |device.content| ==>
                buffer[..bytesRead] == device.content[position..position + bytesRead]
      ensures buffer[count..] == old(buffer[count..])
    {
      if device.unreadable(position, count) {
        return false, 0;
      }
      bytesRead := 0;
      while bytesRead < count && position + bytesRead < |device.content|
        invariant bytesRead <= count
        invariant bytesRead == 0 || position + bytesRead <= |device.content|
        invariant bytesRead > 0 ==> buffer[..bytesRead] == device.content[position..position + bytesRead]
        invariant buffer[count..] == old(buffer[count..])
      {
        buffer[bytesRead] := device.content[position + bytesRead];
        bytesRead := bytesRead + 1;
      }
      ok := true;
    }

    method ReadBytes(offset: u64, buffer: array<byte>, size: u64) returns (ok: bool)
      requires Valid() && size <= buffer.Length
      modifies buffer
      ensures ok == ReadRange(View(), offset, size).Some?
      ensures ok ==> buffer[..size] == ReadRange(View(), offset, size).value
      ensures ok ==> handle.Some? && (offset + size) % U64_LIMIT <= diskSize && offset < 0x8000_0000_0000_0000
      ensures ok ==> size < 0x1_0000_0000 && !device.unreadable(offset, size)
      ensures buffer[size..] == old(buffer[size..])
    {
      if handle.None? {
        return false;
      }
      if Wrap(offset + size) > diskSize {
        return false;
      }
      // The seek takes a signed position and refuses a negative one.
      if offset >= SIGNED_LIMIT {
        return false;
      }
      var done, bytesRead := ReadFile(offset, buffer, size % U32_LIMIT);
      if !done {
        return false;
      }
      if bytesRead != size {
        return false;
      }
      return true;
    }

    method ReadBlocks(start: u64, count: u64, buffer: array<byte>, blockSize: u64) returns (ok: bool)
      requires Valid() && Wrap(count * blockSize) <= buffer.Length
      modifies buffer
      ensures ok == ReadRun(View(), start, count, blockSize).Some?
      ensures ok ==> buffer[..Wrap(count * blockSize)] == ReadRun(View(), start, count, blockSize).value
      ensures buffer[Wrap(count * blockSize)..] == old(buffer[Wrap(count * blockSize)..])
    {
      var offset := Wrap(start * blockSize);
      var total := Wrap(count * blockSize);
      ok := ReadBytes(offset, buffer, total);
    }

    method ReadBlock(block: u64, buffer: array<byte>, blockSize: u64) returns (ok: bool)
      requires Valid() && blockSize <= buffer.Length
      modifies buffer
      ensures ok == ReadOne(View(), block, blockSize).Some?
      ensures ok ==> buffer[..blockSize] == ReadOne(View(), block, blockSize).value
      ensures buffer[blockSize..] == old(buffer[blockSize..])
    {
      assert Wrap(1 * blockSize) == blockSize;
      ok := ReadBlocks(block, 1, buffer, blockSize);
    }
  }
}
