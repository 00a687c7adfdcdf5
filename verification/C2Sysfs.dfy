/** The kernel driver's flash_data attribute: reading and programming the flash in chunks of at most 128 bytes. */
module C2Sysfs {
  import opened Bytes
  import opened Errno
  import opened C2Target
  import opened C2Interface
  import opened C2Gpio

  const CHUNK := 128

  /** The chip gets ready for every data access within a frame's twenty strobes. */
  ghost predicate Responsive(p: Part) {
    forall n: nat :: p.wait(n) < 20
  }

  /** And every answer of its programming interface comes before this driver gives up on it. */
  ghost predicate Timely(p: Part) {
    && Responsive(p)
    && (forall n: nat :: p.busy(n) < 20)
    && (forall n: nat :: p.late(n) < 1000)
  }

  /** FPDAT is selected and has digested what it was sent. */
  ghost predicate Settled(pin: C2PortPin)
    reads pin
  {
    && pin.Quiet() && pin.chip.dev.ar == pin.part.fpdat && pin.chip.dev.busy == 0
    && (Timely(pin.part) ==> pin.chip.dev.late < 1000)
  }

  /** Ready for the next access to the flash. */
  ghost predicate Open(pin: C2PortPin)
    reads pin
  {
    && pin.Quiet() && pin.chip.dev.busy == 0 && (Timely(pin.part) ==> pin.chip.dev.late < 1000)
    && pin.chip.dev.core.pi == Command && |pin.chip.dev.core.flash| <= 65536
  }

  // ---------------------------------------------------------------- handshake

  method PollInBusy(pin: C2PortPin) returns (ok: bool)
    requires pin.Quiet()
    modifies pin
    ensures pin.Quiet() && pin.clash == old(pin.clash)
    ensures ok <==> old(pin.chip.dev.busy) < 20
    ensures SameRegisters(pin.chip.dev, old(pin.chip.dev)) && pin.chip.accesses == old(pin.chip.accesses)
    ensures ok ==> pin.chip.dev.busy == 0
    ensures pin.chip.dev.late <= old(pin.chip.dev.late)
  {
    var timeout := 20;
    while true
      invariant 0 < timeout <= 20
      invariant pin.Quiet() && pin.clash == old(pin.clash)
      invariant SameRegisters(pin.chip.dev, old(pin.chip.dev)) && pin.chip.accesses == old(pin.chip.accesses)
      invariant old(pin.chip.dev.busy) >= 20 - timeout && pin.chip.dev.busy == old(pin.chip.dev.busy) - (20 - timeout)
      invariant pin.chip.dev.late <= old(pin.chip.dev.late)
      decreases timeout
    {
      var addr := pin.ReadAr();
      if (addr / 2) % 2 == 0 {
        return true;
      }
      timeout := timeout - 1;
      if timeout == 0 {
        return false;
      }
    }
  }

  method PollOutReady(pin: C2PortPin) returns (ok: bool)
    requires pin.Quiet()
    modifies pin
    ensures pin.Quiet() && pin.clash == old(pin.clash)
    ensures ok <==> old(pin.chip.dev.core.out).Some? && old(pin.chip.dev.late) < 1000
    ensures SameRegisters(pin.chip.dev, old(pin.chip.dev)) && pin.chip.accesses == old(pin.chip.accesses)
    ensures ok ==> pin.chip.dev.late == 0
    ensures pin.chip.dev.busy <= old(pin.chip.dev.busy) && pin.chip.dev.late <= old(pin.chip.dev.late)
  {
    var timeout := 1000;
    while true
      invariant 0 < timeout <= 1000
      invariant pin.Quiet() && pin.clash == old(pin.clash)
      invariant SameRegisters(pin.chip.dev, old(pin.chip.dev)) && pin.chip.accesses == old(pin.chip.accesses)
      invariant pin.chip.dev.busy <= old(pin.chip.dev.busy) && pin.chip.dev.late <= old(pin.chip.dev.late)
      invariant pin.chip.dev.core.out.Some? ==>
        old(pin.chip.dev.late) >= 1000 - timeout && pin.chip.dev.late == old(pin.chip.dev.late) - (1000 - timeout)
      decreases timeout
    {
      var addr := pin.ReadAr();
      if addr % 2 == 1 {
        return true;
      }
      timeout := timeout - 1;
      if timeout == 0 {
        return false;
      }
    }
  }

  /** Send a byte to the PI and wait until it is digested.  The result of the write itself is not looked at. */
  method Push(pin: C2PortPin, d: byte) returns (ok: bool)
    requires Settled(pin) && Responsive(pin.part)
    modifies pin
    ensures pin.Quiet() && pin.clash == old(pin.clash)
    ensures ok ==> Settled(pin)
    ensures Timely(pin.part) ==> ok
    ensures pin.chip.dev.core == Feed(pin.part.pageSize, old(pin.chip.dev.core), d)
  {
    var _ := pin.WriteDr(d);
    ok := PollInBusy(pin);
  }

  /** Wait for an output byte and read it. */
  method Pull(pin: C2PortPin) returns (ok: bool, d: byte)
    requires Settled(pin) && Responsive(pin.part)
    modifies pin
    ensures pin.Quiet() && pin.clash == old(pin.clash)
    ensures ok ==>
      Settled(pin) && Some(d) == old(pin.chip.dev.core.out) && pin.chip.dev.core == Take(old(pin.chip.dev.core))
    ensures !ok ==> pin.chip.dev.core == old(pin.chip.dev.core)
    ensures Timely(pin.part) && old(pin.chip.dev.core.out).Some? ==> ok
  {
    d := 0;
    ok := PollOutReady(pin);
    if !ok { return; }
    ok, d := pin.ReadDr();
  }

  /** The opening both directions share: command and status, address, block size and status. */
  method OpenBlock(pin: C2PortPin, command: byte, offset: nat, n: nat) returns (ret: int)
    requires command == BLOCK_READ || command == BLOCK_WRITE
    requires Open(pin) && Responsive(pin.part)
    requires n <= CHUNK && offset < |pin.chip.dev.core.flash|
    modifies pin
    ensures pin.Quiet() && pin.clash == old(pin.clash)
    ensures pin.chip.dev.core.flash == old(pin.chip.dev.core.flash)
    ensures ret == 0 || ret == -EIO || ret == -EBUSY
    ensures ret == 0 ==>
      offset + BlockLength(n) <= |pin.chip.dev.core.flash|
      && Settled(pin) && pin.chip.dev.core == Opened(command, offset, BlockLength(n), pin.chip.dev.core.flash)
    ensures ret == -EBUSY ==> offset + BlockLength(n) > |pin.chip.dev.core.flash| && Open(pin)
    ensures Timely(pin.part) ==> ret != -EIO
  {
    hide Feed, Take, Timely, Responsive;
    Opening(pin.part.pageSize, pin.chip.dev.core, command, offset / 256 % 256, offset % 256, n);
    assert 256 * (offset / 256 % 256) + offset % 256 == offset;
    pin.WriteAr(pin.part.fpdat);
    var ok, status;
    ok := Push(pin, command);
    if !ok { return -EIO; }
    ok, status := Pull(pin);
    if !ok { return -EIO; }
    if status != COMMAND_OK { return -EBUSY; }
    ok := Push(pin, offset / 256 % 256);
    if !ok { return -EIO; }
    ok := Push(pin, offset % 256);
    if !ok { return -EIO; }
    ok := Push(pin, n);
    if !ok { return -EIO; }
    ok, status := Pull(pin);
    if !ok { return -EIO; }
    if status != COMMAND_OK { return -EBUSY; }
    ret := 0;
  }

  // ---------------------------------------------------------------- chunks

  /** How much of a request one call serves. */
  function ChunkSize(size: nat, offset: nat, count: nat): (n: nat)
    requires offset <= size
    ensures n <= CHUNK && offset + n <= size && n <= count
    ensures n == CHUNK || offset + n == size || n == count
  {
    var n := if size - offset < CHUNK then size - offset else CHUNK;
    if count < n then count else n
  }

  /** Read one chunk. */
  method ReadFlashData(pin: C2PortPin, size: nat, buffer: array<byte>, offset: nat, count: nat) returns (ret: int)
    requires Open(pin) && Responsive(pin.part) && size == |pin.chip.dev.core.flash|
    requires count <= buffer.Length
    modifies pin, buffer
    ensures pin.Quiet() && pin.clash == old(pin.clash)
    ensures pin.chip.dev.core.flash == old(pin.chip.dev.core.flash)
    ensures ret >= 0 ==> Open(pin) && ret == if offset >= size then 0 else ChunkSize(size, offset, count)
    ensures ret >= 0 && offset < size ==>
      && ret <= 128 && ret <= count && ret <= size - offset
      && (ret == 128 || ret == count || ret == size - offset)
    ensures ret >= 0 && offset <= size ==> buffer[..ret] == pin.chip.dev.core.flash[offset..offset + ret]
    ensures ret < 0 ==> ret == -EIO
    ensures Timely(pin.part) ==> ret >= 0
  {
    if offset >= size {
      return 0;
    }
    var nread := ChunkSize(size, offset, count);
    if nread == 0 {
      return 0;
    }
    ret := OpenBlock(pin, BLOCK_READ, offset, nread);
    if ret < 0 {
      return;
    }
    var ok := CollectChunk(pin, buffer, offset, nread);
    ret := if ok then nread else -EIO;
  }

  /** The data bytes of a chunk being read. */
  method CollectChunk(pin: C2PortPin, buffer: array<byte>, offset: nat, n: nat) returns (ok: bool)
    requires 0 < n <= buffer.Length && offset + n <= |pin.chip.dev.core.flash|
    requires Settled(pin) && Responsive(pin.part)
    requires pin.chip.dev.core == ReadState(offset, n, pin.chip.dev.core.flash)
    modifies pin, buffer
    ensures pin.Quiet() && pin.clash == old(pin.clash)
    ensures pin.chip.dev.core.flash == old(pin.chip.dev.core.flash)
    ensures ok ==> Settled(pin) && pin.chip.dev.core.pi == Command
    ensures ok ==> buffer[..n] == pin.chip.dev.core.flash[offset..offset + n]
    ensures Timely(pin.part) ==> ok
  {
    hide Timely, Responsive;
    ghost var flash := pin.chip.dev.core.flash;
    ok := true;
    for i := 0 to n
      invariant ok && Settled(pin) && pin.clash == old(pin.clash)
      invariant pin.chip.dev.core == ReadState(offset + i, n - i, flash)
      invariant buffer[..i] == flash[offset..offset + i]
    {
      var d;
      ok, d := Pull(pin);
      if !ok { return; }
      buffer[i] := d;
      assert buffer[..i + 1] == buffer[..i] + [d];
    }
  }

  /** Program one chunk; `done` bytes of it have been programmed in any case.  A request of no bytes announces a block
      of 256 all the same: it fails, and where such a block would fit it leaves the chip waiting for it. */
  method WriteFlashData(pin: C2PortPin, size: nat, buffer: array<byte>, offset: nat, count: nat)
    returns (ret: int, ghost done: nat)
    requires Open(pin) && Responsive(pin.part) && size == |pin.chip.dev.core.flash|
    requires count <= buffer.Length
    modifies pin
    ensures pin.Quiet() && pin.clash == old(pin.clash)
    ensures done <= count
      && pin.chip.dev.core.flash == Programmed(old(pin.chip.dev.core.flash), offset, buffer[..done])
    ensures offset >= size ==> ret == -EINVAL && done == 0 && Open(pin)
    ensures ret >= 0 ==> offset < size && count > 0 && ret == done == ChunkSize(size, offset, count) && Open(pin)
    ensures ret >= 0 ==>
      && ret <= 128 && ret <= count && ret <= size - offset
      && (ret == 128 || ret == count || ret == size - offset)
    // success only once the chip shows that the last byte is programmed
    ensures ret >= 0 ==> pin.chip.dev.core.out.Some? && pin.chip.dev.late == 0
    ensures Timely(pin.part) && offset < size && count > 0 ==> ret >= 0
    ensures Timely(pin.part) && offset < size && count == 0 ==>
      if offset + 256 <= size then ret == -EIO && pin.chip.dev.core.pi == Writing(offset, 256)
      else ret == -EBUSY && Open(pin)
  {
    done := 0;
    if offset >= size {
      return -EINVAL, done;
    }
    var nwrite := ChunkSize(size, offset, count);
    ret := OpenBlock(pin, BLOCK_WRITE, offset, nwrite);
    if ret < 0 {
      return;
    }
    var ok;
    ok, done := ProgramChunk(pin, buffer, offset, nwrite);
    if !ok {
      return -EIO, done;
    }
    // the status of the block is awaited but left for the next command to overwrite
    ok := PollOutReady(pin);
    ret := if ok then nwrite else -EIO;
  }

  /** The data bytes of a chunk being programmed. */
  method ProgramChunk(pin: C2PortPin, buffer: array<byte>, offset: nat, n: nat) returns (ok: bool, ghost done: nat)
    requires n <= buffer.Length && n <= CHUNK
    requires offset + BlockLength(n) <= |pin.chip.dev.core.flash| <= 65536
    requires Settled(pin) && Responsive(pin.part)
    requires pin.chip.dev.core == Core(Writing(offset, BlockLength(n)), None, pin.chip.dev.core.flash)
    modifies pin
    ensures pin.Quiet() && pin.clash == old(pin.clash)
    ensures done <= n
      && pin.chip.dev.core.flash == Programmed(old(pin.chip.dev.core.flash), offset, buffer[..done])
    ensures ok ==> Settled(pin) && done == n
    ensures ok && n == 0 ==> pin.chip.dev.core == old(pin.chip.dev.core)
    ensures ok && n > 0 ==> pin.chip.dev.core.pi == Command && pin.chip.dev.core.out.Some?
    ensures Timely(pin.part) ==> ok
  {
    hide ProgramByte, Timely, Responsive;
    ghost var flash, data := pin.chip.dev.core.flash, buffer[..];
    ghost var now := flash;
    ok, done := true, 0;
    for i := 0 to n
      invariant ok && done == i && Settled(pin) && pin.clash == old(pin.clash)
      invariant now == Programmed(flash, offset, data[..i])
      invariant n == 0 ==> pin.chip.dev.core == old(pin.chip.dev.core)
      invariant n > 0 ==> pin.chip.dev.core == WriteState(offset + i, n - i, now, pin.chip.dev.core.out)
      invariant i == n > 0 ==> pin.chip.dev.core.out.Some?
    {
      var d := buffer[i];
      ProgrammedNext(flash, offset, data[..i], d, offset + i);
      assert data[..i + 1] == data[..i] + [d];
      ok := Push(pin, d);
      now, done := ProgramByte(now, offset + i, d), i + 1;
      if !ok {
        assert data[..done] == buffer[..done];
        return;
      }
    }
    assert data[..n] == buffer[..n];
  }

  /** Reading on from offset 0 until a read returns nothing yields the whole flash; `last` is what that read
      returned, and what is there before an error is the beginning of the flash. */
  method ReadAll(pin: C2PortPin, size: nat, buffer: array<byte>) returns (all: seq<byte>, last: int)
    requires Open(pin) && Responsive(pin.part) && size == |pin.chip.dev.core.flash|
    requires buffer.Length > 0
    modifies pin, buffer
    ensures pin.chip.dev.core.flash == old(pin.chip.dev.core.flash)
    ensures all <= pin.chip.dev.core.flash
    ensures last == 0 ==> Open(pin) && all == pin.chip.dev.core.flash
    ensures last <= 0 && (Timely(pin.part) ==> last == 0)
  {
    all := [];
    ghost var flash := pin.chip.dev.core.flash;
    while true
      invariant Open(pin) && pin.chip.dev.core.flash == flash
      invariant |all| <= size && all == flash[..|all|]
      decreases size - |all|
    {
      last := ReadFlashData(pin, size, buffer, |all|, buffer.Length);
      if last <= 0 {
        return;
      }
      assert flash[..|all| + last] == flash[..|all|] + flash[|all|..|all| + last];
      all := all + buffer[..last];
    }
  }
}
