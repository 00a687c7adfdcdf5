/** The host side of C2: bit-banged frames, polled handshakes, PI commands and flash operations. */
module C2Interface {
  import opened Bytes
  import opened Errno
  import opened C2Target

  /** Every answer of the chip comes before the host gives up on it. */
  ghost predicate Prompt(p: Part) {
    && (forall n: nat :: p.wait(n) < 20)
    && (forall n: nat :: p.busy(n) < 20)
    && (forall n: nat :: p.late(n) < 10000)
  }

  /** Registers equal up to handshake timing. */
  predicate SameRegisters(d: Dev, e: Dev) {
    d.ar == e.ar && d.core == e.core && d.sfr == e.sfr && d.tick == e.tick
  }

  /** What a shift register holds after the first i bits of s came in at the top. */
  function Shifted(s: seq<bool>, i: nat): (w: seq<bool>)
    requires i <= |s| == 8
    ensures |w| == 8
  {
    Zeros(8 - i) + s[..i]
  }

  lemma ShiftEnds(s: seq<bool>)
    requires |s| == 8
    ensures Value(Shifted(s, 0)) == 0 && Shifted(s, 8) == s
  {
    assert Shifted(s, 0) == Zeros(8);
  }

  lemma ShiftStep(s: seq<bool>, i: nat)
    requires i < |s| == 8
    ensures Value(Shifted(s, i)) / 2 < 128
    ensures Value(Shifted(s, i + 1)) == Value(Shifted(s, i)) / 2 + 128 * BitValue(s[i])
  {
    var w := Shifted(s, i);
    assert !w[0];
    assert Shifted(s, i + 1) == w[1..] + [s[i]];
    ValueSnoc(w[1..], s[i]);
    Pow2Values();
    ValueBound(w[1..]);
  }

  // ---------------------------------------------------------------- block transfers, in terms of flash

  /** The size of the next block of a transfer. */
  function BlockSize(length: nat): (n: nat)
    ensures length > 0 ==> 0 < n <= length
    ensures n <= 256
  {
    if length > 255 then 256 else length
  }

  /** Every block of a transfer lies inside the flash, once its address is cut down to the two bytes sent. */
  predicate BlocksFit(size: nat, addr: nat, length: nat)
    decreases length
  {
    length == 0 ||
    (var n := BlockSize(length);
     addr % 65536 + n <= size && BlocksFit(size, addr + n, length - n))
  }

  /** A transfer inside a flash of at most 64 KiB goes through. */
  lemma {:induction false} InRangeFits(size: nat, addr: nat, length: nat)
    requires addr + length <= size <= 65536
    ensures BlocksFit(size, addr, length)
    decreases length
  {
    if length > 0 {
      var n := BlockSize(length);
      InRangeFits(size, addr + n, length - n);
    }
  }

  /** `data` is what the flash holds from `addr` on, addresses being cut down to two bytes. */
  ghost predicate IsImage(flash: seq<byte>, addr: nat, data: seq<byte>) {
    forall i | 0 <= i < |data| :: Holds(flash, addr + i, data[i])
  }

  /** The byte the flash returns for an address cut down to two bytes. */
  ghost predicate Holds(flash: seq<byte>, addr: nat, d: byte) {
    addr % 65536 < |flash| && flash[addr % 65536] == d
  }

  lemma ImageNext(flash: seq<byte>, addr: nat, data: seq<byte>, d: byte)
    requires IsImage(flash, addr, data)
    requires (addr + |data|) % 65536 < |flash| && d == flash[(addr + |data|) % 65536]
    ensures IsImage(flash, addr, data + [d])
  {
  }

  /** What programming `data` from `addr` on does to the flash. */
  ghost function Programmed(flash: seq<byte>, addr: nat, data: seq<byte>): (r: seq<byte>)
    ensures |r| == |flash|
  {
    if data == [] then flash
    else
      var n := |data| - 1;
      ProgramByte(Programmed(flash, addr, data[..n]), (addr + n) % 65536, data[n])
  }

  lemma ProgrammedNext(flash: seq<byte>, addr: nat, data: seq<byte>, d: byte, a: nat)
    requires a == (addr + |data|) % 65536
    ensures Programmed(flash, addr, data + [d]) == ProgramByte(Programmed(flash, addr, data), a, d)
  {
    assert (data + [d])[..|data|] == data;
  }

  /** The PI inside a block read: the next byte is in the output register. */
  ghost function ReadState(next: nat, left: nat, flash: seq<byte>): Core {
    if left == 0 then Core(Command, None, flash)
    else Core(Reading(next + 1, left - 1), Some(if next < |flash| then flash[next] else 0xFF), flash)
  }

  /** The PI inside a block write. */
  ghost function WriteState(next: nat, left: nat, flash: seq<byte>, out: Option<byte>): Core {
    if left == 0 then Core(Command, out, flash) else Core(Writing(next, left), None, flash)
  }

  /** The PI once a block transfer has been opened. */
  ghost function Opened(command: byte, addr: nat, n: nat, flash: seq<byte>): Core {
    if command == BLOCK_WRITE then Core(Writing(addr, n), None, flash) else ReadState(addr, n, flash)
  }

  /** The PI through the opening of a block transfer: the command is confirmed, the address taken in silence, and
      the length accepted exactly if the block lies inside the flash. */
  lemma Opening(pageSize: nat, c: Core, command: byte, high: byte, low: byte, length: byte)
    requires c.pi == Command && (command == BLOCK_READ || command == BLOCK_WRITE)
    ensures var named := Feed(pageSize, c, command);
      var a := 256 * high + low;
      var asked := Feed(pageSize, Feed(pageSize, Take(named), high), low);
      var sized := Feed(pageSize, asked, length);
      && named.out == Some(COMMAND_OK) && named.flash == c.flash && Take(named).flash == c.flash
      && Feed(pageSize, Take(named), high).flash == asked.flash == sized.flash == Take(sized).flash == c.flash
      && sized.out.Some?
      && (sized.out == Some(COMMAND_OK) <==> a + BlockLength(length) <= |c.flash|)
      && (if sized.out == Some(COMMAND_OK) then Take(sized) == Opened(command, a, BlockLength(length), c.flash)
          else Take(sized).pi == Command)
  {
  }

  lemma InBlock(at: nat, k: nat)
    requires at % 65536 + k < 65536
    ensures (at + k) % 65536 == at % 65536 + k
  {
  }

  /** What c2tool knows about a device family. */
  datatype Family = Family(pageSize: nat, fpdat: byte)

  class C2Link {
    const family: Family
    const part: Part   // the chip on the wires
    var c2d: Pin       // what the host puts on the data wire
    var chip: Chip
    ghost var clash: bool  // host and chip have driven the data wire at the same time

    /** Between frames: the decoder waits for a START and nobody drives the wire. */
    ghost predicate Quiet()
      reads this
    {
      c2d.Z? && chip.phase.Idle? && chip.pin.Z?
    }

    /** Between PI exchanges: FPDAT is selected and has digested what it was sent. */
    ghost predicate Selected()
      reads this
    {
      && Quiet()
      && chip.dev.ar == part.fpdat
      && chip.dev.busy == 0
      && (Prompt(part) ==> chip.dev.late < 10000)
    }

    /** Ready for the next flash operation on the family's own part. */
    ghost predicate Rested()
      reads this
    {
      && Quiet()
      && chip.dev.core.pi == Command && chip.dev.busy == 0
      && (Prompt(part) ==> chip.dev.late < 10000)
      && family == Family(part.pageSize, part.fpdat)
      && |chip.dev.core.flash| <= 65536
    }

    constructor (family: Family, part: Part, dev: Dev)
      ensures this.family == family && this.part == part && !clash
      ensures chip == Chip(Idle, Z, dev, 0) && Quiet()
    {
      this.family := family;
      this.part := part;
      c2d := Z;
      chip := Chip(Idle, Z, dev, 0);
      clash := false;
    }

    // -------------------------------------------------------------- wires

    // The data pin is open drain: 1 releases the wire.
    method C2dSet(state: bool)
      modifies this`c2d, this`clash
      ensures c2d == if state then Z else Low
      ensures clash == (old(clash) || Clash(c2d, chip.pin))
    {
      c2d := if state then Z else Low;
      clash := clash || Clash(c2d, chip.pin);
    }

    method C2dGet() returns (state: bool)
      ensures state == Level(c2d, chip.pin)
    {
      state := Level(c2d, chip.pin);
    }

    method C2ckStrobe()
      modifies this`chip, this`clash
      ensures chip == OnStrobe(part, old(chip), Level(c2d, old(chip.pin)))
      ensures clash == (old(clash) || Clash(c2d, old(chip.pin)) || Clash(c2d, chip.pin))
    {
      clash := clash || Clash(c2d, chip.pin);
      chip := OnStrobe(part, chip, Level(c2d, chip.pin));
      clash := clash || Clash(c2d, chip.pin);
    }

    /** Hold the clock low; the chip forgets the frame and the command it was in, not its flash. */
    method Reset()
      requires c2d.Z?
      modifies this`chip
      ensures Quiet() && chip == OnReset(old(chip))
    {
      chip := OnReset(chip);
    }

    // -------------------------------------------------------------- frames

    /** Put one bit on the wire and clock it in. */
    method SendBit(bit: bool)
      requires chip.pin.Z?
      modifies this`c2d, this`chip, this`clash
      ensures c2d == if bit then Z else Low
      ensures chip == OnStrobe(part, old(chip), bit)
      ensures chip.pin.Z? ==> clash == old(clash)
    {
      C2dSet(bit);
      C2ckStrobe();
    }

    /** The ADDRESS field of an address write. */
    method SendAddress(addr: byte)
      requires chip.pin.Z? && chip.phase == AddrIn([])
      modifies this`c2d, this`chip, this`clash
      ensures clash == old(clash)
      ensures chip == old(chip).(phase := Stop, dev := old(chip.dev).(ar := addr))
    {
      hide Bits, Value;
      var a: nat := addr;
      ghost var sent: seq<bool> := [];
      for i := 0 to 8
        invariant |sent| == i && sent + Bits(a, 8 - i) == Bits(addr, 8)
        invariant i < 8 ==> chip == old(chip).(phase := AddrIn(sent))
        invariant i == 8 ==> chip == old(chip).(phase := Stop, dev := old(chip.dev).(ar := ByteOf(sent)))
        invariant clash == old(clash)
      {
        BitsHead(a, 8 - i);
        assert sent + Bits(a, 8 - i) == (sent + [a % 2 == 1]) + Bits(a / 2, 7 - i);
        SendBit(a % 2 == 1);
        sent := sent + [a % 2 == 1];
        a := a / 2;
      }
      assert sent == Bits(addr, 8);
      ByteOfBits(addr);
    }

    method WriteAr(addr: byte)
      requires Quiet()
      modifies this`c2d, this`chip, this`clash
      ensures Quiet() && clash == old(clash)
      ensures chip == old(chip).(dev := old(chip.dev).(ar := addr))
    {
      SendBit(true);
      SendBit(true);
      SendBit(true);
      SendAddress(addr);
      C2dSet(true);
      C2ckStrobe();
    }

    method ReadAr() returns (addr: byte)
      requires Quiet()
      modifies this`c2d, this`chip, this`clash
      ensures Quiet() && clash == old(clash)
      ensures addr == StatusByte(part, old(chip.dev))
      ensures chip == old(chip).(dev := AfterStatus(old(chip.dev)))
    {
      SendBit(true);
      SendBit(false);
      SendBit(true);
      C2dSet(true);
      addr := ShiftInByte(StatusByte(part, old(chip.dev)));
      C2ckStrobe();
    }

    /** The eight strobes of an ADDRESS or DATA field the chip drives. */
    method ShiftInByte(ghost v: byte) returns (data: byte)
      requires c2d.Z? && chip.phase == ShiftOut(Bits(v, 8))
      modifies this`chip, this`clash
      ensures data == v
      ensures clash == old(clash)
      ensures chip == old(chip).(phase := ShiftOut([]), pin := chip.pin)
    {
      hide Bits, Shifted, Value;
      var w: nat := 0;
      ghost var sent := Bits(v, 8);
      ShiftEnds(sent);
      for i := 0 to 8
        invariant w == Value(Shifted(sent, i))
        invariant chip == old(chip).(phase := ShiftOut(sent[i..]), pin := chip.pin)
        invariant clash == old(clash)
      {
        ShiftStep(sent, i);
        w := w / 2;
        C2ckStrobe();
        var level := C2dGet();
        if level {
          w := w + 0x80;  // sets bit 7, which the shift has just cleared
        }
      }
      assert sent[8..] == [];
      ByteOfBits(v);
      data := w;
    }

    /** The WAIT field: strobe until the chip says ready, at most twenty times. */
    method AwaitReady(ghost more: nat) returns (ok: bool)
      requires c2d.Z?
      requires chip.phase == WaitRead(more) || (chip.phase.WaitWrite? && chip.phase.more == more)
      modifies this`chip, this`clash
      ensures clash == old(clash)
      ensures ok <==> more < 20
      ensures chip.accesses == old(chip.accesses)
      ensures !ok ==> chip.dev == old(chip.dev) && more >= 20 && chip.phase == old(chip.phase).(more := more - 20)
      ensures ok && old(chip.phase).WaitRead? ==>
        chip.phase == ShiftOut(Bits(DataByte(part, old(chip.dev)), 8)) && chip.dev == AfterData(part, old(chip.dev))
      ensures ok && old(chip.phase).WaitWrite? ==>
        chip.phase == Stop && chip.dev == WriteData(part, old(chip.dev), old(chip.phase).data)
    {
      var timeout := 20;
      while true
        invariant 0 < timeout <= 20
        invariant more >= 20 - timeout
        invariant chip == old(chip).(phase := old(chip.phase).(more := more - (20 - timeout)), pin := chip.pin)
        invariant clash == old(clash)
        decreases timeout
      {
        C2ckStrobe();
        var level := C2dGet();
        if level {
          return true;
        }
        timeout := timeout - 1;
        if timeout == 0 {
          return false;
        }
      }
    }

    /** The DATA field of a write. */
    method SendData(data: byte)
      requires chip.pin.Z? && chip.phase == DataIn([])
      modifies this`c2d, this`chip, this`clash
      ensures clash == old(clash)
      ensures chip == old(chip).(phase := WaitWrite(data, part.wait(old(chip.accesses))),
                                 accesses := old(chip.accesses) + 1)
    {
      hide Bits, Value;
      var d: nat := data;
      ghost var sent: seq<bool> := [];
      for i := 0 to 8
        invariant clash == old(clash)
        invariant |sent| == i && sent + Bits(d, 8 - i) == Bits(data, 8)
        invariant i < 8 ==> chip == old(chip).(phase := DataIn(sent))
        invariant i == 8 ==> chip == old(chip).(phase := WaitWrite(ByteOf(sent), part.wait(old(chip.accesses))),
                                                accesses := old(chip.accesses) + 1)
      {
        BitsHead(d, 8 - i);
        assert sent + Bits(d, 8 - i) == (sent + [d % 2 == 1]) + Bits(d / 2, 7 - i);
        SendBit(d % 2 == 1);
        sent := sent + [d % 2 == 1];
        d := d / 2;
      }
      assert sent == Bits(data, 8);
      ByteOfBits(data);
    }

    method WriteDr(data: byte) returns (ok: bool)
      requires Quiet()
      modifies this`c2d, this`chip, this`clash
      ensures clash == old(clash)
      ensures ok <==> part.wait(old(chip.accesses)) < 20
      ensures ok ==> Quiet() && chip.dev == WriteData(part, old(chip.dev), data)
      ensures !ok ==> chip.dev == old(chip.dev) && c2d.Z?
      ensures !ok ==> chip.phase == WaitWrite(data, part.wait(old(chip.accesses)) - 20)  // left in mid-frame
      ensures chip.accesses == old(chip.accesses) + 1
    {
      SendBit(true);
      SendBit(true);
      SendBit(false);
      SendBit(false);
      SendBit(false);
      SendData(data);
      C2dSet(true);
      ok := AwaitReady(part.wait(old(chip.accesses)));
      if !ok {
        return;
      }
      C2ckStrobe();
    }

    method ReadDr() returns (ok: bool, data: byte)
      requires Quiet()
      modifies this`c2d, this`chip, this`clash
      ensures clash == old(clash)
      ensures ok <==> part.wait(old(chip.accesses)) < 20
      ensures ok ==> Quiet() && data == DataByte(part, old(chip.dev)) && chip.dev == AfterData(part, old(chip.dev))
      ensures !ok ==> chip.dev == old(chip.dev) && c2d.Z?
      ensures !ok ==> chip.phase == WaitRead(part.wait(old(chip.accesses)) - 20)  // left in mid-frame
      ensures chip.accesses == old(chip.accesses) + 1
    {
      hide Bits, DataByte, AfterData, WriteData;
      data := 0;
      SendBit(true);
      SendBit(false);
      SendBit(false);
      SendBit(false);
      SendBit(false);
      C2dSet(true);
      ok := AwaitReady(part.wait(old(chip.accesses)));
      if !ok {
        return;
      }
      data := ShiftInByte(DataByte(part, old(chip.dev)));
      C2ckStrobe();
    }

    // -------------------------------------------------------------- handshake

    method PollInBusy() returns (ok: bool)
      requires Quiet()
      modifies this`c2d, this`chip, this`clash
      ensures Quiet() && clash == old(clash)
      ensures ok <==> old(chip.dev.busy) < 20
      ensures SameRegisters(chip.dev, old(chip.dev)) && chip.accesses == old(chip.accesses)
      ensures ok ==> chip.dev.busy == 0
      ensures chip.dev.late <= old(chip.dev.late)
    {
      var timeout := 20;
      while true
        invariant 0 < timeout <= 20
        invariant Quiet() && clash == old(clash)
        invariant SameRegisters(chip.dev, old(chip.dev)) && chip.accesses == old(chip.accesses)
        invariant old(chip.dev.busy) >= 20 - timeout && chip.dev.busy == old(chip.dev.busy) - (20 - timeout)
        invariant chip.dev.late <= old(chip.dev.late)
        decreases timeout
      {
        var addr := ReadAr();
        if (addr / 2) % 2 == 0 {
          return true;
        }
        timeout := timeout - 1;
        if timeout == 0 {
          return false;
        }
      }
    }

    method PollOutReady() returns (ok: bool)
      requires Quiet()
      modifies this`c2d, this`chip, this`clash
      ensures Quiet() && clash == old(clash)
      ensures ok <==> old(chip.dev.core.out).Some? && old(chip.dev.late) < 10000
      ensures SameRegisters(chip.dev, old(chip.dev)) && chip.accesses == old(chip.accesses)
      ensures ok ==> chip.dev.late == 0
      ensures chip.dev.busy <= old(chip.dev.busy) && chip.dev.late <= old(chip.dev.late)
    {
      var timeout := 10000;  // erasing flash takes long
      while true
        invariant 0 < timeout <= 10000
        invariant Quiet() && clash == old(clash)
        invariant SameRegisters(chip.dev, old(chip.dev)) && chip.accesses == old(chip.accesses)
        invariant chip.dev.busy <= old(chip.dev.busy) && chip.dev.late <= old(chip.dev.late)
        invariant chip.dev.core.out.Some? ==>
          old(chip.dev.late) >= 10000 - timeout && chip.dev.late == old(chip.dev.late) - (10000 - timeout)
        decreases timeout
      {
        var addr := ReadAr();
        if addr % 2 == 1 {
          return true;
        }
        timeout := timeout - 1;
        if timeout == 0 {
          return false;
        }
      }
    }

    // -------------------------------------------------------------- programming interface

    method PiWriteCommand(command: byte) returns (ok: bool)
      requires Selected()
      modifies this`c2d, this`chip, this`clash
      ensures clash == old(clash)
      ensures ok ==> Selected() && chip.dev.core == Feed(part.pageSize, old(chip.dev.core), command)
      ensures ok ==> chip.dev.tick == old(chip.dev.tick) + 1
      ensures !ok ==>
        chip.dev.core == old(chip.dev.core) || chip.dev.core == Feed(part.pageSize, old(chip.dev.core), command)
      ensures Prompt(part) ==> ok
    {
      ok := WriteDr(command);
      if !ok {
        return;
      }
      ok := PollInBusy();
    }

    method PiGetData() returns (ok: bool, data: byte)
      requires Selected()
      modifies this`c2d, this`chip, this`clash
      ensures clash == old(clash)
      ensures ok ==>
        Selected() && old(chip.dev.core.out) == Some(data) && chip.dev.core == Take(old(chip.dev.core))
      ensures ok ==> chip.dev.tick == old(chip.dev.tick) + 1
      ensures !ok ==> chip.dev.core == old(chip.dev.core)
      ensures Prompt(part) && old(chip.dev.core.out).Some? ==> ok
    {
      data := 0;
      ok := PollOutReady();
      if !ok {
        return;
      }
      ok, data := ReadDr();
    }

    method PiCheckCommand() returns (ok: bool)
      requires Selected()
      modifies this`c2d, this`chip, this`clash
      ensures clash == old(clash)
      ensures ok ==>
        Selected() && old(chip.dev.core.out) == Some(COMMAND_OK) && chip.dev.core == Take(old(chip.dev.core))
      ensures ok ==> chip.dev.tick == old(chip.dev.tick) + 1
      ensures !ok ==> chip.dev.core == old(chip.dev.core) || chip.dev.core == Take(old(chip.dev.core))
      ensures Prompt(part) && old(chip.dev.core.out).Some? ==>
        Selected() && chip.dev.core == Take(old(chip.dev.core))
        && (ok <==> old(chip.dev.core.out) == Some(COMMAND_OK))
    {
      var response;
      ok, response := PiGetData();
      if !ok {
        return;
      }
      ok := response == COMMAND_OK;
    }

    method PiCommand(command: byte, verify: bool) returns (ok: bool)
      requires Selected()
      modifies this`c2d, this`chip, this`clash
      ensures clash == old(clash)
      ensures var fed := Feed(part.pageSize, old(chip.dev.core), command);
        && (ok ==> Selected())
        && (ok && !verify ==> chip.dev.core == fed)
        && (ok && verify ==> fed.out == Some(COMMAND_OK) && chip.dev.core == Take(fed))
        && (!ok ==> chip.dev.core == old(chip.dev.core) || chip.dev.core == fed
                    || (verify && chip.dev.core == Take(fed)))
        && (Prompt(part) && !verify ==> ok)
        && (Prompt(part) && verify && fed.out.Some? ==>
              Selected() && chip.dev.core == Take(fed) && (ok <==> fed.out == Some(COMMAND_OK)))
      ensures ok ==> chip.dev.tick == old(chip.dev.tick) + if verify then 2 else 1
    {
      ok := PiWriteCommand(command);
      if !ok || !verify {
        return;
      }
      ok := PiCheckCommand();
    }

    /** A command that is confirmed and then answered with a byte. */
    method PiQuery(command: byte) returns (ok: bool, result: byte)
      requires Selected()
      modifies this`c2d, this`chip, this`clash
      ensures clash == old(clash)
      ensures var fed := Feed(part.pageSize, old(chip.dev.core), command);
        && (ok ==> Selected() && fed.out == Some(COMMAND_OK) && Take(fed).out == Some(result)
                   && chip.dev.core == Take(Take(fed)))
        && (Prompt(part) && fed.out == Some(COMMAND_OK) && Take(fed).out.Some? ==> ok)
    {
      result := 0;
      ok := PiCommand(command, true);
      if !ok { return; }
      ok, result := PiGetData();
    }

    // -------------------------------------------------------------- special function registers

    /** Write a register of the chip; what is written is what reading it finds. */
    method WriteSfr(sfr: byte, data: byte) returns (ok: bool)
      requires Quiet()
      modifies this`c2d, this`chip, this`clash
      ensures clash == old(clash)
      ensures ok <==> part.wait(old(chip.accesses)) < 20
      ensures ok ==> Quiet() && chip.dev == WriteData(part, old(chip.dev).(ar := sfr), data)
      ensures ok && sfr != part.fpdat ==> DataByte(part, chip.dev) == data && chip.dev.core == old(chip.dev.core)
      ensures !ok ==> chip.dev == old(chip.dev).(ar := sfr)
    {
      WriteAr(sfr);
      ok := WriteDr(data);
    }

    method ReadSfr(sfr: byte) returns (ok: bool, data: byte)
      requires Quiet()
      modifies this`c2d, this`chip, this`clash
      ensures clash == old(clash)
      ensures ok <==> part.wait(old(chip.accesses)) < 20
      ensures ok ==> Quiet() && data == DataByte(part, old(chip.dev).(ar := sfr))
      ensures sfr != part.fpdat ==> chip.dev == old(chip.dev).(ar := sfr)
    {
      WriteAr(sfr);
      ok, data := ReadDr();
    }

    // -------------------------------------------------------------- flash

    /** The common opening of a block transfer: command, address, length, each acknowledged as the PI asks. */
    method BeginBlock(command: byte, addr: nat, length: nat) returns (ok: bool, blocksize: nat)
      requires command == BLOCK_READ || command == BLOCK_WRITE
      requires Selected() && chip.dev.core.pi == Command
      requires length > 0
      modifies this`c2d, this`chip, this`clash
      ensures clash == old(clash)
      ensures blocksize == BlockSize(length)
      ensures chip.dev.core.flash == old(chip.dev.core.flash)
      ensures ok ==> Selected() && addr % 65536 + blocksize <= |chip.dev.core.flash|
      ensures ok ==> chip.dev.core == Opened(command, addr % 65536, blocksize, chip.dev.core.flash)
      ensures Prompt(part) ==>
        Selected() && (ok <==> addr % 65536 + blocksize <= |chip.dev.core.flash|)
        && (!ok ==> chip.dev.core.pi == Command)
    {
      hide Prompt, Feed, Take;
      blocksize := BlockSize(length);
      Opening(part.pageSize, chip.dev.core, command, addr / 256 % 256, addr % 256, if length > 255 then 0 else length);
      ok := PiCommand(command, true);
      if !ok { return; }
      ok := PiCommand(addr / 256 % 256, false);
      if !ok { return; }
      ok := PiCommand(addr % 256, false);
      if !ok { return; }
      assert 256 * (addr / 256 % 256) + addr % 256 == addr % 65536;
      if length > 255 {
        ok := PiCommand(0, true);
      } else {
        ok := PiCommand(length, true);
      }
    }

    /** The data bytes of one block, into `dest` from `from` on. */
    method CollectBlock(dest: array<byte>, from: nat, n: nat, ghost a: nat, ghost flash: seq<byte>, ghost addr: nat)
      returns (ok: bool)
      requires from + n <= dest.Length
      requires a == (addr + from) % 65536 && a + n <= |flash| <= 65536
      requires Selected() && chip.dev.core == ReadState(a, n, flash)
      requires IsImage(flash, addr, dest[..from])
      modifies this`c2d, this`chip, this`clash, dest
      ensures clash == old(clash)
      ensures chip.dev.core.flash == flash
      ensures ok ==> Selected() && chip.dev.core.pi == Command && IsImage(flash, addr, dest[..from + n])
      ensures dest[from + n..] == old(dest[from + n..])
      ensures Prompt(part) ==> ok
    {
      hide Prompt, IsImage;
      for k := 0 to n
        invariant clash == old(clash)
        invariant Selected() && chip.dev.core == ReadState(a + k, n - k, flash)
        invariant IsImage(flash, addr, dest[..from + k])
        invariant dest[from + n..] == old(dest[from + n..])
      {
        var data;
        ok, data := PiGetData();
        if !ok { return; }
        InBlock(addr + from, k);
        ImageNext(flash, addr, dest[..from + k], data);
        dest[from + k] := data;
        assert dest[..from + k + 1] == dest[..from + k] + [data];
      }
      ok := true;
    }

    method FlashRead(addr: nat, length: nat, dest: array<byte>) returns (ok: bool)
      requires Rested()
      requires length <= dest.Length
      modifies this`c2d, this`chip, this`clash, dest
      ensures clash == old(clash)
      ensures chip.dev.core.flash == old(chip.dev.core.flash)
      ensures ok ==> Rested()
      ensures ok ==> BlocksFit(|chip.dev.core.flash|, addr, length)
      ensures ok ==> IsImage(chip.dev.core.flash, addr, dest[..length])
      ensures dest[length..] == old(dest[length..])
      ensures Prompt(part) ==> Rested() && (ok <==> BlocksFit(|chip.dev.core.flash|, addr, length))
    {
      WriteAr(family.fpdat);
      ghost var flash := chip.dev.core.flash;
      var at: nat, left: nat, done: nat := addr, length, 0;
      assert IsImage(flash, addr, dest[..0]);
      hide Prompt, IsImage, Opened, ReadState;
      while left > 0
        invariant clash == old(clash)
        invariant done + left == length && at == addr + done
        invariant Selected() && chip.dev.core.pi == Command && chip.dev.core.flash == flash
        invariant BlocksFit(|flash|, addr, length) <==> BlocksFit(|flash|, at, left)
        invariant IsImage(flash, addr, dest[..done])
        invariant dest[length..] == old(dest[length..])
      {
        var blocksize;
        ok, blocksize := BeginBlock(BLOCK_READ, at, left);
        if !ok { return; }
        ok := CollectBlock(dest, done, blocksize, at % 65536, flash, addr);
        if !ok { return; }
        assert dest[length..] == dest[done + blocksize..][left - blocksize..];
        done := done + blocksize;
        left := left - blocksize;
        at := at + blocksize;
      }
      ok := true;
    }

    /** One data byte of a block write. */
    method SendByte(d: byte, ghost a: nat, ghost n: nat, ghost flash: seq<byte>)
      returns (ok: bool, ghost taken: bool)
      requires n > 0 && Selected() && chip.dev.core == Core(Writing(a, n), None, flash)
      modifies this`c2d, this`chip, this`clash
      ensures clash == old(clash)
      ensures ok ==> Selected() && taken
      ensures ok ==> chip.dev.core == WriteState(a + 1, n - 1, ProgramByte(flash, a, d), chip.dev.core.out)
      ensures chip.dev.core.flash == if taken then ProgramByte(flash, a, d) else flash
      ensures Prompt(part) ==> ok
    {
      ghost var before := chip.dev.core;
      ok := PiCommand(d, false);
      taken := ok || chip.dev.core != before;
    }

    /** The data bytes of one block: `n` bytes of `src` from `from` on. */
    method SendBlock(src: array<byte>, from: nat, n: nat, ghost a: nat, ghost flash: seq<byte>, ghost addr: nat)
      returns (ok: bool, ghost done: nat)
      requires from + n <= src.Length && n > 0
      requires a == (addr + from) % 65536 && a + n <= |flash| <= 65536
      requires Selected() && chip.dev.core == Core(Writing(a, n), None, Programmed(flash, addr, src[..from]))
      modifies this`c2d, this`chip, this`clash
      ensures clash == old(clash)
      ensures from <= done <= from + n
      ensures chip.dev.core.flash == Programmed(flash, addr, src[..done])
      ensures ok ==> Selected() && chip.dev.core.pi == Command && done == from + n
      ensures Prompt(part) ==> ok
    {
      hide Prompt, Programmed, ProgramByte;
      ghost var now := chip.dev.core.flash;
      ghost var data := src[..];
      done := from;
      for k := 0 to n
        invariant clash == old(clash)
        invariant done == from + k
        invariant Selected()
        invariant now == Programmed(flash, addr, data[..done])
        invariant chip.dev.core == WriteState(a + k, n - k, now, chip.dev.core.out)
      {
        InBlock(addr + from, k);
        var d := src[from + k];
        ProgrammedNext(flash, addr, data[..done], d, a + k);
        assert data[..done + 1] == data[..done] + [d];
        ghost var taken;
        ok, taken := SendByte(d, a + k, n - k, now);
        if taken { done, now := done + 1, ProgramByte(now, a + k, d); }
        if !ok { return; }
      }
      ok := true;
    }

    method FlashWrite(addr: nat, length: nat, src: array<byte>) returns (ok: bool, ghost done: nat)
      requires Rested()
      requires length <= src.Length
      modifies this`c2d, this`chip, this`clash
      ensures clash == old(clash)
      ensures done <= length && chip.dev.core.flash == Programmed(old(chip.dev.core.flash), addr, src[..done])
      ensures ok ==> Rested() && done == length
      ensures ok ==> BlocksFit(|chip.dev.core.flash|, addr, length)
      ensures Prompt(part) ==> Rested() && (ok <==> BlocksFit(|chip.dev.core.flash|, addr, length))
    {
      WriteAr(family.fpdat);
      ghost var flash := chip.dev.core.flash;
      var at: nat, left: nat := addr, length;
      done := 0;
      while left > 0
        invariant clash == old(clash)
        invariant done + left == length && at == addr + done
        invariant Selected() && chip.dev.core.pi == Command
        invariant chip.dev.core.flash == Programmed(flash, addr, src[..done])
        invariant BlocksFit(|flash|, addr, length) <==> BlocksFit(|flash|, at, left)
      {
        var blocksize;
        ok, blocksize := BeginBlock(BLOCK_WRITE, at, left);
        if !ok { return; }
        ok, done := SendBlock(src, length - left, blocksize, at % 65536, flash, addr);
        if !ok { return; }
        left := left - blocksize;
        at := at + blocksize;
      }
      ok := true;
    }

    method FlashErase(page: byte) returns (ok: bool)
      requires Rested()
      modifies this`c2d, this`chip, this`clash
      ensures clash == old(clash)
      ensures var flash := old(chip.dev.core.flash);
        && (chip.dev.core.flash == flash || chip.dev.core.flash == ErasePage(flash, part.pageSize, page))
        && (ok ==> Rested() && PageStart(part.pageSize, page) + part.pageSize <= |flash|
                   && chip.dev.core.flash == ErasePage(flash, part.pageSize, page))
        && (Prompt(part) ==> Rested() && (ok <==> PageStart(part.pageSize, page) + part.pageSize <= |flash|))
      // three bytes sent, and the status after each collected
      ensures ok ==> chip.dev.tick == old(chip.dev.tick) + 6 && chip.dev.core.out.None?
    {
      WriteAr(family.fpdat);
      ok := PiCommand(PAGE_ERASE, true);
      if !ok { return; }
      ok := PiCommand(page, true);
      if !ok { return; }
      ok := PiCommand(0, true);
    }

    method FlashEraseDevice() returns (ok: bool)
      requires Rested()
      modifies this`c2d, this`chip, this`clash
      ensures clash == old(clash)
      ensures var flash := old(chip.dev.core.flash);
        && (chip.dev.core.flash == flash || chip.dev.core.flash == Erased(flash, 0, |flash|))
        && (ok ==> Rested() && chip.dev.core.flash == Erased(flash, 0, |flash|))
      ensures Prompt(part) ==> ok
      // four bytes sent, and the status after the first and the last collected
      ensures ok ==> chip.dev.tick == old(chip.dev.tick) + 6 && chip.dev.core.out.None?
    {
      WriteAr(family.fpdat);
      ok := PiCommand(DEVICE_ERASE, true);
      if !ok { return; }
      ok := PiCommand(0xDE, false);
      if !ok { return; }
      ok := PiCommand(0xAD, false);
      if !ok { return; }
      ok := PiCommand(0xA5, true);
    }
  }
}
