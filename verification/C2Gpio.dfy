/** The kernel module's frames: the same four transfers on a pin that must be switched between input and
    output, so that host and chip never drive the data wire against each other. */
module C2Gpio {
  import opened Bytes
  import opened Errno
  import opened C2Target
  import opened C2Interface

  /** What user space can ask for.  `Unknown` is a command number of no meaning, of this driver's or another's. */
  datatype Request =
    | Reset
    | WriteAddress(addr: byte)
    | ReadAddress
    | WriteByte(data: byte)
    | ReadByte
    | Unknown(ours: bool)

  datatype Reply = Done | Answer(b: byte) | Error(code: int)

  /** Requests that take a frame on the wire. */
  predicate TakesFrame(r: Request) {
    !r.Reset? && !r.Unknown?
  }

  /** The bare registers: their contents, how many data accesses there have been, and whether the last one was given
      up in mid-frame. */
  datatype Regs = Regs(dev: Dev, accesses: nat, stalled: bool)

  /** A data access: `after` and `reply` if the chip is ready in time, and otherwise nothing but a stall. */
  function Access(p: Part, g: Regs, after: Dev, reply: Reply): (Regs, Reply) {
    if p.wait(g.accesses) < 20 then (Regs(after, g.accesses + 1, false), reply)
    else (Regs(g.dev, g.accesses + 1, true), Error(-EIO))
  }

  /** One request on the bare registers. */
  function Step(p: Part, g: Regs, r: Request): (Regs, Reply) {
    match r
    case Reset => (Regs(AfterReset(g.dev), g.accesses, false), Done)
    case WriteAddress(a) => (g.(dev := g.dev.(ar := a)), Done)
    case ReadAddress => (g.(dev := AfterStatus(g.dev)), Answer(StatusByte(p, g.dev)))
    case WriteByte(v) => Access(p, g, WriteData(p, g.dev, v), Done)
    case ReadByte => Access(p, g, AfterData(p, g.dev), Answer(DataByte(p, g.dev)))
    case Unknown(ours) => (g, if ours then Done else Error(-EINVAL))
  }

  /** A whole sequence of requests on the bare registers, and the replies to it. */
  ghost function Run(p: Part, g: Regs, rs: seq<Request>): (r: (Regs, seq<Reply>))
    ensures |r.1| == |rs|
  {
    if rs == [] then (g, [])
    else
      var (h, replies) := Run(p, g, rs[..|rs| - 1]);
      var (k, reply) := Step(p, h, rs[|rs| - 1]);
      (k, replies + [reply])
  }

  lemma RunNext(p: Part, g: Regs, rs: seq<Request>, i: nat)
    requires i < |rs|
    ensures var (h, replies) := Run(p, g, rs[..i]);
      var (k, reply) := Step(p, h, rs[i]);
      Run(p, g, rs[..i + 1]) == (k, replies + [reply])
  {
    assert rs[..i + 1][..i] == rs[..i];
  }

  /** The chip is ready in time for every data access. */
  ghost predicate InTime(p: Part) {
    forall n: nat :: p.wait(n) < 20
  }

  /** Requests that write no byte to register r while it is selected at their beginning. */
  ghost predicate Spares(rs: seq<Request>, r: byte) {
    && WriteAddress(r) !in rs
    && forall i | 0 <= i < |rs| && rs[i].WriteByte? :: exists k | 0 <= k < i :: rs[k].WriteAddress?
  }

  lemma {:induction false} SparedKeeps(p: Part, g: Regs, rs: seq<Request>, r: byte)
    requires r != p.fpdat && g.dev.ar == r && Spares(rs, r)
    ensures var h := Run(p, g, rs).0;
      && (r in h.dev.sfr <==> r in g.dev.sfr) && (r in g.dev.sfr ==> h.dev.sfr[r] == g.dev.sfr[r])
      && (h.dev.ar == r <==> forall k | 0 <= k < |rs| :: !rs[k].WriteAddress?)
  {
    hide Step;
    if rs != [] {
      var n := |rs| - 1;
      var h := Run(p, g, rs[..n]).0;
      assert rs[n] in rs && forall k | 0 <= k < n :: rs[..n][k] == rs[k];
      SparedKeeps(p, g, rs[..n], r);
      StepSpares(p, h, rs[n], r);
    }
  }

  lemma StepSpares(p: Part, g: Regs, q: Request, r: byte)
    requires r != p.fpdat && q != WriteAddress(r) && (q.WriteByte? ==> g.dev.ar != r)
    ensures var h := Step(p, g, q).0;
      && (r in h.dev.sfr <==> r in g.dev.sfr) && (r in g.dev.sfr ==> h.dev.sfr[r] == g.dev.sfr[r])
      && (h.dev.ar == r <==> g.dev.ar == r && !q.WriteAddress?)
  {
    hide Feed, Take;
  }

  /** A register keeps the last byte written to it: whatever requests come in between, reading it answers that byte. */
  lemma RegisterKeeps(p: Part, g: Regs, r: byte, v: byte, between: seq<Request>)
    requires r != p.fpdat && InTime(p) && Spares(between, r)
    ensures var rs := [WriteAddress(r), WriteByte(v)] + between + [WriteAddress(r), ReadByte];
      var replies := Run(p, g, rs).1;
      replies[0] == Done && replies[1] == Done && replies[|rs| - 2] == Done && replies[|rs| - 1] == Answer(v)
  {
    hide Run;
    var first := [WriteAddress(r), WriteByte(v)];
    var rs := first + between + [WriteAddress(r), ReadByte];
    var n := |between| + 2;
    RunTwo(p, g, WriteAddress(r), WriteByte(v));
    RunAppend(p, g, first, between);
    var h := Run(p, g, first).0;
    SparedKeeps(p, h, between, r);
    RunTwo(p, Run(p, h, between).0, WriteAddress(r), ReadByte);
    RunAppend(p, g, first + between, [WriteAddress(r), ReadByte]);
  }

  lemma RunTwo(p: Part, g: Regs, a: Request, b: Request)
    ensures var (h, first) := Step(p, g, a);
      var (k, second) := Step(p, h, b);
      Run(p, g, [a, b]).0 == k && Run(p, g, [a, b]).1 == [first, second]
  {
    hide Step;
    assert [a, b][..0] == [] && [a, b][..1] == [a];
    RunNext(p, g, [a, b], 0);
    RunNext(p, g, [a, b], 1);
    assert [a, b][..2] == [a, b];
  }

  lemma {:induction false} RunAppend(p: Part, g: Regs, xs: seq<Request>, ys: seq<Request>)
    ensures var (h, first) := Run(p, g, xs);
      var (k, second) := Run(p, h, ys);
      Run(p, g, xs + ys).0 == k && Run(p, g, xs + ys).1 == first + second
  {
    hide Step;
    if ys == [] {
      assert xs + ys == xs;
    } else {
      var n := |ys| - 1;
      RunAppend(p, g, xs, ys[..n]);
      assert (xs + ys)[..|xs| + n] == xs + ys[..n] && (xs + ys)[..|xs| + n + 1] == xs + ys && ys[..n + 1] == ys;
      RunNext(p, g, xs + ys, |xs| + n);
      RunNext(p, Run(p, g, xs).0, ys, n);
    }
  }

  /** Select, write and read back: that register holds the byte, and every other register, the PI and the flash are as
      before. */
  lemma WriteThenRead(p: Part, g: Regs, r: byte, v: byte)
    requires r != p.fpdat && InTime(p)
    ensures var (h, replies) := Run(p, g, [WriteAddress(r), WriteByte(v), ReadByte]);
      && replies == [Done, Done, Answer(v)] && !h.stalled
      && h.dev.ar == r && h.dev.core == g.dev.core && h.dev.sfr == g.dev.sfr[r := v]
  {
    var rs := [WriteAddress(r), WriteByte(v), ReadByte];
    assert rs[..2] == [WriteAddress(r), WriteByte(v)] && rs[..3] == rs;
    RunTwo(p, g, WriteAddress(r), WriteByte(v));
    RunNext(p, g, rs, 2);
  }

  class C2PortPin {
    const part: Part
    var input: bool    // direction of the data pin
    var value: bool    // what the pin drives when it is an output
    var chip: Chip
    ghost var clash: bool

    function Pin(): Pin
      reads this
    {
      if input then Z else Driven(value)
    }

    /** Between calls: the pin is an input and the decoder waits for a START. */
    ghost predicate Quiet()
      reads this
    {
      input && chip.phase.Idle? && chip.pin.Z?
    }

    /** After a data access that was given up: the chip goes on saying that it is not ready. */
    ghost predicate Stalled()
      reads this
    {
      input && (chip.phase.WaitWrite? || chip.phase.WaitRead?) && chip.pin.Low?
    }

    ghost function State(): Regs
      reads this
    {
      Regs(chip.dev, chip.accesses, !chip.phase.Idle?)
    }

    constructor (part: Part, dev: Dev)
      ensures this.part == part && chip == Chip(Idle, Z, dev, 0) && Quiet() && !clash
    {
      this.part := part;
      input, value := true, true;
      chip := Chip(Idle, Z, dev, 0);
      clash := false;
    }

    method Direction(dir: bool)
      modifies this`input, this`value, this`clash
      ensures input == dir
      ensures value == if dir then old(value) else Level(old(Pin()), chip.pin)
      ensures clash == (old(clash) || Clash(Pin(), chip.pin))
    {
      if !dir {
        value := Level(Pin(), chip.pin);  // becomes an output at the level the wire has
      }
      input := dir;
      clash := clash || Clash(Pin(), chip.pin);
    }

    method SetValue(v: bool)
      modifies this`value, this`clash
      ensures value == v
      ensures clash == (old(clash) || Clash(Pin(), chip.pin))
    {
      value := v;
      clash := clash || Clash(Pin(), chip.pin);
    }

    method GetValue() returns (v: bool)
      ensures v == Level(Pin(), chip.pin)
    {
      v := Level(Pin(), chip.pin);
    }

    method StrobeCk()
      modifies this`chip, this`clash
      ensures chip == OnStrobe(part, old(chip), Level(Pin(), old(chip.pin)))
      ensures clash == (old(clash) || Clash(Pin(), old(chip.pin)) || Clash(Pin(), chip.pin))
    {
      clash := clash || Clash(Pin(), chip.pin);
      chip := OnStrobe(part, chip, Level(Pin(), chip.pin));
      clash := clash || Clash(Pin(), chip.pin);
    }

    /** Drive one bit and clock it in. */
    method SendBit(bit: bool)
      requires !input && chip.pin.Z?
      modifies this`value, this`chip, this`clash
      ensures chip == OnStrobe(part, old(chip), bit)
      ensures chip.pin.Z? ==> clash == old(clash)
    {
      SetValue(bit);
      StrobeCk();
    }

    /** The ADDRESS field of an address write. */
    method SendAddress(addr: byte)
      requires !input && chip.pin.Z? && chip.phase == AddrIn([])
      modifies this`value, this`chip, this`clash
      ensures clash == old(clash)
      ensures chip == old(chip).(phase := Stop, dev := old(chip.dev).(ar := addr))
    {
      hide Bits, Value;
      var a: nat := addr;
      ghost var sent: seq<bool> := [];
      for i := 0 to 8
        invariant clash == old(clash)
        invariant |sent| == i && sent + Bits(a, 8 - i) == Bits(addr, 8)
        invariant i < 8 ==> chip == old(chip).(phase := AddrIn(sent))
        invariant i == 8 ==> chip == old(chip).(phase := Stop, dev := old(chip.dev).(ar := ByteOf(sent)))
      {
        BitsHead(a, 8 - i);
        assert sent + Bits(a, 8 - i) == (sent + [a % 2 == 1]) + Bits(a / 2, 7 - i);
        SendBit(a % 2 == 1);
        sent := sent + [a % 2 == 1];
        a := a / 2;
      }
      assert sent == Bits(addr, 8);
      ByteOfBits(addr);
    }

    method WriteAr(addr: byte)
      requires Quiet()
      modifies this`input, this`value, this`chip, this`clash
      ensures Quiet() && clash == old(clash)
      ensures chip == old(chip).(dev := old(chip.dev).(ar := addr))
    {
      StrobeCk();
      Direction(false);
      SendBit(true);
      SendBit(true);
      SendAddress(addr);
      Direction(true);
      StrobeCk();
    }

    method ReadAr() returns (addr: byte)
      requires Quiet()
      modifies this`input, this`value, this`chip, this`clash
      ensures Quiet() && clash == old(clash)
      ensures addr == StatusByte(part, old(chip.dev))
      ensures chip == old(chip).(dev := AfterStatus(old(chip.dev)))
    {
      StrobeCk();
      Direction(false);
      SendBit(false);
      SendBit(true);
      Direction(true);
      addr := ShiftInByte(StatusByte(part, old(chip.dev)));
      StrobeCk();
    }

    /** The eight strobes of an ADDRESS or DATA field the chip drives. */
    method ShiftInByte(ghost v: byte) returns (data: byte)
      requires input && chip.phase == ShiftOut(Bits(v, 8))
      modifies this`chip, this`clash
      ensures data == v
      ensures clash == old(clash)
      ensures chip == old(chip).(phase := ShiftOut([]), pin := chip.pin)
    {
      hide Bits, Shifted, Value;
      var w: nat := 0;
      ghost var sent := Bits(v, 8);
      ShiftEnds(sent);
      for i := 0 to 8
        invariant w == Value(Shifted(sent, i))
        invariant chip == old(chip).(phase := ShiftOut(sent[i..]), pin := chip.pin)
        invariant clash == old(clash)
      {
        ShiftStep(sent, i);
        w := w / 2;
        StrobeCk();
        var level := GetValue();
        if level {
          w := w + 0x80;  // sets bit 7, which the shift has just cleared
        }
      }
      assert sent[8..] == [];
      ByteOfBits(v);
      data := w;
    }

    /** The WAIT field: strobe until the chip says ready, at most twenty times. */
    method AwaitReady(ghost more: nat) returns (ok: bool)
      requires input
      requires chip.phase == WaitRead(more) || (chip.phase.WaitWrite? && chip.phase.more == more)
      modifies this`chip, this`clash
      ensures clash == old(clash)
      ensures ok <==> more < 20
      ensures chip.accesses == old(chip.accesses)
      ensures !ok ==> chip.dev == old(chip.dev) && more >= 20 && chip.phase == old(chip.phase).(more := more - 20)
                      && chip.pin == Low
      ensures ok && old(chip.phase).WaitRead? ==>
        chip.phase == ShiftOut(Bits(DataByte(part, old(chip.dev)), 8)) && chip.dev == AfterData(part, old(chip.dev))
      ensures ok && old(chip.phase).WaitWrite? ==>
        chip.phase == Stop && chip.dev == WriteData(part, old(chip.dev), old(chip.phase).data)
    {
      var timeout := 20;
      while true
        invariant 0 < timeout <= 20
        invariant more >= 20 - timeout
        invariant chip == old(chip).(phase := old(chip.phase).(more := more - (20 - timeout)), pin := chip.pin)
        invariant clash == old(clash)
        decreases timeout
      {
        StrobeCk();
        var level := GetValue();
        if level {
          return true;
        }
        timeout := timeout - 1;
        if timeout == 0 {
          return false;
        }
      }
    }

    /** The DATA field of a write. */
    method SendData(data: byte)
      requires !input && chip.pin.Z? && chip.phase == DataIn([])
      modifies this`value, this`chip, this`clash
      ensures clash == old(clash)
      ensures chip == old(chip).(phase := WaitWrite(data, part.wait(old(chip.accesses))),
                                 accesses := old(chip.accesses) + 1)
    {
      hide Bits, Value;
      var d: nat := data;
      ghost var sent: seq<bool> := [];
      for i := 0 to 8
        invariant clash == old(clash)
        invariant |sent| == i && sent + Bits(d, 8 - i) == Bits(data, 8)
        invariant i < 8 ==> chip == old(chip).(phase := DataIn(sent))
        invariant i == 8 ==> chip == old(chip).(phase := WaitWrite(ByteOf(sent), part.wait(old(chip.accesses))),
                                                accesses := old(chip.accesses) + 1)
      {
        BitsHead(d, 8 - i);
        assert sent + Bits(d, 8 - i) == (sent + [d % 2 == 1]) + Bits(d / 2, 7 - i);
        SendBit(d % 2 == 1);
        sent := sent + [d % 2 == 1];
        d := d / 2;
      }
      assert sent == Bits(data, 8);
      ByteOfBits(data);
    }

    method WriteDr(data: byte) returns (ok: bool)
      requires Quiet()
      modifies this`input, this`value, this`chip, this`clash
      ensures clash == old(clash) && input
      ensures ok <==> part.wait(old(chip.accesses)) < 20
      ensures ok ==> Quiet() && chip.dev == WriteData(part, old(chip.dev), data)
      ensures !ok ==> Stalled() && chip.dev == old(chip.dev)
      ensures chip.accesses == old(chip.accesses) + 1
    {
      hide DataByte, AfterData, WriteData;
      StrobeCk();
      Direction(false);
      SendBit(true);
      SendBit(false);
      SendBit(false);
      SendBit(false);
      SendData(data);
      Direction(true);
      ok := AwaitReady(part.wait(old(chip.accesses)));
      if !ok {
        return;
      }
      StrobeCk();
    }

    method ReadDr() returns (ok: bool, data: byte)
      requires Quiet()
      modifies this`input, this`value, this`chip, this`clash
      ensures clash == old(clash) && input
      ensures ok <==> part.wait(old(chip.accesses)) < 20
      ensures ok ==> Quiet() && data == DataByte(part, old(chip.dev)) && chip.dev == AfterData(part, old(chip.dev))
      ensures !ok ==> Stalled() && chip.dev == old(chip.dev)
      ensures chip.accesses == old(chip.accesses) + 1
    {
      hide Bits, DataByte, AfterData, WriteData;
      data := 0;
      StrobeCk();
      Direction(false);
      SendBit(false);
      SendBit(false);
      SendBit(false);
      SendBit(false);
      Direction(true);
      ok := AwaitReady(part.wait(old(chip.accesses)));
      if !ok {
        return;
      }
      data := ShiftInByte(DataByte(part, old(chip.dev)));
      StrobeCk();
    }

    /** Hold the clock low; wherever a frame had got to, the chip is back between frames. */
    method ResetChip()
      requires Quiet() || Stalled()
      modifies this`chip
      ensures Quiet() && chip.dev == AfterReset(old(chip.dev)) && chip.accesses == old(chip.accesses)
    {
      chip := OnReset(chip);
    }

    method Ioctl(r: Request) returns (reply: Reply)
      requires Quiet() || (Stalled() && !TakesFrame(r))
      modifies this`input, this`value, this`chip, this`clash
      ensures clash == old(clash) && (Quiet() || Stalled())
      ensures (State(), reply) == Step(part, old(State()), r)
      // an address request selects the register and does nothing else
      ensures r.WriteAddress? ==> reply == Done && chip.dev == old(chip.dev).(ar := r.addr)
      // the status byte shows output ready and input busy, and asking for it touches no register
      ensures r.ReadAddress? ==>
        && reply == Answer(StatusByte(part, old(chip.dev))) && SameRegisters(chip.dev, old(chip.dev))
        && (reply.b % 2 == 1 <==> old(chip.dev.core.out.Some? && chip.dev.late == 0))
        && (reply.b / 2 % 2 == 1 <==> old(chip.dev.busy) > 0)
      // a data request on a chip that is not ready within 20 strobes fails and changes no register
      ensures (r.WriteByte? || r.ReadByte?) && part.wait(old(chip.accesses)) >= 20 ==>
        reply == Error(-EIO) && Stalled() && chip.dev == old(chip.dev)
      // otherwise it writes or reads the register selected
      ensures r.WriteByte? && part.wait(old(chip.accesses)) < 20 ==>
        reply == Done && (old(chip.dev.ar) != part.fpdat ==>
                            chip.dev == old(chip.dev).(sfr := old(chip.dev.sfr)[old(chip.dev.ar) := r.data]))
      ensures r.ReadByte? && part.wait(old(chip.accesses)) < 20 ==>
        reply.Answer? && (old(chip.dev.ar) != part.fpdat && old(chip.dev.ar) in old(chip.dev.sfr) ==>
                            reply.b == old(chip.dev.sfr)[old(chip.dev.ar)] && chip.dev == old(chip.dev))
      // a reset idles the PI and keeps registers and flash
      ensures r.Reset? ==>
        && reply == Done && Quiet() && chip.dev.ar == old(chip.dev.ar) && chip.dev.sfr == old(chip.dev.sfr)
        && chip.dev.core == Core(Command, None, old(chip.dev.core.flash)) && chip.dev.busy == 0
      ensures r.Unknown? ==> reply == (if r.ours then Done else Error(-EINVAL)) && chip == old(chip)
      ensures old(Quiet()) && InTime(part) ==> Quiet()
    {
      match r {
        case Reset => ResetChip(); reply := Done;
        case WriteAddress(a) => WriteAr(a); reply := Done;
        case ReadAddress => var a := ReadAr(); reply := Answer(a);
        case WriteByte(v) => var ok := WriteDr(v); reply := if ok then Done else Error(-EIO);
        case ReadByte => var ok, d := ReadDr(); reply := if ok then Answer(d) else Error(-EIO);
        case Unknown(ours) => reply := if ours then Done else Error(-EINVAL);
      }
    }

    /** Any sequence of requests is the same sequence on the bare registers, timed-out accesses and resets included,
        and at no moment do host and chip both drive the data wire.  It ends early only where a frame would be started
        with the chip still in the middle of one. */
    method Session(rs: seq<Request>) returns (done: nat, replies: seq<Reply>)
      requires Quiet()
      modifies this`input, this`value, this`chip, this`clash
      ensures clash == old(clash) && input
      ensures done <= |rs| && (State(), replies) == Run(part, old(State()), rs[..done])
      ensures Quiet() <==> !State().stalled
      ensures done < |rs| ==> State().stalled && !rs[done].Reset? && !rs[done].Unknown?
      ensures InTime(part) ==> done == |rs|
    {
      hide Step;
      done, replies := 0, [];
      while done < |rs| && (chip.phase.Idle? || !TakesFrame(rs[done]))
        invariant done <= |rs| && (State(), replies) == Run(part, old(State()), rs[..done])
        invariant clash == old(clash) && (Quiet() || Stalled()) && (InTime(part) ==> Quiet())
      {
        RunNext(part, old(State()), rs, done);
        var reply := Ioctl(rs[done]);
        replies := replies + [reply];
        done := done + 1;
      }
    }
  }
}
