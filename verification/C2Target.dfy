/** The chip at the other end of the two C2 wires, as the C2 interface specification and Silicon Labs
    application note 127 describe it: a frame decoder clocked by C2CK strobes, a register file behind it,
    and the flash programming interface (PI) behind the FPDAT register.

    How long the chip keeps the host waiting is left open: `Part` carries one arbitrary answer per access. */
module C2Target {
  import opened Bytes

  // Programming interface commands and answers
  const BLOCK_READ: byte := 0x06
  const BLOCK_WRITE: byte := 0x07
  const PAGE_ERASE: byte := 0x08
  const DEVICE_ERASE: byte := 0x03
  const INVALID_COMMAND: byte := 0x00
  const COMMAND_FAILED: byte := 0x02
  const COMMAND_OK: byte := 0x0D

  /** What one device on the C2D wire does to it. */
  datatype Pin = Z | Low | High

  /** The wire is pulled up; any driver pulling low wins. */
  predicate Level(a: Pin, b: Pin) {
    !a.Low? && !b.Low?
  }

  predicate Clash(a: Pin, b: Pin) {
    !a.Z? && !b.Z?
  }

  function Driven(b: bool): Pin {
    if b then High else Low
  }

  /** The fixed facts about a chip.  `wait(n)` is the number of WAIT strobes the n-th data register access
      answers "not ready"; `busy(n)` and `late(n)` are the numbers of status reads for which the n-th PI
      exchange still shows InBusy and not yet OutReady; `noise` fills the status bits nobody defines. */
  datatype Part = Part(fpdat: byte, pageSize: nat,
                       wait: nat -> nat, busy: nat -> nat, late: nat -> nat, noise: nat -> nat)

  // ---------------------------------------------------------------- programming interface

  datatype Pi =
    | Command
    | AddrHigh(write: bool)
    | AddrLow(write: bool, high: byte)
    | Length(write: bool, addr: nat)
    | Reading(next: nat, left: nat)
    | Writing(next: nat, left: nat)
    | Page
    | Confirm(page: byte)
    | Wipe(stage: nat)
    | Lost

  /** The PI automaton with its one-byte output register and the flash it works on. */
  datatype Core = Core(pi: Pi, out: Option<byte>, flash: seq<byte>)

  function Erased(flash: seq<byte>, lo: nat, hi: nat): (r: seq<byte>)
    ensures |r| == |flash|
  {
    seq(|flash|, i requires 0 <= i < |flash| => if lo <= i < hi then 0xFF else flash[i])
  }

  /** Where a page begins. */
  function PageStart(pageSize: nat, page: nat): nat {
    if page == 0 then 0 else PageStart(pageSize, page - 1) + pageSize
  }

  function ErasePage(flash: seq<byte>, pageSize: nat, page: nat): (r: seq<byte>)
    ensures |r| == |flash|
  {
    Erased(flash, PageStart(pageSize, page), PageStart(pageSize, page) + pageSize)
  }

  /** Programming a flash cell can only clear bits. */
  function ProgramByte(flash: seq<byte>, a: nat, d: byte): (r: seq<byte>)
    ensures |r| == |flash|
  {
    if a < |flash| then AndBound(flash[a], d); flash[a := And(flash[a], d)] else flash
  }

  /** Block length as it travels: one byte, 0 standing for 256. */
  function BlockLength(d: byte): nat {
    if d == 0 then 256 else d
  }

  /** The PI receives a byte through FPDAT.  An answer nobody collected is overwritten. */
  function Feed(pageSize: nat, c: Core, d: byte): Core {
    var silent := c.(out := None);
    var ok := c.(out := Some(COMMAND_OK));
    match c.pi
    case Command =>
      if d == BLOCK_READ then ok.(pi := AddrHigh(false))
      else if d == BLOCK_WRITE then ok.(pi := AddrHigh(true))
      else if d == PAGE_ERASE then ok.(pi := Page)
      else if d == DEVICE_ERASE then ok.(pi := Wipe(0))
      else c.(out := Some(INVALID_COMMAND))
    case AddrHigh(w) => silent.(pi := AddrLow(w, d))
    case AddrLow(w, h) => silent.(pi := Length(w, 256 * h + d))
    case Length(w, a) =>
      if a + BlockLength(d) > |c.flash| then Core(Command, Some(COMMAND_FAILED), c.flash)
      else if w then ok.(pi := Writing(a, BlockLength(d)))
      else ok.(pi := Reading(a, BlockLength(d)))
    case Writing(a, n) =>
      var flash := ProgramByte(c.flash, a, d);
      if n <= 1 then Core(Command, Some(COMMAND_OK), flash)
      else Core(Writing(a + 1, n - 1), None, flash)
    case Page =>
      if PageStart(pageSize, d) + pageSize > |c.flash| then Core(Command, Some(COMMAND_FAILED), c.flash)
      else ok.(pi := Confirm(d))
    case Confirm(p) =>
      if d == 0 then Core(Command, Some(COMMAND_OK), ErasePage(c.flash, pageSize, p))
      else Core(Command, Some(COMMAND_FAILED), c.flash)
    case Wipe(k) =>
      if d != (if k == 0 then 0xDE else if k == 1 then 0xAD else 0xA5) then
        Core(Command, Some(COMMAND_FAILED), c.flash)
      else if k < 2 then silent.(pi := Wipe(k + 1))
      else Core(Command, Some(COMMAND_OK), Erased(c.flash, 0, |c.flash|))
    case Reading(_, _) => silent.(pi := Lost)
    case Lost => silent
  }

  /** The host collects the output byte; a block read then offers its next byte. */
  function Take(c: Core): Core {
    match c.pi
    case Reading(a, n) =>
      if n == 0 then c.(pi := Command, out := None)
      else c.(pi := Reading(a + 1, n - 1), out := Some(if a < |c.flash| then c.flash[a] else 0xFF))
    case _ => c.(out := None)
  }

  // ---------------------------------------------------------------- registers

  /** The registers behind the wire: the selected address, the PI, every other register, and how many more
      status reads will show InBusy set and OutReady clear.  `tick` and `polls` count PI exchanges and status
      reads; they only pick the next answers out of `Part`. */
  datatype Dev = Dev(ar: byte, core: Core, sfr: map<byte, byte>, busy: nat, late: nat,
                     tick: nat, polls: nat)

  function Less(n: nat): nat {
    if n == 0 then 0 else n - 1
  }

  function StatusByte(p: Part, d: Dev): byte {
    (if d.core.out.Some? && d.late == 0 then 1 else 0) + (if d.busy > 0 then 2 else 0)
    + 4 * (p.noise(d.polls) % 64)
  }

  function AfterStatus(d: Dev): Dev {
    d.(busy := Less(d.busy), late := Less(d.late), polls := d.polls + 1)
  }

  /** A write to the selected register.  A PI still busy with the previous byte loses this one. */
  function WriteData(p: Part, d: Dev, v: byte): Dev {
    if d.ar != p.fpdat then d.(sfr := d.sfr[d.ar := v])
    else if d.busy > 0 then d.(core := d.core.(pi := Lost))
    else d.(core := Feed(p.pageSize, d.core, v),
            busy := p.busy(d.tick), late := p.late(d.tick), tick := d.tick + 1)
  }

  predicate Ready(p: Part, d: Dev) {
    d.ar == p.fpdat && d.core.out.Some? && d.late == 0
  }

  function DataByte(p: Part, d: Dev): byte {
    if d.ar != p.fpdat then (if d.ar in d.sfr then d.sfr[d.ar] else 0)
    else if Ready(p, d) then d.core.out.value else 0
  }

  function AfterData(p: Part, d: Dev): Dev {
    if Ready(p, d) then d.(core := Take(d.core), late := p.late(d.tick), tick := d.tick + 1) else d
  }

  /** A reset ends whatever the PI was doing; the flash stays. */
  function AfterReset(d: Dev): Dev {
    d.(core := Core(Command, None, d.core.flash), busy := 0, late := 0)
  }

  // ---------------------------------------------------------------- frames

  /** Where in a frame the decoder stands.  `Jammed` is a frame this decoder does not follow any further (a START on a
      wire that is not released, or a data length other than one byte). */
  datatype Phase =
    | Idle
    | Ins
    | Ins2(first: bool)
    | Len(write: bool)
    | Len2(write: bool, first: bool)
    | AddrIn(got: seq<bool>)
    | DataIn(got: seq<bool>)
    | WaitWrite(data: byte, more: nat)
    | WaitRead(more: nat)
    | ShiftOut(rest: seq<bool>)
    | Stop
    | Jammed

  /** `accesses` counts the data register accesses so far; it only picks the next waiting time. */
  datatype Chip = Chip(phase: Phase, pin: Pin, dev: Dev, accesses: nat)

  function ByteOf(s: seq<bool>): byte
    requires |s| <= 8
  {
    ByteBound(s); Value(s)
  }

  /** The two instruction bits are in. */
  function Decode(p: Part, c: Chip, first: bool, second: bool): Chip {
    if first && second then c.(phase := AddrIn([]))
    else if second then
      c.(phase := ShiftOut(Bits(StatusByte(p, c.dev), 8)), dev := AfterStatus(c.dev))
    else c.(phase := Len(first))
  }

  /** One clock strobe, the data wire being at `level`. */
  function OnStrobe(p: Part, c: Chip, level: bool): Chip {
    match c.phase
    case Idle => if level then c.(phase := Ins, pin := Z) else c.(phase := Jammed)
    case Ins => c.(phase := Ins2(level))
    case Ins2(first) => Decode(p, c, first, level)
    case Len(w) => c.(phase := Len2(w, level))
    case Len2(w, first) =>
      if first || level then c.(phase := Jammed)
      else if w then c.(phase := DataIn([]))
      else c.(phase := WaitRead(p.wait(c.accesses)), accesses := c.accesses + 1)
    case AddrIn(got) =>
      if |got| < 7 then c.(phase := AddrIn(got + [level]))
      else if |got| == 7 then c.(phase := Stop, dev := c.dev.(ar := ByteOf(got + [level])))
      else c.(phase := Jammed)
    case DataIn(got) =>
      if |got| < 7 then c.(phase := DataIn(got + [level]))
      else if |got| == 7 then
        c.(phase := WaitWrite(ByteOf(got + [level]), p.wait(c.accesses)), accesses := c.accesses + 1)
      else c.(phase := Jammed)
    case WaitWrite(d, n) =>
      if n > 0 then c.(phase := WaitWrite(d, n - 1), pin := Low)
      else c.(phase := Stop, pin := High, dev := WriteData(p, c.dev, d))
    case WaitRead(n) =>
      if n > 0 then c.(phase := WaitRead(n - 1), pin := Low)
      else c.(phase := ShiftOut(Bits(DataByte(p, c.dev), 8)), pin := High, dev := AfterData(p, c.dev))
    case ShiftOut(rest) =>
      if rest == [] then c.(phase := Idle, pin := Z)
      else c.(phase := ShiftOut(rest[1..]), pin := Driven(rest[0]))
    case Stop => c.(phase := Idle, pin := Z)
    case Jammed => c
  }

  /** C2CK held low for more than 20 us resets the chip, wherever a frame had got to. */
  function OnReset(c: Chip): Chip {
    Chip(Idle, Z, AfterReset(c.dev), c.accesses)
  }
}
