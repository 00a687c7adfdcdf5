/** The two I2C wires as UM10204 describes them: open-drain lines, START and STOP conditions, bits sampled while
    SCL is high, and the slave at the other end with its byte and acknowledge slots. */
module I2cBus {
  import opened Bytes

  // ---------------------------------------------------------------- bytes, most significant bit first

  function Shr(c: nat, i: nat): nat {
    if i == 0 then c else Shr(c / 2, i - 1)
  }

  /** The n low bits of c in wire order. */
  function MsbBits(c: nat, n: nat): (s: seq<bool>)
    ensures |s| == n
  {
    if n == 0 then [] else MsbBits(c / 2, n - 1) + [c % 2 == 1]
  }

  function Msb(c: byte): (s: seq<bool>)
    ensures |s| == 8
  {
    MsbBits(c, 8)
  }

  function MsbValue(s: seq<bool>): nat {
    if s == [] then 0 else 2 * MsbValue(s[..|s| - 1]) + BitValue(s[|s| - 1])
  }

  lemma {:induction false} MsbBound(s: seq<bool>)
    ensures MsbValue(s) < Pow2(|s|)
  {
    if s != [] {
      MsbBound(s[..|s| - 1]);
    }
  }

  /** The k-th bit out is bit n - 1 - k of the number. */
  lemma {:induction false} MsbBitAt(c: nat, n: nat, k: nat)
    requires k < n
    ensures MsbBits(c, n)[k] == (Shr(c, n - 1 - k) % 2 == 1)
  {
    if k < n - 1 {
      MsbBitAt(c / 2, n - 1, k);
    }
  }

  lemma Halved(c: nat, n: nat)
    requires n > 0
    ensures c < Pow2(n) <==> c / 2 < Pow2(n - 1)
  {
  }

  lemma {:induction false} MsbValueOfBits(c: nat, n: nat)
    requires c < Pow2(n)
    ensures MsbValue(MsbBits(c, n)) == c
  {
    if n > 0 {
      Halved(c, n);
      MsbValueOfBits(c / 2, n - 1);
      assert MsbBits(c, n)[..n - 1] == MsbBits(c / 2, n - 1);
    }
  }

  /** A byte survives being sent bit by bit. */
  lemma MsbRoundTrip(c: byte)
    ensures MsbValue(Msb(c)) == c
  {
    Pow2Values();
    MsbValueOfBits(c, 8);
  }

  function MsbByte(s: seq<bool>): byte
    requires |s| <= 8
  {
    MsbBound(s); Pow2Values(); Pow2Mono(|s|, 8);
    MsbValue(s)
  }

  // ---------------------------------------------------------------- the slave

  /** What a slave sees happen to it. */
  datatype Event = Started | Stopped | Got(byte: byte, acked: bool) | Sent(byte: byte, acked: bool)

  /** Where the slave stands: ignoring the bus, receiving a byte (`first` after a START, so an address),
      answering the acknowledge slot, sending a byte, or reading the master's acknowledge. */
  datatype Mode =
    | Off
    | Recv(got: seq<bool>, first: bool)
    | AckOut(byte: byte, first: bool, ack: bool)
    | Send(byte: byte, rest: seq<bool>)
    | AckIn(byte: byte)

  datatype Slave = Slave(mode: Mode, acks: nat, sends: nat, record: seq<Event>)

  /** Everything the world decides: which bytes the slave acknowledges, which bytes it sends, for how many
      reads of SCL it stretches the clock at the n-th rise, and how many reads the master has patience for. */
  datatype World = World(ack: nat -> bool, data: nat -> byte, hold: nat -> nat, patience: nat -> nat)

  /** Is the slave pulling SDA low? */
  predicate Pull(s: Slave) {
    match s.mode
    case AckOut(_, _, ack) => ack
    case Send(_, rest) => rest != [] && !rest[0]
    case _ => false
  }

  function OnStart(s: Slave): Slave {
    s.(mode := Recv([], true), record := s.record + [Started])
  }

  function OnStop(s: Slave): Slave {
    s.(mode := Off, record := s.record + [Stopped])
  }

  function BeginSend(w: World, s: Slave): Slave {
    s.(mode := Send(w.data(s.sends), Msb(w.data(s.sends))), sends := s.sends + 1)
  }

  /** One clock pulse with `bit` on the wire. */
  function OnBit(w: World, s: Slave, bit: bool): Slave {
    match s.mode
    case Off => s
    case Recv(got, first) =>
      if |got| < 7 then s.(mode := Recv(got + [bit], first))
      else if |got| == 7 then s.(mode := AckOut(MsbByte(got + [bit]), first, w.ack(s.acks)), acks := s.acks + 1)
      else s.(mode := Off)
    case AckOut(byte, first, ack) =>
      var t := s.(record := s.record + [Got(byte, ack)]);
      if !ack then t.(mode := Off)
      else if first && byte % 2 == 1 then BeginSend(w, t)
      else t.(mode := Recv([], false))
    case Send(byte, rest) =>
      if |rest| <= 1 then s.(mode := AckIn(byte)) else s.(mode := Send(byte, rest[1..]))
    case AckIn(byte) =>
      var t := s.(record := s.record + [Sent(byte, !bit)]);
      if bit then t.(mode := Off) else BeginSend(w, t)
  }

  // ---------------------------------------------------------------- the wires

  datatype Symbol = Start | Stop | Bit(b: bool)

  /** SCL low, or high since a rise that found SDA at `bit`; `marked` once a START or STOP used this pulse. */
  datatype Pulse = Low | High(bit: bool, marked: bool)

  /** What the master releases (true) or holds low, the clock phase, the slave, and everything that has been
      signalled so far. */
  datatype Bus = Bus(scl: bool, sda: bool, pulse: Pulse, slave: Slave, log: seq<Symbol>)

  predicate Sda(b: Bus) {
    b.sda && !Pull(b.slave)
  }

  /** SDA moving while SCL is high is a START when it falls and a STOP when it rises. */
  function SetSda(b: Bus, v: bool): Bus {
    var c := b.(sda := v);
    if b.pulse.Low? || Sda(b) == Sda(c) then c
    else if Sda(c) then
      c.(log := c.log + [Stop], slave := OnStop(c.slave), pulse := b.pulse.(marked := true))
    else
      c.(log := c.log + [Start], slave := OnStart(c.slave), pulse := b.pulse.(marked := true))
  }

  function SclRise(b: Bus): Bus {
    if b.pulse.Low? then b.(scl := true, pulse := High(Sda(b), false)) else b.(scl := true)
  }

  /** A pulse that was neither START nor STOP carried a bit. */
  function SclFall(w: World, b: Bus): Bus {
    var c := b.(scl := false, pulse := Low);
    if b.pulse.Low? || b.pulse.marked then c
    else c.(log := c.log + [Bit(b.pulse.bit)], slave := OnBit(w, c.slave, b.pulse.bit))
  }

  /** The clock is low and the master holds it there. */
  predicate Clocking(b: Bus) {
    !b.scl && b.pulse.Low?
  }

  /** Both lines are high. */
  predicate LinesHigh(b: Bus) {
    b.scl && b.pulse.High? && Sda(b)
  }

  // ---------------------------------------------------------------- pulses, bits and bytes

  /** The slave and the line over a run of clock pulses in which the master offers `ms`. */
  function ShiftAll(w: World, s: Slave, ms: seq<bool>): Slave {
    if ms == [] then s
    else
      var n := |ms| - 1;
      var t := ShiftAll(w, s, ms[..n]);
      OnBit(w, t, ms[n] && !Pull(t))
  }

  function Seen(w: World, s: Slave, ms: seq<bool>): (bits: seq<bool>)
    ensures |bits| == |ms|
  {
    if ms == [] then []
    else
      var n := |ms| - 1;
      Seen(w, s, ms[..n]) + [ms[n] && !Pull(ShiftAll(w, s, ms[..n]))]
  }

  function Symbols(bits: seq<bool>): (r: seq<Symbol>)
    ensures |r| == |bits|
  {
    seq(|bits|, i requires 0 <= i < |bits| => Bit(bits[i]))
  }

  lemma ShiftNone(w: World, s: Slave)
    ensures ShiftAll(w, s, []) == s && Seen(w, s, []) == []
  {
  }

  lemma ShiftNext(w: World, s: Slave, ms: seq<bool>, m: bool)
    ensures var t := ShiftAll(w, s, ms);
      && ShiftAll(w, s, ms + [m]) == OnBit(w, t, m && !Pull(t))
      && Seen(w, s, ms + [m]) == Seen(w, s, ms) + [m && !Pull(t)]
      && Symbols(Seen(w, s, ms + [m])) == Symbols(Seen(w, s, ms)) + [Bit(m && !Pull(t))]
  {
    assert (ms + [m])[..|ms|] == ms;
  }

  /** A clocked master bit is one pulse on the wire. */
  lemma PulseBit(w: World, b: Bus, m: bool)
    requires Clocking(b)
    ensures var bit := m && !Pull(b.slave);
      SclFall(w, SclRise(SetSda(b, m)))
      == b.(sda := m, slave := OnBit(w, b.slave, bit), log := b.log + [Bit(bit)])
  {
  }

  /** The bus after the master has clocked `ms` from a low clock, leaving SDA at `sda`. */
  function Pulsed(w: World, b: Bus, ms: seq<bool>, sda: bool): (r: Bus)
    ensures r.sda == sda
  {
    b.(sda := sda, slave := ShiftAll(w, b.slave, ms), log := b.log + Symbols(Seen(w, b.slave, ms)))
  }

  lemma PulseNext(w: World, b: Bus, ms: seq<bool>, sda: bool, m: bool)
    requires Clocking(b)
    ensures SclFall(w, SclRise(SetSda(Pulsed(w, b, ms, sda), m))) == Pulsed(w, b, ms + [m], m)
  {
    PulseBit(w, Pulsed(w, b, ms, sda), m);
    ShiftNext(w, b.slave, ms, m);
  }
}
