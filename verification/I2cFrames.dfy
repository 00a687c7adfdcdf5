/** Bytes as the slave takes part in them, and the shape of everything that is signalled. */
module I2cFrames {
  import opened Bytes
  import opened I2cBus
  import opened I2cMaster

  // ---------------------------------------------------------------- the slave between two frames

  /** About to send its next byte. */
  predicate Sending(s: Slave) {
    s.mode.Send? && s.mode.rest == Msb(s.mode.byte)
  }

  /** Between two frames and leaving SDA alone. */
  predicate Free(s: Slave) {
    s.mode.Off? || (s.mode.Recv? && s.mode.got == [])
  }

  predicate Boundary(s: Slave) {
    Free(s) || Sending(s)
  }

  /** About to send the byte it last picked. */
  predicate Offering(w: World, s: Slave) {
    Sending(s) && s.sends > 0 && s.mode.byte == w.data(s.sends - 1)
  }

  /** Between two frames, as a slave gets there. */
  predicate Steady(w: World, s: Slave) {
    Boundary(s) && (Sending(s) ==> Offering(w, s))
  }

  /** What a slave has seen only ever grows. */
  predicate Grows(s: Slave, t: Slave) {
    s.record <= t.record
  }

  /** Between two frames, the address being over. */
  predicate Settled(s: Slave) {
    Boundary(s) && !(s.mode.Recv? && s.mode.first)
  }

  lemma RecvBit(w: World, s: Slave, bit: bool)
    requires s.mode.Recv? && |s.mode.got| < 7
    ensures OnBit(w, s, bit) == s.(mode := Recv(s.mode.got + [bit], s.mode.first)) && !Pull(s)
  {
  }

  /** A slave waiting for a byte takes in exactly what the master puts out. */
  lemma {:induction false} RecvBits(w: World, s: Slave, ms: seq<bool>)
    requires s.mode.Recv? && s.mode.got == [] && |ms| <= 7
    ensures ShiftAll(w, s, ms) == s.(mode := Recv(ms, s.mode.first))
    ensures Seen(w, s, ms) == ms
  {
    hide ShiftAll, Seen, Symbols, OnBit, Pull;
    if ms == [] {
      ShiftNone(w, s);
    } else {
      var n := |ms| - 1;
      RecvBits(w, s, ms[..n]);
      ShiftNext(w, s, ms[..n], ms[n]);
      RecvBit(w, s.(mode := Recv(ms[..n], s.mode.first)), ms[n]);
      assert ms[..n] + [ms[n]] == ms;
    }
  }

  lemma RecvByte(w: World, s: Slave, c: byte)
    requires s.mode.Recv? && s.mode.got == []
    ensures ShiftAll(w, s, Msb(c)) == s.(mode := AckOut(c, s.mode.first, w.ack(s.acks)), acks := s.acks + 1)
    ensures Seen(w, s, Msb(c)) == Msb(c)
  {
    var ms := Msb(c);
    RecvBits(w, s, ms[..7]);
    assert ms[..7] + [ms[7]] == ms;
    ShiftNext(w, s, ms[..7], ms[7]);
    MsbRoundTrip(c);
  }

  lemma SendBit(w: World, s: Slave, bit: bool)
    requires s.mode.Send? && |s.mode.rest| > 1
    ensures OnBit(w, s, bit) == s.(mode := Send(s.mode.byte, s.mode.rest[1..])) && Pull(s) == !s.mode.rest[0]
  {
  }

  /** A sending slave puts its byte on a released wire, whatever is clocked. */
  lemma {:induction false} SendBits(w: World, s: Slave, ms: seq<bool>)
    requires Sending(s) && |ms| <= 7
    ensures ShiftAll(w, s, ms) == s.(mode := Send(s.mode.byte, Msb(s.mode.byte)[|ms|..]))
    ensures ms == Ones(|ms|) ==> Seen(w, s, ms) == Msb(s.mode.byte)[..|ms|]
  {
    hide ShiftAll, Seen, Symbols, OnBit, Pull, Msb;
    if ms == [] {
      ShiftNone(w, s);
    } else {
      var n := |ms| - 1;
      var byte := s.mode.byte;
      SendBits(w, s, ms[..n]);
      ShiftNext(w, s, ms[..n], ms[n]);
      SendBit(w, s.(mode := Send(byte, Msb(byte)[n..])), ms[n] && Msb(byte)[n]);
      assert ms[..n] + [ms[n]] == ms;
      assert Ones(n + 1)[..n] == Ones(n);
      assert Msb(byte)[n..][1..] == Msb(byte)[n + 1..];
    }
  }

  lemma SendByte(w: World, s: Slave, ms: seq<bool>)
    requires Sending(s) && |ms| == 8
    ensures ShiftAll(w, s, ms) == s.(mode := AckIn(s.mode.byte))
    ensures ms == Ones(8) ==> Seen(w, s, ms) == Msb(s.mode.byte)
  {
    SendBits(w, s, ms[..7]);
    assert ms[..7] + [ms[7]] == ms;
    ShiftNext(w, s, ms[..7], ms[7]);
    assert Ones(8)[..7] == Ones(7);
    assert Msb(s.mode.byte)[..7] + [Msb(s.mode.byte)[7]] == Msb(s.mode.byte);
  }

  lemma {:induction false} OffBits(w: World, s: Slave, ms: seq<bool>)
    requires s.mode.Off?
    ensures ShiftAll(w, s, ms) == s
  {
    if ms != [] {
      OffBits(w, s, ms[..|ms| - 1]);
    }
  }

  /** The slave after acknowledging (or not) a byte it received. */
  function AfterGot(w: World, s: Slave, c: byte): Slave
    requires s.mode.Recv?
  {
    var t := s.(acks := s.acks + 1, record := s.record + [Got(c, w.ack(s.acks))]);
    if !w.ack(s.acks) then t.(mode := Off)
    else if s.mode.first && c % 2 == 1 then BeginSend(w, t)
    else t.(mode := Recv([], false))
  }

  /** The slave after sending a byte and seeing the master's acknowledge. */
  function AfterSent(w: World, s: Slave, acked: bool): Slave
    requires s.mode.Send?
  {
    var t := s.(record := s.record + [Sent(s.mode.byte, acked)]);
    if acked then BeginSend(w, t) else t.(mode := Off)
  }

  /** A byte sent by the master, acknowledge slot included. */
  function AfterOut(w: World, s: Slave, c: byte): Slave
    requires Boundary(s)
  {
    if s.mode.Off? then s
    else if s.mode.Recv? then AfterGot(w, s, c)
    else AfterSent(w, s, false)
  }

  lemma OutFrame(w: World, s: Slave, c: byte)
    requires Boundary(s)
    ensures ShiftAll(w, s, Msb(c) + [true]) == AfterOut(w, s, c)
    ensures Pull(ShiftAll(w, s, Msb(c))) <==> s.mode.Recv? && w.ack(s.acks)
    ensures Boundary(AfterOut(w, s, c))
  {
    ShiftNext(w, s, Msb(c), true);
    if s.mode.Off? {
      OffBits(w, s, Msb(c));
    } else if s.mode.Recv? {
      RecvByte(w, s, c);
    } else {
      SendByte(w, s, Msb(c));
    }
  }

  /** A byte read by the master, its acknowledge included. */
  function AfterIn(w: World, s: Slave, acked: bool): Slave
    requires Boundary(s)
  {
    if s.mode.Off? then s
    else if s.mode.Recv? then AfterGot(w, s, 0xFF)
    else AfterSent(w, s, acked)
  }

  lemma InFrame(w: World, s: Slave, acked: bool)
    requires Boundary(s)
    ensures ShiftAll(w, s, Ones(8) + [!acked]) == AfterIn(w, s, acked)
    ensures Sending(s) ==> MsbValue(Seen(w, s, Ones(8))) == s.mode.byte
    ensures Boundary(AfterIn(w, s, acked))
  {
    hide ShiftAll, Seen, MsbBits, MsbValue, Pow2, Ones;
    ShiftNext(w, s, Ones(8), !acked);
    if s.mode.Off? {
      OffBits(w, s, Ones(8));
    } else if s.mode.Recv? {
      OnesByte();
      RecvByte(w, s, 0xFF);
    } else {
      SendByte(w, s, Ones(8));
      MsbRoundTrip(s.mode.byte);
    }
  }

  // Bytes read without acknowledge slots, one after the other.

  lemma SentByte(w: World, s: Slave)
    requires Sending(s)
    ensures ShiftAll(w, s, Ones(8)) == s.(mode := AckIn(s.mode.byte))
    ensures MsbValue(Seen(w, s, Ones(8))) == s.mode.byte
  {
    SendByte(w, s, Ones(8));
    MsbRoundTrip(s.mode.byte);
  }

  /** The first clock after a byte is its acknowledge slot to the slave: a refusal. */
  lemma RefusedByte(w: World, s: Slave)
    requires s.mode.AckIn?
    ensures ShiftAll(w, s, Ones(8)) == s.(mode := Off, record := s.record + [Sent(s.mode.byte, false)])
    ensures MsbValue(Seen(w, s, Ones(8))) == 0xFF
  {
    FirstOfOnes(w, s, 7);
    OnesByte();
    MsbRoundTrip(0xFF);
  }

  lemma SilentByte(w: World, s: Slave)
    requires s.mode.Off?
    ensures ShiftAll(w, s, Ones(8)) == s && MsbValue(Seen(w, s, Ones(8))) == 0xFF
  {
    OffBits(w, s, Ones(8));
    OffSees(w, s, Ones(8));
    OnesByte();
    MsbRoundTrip(0xFF);
  }

  lemma {:induction false} OffSees(w: World, s: Slave, ms: seq<bool>)
    requires s.mode.Off?
    ensures Seen(w, s, ms) == ms
  {
    if ms != [] {
      var n := |ms| - 1;
      OffSees(w, s, ms[..n]);
      OffBits(w, s, ms[..n]);
      assert ms[..n] + [ms[n]] == ms;
    }
  }

  lemma {:induction false} FirstOfOnes(w: World, t: Slave, n: nat)
    requires t.mode.AckIn?
    ensures ShiftAll(w, t, Ones(n + 1)) == t.(mode := Off, record := t.record + [Sent(t.mode.byte, false)])
    ensures Seen(w, t, Ones(n + 1)) == Ones(n + 1)
  {
    if n > 0 {
      FirstOfOnes(w, t, n - 1);
    } else {
      assert Ones(1) == [] + [true];
    }
    ShiftNext(w, t, Ones(n), true);
  }

  lemma {:induction false} OnesAre(n: nat)
    ensures MsbBits(Pow2(n) - 1, n) == Ones(n)
  {
    if n > 0 {
      OnesAre(n - 1);
      assert (Pow2(n) - 1) / 2 == Pow2(n - 1) - 1;
    }
  }

  lemma OnesByte()
    ensures Ones(8) == Msb(0xFF)
  {
    Pow2Values();
    OnesAre(8);
  }

  /** The first bit of a byte on the wire. */
  lemma FirstBit(d: byte)
    ensures Msb(d)[0] <==> d >= 128
  {
    MsbBitAt(d, 8, 0);
    TopBit(d);
  }

  lemma TopBit(d: byte)
    ensures Shr(d, 7) == d / 128
  {
    ShrThree(d, 4);
    ShrThree(d / 8, 1);
    assert Shr(d / 64, 1) == Shr(d / 128, 0);
  }

  lemma ShrThree(d: nat, i: nat)
    ensures Shr(d, i + 3) == Shr(d / 8, i)
  {
    assert Shr(d, i + 3) == Shr(d / 2, i + 2) == Shr(d / 4, i + 1) == Shr(d / 8, i);
  }

  // ---------------------------------------------------------------- the shape of the signalling

  /** Inside a transfer `In(k)` has seen k bits of the current nine-bit frame. */
  datatype Track = Idle | In(k: nat) | Broken

  /** START begins a transfer or, between frames, repeats; STOP ends it between frames; bits come in nines. */
  function Follow(t: Track, x: Symbol): Track {
    match x
    case Start => if t == Idle || t == In(0) then In(0) else Broken
    case Stop => if t == In(0) then Idle else Broken
    case Bit(_) => if t.In? then In((t.k + 1) % 9) else Broken
  }

  function FollowAll(t: Track, xs: seq<Symbol>): Track {
    if xs == [] then t else Follow(FollowAll(t, xs[..|xs| - 1]), xs[|xs| - 1])
  }

  lemma FollowNext(t: Track, xs: seq<Symbol>, x: Symbol)
    ensures FollowAll(t, xs + [x]) == Follow(FollowAll(t, xs), x)
  {
    assert (xs + [x])[..|xs|] == xs;
  }

  lemma SymbolsSplit(xs: seq<Symbol>, bits: seq<bool>, n: nat)
    requires |bits| == n + 1
    ensures xs + Symbols(bits) == (xs + Symbols(bits[..n])) + [Bit(bits[n])]
  {
  }

  lemma {:induction false} FollowBits(t: Track, xs: seq<Symbol>, bits: seq<bool>)
    requires FollowAll(t, xs) == In(0) && |bits| <= 9
    ensures FollowAll(t, xs + Symbols(bits)) == In(|bits| % 9)
  {
    hide FollowAll, Symbols;
    if bits == [] {
      assert xs + Symbols(bits) == xs;
    } else {
      var n := |bits| - 1;
      FollowBits(t, xs, bits[..n]);
      SymbolsSplit(xs, bits, n);
      FollowNext(t, xs + Symbols(bits[..n]), Bit(bits[n]));
    }
  }

  /** In a transfer that began at `base`, with the clock low; everything signalled so far is well-shaped as long as no
      acknowledge slot was left out, and then this is between two frames. */
  ghost predicate OnTrack(base: Origin, b: Bus) {
    base.log <= b.log && Clocking(b) && (base.loose || FollowAll(Idle, b.log) == In(0))
  }

  /** And the slave is between two frames as well. */
  ghost predicate Framed(base: Origin, b: Bus) {
    OnTrack(base, b) && Boundary(b.slave)
  }

  /** Between transfers: lines high, slave off, everything signalled so far well-shaped as long as no acknowledge slot
      was left out. */
  ghost predicate Resting(base: Origin, b: Bus) {
    LinesHigh(b) && b.slave.mode.Off? && (base.loose || FollowAll(Idle, b.log) == Idle)
  }

  lemma FrameDone(w: World, base: Origin, b: Bus, ms: seq<bool>, sda: bool)
    requires Framed(base, b) && |ms| == 9 && Boundary(ShiftAll(w, b.slave, ms))
    ensures Framed(base, Pulsed(w, b, ms, sda))
  {
    if !base.loose {
      FollowBits(Idle, b.log, Seen(w, b.slave, ms));
    }
  }
}
