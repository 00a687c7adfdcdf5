/** The bit-banging I2C master up to single bytes: line setting with clock stretching, START, repeated START,
    STOP, and byte transfers. */
module I2cMaster {
  import opened Bytes
  import opened Errno
  import opened I2cBus

  /** Why the model cannot say any more what is on the bus: SCL stayed low for longer than the master waited, or than a
      master that cannot see SCL knows; a slave holding SDA swallowed a repeated START; or master and slave disagree
      about where a byte begins. */
  datatype Cause = Timeout | Unseen | Swallowed(offer: byte) | OutOfStep

  /** At most the clock was lost on the way. */
  predicate Waited(before: Option<Cause>, after: Option<Cause>) {
    if before.Some? then after == before else after.None? || after.value.Timeout? || after.value.Unseen?
  }

  /** What had been signalled when a transfer began; `loose` once a read has left out acknowledge slots, so that bits
      no longer come in nines. */
  datatype Origin = Origin(log: seq<Symbol>, loose: bool)

  class I2cAdapter {
    const w: World
    const senses: bool       // can this adapter read SCL?
    const retries: nat
    var bus: Bus
    var rises: nat           // clock rises so far; picks the slave's next stretch
    ghost var base: Origin   // of the current transfer
    ghost var lost: Option<Cause>

    constructor (w: World, senses: bool, retries: nat, slave: Slave)
      requires slave.mode.Off?
      ensures this.w == w && this.senses == senses && this.retries == retries
      ensures bus == Bus(true, true, High(true, true), slave, []) && lost.None? && !base.loose
    {
      this.w, this.senses, this.retries := w, senses, retries;
      bus := Bus(true, true, High(true, true), slave, []);
      rises, lost, base := 0, None, Origin([], false);
    }

    // -------------------------------------------------------------- lines

    method SetSdaLine(v: bool)
      modifies this`bus
      ensures bus == SetSda(old(bus), v)
    {
      bus := SetSda(bus, v);
    }

    method SclLo()
      modifies this`bus
      ensures bus == SclFall(w, old(bus))
    {
      bus := SclFall(w, bus);
    }

    /** Release SCL and wait for it to rise.  An adapter that cannot read SCL does not wait. */
    method SclHi() returns (ok: bool)
      modifies this`bus, this`rises, this`lost
      ensures ok <==> !senses || w.hold(old(rises)) <= w.patience(old(rises)) + 1
      ensures lost == if old(lost).Some? then old(lost) else if !ok then Some(Timeout)
                      else if !senses && w.hold(old(rises)) > 0 then Some(Unseen) else None
      ensures lost.None? ==> bus == SclRise(old(bus))
      ensures rises == old(rises) + 1
    {
      var held, patience := w.hold(rises), w.patience(rises);
      rises := rises + 1;
      if senses {
        var looks: nat := 0;
        while looks < held
          invariant looks <= held && looks <= patience
        {
          looks := looks + 1;
          if looks > patience {
            // test one last time
            if looks >= held {
              break;
            }
            if lost.None? { lost := Some(Timeout); }
            return false;
          }
        }
      } else if held > 0 && lost.None? {
        lost := Some(Unseen);
      }
      bus := SclRise(bus);
      ok := true;
    }

    // -------------------------------------------------------------- START and STOP

    method I2cStart()
      modifies this`bus
      requires lost.None? ==> LinesHigh(bus)
      ensures lost.None? ==> Clocking(bus)
      ensures lost.None? ==>
        bus == old(bus).(scl := false, sda := false, pulse := Low,
                         slave := OnStart(old(bus.slave)), log := old(bus.log) + [Start])
    {
      SetSdaLine(false);
      SclLo();
    }

    /** A repeated START happens exactly if the slave is not holding SDA; otherwise the slave sees a 0 bit. */
    method I2cRepstart()
      modifies this`bus, this`rises, this`lost
      requires lost.None? ==> Clocking(bus)
      ensures Waited(old(lost), lost)
      ensures lost.None? ==> Clocking(bus)
      ensures lost.None? && !Pull(old(bus.slave)) ==>
        bus == old(bus).(sda := false, slave := OnStart(old(bus.slave)), log := old(bus.log) + [Start])
      ensures lost.None? && Pull(old(bus.slave)) ==>
        bus == old(bus).(sda := false, slave := OnBit(w, old(bus.slave), false), log := old(bus.log) + [Bit(false)])
    {
      SetSdaLine(true);
      var _ := SclHi();
      SetSdaLine(false);
      SclLo();
    }

    /** A STOP happens exactly if the slave is not holding SDA; otherwise SDA stays low. */
    method I2cStop()
      modifies this`bus, this`rises, this`lost
      requires lost.None? ==> Clocking(bus)
      ensures Waited(old(lost), lost)
      ensures lost.None? && !Pull(old(bus.slave)) ==>
        LinesHigh(bus) && bus == old(bus).(scl := true, sda := true, pulse := High(false, true),
                                           slave := OnStop(old(bus.slave)), log := old(bus.log) + [Stop])
      ensures lost.None? && Pull(old(bus.slave)) ==>
        !LinesHigh(bus) && bus.log == old(bus.log) && bus.slave == old(bus.slave)
    {
      SetSdaLine(false);
      var _ := SclHi();
      SetSdaLine(true);
    }

    // -------------------------------------------------------------- bytes

    /** One clock pulse with SDA left as it is; `line` is what SDA showed while the clock was high. */
    method Pulse() returns (ok: bool, line: bool)
      modifies this`bus, this`rises, this`lost
      requires lost.None? ==> Clocking(bus)
      ensures Waited(old(lost), lost)
      ensures !ok ==> lost.Some?
      ensures lost.None? ==> Clocking(bus) && bus == Pulsed(w, old(bus), [old(bus.sda)], old(bus.sda))
      ensures lost.None? ==> line == Sda(old(bus))
    {
      if lost.None? {
        assert SetSda(bus, bus.sda) == bus && Pulsed(w, bus, [], bus.sda) == bus;
        PulseNext(w, bus, [], bus.sda, bus.sda);
        assert [] + [bus.sda] == [bus.sda];
      }
      line := false;
      ok := SclHi();
      if !ok {
        return;
      }
      line := Sda(bus);
      SclLo();
    }

    /** Send a byte and read the acknowledge: 1 acknowledged, 0 not, negative on a clock timeout. */
    method I2cOutb(c: byte) returns (res: int)
      modifies this`bus, this`rises, this`lost
      requires lost.None? ==> Clocking(bus)
      ensures Waited(old(lost), lost)
      ensures res == 0 || res == 1 || (res == -ETIMEDOUT && lost.Some?)
      ensures lost.None? ==> Clocking(bus) && bus == Pulsed(w, old(bus), Msb(c) + [true], true)
      ensures lost.None? ==> (res == 1 <==> Pull(ShiftAll(w, old(bus.slave), Msb(c))))
    {
      hide ShiftAll, Seen, Pull, Shr, Msb, Pulsed;
      ghost var b := bus;
      ghost var last := bus.sda;
      PulsedNone(w, b);
      for i := 8 downto 0
        invariant Waited(old(lost), lost)
        invariant lost.None? ==> Clocking(bus) && bus == Pulsed(w, b, Msb(c)[..8 - i], last)
      {
        var sb := Shr(c, i) % 2 == 1;
        MsbTake(c, 7 - i);
        PulsedMore(w, b, Msb(c)[..7 - i], last, sb);
        SetSdaLine(sb);
        var ok, _ := Pulse();
        if !ok {
          return -ETIMEDOUT;
        }
        last := sb;
      }
      assert Msb(c)[..8] == Msb(c);
      PulsedMore(w, b, Msb(c), last, true);
      SetSdaLine(true);
      var ok, line := Pulse();
      if !ok {
        return -ETIMEDOUT;
      }
      res := if line then 0 else 1;  // the slave acknowledges by pulling SDA low
    }

    /** Read eight bits, most significant first. */
    method I2cInb() returns (res: int)
      modifies this`bus, this`rises, this`lost
      requires lost.None? ==> Clocking(bus)
      ensures Waited(old(lost), lost)
      ensures 0 <= res < 256 || (res == -ETIMEDOUT && lost.Some?)
      ensures lost.None? ==> Clocking(bus) && bus == Pulsed(w, old(bus), Ones(8), true)
      ensures lost.None? ==> res == MsbValue(Seen(w, old(bus.slave), Ones(8)))
    {
      hide ShiftAll, OnBit, Pull, Pulsed, Seen;
      var indata: nat := 0;
      ghost var b := bus;
      PulsedNone(w, b);
      SetSdaLine(true);
      for i := 0 to 8
        invariant Waited(old(lost), lost)
        invariant lost.None? ==> Clocking(bus) && bus.sda && bus == Pulsed(w, b, Ones(i), true)
        invariant indata < Pow2(i)
        invariant lost.None? ==> indata == MsbValue(Seen(w, b.slave, Ones(i)))
      {
        PulsedMore(w, b, Ones(i), true, true);
        SeenMore(w, b.slave, Ones(i), true);
        var ok, line := Pulse();
        if !ok {
          return -ETIMEDOUT;
        }
        indata := indata * 2;
        if line {
          indata := indata + 1;  // sets bit 0, which the doubling has just cleared
        }
      }
      Pow2Values();
      res := indata;
    }

    /** Acknowledge or not; SDA is high when this is called. */
    method AckNak(isAck: bool) returns (ok: bool)
      modifies this`bus, this`rises, this`lost
      requires lost.None? ==> Clocking(bus) && bus.sda
      ensures Waited(old(lost), lost)
      ensures !ok ==> lost.Some?
      ensures lost.None? ==> Clocking(bus) && bus == Pulsed(w, old(bus), [!isAck], !isAck)
    {
      if isAck {
        SetSdaLine(false);
      }
      var line;
      ok, line := Pulse();
    }
  }

  lemma MsbTake(c: byte, k: nat)
    requires k < 8
    ensures Msb(c)[..k + 1] == Msb(c)[..k] + [Shr(c, 7 - k) % 2 == 1]
  {
    MsbBitAt(c, 8, k);
  }

  lemma PulsedNone(w: World, b: Bus)
    ensures b.pulse.Low? ==> forall x: bool :: Pulsed(w, b, [], x) == SetSda(b, x)
    ensures Pulsed(w, b, [], b.sda) == b
  {
  }

  /** Pulses add up. */
  lemma PulsedMore(w: World, b: Bus, ms: seq<bool>, sda: bool, m: bool)
    ensures Pulsed(w, Pulsed(w, b, ms, sda).(sda := m), [m], m) == Pulsed(w, b, ms + [m], m)
    ensures Pulsed(w, b, ms, sda).(sda := m) == Pulsed(w, b, ms, m)
    ensures Sda(Pulsed(w, b, ms, m)) == (m && !Pull(ShiftAll(w, b.slave, ms)))
  {
    var t := ShiftAll(w, b.slave, ms);
    ShiftNext(w, b.slave, ms, m);
    ShiftNext(w, t, [], m);
    assert [] + [m] == [m];
  }

  lemma SeenMore(w: World, s: Slave, ms: seq<bool>, m: bool)
    ensures MsbValue(Seen(w, s, ms + [m])) ==
            2 * MsbValue(Seen(w, s, ms)) + BitValue(m && !Pull(ShiftAll(w, s, ms)))
  {
    ShiftNext(w, s, ms, m);
    var bits := Seen(w, s, ms);
    assert (bits + [m && !Pull(ShiftAll(w, s, ms))])[..|bits|] == bits;
  }

  function Ones(n: nat): (s: seq<bool>)
    ensures |s| == n
  {
    if n == 0 then [] else Ones(n - 1) + [true]
  }
}
