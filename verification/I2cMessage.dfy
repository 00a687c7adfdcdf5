/** One message: addressing with retries, writing, and reading with or without acknowledges and with SMBus receive
    length. */
module I2cMessage {
  import opened Bytes
  import opened Errno
  import opened I2cBus
  import opened I2cMaster
  import opened I2cFrames

  const SMBUS_BLOCK_MAX := 32

  datatype Flags = Flags(rd: bool, ten: bool, ignoreNak: bool, noStart: bool,
                         revDirAddr: bool, noRdAck: bool, recvLen: bool)

  class I2cMsg {
    const addr: nat
    const flags: Flags
    var len: nat
    const buf: array<byte>

    constructor (addr: nat, flags: Flags, len: nat, buf: array<byte>)
      ensures this.addr == addr && this.flags == flags && this.len == len && this.buf == buf
    {
      this.addr, this.flags, this.len, this.buf := addr, flags, len, buf;
    }

    /** The buffer holds the message, and an SMBus block if its length is still to come. */
    ghost predicate Roomy()
      reads this
    {
      len + (if flags.rd && flags.recvLen then SMBUS_BLOCK_MAX else 0) <= buf.Length
    }
  }

  // ---------------------------------------------------------------- what the slave should see

  /** The seven-bit address byte. */
  function AddressByte(addr: nat, f: Flags): byte {
    var a := addr * 2 % 256 + (if f.rd then 1 else 0);
    if f.revDirAddr then (if a % 2 == 1 then a - 1 else a + 1) else a
  }

  /** The first ten-bit address byte: 11110, the two high address bits, write. */
  function TenByte(addr: nat): byte {
    0xF0 + addr / 256 % 4 * 2
  }

  /** Does the addressing end with the slave in its sending role? */
  predicate AsksForData(f: Flags) {
    if f.ten then f.rd else f.rd != f.revDirAddr
  }

  /** n unacknowledged attempts, each given up with STOP and START. */
  function Retried(c: byte, n: nat): seq<Event> {
    if n == 0 then [] else Retried(c, n - 1) + [Got(c, false), Stopped, Started]
  }

  function TenBitWrite(addr: nat, m: nat): seq<Event> {
    Retried(TenByte(addr), m) + [Got(TenByte(addr), true)] + [Got(addr % 256, true)]
  }

  function Addressing(addr: nat, f: Flags, m: nat, n: nat): seq<Event> {
    if !f.ten then Retried(AddressByte(addr, f), m) + [Got(AddressByte(addr, f), true)]
    else if !f.rd then TenBitWrite(addr, m)
    else TenBitWrite(addr, m) + [Started] + Retried(TenByte(addr) + 1, n) + [Got(TenByte(addr) + 1, true)]
  }

  /** The n-th of the answers from number a on is the first acknowledge, within the retries. */
  ghost predicate Answered(w: World, a: nat, retries: nat, n: nat) {
    n <= retries && w.ack(a + n) && forall k | a <= k < a + n :: !w.ack(k)
  }

  /** There is no acknowledge within the retries. */
  ghost predicate Unanswered(w: World, a: nat, retries: nat) {
    forall k | a <= k <= a + retries :: !w.ack(k)
  }

  /** Addressing without regard to missing acknowledges: every byte is sent once, and the slave sees those up to the
      first it refuses, again after a repeated START. */
  function Once(addr: nat, f: Flags, x: bool, y: bool, z: bool): seq<Event> {
    if !f.ten then [Got(AddressByte(addr, f), x)]
    else [Got(TenByte(addr), x)] + (if x then [Got(addr % 256, y)] else [])
         + (if f.rd then [Started] + [Got(TenByte(addr) + 1, z)] else [])
  }

  /** How an addressing ends and what it adds to the slave's record, the slave's answers being those from number a
      on: it goes on retrying until there is an acknowledge, or the adapter's retries are used up. */
  ghost predicate Outcome(w: World, retries: nat, addr: nat, f: Flags, a: nat, m: nat, n: nat, res: int,
                          before: seq<Event>, after: seq<Event>)
  {
    var c := if f.ten then TenByte(addr) else AddressByte(addr, f);
    if f.ignoreNak then
      res == 0 && after == before + Once(addr, f, w.ack(a), w.ack(a + 1), w.ack(a + if w.ack(a) then 2 else 1))
    else if res == 0 then
      && after == before + Addressing(addr, f, m, n)
      && Answered(w, a, retries, m)
      && (f.ten ==> w.ack(a + m + 1) && (f.rd ==> Answered(w, a + m + 2, retries, n)))
    else if res == -EIO then
      && f.ten && f.rd && Answered(w, a, retries, m) && w.ack(a + m + 1) && Unanswered(w, a + m + 2, retries)
      && after == before + TenBitWrite(addr, m) + [Started] + Retried(TenByte(addr) + 1, retries)
                  + [Got(TenByte(addr) + 1, false)]
    else
      && res == -ENXIO
      && ((Unanswered(w, a, retries) && after == before + Retried(c, retries) + [Got(c, false)])
          || (f.ten && Answered(w, a, retries, m) && !w.ack(a + m + 1)
              && after == before + Retried(c, m) + [Got(c, true)] + [Got(addr % 256, false)]))
  }

  /** All bytes received and acknowledged. */
  function Written(data: seq<byte>): seq<Event> {
    if data == [] then [] else Written(data[..|data| - 1]) + [Got(data[|data| - 1], true)]
  }

  /** The first k bytes sent and acknowledged. */
  function Acked(data: seq<byte>): seq<Event> {
    if data == [] then [] else Acked(data[..|data| - 1]) + [Sent(data[|data| - 1], true)]
  }

  /** All bytes sent, every one acknowledged but the last. */
  function ReadOut(data: seq<byte>): seq<Event> {
    if data == [] then [] else Acked(data[..|data| - 1]) + [Sent(data[|data| - 1], false)]
  }

  lemma {:induction false} RetriedIs(c: byte, n: nat)
    ensures |Retried(c, n)| == 3 * n
    ensures forall k | 0 <= k < n ::
      Retried(c, n)[3 * k..3 * k + 3] == [Got(c, false), Stopped, Started]
  {
    if n > 0 {
      RetriedIs(c, n - 1);
    }
  }

  lemma {:induction false} WrittenIs(data: seq<byte>)
    ensures |Written(data)| == |data| && forall k | 0 <= k < |data| :: Written(data)[k] == Got(data[k], true)
  {
    if data != [] {
      WrittenIs(data[..|data| - 1]);
    }
  }

  lemma {:induction false} AckedIs(data: seq<byte>)
    ensures |Acked(data)| == |data| && forall k | 0 <= k < |data| :: Acked(data)[k] == Sent(data[k], true)
  {
    if data != [] {
      AckedIs(data[..|data| - 1]);
    }
  }

  /** In a read the slave sends the bytes in order, and the master acknowledges all but the last. */
  lemma ReadOutIs(data: seq<byte>)
    ensures |ReadOut(data)| == |data|
    ensures forall k | 0 <= k < |data| :: ReadOut(data)[k] == Sent(data[k], k < |data| - 1)
  {
    if data != [] {
      AckedIs(data[..|data| - 1]);
    }
  }

  /** The slave acknowledges every byte it receives. */
  ghost predicate Willing(w: World) {
    forall n: nat :: w.ack(n)
  }

  // ---------------------------------------------------------------- one byte

  /** Send a byte from between two frames. */
  method OutFrame(adap: I2cAdapter, c: byte) returns (res: int)
    modifies adap`bus, adap`rises, adap`lost
    requires adap.lost.None? ==> Framed(adap.base, adap.bus)
    ensures Waited(old(adap.lost), adap.lost)
    ensures res == 0 || res == 1 || (res == -ETIMEDOUT && adap.lost.Some?)
    ensures adap.lost.None? ==>
      Framed(adap.base, adap.bus) && adap.bus.slave == AfterOut(adap.w, old(adap.bus.slave), c)
      && Grows(old(adap.bus.slave), adap.bus.slave)
      && (res == 1 <==> old(adap.bus.slave).mode.Recv? && adap.w.ack(old(adap.bus.slave).acks))
      && adap.bus.slave.acks == old(adap.bus.slave.acks) + if old(adap.bus.slave).mode.Recv? then 1 else 0
  {
    ghost var b := adap.bus;
    res := adap.I2cOutb(c);
    if adap.lost.None? {
      I2cFrames.OutFrame(adap.w, b.slave, c);
      FrameDone(adap.w, adap.base, b, Msb(c) + [true], true);
    }
  }

  /** STOP and START between two frames. */
  method StopStart(adap: I2cAdapter)
    modifies adap`bus, adap`rises, adap`lost
    requires adap.lost.None? ==> Framed(adap.base, adap.bus) && Free(adap.bus.slave)
    ensures Waited(old(adap.lost), adap.lost)
    ensures adap.lost.None? ==>
      Framed(adap.base, adap.bus) && adap.bus.slave == OnStart(OnStop(old(adap.bus.slave)))
  {
    ghost var b := adap.bus;
    adap.I2cStop();
    if adap.lost.None? { FollowNext(Idle, b.log, Stop); }
    b := adap.bus;
    adap.I2cStart();
    if adap.lost.None? { FollowNext(Idle, b.log, Start); }
  }

  /** Try an address until it is acknowledged or the retries are used up. */
  method TryAddress(adap: I2cAdapter, c: byte, retries: nat) returns (res: int, tries: nat)
    modifies adap`bus, adap`rises, adap`lost
    requires adap.lost.None? ==> Framed(adap.base, adap.bus) && adap.bus.slave.mode == Recv([], true)
    ensures Waited(old(adap.lost), adap.lost)
    ensures res == 0 || res == 1 || (res == -ETIMEDOUT && adap.lost.Some?)
    ensures tries <= retries
    ensures adap.lost.None? ==> Framed(adap.base, adap.bus)
    ensures adap.lost.None? ==>
      adap.bus.slave.record == old(adap.bus.slave.record) + Retried(c, tries) + [Got(c, res == 1)]
    ensures adap.lost.None? && res == 0 ==>
      adap.bus.slave.mode.Off? && tries == retries && Unanswered(adap.w, old(adap.bus.slave.acks), retries)
    ensures adap.lost.None? && res == 1 ==> Answered(adap.w, old(adap.bus.slave.acks), retries, tries)
    ensures adap.lost.None? ==> adap.bus.slave.acks == old(adap.bus.slave.acks) + tries + 1
    ensures adap.lost.None? && Willing(adap.w) ==> res == 1 && tries == 0
    ensures adap.lost.None? && res == 1 ==>
      if c % 2 == 1 then Offering(adap.w, adap.bus.slave) else adap.bus.slave.mode == Recv([], false)
  {
    hide Framed, Follow, FollowAll;
    ghost var record, a := adap.bus.slave.record, adap.bus.slave.acks;
    tries := 0;
    while true
      invariant tries <= retries
      invariant Waited(old(adap.lost), adap.lost)
      invariant adap.lost.None? ==> Framed(adap.base, adap.bus) && adap.bus.slave.mode == Recv([], true)
      invariant adap.lost.None? ==> adap.bus.slave.record == record + Retried(c, tries)
      invariant adap.lost.None? && Willing(adap.w) ==> tries == 0
      invariant adap.lost.None? ==> adap.bus.slave.acks == a + tries
      invariant adap.lost.None? ==> forall k | a <= k < a + tries :: !adap.w.ack(k)
      decreases retries - tries
    {
      res := OutFrame(adap, c);
      if res == 1 || tries == retries {
        return;
      }
      StopStart(adap);
      tries := tries + 1;
    }
  }

  // ---------------------------------------------------------------- one message

  /** Send the message's bytes; a missing acknowledge ends it unless the message says to ignore that. */
  method SendBytes(adap: I2cAdapter, msg: I2cMsg) returns (res: int)
    modifies adap`bus, adap`rises, adap`lost
    requires msg.Roomy()
    requires adap.lost.None? && msg.len > 0 ==> Framed(adap.base, adap.bus) && Steady(adap.w, adap.bus.slave)
    ensures Waited(old(adap.lost), adap.lost)
    ensures res == msg.len || res == -EIO || (res == -ETIMEDOUT && adap.lost.Some?)
    ensures msg.len == 0 ==> res == 0 && adap.bus == old(adap.bus) && adap.lost == old(adap.lost)
    ensures adap.lost.None? && msg.len > 0 ==>
      Framed(adap.base, adap.bus)
      && Spoken(adap.w, msg.flags.ignoreNak, old(adap.bus.slave), adap.bus.slave, msg.buf[..msg.len], res == msg.len)
  {
    hide Framed, Steady, AfterOut, Telling, Spoken;
    ghost var s0, data := adap.bus.slave, msg.buf[..msg.len];
    var count, wrcount: nat := msg.len, 0;
    if adap.lost.None? && msg.len > 0 { TellNothing(adap.w, msg.flags.ignoreNak, s0, data); }
    while count > 0
      invariant wrcount + count == msg.len && count >= 0
      invariant wrcount == 0 ==> adap.bus == old(adap.bus) && adap.lost == old(adap.lost)
      invariant Waited(old(adap.lost), adap.lost)
      invariant adap.lost.None? && msg.len > 0 ==>
        Framed(adap.base, adap.bus) && Telling(adap.w, msg.flags.ignoreNak, s0, adap.bus.slave, data, wrcount)
    {
      var c := msg.buf[wrcount];
      if adap.lost.None? { TellNext(adap.w, msg.flags.ignoreNak, s0, adap.bus.slave, data, wrcount); }
      var retval := OutFrame(adap, c);
      if retval > 0 || (msg.flags.ignoreNak && retval == 0) {
        count := count - 1;
        wrcount := wrcount + 1;
      } else if retval == 0 {
        return -EIO;
      } else {
        return retval;
      }
    }
    if adap.lost.None? && msg.len > 0 { TellAll(adap.w, msg.flags.ignoreNak, s0, adap.bus.slave, data); }
    res := wrcount;
  }

  /** What a write does to a slave: if it is `done` without regard to missing acknowledges all of it was received and
      acknowledged; a listening slave saw it up to the first byte it refused. */
  ghost predicate Spoken(w: World, ignoreNak: bool, s0: Slave, s: Slave, data: seq<byte>, done: bool) {
    && Steady(w, s) && Grows(s0, s) && Settled(s) && (Settled(s0) ==> Free(s)) && (!done ==> Free(s))
    && (done && !ignoreNak ==> s.record == s0.record + Written(data))
    && (ignoreNak ==> done)
    && (Hears(s0) ==> Told(w, s0, s, data) && (done <==> Hears(s) || ignoreNak))
    && (Hears(s0) && Willing(w) ==> done)
  }

  /** A listening slave has received and acknowledged the first j bytes of `data`, and refused the next one if j is not
      all; it has seen nothing else. */
  ghost predicate Heard(w: World, s0: Slave, s: Slave, data: seq<byte>, j: nat) {
    && j <= |data|
    && (forall k | s0.acks <= k < s0.acks + j :: w.ack(k))
    && (j < |data| ==> !w.ack(s0.acks + j))
    && s.record == s0.record + Written(data[..j]) + (if j < |data| then [Got(data[j], false)] else [])
  }

  /** Such a j there is, and it is all of them exactly if the slave is still listening. */
  ghost predicate Told(w: World, s0: Slave, s: Slave, data: seq<byte>) {
    exists j: nat :: Heard(w, s0, s, data, j) && (Hears(s) <==> j == |data|)
  }

  /** After n bytes it is still listening, or it has refused byte j. */
  ghost predicate HeardSoFar(w: World, s0: Slave, s: Slave, data: seq<byte>, n: nat, j: nat) {
    && n <= |data|
    && if Hears(s) then
         && s.acks == s0.acks + n && s.record == s0.record + Written(data[..n])
         && forall k | s0.acks <= k < s0.acks + n :: w.ack(k)
       else
         s.mode.Off? && j < n && Heard(w, s0, s, data, j)
  }

  /** A write is under way, n bytes being through. */
  ghost predicate Telling(w: World, ignoreNak: bool, s0: Slave, s: Slave, data: seq<byte>, n: nat) {
    && n <= |data| && SentSoFar(w, s0, s, n)
    && (!ignoreNak ==> s.record == s0.record + Written(data[..n]) && (Hears(s0) ==> Hears(s)))
    && (Hears(s0) && Willing(w) ==> Hears(s))
    && (Hears(s0) ==> exists j: nat :: HeardSoFar(w, s0, s, data, n, j))
  }

  lemma TellNothing(w: World, ignoreNak: bool, s: Slave, data: seq<byte>)
    requires Steady(w, s)
    ensures Telling(w, ignoreNak, s, s, data, 0)
  {
    assert Hears(s) ==> HeardSoFar(w, s, s, data, 0, 0);
  }

  lemma TellNext(w: World, ignoreNak: bool, s0: Slave, s: Slave, data: seq<byte>, n: nat)
    requires n < |data| && Telling(w, ignoreNak, s0, s, data, n)
    ensures Boundary(s)
    ensures var t, acked := AfterOut(w, s, data[n]), s.mode.Recv? && w.ack(s.acks);
      if acked || ignoreNak then Telling(w, ignoreNak, s0, t, data, n + 1)
      else Spoken(w, ignoreNak, s0, t, data, false)
  {
    hide HeardSoFar, Told, Written;
    SentNext(w, s0, s, n, data[..n], data[n]);
    assert data[..n + 1] == data[..n] + [data[n]];
    if Hears(s0) {
      var j: nat :| HeardSoFar(w, s0, s, data, n, j);
      var i := HeardNext(w, s0, s, data, n, j);
      if !w.ack(s.acks) { HeardAll(w, s0, AfterOut(w, s, data[n]), data, n + 1, i); }
    }
  }

  lemma TellAll(w: World, ignoreNak: bool, s0: Slave, s: Slave, data: seq<byte>)
    requires Telling(w, ignoreNak, s0, s, data, |data|) && data != []
    ensures Spoken(w, ignoreNak, s0, s, data, true)
  {
    hide HeardSoFar, Told;
    assert data[..|data|] == data;
    if Hears(s0) {
      var j: nat :| HeardSoFar(w, s0, s, data, |data|, j);
      HeardAll(w, s0, s, data, |data|, j);
    }
  }

  lemma HeardNext(w: World, s0: Slave, s: Slave, data: seq<byte>, n: nat, j: nat) returns (i: nat)
    requires n < |data| && HeardSoFar(w, s0, s, data, n, j)
    ensures Boundary(s)
    ensures HeardSoFar(w, s0, AfterOut(w, s, data[n]), data, n + 1, i)
    ensures !(Hears(s) && w.ack(s.acks)) ==> !Hears(AfterOut(w, s, data[n]))
  {
    assert data[..n + 1][..n] == data[..n];
    i := if Hears(s) then n else j;
  }

  lemma HeardAll(w: World, s0: Slave, s: Slave, data: seq<byte>, n: nat, j: nat)
    requires HeardSoFar(w, s0, s, data, n, j) && (Hears(s) ==> n == |data|)
    ensures Told(w, s0, s, data)
  {
    assert Heard(w, s0, s, data, if Hears(s) then n else j);
  }

  lemma SentNext(w: World, s0: Slave, s: Slave, n: nat, data: seq<byte>, c: byte)
    requires SentSoFar(w, s0, s, n)
    ensures SentSoFar(w, s0, AfterOut(w, s, c), n + 1)
    ensures s.mode.Recv? && w.ack(s.acks) && s.record == s0.record + Written(data) ==>
      AfterOut(w, s, c).record == s0.record + Written(data + [c])
    ensures Hears(s) && w.ack(s.acks) ==> Hears(AfterOut(w, s, c))
    ensures !(s.mode.Recv? && w.ack(s.acks)) ==> Free(AfterOut(w, s, c))
    ensures Steady(w, AfterOut(w, s, c)) && Settled(AfterOut(w, s, c)) && Grows(s0, AfterOut(w, s, c))
  {
    assert (data + [c])[..|data|] == data;
  }

  /** Receiving, between two frames, and not an address. */
  predicate Hears(s: Slave) {
    s.mode == Recv([], false)
  }

  /** The slave `s` after n bytes of a write that began with slave `s0`. */
  ghost predicate SentSoFar(w: World, s0: Slave, s: Slave, n: nat) {
    && Steady(w, s) && Grows(s0, s)
    && (n == 0 ==> s == s0)
    && (n > 0 ==> Settled(s) && (Settled(s0) ==> Free(s)))
  }

  // ---------------------------------------------------------------- reading

  /** Eight bits of a byte the master reads have been clocked since `b`. */
  ghost predicate MidRead(w: World, base: Origin, b: Bus, now: Bus) {
    Framed(base, b) && now == Pulsed(w, b, Ones(8), true)
  }

  /** The acknowledge slot closes the frame a read byte began. */
  method FinishByte(adap: I2cAdapter, isAck: bool, ghost b: Bus) returns (ok: bool)
    modifies adap`bus, adap`rises, adap`lost
    requires adap.lost.None? ==> MidRead(adap.w, adap.base, b, adap.bus)
    ensures Waited(old(adap.lost), adap.lost)
    ensures !ok ==> adap.lost.Some?
    ensures adap.lost.None? ==> Framed(adap.base, adap.bus) && adap.bus.slave == AfterIn(adap.w, b.slave, isAck)
  {
    ok := adap.AckNak(isAck);
    if adap.lost.None? {
      PulsedMore(adap.w, b, Ones(8), true, !isAck);
      assert adap.bus == Pulsed(adap.w, b, Ones(8) + [!isAck], !isAck);
      I2cFrames.InFrame(adap.w, b.slave, isAck);
      FrameDone(adap.w, adap.base, b, Ones(8) + [!isAck], !isAck);
    }
  }

  /** The slave `s` after a read that began with slave `s0` has produced `data`, `more` bytes to follow or not. */
  ghost predicate ReadSoFar(w: World, s0: Slave, s: Slave, data: seq<byte>, more: bool) {
    && Steady(w, s) && Grows(s0, s)
    && (if data == [] then s == s0 else Settled(s))
    && (Settled(s0) && data != [] && !more ==> Free(s))
    && (Settled(s0) && Free(s0) ==> Free(s))
    && (Sending(s0) ==>
          && data == ToSend(w, s0, |data|)
          && if more then Sending(s) && s.sends == s0.sends + |data| && s.record == s0.record + Acked(data)
             else s.record == s0.record + ReadOut(data))
  }

  lemma ToSendNext(w: World, s0: Slave, s: Slave, data: seq<byte>, d: byte)
    requires Sending(s0) && ReadSoFar(w, s0, s, data, true) && Sending(s) && d == s.mode.byte
    ensures data + [d] == ToSend(w, s0, |data| + 1)
  {
    assert forall k | 0 <= k < |data| :: data[k] == ToSend(w, s0, |data|)[k];
  }

  lemma ReadOneMore(w: World, s0: Slave, s: Slave, data: seq<byte>, d: byte, isAck: bool)
    requires ReadSoFar(w, s0, s, data, true)
    requires d == MsbValue(Seen(w, s, Ones(8)))
    ensures ReadSoFar(w, s0, AfterIn(w, s, isAck), data + [d], isAck)
    ensures Sending(s) ==> d == s.mode.byte
  {
    hide MsbValue, Seen, Ones, ShiftAll, Msb, ToSend;
    I2cFrames.InFrame(w, s, isAck);
    if Sending(s0) { ToSendNext(w, s0, s, data, d); }
    assert (data + [d])[..|data|] == data;
  }

  /** The slave after n bytes have been clocked without acknowledge slots, and the values seen. */
  function Clocked(w: World, s: Slave, n: nat): Slave {
    if n == 0 then s else ShiftAll(w, Clocked(w, s, n - 1), Ones(8))
  }

  function Chunks(w: World, s: Slave, n: nat): (r: seq<nat>)
    ensures |r| == n
  {
    if n == 0 then [] else Chunks(w, s, n - 1) + [MsbValue(Seen(w, Clocked(w, s, n - 1), Ones(8)))]
  }

  predicate FirstThenOnes(first: byte, data: seq<nat>) {
    forall k | 0 <= k < |data| :: data[k] == if k == 0 then first else 0xFF
  }

  /** Then a slave that expects its acknowledge slots sends its first byte and takes the next clock for a refusal. */
  lemma {:induction false} UnackedRead(w: World, s: Slave, n: nat)
    requires Sending(s)
    ensures FirstThenOnes(s.mode.byte, Chunks(w, s, n))
    ensures Clocked(w, s, n) ==
      if n == 0 then s else if n == 1 then s.(mode := AckIn(s.mode.byte))
      else s.(mode := Off, record := s.record + [Sent(s.mode.byte, false)])
  {
    hide MsbValue, Seen, Ones, ShiftAll;
    if n > 0 {
      UnackedRead(w, s, n - 1);
      var t := Clocked(w, s, n - 1);
      if n == 1 {
        SentByte(w, s);
      } else if n == 2 {
        RefusedByte(w, t);
      } else {
        SilentByte(w, t);
      }
    }
  }

  /** What a slave in its sending role has to send. */
  function ToSend(w: World, s: Slave, n: nat): seq<int>
    requires Sending(s)
  {
    seq(n, k requires 0 <= k < n => if k == 0 then s.mode.byte else w.data(s.sends + k - 1))
  }

  /** So a read without acknowledge slots is right, whatever the slave holds, exactly if it has at most one byte. */
  lemma UnackedRightIff(n: nat)
    ensures (forall w: World, s: Slave | Sending(s) :: Chunks(w, s, n) == ToSend(w, s, n)) <==> n <= 1
  {
    hide Clocked, Chunks, MsbBits;
    if n <= 1 {
      forall w: World, s: Slave | Sending(s)
        ensures Chunks(w, s, n) == ToSend(w, s, n)
      {
        UnackedRead(w, s, n);
      }
    } else {
      var w := World(k => true, k => 0, k => 0, k => 0);
      var s := Slave(Send(0, Msb(0)), 0, 1, []);
      UnackedRead(w, s, n);
      assert Sending(s) && Chunks(w, s, n)[1] != ToSend(w, s, n)[1];
    }
  }

  /** An off-duty slave stays out of it. */
  lemma {:induction false} UnackedNothing(w: World, s: Slave, n: nat)
    requires s.mode.Off?
    ensures Clocked(w, s, n) == s
  {
    hide MsbValue, Seen, Ones, ShiftAll;
    if n > 0 {
      UnackedNothing(w, s, n - 1);
      SilentByte(w, s);
    }
  }

  /** One left waiting for an acknowledge takes the first clock for a refusal. */
  lemma {:induction false} UnackedCut(w: World, s: Slave, n: nat)
    requires s.mode.AckIn? && n > 0
    ensures Clocked(w, s, n) == s.(mode := Off, record := s.record + [Sent(s.mode.byte, false)])
  {
    hide MsbValue, Seen, Ones, ShiftAll;
    if n == 1 {
      RefusedByte(w, s);
      assert Clocked(w, s, 0) == s;
    } else {
      UnackedCut(w, s, n - 1);
      SilentByte(w, Clocked(w, s, n - 1));
    }
  }

  /** The master goes on after `data` of a read that began at `s0`. */
  ghost predicate Reading(w: World, base: Origin, f: Flags, s0: Slave, b: Bus, data: seq<byte>, more: bool) {
    if f.noRdAck then
      OnTrack(base, b) && base.loose && b.slave == Clocked(w, s0, |data|) && data == Chunks(w, s0, |data|)
    else
      Framed(base, b) && ReadSoFar(w, s0, b.slave, data, more)
  }

  /** Eight more bits without an acknowledge slot. */
  lemma ReadingUnacked(w: World, base: Origin, f: Flags, s0: Slave, b: Bus, data: seq<byte>, d: byte, more: bool)
    requires f.noRdAck && Reading(w, base, f, s0, b, data, true)
    requires d == MsbValue(Seen(w, b.slave, Ones(8)))
    ensures Reading(w, base, f, s0, Pulsed(w, b, Ones(8), true), data + [d], more)
  {
    hide FollowAll, MsbValue, Seen, ShiftAll, Ones;
  }

  /** The acknowledge slot after a byte, unless the message leaves it out. */
  method CloseByte(adap: I2cAdapter, f: Flags, isAck: bool, ghost s0: Slave, ghost b: Bus, ghost data: seq<byte>,
                   ghost d: byte)
    returns (ok: bool)
    modifies adap`bus, adap`rises, adap`lost
    requires adap.lost.None? ==>
      Reading(adap.w, adap.base, f, s0, b, data, true) && Eighth(adap.w, b, adap.bus, d)
    ensures Waited(old(adap.lost), adap.lost)
    ensures !ok ==> adap.lost.Some?
    ensures adap.lost.None? ==> Reading(adap.w, adap.base, f, s0, adap.bus, data + [d], isAck)
    ensures adap.lost.None? && data == [] && Sending(s0) ==> d == s0.mode.byte
  {
    hide OnTrack, Framed, AfterIn, ReadSoFar, Clocked, Chunks, MsbValue, Seen, Ones, Pulsed;
    if adap.lost.None? { ReadingByte(adap.w, adap.base, f, s0, b, data, d, isAck); }
    ok := true;
    if !f.noRdAck {
      ok := FinishByte(adap, isAck, b);
    }
  }

  /** A buffer that held `buf0` with `data` stored from its beginning. */
  ghost predicate Filled(buf: seq<byte>, data: seq<byte>, buf0: seq<byte>) {
    |data| <= |buf0| && buf == data + buf0[|data|..]
  }

  lemma NothingFilled(buf: seq<byte>)
    ensures Filled(buf, [], buf)
  {
  }

  /** The eight bits of byte d have been clocked since `b`. */
  ghost predicate Eighth(w: World, b: Bus, now: Bus, d: byte) {
    now == Pulsed(w, b, Ones(8), true) && d == MsbValue(Seen(w, b.slave, Ones(8)))
  }

  /** The next eight bits, into the buffer. */
  method OpenByte(adap: I2cAdapter, f: Flags, buf: array<byte>, k: nat, ghost s0: Slave, ghost data: seq<byte>,
                  ghost buf0: seq<byte>)
    returns (inval: int)
    requires k < buf.Length && |data| == k && Filled(buf[..], data, buf0)
    requires adap.lost.None? ==> Reading(adap.w, adap.base, f, s0, adap.bus, data, true)
    modifies adap`bus, adap`rises, adap`lost, buf
    ensures Waited(old(adap.lost), adap.lost)
    ensures inval < 256 && (inval < 0 ==> adap.lost.Some?)
    ensures inval >= 0 ==> Filled(buf[..], data + [inval], buf0)
    ensures inval < 0 ==> Filled(buf[..], data, buf0)
    ensures adap.lost.None? ==> Eighth(adap.w, old(adap.bus), adap.bus, inval)
  {
    hide Reading;
    if adap.lost.None? { ReadingClocks(adap.w, adap.base, f, s0, adap.bus, data); }
    inval := adap.I2cInb();
    if inval >= 0 {
      buf[k] := inval;
    }
  }

  /** Read the message's bytes, acknowledging all but the last, or none if the message says so.  With `recvLen` the
      first byte says how many more are to come, and the message grows by that.  `data` is what was read. */
  method ReadBytes(adap: I2cAdapter, msg: I2cMsg) returns (res: int, ghost data: seq<byte>)
    modifies adap`bus, adap`rises, adap`lost, adap`base, msg`len, msg.buf
    requires msg.Roomy() && msg.flags.rd
    requires adap.lost.None? && msg.len > 0 ==> OnTrack(adap.base, adap.bus)
    requires adap.lost.None? && msg.len > 0 && !msg.flags.noRdAck ==>
      Framed(adap.base, adap.bus) && Steady(adap.w, adap.bus.slave)
    ensures Waited(old(adap.lost), adap.lost)
    ensures adap.base ==
            if old(msg.len) > 0 && msg.flags.noRdAck then old(adap.base).(loose := true) else old(adap.base)
    ensures old(msg.len) <= msg.len <= msg.buf.Length && |data| <= msg.len
    ensures Filled(msg.buf[..], data, old(msg.buf[..]))
    ensures res >= 0 ==> res == |data|
    ensures adap.lost.None? ==>
      res == msg.len
      || (res == -EPROTO && msg.flags.recvLen && |data| == 1 && !(1 <= data[0] <= SMBUS_BLOCK_MAX))
    ensures old(msg.len) == 0 ==>
      res == msg.len == 0 && adap.bus == old(adap.bus) && adap.lost == old(adap.lost)
    ensures !msg.flags.recvLen ==> msg.len == old(msg.len)
    ensures res == msg.len && old(msg.len) > 0 ==> Grown(old(msg.len), msg.len, data, msg.flags)
    ensures adap.lost.None? && res == -EPROTO && Sending(old(adap.bus.slave)) ==>
      !(1 <= old(adap.bus.slave).mode.byte <= SMBUS_BLOCK_MAX)
    ensures adap.lost.None? && old(msg.len) > 0 ==>
      Reading(adap.w, adap.base, msg.flags, old(adap.bus.slave), adap.bus, data, false)
    ensures adap.lost.None? && msg.flags.noRdAck && Sending(old(adap.bus.slave)) ==>
      FirstThenOnes(old(adap.bus.slave).mode.byte, data)
    ensures adap.lost.None? && !msg.flags.noRdAck && Sending(old(adap.bus.slave)) ==>
      data == ToSend(adap.w, old(adap.bus.slave), |data|)
  {
    hide OnTrack, Framed, Reading, Eighth, Steady, Filled;
    ghost var s0, buf0 := adap.bus.slave, msg.buf[..];
    ghost var len0, flags := msg.len, msg.flags;
    if msg.len > 0 {
      if adap.lost.None? { ReadingStarts(adap.w, adap.base, flags, adap.bus); }
      if flags.noRdAck { adap.base := adap.base.(loose := true); }
    }
    ghost var base := adap.base;
    var rdcount: nat, count: int := 0, msg.len;
    data := [];
    NothingFilled(buf0);
    while count > 0
      invariant rdcount + count == msg.len <= msg.buf.Length && count >= 0 && |data| == rdcount
      invariant Filled(msg.buf[..], data, buf0)
      invariant rdcount == 0 ==> adap.bus == old(adap.bus) && adap.lost == old(adap.lost)
      invariant rdcount == 0 ==> msg.Roomy() && msg.len == len0
      invariant rdcount > 0 ==> len0 > 0 && Grown(len0, msg.len, data, flags)
      invariant Waited(old(adap.lost), adap.lost) && adap.base == base
      invariant adap.lost.None? && len0 > 0 ==> Reading(adap.w, base, flags, s0, adap.bus, data, count > 0)
      decreases if rdcount == 0 then 1 else 0, count
    {
      ghost var b, before := adap.bus, data;
      var inval := OpenByte(adap, msg.flags, msg.buf, rdcount, s0, data, buf0);
      if inval < 0 {
        break;  // timed out
      }
      rdcount := rdcount + 1;
      count := count - 1;
      data := data + [inval];

      if rdcount == 1 && msg.flags.recvLen {
        if inval <= 0 || inval > SMBUS_BLOCK_MAX {
          var _ := CloseByte(adap, msg.flags, false, s0, b, before, inval);
          if adap.lost.None? { ReadEnds(adap.w, base, flags, s0, adap.bus, data, false); }
          return -EPROTO, data;
        }
        count := count + inval;
        msg.len := msg.len + inval;
      }

      var ok := CloseByte(adap, msg.flags, count > 0, s0, b, before, inval);
      if !ok {
        return -ETIMEDOUT, data;
      }
    }
    if adap.lost.None? && len0 > 0 { ReadEnds(adap.w, base, flags, s0, adap.bus, data, false); }
    res := rdcount;
  }

  lemma ReadEnds(w: World, base: Origin, f: Flags, s0: Slave, b: Bus, data: seq<byte>, more: bool)
    requires Reading(w, base, f, s0, b, data, more)
    ensures f.noRdAck && Sending(s0) ==> FirstThenOnes(s0.mode.byte, data)
    ensures !f.noRdAck && Sending(s0) ==> data == ToSend(w, s0, |data|)
  {
    if f.noRdAck && Sending(s0) {
      UnackedRead(w, s0, |data|);
    }
  }

  lemma ReadingStarts(w: World, base: Origin, f: Flags, b: Bus)
    requires OnTrack(base, b) && (!f.noRdAck ==> Framed(base, b) && Steady(w, b.slave))
    ensures Reading(w, if f.noRdAck then base.(loose := true) else base, f, b.slave, b, [], true)
  {
  }

  lemma ReadingClocks(w: World, base: Origin, f: Flags, s0: Slave, b: Bus, data: seq<byte>)
    requires Reading(w, base, f, s0, b, data, true)
    ensures Clocking(b) && (!f.noRdAck ==> Framed(base, b))
    ensures data == [] ==> b.slave == s0
  {
  }

  /** One more byte: whatever follows its eight bits, the read is where it should be. */
  lemma ReadingByte(w: World, base: Origin, f: Flags, s0: Slave, b: Bus, data: seq<byte>, d: byte, more: bool)
    requires Reading(w, base, f, s0, b, data, true)
    requires d == MsbValue(Seen(w, b.slave, Ones(8)))
    ensures f.noRdAck ==> Reading(w, base, f, s0, Pulsed(w, b, Ones(8), true), data + [d], more)
    ensures !f.noRdAck ==>
      MidRead(w, base, b, Pulsed(w, b, Ones(8), true)) && ReadSoFar(w, s0, AfterIn(w, b.slave, more), data + [d], more)
    ensures data == [] && Sending(s0) ==> d == s0.mode.byte
  {
    hide FollowAll, MsbValue, Seen, ShiftAll, Ones, Acked, ReadOut;
    if f.noRdAck {
      ReadingUnacked(w, base, f, s0, b, data, d, more);
      if data == [] && Sending(s0) { SentByte(w, s0); }
    } else {
      ReadOneMore(w, s0, b.slave, data, d, more);
    }
  }

  /** The final length of a read that asked for `len0` bytes. */
  ghost predicate Grown(len0: nat, len: nat, data: seq<byte>, f: Flags) {
    if f.recvLen then data != [] && 1 <= data[0] <= SMBUS_BLOCK_MAX && len == len0 + data[0] else len == len0
  }

  // ---------------------------------------------------------------- addressing

  /** The byte a slave is about to send, and so is holding SDA for. */
  function Held(s: Slave): Option<byte> {
    if Sending(s) then Some(s.mode.byte) else None
  }

  /** A START or STOP gets through unless the first bit of that byte is 0. */
  predicate LetsGo(held: Option<byte>) {
    held.None? || held.value >= 128
  }

  /** Between two messages: the slave is between two frames, or waits for an acknowledge that was left out. */
  predicate Paused(w: World, s: Slave) {
    Steady(w, s) || s.mode.AckIn?
  }

  lemma PullsIff(w: World, s: Slave)
    requires Paused(w, s)
    ensures Pull(s) <==> !LetsGo(Held(s))
  {
    if Sending(s) {
      FirstBit(s.mode.byte);
    }
  }

  /** Repeated START between two messages.  A slave that holds SDA low swallows it. */
  method Repstart(adap: I2cAdapter)
    modifies adap`bus, adap`rises, adap`lost
    requires adap.lost.None? ==> OnTrack(adap.base, adap.bus) && Paused(adap.w, adap.bus.slave)
    ensures old(adap.lost).Some? ==> adap.lost == old(adap.lost)
    ensures old(adap.lost).None? ==>
      var held := Held(old(adap.bus.slave));
      if LetsGo(held) then Waited(None, adap.lost)
      else adap.lost.Some? && (Waited(None, adap.lost) || adap.lost.value == Swallowed(held.value))
    ensures adap.lost.None? ==> Framed(adap.base, adap.bus) && adap.bus.slave == OnStart(old(adap.bus.slave))
  {
    ghost var b, known := adap.bus, adap.lost.None?;
    if known { PullsIff(adap.w, b.slave); }
    adap.I2cRepstart();
    if adap.lost.None? {
      if Pull(b.slave) {
        adap.lost := Some(Swallowed(Held(b.slave).value));
      } else {
        FollowNext(Idle, b.log, Start);
      }
    }
  }

  /** Send the address in the format the message asks for. */
  method DoAddress(adap: I2cAdapter, msg: I2cMsg) returns (res: int, ghost m: nat, ghost n: nat)
    modifies adap`bus, adap`rises, adap`lost
    requires adap.lost.None? ==> Framed(adap.base, adap.bus) && adap.bus.slave.mode == Recv([], true)
    ensures Waited(old(adap.lost), adap.lost)
    ensures res == 0 || res == -ENXIO || res == -EIO
    ensures msg.flags.ignoreNak ==> res == 0
    ensures m <= adap.retries && n <= adap.retries
    ensures adap.lost.None? && Willing(adap.w) ==> res == 0 && m == n == 0
    ensures adap.lost.None? ==> Framed(adap.base, adap.bus) && Addressed(adap.w, old(adap.bus.slave), adap.bus.slave)
    ensures adap.lost.None? && AsksForData(msg.flags) ==> !adap.bus.slave.mode.Recv? || res != 0
    ensures adap.lost.None? && (res != 0 || !AsksForData(msg.flags)) ==> Free(adap.bus.slave)
    ensures adap.lost.None? ==>
      Outcome(adap.w, adap.retries, msg.addr, msg.flags, old(adap.bus.slave.acks), m, n, res,
              old(adap.bus.slave.record), adap.bus.slave.record)
    ensures adap.lost.None? && res == 0 && !msg.flags.ignoreNak ==>
      if AsksForData(msg.flags) then Sending(adap.bus.slave) else Hears(adap.bus.slave)
  {
    hide Framed, OnTrack, Addressed, Addressing;
    m, n := 0, 0;
    var retries := if msg.flags.ignoreNak then 0 else adap.retries;
    if msg.flags.ten {
      res, m, n := TenBitAddress(adap, msg, retries);
    } else {
      res, m := SevenBitAddress(adap, msg, retries);
    }
  }

  /** A seven-bit address and the direction, in one byte. */
  method SevenBitAddress(adap: I2cAdapter, msg: I2cMsg, retries: nat) returns (res: int, ghost m: nat)
    modifies adap`bus, adap`rises, adap`lost
    requires !msg.flags.ten && retries <= adap.retries && (msg.flags.ignoreNak ==> retries == 0)
    requires adap.lost.None? ==> Framed(adap.base, adap.bus) && adap.bus.slave.mode == Recv([], true)
    ensures Waited(old(adap.lost), adap.lost)
    ensures res == 0 || res == -ENXIO
    ensures msg.flags.ignoreNak ==> res == 0
    ensures m <= adap.retries
    ensures adap.lost.None? && Willing(adap.w) ==> res == 0 && m == 0
    ensures adap.lost.None? ==> Framed(adap.base, adap.bus) && Addressed(adap.w, old(adap.bus.slave), adap.bus.slave)
    ensures adap.lost.None? && AsksForData(msg.flags) ==> !adap.bus.slave.mode.Recv? || res != 0
    ensures adap.lost.None? && (res != 0 || !AsksForData(msg.flags)) ==> Free(adap.bus.slave)
    ensures adap.lost.None? ==>
      Outcome(adap.w, retries, msg.addr, msg.flags, old(adap.bus.slave.acks), m, 0, res,
              old(adap.bus.slave.record), adap.bus.slave.record)
    ensures adap.lost.None? && res == 0 && !msg.flags.ignoreNak ==>
      if AsksForData(msg.flags) then Sending(adap.bus.slave) else Hears(adap.bus.slave)
  {
    hide Framed, OnTrack, Retried, TenBitWrite;
    var addr: nat := msg.addr * 2 % 256;
    if msg.flags.rd { addr := addr + 1; }
    if msg.flags.revDirAddr { addr := if addr % 2 == 1 then addr - 1 else addr + 1; }
    ghost var s0 := adap.bus.slave;
    var ret, tries := TryAddress(adap, addr, retries);
    m := tries;
    if adap.lost.None? {
      SevenBitOutcome(adap.w, retries, msg.addr, msg.flags, s0.acks, tries, ret == 1, s0.record, adap.bus.slave.record);
    }
    if ret != 1 && !msg.flags.ignoreNak {
      return -ENXIO, m;
    }
    res := 0;
  }

  /** The attempts from answer number a on went on as long as they should. */
  ghost predicate Tried(w: World, a: nat, retries: nat, tries: nat, acked: bool) {
    tries <= retries && if acked then Answered(w, a, retries, tries) else tries == retries && Unanswered(w, a, retries)
  }

  lemma SevenBitOutcome(w: World, retries: nat, addr: nat, f: Flags, a: nat, tries: nat, acked: bool,
                        before: seq<Event>, after: seq<Event>)
    requires !f.ten && (f.ignoreNak ==> retries == 0) && Tried(w, a, retries, tries, acked)
    requires after == before + Retried(AddressByte(addr, f), tries) + [Got(AddressByte(addr, f), acked)]
    ensures Outcome(w, retries, addr, f, a, tries, 0, if acked || f.ignoreNak then 0 else -ENXIO, before, after)
  {
    hide AddressByte;
    if f.ignoreNak { assert Retried(AddressByte(addr, f), 0) == []; }
  }

  /** The slave is between two frames, an address behind it. */
  ghost predicate Addressed(w: World, s0: Slave, s: Slave) {
    Steady(w, s) && Settled(s) && Grows(s0, s)
  }

  /** A ten-bit address: two bytes in the writing direction and, to read, the first one again after a repeated START. */
  method TenBitAddress(adap: I2cAdapter, msg: I2cMsg, retries: nat) returns (res: int, ghost m: nat, ghost n: nat)
    modifies adap`bus, adap`rises, adap`lost
    requires msg.flags.ten && retries <= adap.retries && (msg.flags.ignoreNak ==> retries == 0)
    requires adap.lost.None? ==> Framed(adap.base, adap.bus) && adap.bus.slave.mode == Recv([], true)
    ensures Waited(old(adap.lost), adap.lost)
    ensures res == 0 || res == -ENXIO || res == -EIO
    ensures msg.flags.ignoreNak ==> res == 0
    ensures m <= adap.retries && n <= adap.retries
    ensures adap.lost.None? && Willing(adap.w) ==> res == 0 && m == n == 0
    ensures adap.lost.None? ==> Framed(adap.base, adap.bus) && Addressed(adap.w, old(adap.bus.slave), adap.bus.slave)
    ensures adap.lost.None? && msg.flags.rd ==> !adap.bus.slave.mode.Recv? || res != 0
    ensures adap.lost.None? && (res != 0 || !msg.flags.rd) ==> Free(adap.bus.slave)
    ensures adap.lost.None? ==>
      Outcome(adap.w, retries, msg.addr, msg.flags, old(adap.bus.slave.acks), m, n, res,
              old(adap.bus.slave.record), adap.bus.slave.record)
    ensures adap.lost.None? && res == 0 && !msg.flags.ignoreNak ==>
      if msg.flags.rd then Sending(adap.bus.slave) else Hears(adap.bus.slave)
  {
    hide OnTrack, Retried, TenBitWrite, FollowAll, Outcome, TenBitOutcome;
    ghost var s0 := adap.bus.slave;
    m, n := 0, 0;
    var addr := 0xF0 + msg.addr / 256 % 4 * 2;
    res, m := TenBitPrefix(adap, msg, addr, retries);
    if res == 0 && msg.flags.rd {
      ghost var s := adap.bus.slave;
      Repstart(adap);
      var ret, tries := TryAddress(adap, addr + 1, retries);
      n := tries;
      if adap.lost.None? {
        TenBitReadOutcome(adap.w, retries, msg.addr, msg.flags, m, n, ret == 1, s0, s, adap.bus.slave.record);
      }
      if ret != 1 && !msg.flags.ignoreNak {
        return -EIO, m, n;
      }
    } else if adap.lost.None? {
      TenBitPrefixOutcome(adap.w, retries, msg.addr, msg.flags, m, res, s0, adap.bus.slave);
    }
  }

  lemma TenBitPrefixOutcome(w: World, retries: nat, addr: nat, f: Flags, m: nat, res: int, s0: Slave, s: Slave)
    requires f.ten && TenBitOutcome(w, retries, addr, f.ignoreNak, m, res, s0, s)
    requires (res == 0 && !f.rd) || (res == -ENXIO && !f.ignoreNak)
    ensures Outcome(w, retries, addr, f, s0.acks, m, 0, res, s0.record, s.record)
  {
    hide TenByte, Retried, TenBitWrite;
  }

  lemma TenBitReadOutcome(w: World, retries: nat, addr: nat, f: Flags, m: nat, n: nat, acked: bool, s0: Slave,
                          s: Slave, after: seq<Event>)
    requires f.ten && f.rd && (f.ignoreNak ==> retries == 0)
    requires TenBitOutcome(w, retries, addr, f.ignoreNak, m, 0, s0, s) && Tried(w, s.acks, retries, n, acked)
    requires after == s.record + [Started] + Retried(TenByte(addr) + 1, n) + [Got(TenByte(addr) + 1, acked)]
    ensures Outcome(w, retries, addr, f, s0.acks, m, n, if acked || f.ignoreNak then 0 else -EIO, s0.record, after)
  {
    hide TenBitWrite;
    if f.ignoreNak { assert Retried(TenByte(addr) + 1, 0) == []; }
  }

  /** How the first two bytes of a ten-bit address end. */
  ghost predicate TenBitOutcome(w: World, retries: nat, addr: nat, ignoreNak: bool, m: nat, res: int, s0: Slave,
                                s: Slave)
  {
    var a, c := s0.acks, TenByte(addr);
    if ignoreNak then
      && s.record == s0.record + [Got(c, w.ack(a))] + (if w.ack(a) then [Got(addr % 256, w.ack(a + 1))] else [])
      && s.acks == a + if w.ack(a) then 2 else 1
    else if res == 0 then
      && s.record == s0.record + TenBitWrite(addr, m)
      && Answered(w, a, retries, m) && w.ack(a + m + 1) && s.acks == a + m + 2
    else
      || (Unanswered(w, a, retries) && s.record == s0.record + Retried(c, retries) + [Got(c, false)])
      || (Answered(w, a, retries, m) && !w.ack(a + m + 1)
          && s.record == s0.record + Retried(c, m) + [Got(c, true)] + [Got(addr % 256, false)])
  }

  /** The two bytes of a ten-bit address, in the writing direction. */
  method TenBitPrefix(adap: I2cAdapter, msg: I2cMsg, addr: byte, retries: nat) returns (res: int, ghost m: nat)
    modifies adap`bus, adap`rises, adap`lost
    requires addr == TenByte(msg.addr) && retries <= adap.retries && (msg.flags.ignoreNak ==> retries == 0)
    requires adap.lost.None? ==> Framed(adap.base, adap.bus) && adap.bus.slave.mode == Recv([], true)
    ensures Waited(old(adap.lost), adap.lost)
    ensures res == 0 || res == -ENXIO
    ensures msg.flags.ignoreNak ==> res == 0
    ensures m <= adap.retries
    ensures adap.lost.None? && Willing(adap.w) ==> res == 0 && m == 0
    ensures adap.lost.None? ==> Framed(adap.base, adap.bus) && Addressed(adap.w, old(adap.bus.slave), adap.bus.slave)
    ensures adap.lost.None? ==> Free(adap.bus.slave)
    ensures adap.lost.None? && res == 0 && !msg.flags.ignoreNak ==> Hears(adap.bus.slave)
    ensures adap.lost.None? ==>
      TenBitOutcome(adap.w, retries, msg.addr, msg.flags.ignoreNak, m, res, old(adap.bus.slave), adap.bus.slave)
  {
    hide Framed, OnTrack, Retried, TenBitOutcome;
    ghost var s0 := adap.bus.slave;
    var ret, tries := TryAddress(adap, addr, retries);
    m := tries;
    ghost var s, acked, known := adap.bus.slave, ret == 1, adap.lost.None?;
    if known { FirstOutcome(adap.w, retries, msg.addr, msg.flags.ignoreNak, m, acked, s0, s); }
    if ret != 1 && !msg.flags.ignoreNak {
      return -ENXIO, m;
    }
    ret := OutFrame(adap, msg.addr % 256);
    if adap.lost.None? {
      SecondOutcome(adap.w, retries, msg.addr, msg.flags.ignoreNak, m, acked, s0, s, adap.bus.slave);
    }
    if ret != 1 && !msg.flags.ignoreNak {
      return -ENXIO, m;
    }
    res := 0;
  }

  lemma FirstOutcome(w: World, retries: nat, addr: nat, ignoreNak: bool, m: nat, acked: bool, s0: Slave, s: Slave)
    requires Tried(w, s0.acks, retries, m, acked)
    requires s.record == s0.record + Retried(TenByte(addr), m) + [Got(TenByte(addr), acked)]
    ensures !acked && !ignoreNak ==> TenBitOutcome(w, retries, addr, ignoreNak, m, -ENXIO, s0, s)
  {
    hide TenByte, Retried;
  }

  lemma SecondOutcome(w: World, retries: nat, addr: nat, ignoreNak: bool, m: nat, acked: bool, s0: Slave, s: Slave,
                      t: Slave)
    requires Tried(w, s0.acks, retries, m, acked) && (ignoreNak ==> retries == 0) && (acked || ignoreNak)
    requires s.record == s0.record + Retried(TenByte(addr), m) + [Got(TenByte(addr), acked)]
    requires s.acks == s0.acks + m + 1 && Boundary(s) && if acked then s.mode.Recv? else s.mode.Off?
    requires t == AfterOut(w, s, addr % 256)
    ensures TenBitOutcome(w, retries, addr, ignoreNak, m, if w.ack(s.acks) || ignoreNak then 0 else -ENXIO, s0, t)
  {
    hide TenByte;
    if ignoreNak { assert Retried(TenByte(addr), 0) == []; }
  }
}
