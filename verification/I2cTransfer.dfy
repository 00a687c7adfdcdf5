/** Whole transfers: START, the messages one after the other with repeated STARTs between them, STOP. */
module I2cTransfer {
  import opened Bytes
  import opened Errno
  import opened I2cBus
  import opened I2cMaster
  import opened I2cFrames
  import opened I2cMessage

  // ---------------------------------------------------------------- kinds of messages

  /** A message that asks a slave for data and then clocks none of it. */
  predicate Silent(f: Flags, len: nat) {
    !f.noStart && AsksForData(f) && len == 0
  }

  /** A read that leaves out its acknowledge slots. */
  predicate Unacked(f: Flags) {
    f.rd && f.noRdAck
  }

  /** A message about whose delivery a success says something: no acknowledge may be missing, and a read must have put
      the slave in its sending role or, without a START of its own, find it there with the byte `held`. */
  predicate Strict(f: Flags, held: Option<byte>) {
    if f.noStart then (if f.rd then held.Some? else !f.ignoreNak)
    else !f.ignoreNak && (f.rd ==> AsksForData(f))
  }

  /** A message a willing slave cannot refuse: it is addressed, written to in its receiving role, and not asked for
      a length byte. */
  predicate Plain(f: Flags) {
    !f.noStart && if f.rd then !f.recvLen else !AsksForData(f)
  }

  /** What the slave sees of one delivered message. */
  function Delivery(addr: nat, f: Flags, data: seq<byte>, lead: bool, m: nat, n: nat): seq<Event> {
    (if lead && !f.noStart then [Started] else [])
    + (if f.noStart then [] else Addressing(addr, f, m, n))
    + DataSeen(f, data)
  }

  function DataSeen(f: Flags, data: seq<byte>): seq<Event> {
    if !f.rd then Written(data)
    else if !f.noRdAck then ReadOut(data)
    else if |data| <= 1 then [] else [Sent(data[0], false)]
  }

  /** Read without acknowledges, all bytes but the first are ones, and a slave that sent just one waits. */
  ghost predicate Shaped(f: Flags, data: seq<byte>, to: Slave) {
    Unacked(f) ==>
      (forall k | 1 <= k < |data| :: data[k] == 0xFF) && (|data| == 1 ==> to.mode == AckIn(data[0]))
  }

  ghost predicate Delivered(w: World, retries: nat, addr: nat, f: Flags, lead: bool, item: Item) {
    Shaped(f, item.data, item.to)
    && exists m: nat, n: nat ::
         && m <= retries && n <= retries && Counted(w, retries, f, item.from.acks, m, n)
         && item.seen == Delivery(addr, f, item.data, lead, m, n)
  }

  /** The slave's answers from number a on make the two addressing steps take m and n retries. */
  ghost predicate Counted(w: World, retries: nat, f: Flags, a: nat, m: nat, n: nat) {
    !f.noStart ==> Answered(w, a, retries, m) && (f.ten && f.rd ==> Answered(w, a + m + 2, retries, n))
  }

  // ---------------------------------------------------------------- one message

  /** The acknowledge slots a message counts on are not where its slave expects them: a read without them from a slave
      that is receiving, or anything else after such a read left a slave waiting for one. */
  predicate Muddled(f: Flags, len: nat, s: Slave) {
    len > 0 && if Unacked(f) then s.mode.Recv? else s.mode.AckIn?
  }

  /** Every byte of the data phase of a successful message passes between master and slave. */
  predicate Conveys(f: Flags, s: Slave) {
    if f.rd then Sending(s) else !f.ignoreNak
  }

  /** A willing slave lets the data phase through. */
  predicate Succeeds(f: Flags, s: Slave) {
    if f.rd then !f.recvLen else f.ignoreNak || Hears(s)
  }

  /** The data phase of a message. */
  method Payload(adap: I2cAdapter, msg: I2cMsg) returns (res: int, ghost data: seq<byte>)
    modifies adap`bus, adap`rises, adap`lost, adap`base, msg`len, msg.buf
    requires msg.Roomy()
    requires adap.lost.None? ==> OnTrack(adap.base, adap.bus) && Paused(adap.w, adap.bus.slave)
    ensures res <= 0
    ensures if old(adap.lost).None? && Muddled(msg.flags, old(msg.len), old(adap.bus.slave))
            then adap.lost == Some(OutOfStep) else Waited(old(adap.lost), adap.lost)
    ensures adap.base ==
            if old(msg.len) > 0 && Unacked(msg.flags) then old(adap.base).(loose := true) else old(adap.base)
    ensures old(msg.len) <= msg.len <= msg.buf.Length && |data| <= msg.len
    ensures Filled(msg.buf[..], data, old(msg.buf[..]))
    ensures !msg.flags.rd ==> msg.len == old(msg.len) && msg.buf[..] == old(msg.buf[..])
    ensures res == 0 ==> |data| == msg.len
    ensures old(msg.len) == 0 ==> res == 0 && msg.len == 0 && adap.bus == old(adap.bus)
    ensures res == 0 && msg.flags.rd && old(msg.len) > 0 ==> Grown(old(msg.len), msg.len, data, msg.flags)
    ensures adap.lost.None? ==>
      OnTrack(adap.base, adap.bus) && Carried(adap.w, msg.flags, old(msg.len), old(adap.bus.slave), adap.bus.slave)
    ensures adap.lost.None? && res == 0 && Conveys(msg.flags, old(adap.bus.slave)) ==>
      Shaped(msg.flags, data, adap.bus.slave)
      && adap.bus.slave.record == old(adap.bus.slave.record) + DataSeen(msg.flags, data)
    ensures adap.lost.None? ==>
      || res == 0
      || (res == -EIO && !msg.flags.rd && !msg.flags.ignoreNak)
      || (res == -EPROTO && msg.flags.rd && msg.flags.recvLen && |data| == 1 && !(1 <= data[0] <= SMBUS_BLOCK_MAX))
    ensures adap.lost.None? && !msg.flags.rd && Hears(old(adap.bus.slave)) && msg.len > 0 ==>
      && Told(adap.w, old(adap.bus.slave), adap.bus.slave, msg.buf[..msg.len])
      && (res == 0 <==> Hears(adap.bus.slave) || msg.flags.ignoreNak)
    ensures adap.lost.None? && Willing(adap.w) && Succeeds(msg.flags, old(adap.bus.slave)) ==> res == 0
  {
    hide OnTrack, Grown, Reading, Written, ReadOut, Steady, Filled, Carried, Told;
    NothingSeen(msg.flags);
    ghost var s0, len0, buf0 := adap.bus.slave, msg.len, msg.buf[..];
    ghost var known := adap.lost.None?;
    if known && Muddled(msg.flags, len0, s0) {
      adap.lost := Some(OutOfStep);
    }
    if adap.lost.None? { ReadyFor(adap.w, adap.base, adap.bus, msg.flags, len0); }
    if msg.flags.rd {
      res, data := ReadBytes(adap, msg);
      if adap.lost.None? {
        if len0 > 0 {
          ReadCarried(adap.w, adap.base, msg.flags, len0, s0, adap.bus, data, res);
        } else {
          NothingCarried(adap.w, msg.flags, s0);
        }
      }
    } else {
      res := SendBytes(adap, msg);
      data := if res < 0 then [] else msg.buf[..msg.len];
      SentFills(msg.buf[..], data);
      if adap.lost.None? {
        if len0 > 0 {
          SentCarried(adap.w, adap.base, msg.flags, len0, s0, adap.bus, res);
        } else {
          NothingCarried(adap.w, msg.flags, s0);
        }
      }
    }
    if res < msg.len {
      res := if res >= 0 then -EIO else res;
      return;
    }
    res := 0;
  }

  lemma NothingSeen(f: Flags)
    ensures DataSeen(f, []) == [] && forall s :: Shaped(f, [], s)
  {
  }

  /** What the data phase does to the slave's standing. */
  ghost predicate Carried(w: World, f: Flags, len0: nat, s0: Slave, s: Slave) {
    && Paused(w, s) && Grows(s0, s)
    && (if len0 == 0 then s == s0
        else (Settled(s) || s.mode.AckIn?) && (Settled(s0) || s0.mode.AckIn? ==> !Sending(s))
             && (s.mode.AckIn? ==> Unacked(f)))
  }

  lemma NothingCarried(w: World, f: Flags, s: Slave)
    requires Paused(w, s)
    ensures Carried(w, f, 0, s, s)
  {
  }

  lemma ReadyFor(w: World, base: Origin, b: Bus, f: Flags, len: nat)
    requires OnTrack(base, b) && Paused(w, b.slave) && !Muddled(f, len, b.slave)
    ensures len > 0 && !Unacked(f) ==> Framed(base, b) && Steady(w, b.slave)
  {
  }

  lemma SentFills(buf: seq<byte>, data: seq<byte>)
    requires data <= buf
    ensures Filled(buf, data, buf)
  {
  }

  lemma SentCarried(w: World, base: Origin, f: Flags, len0: nat, s0: Slave, b: Bus, res: int)
    requires Framed(base, b) && len0 > 0 && !f.rd && Steady(w, s0)
    requires Steady(w, b.slave) && Grows(s0, b.slave) && Settled(b.slave) && (Settled(s0) ==> Free(b.slave))
    ensures OnTrack(base, b) && Carried(w, f, len0, s0, b.slave)
  {
  }

  lemma ReadCarried(w: World, base: Origin, f: Flags, len0: nat, s0: Slave, b: Bus, data: seq<byte>, res: int)
    requires Reading(w, base, f, s0, b, data, false) && len0 > 0 && f.rd && Paused(w, s0) && !Muddled(f, len0, s0)
    requires data != []
    ensures OnTrack(base, b) && Carried(w, f, len0, s0, b.slave)
    ensures Sending(s0) ==> Shaped(f, data, b.slave) && b.slave.record == s0.record + DataSeen(f, data)
  {
    hide Clocked, Chunks, ReadOut, Acked, FollowAll;
    if f.noRdAck {
      if Sending(s0) {
        UnackedRead(w, s0, |data|);
      } else if s0.mode.Off? {
        UnackedNothing(w, s0, |data|);
      } else {
        UnackedCut(w, s0, |data|);
      }
    }
  }

  /** What became of a message: its result, the length asked for, what was read or written, what the slave saw of it,
      and the slave before and after. */
  datatype Item = Item(res: int, len0: nat, data: seq<byte>, seen: seq<Event>, from: Slave, to: Slave)

  function Gain(s: Slave, t: Slave): (seen: seq<Event>)
    ensures Grows(s, t) ==> s.record + seen == t.record
  {
    if |s.record| <= |t.record| then t.record[|s.record|..] else []
  }

  /** No START, and the slave in the wrong place for what follows; or an unacknowledged read of a slave told to
      receive. */
  predicate Strays(f: Flags, len0: nat, s: Slave) {
    if f.noStart then Muddled(f, len0, s) else Unacked(f) && len0 > 0 && !AsksForData(f)
  }

  /** How a message can cost the model its hold on the bus, or not. */
  predicate Cost(f: Flags, lead: bool, len0: nat, s: Slave, lost: Option<Cause>) {
    var held := if lead && !f.noStart then Held(s) else None;
    match lost
    case None => LetsGo(held) && !(f.noStart && Strays(f, len0, s))
    case Some(Swallowed(b)) => held == Some(b) && !LetsGo(held)
    case Some(OutOfStep) => Strays(f, len0, s)
    case Some(_) => true
  }

  /** A message that was carried out, successfully or not. */
  ghost predicate Entry(w: World, retries: nat, addr: nat, f: Flags, lead: bool, item: Item) {
    && item.from.record + item.seen == item.to.record
    && Cost(f, lead, item.len0, item.from, None)
    && Holding(f, item)
    && Reached(w, retries, addr, f, lead, item)
    && Failed(f, item)
    && (item.res == 0 ==> Went(w, retries, addr, f, lead, item))
  }

  /** The slave's record once a message has begun, with a START of its own or with the transfer's. */
  function Begun(s: Slave, lead: bool): seq<Event> {
    s.record + if lead then [Started] else []
  }

  /** The addressing of a message ended as it should, and if that was not a success the message ended with it. */
  ghost predicate Reached(w: World, retries: nat, addr: nat, f: Flags, lead: bool, item: Item) {
    if f.noStart then item.res != -ENXIO
    else
      exists m: nat, n: nat, res: int, after: seq<Event> ::
        && Outcome(w, retries, addr, f, item.from.acks, m, n, res, Begun(item.from, lead), after)
        && after <= item.to.record
        && (if res == 0 then item.res != -ENXIO else item.res == res && item.to.record == after)
  }

  /** What can go wrong with a message: nobody answers its address, the slave refuses a byte, or the length it sends is
      none. */
  ghost predicate Failed(f: Flags, item: Item) {
    || item.res == 0
    || (item.res == -ENXIO && !f.noStart && !f.ignoreNak)
    || (item.res == -EIO && !f.ignoreNak && (!f.rd || (f.ten && !f.noStart)))
    || (item.res == -EPROTO && f.rd && f.recvLen && |item.data| == 1 && !(1 <= item.data[0] <= SMBUS_BLOCK_MAX))
  }

  /** A slave is left offering a byte exactly by asking it for data and clocking none; without a START, by doing
      nothing at all or by writing the address as data. */
  ghost predicate Holding(f: Flags, item: Item) {
    && (Sending(item.to) ==>
          if !f.noStart then item.res == 0 && Silent(f, item.len0)
          else item.len0 == 0 || item.from.mode == Recv([], true))
    && (item.res == 0 && Silent(f, item.len0) && !f.ignoreNak ==> Sending(item.to))
    && (f.noStart && item.len0 == 0 ==> item.to == item.from)
    && (item.to.mode.AckIn? ==> Unacked(f) || (f.noStart && item.len0 == 0))
    && (item.to.mode == Recv([], true) ==> f.noStart && item.len0 == 0)
  }

  /** A message that went through. */
  ghost predicate Went(w: World, retries: nat, addr: nat, f: Flags, lead: bool, item: Item) {
    && (Strict(f, Held(item.from)) ==> Delivered(w, retries, addr, f, lead, item))
    && (f.rd && item.len0 > 0 ==> Grown(item.len0, |item.data|, item.data, f))
  }

  /** The (repeated) START and address of a message. */
  method Address(adap: I2cAdapter, msg: I2cMsg, lead: bool) returns (res: int, ghost m: nat, ghost n: nat)
    modifies adap`bus, adap`rises, adap`lost
    requires !msg.flags.noStart
    requires adap.lost.None? ==> OnTrack(adap.base, adap.bus) && Paused(adap.w, adap.bus.slave)
    requires adap.lost.None? && !lead ==> Framed(adap.base, adap.bus) && adap.bus.slave.mode == Recv([], true)
    ensures if old(adap.lost).Some? then adap.lost == old(adap.lost)
            else Cost(msg.flags, lead, msg.len, old(adap.bus.slave), adap.lost) && adap.lost != Some(OutOfStep)
    ensures res == 0 || res == -ENXIO || res == -EIO
    ensures msg.flags.ignoreNak ==> res == 0
    ensures m <= adap.retries && n <= adap.retries
    ensures adap.lost.None? && Willing(adap.w) ==> res == 0
    ensures adap.lost.None? ==>
      Framed(adap.base, adap.bus)
      && Approached(adap.w, adap.retries, msg.addr, msg.flags, lead, m, n, old(adap.bus.slave), adap.bus.slave,
                    res)
  {
    hide OnTrack, Framed, Addressing, Boundary, Paused, Settled, Steady;
    ghost var s0, known := adap.bus.slave, adap.lost.None?;
    if lead {
      Repstart(adap);
    }
    ghost var s := adap.bus.slave;
    res, m, n := DoAddress(adap, msg);
    if adap.lost.None? {
      Approach(adap.w, adap.retries, msg.addr, msg.flags, lead, m, n, s0, s, adap.bus.slave, res);
    }
  }

  /** The slave after the addressing. */
  ghost predicate Approached(w: World, retries: nat, addr: nat, f: Flags, lead: bool, m: nat, n: nat,
                             s0: Slave, s: Slave, res: int)
  {
    && Addressed(w, s0, s)
    && (AsksForData(f) ==> !s.mode.Recv? || res != 0)
    && (res != 0 || !AsksForData(f) ==> Free(s))
    && Outcome(w, retries, addr, f, s0.acks, m, n, res, Begun(s0, lead), s.record)
    && (res == 0 && !f.ignoreNak ==> if AsksForData(f) then Sending(s) else Hears(s))
  }

  lemma Approach(w: World, retries: nat, addr: nat, f: Flags, lead: bool, m: nat, n: nat, s0: Slave, s1: Slave,
                 s: Slave, res: int)
    requires s1 == if lead then OnStart(s0) else s0
    requires Addressed(w, s1, s)
    requires AsksForData(f) ==> !s.mode.Recv? || res != 0
    requires res != 0 || !AsksForData(f) ==> Free(s)
    requires Outcome(w, retries, addr, f, s1.acks, m, n, res, s1.record, s.record)
    requires res == 0 && !f.ignoreNak ==> if AsksForData(f) then Sending(s) else Hears(s)
    ensures Approached(w, retries, addr, f, lead, m, n, s0, s, res)
  {
    hide Addressing;
    assert s0.record <= s1.record;
  }

  /** One message of a transfer, its (repeated) START and address included. */
  method XferMessage(adap: I2cAdapter, msg: I2cMsg, lead: bool) returns (res: int, ghost item: Item)
    modifies adap`bus, adap`rises, adap`lost, adap`base, msg`len, msg.buf
    requires msg.Roomy()
    requires adap.lost.None? ==> OnTrack(adap.base, adap.bus) && Paused(adap.w, adap.bus.slave)
    requires adap.lost.None? && !lead ==> Framed(adap.base, adap.bus) && adap.bus.slave.mode == Recv([], true)
    ensures if old(adap.lost).Some? then adap.lost == old(adap.lost)
            else Cost(msg.flags, lead, old(msg.len), old(adap.bus.slave), adap.lost)
    ensures res <= 0
    ensures adap.base == old(adap.base) || (Unacked(msg.flags) && adap.base == old(adap.base).(loose := true))
    ensures old(msg.len) <= msg.len <= msg.buf.Length && |item.data| <= msg.len
    ensures res == 0 ==> |item.data| == msg.len
    ensures Filled(msg.buf[..], item.data, old(msg.buf[..]))
    ensures !msg.flags.rd ==> msg.len == old(msg.len) && msg.buf[..] == old(msg.buf[..])
    ensures item.res == res && item.len0 == old(msg.len)
    ensures item.from == old(adap.bus.slave) && item.to == adap.bus.slave
    ensures adap.lost.None? ==>
      && OnTrack(adap.base, adap.bus) && Paused(adap.w, adap.bus.slave)
      && Entry(adap.w, adap.retries, msg.addr, msg.flags, lead, item)
    ensures adap.lost.None? && Willing(adap.w) && Plain(msg.flags) ==> res == 0
  {
    hide OnTrack, Framed, Paused, Grown, Filled, Cost, Entry, Carried, Approached, Shaped;
    ghost var m: nat, n: nat, s0, len0 := 0, 0, adap.bus.slave, msg.len;
    ghost var data;
    NothingFilled(msg.buf[..]);
    if !msg.flags.noStart {
      res, m, n := Address(adap, msg, lead);
      if res != 0 && !msg.flags.ignoreNak {
        item := Item(res, len0, [], Gain(s0, adap.bus.slave), s0, adap.bus.slave);
        if adap.lost.None? {
          Refused(adap.w, adap.retries, msg.addr, msg.flags, lead, m, n, item, adap.base, adap.bus);
        }
        return;
      }
    }
    ghost var s1, known := adap.bus.slave, adap.lost.None?;
    if known {
      Approaching(adap.w, adap.retries, msg.addr, msg.flags, lead, m, n, len0, s0, s1, adap.base, adap.bus);
    }
    res, data := Payload(adap, msg);
    item := Item(res, len0, data, Gain(s0, adap.bus.slave), s0, adap.bus.slave);
    if adap.lost.None? {
      if msg.flags.noStart {
        ContinuedEntry(adap.w, adap.retries, msg.addr, msg.flags, lead, item);
      } else {
        AddressedEntry(adap.w, adap.retries, msg.addr, msg.flags, lead, m, n, s1, item);
      }
    }
  }

  lemma Approaching(w: World, retries: nat, addr: nat, f: Flags, lead: bool, m: nat, n: nat, len0: nat, s0: Slave,
                    s1: Slave, base: Origin, b: Bus)
    requires b.slave == s1
    requires if f.noStart then OnTrack(base, b) && Paused(w, s1) && s1 == s0
             else Framed(base, b) && Approached(w, retries, addr, f, lead, m, n, s0, s1, 0)
                  && Cost(f, lead, len0, s0, None)
    ensures OnTrack(base, b) && Paused(w, s1)
    ensures Cost(f, lead, len0, s0, if Muddled(f, len0, s1) then Some(OutOfStep) else None)
    ensures Cost(f, lead, len0, s0, Some(Timeout)) && Cost(f, lead, len0, s0, Some(Unseen))
    ensures Plain(f) ==> Succeeds(f, s1)
  {
  }

  /** A message that failed before its data phase. */
  lemma Refused(w: World, retries: nat, addr: nat, f: Flags, lead: bool, m: nat, n: nat, item: Item,
                base: Origin, b: Bus)
    requires !f.noStart && item.res < 0 && Framed(base, b)
    requires Approached(w, retries, addr, f, lead, m, n, item.from, item.to, item.res)
    requires item.seen == Gain(item.from, item.to)
    requires Cost(f, lead, item.len0, item.from, None)
    ensures OnTrack(base, b) && Paused(w, item.to) && Entry(w, retries, addr, f, lead, item)
  {
  }

  lemma AddressedEntry(w: World, retries: nat, addr: nat, f: Flags, lead: bool, m: nat, n: nat, s: Slave, item: Item)
    requires !f.noStart && m <= retries && n <= retries && item.seen == Gain(item.from, item.to)
    requires Cost(f, lead, item.len0, item.from, None)
    requires Approached(w, retries, addr, f, lead, m, n, item.from, s, 0) && Carried(w, f, item.len0, s, item.to)
    requires item.len0 == 0 ==> item.res == 0
    requires item.res == 0 || (item.res == -EIO && !f.rd && !f.ignoreNak)
             || (item.res == -EPROTO && f.rd && f.recvLen && |item.data| == 1
                 && !(1 <= item.data[0] <= SMBUS_BLOCK_MAX))
    requires item.res == 0 && Conveys(f, s) ==>
      Shaped(f, item.data, item.to) && item.to.record == s.record + DataSeen(f, item.data)
    requires item.res == 0 && f.rd && item.len0 > 0 ==> Grown(item.len0, |item.data|, item.data, f)
    ensures Paused(w, item.to) && Entry(w, retries, addr, f, lead, item)
  {
    hide Outcome, Shaped, Grown, Delivered;
    var after := s.record;
    assert after <= item.to.record;
    assert Outcome(w, retries, addr, f, item.from.acks, m, n, 0, Begun(item.from, lead), after);
    if item.res == 0 && Strict(f, Held(item.from)) {
      AddressedDelivered(w, retries, addr, f, lead, m, n, s, item);
    }
  }

  lemma AddressedDelivered(w: World, retries: nat, addr: nat, f: Flags, lead: bool, m: nat, n: nat, s: Slave,
                           item: Item)
    requires !f.noStart && !f.ignoreNak && m <= retries && n <= retries
    requires Outcome(w, retries, addr, f, item.from.acks, m, n, 0, Begun(item.from, lead), s.record)
    requires Shaped(f, item.data, item.to) && item.to.record == s.record + DataSeen(f, item.data)
    requires item.seen == Gain(item.from, item.to)
    ensures Delivered(w, retries, addr, f, lead, item)
  {
    hide Addressing, DataSeen, Shaped, Answered;
    Chain(item.from.record, if lead then [Started] else [], Addressing(addr, f, m, n), DataSeen(f, item.data));
    assert item.seen == Delivery(addr, f, item.data, lead, m, n) && Counted(w, retries, f, item.from.acks, m, n);
  }

  lemma Chain(r: seq<Event>, a: seq<Event>, b: seq<Event>, c: seq<Event>)
    ensures r + a + b + c == r + (a + b + c)
  {
  }

  lemma ContinuedEntry(w: World, retries: nat, addr: nat, f: Flags, lead: bool, item: Item)
    requires f.noStart && item.seen == Gain(item.from, item.to)
    requires Paused(w, item.from) && !Strays(f, item.len0, item.from) && Carried(w, f, item.len0, item.from, item.to)
    requires item.len0 == 0 ==> item.res == 0
    requires item.res == 0 || (item.res == -EIO && !f.rd && !f.ignoreNak)
             || (item.res == -EPROTO && f.rd && f.recvLen && |item.data| == 1
                 && !(1 <= item.data[0] <= SMBUS_BLOCK_MAX))
    requires item.res == 0 && Conveys(f, item.from) ==>
      Shaped(f, item.data, item.to) && item.to.record == item.from.record + DataSeen(f, item.data)
    requires item.res == 0 && f.rd && item.len0 > 0 ==> Grown(item.len0, |item.data|, item.data, f)
    ensures Paused(w, item.to) && Entry(w, retries, addr, f, lead, item)
  {
    hide Addressing, DataSeen, Shaped, Grown;
    if item.res == 0 && Strict(f, Held(item.from)) {
      assert item.seen == Delivery(addr, f, item.data, lead, 0, 0);
    }
  }

  // ---------------------------------------------------------------- whole transfers

  /** What the slave saw of a list of messages. */
  function Flat(items: seq<Item>): seq<Event> {
    if items == [] then [] else Flat(items[..|items| - 1]) + items[|items| - 1].seen
  }

  /** The slave after them. */
  function Last(s0: Slave, items: seq<Item>): Slave {
    if items == [] then s0 else items[|items| - 1].to
  }

  /** The first |items| messages were carried out one after the other, all with success but perhaps the last. */
  ghost predicate Journal(w: World, retries: nat, msgs: seq<I2cMsg>, lens0: seq<nat>, s0: Slave, items: seq<Item>) {
    && |items| <= |msgs| == |lens0|
    && forall j | 0 <= j < |items| ::
         && items[j].len0 == lens0[j]
         && items[j].from == Last(s0, items[..j])
         && Paused(w, items[j].to)
         && Entry(w, retries, msgs[j].addr, msgs[j].flags, j > 0, items[j])
         && (j < |items| - 1 ==> items[j].res == 0)
  }

  lemma JournalNext(w: World, retries: nat, msgs: seq<I2cMsg>, lens0: seq<nat>, s0: Slave, items: seq<Item>,
                    item: Item)
    requires Journal(w, retries, msgs, lens0, s0, items) && |items| < |msgs|
    requires items != [] ==> items[|items| - 1].res == 0
    requires item.len0 == lens0[|items|] && item.from == Last(s0, items) && Paused(w, item.to)
    requires Entry(w, retries, msgs[|items|].addr, msgs[|items|].flags, |items| > 0, item)
    ensures Journal(w, retries, msgs, lens0, s0, items + [item])
  {
    hide Entry, Last, Paused;
    var more := items + [item];
    assert more[..|items|] == items;
    assert forall j | 0 <= j < |items| :: more[..j] == items[..j];
  }

  lemma PrefixJournal(w: World, retries: nat, msgs: seq<I2cMsg>, lens0: seq<nat>, s0: Slave, items: seq<Item>)
    requires Journal(w, retries, msgs, lens0, s0, items) && items != []
    ensures Journal(w, retries, msgs, lens0, s0, items[..|items| - 1])
    ensures |items| <= |msgs| == |lens0|
    ensures var n := |items| - 1;
      && items[n].from == Last(s0, items[..n]) && items[n].len0 == lens0[n]
      && items[n].from.record + items[n].seen == items[n].to.record
      && Holding(msgs[n].flags, items[n])
  {
    hide Paused, Holding, Went, Cost;
    assert forall j | 0 <= j < |items| - 1 :: items[..|items| - 1][..j] == items[..j];
  }

  /** Every event of the slave's belongs to one of the messages. */
  lemma {:induction false} JournalRecord(w: World, retries: nat, msgs: seq<I2cMsg>, lens0: seq<nat>, s0: Slave,
                                         items: seq<Item>)
    requires Journal(w, retries, msgs, lens0, s0, items)
    ensures Last(s0, items).record == s0.record + Flat(items)
  {
    hide Journal;
    if items != [] {
      PrefixJournal(w, retries, msgs, lens0, s0, items);
      JournalRecord(w, retries, msgs, lens0, s0, items[..|items| - 1]);
    }
  }

  /** The model lost the bus only to the clock, or in the next message. */
  predicate Loss(msgs: seq<I2cMsg>, lens0: seq<nat>, s0: Slave, items: seq<Item>, lost: Option<Cause>) {
    lost.None? || lost.value.Timeout? || lost.value.Unseen?
    || (|items| < |msgs| == |lens0|
        && Cost(msgs[|items|].flags, |items| > 0, lens0[|items|], Last(s0, items), lost))
  }

  /** The lengths and buffers of a list of messages. */
  ghost function Lens(msgs: seq<I2cMsg>): (r: seq<nat>)
    reads msgs
    ensures |r| == |msgs| && forall j | 0 <= j < |msgs| :: r[j] == msgs[j].len
  {
    seq(|msgs|, j requires 0 <= j < |msgs| reads msgs => msgs[j].len)
  }

  ghost function Bufs(msgs: seq<I2cMsg>): (r: seq<seq<byte>>)
    reads set m | m in msgs :: m.buf
    ensures |r| == |msgs| && forall j | 0 <= j < |msgs| :: r[j] == msgs[j].buf[..]
  {
    seq(|msgs|, j requires 0 <= j < |msgs| reads set m | m in msgs :: m.buf => msgs[j].buf[..])
  }

  ghost predicate Distinct(msgs: seq<I2cMsg>) {
    forall i, j | 0 <= i < j < |msgs| :: msgs[i] != msgs[j]
  }

  /** No two messages share a buffer. */
  ghost predicate Separate(msgs: seq<I2cMsg>) {
    forall i, j | 0 <= i < j < |msgs| :: msgs[i].buf != msgs[j].buf
  }

  /** Messages to be written are as they were; messages being read have only grown within their buffers, and one
      carried out holds its data there. */
  ghost predicate Stored(msgs: seq<I2cMsg>, lens0: seq<nat>, bufs0: seq<seq<byte>>, lens: seq<nat>,
                         bufs: seq<seq<byte>>, items: seq<Item>)
  {
    && |lens0| == |bufs0| == |lens| == |bufs| == |msgs| >= |items|
    && (forall j | 0 <= j < |msgs| ::
          && lens0[j] <= lens[j] <= |bufs[j]| == |bufs0[j]|
          && (!msgs[j].flags.rd ==> lens[j] == lens0[j])
          && (!msgs[j].flags.rd && Separate(msgs) ==> bufs[j] == bufs0[j]))
    && forall j | 0 <= j < |items| ::
         && (items[j].res == 0 ==> lens[j] == |items[j].data|)
         && (Separate(msgs) ==> Filled(bufs[j], items[j].data, bufs0[j]))
  }

  /** The messages from number i on have not been touched. */
  ghost predicate Ahead(msgs: seq<I2cMsg>, i: nat, lens0: seq<nat>, bufs0: seq<seq<byte>>, lens: seq<nat>,
                        bufs: seq<seq<byte>>)
  {
    && |lens0| == |bufs0| == |lens| == |bufs| == |msgs|
    && forall j | i <= j < |msgs| :: lens[j] == lens0[j] && (Separate(msgs) ==> bufs[j] == bufs0[j])
  }

  /** Message i has been tried. */
  lemma StoredTried(msgs: seq<I2cMsg>, i: nat, lens0: seq<nat>, bufs0: seq<seq<byte>>, lens: seq<nat>,
                    bufs: seq<seq<byte>>, items: seq<Item>, len: nat, bufs1: seq<seq<byte>>)
    requires |items| <= i < |msgs| && |bufs1| == |msgs|
    requires Stored(msgs, lens0, bufs0, lens, bufs, items) && Ahead(msgs, i, lens0, bufs0, lens, bufs)
    requires lens0[i] <= len <= |bufs1[i]|
    requires forall j | 0 <= j < |msgs| :: |bufs1[j]| == |bufs[j]|
    requires Separate(msgs) ==> forall j | 0 <= j < |msgs| && j != i :: bufs1[j] == bufs[j]
    requires !msgs[i].flags.rd ==> len == lens0[i] && bufs1 == bufs
    ensures Stored(msgs, lens0, bufs0, lens[i := len], bufs1, items)
    ensures Ahead(msgs, i + 1, lens0, bufs0, lens[i := len], bufs1)
  {
    hide Filled, Separate;
  }

  lemma StoredNext(msgs: seq<I2cMsg>, lens0: seq<nat>, bufs0: seq<seq<byte>>, lens: seq<nat>,
                   bufs: seq<seq<byte>>, items: seq<Item>, item: Item)
    requires |items| < |msgs| && Stored(msgs, lens0, bufs0, lens, bufs, items)
    requires item.res == 0 ==> lens[|items|] == |item.data|
    requires Separate(msgs) ==> Filled(bufs[|items|], item.data, bufs0[|items|])
    ensures Stored(msgs, lens0, bufs0, lens, bufs, items + [item])
  {
    hide Filled, Separate;
  }

  /** Message i, alone. */
  method XferNth(adap: I2cAdapter, msg: I2cMsg, i: nat, ghost msgs: seq<I2cMsg>, ghost lens0: seq<nat>,
                 ghost bufs0: seq<seq<byte>>, ghost items: seq<Item>)
    returns (res: int, ghost item: Item)
    modifies adap`bus, adap`rises, adap`lost, adap`base, msg`len, msg.buf
    requires i < |msgs| && msg == msgs[i] && Distinct(msgs) && |items| <= i
    requires Stored(msgs, lens0, bufs0, Lens(msgs), Bufs(msgs), items)
    requires Ahead(msgs, i, lens0, bufs0, Lens(msgs), Bufs(msgs))
    requires msg.Roomy()
    requires adap.lost.None? ==> OnTrack(adap.base, adap.bus) && Paused(adap.w, adap.bus.slave)
    requires adap.lost.None? && i == 0 ==> Framed(adap.base, adap.bus) && adap.bus.slave.mode == Recv([], true)
    ensures if old(adap.lost).Some? then adap.lost == old(adap.lost)
            else Cost(msg.flags, i > 0, lens0[i], old(adap.bus.slave), adap.lost)
    ensures res <= 0
    ensures adap.base == old(adap.base) || (Unacked(msg.flags) && adap.base == old(adap.base).(loose := true))
    ensures Ahead(msgs, i + 1, lens0, bufs0, Lens(msgs), Bufs(msgs))
    ensures Stored(msgs, lens0, bufs0, Lens(msgs), Bufs(msgs), items)
    ensures |items| == i ==> Stored(msgs, lens0, bufs0, Lens(msgs), Bufs(msgs), items + [item])
    ensures item.res == res && item.len0 == lens0[i]
    ensures item.from == old(adap.bus.slave) && item.to == adap.bus.slave
    ensures adap.lost.None? ==>
      && OnTrack(adap.base, adap.bus) && Paused(adap.w, adap.bus.slave)
      && Entry(adap.w, adap.retries, msg.addr, msg.flags, i > 0, item)
    ensures adap.lost.None? && Willing(adap.w) && Plain(msg.flags) ==> res == 0
    ensures forall m | m in msgs && m != msg :: m.len == old(m.len)
  {
    hide OnTrack, Framed, Paused, Filled, Cost, Entry, Separate, Stored;
    ghost var lens, bufs := Lens(msgs), Bufs(msgs);
    res, item := XferMessage(adap, msg, i > 0);
    Untouched(msgs, i);
    assert Lens(msgs) == lens[i := msg.len];
    StoredTried(msgs, i, lens0, bufs0, lens, bufs, items, msg.len, Bufs(msgs));
    if |items| == i {
      StoredNext(msgs, lens0, bufs0, Lens(msgs), Bufs(msgs), items, item);
    }
  }

  lemma Untouched(msgs: seq<I2cMsg>, i: nat)
    requires i < |msgs|
    ensures Separate(msgs) ==> forall j | 0 <= j < |msgs| && j != i :: msgs[j].buf != msgs[i].buf
  {
  }

  /** The first i messages have been tried, the last of them with this result. */
  ghost predicate Underway(adap: I2cAdapter, msgs: seq<I2cMsg>, i: nat, res: int, lens0: seq<nat>,
                           bufs0: seq<seq<byte>>, s0: Slave, items: seq<Item>)
    reads adap, msgs, set m | m in msgs :: m.buf
  {
    && |items| <= i <= |msgs| == |lens0|
    && Journal(adap.w, adap.retries, msgs, lens0, s0, items)
    && Stored(msgs, lens0, bufs0, Lens(msgs), Bufs(msgs), items)
    && Ahead(msgs, i, lens0, bufs0, Lens(msgs), Bufs(msgs))
    && (items != [] ==> items[|items| - 1].res == 0 || items[|items| - 1].res == res)
    && (adap.lost.None? ==>
          && OnTrack(adap.base, adap.bus) && Paused(adap.w, adap.bus.slave)
          && |items| == i && adap.bus.slave == Last(s0, items)
          && (if i == 0 then Framed(adap.base, adap.bus) && s0.mode == Recv([], true) && res == 0
              else items[i - 1].res == res))
  }

  /** The result of a transfer: how many messages were carried out, or what went wrong with the last. */
  ghost predicate Ends(res: int, msgs: seq<I2cMsg>, items: seq<Item>) {
    if res >= 0 then res == |items| == |msgs| && forall j | 0 <= j < |items| :: items[j].res == 0
    else items != [] && items[|items| - 1].res == res
  }

  ghost predicate LooseOnlyBy(msgs: seq<I2cMsg>, before: Origin, after: Origin) {
    after == before || (after == before.(loose := true) && exists j | 0 <= j < |msgs| :: Unacked(msgs[j].flags))
  }

  predicate AllPlain(msgs: seq<I2cMsg>) {
    forall j | 0 <= j < |msgs| :: Plain(msgs[j].flags)
  }

  /** Message i, and the books for it. */
  method XferNext(adap: I2cAdapter, msg: I2cMsg, i: nat, ghost msgs: seq<I2cMsg>, ghost lens0: seq<nat>,
                  ghost bufs0: seq<seq<byte>>, ghost s0: Slave, ghost items0: seq<Item>)
    returns (res: int, ghost items: seq<Item>)
    modifies adap`bus, adap`rises, adap`lost, adap`base, msg`len, msg.buf
    requires i < |msgs| && msg == msgs[i] && Distinct(msgs) && msg.Roomy()
    requires Underway(adap, msgs, i, 0, lens0, bufs0, s0, items0)
    ensures res <= 0
    ensures Underway(adap, msgs, i + 1, res, lens0, bufs0, s0, items)
    ensures old(adap.lost).Some? ==> adap.lost == old(adap.lost) && items == items0
    ensures old(adap.lost).None? ==> Loss(msgs, lens0, s0, items, adap.lost)
    ensures LooseOnlyBy(msgs, old(adap.base), adap.base)
    ensures adap.lost.None? && Willing(adap.w) && Plain(msg.flags) ==> res == 0
    ensures forall m | m in msgs && m != msg :: m.len == old(m.len)
  {
    hide OnTrack, Framed, Paused, Filled, Cost, Entry, Separate, Stored, Ahead, Journal;
    ghost var item;
    res, item := XferNth(adap, msg, i, msgs, lens0, bufs0, items0);
    items := items0;
    if adap.lost.None? {
      JournalNext(adap.w, adap.retries, msgs, lens0, s0, items0, item);
      items := items0 + [item];
    }
  }

  lemma Finished(adap: I2cAdapter, msgs: seq<I2cMsg>, i: nat, res: int, lens0: seq<nat>, bufs0: seq<seq<byte>>,
                 s0: Slave, items: seq<Item>)
    requires Underway(adap, msgs, i, res, lens0, bufs0, s0, items)
    requires res < 0 || (res == 0 && i == |msgs|)
    ensures Journal(adap.w, adap.retries, msgs, lens0, s0, items)
    ensures Stored(msgs, lens0, bufs0, Lens(msgs), Bufs(msgs), items)
    ensures adap.lost.None? ==>
      && OnTrack(adap.base, adap.bus) && Paused(adap.w, adap.bus.slave) && adap.bus.slave == Last(s0, items)
      && Ends(if res < 0 then res else |msgs|, msgs, items)
  {
    hide OnTrack, Framed, Paused, Entry, Stored, Ahead;
  }

  lemma NoneTried(adap: I2cAdapter, msgs: seq<I2cMsg>)
    requires forall i | 0 <= i < |msgs| :: msgs[i].Roomy()
    requires adap.lost.None? ==> Framed(adap.base, adap.bus) && adap.bus.slave.mode == Recv([], true)
    ensures Underway(adap, msgs, 0, 0, Lens(msgs), Bufs(msgs), adap.bus.slave, [])
  {
  }

  /** Carry out the messages of a transfer one after the other. */
  method XferMessages(adap: I2cAdapter, msgs: seq<I2cMsg>) returns (res: int, ghost items: seq<Item>)
    modifies adap`bus, adap`rises, adap`lost, adap`base, msgs, set m | m in msgs :: m.buf
    requires Distinct(msgs) && forall i | 0 <= i < |msgs| :: msgs[i].Roomy()
    requires adap.lost.None? ==> Framed(adap.base, adap.bus) && adap.bus.slave.mode == Recv([], true)
    ensures if old(adap.lost).Some? then adap.lost == old(adap.lost)
            else Loss(msgs, old(Lens(msgs)), old(adap.bus.slave), items, adap.lost)
    ensures res == |msgs| || res < 0
    ensures LooseOnlyBy(msgs, old(adap.base), adap.base)
    ensures Journal(adap.w, adap.retries, msgs, old(Lens(msgs)), old(adap.bus.slave), items)
    ensures Stored(msgs, old(Lens(msgs)), old(Bufs(msgs)), Lens(msgs), Bufs(msgs), items)
    ensures adap.lost.None? ==>
      && OnTrack(adap.base, adap.bus) && Paused(adap.w, adap.bus.slave)
      && adap.bus.slave == Last(old(adap.bus.slave), items)
      && Ends(res, msgs, items)
    ensures adap.lost.None? && Willing(adap.w) && AllPlain(msgs) ==> res == |msgs|
  {
    hide OnTrack, Framed, Paused, Cost, Entry, Stored, Ahead, Journal, Underway, Ends;
    ghost var s0, lens0, bufs0, base0, known := adap.bus.slave, Lens(msgs), Bufs(msgs), adap.base, adap.lost.None?;
    items, res := [], 0;
    NoneTried(adap, msgs);
    var i := 0;
    while i < |msgs|
      invariant 0 <= i <= |msgs| && res == 0
      invariant Underway(adap, msgs, i, 0, lens0, bufs0, s0, items)
      invariant forall j | i <= j < |msgs| :: msgs[j].Roomy()
      invariant LooseOnlyBy(msgs, base0, adap.base)
      invariant if known then Loss(msgs, lens0, s0, items, adap.lost) else adap.lost == old(adap.lost)
    {
      res, items := XferNext(adap, msgs[i], i, msgs, lens0, bufs0, s0, items);
      i := i + 1;
      if res < 0 {
        break;
      }
    }
    Finished(adap, msgs, i, res, lens0, bufs0, s0, items);
    res := if res < 0 then res else i;
  }

  /** A transfer of several messages: START, each message, STOP.  The result is the number of messages, or a negative
      error.  A STOP gets through like a repeated START does: unless a slave, asked for data and given no clock to
      send it, holds SDA low with the first bit of it. */
  method BitXfer(adap: I2cAdapter, msgs: seq<I2cMsg>) returns (res: int, ghost items: seq<Item>)
    modifies adap, msgs, set m | m in msgs :: m.buf
    requires Distinct(msgs) && forall i | 0 <= i < |msgs| :: msgs[i].Roomy()
    requires adap.lost.None? ==> Resting(adap.base, adap.bus)
    ensures res == |msgs| || res < 0
    ensures Stored(msgs, old(Lens(msgs)), old(Bufs(msgs)), Lens(msgs), Bufs(msgs), items)
    ensures adap.base.log == old(adap.bus.log) && (old(adap.base.loose) ==> adap.base.loose)
    ensures adap.base.loose && !old(adap.base.loose) ==> exists j | 0 <= j < |msgs| :: Unacked(msgs[j].flags)
    ensures if old(adap.lost).Some? then adap.lost == old(adap.lost)
            else Loss(msgs, old(Lens(msgs)), OnStart(old(adap.bus.slave)), items, adap.lost)
                 && Journal(adap.w, adap.retries, msgs, old(Lens(msgs)), OnStart(old(adap.bus.slave)), items)
    ensures adap.lost.None? ==>
      var last := Last(OnStart(old(adap.bus.slave)), items);
      && Ends(res, msgs, items) && Paused(adap.w, last)
      && adap.base.log <= adap.bus.log
      && (if LetsGo(Held(last)) then Resting(adap.base, adap.bus) && adap.bus.slave == OnStop(last)
          else Stranded(adap.base, adap.bus) && adap.bus.slave == last)
      && last.record == old(adap.bus.slave.record) + [Started] + Flat(items)
    ensures adap.lost.None? && Willing(adap.w) && AllPlain(msgs) ==> res == |msgs|
  {
    hide Ends, Stored, Journal, Cost, Last, Flat, Paused, OnTrack, Framed, Resting, Stranded;
    ghost var s0, lens0, bufs0 := OnStart(adap.bus.slave), Lens(msgs), Bufs(msgs);
    BeginTransfer(adap);
    assert Lens(msgs) == lens0 && Bufs(msgs) == bufs0;
    res, items := XferMessages(adap, msgs);
    if old(adap.lost).None? { JournalRecord(adap.w, adap.retries, msgs, lens0, s0, items); }
    ghost var lens, bufs := Lens(msgs), Bufs(msgs);
    StopAfter(adap);
    assert Lens(msgs) == lens && Bufs(msgs) == bufs;
  }

  /** START. */
  method BeginTransfer(adap: I2cAdapter)
    modifies adap`bus, adap`base
    requires adap.lost.None? ==> Resting(adap.base, adap.bus)
    ensures adap.base == Origin(old(adap.bus.log), old(adap.base.loose))
    ensures adap.lost.None? ==> Framed(adap.base, adap.bus) && adap.bus.slave == OnStart(old(adap.bus.slave))
  {
    ghost var b := adap.bus;
    adap.base := Origin(b.log, adap.base.loose);
    adap.I2cStart();
    if adap.lost.None? { FollowNext(Idle, b.log, Start); }
  }

  /** The slave still holds SDA low, in the middle of what was meant to be over. */
  ghost predicate Stranded(base: Origin, b: Bus) {
    Sending(b.slave) && Pull(b.slave) && !LinesHigh(b) && (base.loose || FollowAll(Idle, b.log) == In(0))
  }

  /** STOP between two messages. */
  method StopAfter(adap: I2cAdapter)
    modifies adap`bus, adap`rises, adap`lost
    requires adap.lost.None? ==> OnTrack(adap.base, adap.bus) && Paused(adap.w, adap.bus.slave)
    ensures Waited(old(adap.lost), adap.lost)
    ensures adap.lost.None? ==>
      var s := old(adap.bus.slave);
      && adap.base.log <= adap.bus.log
      && (if LetsGo(Held(s)) then Resting(adap.base, adap.bus) && adap.bus.slave == OnStop(s)
          else Stranded(adap.base, adap.bus) && adap.bus.slave == s)
  {
    ghost var b, known := adap.bus, adap.lost.None?;
    if known { PullsIff(adap.w, b.slave); }
    adap.I2cStop();
    if adap.lost.None? {
      FollowNext(Idle, b.log, Stop);
    }
  }

  /** A slave that holds on to the bus, so that it can swallow a repeated START or a STOP, was asked for data by an
      earlier message that clocked none, or took its address from the bytes of a first message without a START. */
  lemma {:induction false} HeldSince(w: World, retries: nat, msgs: seq<I2cMsg>, lens0: seq<nat>, s0: Slave,
                                          items: seq<Item>)
    returns (j: nat)
    requires Journal(w, retries, msgs, lens0, s0, items) && s0.mode == Recv([], true)
    requires |items| <= |msgs| == |lens0| && Sending(Last(s0, items))
    ensures j < |items| && Last(s0, items) == items[j].to
    ensures if msgs[j].flags.noStart
            then lens0[j] > 0 && forall k | 0 <= k < j :: msgs[k].flags.noStart && lens0[k] == 0
            else Silent(msgs[j].flags, lens0[j])
    ensures forall k | j < k < |items| :: msgs[k].flags.noStart && lens0[k] == 0
  {
    hide Journal, Paused, Silent;
    var n := |items| - 1;
    PrefixJournal(w, retries, msgs, lens0, s0, items);
    if msgs[n].flags.noStart && lens0[n] == 0 {
      j := HeldSince(w, retries, msgs, lens0, s0, items[..n]);
    } else {
      j := n;
      if msgs[n].flags.noStart {
        StillFirst(w, retries, msgs, lens0, s0, items[..n]);
      }
    }
  }

  /** A slave that still waits for an address has been through nothing but empty messages without a START. */
  lemma {:induction false} StillFirst(w: World, retries: nat, msgs: seq<I2cMsg>, lens0: seq<nat>, s0: Slave,
                                      items: seq<Item>)
    requires Journal(w, retries, msgs, lens0, s0, items)
    requires |items| <= |msgs| == |lens0| && Last(s0, items).mode == Recv([], true)
    ensures forall k | 0 <= k < |items| :: msgs[k].flags.noStart && lens0[k] == 0
  {
    hide Journal, Paused, Silent;
    if items != [] {
      PrefixJournal(w, retries, msgs, lens0, s0, items);
      StillFirst(w, retries, msgs, lens0, s0, items[..|items| - 1]);
    }
  }

  /** In a transfer, too, a message ends with -ENXIO exactly if the slave answers none of the attempts the adapter may
      make at its first address byte, or goes on to refuse the second byte of a ten-bit address; the first of the
      attempts it answers, if there is one, is the last. */
  lemma RefusedIff(w: World, retries: nat, msgs: seq<I2cMsg>, lens0: seq<nat>, s0: Slave, items: seq<Item>, j: nat)
    requires |items| <= |msgs| == |lens0| && Journal(w, retries, msgs, lens0, s0, items) && j < |items|
    requires !msgs[j].flags.noStart && !msgs[j].flags.ignoreNak
    ensures var f, a := msgs[j].flags, items[j].from.acks;
      && (items[j].res == -ENXIO <==>
            Unanswered(w, a, retries) || (f.ten && exists m :: Answered(w, a, retries, m) && !w.ack(a + m + 1)))
      && (Unanswered(w, a, retries) ==>
            var c := if f.ten then TenByte(msgs[j].addr) else AddressByte(msgs[j].addr, f);
            items[j].to.record == Begun(items[j].from, j > 0) + Retried(c, retries) + [Got(c, false)])
  {
    hide Cost, Holding, Went, Failed, Paused, Begun, Retried, Addressing, TenBitWrite, TenByte, AddressByte;
    var item, f := items[j], msgs[j].flags;
    assert Reached(w, retries, msgs[j].addr, f, j > 0, item);
    var m: nat, n: nat, res, after :|
      && Outcome(w, retries, msgs[j].addr, f, item.from.acks, m, n, res, Begun(item.from, j > 0), after)
      && after <= item.to.record
      && (if res == 0 then item.res != -ENXIO else item.res == res && item.to.record == after);
  }
}
