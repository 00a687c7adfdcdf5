/** Which slave gets addressed: the address decoder of UM10204 section 3.1.10 and 3.1.11, run over what the
    master's addressing shows on the bus. */
module I2cAddress {
  import opened Bytes
  import opened I2cBus
  import opened I2cMaster
  import opened I2cFrames
  import opened I2cMessage
  import opened I2cTransfer

  datatype Target = Seven(addr: nat, read: bool) | Ten(addr: nat, read: bool)

  /** `Second` waits for the low byte of a ten-bit address. */
  datatype Wait = Nothing | First | Second(high: nat)

  /** The decoder: what it waits for, the ten-bit address in force since the last STOP, and the slave the bus
      is talking to. */
  datatype Decoder = Decoder(wait: Wait, ten: Option<nat>, target: Option<Target>)

  const FRESH := Decoder(Nothing, None, None)

  function Decode(d: Decoder, e: Event): Decoder {
    match e
    case Started => d.(wait := First, target := None)
    case Stopped => FRESH
    case Sent(_, _) => d
    case Got(b, acked) =>
      if d.wait.Nothing? then d
      else if !acked then d.(wait := Nothing)
      else if d.wait.Second? then
        Decoder(Nothing, Some(d.wait.high * 256 + b), Some(Ten(d.wait.high * 256 + b, false)))
      else if b / 8 != 0x1E then d.(wait := Nothing, target := Some(Seven(b / 2, b % 2 == 1)))
      else if b % 2 == 0 then d.(wait := Second(b / 2 % 4))
      else if d.ten.Some? && d.ten.value / 256 == b / 2 % 4 then
        d.(wait := Nothing, target := Some(Ten(d.ten.value, true)))
      else d.(wait := Nothing)
  }

  function DecodeAll(d: Decoder, es: seq<Event>): Decoder {
    if es == [] then d else Decode(DecodeAll(d, es[..|es| - 1]), es[|es| - 1])
  }

  lemma DecodeNext(d: Decoder, es: seq<Event>, e: Event)
    ensures DecodeAll(d, es + [e]) == Decode(DecodeAll(d, es), e)
  {
    assert (es + [e])[..|es|] == es;
  }

  lemma {:induction false} DecodeAppend(d: Decoder, xs: seq<Event>, ys: seq<Event>)
    ensures DecodeAll(d, xs + ys) == DecodeAll(DecodeAll(d, xs), ys)
  {
    if ys == [] {
      assert xs + ys == xs;
    } else {
      DecodeAppend(d, xs, ys[..|ys| - 1]);
      assert (xs + ys)[..|xs + ys| - 1] == xs + ys[..|ys| - 1];
    }
  }

  /** A START has just been seen. */
  predicate Open(d: Decoder) {
    d.wait == First && d.target == None
  }

  /** Failed attempts leave the decoder after a plain START, and cost it any ten-bit address it had. */
  lemma {:induction false} DecodeRetried(d: Decoder, c: byte, n: nat)
    requires Open(d)
    ensures DecodeAll(d, Retried(c, n)) == if n == 0 then d else Decoder(First, None, None)
  {
    if n > 0 {
      DecodeRetried(d, c, n - 1);
      var es := Retried(c, n - 1);
      assert Retried(c, n) == es + [Got(c, false)] + [Stopped] + [Started];
      DecodeNext(d, es, Got(c, false));
      DecodeNext(d, es + [Got(c, false)], Stopped);
      DecodeNext(d, es + [Got(c, false)] + [Stopped], Started);
    }
  }

  // ---------------------------------------------------------------- one message

  /** The slave and direction a message means. */
  function Meant(addr: nat, f: Flags): Target {
    if f.ten then Ten(addr % 1024, f.rd) else Seven(addr % 128, AsksForData(f))
  }

  /** When the addressing names that slave: a seven-bit address must not look like the prefix of a ten-bit one, and
      the last step of a ten-bit read must be acknowledged at once. */
  predicate Names(addr: nat, f: Flags, n: nat) {
    if !f.ten then addr % 128 / 4 != 0x1E else f.rd ==> n == 0
  }

  /** A seven-bit address reaches the slave it names, in the direction asked for, exactly if it does not look
      like the prefix of a ten-bit address. */
  lemma SevenBitReaches(d: Decoder, addr: nat, f: Flags, m: nat, n: nat)
    requires Open(d) && !f.ten
    ensures var e := DecodeAll(d, Addressing(addr, f, m, n));
      && (e.target == Some(Meant(addr, f)) <==> Names(addr, f, n))
      && (Names(addr, f, n) ==> e.wait == Nothing)
  {
    var b := AddressByte(addr, f);
    SevenBitByte(addr, f);
    DecodeRetried(d, b, m);
    DecodeNext(d, Retried(b, m), Got(b, true));
  }

  lemma SevenBitByte(addr: nat, f: Flags)
    ensures AddressByte(addr, f) / 2 == addr % 128
    ensures AddressByte(addr, f) % 2 == 1 <==> f.rd != f.revDirAddr
    ensures AddressByte(addr, f) / 8 == addr % 128 / 4
  {
    Doubled(addr);
    ByteParts(AddressByte(addr, f), addr % 128, if f.rd != f.revDirAddr then 1 else 0);
  }

  lemma Doubled(addr: nat)
    ensures addr * 2 % 256 == addr % 128 * 2
  {
  }

  lemma ByteParts(b: nat, a: nat, bit: nat)
    requires b == 2 * a + bit && bit < 2
    ensures b / 2 == a && b % 2 == bit && b / 8 == a / 4
  {
  }

  lemma TenByteBits(addr: nat)
    ensures TenByte(addr) / 8 == 0x1E && TenByte(addr) % 2 == 0 && TenByte(addr) / 2 % 4 == addr % 1024 / 256
    ensures (TenByte(addr) + 1) / 8 == 0x1E && (TenByte(addr) + 1) % 2 == 1
    ensures (TenByte(addr) + 1) / 2 % 4 == addr % 1024 / 256
    ensures addr % 1024 / 256 * 256 + addr % 256 == addr % 1024
    ensures TenByte(addr) < 255
  {
  }

  lemma TenBitPrefix(d: Decoder, addr: nat, m: nat)
    requires Open(d)
    ensures DecodeAll(d, TenBitWrite(addr, m))
            == Decoder(Nothing, Some(addr % 1024), Some(Ten(addr % 1024, false)))
  {
    hide Retried, DecodeAll, TenByte;
    TenByteBits(addr);
    var b := TenByte(addr);
    DecodeRetried(d, b, m);
    DecodeNext(d, Retried(b, m), Got(b, true));
    DecodeNext(d, Retried(b, m) + [Got(b, true)], Got(addr % 256, true));
  }

  /** A ten-bit write reaches the slave it names. */
  lemma TenBitWriteReaches(d: Decoder, addr: nat, f: Flags, m: nat, n: nat)
    requires Open(d) && f.ten && !f.rd
    ensures var e := DecodeAll(d, Addressing(addr, f, m, n));
      e.target == Some(Meant(addr, f)) && e.wait == Nothing
  {
    TenBitPrefix(d, addr, m);
  }

  /** A ten-bit read reaches the slave it names if and only if its last step is acknowledged at once: a retry puts
      a STOP in between, and the short form that follows it names nobody. */
  lemma TenBitReadReaches(d: Decoder, addr: nat, f: Flags, m: nat, n: nat)
    requires Open(d) && f.ten && f.rd
    ensures var e := DecodeAll(d, Addressing(addr, f, m, n));
      e.target == (if n == 0 then Some(Meant(addr, f)) else None) && e.wait == Nothing
  {
    hide Retried, DecodeAll, TenByte, TenBitWrite;
    TenByteBits(addr);
    var b := TenByte(addr) + 1;
    var prefix := TenBitWrite(addr, m) + [Started];
    TenBitPrefix(d, addr, m);
    DecodeNext(d, TenBitWrite(addr, m), Started);
    DecodeAppend(d, prefix, Retried(b, n));
    DecodeRetried(DecodeAll(d, prefix), b, n);
    DecodeNext(d, prefix + Retried(b, n), Got(b, true));
  }

  /** Whatever was addressed before: a message's addressing reaches the slave and direction it means exactly if it
      names it. */
  lemma AddressingReaches(d: Decoder, addr: nat, f: Flags, m: nat, n: nat)
    requires Open(d)
    ensures var e := DecodeAll(d, Addressing(addr, f, m, n));
      && (e.target == Some(Meant(addr, f)) <==> Names(addr, f, n))
      && (Names(addr, f, n) ==> e.wait == Nothing)
  {
    if !f.ten {
      SevenBitReaches(d, addr, f, m, n);
    } else if f.rd {
      TenBitReadReaches(d, addr, f, m, n);
    } else {
      TenBitWriteReaches(d, addr, f, m, n);
    }
  }

  /** What a caller can know beforehand: every outcome of the addressing names the slave exactly if the address does
      not look like a ten-bit prefix, or has ten bits and is written to or read with an adapter that never retries. */
  lemma NamesForSure(addr: nat, f: Flags, retries: nat)
    ensures (forall n: nat | n <= retries :: Names(addr, f, n))
            <==> if !f.ten then addr % 128 / 4 != 0x1E else f.rd ==> retries == 0
  {
    assert !Names(addr, f, retries) || Names(addr, f, 0);
  }

  // ---------------------------------------------------------------- whole transfers

  /** Data bytes do not change who is being talked to. */
  lemma {:induction false} DecodeData(d: Decoder, es: seq<Event>)
    requires d.wait == Nothing && forall e | e in es :: e.Got? || e.Sent?
    ensures DecodeAll(d, es) == d
  {
    if es != [] {
      assert es[|es| - 1] in es;
      DecodeData(d, es[..|es| - 1]);
    }
  }

  lemma DataEvents(f: Flags, data: seq<byte>)
    ensures forall e | e in DataSeen(f, data) :: e.Got? || e.Sent?
  {
    WrittenIs(data);
    ReadOutIs(data);
  }

  /** Every byte of an addressed message's data passes while the slave meant is the one addressed. */
  ghost predicate Directed(d: Decoder, addr: nat, f: Flags, data: seq<byte>, lead: bool, m: nat, n: nat) {
    var es := Delivery(addr, f, data, lead, m, n);
    var k := (if lead then 1 else 0) + |Addressing(addr, f, m, n)|;
    && k <= |es|
    && (DecodeAll(d, es[..k]).target == Some(Meant(addr, f)) <==> Names(addr, f, n))
    && (Names(addr, f, n) ==> forall i | k <= i <= |es| :: DecodeAll(d, es[..i]).target == Some(Meant(addr, f)))
  }

  lemma DeliveryDirected(d: Decoder, addr: nat, f: Flags, data: seq<byte>, lead: bool, m: nat, n: nat)
    requires !f.noStart && (lead || Open(d))
    ensures Directed(d, addr, f, data, lead, m, n)
  {
    hide Addressing, DataSeen, Names, Meant;
    var es := Delivery(addr, f, data, lead, m, n);
    var start: seq<Event> := if lead then [Started] else [];
    var head := start + Addressing(addr, f, m, n);
    var tail := DataSeen(f, data);
    DataEvents(f, data);
    var k := |head|;
    assert es == head + tail && es[..k] == head;
    var o := DecodeAll(d, start);
    if lead { DecodeNext(d, [], Started); assert [] + [Started] == start; }
    AddressingReaches(o, addr, f, m, n);
    DecodeAppend(d, start, Addressing(addr, f, m, n));
    if Names(addr, f, n) {
      forall i | k <= i <= |es|
        ensures DecodeAll(d, es[..i]).target == Some(Meant(addr, f))
      {
        assert es[..i] == head + tail[..i - k];
        DecodeAppend(d, head, tail[..i - k]);
        DecodeData(DecodeAll(d, head), tail[..i - k]);
      }
    }
  }

  lemma {:induction false} FlatSplit(items: seq<Item>, j: nat)
    requires j < |items|
    ensures Flat(items[..j]) + items[j].seen <= Flat(items)
  {
    var n := |items| - 1;
    if j < n {
      FlatSplit(items[..n], j);
      assert items[..n][..j] == items[..j];
    }
  }

  /** Everything a transfer did, its START included: a message j that went through, has an address and allows no missing
      acknowledge is delivered with every byte directed to the slave it means exactly if its addressing names that
      slave, whatever the decoder had seen before (`d`) and whatever the other messages were and did. */
  lemma TransferDirected(w: World, retries: nat, msgs: seq<I2cMsg>, lens0: seq<nat>, s0: Slave, items: seq<Item>,
                         d: Decoder, j: nat)
    returns (m: nat, n: nat)
    requires Journal(w, retries, msgs, lens0, s0, items) && j < |items| <= |msgs|
    requires items[j].res == 0 && !msgs[j].flags.noStart && Strict(msgs[j].flags, None)
    ensures m <= retries && n <= retries && Counted(w, retries, msgs[j].flags, items[j].from.acks, m, n)
    ensures items[j].seen == Delivery(msgs[j].addr, msgs[j].flags, items[j].data, j > 0, m, n)
    ensures Flat(items[..j]) + items[j].seen <= Flat(items)
    ensures Directed(DecodeAll(d, [Started] + Flat(items[..j])), msgs[j].addr, msgs[j].flags, items[j].data, j > 0,
                     m, n)
  {
    hide Delivery, Directed, Paused, Holding;
    var before := DecodeAll(d, [Started] + Flat(items[..j]));
    assert Went(w, retries, msgs[j].addr, msgs[j].flags, j > 0, items[j]);
    m, n :| m <= retries && n <= retries && Counted(w, retries, msgs[j].flags, items[j].from.acks, m, n)
            && items[j].seen == Delivery(msgs[j].addr, msgs[j].flags, items[j].data, j > 0, m, n);
    FlatSplit(items, j);
    if j == 0 {
      DecodeNext(d, [], Started);
      assert [Started] + Flat(items[..0]) == [] + [Started];
    }
    DeliveryDirected(before, msgs[j].addr, msgs[j].flags, items[j].data, j > 0, m, n);
  }

  /** A message without a START goes on with the slave addressed before it. */
  lemma ContinuedDirected(w: World, retries: nat, msgs: seq<I2cMsg>, lens0: seq<nat>, s0: Slave, items: seq<Item>,
                          d: Decoder, j: nat)
    requires Journal(w, retries, msgs, lens0, s0, items) && j < |items| <= |msgs|
    requires items[j].res == 0 && msgs[j].flags.noStart && Strict(msgs[j].flags, Held(items[j].from))
    requires DecodeAll(d, [Started] + Flat(items[..j])).wait == Nothing
    ensures items[j].seen == DataSeen(msgs[j].flags, items[j].data)
    ensures DecodeAll(d, [Started] + Flat(items[..j]) + items[j].seen) == DecodeAll(d, [Started] + Flat(items[..j]))
  {
    hide Paused, Holding, DataSeen;
    assert Went(w, retries, msgs[j].addr, msgs[j].flags, j > 0, items[j]);
    var m: nat, n: nat :| m <= retries && n <= retries
                          && items[j].seen == Delivery(msgs[j].addr, msgs[j].flags, items[j].data, j > 0, m, n);
    DataEvents(msgs[j].flags, items[j].data);
    DecodeAppend(d, [Started] + Flat(items[..j]), items[j].seen);
    DecodeData(DecodeAll(d, [Started] + Flat(items[..j])), items[j].seen);
  }

  /** A read of no bytes: the addressed slave already shows its first data bit, and the STOP that should end the
      transfer is lost exactly if that bit is 0. */
  lemma EmptyReadHoldsWire(w: World, s: Slave, c: byte)
    requires s.mode == Recv([], true) && c % 2 == 1 && w.ack(s.acks)
    ensures Pull(AfterOut(w, s, c)) <==> w.data(s.sends) < 128
  {
    FirstBit(w.data(s.sends));
  }
}
