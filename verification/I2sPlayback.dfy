/** The ath_i2s playback ring: a writer fills descriptors and hands them over by setting OWN, the DMA engine
    plays them and hands them back by clearing OWN, and nothing else keeps the two apart. */
module I2sPlayback {
  import opened Bytes
  import opened Errno

  const NUM_DESC := 128
  const BUFF_SIZE := 768
  const CAPACITY := 98304  // NUM_DESC * BUFF_SIZE

  /** One descriptor and the buffer it points at; only the first `length` bytes are played. */
  datatype Slot = Slot(own: bool, length: nat, data: seq<byte>)

  function Payload(s: Slot): seq<byte> {
    if s.length <= |s.data| then s.data[..s.length] else s.data
  }

  /** j places after h on the ring. */
  function At(h: nat, j: nat): (r: nat)
    requires h < NUM_DESC && j <= NUM_DESC
    ensures r < NUM_DESC
  {
    if h + j < NUM_DESC then h + j else h + j - NUM_DESC
  }

  /** The owned descriptors are the k from the hardware's position on. */
  ghost predicate Arc(slots: seq<Slot>, hw: nat, k: nat) {
    && |slots| == NUM_DESC && hw < NUM_DESC && k <= NUM_DESC
    && (forall j | 0 <= j < k :: slots[At(hw, j)].own)
    && (forall j | k <= j < NUM_DESC :: !slots[At(hw, j)].own)
  }

  /** The bytes waiting in the k descriptors from `hw` on. */
  ghost function Pending(slots: seq<Slot>, hw: nat, k: nat): seq<byte>
    requires |slots| == NUM_DESC && hw < NUM_DESC && k <= NUM_DESC
  {
    if k == 0 then [] else Pending(slots, hw, k - 1) + Payload(slots[At(hw, k - 1)])
  }

  lemma PendingBack(slots: seq<Slot>, hw: nat, k: nat)
    requires |slots| == NUM_DESC && hw < NUM_DESC && 0 < k <= NUM_DESC
    ensures Pending(slots, hw, k) == Pending(slots, hw, k - 1) + Payload(slots[At(hw, k - 1)])
  {
  }

  lemma PendingNone(slots: seq<Slot>, hw: nat)
    requires |slots| == NUM_DESC && hw < NUM_DESC
    ensures Pending(slots, hw, 0) == []
  {
  }

  lemma Associate(a: seq<byte>, b: seq<byte>, c: seq<byte>)
    ensures a + b + c == a + (b + c)
  {
  }

  lemma {:induction false} PendingFront(slots: seq<Slot>, hw: nat, k: nat)
    requires |slots| == NUM_DESC && hw < NUM_DESC && 0 < k <= NUM_DESC
    ensures Pending(slots, hw, k) == Payload(slots[hw]) + Pending(slots, At(hw, 1), k - 1)
  {
    hide Pending, Payload;
    var next := At(hw, 1);
    PendingBack(slots, hw, k);
    PendingNone(slots, hw);
    PendingNone(slots, next);
    if k > 1 {
      PendingFront(slots, hw, k - 1);
      PendingBack(slots, next, k - 1);
      assert At(hw, k - 1) == At(next, k - 2);
      Associate(Payload(slots[hw]), Pending(slots, next, k - 2), Payload(slots[At(hw, k - 1)]));
    }
  }

  /** A descriptor outside the arc does not matter. */
  lemma {:induction false} PendingFrame(slots: seq<Slot>, hw: nat, k: nat, t: nat, s: Slot)
    requires |slots| == NUM_DESC && hw < NUM_DESC && k <= NUM_DESC && t < NUM_DESC
    requires forall j | 0 <= j < k :: At(hw, j) != t || Payload(slots[t]) == Payload(s)
    ensures Pending(slots[t := s], hw, k) == Pending(slots, hw, k)
  {
    if k > 0 {
      PendingFrame(slots, hw, k - 1, t, s);
      assert At(hw, k - 1) != t || Payload(slots[t]) == Payload(s);
    }
  }

  /** How many of n bytes go into r descriptors. */
  function Taken(n: nat, r: nat): (t: nat)
    ensures t <= n
  {
    if n < BUFF_SIZE * r then n else BUFF_SIZE * r
  }

  lemma AtInjective(h: nat, i: nat, j: nat)
    requires h < NUM_DESC && i < NUM_DESC && j < NUM_DESC && i != j
    ensures At(h, i) != At(h, j)
  {
  }

  class Player {
    const sched: nat -> nat    // descriptors the DMA engine finishes at the n-th opportunity
    const beyond: nat -> byte  // what lies in memory behind the caller's buffer
    var slots: seq<Slot>
    var tail: nat
    var popened: nat           // 2 once the DMA engine has been started
    var running: bool
    var hw: nat                // the DMA engine's position
    var ticks: nat
    var played: seq<byte>      // everything the DMA engine has played
    ghost var fill: nat        // number of owned descriptors
    ghost var accepted: seq<byte>  // everything taken from callers

    /** The ring while the writer is at `t`: what was accepted has been played, in order, up to what is waiting
        in the owned descriptors. */
    ghost predicate Fifo(t: nat)
      reads this
    {
      && Arc(slots, hw, fill) && t == At(hw, fill)
      && played + Pending(slots, hw, fill) == accepted
    }

    ghost predicate Valid()
      reads this
    {
      && Fifo(tail)
      && popened <= 2 && (popened == 2 <==> running)
      && (!running ==> fill == 0)
    }

    /** The DMA engine finishes nothing while the driver is not asleep. */
    ghost predicate Slow() {
      forall n: nat :: sched(n) == 0
    }

    constructor (sched: nat -> nat, beyond: nat -> byte)
      ensures this.sched == sched && this.beyond == beyond && !running && ticks == 0
      ensures Valid() && accepted == [] && played == [] && popened == 1
    {
      this.sched, this.beyond := sched, beyond;
      slots := seq(NUM_DESC, i => Slot(false, BUFF_SIZE, seq(BUFF_SIZE, j => 0)));
      tail, popened, running, hw, ticks, played := 0, 1, false, 0, 0, [];
      fill, accepted := 0, [];
    }

    /** The DMA engine plays one descriptor, if it is running and has one. */
    method PlayOne(ghost t: nat)
      requires Fifo(t)
      modifies this`slots, this`hw, this`played, this`fill
      ensures Fifo(t)
      ensures !running || old(fill) == 0 ==>
        fill == old(fill) && slots == old(slots) && hw == old(hw) && played == old(played)
      ensures running && old(fill) > 0 ==> fill == old(fill) - 1
      ensures forall i | 0 <= i < NUM_DESC && !old(slots[i].own) :: slots[i] == old(slots[i])
    {
      hide Pending, Payload;
      assert At(hw, 0) == hw;
      if running && slots[hw].own {
        PendingPop(slots, hw, fill, played);
        ArcPop(slots, hw, fill);
        played := played + Payload(slots[hw]);
        slots := slots[hw := slots[hw].(own := false)];
        hw := At(hw, 1);
        fill := fill - 1;
      }
    }

    /** An opportunity for the DMA engine. */
    method Hardware(ghost t: nat)
      requires Fifo(t)
      modifies this`slots, this`hw, this`played, this`fill, this`ticks
      ensures Fifo(t) && ticks == old(ticks) + 1
      ensures fill == if !running then old(fill)
                      else if sched(old(ticks)) < old(fill) then old(fill) - sched(old(ticks)) else 0
      ensures !running ==> hw == old(hw)
      ensures forall i | 0 <= i < NUM_DESC && !old(slots[i].own) :: slots[i] == old(slots[i])
    {
      var n := sched(ticks);
      ticks := ticks + 1;
      for i := 0 to n
        invariant Fifo(t) && ticks == old(ticks) + 1
        invariant !running ==> hw == old(hw)
        invariant fill == if !running then old(fill) else if i < old(fill) then old(fill) - i else 0
        invariant forall i | 0 <= i < NUM_DESC && !old(slots[i].own) :: slots[i] == old(slots[i])
      {
        PlayOne(t);
      }
    }

    // -------------------------------------------------------------- the writer

    /** Sleep until the descriptor at the tail is free. */
    method WaitForTail(t: nat)
      requires Fifo(t) && running
      modifies this`slots, this`hw, this`played, this`fill, this`ticks
      ensures Fifo(t) && !slots[t].own
      ensures fill == if old(fill) == NUM_DESC then NUM_DESC - 1 else old(fill)
    {
      if !slots[t].own {
        TailFreeMeans(slots, hw, fill, t);
      }
      while slots[t].own
        invariant Fifo(t)
        invariant old(fill) < NUM_DESC ==> fill == old(fill)
        invariant old(fill) == NUM_DESC ==> fill == if slots[t].own then NUM_DESC else NUM_DESC - 1
        decreases fill
      {
        TailOwned(slots, hw, fill, t);
        PlayOne(t);
      }
    }

    /** Put n bytes into one free descriptor; the DMA engine may move on between any two of the writes. */
    method LoadSlot(t: nat, buf: seq<byte>, offset: nat, n: nat)
      requires Fifo(t) && !slots[t].own
      requires n <= BUFF_SIZE && offset + n <= |buf|
      modifies this`slots, this`hw, this`played, this`fill, this`ticks
      ensures Fifo(t) && !slots[t].own && Payload(slots[t]) == buf[offset..offset + n]
      ensures |slots[t].data| == BUFF_SIZE
      ensures !running ==> hw == old(hw)
      ensures !running || Slow() ==> fill == old(fill)
    {
      SetSlot(t, slots[t].(length := n));
      Hardware(t);
      // the driver always copies a whole buffer, whatever lies behind the caller's data
      var data := buf[offset..offset + n] + seq(BUFF_SIZE - n, i requires i >= 0 => beyond(i));
      SetSlot(t, slots[t].(data := data));
      Hardware(t);
    }

    /** Hand the descriptor at the tail over to the DMA engine. */
    method GiveSlot(t: nat)
      requires Fifo(t) && !slots[t].own
      modifies this`slots, this`hw, this`played, this`fill, this`ticks, this`accepted
      ensures Fifo(At(t, 1)) && accepted == old(accepted) + old(Payload(slots[t]))
      ensures !running ==> hw == old(hw)
      ensures !running || Slow() ==> fill == old(fill) + 1
    {
      HandOver(slots, hw, fill, t, played);
      accepted := accepted + Payload(slots[t]);
      slots := slots[t := slots[t].(own := true)];
      fill := fill + 1;
      Hardware(At(t, 1));
    }

    /** Fill one free descriptor and hand it over. */
    method FillSlot(t: nat, buf: seq<byte>, offset: nat, n: nat)
      requires Fifo(t) && !slots[t].own
      requires n <= BUFF_SIZE && offset + n <= |buf|
      modifies this`slots, this`hw, this`played, this`fill, this`ticks, this`accepted
      ensures Fifo(At(t, 1)) && accepted == old(accepted) + buf[offset..offset + n]
      ensures !running ==> hw == old(hw)
      ensures !running || Slow() ==> fill == old(fill) + 1
    {
      LoadSlot(t, buf, offset, n);
      GiveSlot(t);
    }

    /** Write a field of a descriptor the DMA engine does not own. */
    method SetSlot(t: nat, s: Slot)
      requires Fifo(t) && !slots[t].own && !s.own
      modifies this`slots
      ensures Fifo(t) && slots == old(slots)[t := s]
    {
      FreeSlot(slots, hw, fill, t, s);
      slots := slots[t := s];
    }

    /** Fill free descriptors until the buffer or the ring is used up. */
    method FillRing(buf: seq<byte>, from: nat) returns (t: nat, byteCnt: nat)
      requires Fifo(from) && !slots[from].own
      modifies this`slots, this`hw, this`played, this`fill, this`ticks, this`accepted
      ensures Fifo(t) && byteCnt <= |buf|
      ensures accepted == old(accepted) + buf[..|buf| - byteCnt]
      ensures byteCnt == 0 || (|buf| - byteCnt) % BUFF_SIZE == 0
      ensures buf != [] ==> byteCnt < |buf|
      ensures byteCnt > 0 ==> fill == NUM_DESC
      ensures !running ==> hw == old(hw)
      ensures !running || Slow() ==> |buf| - byteCnt == Taken(|buf|, NUM_DESC - old(fill))
      ensures !running || Slow() ==> |buf| - byteCnt <= BUFF_SIZE * (fill - old(fill))
    {
      hide Pending, Payload;
      t, byteCnt := from, |buf|;
      var offset: nat := 0;
      ghost var sent: nat, before := 0, accepted;
      while byteCnt != 0 && !slots[t].own
        invariant Fifo(t)
        invariant sent == 0 ==> !slots[t].own
        invariant byteCnt + sent == |buf| && accepted == before + buf[..sent]
        invariant byteCnt > 0 ==> offset == sent && sent % BUFF_SIZE == 0
        invariant !running ==> hw == old(hw)
        invariant !running || Slow() ==>
          old(fill) <= fill && sent <= BUFF_SIZE * (fill - old(fill))
          && (byteCnt > 0 ==> sent == BUFF_SIZE * (fill - old(fill)))
        decreases byteCnt
      {
        var n := if byteCnt >= BUFF_SIZE then BUFF_SIZE else byteCnt;
        FillSlot(t, buf, offset, n);
        Extend(before, buf, sent, n);
        byteCnt, sent := byteCnt - n, sent + n;
        t := At(t, 1);
        offset := offset + BUFF_SIZE;
      }
      if byteCnt != 0 {
        TailOwned(slots, hw, fill, t);
      }
    }

    /** Hand over as much of the buffer as there are free descriptors; the result is the number of bytes taken. */
    method Wr(buf: seq<byte>) returns (ret: nat)
      requires Valid()
      modifies this
      ensures Valid() && ret <= |buf|
      ensures accepted == old(accepted) + buf[..ret]
      ensures ret == |buf| || ret % BUFF_SIZE == 0
      ensures buf != [] ==> ret > 0
      ensures ret < |buf| ==> fill == NUM_DESC  // it stops short only for a full ring
      ensures running
      ensures !old(running) ==> ret == Taken(|buf|, NUM_DESC)
      // a full ring nobody plays from but while the driver sleeps has room for one descriptor at a time
      ensures old(running) && Slow() && old(fill) == NUM_DESC ==> ret == Taken(|buf|, 1)
      ensures old(running) && Slow() && old(fill) == NUM_DESC && buf != [] ==> fill == NUM_DESC
      ensures !old(running) && |buf| >= CAPACITY ==> fill == NUM_DESC
    {
      hide Pending;
      var needStart := popened < 2;
      popened := 2;
      var start := tail;
      if !needStart {
        WaitForTail(start);
      } else {
        TailFree(slots, hw, fill, start);
      }
      var t, byteCnt := FillRing(buf, start);
      tail := t;
      if needStart {
        hw := start;
        running := true;
      }
      ret := |buf| - byteCnt;
    }

    /** One pass over the caller's buffer.  A hand-over of exactly EAGAIN bytes is mistaken for a request to
        start over, and ends the pass with `again`. */
    method Pass(buf: seq<byte>) returns (again: bool)
      requires Valid()
      modifies this
      ensures Valid() && accepted == old(accepted) + buf && running
      ensures again ==> |buf| % BUFF_SIZE == EAGAIN
      ensures |buf| == EAGAIN ==> again
      ensures !old(running) && |buf| <= CAPACITY + EAGAIN ==>
        (again <==> |buf| == EAGAIN || |buf| == CAPACITY + EAGAIN)
      ensures old(running) && Slow() && old(fill) == NUM_DESC ==> (again <==> |buf| % BUFF_SIZE == EAGAIN)
      ensures old(running) && Slow() && old(fill) == NUM_DESC && buf != [] ==> fill == NUM_DESC
      ensures !old(running) && |buf| == CAPACITY ==> fill == NUM_DESC
    {
      hide Arc, Pending;
      var rest := buf;
      ghost var sent: nat := 0;
      while true
        invariant Valid() && sent <= |buf| && rest == buf[sent..] && sent % BUFF_SIZE == 0
        invariant buf != [] ==> rest != []
        invariant accepted == old(accepted) + buf[..sent]
        invariant sent == 0 ==> running == old(running)
        invariant old(running) && Slow() && old(fill) == NUM_DESC ==> running && (buf != [] ==> fill == NUM_DESC)
        invariant !old(running) && sent > 0 && |buf| <= CAPACITY + EAGAIN ==> sent == CAPACITY < |buf|
        decreases |rest|
      {
        var ret := Wr(rest);
        Extend(old(accepted), buf, sent, ret);
        assert rest[..ret] == buf[sent..sent + ret];
        PassArithmetic(|buf|, sent, ret);
        assert |buf| == EAGAIN ==> sent == 0 && ret == EAGAIN;
        if ret == EAGAIN {
          assert buf[..sent + ret] == buf;
          return true;
        }
        sent := sent + ret;
        rest := rest[ret..];
        if rest == [] {
          assert buf[..sent] == buf;
          return false;
        }
      }
    }

    /** Write the whole buffer.  The driver would go on for as long as passes ask to be repeated; `passes` is where
        this model stops watching, and `ended` is whether the write was over by then. */
    method Write(buf: seq<byte>, passes: nat) returns (ended: bool, count: nat, ghost rounds: nat)
      requires Valid()
      modifies this
      ensures Valid() && rounds <= passes && accepted == old(accepted) + Repeated(buf, rounds)
      ensures ended ==> count == |buf| && rounds > 0
      ensures !ended ==> rounds == passes
      // accepted once, whatever the ring and the DMA engine are at
      ensures |buf| % BUFF_SIZE != EAGAIN && passes > 0 ==> ended && rounds == 1
      // queued over and over
      ensures |buf| == EAGAIN ==> !ended
      ensures old(running) && Slow() && old(fill) == NUM_DESC && |buf| % BUFF_SIZE == EAGAIN ==> !ended
      ensures !old(running) && |buf| == CAPACITY && passes > 0 ==> running && fill == NUM_DESC
    {
      count, rounds := 0, 0;
      for i := 0 to passes
        invariant Valid() && rounds == i && accepted == old(accepted) + Repeated(buf, i)
        invariant i > 0 ==> |buf| % BUFF_SIZE == EAGAIN
        invariant old(running) && Slow() && old(fill) == NUM_DESC ==> running && fill == NUM_DESC
        invariant i == 0 ==> running == old(running)
      {
        var again := Pass(buf);
        rounds := rounds + 1;
        Again(old(accepted), buf, i);
        if !again {
          return true, |buf|, rounds;
        }
      }
      ended := false;
    }
  }

  function Repeated(buf: seq<byte>, k: nat): seq<byte> {
    if k == 0 then [] else Repeated(buf, k - 1) + buf
  }

  lemma Again(before: seq<byte>, buf: seq<byte>, k: nat)
    ensures before + Repeated(buf, k) + buf == before + Repeated(buf, k + 1)
  {
    Associate(before, Repeated(buf, k), buf);
  }

  /** Every length that leaves eleven has a ring and a DMA engine that make the write go on without end: a ring filled
      to the last byte, played from only while the driver sleeps. */
  method BadLengthNeverEnds(buf: seq<byte>, passes: nat) returns (p: Player, ended: bool)
    requires |buf| % BUFF_SIZE == EAGAIN
    ensures fresh(p) && p.Valid() && !ended
    ensures p.accepted == Silence() + Repeated(buf, passes)
  {
    p := new Player(n => 0, n => 0);
    var full, n, once := p.Write(Silence(), 1);
    assert Repeated(Silence(), 1) == [] + Silence() == Silence() && p.accepted == [] + Silence();
    var e, m, rounds := p.Write(buf, passes);
    ended := e;
  }

  /** As much as the ring holds. */
  function Silence(): (s: seq<byte>)
    ensures |s| == CAPACITY
  {
    seq(CAPACITY, i => 0)
  }

  lemma Extend(before: seq<byte>, buf: seq<byte>, sent: nat, n: nat)
    requires sent + n <= |buf|
    ensures before + buf[..sent] + buf[sent..sent + n] == before + buf[..sent + n]
  {
    assert buf[..sent] + buf[sent..sent + n] == buf[..sent + n];
    Associate(before, buf[..sent], buf[sent..sent + n]);
  }

  /** A hand-over of exactly eleven bytes can only be the last one, of a buffer of the wrong length. */
  lemma PassArithmetic(total: nat, sent: nat, ret: nat)
    requires sent + ret <= total && sent % BUFF_SIZE == 0
    requires sent + ret == total || ret % BUFF_SIZE == 0
    ensures (sent + ret) % BUFF_SIZE == ret % BUFF_SIZE
    ensures ret == EAGAIN ==> sent + ret == total && total % BUFF_SIZE == EAGAIN
  {
  }

  /** Moving the first waiting payload to the end of what has been played. */
  lemma PendingPop(slots: seq<Slot>, hw: nat, k: nat, played: seq<byte>)
    requires Arc(slots, hw, k) && k > 0
    ensures played + Pending(slots, hw, k) ==
            played + Payload(slots[hw]) + Pending(slots[hw := slots[hw].(own := false)], At(hw, 1), k - 1)
  {
    PendingFront(slots, hw, k);
    var s := slots[hw].(own := false);
    assert Payload(slots[hw]) == Payload(s);
    PendingFrame(slots, At(hw, 1), k - 1, hw, s);
    Associate(played, Payload(slots[hw]), Pending(slots, At(hw, 1), k - 1));
  }

  lemma TailOwned(slots: seq<Slot>, hw: nat, k: nat, t: nat)
    requires Arc(slots, hw, k) && t == At(hw, k) && slots[t].own
    ensures k == NUM_DESC
  {
  }

  lemma TailFreeMeans(slots: seq<Slot>, hw: nat, k: nat, t: nat)
    requires Arc(slots, hw, k) && t == At(hw, k) && !slots[t].own
    ensures k < NUM_DESC
  {
    assert k == NUM_DESC ==> t == At(hw, 0);
  }

  lemma TailFree(slots: seq<Slot>, hw: nat, k: nat, t: nat)
    requires Arc(slots, hw, k) && t == At(hw, k) && k < NUM_DESC
    ensures !slots[t].own
  {
  }

  /** Changing a free descriptor disturbs nothing. */
  lemma FreeSlot(slots: seq<Slot>, hw: nat, k: nat, t: nat, s: Slot)
    requires Arc(slots, hw, k) && t == At(hw, k) && !slots[t].own && !s.own
    ensures Arc(slots[t := s], hw, k)
    ensures Pending(slots[t := s], hw, k) == Pending(slots, hw, k)
  {
    forall j | 0 <= j < k
      ensures At(hw, j) != t
    {
      assert slots[At(hw, j)].own;
    }
    PendingFrame(slots, hw, k, t, s);
  }

  /** Setting OWN on the tail appends its payload to what is waiting. */
  lemma HandOver(slots: seq<Slot>, hw: nat, k: nat, t: nat, played: seq<byte>)
    requires Arc(slots, hw, k) && t == At(hw, k) && !slots[t].own
    ensures k < NUM_DESC
    ensures var es := slots[t := slots[t].(own := true)];
      && Arc(es, hw, k + 1) && At(t, 1) == At(hw, k + 1)
      && played + Pending(es, hw, k + 1) == played + Pending(slots, hw, k) + Payload(slots[t])
  {
    var s := slots[t].(own := true);
    var es := slots[t := s];
    var first := At(hw, 0);
    assert Payload(slots[t]) == Payload(s);
    PendingFrame(slots, hw, k, t, s);
    Associate(played, Pending(slots, hw, k), Payload(s));
    forall j | 0 <= j < NUM_DESC
      ensures es[At(hw, j)].own <==> j < k + 1
    {
      if j != k {
        AtInjective(hw, j, k);
      }
    }
  }

  lemma ArcPop(slots: seq<Slot>, hw: nat, k: nat)
    requires Arc(slots, hw, k) && k > 0
    ensures Arc(slots[hw := slots[hw].(own := false)], At(hw, 1), k - 1)
    ensures At(At(hw, 1), k - 1) == At(hw, k)
  {
    var h := At(hw, 1);
    var es := slots[hw := slots[hw].(own := false)];
    forall j | 0 <= j < NUM_DESC
      ensures es[At(h, j)].own <==> j < k - 1
    {
      if j < NUM_DESC - 1 {
        assert At(h, j) == At(hw, j + 1);
        assert At(h, j) != hw;
        assert slots[At(hw, j + 1)].own <==> j + 1 < k;
      } else {
        assert At(h, j) == hw;
      }
    }
  }
}
