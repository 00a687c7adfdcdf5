/** The AR934x UART's transmit side: a circular buffer filled by the serial core, drained by the interrupt
    handler, and the transmit-empty interrupt that is switched on and off in between. */
module UartTx {
  import opened Bytes

  const XMIT_SIZE := 4096
  const FIFO_SIZE := 4

  /** The interrupt enable bits this driver uses. */
  datatype Enables = Enables(rxValid: bool, txEmpty: bool)

  /** The i-th place after the tail. */
  function Place(tail: nat, i: nat): (r: nat)
    requires tail < XMIT_SIZE && i < XMIT_SIZE
    ensures r < XMIT_SIZE
  {
    (tail + i) % XMIT_SIZE
  }

  function Pending(head: nat, tail: nat): (n: nat)
    requires head < XMIT_SIZE && tail < XMIT_SIZE
    ensures n < XMIT_SIZE && Place(tail, n) == head && (n == 0 <==> head == tail)
  {
    if head >= tail then head - tail else head + XMIT_SIZE - tail
  }

  /** The characters waiting in the ring, oldest first. */
  ghost function Waiting(buf: seq<byte>, head: nat, tail: nat): (s: seq<byte>)
    requires |buf| == XMIT_SIZE && head < XMIT_SIZE && tail < XMIT_SIZE
    ensures |s| == Pending(head, tail)
  {
    seq(Pending(head, tail), i requires 0 <= i < Pending(head, tail) => buf[Place(tail, i)])
  }

  lemma PopWaiting(buf: seq<byte>, head: nat, tail: nat)
    requires |buf| == XMIT_SIZE && head < XMIT_SIZE && tail < XMIT_SIZE && head != tail
    ensures var next := (tail + 1) % XMIT_SIZE;
      Waiting(buf, head, tail) == [buf[tail]] + Waiting(buf, head, next)
  {
    var next := (tail + 1) % XMIT_SIZE;
    assert Pending(head, next) == Pending(head, tail) - 1;
    forall i | 0 <= i < Pending(head, tail)
      ensures Waiting(buf, head, tail)[i] == ([buf[tail]] + Waiting(buf, head, next))[i]
    {
      if i > 0 {
        assert Place(tail, i) == Place(next, i - 1);
      }
    }
  }

  lemma PushWaiting(buf: seq<byte>, head: nat, tail: nat, c: byte)
    requires |buf| == XMIT_SIZE && head < XMIT_SIZE && tail < XMIT_SIZE
    requires Pending(head, tail) < XMIT_SIZE - 1
    ensures Waiting(buf[head := c], (head + 1) % XMIT_SIZE, tail) == Waiting(buf, head, tail) + [c]
  {
    var n := Pending(head, tail);
    assert Pending((head + 1) % XMIT_SIZE, tail) == n + 1;
    forall i | 0 <= i < n
      ensures Place(tail, i) != head
    {
    }
  }

  class HsUart {
    const ready: nat -> bool   // does the n-th look at the data register find room in the FIFO?
    const buf: array<byte>
    var head: nat
    var tail: nat
    var xChar: nat             // a flow control character to send first, 0 for none
    var stopped: bool          // the tty is stopped
    var ier: Enables           // shadow of the enable register
    var intEn: Enables         // the enable register itself
    var data: seq<byte>        // everything written to the data register
    var looks: nat
    ghost var enqueued: seq<byte>  // everything the serial core put in the ring
    ghost var sent: seq<byte>      // everything taken out of the ring for the data register

    /** What was sent and what waits is what was enqueued, in order; the shadow is true; and as long as something
        waits and nobody stopped the transmitter, the interrupt that will send it is on. */
    ghost predicate Valid()
      reads this, buf
    {
      && buf.Length == XMIT_SIZE && head < XMIT_SIZE && tail < XMIT_SIZE
      && sent + Waiting(buf[..], head, tail) == enqueued
      && ier == intEn
      && (!stopped && head != tail ==> intEn.txEmpty)
    }

    constructor (ready: nat -> bool)
      ensures Valid() && enqueued == [] && sent == [] && !stopped && fresh(buf)
      ensures this.ready == ready && looks == 0 && data == [] && xChar == 0 && intEn == Enables(true, false)
    {
      this.ready := ready;
      buf := new byte[XMIT_SIZE];
      head, tail, xChar, stopped := 0, 0, 0, false;
      ier, intEn := Enables(true, false), Enables(true, false);
      data, looks, enqueued, sent := [], 0, [], [];
    }

    method StartTxInterrupt()
      modifies this`ier, this`intEn
      ensures ier == old(ier).(txEmpty := true) && intEn == ier
    {
      ier := ier.(txEmpty := true);
      intEn := ier;
    }

    method StopTxInterrupt()
      modifies this`ier, this`intEn
      ensures ier == old(ier).(txEmpty := false) && intEn == ier
    {
      ier := ier.(txEmpty := false);
      intEn := ier;
    }

    method Putc(ch: nat)
      modifies this`data
      ensures data == old(data) + [ch % 256]
    {
      data := data + [ch % 256];
    }

    // -------------------------------------------------------------- what the serial core does

    /** Put a character in the ring if there is room. */
    method Enqueue(c: byte) returns (taken: bool)
      requires Valid()
      modifies this`head, this`enqueued, this`ier, this`intEn, buf
      ensures Valid() && stopped == old(stopped)
      ensures enqueued == old(enqueued) + if taken then [c] else []
      ensures taken <==> old(Pending(head, tail)) < XMIT_SIZE - 1
      ensures intEn == if stopped then old(intEn) else old(intEn).(txEmpty := true)
    {
      hide Waiting;
      taken := Pending(head, tail) < XMIT_SIZE - 1;
      if taken {
        PushWaiting(buf[..], head, tail, c);
        ghost var before := buf[..];
        buf[head] := c;
        assert buf[..] == before[head := c];
        head := (head + 1) % XMIT_SIZE;
        enqueued := enqueued + [c];
      }
      if !stopped {
        StartTxInterrupt();
      }
    }

    method Stop()
      requires Valid()
      modifies this`stopped, this`ier, this`intEn
      ensures Valid() && stopped && intEn == old(intEn).(txEmpty := false)
    {
      stopped := true;
      StopTxInterrupt();
    }

    method Restart()
      requires Valid()
      modifies this`stopped, this`ier, this`intEn
      ensures Valid() && !stopped && intEn == old(intEn).(txEmpty := true)
    {
      stopped := false;
      StartTxInterrupt();
    }

    method SendXChar(c: byte)
      requires Valid()
      modifies this`xChar, this`ier, this`intEn
      ensures Valid() && xChar == c
      ensures intEn == if c == 0 then old(intEn) else old(intEn).(txEmpty := true)
    {
      xChar := c;
      if c != 0 {
        StartTxInterrupt();
      }
    }

    // -------------------------------------------------------------- what the interrupt handler does

    /** Move the oldest character of the ring to the data register. */
    method SendFromRing()
      requires buf.Length == XMIT_SIZE && head < XMIT_SIZE && tail < XMIT_SIZE && head != tail
      requires sent + Waiting(buf[..], head, tail) == enqueued
      modifies this`tail, this`data, this`sent
      ensures tail < XMIT_SIZE && sent + Waiting(buf[..], head, tail) == enqueued
      ensures sent == old(sent) + [buf[old(tail)]] && data == old(data) + [buf[old(tail)]]
      ensures Pending(head, tail) == old(Pending(head, tail)) - 1
    {
      PopWaiting(buf[..], head, tail);
      Putc(buf[tail]);
      sent := sent + [buf[tail]];
      tail := (tail + 1) % XMIT_SIZE;
    }

    /** Move characters to the FIFO while it has room, at most FIFO_SIZE of them; `more` is whether any are left. */
    method DrainRing() returns (more: bool)
      requires buf.Length == XMIT_SIZE && head < XMIT_SIZE && tail < XMIT_SIZE
      requires sent + Waiting(buf[..], head, tail) == enqueued
      modifies this`tail, this`xChar, this`data, this`looks, this`sent
      ensures tail < XMIT_SIZE && sent + Waiting(buf[..], head, tail) == enqueued
      ensures more <==> head != tail
      ensures Burst(old(data), old(sent), old(xChar), data, sent, xChar)
      ensures Moved(old(looks), old(xChar), old(Pending(head, tail)), |data| - |old(data)|)
      ensures looks == old(looks) + |data| - |old(data)| + (if |data| == |old(data)| + 4 then 0 else 1)
    {
      hide Waiting, Pending, Burst;
      ghost var sent0, data0, x0, n0 := sent, data, xChar, Pending(head, tail);
      BurstNone(data, sent, xChar);
      var count := FIFO_SIZE;
      while true
        invariant 0 < count <= FIFO_SIZE && looks == old(looks) + (FIFO_SIZE - count)
        invariant tail < XMIT_SIZE && sent + Waiting(buf[..], head, tail) == enqueued
        invariant Burst(data0, sent0, x0, data, sent, xChar)
        invariant |data| - |data0| == FIFO_SIZE - count
        invariant |data| - |data0| + Characters(xChar, Pending(head, tail)) == Characters(x0, n0)
        invariant forall j | old(looks) <= j < looks :: ready(j)
        invariant count == FIFO_SIZE ==> tail == old(tail) && xChar == x0
        decreases count
      {
        var room := ready(looks);
        looks := looks + 1;
        if !room {
          break;
        }
        if xChar != 0 {
          BurstFlow(data0, sent0, x0, data, sent, xChar);
          Putc(xChar);
          xChar := 0;
        } else {
          if head == tail {
            break;
          }
          BurstNext(data0, sent0, x0, data, sent, buf[tail]);
          SendFromRing();
        }
        count := count - 1;
        if count == 0 {
          break;
        }
      }
      more := head != tail;
    }

    /** Of `waiting` characters in the ring, and a flow control character, n were moved: each after a look of its own
        that found room, as long as there were any and up to four. */
    ghost predicate Moved(looks: nat, xChar: nat, waiting: nat, n: int)
      reads this
    {
      && 0 <= n <= 4 && n <= Characters(xChar, waiting)
      && (forall j | looks <= j < looks + n :: ready(j))
      && (n == 4 || n == Characters(xChar, waiting) || !ready(looks + n))
    }

    method TxChars()
      requires buf.Length == XMIT_SIZE && head < XMIT_SIZE && tail < XMIT_SIZE && ier == intEn
      requires sent + Waiting(buf[..], head, tail) == enqueued
      modifies this`tail, this`xChar, this`data, this`looks, this`sent, this`ier, this`intEn
      ensures Valid()
      ensures Burst(old(data), old(sent), old(xChar), data, sent, xChar)
      ensures stopped ==> sent == old(sent) && data == old(data) && xChar == old(xChar) && ier == old(ier)
      ensures !stopped ==> ier.txEmpty == (old(ier.txEmpty) || head != tail)
      ensures ier.rxValid == old(ier.rxValid)
      ensures !stopped ==> Moved(old(looks), old(xChar), old(Pending(head, tail)), |data| - |old(data)|)
    {
      if stopped {
        return;
      }
      var more := DrainRing();
      if more {
        StartTxInterrupt();
      }
    }

    /** The transmit half of the interrupt handler, the hardware showing `txEmpty` in its status register. */
    method Interrupt(txEmpty: bool)
      requires Valid()
      modifies this`tail, this`xChar, this`data, this`looks, this`sent, this`ier, this`intEn
      ensures Valid()
      ensures Burst(old(data), old(sent), old(xChar), data, sent, xChar)
      ensures intEn.rxValid == old(intEn.rxValid)
      ensures if txEmpty && old(intEn.txEmpty) && !stopped
              then Moved(old(looks), old(xChar), old(Pending(head, tail)), |data| - |old(data)|)
              else data == old(data) && sent == old(sent) && xChar == old(xChar)
      ensures !(txEmpty && old(intEn.txEmpty)) ==> intEn == old(intEn) && looks == old(looks)
      // a flow control character left over with an empty ring waits for the next start
      ensures txEmpty && old(intEn.txEmpty) ==> (intEn.txEmpty <==> !stopped && head != tail)
    {
      if txEmpty && intEn.txEmpty {
        StopTxInterrupt();
        TxChars();
      }
    }
  }

  /** How many characters there are to send. */
  function Characters(xChar: nat, waiting: nat): nat {
    waiting + if xChar != 0 then 1 else 0
  }

  /** What one call puts on the data register: the flow control character if there is one, and then ring
      characters; at most FIFO_SIZE in all. */
  ghost predicate Burst(data0: seq<byte>, sent0: seq<byte>, x0: nat, data: seq<byte>, sent: seq<byte>, x: nat) {
    && sent0 <= sent && |data| <= |data0| + FIFO_SIZE
    && (x == x0 || x == 0)
    && (x != 0 ==> data == data0 && sent == sent0)
    && (x == 0 ==> data == data0 + (if x0 == 0 then [] else [x0 % 256]) + sent[|sent0|..])
  }

  lemma BurstNone(data: seq<byte>, sent: seq<byte>, x: nat)
    ensures Burst(data, sent, x, data, sent, x)
  {
  }

  lemma BurstFlow(data0: seq<byte>, sent0: seq<byte>, x0: nat, data: seq<byte>, sent: seq<byte>, x: nat)
    requires x != 0 && Burst(data0, sent0, x0, data, sent, x)
    ensures Burst(data0, sent0, x0, data + [x % 256], sent, 0)
  {
  }

  lemma BurstNext(data0: seq<byte>, sent0: seq<byte>, x0: nat, data: seq<byte>, sent: seq<byte>, c: byte)
    requires Burst(data0, sent0, x0, data, sent, 0) && |data| < |data0| + FIFO_SIZE
    ensures Burst(data0, sent0, x0, data + [c], sent + [c], 0)
  {
    assert (sent + [c])[|sent0|..] == sent[|sent0|..] + [c];
  }
}
