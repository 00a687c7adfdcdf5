/** A running ath79 playback stream: the DMA engine clears ownership bits as it goes round the ring, while the
    interrupt handler scans the ring, gives descriptors back and keeps account of the bytes played. */
module PcmStream {
  import opened Bytes
  import opened Division
  import opened PcmRing

  // ---------------------------------------------------------------- the ring at one moment

  /** Bytes in the first i descriptors that the hardware has finished and the driver has not yet taken back. */
  function ClearBefore(ds: seq<Desc>, i: nat): nat
    requires i <= |ds|
  {
    if i == 0 then 0 else ClearBefore(ds, i - 1) + if ds[i - 1].own then 0 else ds[i - 1].size
  }

  function ClearBytes(ds: seq<Desc>): nat {
    ClearBefore(ds, |ds|)
  }

  /** Flipping one ownership bit moves that descriptor's bytes. */
  lemma {:induction false} FlipAt(ds: seq<Desc>, j: nat, own: bool, i: nat)
    requires j < |ds| && i <= |ds|
    ensures var es := ds[j := ds[j].(own := own)];
      ClearBefore(es, i) + (if j < i && !ds[j].own then ds[j].size else 0)
      == ClearBefore(ds, i) + (if j < i && !own then ds[j].size else 0)
  {
    if i > 0 {
      FlipAt(ds, j, own, i - 1);
    }
  }

  /** The same descriptors, ownership aside. */
  ghost predicate SameRing(xs: seq<Desc>, ys: seq<Desc>) {
    |xs| == |ys| &&
    forall i {:trigger xs[i]} {:trigger ys[i]} | 0 <= i < |xs| :: xs[i].(own := true) == ys[i].(own := true)
  }

  function Prev(i: nat, n: nat): (r: nat)
    requires i < n
    ensures r < n
  {
    if i == 0 then n - 1 else i - 1
  }

  // ---------------------------------------------------------------- atomic scans: the arc

  /** How many steps the hardware, now at `hw`, made since it was past descriptor i. */
  function Behind(hw: nat, i: nat, n: nat): (r: nat)
    requires hw < n && i < n
    ensures r < n
  {
    if i < hw then hw - 1 - i else hw - 1 - i + n
  }

  /** The finished descriptors are the last k the hardware went through. */
  ghost predicate IsArc(ds: seq<Desc>, hw: nat, k: nat) {
    && hw < |ds| && k <= |ds|
    && forall i | 0 <= i < |ds| :: !ds[i].own <==> Behind(hw, i, |ds|) < k
  }

  /** The DMA engine finishes the descriptor it is at, unless it has run into one that is not its own. */
  function HwStep(ds: seq<Desc>, hw: nat): (r: (seq<Desc>, nat))
    requires hw < |ds|
    ensures |r.0| == |ds| && r.1 < |ds|
  {
    if ds[hw].own then (ds[hw := ds[hw].(own := false)], Next(hw, |ds|)) else (ds, hw)
  }

  lemma ArcStep(ds: seq<Desc>, hw: nat, k: nat)
    requires IsArc(ds, hw, k)
    ensures var (es, hw') := HwStep(ds, hw); IsArc(es, hw', if k < |ds| then k + 1 else k)
  {
    assert Behind(hw, hw, |ds|) == |ds| - 1;
    var (es, hw') := HwStep(ds, hw);
    forall i | 0 <= i < |ds|
      ensures k < |ds| ==> (!es[i].own <==> Behind(hw', i, |ds|) < k + 1)
    {
    }
  }

  /** Taking everything back leaves an empty arc. */
  function Reclaimed(ds: seq<Desc>): (r: seq<Desc>)
    ensures |r| == |ds|
  {
    seq(|ds|, i requires 0 <= i < |ds| => ds[i].(own := true))
  }

  /** The first descriptor the hardware owns whose predecessor it does not. */
  function LastPlayedFrom(ds: seq<Desc>, i: nat): (r: Option<nat>)
    requires i <= |ds|
    decreases |ds| - i
  {
    if i == |ds| then None
    else if ds[i].own && !ds[Prev(i, |ds|)].own then Some(i)
    else LastPlayedFrom(ds, i + 1)
  }

  lemma {:induction false} OnlyBoundary(ds: seq<Desc>, hw: nat, k: nat, i: nat)
    requires IsArc(ds, hw, k) && i <= |ds|
    ensures LastPlayedFrom(ds, i) == if 0 < k < |ds| && i <= hw then Some(hw) else None
    decreases |ds| - i
  {
    if i < |ds| {
      OnlyBoundary(ds, hw, k, i + 1);
      var p := Prev(i, |ds|);
      assert Behind(hw, i, |ds|) == |ds| - 1 <==> i == hw;
      assert i != hw ==> Behind(hw, p, |ds|) == Behind(hw, i, |ds|) + 1;
      assert i == hw ==> Behind(hw, p, |ds|) == 0;
    }
  }

  /** The last-played scan finds exactly the descriptor the hardware is at, if anything at all and not everything
      has been played; otherwise it finds nothing. */
  lemma LastPlayedIsPosition(ds: seq<Desc>, hw: nat, k: nat)
    requires IsArc(ds, hw, k)
    ensures LastPlayedFrom(ds, 0) == if 0 < k < |ds| then Some(hw) else None
  {
    OnlyBoundary(ds, hw, k, 0);
  }

  /** The stream position reported to ALSA, in bytes. */
  function Pointer(ds: seq<Desc>, base: nat, lastPlayed: Option<nat>): int
    requires lastPlayed.Some? ==> lastPlayed.value < |ds|
  {
    if lastPlayed.None? then 0 else ds[lastPlayed.value].bufPtr - base
  }

  /** Over a ring that tiles the buffer, a scan that finds the boundary reports as many bytes as lie before the
      descriptor the hardware is at. */
  lemma PointerIsPosition(ds: seq<Desc>, base: nat, end: nat, period: nat, hw: nat, k: nat)
    requires IsArc(ds, hw, k) && Tiles(ds, base, end, period)
    ensures LastPlayedFrom(ds, 0).Some? ==> LastPlayedFrom(ds, 0).value < |ds|
    ensures Pointer(ds, base, LastPlayedFrom(ds, 0)) == if 0 < k < |ds| then Before(ds, hw) else 0
  {
    LastPlayedIsPosition(ds, hw, k);
    TilesOffsets(ds, base, end, period, hw);
  }

  lemma ReclaimedIsEmptyArc(ds: seq<Desc>, hw: nat)
    requires hw < |ds|
    ensures IsArc(Reclaimed(ds), hw, 0)
  {
  }

  // ---------------------------------------------------------------- runs with atomic scans

  datatype Step = Play | Interrupt

  /** The ring, the hardware's position and what the last scan found, after a run of steps. */
  datatype Moment = Moment(ds: seq<Desc>, hw: nat, found: Option<nat>)

  function Take(m: Moment, s: Step): (r: Moment)
    requires m.hw < |m.ds|
    ensures |r.ds| == |m.ds| && r.hw < |r.ds|
  {
    match s
    case Play => var (ds, hw) := HwStep(m.ds, m.hw); m.(ds := ds, hw := hw)
    case Interrupt => m.(ds := Reclaimed(m.ds), found := LastPlayedFrom(m.ds, 0))
  }

  function Run(m: Moment, steps: seq<Step>): (r: Moment)
    requires m.hw < |m.ds|
    ensures |r.ds| == |m.ds| && r.hw < |r.ds|
  {
    if steps == [] then m else Take(Run(m, steps[..|steps| - 1]), steps[|steps| - 1])
  }

  /** Descriptors played since the last interrupt, capped by the ring going full. */
  function Played(n: nat, steps: seq<Step>): (k: nat)
    ensures k <= n
  {
    if steps == [] || steps[|steps| - 1].Interrupt? then 0
    else
      var k := Played(n, steps[..|steps| - 1]);
      if k < n then k + 1 else k
  }

  /** From a freshly prepared ring, over any run of hardware steps and interrupts, the finished descriptors form
      one arc ending just before the hardware, as long as what was played since the last interrupt. */
  lemma {:induction false} AlwaysAnArc(m: Moment, steps: seq<Step>)
    requires m.hw < |m.ds| && forall i | 0 <= i < |m.ds| :: m.ds[i].own
    ensures IsArc(Run(m, steps).ds, Run(m, steps).hw, Played(|m.ds|, steps))
  {
    if steps != [] {
      var before := steps[..|steps| - 1];
      AlwaysAnArc(m, before);
      var r := Run(m, before);
      match steps[|steps| - 1] {
        case Play => ArcStep(r.ds, r.hw, Played(|m.ds|, before));
        case Interrupt => ReclaimedIsEmptyArc(r.ds, r.hw);
      }
    }
  }

  /** Every interrupt reports the hardware's descriptor exactly, or nothing if nothing or everything was played. */
  lemma InterruptReports(m: Moment, steps: seq<Step>)
    requires m.hw < |m.ds| && forall i | 0 <= i < |m.ds| :: m.ds[i].own
    ensures var r := Run(m, steps + [Interrupt]);
      r.found == (if 0 < Played(|m.ds|, steps) < |m.ds| then Some(r.hw) else None)
  {
    AlwaysAnArc(m, steps);
    assert (steps + [Interrupt])[..|steps|] == steps;
    LastPlayedIsPosition(Run(m, steps).ds, Run(m, steps).hw, Played(|m.ds|, steps));
  }

  // ---------------------------------------------------------------- scans the hardware runs through

  datatype Move = Advance | Visit

  /** A scan that gives descriptors back, in progress: the next descriptor to visit, how many descriptors the hardware
      has finished that were visited already, and whether it has since finished one that was not. */
  datatype Scan = Scan(ds: seq<Desc>, hw: nat, i: nat, behind: nat, crossed: bool)

  function ScanStep(s: Scan, m: Move): (r: Scan)
    requires s.hw < |s.ds| && s.i <= |s.ds|
    ensures |r.ds| == |s.ds| && r.hw < |r.ds| && s.i <= r.i <= |r.ds|
  {
    match m
    case Visit => if s.i == |s.ds| then s else s.(ds := s.ds[s.i := s.ds[s.i].(own := true)], i := s.i + 1)
    case Advance =>
      if !s.ds[s.hw].own then s
      else
        var (ds, hw) := HwStep(s.ds, s.hw);
        if s.hw < s.i then s.(ds := ds, hw := hw, behind := s.behind + 1)
        else s.(ds := ds, hw := hw, crossed := s.crossed || s.behind > 0)
  }

  function ScanRun(ds: seq<Desc>, hw: nat, moves: seq<Move>): (r: Scan)
    requires hw < |ds|
    ensures |r.ds| == |ds| && r.hw < |ds| && r.i <= |ds|
  {
    if moves == [] then Scan(ds, hw, 0, 0, false)
    else ScanStep(ScanRun(ds, hw, moves[..|moves| - 1]), moves[|moves| - 1])
  }

  /** The hardware left to itself for n steps. */
  function HwRun(ds: seq<Desc>, hw: nat, n: nat): (r: (seq<Desc>, nat))
    requires hw < |ds|
    ensures |r.0| == |ds| && r.1 < |ds|
  {
    if n == 0 then (ds, hw) else var (es, h) := HwRun(ds, hw, n - 1); HwStep(es, h)
  }

  function Advances(n: nat): seq<Move> {
    if n == 0 then [] else Advances(n - 1) + [Advance]
  }

  lemma AdvanceIs(s: Scan)
    requires s.hw < |s.ds| && s.i <= |s.ds|
    ensures var r := ScanStep(s, Advance); (r.ds, r.hw) == HwStep(s.ds, s.hw) && r.i == s.i
  {
  }

  /** In the course of a scan, too. */
  lemma {:induction false} ScanAdvances(ds: seq<Desc>, hw: nat, moves: seq<Move>, n: nat)
    requires hw < |ds|
    ensures var s := ScanRun(ds, hw, moves);
      var r := ScanRun(ds, hw, moves + Advances(n));
      (r.ds, r.hw) == HwRun(s.ds, s.hw, n) && r.i == s.i
  {
    hide ScanRun, ScanStep, HwStep;
    if n == 0 {
      assert moves + Advances(0) == moves;
    } else {
      AdvanceIs(ScanRun(ds, hw, moves + Advances(n - 1)));
      ScanAdvances(ds, hw, moves, n - 1);
      assert moves + Advances(n) == (moves + Advances(n - 1)) + [Advance];
      ScanNext(ds, hw, moves + Advances(n - 1), Advance);
    }
  }

  /** The scan `moves` of (ds0, hw0) has led to the ring and position at hand, i descriptors having been visited. */
  ghost predicate Led(ds0: seq<Desc>, hw0: nat, moves: seq<Move>, ds: seq<Desc>, hw: nat, i: nat) {
    hw0 < |ds0| && var s := ScanRun(ds0, hw0, moves); s.ds == ds && s.hw == hw && s.i == i
  }

  lemma ScanNext(ds: seq<Desc>, hw: nat, moves: seq<Move>, m: Move)
    requires hw < |ds|
    ensures ScanRun(ds, hw, moves + [m]) == ScanStep(ScanRun(ds, hw, moves), m)
  {
    assert (moves + [m])[..|moves|] == moves;
  }

  /** As long as nothing was crossed: of the descriptors still to be visited the last `arc` are finished, of the visited
      ones the last `behind`. */
  ghost predicate InOrder(s: Scan, arc: nat) {
    && s.hw < |s.ds| && s.i <= |s.ds| && s.behind <= |s.ds|
    && (s.behind > 0 && s.i < |s.ds| ==> s.behind <= s.hw <= s.i)
    && forall j | 0 <= j < |s.ds| :: !s.ds[j].own <==> Behind(s.hw, j, |s.ds|) < if j < s.i then s.behind else arc
  }

  /** Once descriptor c was crossed: the one before it stays finished, and c itself, once visited, stays given back. */
  ghost predicate Torn(s: Scan, c: nat) {
    && s.hw < |s.ds| && 0 < c < |s.ds| && c <= s.i <= |s.ds|
    && !s.ds[c - 1].own && s.hw != c && (c < s.i ==> s.ds[c].own)
  }

  lemma InOrderStep(s: Scan, m: Move, arc: nat) returns (arc': nat)
    requires InOrder(s, arc) && !s.crossed
    ensures var r := ScanStep(s, m);
      if r.crossed then Torn(r, s.hw) else InOrder(r, arc')
  {
    arc' := arc;
    assert Behind(s.hw, s.hw, |s.ds|) == |s.ds| - 1;
    if m.Advance? && s.ds[s.hw].own {
      arc' := arc + 1;
      var hw' := Next(s.hw, |s.ds|);
      forall j | 0 <= j < |s.ds|
        ensures Behind(hw', j, |s.ds|) == if j == s.hw then 0 else Behind(s.hw, j, |s.ds|) + 1
      {
      }
    }
  }

  lemma TornStep(s: Scan, m: Move, c: nat)
    requires Torn(s, c)
    ensures Torn(ScanStep(s, m), c)
  {
  }

  lemma {:induction false} ScanInvariant(ds: seq<Desc>, hw: nat, k: nat, moves: seq<Move>) returns (x: nat)
    requires IsArc(ds, hw, k)
    ensures var s := ScanRun(ds, hw, moves);
      if s.crossed then Torn(s, x) else InOrder(s, x)
  {
    if moves == [] {
      x := k;
    } else {
      var n := |moves| - 1;
      var y := ScanInvariant(ds, hw, k, moves[..n]);
      var s := ScanRun(ds, hw, moves[..n]);
      if s.crossed {
        TornStep(s, moves[n], y);
        x := y;
      } else {
        x := InOrderStep(s, moves[n], y);
        if ScanStep(s, moves[n]).crossed { x := s.hw; }
      }
    }
  }

  /** A scan with the hardware moving through it, begun on an arc, leaves an arc exactly if the hardware did not, after
      finishing a descriptor the scan had passed, finish one it had not; the arc is then what it finished behind
      the scan. */
  lemma DisturbedScanIff(ds: seq<Desc>, hw: nat, k: nat, moves: seq<Move>)
    requires IsArc(ds, hw, k) && ScanRun(ds, hw, moves).i == |ds|
    ensures var s := ScanRun(ds, hw, moves);
      && (!s.crossed ==> IsArc(s.ds, s.hw, s.behind))
      && ((exists a: nat :: IsArc(s.ds, s.hw, a)) <==> !s.crossed)
  {
    var s := ScanRun(ds, hw, moves);
    var c := ScanInvariant(ds, hw, k, moves);
    if s.crossed {
      assert Behind(s.hw, c, |ds|) + 1 == Behind(s.hw, c - 1, |ds|);
    }
  }

  /** If the hardware moves on between two visits of one scan, the finished descriptors need not be an arc. */
  lemma InterleavedScanBreaksArc(d: Desc)
    requires d.own
    ensures var start := [d, d, d];          // the scan has visited descriptor 0
      var (one, hw1) := HwStep(start, 0);
      var (two, hw2) := HwStep(one, hw1);    // the hardware finishes 0 and 1
      var end := two[1 := two[1].(own := true)];  // the scan takes back 1 and leaves 2
      hw2 == 2 && forall k: nat | k <= 3 :: !IsArc(end, hw2, k)
  {
    var d0 := d.(own := false);
    var end := [d0, d, d];
    forall k: nat | k <= 3
      ensures !IsArc(end, 2, k)
    {
      assert Behind(2, 0, 3) == 1 && Behind(2, 1, 3) == 0;
      assert !end[0].own && end[1].own;
    }
    var (one, hw1) := HwStep([d, d, d], 0);
    var (two, hw2) := HwStep(one, hw1);
    assert two[1 := two[1].(own := true)] == end;
  }

  class PcmRuntime {
    const period: nat          // period_bytes of the substream
    const sched: nat -> nat    // how many descriptors the hardware finishes at the n-th opportunity
    var descs: seq<Desc>
    var lastPlayed: Option<nat>
    var elapsed: nat
    var signals: nat           // calls of snd_pcm_period_elapsed
    var hw: nat                // where the hardware is
    var ticks: nat             // opportunities so far
    ghost var completed: nat   // bytes the hardware has finished
    ghost var counted: nat     // bytes the interrupt handler has counted
    ghost var dropped: nat     // bytes taken back by prepare, which nobody counts

    /** Every byte the hardware finished is counted, dropped by prepare, or still waiting in the ring; and the
        elapsed size is what has been counted, modulo the period. */
    ghost predicate Valid()
      reads this
    {
      && descs != [] && hw < |descs| && period > 0
      && elapsed < period && elapsed == counted % period
      && counted + dropped + ClearBytes(descs) == completed
    }

    /** The hardware did nothing from opportunity t on. */
    ghost predicate Calm(t: nat)
      reads this
    {
      forall u: nat | t <= u < ticks :: sched(u) == 0
    }

    constructor (period: nat, sched: nat -> nat, descs: seq<Desc>)
      requires period > 0 && descs != [] && forall i | 0 <= i < |descs| :: descs[i].own
      ensures Valid() && this.period == period && this.sched == sched && this.descs == descs && hw == 0
      ensures elapsed == 0 && counted == 0 && completed == 0 && signals == 0 && ticks == 0 && lastPlayed == None
    {
      this.period, this.sched, this.descs := period, sched, descs;
      lastPlayed, elapsed, signals, hw, ticks := None, 0, 0, 0, 0;
      completed, counted, dropped := 0, 0, 0;
      NothingClear(descs, |descs|);
    }

    /** An opportunity for the hardware to move on. */
    method Hardware()
      requires hw < |descs|
      modifies this`descs, this`hw, this`ticks, this`completed
      ensures hw < |descs| && SameRing(descs, old(descs)) && ticks == old(ticks) + 1
      ensures forall i | 0 <= i < |descs| :: !old(descs)[i].own ==> !descs[i].own
      ensures completed + old(ClearBytes(descs)) == old(completed) + ClearBytes(descs) && completed >= old(completed)
      ensures (descs, hw) == HwRun(old(descs), old(hw), sched(old(ticks)))
      ensures sched(old(ticks)) == 0 ==> descs == old(descs) && hw == old(hw)
    {
      var n := sched(ticks);
      ticks := ticks + 1;
      for i := 0 to n
        invariant hw < |descs| && SameRing(descs, old(descs)) && ticks == old(ticks) + 1
        invariant forall i | 0 <= i < |descs| :: !old(descs)[i].own ==> !descs[i].own
        invariant completed + old(ClearBytes(descs)) == old(completed) + ClearBytes(descs)
        invariant completed >= old(completed)
        invariant (descs, hw) == HwRun(old(descs), old(hw), i)
      {
        if descs[hw].own {
          FlipAt(descs, hw, false, |descs|);
          completed := completed + descs[hw].size;
          descs := descs[hw := descs[hw].(own := false)];
          hw := Next(hw, |descs|);
        }
      }
    }

    /** One visit of the walk below: a descriptor the hardware is done with goes back to it, and its bytes count. */
    method TakeBack(i: nat, ghost ds0: seq<Desc>, ghost hw0: nat, ghost moves: seq<Move>)
      returns (n: nat, ghost more: seq<Move>)
      requires i < |descs| && hw < |descs| && Led(ds0, hw0, moves, descs, hw, i)
      modifies this`descs, this`hw, this`ticks, this`completed
      ensures hw < |descs| && SameRing(descs, old(descs)) && ticks >= old(ticks) && completed >= old(completed)
      ensures n + ClearBytes(descs) + old(completed) == old(ClearBytes(descs)) + completed
      ensures n <= descs[i].size && (!old(descs)[i].own ==> n == descs[i].size)
      ensures forall j | 0 <= j < |descs| && j != i :: !old(descs)[j].own ==> !descs[j].own
      ensures Led(ds0, hw0, more, descs, hw, i + 1)
      ensures Calm(old(ticks)) ==>
        hw == old(hw) && completed == old(completed) && descs == old(descs)[i := old(descs[i]).(own := true)]
    {
      hide ClearBefore, HwRun, ScanRun;
      n := 0;
      ScanAdvances(ds0, hw0, moves, sched(ticks));
      more := moves + Advances(sched(ticks));
      Hardware();
      if !descs[i].own {
        ScanAdvances(ds0, hw0, more, sched(ticks));
        more := more + Advances(sched(ticks));
        Hardware();
        FlipAt(descs, i, true, |descs|);
        n := descs[i].size;
        descs := descs[i := descs[i].(own := true)];
      }
      ScanNext(ds0, hw0, more, Visit);
      more := more + [Visit];
    }

    /** The walk below has visited the first i of the descriptors that were `ds`, and counted `played` bytes. */
    ghost predicate Walking(ds: seq<Desc>, hw0: nat, t0: nat, completed0: nat, moves: seq<Move>, played: nat, i: nat)
      reads this
    {
      && i <= |ds| == |descs| && hw < |descs| && SameRing(descs, ds) && ticks >= t0
      && played + ClearBytes(descs) + completed0 == ClearBytes(ds) + completed
      && ClearBefore(ds, i) <= played <= Before(ds, i) && completed >= completed0
      && (forall j | i <= j < |descs| :: !ds[j].own ==> !descs[j].own)
      && Led(ds, hw0, moves, descs, hw, i)
      && (Calm(t0) ==> hw == hw0 && completed == completed0 && descs == Partly(ds, i))
    }

    method VisitNext(i: nat, played: nat, ghost ds: seq<Desc>, ghost hw0: nat, ghost t0: nat, ghost completed0: nat,
                 ghost moves: seq<Move>)
      returns (more: nat, ghost moved: seq<Move>)
      requires i < |ds| && Walking(ds, hw0, t0, completed0, moves, played, i)
      modifies this`descs, this`hw, this`ticks, this`completed
      ensures |descs| == |ds| && Walking(ds, hw0, t0, completed0, moved, more, i + 1)
    {
      hide ScanStep, ScanRun, Led, HwRun, ClearBytes, ClearBefore, Before, Partly, SameRing;
      ghost var before := descs;
      var n;
      n, moved := TakeBack(i, ds, hw0, moves);
      BeforeNext(ds, i);
      SameRingStill(descs, before, ds, i);
      more := played + n;
    }

    /** Take every finished descriptor back, one after the other, while the hardware goes on. */
    method SetOwnBits() returns (played: nat, ghost moves: seq<Move>)
      requires descs != [] && hw < |descs|
      modifies this`descs, this`hw, this`ticks, this`completed
      ensures hw < |descs| && SameRing(descs, old(descs))
      ensures played + ClearBytes(descs) + old(completed) == old(ClearBytes(descs)) + completed
      ensures old(ClearBytes(descs)) <= played <= TotalSize(old(descs)) && completed >= old(completed)
      ensures ticks >= old(ticks)
      ensures Calm(old(ticks)) ==> descs == Reclaimed(old(descs)) && played == old(ClearBytes(descs)) && hw == old(hw)
      ensures Led(old(descs), old(hw), moves, descs, hw, |descs|)
    {
      played, moves := 0, [];
      ghost var ds := descs;
      WalkBegins();
      hide Walking;
      for i := 0 to |descs|
        invariant |descs| == |ds|
        invariant Walking(ds, old(hw), old(ticks), old(completed), moves, played, i)
      {
        played, moves := VisitNext(i, played, ds, old(hw), old(ticks), old(completed), moves);
      }
      WalkEnds(ds, old(hw), old(ticks), old(completed), moves, played);
    }

    lemma WalkBegins()
      requires hw < |descs|
      ensures Walking(descs, hw, ticks, completed, [], 0, 0)
    {
      BeforeEnds(descs);
      PartlyEnds(descs);
    }

    lemma WalkEnds(ds: seq<Desc>, hw0: nat, t0: nat, completed0: nat, moves: seq<Move>, played: nat)
      requires Walking(ds, hw0, t0, completed0, moves, played, |ds|)
      ensures hw < |descs| && SameRing(descs, ds) && ticks >= t0 && completed >= completed0
      ensures played + ClearBytes(descs) + completed0 == ClearBytes(ds) + completed
      ensures ClearBytes(ds) <= played <= TotalSize(ds)
      ensures Calm(t0) ==> descs == Reclaimed(ds) && played == ClearBytes(ds) && hw == hw0
      ensures Led(ds, hw0, moves, descs, hw, |ds|)
    {
      BeforeEnds(ds);
      PartlyEnds(ds);
      ReclaimedClear(ds);
    }

    /** Look for the boundary between finished and unfinished descriptors. */
    method GetLastPlayed() returns (found: Option<nat>)
      requires descs != [] && hw < |descs|
      modifies this`descs, this`hw, this`ticks, this`completed
      ensures hw < |descs| && SameRing(descs, old(descs)) && ticks >= old(ticks)
      ensures completed + old(ClearBytes(descs)) == old(completed) + ClearBytes(descs) && completed >= old(completed)
      ensures found.Some? ==> found.value < |descs|
      ensures Calm(old(ticks)) ==>
        descs == old(descs) && hw == old(hw) && found == LastPlayedFrom(old(descs), 0)
    {
      ghost var ds := descs;
      var prev := |descs| - 1;
      for i := 0 to |descs|
        invariant hw < |descs| && SameRing(descs, ds) && ticks >= old(ticks)
        invariant prev == if i == 0 then |descs| - 1 else i - 1
        invariant completed + ClearBytes(ds) == old(completed) + ClearBytes(descs) && completed >= old(completed)
        invariant Calm(old(ticks)) ==>
          descs == ds && hw == old(hw) && LastPlayedFrom(ds, 0) == LastPlayedFrom(ds, i)
      {
        Hardware();
        if descs[i].own && !descs[prev].own {
          return Some(i);
        }
        prev := i;
      }
      found := None;
    }

    /** The playback half of the interrupt handler. */
    method PlaybackInterrupt()
      requires Valid()
      modifies this
      ensures Valid() && SameRing(descs, old(descs)) && dropped == old(dropped)
      ensures completed >= old(completed)
      ensures counted + ClearBytes(descs) == old(counted) + old(ClearBytes(descs)) + (completed - old(completed))
      ensures signals == old(signals) + if old(elapsed) + (counted - old(counted)) >= period then 1 else 0
      ensures old(ClearBytes(descs)) <= counted - old(counted) <= TotalSize(old(descs))
      ensures ticks >= old(ticks)
      ensures Calm(old(ticks)) ==>
        && descs == Reclaimed(old(descs)) && hw == old(hw)
        && lastPlayed == LastPlayedFrom(old(descs), 0)
        && counted == old(counted) + old(ClearBytes(descs))
    {
      hide ClearBefore, Before, LastPlayedFrom, Reclaimed, Led;
      lastPlayed := GetLastPlayed();
      ghost var middle := descs;
      var playedSize, _ := SetOwnBits();
      SameBytesRing(old(descs), middle, |middle|);
      ModAdd(counted, playedSize, period);
      elapsed := elapsed + playedSize;
      counted := counted + playedSize;
      if elapsed >= period {
        elapsed := elapsed % period;
        signals := signals + 1;
      }
    }

    /** Start over from the first descriptor: everything goes back to the hardware and nothing is counted. */
    method Prepare()
      requires Valid()
      modifies this
      ensures Valid() && SameRing(descs, old(descs)) && counted == old(counted) && elapsed == old(elapsed)
      ensures lastPlayed == None
      ensures Calm(old(ticks)) ==> hw == 0 && descs == Reclaimed(old(descs))
    {
      hw := 0;
      var played, _ := SetOwnBits();
      dropped := dropped + played;
      lastPlayed := None;
    }
  }

  lemma {:induction false} SameBytesRing(xs: seq<Desc>, ys: seq<Desc>, i: nat)
    requires SameRing(xs, ys) && i <= |xs|
    ensures Before(xs, i) == Before(ys, i)
  {
    if i > 0 {
      SameBytesRing(xs, ys, i - 1);
      assert xs[i - 1].(own := true) == ys[i - 1].(own := true);
    }
  }

  lemma {:induction false} NothingClear(ds: seq<Desc>, i: nat)
    requires i <= |ds| && forall j | 0 <= j < i :: ds[j].own
    ensures ClearBefore(ds, i) == 0
  {
    if i > 0 {
      NothingClear(ds, i - 1);
    }
  }

  lemma SameRingStill(xs: seq<Desc>, ys: seq<Desc>, zs: seq<Desc>, i: nat)
    requires SameRing(xs, ys) && SameRing(ys, zs) && i < |zs|
    ensures SameRing(xs, zs) && |xs| == |ys| == |zs| && xs[i].size == zs[i].size
  {
    assert xs[i].(own := true) == ys[i].(own := true) == zs[i].(own := true);
  }

  lemma ReclaimedClear(ds: seq<Desc>)
    ensures ClearBytes(Reclaimed(ds)) == 0
  {
    NothingClear(Reclaimed(ds), |ds|);
  }

  lemma BeforeEnds(ds: seq<Desc>)
    ensures ClearBefore(ds, 0) == 0 == Before(ds, 0)
    ensures ClearBefore(ds, |ds|) == ClearBytes(ds) && Before(ds, |ds|) == TotalSize(ds)
  {
  }

  lemma BeforeNext(ds: seq<Desc>, i: nat)
    requires i < |ds|
    ensures ClearBefore(ds, i + 1) == ClearBefore(ds, i) + (if ds[i].own then 0 else ds[i].size)
    ensures Before(ds, i + 1) == Before(ds, i) + ds[i].size
    ensures Partly(ds, i)[i := ds[i].(own := true)] == Partly(ds, i + 1) && Partly(ds, i)[i] == ds[i]
  {
  }

  lemma PartlyEnds(ds: seq<Desc>)
    ensures Partly(ds, 0) == ds && Partly(ds, |ds|) == Reclaimed(ds)
  {
  }

  /** The first i descriptors taken back. */
  function Partly(ds: seq<Desc>, i: nat): (r: seq<Desc>)
    ensures |r| == |ds|
  {
    seq(|ds|, j requires 0 <= j < |ds| => if j < i then ds[j].(own := true) else ds[j])
  }
}
