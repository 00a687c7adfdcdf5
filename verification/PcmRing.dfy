/** The ring of DMA descriptors behind an ath79 audio stream: how it is built over the audio buffer, and what it
    means to walk it. */
module PcmRing {

  /** A descriptor: ownership bit, buffer address and size, the address of the next descriptor, and its own
      address.  `own` set means the hardware may use it. */
  datatype Desc = Desc(own: bool, size: nat, bufPtr: nat, next: nat, phys: nat)

  // Widths of the descriptor's bit fields
  const SIZE_FIELD := 4096
  const PTR_FIELD := 0x1000_0000

  /** Bytes covered by the first i descriptors. */
  function Before(ds: seq<Desc>, i: nat): nat
    requires i <= |ds|
  {
    if i == 0 then 0 else Before(ds, i - 1) + ds[i - 1].size
  }

  function TotalSize(ds: seq<Desc>): nat {
    Before(ds, |ds|)
  }

  /** What the size field of a new descriptor at `offset` ends up holding. */
  function FieldSize(period: nat, bufsize: nat, offset: nat): nat
    requires offset <= bufsize
  {
    (if bufsize >= offset + period then period else bufsize - offset) % SIZE_FIELD
  }

  /** The sizes the descriptors of this buffer ask for all fit the field. */
  predicate Fits(period: nat, bufsize: nat) {
    period > 0 && bufsize > 0 && (period < SIZE_FIELD || bufsize < SIZE_FIELD)
  }

  function Wanted(period: nat, left: nat): nat {
    if left < period then left else period
  }

  /** Exactly then every descriptor gets the size it should have: a whole period, or what is left. */
  lemma SizesExactIff(period: nat, bufsize: nat)
    requires period > 0 && bufsize > 0
    ensures Fits(period, bufsize) <==>
      forall offset: nat | offset < bufsize :: FieldSize(period, bufsize, offset) == Wanted(period, bufsize - offset)
  {
    if !Fits(period, bufsize) {
      assert FieldSize(period, bufsize, 0) < SIZE_FIELD <= Wanted(period, bufsize - 0);
    }
  }

  /** Where the loop that adds each descriptor's size field to its offset stands after k rounds. */
  function OffsetAfter(period: nat, bufsize: nat, k: nat): (r: nat)
    ensures r <= bufsize
  {
    if k == 0 then 0
    else
      var o := OffsetAfter(period, bufsize, k - 1);
      if o == bufsize then o else o + FieldSize(period, bufsize, o)
  }

  /** With sizes that do not fit, at least 4096 bytes of the buffer always remain uncovered. */
  lemma {:induction false} NeverCloser(period: nat, bufsize: nat, k: nat)
    requires period >= SIZE_FIELD && bufsize >= SIZE_FIELD
    ensures bufsize - OffsetAfter(period, bufsize, k) >= SIZE_FIELD
  {
    if k > 0 {
      NeverCloser(period, bufsize, k - 1);
    }
  }

  lemma {:induction false} AlwaysCloser(period: nat, bufsize: nat, k: nat)
    requires Fits(period, bufsize)
    ensures OffsetAfter(period, bufsize, k) == bufsize || OffsetAfter(period, bufsize, k) >= k
  {
    if k > 0 {
      AlwaysCloser(period, bufsize, k - 1);
      SizesExactIff(period, bufsize);
    }
  }

  /** The loop comes to its end exactly if the sizes fit the field. */
  lemma LoopEndsIff(period: nat, bufsize: nat)
    requires period > 0 && bufsize > 0
    ensures (exists k: nat :: OffsetAfter(period, bufsize, k) == bufsize) <==> Fits(period, bufsize)
  {
    if Fits(period, bufsize) {
      AlwaysCloser(period, bufsize, bufsize);
      assert OffsetAfter(period, bufsize, bufsize) == bufsize;
    } else {
      forall k: nat
        ensures OffsetAfter(period, bufsize, k) != bufsize
      {
        NeverCloser(period, bufsize, k);
      }
    }
  }

  /** Periods the driver admits always fit. */
  const PERIOD_BYTES_MAX := 4095

  lemma AdmittedPeriodsEnd(period: nat, bufsize: nat)
    requires 0 < period <= PERIOD_BYTES_MAX && bufsize > 0
    ensures Fits(period, bufsize) && exists k: nat :: OffsetAfter(period, bufsize, k) == bufsize
  {
    LoopEndsIff(period, bufsize);
  }

  /** A period of 4096 bytes, stored as 0, keeps the offset where it is; so does what is left of a 4096-byte buffer. */
  lemma FullPeriodStalls(bufsize: nat, k: nat)
    requires bufsize >= SIZE_FIELD
    ensures OffsetAfter(SIZE_FIELD, bufsize, k) == 0
    ensures OffsetAfter(5000, SIZE_FIELD, k) == 0
  {
    if k > 0 {
      FullPeriodStalls(bufsize, k - 1);
    }
  }

  /** The descriptors lie end to end from `base` to `end`, all of one period but the last, which is not empty. */
  ghost predicate Tiles(ds: seq<Desc>, base: nat, end: nat, period: nat) {
    && (forall i {:trigger ds[i].size} | 0 <= i < |ds| - 1 ::
          ds[i + 1].bufPtr == ds[i].bufPtr + ds[i].size && ds[i].size == period)
    && (if ds == [] then end == base
        else ds[0].bufPtr == base && 0 < ds[|ds| - 1].size <= period
             && ds[|ds| - 1].bufPtr + ds[|ds| - 1].size == end)
  }

  /** So every byte of the buffer belongs to exactly one of them, at its offset. */
  lemma {:induction false} TilesOffsets(ds: seq<Desc>, base: nat, end: nat, period: nat, i: nat)
    requires Tiles(ds, base, end, period) && i < |ds|
    ensures ds[i].bufPtr == base + Before(ds, i)
    ensures TotalSize(ds) == end - base
  {
    if i > 0 {
      TilesOffsets(ds, base, end, period, i - 1);
      assert ds[i - 1].size == period && ds[i - 1 + 1] == ds[i];
    } else if |ds| > 1 {
      LastOffset(ds, base, end, period, |ds| - 1);
    }
  }

  lemma {:induction false} LastOffset(ds: seq<Desc>, base: nat, end: nat, period: nat, i: nat)
    requires Tiles(ds, base, end, period) && i < |ds|
    ensures ds[i].bufPtr == base + Before(ds, i)
  {
    if i > 0 {
      LastOffset(ds, base, end, period, i - 1);
      assert ds[i - 1].size == period && ds[i - 1 + 1] == ds[i];
    }
  }

  ghost predicate AllPeriods(ds: seq<Desc>, period: nat) {
    forall i | 0 <= i < |ds| :: ds[i].size == period
  }

  /** Each descriptor points at the one after it, the last one at the first. */
  ghost predicate Linked(ds: seq<Desc>) {
    && (forall i {:trigger ds[i].next} | 0 <= i < |ds| - 1 :: ds[i].next == ds[i + 1].phys)
    && (ds != [] ==> ds[|ds| - 1].next == ds[0].phys)
  }

  function Next(i: nat, n: nat): (r: nat)
    requires i < n
    ensures r < n
  {
    if i + 1 == n then 0 else i + 1
  }

  /** The hardware's tour: it starts at the first descriptor and goes, by address, from link to link. */
  ghost predicate IsTour(ds: seq<Desc>, tour: seq<nat>) {
    && ds != [] && tour != [] && tour[0] == ds[0].phys
    && forall k | 0 <= k < |tour| - 1 :: LinksTo(ds, tour[k], tour[k + 1])
  }

  ghost predicate LinksTo(ds: seq<Desc>, p: nat, q: nat) {
    exists i :: 0 <= i < |ds| && ds[i].phys == p && ds[i].next == q
  }

  /** The position after k steps round a ring of n. */
  function Turn(k: nat, n: nat): (r: nat)
    requires n > 0
    ensures r < n
  {
    if k == 0 then 0 else Next(Turn(k - 1, n), n)
  }

  /** The first n steps visit 0, 1, ..., n - 1, and the n-th is back at 0. */
  lemma {:induction false} TurnVisitsAll(k: nat, n: nat)
    requires n > 0 && k <= n
    ensures Turn(k, n) == if k == n then 0 else k
  {
    if k > 0 {
      TurnVisitsAll(k - 1, n);
    }
  }

  /** Whatever the length of the tour, it goes round the list in order. */
  lemma {:induction false} TourIsCycle(ds: seq<Desc>, tour: seq<nat>, k: nat)
    requires IsTour(ds, tour) && Linked(ds) && k < |tour|
    requires forall i, j | 0 <= i < j < |ds| :: ds[i].phys != ds[j].phys
    ensures tour[k] == ds[Turn(k, |ds|)].phys
  {
    if k > 0 {
      TourIsCycle(ds, tour, k - 1);
      assert LinksTo(ds, tour[k - 1], tour[k - 1 + 1]);
    }
  }

  /** How many descriptors a buffer takes. */
  function Count(period: nat, bufsize: nat): nat
    requires period > 0
  {
    if bufsize == 0 then 0 else if bufsize <= period then 1 else 1 + Count(period, bufsize - period)
  }

  /** Point the last descriptor at `next`. */
  function Relink(ds: seq<Desc>, next: nat): (r: seq<Desc>)
    requires ds != []
    ensures |r| == |ds| && r[|ds| - 1] == ds[|ds| - 1].(next := next)
    ensures forall i | 0 <= i < |ds| - 1 :: r[i] == ds[i]
  {
    ds[|ds| - 1 := ds[|ds| - 1].(next := next)]
  }

  /** All descriptors are the hardware's, at the allocated addresses, each pointing at the next. */
  ghost predicate Chained(ds: seq<Desc>, pool: seq<nat>) {
    && |ds| <= |pool|
    && (forall i | 0 <= i < |ds| :: ds[i].own && ds[i].phys == pool[i])
    && (forall i | 0 <= i < |ds| - 1 :: ds[i].next == pool[i + 1])
  }

  lemma CountNext(period: nat, left: nat, size: nat)
    requires 0 < size <= left && size <= period && (size < period ==> size == left)
    ensures Count(period, left) == 1 + Count(period, left - size)
  {
  }

  /** An address stored in a 28-bit field. */
  method Truncate(a: nat) returns (r: nat)
    ensures r < PTR_FIELD
    ensures a < PTR_FIELD ==> r == a
  {
    r := a % PTR_FIELD;
  }

  /** A size stored in the 12-bit field: a whole period, or what is left of the buffer. */
  method NextSize(period: nat, bufsize: nat, offset: nat) returns (size: nat)
    requires offset < bufsize && Fits(period, bufsize)
    ensures size == Wanted(period, bufsize - offset)
  {
    SizesExactIff(period, bufsize);
    size := FieldSize(period, bufsize, offset);
  }

  /** Allocate a descriptor, fill it in, and make the one before it point at it. */
  method Append(ds: seq<Desc>, size: nat, base: nat, ghost period: nat, offset: nat, pool: seq<nat>)
    returns (longer: seq<Desc>)
    requires 0 < size <= period && base + offset < PTR_FIELD
    requires |ds| < |pool| && Chained(ds, pool) && Tiles(ds, base, base + offset, period) && AllPeriods(ds, period)
    requires forall i | 0 <= i < |pool| :: pool[i] < PTR_FIELD
    ensures |longer| == |ds| + 1
    ensures Chained(longer, pool) && Tiles(longer, base, base + offset + size, period)
    ensures size == period ==> AllPeriods(longer, period)
  {
    var phys := pool[|ds|];
    var link := Truncate(phys);
    var bufPtr := Truncate(base + offset);
    var d := Desc(true, size, bufPtr, 0, phys);
    var relinked := if ds != [] then Relink(ds, link) else ds;
    TilesNext(ds, relinked, d, base, base + offset, period);
    ChainedNext(ds, relinked, d, pool);
    longer := relinked + [d];
  }

  /** Append descriptors until the buffer is covered. */
  method CoverBuffer(base: nat, period: nat, bufsize: nat, pool: seq<nat>) returns (ds: seq<Desc>)
    requires Fits(period, bufsize)
    requires base + bufsize <= PTR_FIELD
    requires |pool| >= Count(period, bufsize)
    requires forall i | 0 <= i < |pool| :: pool[i] < PTR_FIELD
    ensures |ds| == Count(period, bufsize) && ds != []
    ensures Tiles(ds, base, base + bufsize, period) && Chained(ds, pool)
  {
    ds := [];
    var offset := 0;
    ghost var left, more, total := bufsize, Count(period, bufsize), Count(period, bufsize);
    while offset < bufsize
      invariant offset <= bufsize
      invariant left == bufsize - offset && |ds| + more == total && more == Count(period, left)
      invariant Tiles(ds, base, base + offset, period)
      invariant offset < bufsize ==> AllPeriods(ds, period)
      invariant Chained(ds, pool)
      invariant offset > 0 ==> ds != []
    {
      var size := NextSize(period, bufsize, offset);
      CountNext(period, left, size);
      ds := Append(ds, size, base, period, offset, pool);
      offset := offset + size;
      left, more := left - size, more - 1;
    }
  }

  /** Build the ring over [base, base + bufsize).  `pool` is the sequence of addresses the allocator hands out. */
  method DmaMap(base: nat, period: nat, bufsize: nat, pool: seq<nat>) returns (ds: seq<Desc>)
    requires Fits(period, bufsize)
    requires base + bufsize <= PTR_FIELD
    requires |pool| >= Count(period, bufsize)
    requires forall i | 0 <= i < |pool| :: pool[i] < PTR_FIELD
    ensures |ds| == Count(period, bufsize) && ds != []
    ensures Tiles(ds, base, base + bufsize, period)
    ensures Linked(ds)
    ensures Chained(ds, pool)
  {
    ds := CoverBuffer(base, period, bufsize, pool);
    var first := ds[0].phys;
    assert first == pool[0] < PTR_FIELD;
    RingClosed(ds, first, pool);
    RingTiles(ds, first, base, base + bufsize, period);
    var link := Truncate(first);
    ds := Relink(ds, link);
  }

  lemma ChainedNext(before: seq<Desc>, ds: seq<Desc>, d: Desc, pool: seq<nat>)
    requires Chained(before, pool) && |before| < |pool| && d.own && d.phys == pool[|before|]
    requires before == [] ==> ds == []
    requires before != [] ==> ds == Relink(before, d.phys)
    ensures Chained(ds + [d], pool)
  {
  }

  lemma RingClosed(ds: seq<Desc>, first: nat, pool: seq<nat>)
    requires ds != [] && Chained(ds, pool) && first == ds[0].phys
    ensures Linked(Relink(ds, first)) && Chained(Relink(ds, first), pool)
  {
  }

  lemma RingTiles(ds: seq<Desc>, next: nat, base: nat, end: nat, period: nat)
    requires ds != [] && Tiles(ds, base, end, period)
    ensures Tiles(Relink(ds, next), base, end, period)
  {
    var ring := Relink(ds, next);
    forall i | 0 <= i < |ds| - 1
      ensures ring[i + 1].bufPtr == ring[i].bufPtr + ring[i].size && ring[i].size == period
    {
      assert ds[i].size == period;
    }
  }

  lemma TilesNext(before: seq<Desc>, ds: seq<Desc>, d: Desc, base: nat, end: nat, period: nat)
    requires Tiles(before, base, end, period) && AllPeriods(before, period)
    requires |before| == |ds|
    requires before == [] || ds == Relink(before, ds[|ds| - 1].next)
    requires d.bufPtr == end && 0 < d.size <= period
    ensures Tiles(ds + [d], base, end + d.size, period)
    ensures d.size == period ==> AllPeriods(ds + [d], period)
  {
    var longer := ds + [d];
    forall i | 0 <= i < |ds|
      ensures longer[i + 1].bufPtr == longer[i].bufPtr + longer[i].size && longer[i].size == period
    {
      assert before[i].size == period;
    }
  }
}
