/** The AR934x UART's baud rate generator: rate = clk * step / (2^17 * (scale + 1)), and the driver's search for
    the best scale and step. */
module UartBaud {
  import opened Division

  const MAX_SCALE := 0xFF
  const MAX_STEP := 0x3333
  const MIN_BAUD := 300
  const MAX_BAUD := 30_000_000
  const UNIT := 0x2_0000           // 2 << 16
  const WORD := 0x1_0000_0000      // unsigned int arithmetic is modulo this

  // ---------------------------------------------------------------- the generator

  function Divider(scale: nat): (d: nat)
    ensures d > 0 && d % 2 == 0
  {
    UNIT * (scale + 1)
  }

  /** The rate a setting achieves, rounded to the nearest integer. */
  function GetBaud(clk: nat, scale: nat, step: nat): nat {
    (clk * step + Divider(scale) / 2) / Divider(scale)
  }

  /** The step the driver pairs with a scale: the largest that does not overshoot the rate. */
  function Step(clk: nat, baud: nat, scale: nat): nat
    requires clk > 0
  {
    baud * Divider(scale) / clk
  }

  /** The rate is the integer nearest to clk * step / (2^17 * (scale + 1)), halves going up; the step is the largest
      whose rate, before rounding, is not above the one asked for. */
  lemma RateNearest(clk: nat, baud: nat, scale: nat, step: nat)
    ensures var d, r := 0x20000 * (scale + 1), GetBaud(clk, scale, step);
      2 * (d * r) - d <= 2 * (clk * step) < 2 * (d * r) + d
    ensures clk > 0 ==>
      clk * Step(clk, baud, scale) <= baud * (0x20000 * (scale + 1)) < clk * Step(clk, baud, scale) + clk
  {
    Quotient(clk * step + Divider(scale) / 2, Divider(scale));
    if clk > 0 { Quotient(baud * Divider(scale), clk); }
  }

  /** At any scale the achieved rate does not exceed the one asked for, and misses it by less than
      clk / Divider + 1 / 2. */
  lemma RateError(clk: nat, baud: nat, scale: nat)
    requires clk > 0
    ensures var r := GetBaud(clk, scale, Step(clk, baud, scale));
      r <= baud && 2 * (Divider(scale) * (baud - r)) < 2 * clk + Divider(scale)
  {
    var d, s := Divider(scale), Step(clk, baud, scale);
    Quotient(baud * d, clk);
    assert clk * s <= d * baud < clk * s + clk;
    var top := clk * s + d / 2;
    QuotientAtMost(top, d, baud);
    var r := GetBaud(clk, scale, s);
    Quotient(top, d);
    assert d * (baud - r) == d * baud - d * r;
  }

  /** A larger scale never has a smaller step. */
  lemma StepMono(clk: nat, baud: nat, s: nat, t: nat)
    requires clk > 0 && s <= t
    ensures Step(clk, baud, s) <= Step(clk, baud, t)
  {
    ProductMono(Divider(s), Divider(t), baud);
    QuotientMono(baud * Divider(s), baud * Divider(t), clk);
  }

  /** If the previous scale's step was within bounds, the product for this one fits in 32 bits. */
  lemma ProductFits(clk: nat, baud: nat, scale: nat)
    requires 0 < clk < WORD && scale > 0 && Step(clk, baud, scale - 1) <= MAX_STEP
    ensures baud * (scale + 1) < WORD
  {
    var d := Divider(scale - 1);
    Quotient(baud * d, clk);
    ProductMono(Step(clk, baud, scale - 1), MAX_STEP, clk);
    assert baud * d == UNIT * (baud * scale) by {
      assert d == UNIT * scale;
    }
    assert baud * (scale + 1) == baud * scale + baud;
    ProductMono(1, scale, baud);
  }

  // ---------------------------------------------------------------- the search

  /** How far a scale's rate falls short. */
  function Miss(clk: nat, baud: nat, scale: nat): (m: int)
    requires clk > 0
    ensures m >= 0
  {
    RateError(clk, baud, scale);
    baud - GetBaud(clk, scale, Step(clk, baud, scale))
  }

  predicate Usable(clk: nat, baud: nat, scale: nat)
    requires clk > 0
  {
    Step(clk, baud, scale) <= MAX_STEP
  }

  /** (scale, step) is the best setting among the usable scales below n, the smallest of equals; or (0, 0) if no
      usable scale achieves any rate at all. */
  ghost predicate Best(clk: nat, baud: nat, n: nat, scale: nat, step: nat)
    requires clk > 0
  {
    if step == 0 then
      scale == 0 && forall t: nat | t < n && Usable(clk, baud, t) :: Miss(clk, baud, t) == baud
    else
      && scale < n && step == Step(clk, baud, scale) && Usable(clk, baud, scale)
      && Miss(clk, baud, scale) < baud
      && (forall t: nat | t < n && Usable(clk, baud, t) :: Miss(clk, baud, scale) <= Miss(clk, baud, t))
      && (forall t: nat | t < scale && Usable(clk, baud, t) :: Miss(clk, baud, scale) < Miss(clk, baud, t))
  }

  lemma NoRateWithoutStep(clk: nat, scale: nat)
    ensures GetBaud(clk, scale, 0) == 0
  {
    var d := Divider(scale);
    assert clk * 0 == 0;
    QuotientAtMost(d / 2, d, 0);
  }

  /** The 32-bit product the driver computes is the true one at every scale it gets to. */
  lemma ExactStep(clk: nat, baud: nat, scale: nat)
    requires 0 < clk < WORD && baud < WORD
    requires scale == 0 || Usable(clk, baud, scale - 1)
    ensures baud * (scale + 1) < WORD
    ensures baud * (scale + 1) % WORD * UNIT / clk == Step(clk, baud, scale)
  {
    if scale > 0 { ProductFits(clk, baud, scale); }
    Regroup(baud, scale + 1);
  }

  lemma Regroup(a: nat, b: nat)
    ensures a * b * UNIT == a * (UNIT * b)
  {
  }

  /** One more scale looked at. */
  lemma BestNext(clk: nat, baud: nat, n: nat, scale: nat, step: nat)
    requires clk > 0 && Usable(clk, baud, n) && Best(clk, baud, n, scale, step)
    ensures var least := if step == 0 then baud else Miss(clk, baud, scale);
      if Miss(clk, baud, n) < least then Best(clk, baud, n + 1, n, Step(clk, baud, n)) && Step(clk, baud, n) > 0
      else Best(clk, baud, n + 1, scale, step)
  {
    NoRateWithoutStep(clk, n);
    RateError(clk, baud, n);
  }

  /** Search the scales in order, stopping at the first whose step is out of bounds.  The stop loses nothing, and
      the 32-bit product never wraps. */
  method GetScaleStep(clk: nat, baud: nat) returns (scale: nat, step: nat)
    requires 0 < clk < WORD && baud < 0x8000_0000
    ensures Best(clk, baud, MAX_SCALE, scale, step)
  {
    scale, step := 0, 0;
    var minDiff: int := baud;
    var tscale := 0;
    while tscale < MAX_SCALE
      invariant tscale <= MAX_SCALE
      invariant tscale > 0 ==> Usable(clk, baud, tscale - 1)
      invariant Best(clk, baud, tscale, scale, step)
      invariant minDiff == if step == 0 then baud else Miss(clk, baud, scale)
    {
      ExactStep(clk, baud, tscale);
      var tstep := baud * (tscale + 1) % WORD;
      tstep := tstep * UNIT / clk;
      if tstep > MAX_STEP {
        NothingBeyond(clk, baud, tscale, scale, step);
        return;
      }
      RateError(clk, baud, tscale);
      BestNext(clk, baud, tscale, scale, step);
      var reached := GetBaud(clk, tscale, tstep);
      var diff := if reached < baud then baud - reached else reached - baud;
      if diff < minDiff {
        minDiff := diff;
        scale := tscale;
        step := tstep;
      }
      tscale := tscale + 1;
    }
  }

  lemma NothingBeyond(clk: nat, baud: nat, n: nat, scale: nat, step: nat)
    requires clk > 0 && n < MAX_SCALE && !Usable(clk, baud, n) && Best(clk, baud, n, scale, step)
    ensures Best(clk, baud, MAX_SCALE, scale, step)
  {
    forall t: nat | n <= t < MAX_SCALE
      ensures !Usable(clk, baud, t)
    {
      StepMono(clk, baud, n, t);
    }
  }

  // ---------------------------------------------------------------- the range the driver offers

  function MinBaud(clk: nat): nat {
    if GetBaud(clk, MAX_SCALE, 1) > MIN_BAUD then GetBaud(clk, MAX_SCALE, 1) else MIN_BAUD
  }

  function MaxBaud(clk: nat): nat {
    if GetBaud(clk, 0, MAX_STEP) < MAX_BAUD then GetBaud(clk, 0, MAX_STEP) else MAX_BAUD
  }

  /** The range reaches from the slowest rate the generator can make, or 300, to the fastest, or 30 million. */
  lemma RangeIs(clk: nat, baud: nat)
    ensures MinBaud(clk) <= baud <= MaxBaud(clk) <==>
      300 <= baud <= 30_000_000 && GetBaud(clk, 0xFF, 1) <= baud <= GetBaud(clk, 0, 0x3333)
  {
  }

  /** A smaller rate never has a larger step. */
  lemma StepMonoRate(clk: nat, a: nat, b: nat, scale: nat)
    requires clk > 0 && a <= b
    ensures Step(clk, a, scale) <= Step(clk, b, scale)
  {
    var d := Divider(scale);
    ProductMono(a, b, d);
    assert a * d == d * a && b * d == d * b;
    QuotientMono(a * d, b * d, clk);
  }

  /** Clocks above 65536 have a usable first scale up to the top of the range. */
  lemma FastClockUsable(clk: nat)
    requires clk > 65536
    ensures Usable(clk, MaxBaud(clk), 0)
  {
    var top := clk * MAX_STEP + UNIT / 2;
    var most := GetBaud(clk, 0, MAX_STEP);
    Quotient(top, UNIT);
    assert most * Divider(0) == UNIT * most;
    QuotientAtMost(most * Divider(0), clk, MAX_STEP);
    StepMonoRate(clk, MaxBaud(clk), most, 0);
  }

  /** The first scale with a step of at least one. */
  lemma {:induction false} FirstStep(clk: nat, baud: nat, n: nat) returns (t: nat)
    requires clk > 0 && Step(clk, baud, n) >= 1
    ensures t <= n && Step(clk, baud, t) >= 1
    ensures t > 0 ==> Step(clk, baud, t - 1) == 0
  {
    if n > 0 && Step(clk, baud, n - 1) >= 1 {
      t := FirstStep(clk, baud, n - 1);
    } else {
      t := n;
    }
  }

  /** If a scale has step 0 and the next one does not, the next one has step 1 and achieves a rate. */
  lemma StepOneAchieves(clk: nat, baud: nat, t: nat)
    requires clk > 0 && t > 0 && baud >= MIN_BAUD
    requires Step(clk, baud, t - 1) == 0 && Step(clk, baud, t) >= 1
    ensures Step(clk, baud, t) == 1 && GetBaud(clk, t, 1) >= 1
  {
    var less, d := baud * Divider(t - 1), Divider(t);
    Quotient(less, clk);
    assert less < clk;
    assert Divider(t - 1) == UNIT * t && d == UNIT * t + UNIT;
    ProductMono(d, 2 * (UNIT * t), baud);
    assert baud * (2 * (UNIT * t)) == 2 * less;
    QuotientAtMost(baud * d, clk, 1);
    ProductMono(MIN_BAUD, baud, UNIT * t);
    assert less == UNIT * t * baud;
    assert clk * 1 + d / 2 >= d * 1;
    QuotientAtLeast(clk * 1 + d / 2, d, 1);
  }

  lemma FirstScaleAchieves(clk: nat, baud: nat)
    requires clk > 0 && baud >= MIN_BAUD && Step(clk, baud, 0) >= 1
    ensures GetBaud(clk, 0, Step(clk, baud, 0)) >= 1
  {
    var s := Step(clk, baud, 0);
    Quotient(baud * Divider(0), clk);
    if clk > 65536 {
      ProductMono(1, s, clk);
    }
    QuotientAtLeast(clk * s + UNIT / 2, UNIT, 1);
  }

  /** If the top of the range has a usable first scale, every rate in the range has some usable scale that
      achieves a rate. */
  lemma SomeScaleAchieves(clk: nat, baud: nat) returns (t: nat)
    requires 0 < clk < WORD && MinBaud(clk) <= baud <= MaxBaud(clk)
    requires Usable(clk, MaxBaud(clk), 0)
    ensures t < MAX_SCALE && Usable(clk, baud, t) && Miss(clk, baud, t) < baud
  {
    StepMonoRate(clk, baud, MaxBaud(clk), 0);
    var last := MAX_SCALE - 1;
    ProductMono(MIN_BAUD, baud, Divider(last));
    assert baud * Divider(last) == Divider(last) * baud;
    QuotientAtLeast(baud * Divider(last), clk, 1);
    t := FirstStep(clk, baud, last);
    if t > 0 {
      StepOneAchieves(clk, baud, t);
    } else {
      FirstScaleAchieves(clk, baud);
    }
    RateError(clk, baud, t);
  }

  /** Then the search always ends with a step between 1 and the bound, and with the error bound. */
  lemma InRangeHasSetting(clk: nat, baud: nat, scale: nat, step: nat)
    requires 0 < clk < WORD && MinBaud(clk) <= baud <= MaxBaud(clk)
    requires Usable(clk, MaxBaud(clk), 0)
    requires Best(clk, baud, MAX_SCALE, scale, step)
    ensures 1 <= step <= MAX_STEP && scale < MAX_SCALE
    ensures 2 * (Divider(scale) * (baud - GetBaud(clk, scale, step))) < 2 * clk + Divider(scale)
    ensures 0 < GetBaud(clk, scale, step) <= baud
  {
    var t := SomeScaleAchieves(clk, baud);
    assert Miss(clk, baud, t) < baud;
    RateError(clk, baud, scale);
  }

  /** Whatever rate in the offered range is asked for, the search ends with a real setting. */
  ghost predicate ServesRange(clk: nat)
    requires clk > 0
  {
    forall baud: nat, scale: nat, step: nat |
      MinBaud(clk) <= baud <= MaxBaud(clk) && Best(clk, baud, MAX_SCALE, scale, step) :: step >= 1
  }

  /** A clock serves the whole range it offers if and only if that range is empty or its top has a usable first
      scale. */
  lemma ServesRangeIff(clk: nat)
    requires 0 < clk < WORD
    ensures ServesRange(clk) <==> MinBaud(clk) > MaxBaud(clk) || Usable(clk, MaxBaud(clk), 0)
  {
    var top := MaxBaud(clk);
    if MinBaud(clk) <= top {
      if Usable(clk, top, 0) {
        forall baud: nat, scale: nat, step: nat |
          MinBaud(clk) <= baud <= top && Best(clk, baud, MAX_SCALE, scale, step)
          ensures step >= 1
        {
          InRangeHasSetting(clk, baud, scale, step);
        }
      } else {
        UnusableFails(clk, top);
      }
    }
  }

  /** A rate whose very first scale is out of bounds gets no setting at all. */
  lemma UnusableFails(clk: nat, baud: nat)
    requires clk > 0 && !Usable(clk, baud, 0)
    ensures Best(clk, baud, MAX_SCALE, 0, 0)
  {
    NothingBeyond(clk, baud, 0, 0, 0);
  }

  /** Every clock above 65536 serves its range. */
  lemma FastClockServes(clk: nat)
    requires 65536 < clk < WORD
    ensures ServesRange(clk)
  {
    FastClockUsable(clk);
    ServesRangeIff(clk);
  }

  /** At a clock of 65536 the range's upper end is rounded up beyond what any scale can do. */
  lemma SlowClockFails()
    ensures !ServesRange(65536) && MaxBaud(65536) == 6554
    ensures Best(65536, 6554, MAX_SCALE, 0, 0)
  {
    assert Step(65536, 6554, 0) == 13108;
    assert GetBaud(65536, MAX_SCALE, 1) == 0;
    ServesRangeIff(65536);
    UnusableFails(65536, 6554);
  }
}
