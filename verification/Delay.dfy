/** calibrateDelayLoop: how many empty loops fit between two timer ticks. */
module Delay {
  import opened Words
  import opened Arithmetic

  const PRECISION: nat := 8
  const MILLISEC: nat := 10

  // ---------- bitwise operators on naturals ----------

  function Or(x: nat, y: nat): nat {
    if x == 0 then y
    else if y == 0 then x
    else 2 * Or(x / 2, y / 2) + if x % 2 == 1 || y % 2 == 1 then 1 else 0
  }

  /** x & ~y */
  function AndNot(x: nat, y: nat): nat {
    if x == 0 then 0
    else if y == 0 then x
    else 2 * AndNot(x / 2, y / 2) + if x % 2 == 1 && y % 2 == 0 then 1 else 0
  }

  /** Bits 0 to k of `d` are clear. */
  predicate LowClear(d: nat, k: nat) {
    d % 2 == 0 && (k == 0 || LowClear(d / 2, k - 1))
  }

  /** Setting a bit below all bits of `d` adds it; clearing it again gives `d` back. */
  lemma {:induction false} LowBit(d: nat, k: nat)
    requires LowClear(d, k)
    ensures Or(d, Pow(2, k)) == d + Pow(2, k) && AndNot(d + Pow(2, k), Pow(2, k)) == d
    ensures k > 0 ==> LowClear(d, k - 1) && LowClear(d + Pow(2, k), k - 1)
  {
    if k == 0 {
      assert AndNot(d / 2, 0) == d / 2;
    } else {
      LowBit(d / 2, k - 1);
      assert (d + Pow(2, k)) / 2 == d / 2 + Pow(2, k - 1);
      assert Pow(2, k) / 2 == Pow(2, k - 1);
    }
  }

  lemma {:induction false} PowerIsClearBelow(m: nat)
    requires m > 0
    ensures LowClear(Pow(2, m), m - 1)
  {
    if m > 1 {
      PowerIsClearBelow(m - 1);
      assert Pow(2, m) / 2 == Pow(2, m - 1);
    }
  }

  lemma Pow2Of31()
    ensures Pow(2, 31) == 0x8000_0000
  {
    assert Pow(2, 8) == 256;
    assert Pow(2, 16) == 256 * Pow(2, 8);
    assert Pow(2, 24) == 256 * Pow(2, 16);
    assert Pow(2, 31) == 128 * Pow(2, 24);
  }

  // ---------- the search ----------

  /** `threshold`: a delay of n loops spans a tick exactly when n reaches it. */
  predicate Spans(threshold: nat, loops: nat) {
    loops >= threshold
  }

  /** Coarse stage: double until the delay is too long, then take the last value that was not. */
  method Coarse(threshold: nat) returns (d: nat, ghost m: nat)
    requires threshold <= 0x8000_0000
    ensures d == Pow(2, m) && m <= 30
    ensures threshold >= 2 ==> d < threshold
    ensures threshold <= 2 * d && (threshold < 2 ==> d == 1)
  {
    Pow2Of31();
    d, m := 1, 0;
    var tooLong := false;
    while !tooLong
      invariant m <= 31 && d == Pow(2, m)
      invariant tooLong ==> m > 0 && d >= threshold && (m == 1 || Pow(2, m - 1) < threshold)
      invariant !tooLong ==> m == 0 || d < threshold
      invariant threshold < 2 && tooLong ==> m == 1
      decreases !tooLong, 31 - m
    {
      PowGrows(2, m + 1, 31);
      d, m := d * 2 % WORD, m + 1;
      tooLong := Spans(threshold, d);
    }
    d, m := d / 2, m - 1;
  }

  /** Fine stage: try the next lower bits, at most eight of them. */
  method Fine(threshold: nat, coarse: nat, ghost m: nat) returns (d: nat)
    requires coarse == Pow(2, m) && threshold <= 2 * coarse && (coarse < threshold || m == 0)
    ensures coarse >= threshold ==> d == coarse
    ensures coarse < threshold ==> coarse <= d < threshold
    ensures coarse < threshold && m <= PRECISION ==> d == threshold - 1
    ensures coarse < threshold && m >= PRECISION ==> threshold - d <= Pow(2, m - PRECISION)
  {
    d := coarse;
    var bit := d;
    ghost var k: nat := m;
    var i := 0;
    if m > 0 { PowerIsClearBelow(m); }
    while i < PRECISION
      invariant 0 <= i <= PRECISION && k + i == m && bit == Pow(2, k)
      invariant coarse < threshold ==> coarse <= d < threshold && threshold - d <= bit
      invariant coarse >= threshold ==> d == coarse
      invariant k > 0 ==> LowClear(d, k - 1)
    {
      bit := bit / 2;
      if bit == 0 {
        assert k == 0;
        break;
      }
      k := k - 1;
      LowBit(d, k);
      ghost var low := d;
      d := Or(d, bit);
      if Spans(threshold, d) {
        d := AndNot(d, bit);
        assert d == low;
      }
      i := i + 1;
    }
  }

  /** The value before the final division: below the threshold, exact for small thresholds, and within
      one part in 256 otherwise. */
  ghost predicate Calibrated(threshold: nat, d: nat) {
    && d < threshold
    && (threshold <= 512 ==> d == threshold - 1)
    && (threshold > 512 ==> 256 * (threshold - d) <= d)
  }

  lemma Pow2Shift8(m: nat)
    requires m >= 8
    ensures Pow(2, m) == 256 * Pow(2, m - 8)
  {
    assert Pow(2, m) == 4 * Pow(2, m - 2);
    assert Pow(2, m - 2) == 4 * Pow(2, m - 4);
    assert Pow(2, m - 4) == 4 * Pow(2, m - 6);
    assert Pow(2, m - 6) == 4 * Pow(2, m - 8);
  }

  lemma ErrorBound(threshold: nat, m: nat, d: nat)
    requires Pow(2, m) < threshold <= 2 * Pow(2, m) && Pow(2, m) <= d < threshold
    requires m <= PRECISION ==> d == threshold - 1
    requires m >= PRECISION ==> threshold - d <= Pow(2, m - PRECISION)
    ensures Calibrated(threshold, d)
  {
    assert Pow(2, 8) == 256;
    if m <= 8 {
      PowGrows(2, m, 8);
    } else {
      PowGrows(2, 9, m);
      assert Pow(2, 9) == 512;
      Pow2Shift8(m);
    }
  }

  /** The whole calibration; `d` is the count before the division into milliseconds. */
  method CalibrateDelayLoop(threshold: nat) returns (d: nat, perMillisecond: nat)
    requires threshold <= 0x8000_0000
    ensures threshold >= 2 ==> Calibrated(threshold, d)
    ensures threshold < 2 ==> d == 1
    ensures perMillisecond == d / 10
  {
    ghost var m;
    d, m := Coarse(threshold);
    if m > 0 { PowGrows(2, 1, m); }
    d := Fine(threshold, d, m);
    if threshold >= 2 {
      ErrorBound(threshold, m, d);
    }
    perMillisecond := d / MILLISEC;
  }

  /** The 32-bit counter after k doublings. */
  function Doubled(k: nat): nat {
    if k == 0 then 1 else Doubled(k - 1) * 2 % WORD
  }

  lemma Pow2Bound(k: nat)
    requires k <= 31
    ensures Pow(2, k) <= 0x8000_0000 && (k == 31 ==> Pow(2, k) == 0x8000_0000)
  {
    Pow2Of31();
    PowGrows(2, k, 31);
  }

  /** The coarse stage ends for exactly the thresholds up to 2^31: beyond, the counter wraps to zero
      before it is ever too long. */
  lemma CoarseEndsExactlyUpTo31Bits(threshold: nat)
    ensures (exists k: nat :: k > 0 && Spans(threshold, Doubled(k))) <==> threshold <= 0x8000_0000
  {
    if threshold <= 0x8000_0000 {
      var k := 31;
      DoubledValue(k);
      Pow2Bound(k);
      assert Spans(threshold, Doubled(k));
    } else {
      forall k: nat ensures !Spans(threshold, Doubled(k)) {
        DoubledValue(k);
        if k < 32 { Pow2Bound(k); }
      }
    }
  }

  lemma DoubleStep(x: nat)
    requires x <= 0x8000_0000
    ensures x * 2 % WORD == if x == 0x8000_0000 then 0 else 2 * x
  {}

  lemma {:induction false} DoubledValue(k: nat)
    ensures Doubled(k) == if k < 32 then Pow(2, k) else 0
  {
    if k > 0 {
      DoubledValue(k - 1);
      if k <= 32 {
        Pow2Bound(k - 1);
      }
      if k < 32 {
        Pow2Bound(k);
      }
      DoubleStep(Doubled(k - 1));
    }
  }
}
