/** The retarget arithmetic, with the machine widths it is done in. */
module Difficulty {
  import opened Bytes
  import opened Types

  const TWO32: nat := 0x1_0000_0000
  const TWO64: nat := 0x1_0000_0000_0000_0000
  const MANTISSA_CAP: nat := 0x7fffff
  const EASY_MINE_DIFFICULTY: u32 := 0x0400ffff
  const INITIAL_DIFFICULTY: u32 := 0x1d00ffff

  /** Seconds the blocks of one interval should take. */
  function TargetTime(numBlocks: u32): nat
    requires numBlocks > 0
  {
    BLOCK_TIME_TARGET as int * (numBlocks - 1)
  }

  function Clamp(x: nat, low: nat, high: nat): nat {
    var y := if x < low then low else x;
    if y > high then high else y
  }

  /** The old exponent byte with a new mantissa, capped at 23 bits. */
  function WithMantissa(current: u32, mantissa: nat): u32 {
    current / 0x100_0000 * 0x100_0000 + if mantissa > MANTISSA_CAP then MANTISSA_CAP else mantissa
  }

  /** One block makes the divisor zero, which the program leaves undefined. */
  function NextDifficulty(current: u32, last: u64, first: u64, numBlocks: u32): u32
    requires numBlocks != 1
  {
    if numBlocks == 0 || first >= last then current else
    var t := TargetTime(numBlocks);
    var elapsed := Clamp(last - first, t / 4, t * 4);
    WithMantissa(current, Quotient(current as int * elapsed % TWO64, t))
  }

  /** The elapsed time is a 64-bit difference: a last block older than the first one wraps around. */
  function Elapsed(last: u64, first: u64): (e: nat)
    ensures e < TWO64
  {
    (last - first) % TWO64
  }

  function AdaptiveNextDifficulty(current: u32, last: u64, first: u64, numBlocks: u32, height: nat): u32
    requires numBlocks > 1
  {
    var base := NextDifficulty(current, last, first, numBlocks);
    var elapsed := Elapsed(last, first);
    var t := TargetTime(numBlocks);
    var emergency: u32 :=
      if elapsed < t / 8 then (if base * 4 % TWO32 > base then base * 4 % TWO32 else base)
      else if elapsed > t * 8 then (if base / 4 < base then base / 4 else base)
      else base;
    if height < 10000 then
      if elapsed < t / 2 then emergency * 2 % TWO32
      else if elapsed > t * 2 then emergency / 2
      else emergency
    else emergency
  }

  const INTERVAL_TIME: nat := 600 * 2015

  lemma IntervalTime()
    ensures TargetTime(DIFFICULTY_INTERVAL) == INTERVAL_TIME == 1_209_000
  {
  }

  /**
   Over an interval of 2016 blocks the product stays below 2^64, the exponent byte is kept, and the
   new mantissa is the old compact number (exponent byte included) scaled by the clamped time.
   */
  lemma NextDifficultyExact(current: u32, last: u64, first: u64)
    requires first < last
    ensures var e := Clamp(last - first, 302_250, 4_836_000);
            var next := NextDifficulty(current, last, first, DIFFICULTY_INTERVAL);
            && current as int * e < TWO64
            && next / 0x100_0000 == current / 0x100_0000
            && next % 0x100_0000 == (if current as int * e / 1_209_000 > MANTISSA_CAP
                                     then MANTISSA_CAP else current as int * e / 1_209_000)
  {
    IntervalTime();
    var e := Clamp(last - first, 302_250, 4_836_000);
    ProductBound(current, e);
    var s := current as int * e / 1_209_000;
    var m := if s > MANTISSA_CAP then MANTISSA_CAP else s;
    assert NextDifficulty(current, last, first, DIFFICULTY_INTERVAL) == current / 0x100_0000 * 0x100_0000 + m;
  }

  lemma ProductBound(c: u32, e: nat)
    requires e <= 4_836_000
    ensures 0 <= c as int * e <= 0x1_0000_0000 * 4_836_000
  {
    assert c as int * e <= 0x1_0000_0000 * e;
  }

  /** More time never makes the target smaller. */
  lemma NextDifficultyMonotone(current: u32, last: u64, last': u64, first: u64)
    requires first < last <= last'
    ensures NextDifficulty(current, last, first, DIFFICULTY_INTERVAL)
         <= NextDifficulty(current, last', first, DIFFICULTY_INTERVAL)
  {
    NextDifficultyExact(current, last, first);
    NextDifficultyExact(current, last', first);
    var e, e' := Clamp(last - first, 302_250, 4_836_000), Clamp(last' - first, 302_250, 4_836_000);
    ScaledMonotone(current, e, e');
  }

  lemma ScaledMonotone(c: nat, e: nat, e': nat)
    requires e <= e'
    ensures c * e / 1_209_000 <= c * e' / 1_209_000
  {
    assert c * e <= c * e';
  }

  /**
   The documented retarget makes the new target follow the time the interval took. Because the whole
   compact number is scaled, the time has no influence exactly from 0x01fffffc on: there every positive
   timespan saturates the mantissa, and below it some timespan does not.
   */
  lemma TimespanIgnoredExactly(current: u32)
    ensures (forall last: u64, first: u64 :: first < last ==>
               NextDifficulty(current, last, first, DIFFICULTY_INTERVAL) % 0x100_0000 == MANTISSA_CAP)
       <==> current >= 0x1ff_fffc
  {
    if current >= 0x1ff_fffc {
      forall last: u64, first: u64 | first < last
        ensures NextDifficulty(current, last, first, DIFFICULTY_INTERVAL) % 0x100_0000 == MANTISSA_CAP
      {
        NextDifficultyExact(current, last, first);
        var e := Clamp(last - first, 302_250, 4_836_000);
        ScaledMonotone(current, 302_250, e);
      }
    } else {
      NextDifficultyExact(current, 1, 0);
      assert Clamp(1, 302_250, 4_836_000) == 302_250;
      assert NextDifficulty(current, 1, 0, DIFFICULTY_INTERVAL) % 0x100_0000 < MANTISSA_CAP;
    }
  }

  // ---------- the adaptive rule ----------

  /** The numbers below 2^32 that grow when doubled in 32 bits. */
  predicate DoubleGrows(n: u32) { 0 < n < 0x8000_0000 }

  /** Those that grow when quadrupled in 32 bits. */
  predicate QuadrupleGrows(n: u32) {
    0 < n < 0x4000_0000 || 0x5555_5556 <= n < 0x8000_0000 || 0xaaaa_aaab <= n < 0xc000_0000
  }

  /** Those that grow when quadrupled if that makes them grow, and doubled after that. */
  predicate EightfoldGrows(n: u32) {
    || 0 < n < 0x2000_0000 || 0x2492_4925 <= n < 0x6000_0000
    || 0x6db6_db6e <= n < 0x8000_0000 || 0xb6db_6db7 <= n < 0xc000_0000
  }

  /** What an interval too short makes of the basic retarget. */
  function Shortened(n: u32, e: nat, height: nat): u32 {
    var emergency := if e < 151_125 && QuadrupleGrows(n) then n * 4 % TWO32 else n;
    if height < 10000 then emergency * 2 % TWO32 else emergency
  }

  /** What an interval too long makes of it. */
  function Lengthened(n: u32, e: nat, height: nat): u32 {
    var emergency := if e > 9_672_000 then n / 4 else n;
    if height < 10000 then emergency / 2 else emergency
  }

  lemma QuadrupleExact(n: u32)
    ensures n * 4 % TWO32 > n <==> QuadrupleGrows(n)
  {
    var k := n / 0x4000_0000;
    assert n * 4 % TWO32 == n * 4 - k * TWO32 by {
      assert k == 0 || k == 1 || k == 2 || k == 3;
    }
  }

  lemma AdaptiveExact(current: u32, last: u64, first: u64, height: nat)
    ensures var next := NextDifficulty(current, last, first, DIFFICULTY_INTERVAL);
            AdaptiveNextDifficulty(current, last, first, DIFFICULTY_INTERVAL, height)
            == var e := Elapsed(last, first);
               if e < 604_500 then Shortened(next, e, height)
               else if e > 2_418_000 then Lengthened(next, e, height) else next
  {
    IntervalTime();
    QuadrupleExact(NextDifficulty(current, last, first, DIFFICULTY_INTERVAL));
  }

  lemma DoubleExact(n: u32)
    ensures n * 2 % TWO32 > n <==> DoubleGrows(n)
    ensures n * 2 % TWO32 == n <==> n == 0
  {
  }

  lemma EightfoldExact(n: u32)
    ensures Shortened(n, 0, 0) > n <==> EightfoldGrows(n)
    ensures Shortened(n, 0, 0) == n <==> n == 0
  {
    DoubleExact(n);
    if QuadrupleGrows(n) {
      var k := n / 0x2000_0000;
      assert n * 4 % TWO32 * 2 % TWO32 == n * 8 - k * TWO32 by {
        assert 0 <= k <= 5;
        assert n * 4 % TWO32 == n * 4 - k / 2 * TWO32;
      }
    }
  }

  /** The fast intervals whose retarget lies above the basic one. */
  predicate FastRaises(n: u32, e: nat, height: nat) {
    if height >= 10000 then e < 151_125 && QuadrupleGrows(n)
    else if e < 151_125 then EightfoldGrows(n) else DoubleGrows(n)
  }

  /**
   The rule is described as making fast intervals harder and slow ones easier. It adds nothing between
   half and twice the planned time. A slow interval never raises the basic target and lowers it unless
   it is zero (past the early phase, from eight times the planned time on). A fast one raises it exactly
   for the targets whose multiple does not wrap in 32 bits below them, and in the early phase lowers all others.
   */
  lemma AdaptiveDirection(current: u32, last: u64, first: u64, height: nat)
    ensures var next := NextDifficulty(current, last, first, DIFFICULTY_INTERVAL);
            var adaptive := AdaptiveNextDifficulty(current, last, first, DIFFICULTY_INTERVAL, height);
            var e := Elapsed(last, first);
            && (604_500 <= e <= 2_418_000 ==> adaptive == next)
            && (e < 604_500 ==>
                  && (adaptive > next <==> FastRaises(next, e, height))
                  && (adaptive < next <==> height < 10000 && next != 0 && !FastRaises(next, e, height)))
            && (e > 2_418_000 ==>
                  && adaptive <= next
                  && (adaptive < next <==> next > 0 && (height < 10000 || e > 9_672_000)))
  {
    var next := NextDifficulty(current, last, first, DIFFICULTY_INTERVAL);
    var e := Elapsed(last, first);
    AdaptiveExact(current, last, first, height);
    QuadrupleExact(next);
    DoubleExact(next);
    EightfoldExact(next);
    assert height < 10000 && e < 151_125 ==> Shortened(next, e, height) == Shortened(next, 0, 0);
  }

  // ---------- what it does to targets of ordinary size ----------

  /** Over a forward interval of less than a quarter of the planned time, the basic retarget saturates. */
  lemma FastSaturates(current: u32, last: u64, first: u64)
    requires current >= 0x1ff_fffc && 0 < last - first
    ensures NextDifficulty(current, last, first, DIFFICULTY_INTERVAL)
         == current / 0x100_0000 * 0x100_0000 + MANTISSA_CAP
    ensures Elapsed(last, first) == last - first
  {
    TimespanIgnoredExactly(current);
    NextDifficultyExact(current, last, first);
  }

  /** The size bytes whose saturated targets grow: past the early phase and within it. */
  predicate SizeGrowsLate(n: nat) { n < 64 || 85 <= n < 128 || 171 <= n < 192 }

  predicate SizeGrowsEarly(n: nat) { n < 32 || 37 <= n < 96 || 110 <= n < 128 || 183 <= n < 192 }

  /**
   For targets from 0x01fffffc on, an interval eight times too fast raises the saturated target exactly
   for these size bytes.
   */
  lemma FastRaisesBySize(current: u32, last: u64, first: u64, height: nat)
    requires current >= 0x1ff_fffc && 0 < last - first < 151_125
    ensures AdaptiveNextDifficulty(current, last, first, DIFFICULTY_INTERVAL, height)
          > NextDifficulty(current, last, first, DIFFICULTY_INTERVAL)
        <==> if height >= 10000 then SizeGrowsLate(current / 0x100_0000) else SizeGrowsEarly(current / 0x100_0000)
  {
    FastSaturates(current, last, first);
    AdaptiveDirection(current, last, first, height);
  }

  /** In the early phase such an interval multiplies the size byte by eight, modulo 256, and adds three. */
  lemma FastEarlyTarget(current: u32, last: u64, first: u64, height: nat)
    requires current >= 0x1ff_fffc && 0 < last - first < 151_125 && height < 10000
    requires SizeGrowsLate(current / 0x100_0000)
    ensures AdaptiveNextDifficulty(current, last, first, DIFFICULTY_INTERVAL, height)
         == (8 * (current / 0x100_0000) + 3) % 256 * 0x100_0000 + 0xff_fff8
  {
    FastSaturates(current, last, first);
    AdaptiveExact(current, last, first, height);
    EightfoldOfSaturated(current / 0x100_0000);
  }

  lemma EightfoldOfSaturated(n: nat)
    requires n < 256 && SizeGrowsLate(n)
    ensures QuadrupleGrows(n * 0x100_0000 + MANTISSA_CAP)
    ensures (n * 0x100_0000 + MANTISSA_CAP) * 4 % TWO32 * 2 % TWO32
         == (8 * n + 3) % 256 * 0x100_0000 + 0xff_fff8
  {
    FourfoldOfSaturated(n);
    TwofoldOfSaturated((4 * n + 1) % 256);
    SizeWraps(n);
  }

  lemma TwofoldOfSaturated(m: nat)
    requires m < 256
    ensures (m * 0x100_0000 + 0xff_fffc) * 2 % TWO32 == (2 * m + 1) % 256 * 0x100_0000 + 0xff_fff8
  {
  }

  lemma SizeWraps(n: nat)
    ensures (2 * ((4 * n + 1) % 256) + 1) % 256 == (8 * n + 3) % 256
  {
    var q, r := (4 * n + 1) / 256, (4 * n + 1) % 256;
    UniqueRemainder(8 * n + 3, 256, 2 * q + (2 * r + 1) / 256, (2 * r + 1) % 256);
  }

  lemma FourfoldOfSaturated(n: nat)
    requires n < 256
    ensures (n * 0x100_0000 + MANTISSA_CAP) * 4 % TWO32 == (4 * n + 1) % 256 * 0x100_0000 + 0xff_fffc
  {
  }

  /**
   Retargeting the miner's easy target gives it back only when the clock ran backwards so far that the
   64-bit difference wraps to about one interval.
   */
  lemma EasyTargetRepeatedExactly(last: u64, first: u64, height: nat)
    requires height < 10000
    ensures AdaptiveNextDifficulty(EASY_MINE_DIFFICULTY, last, first, DIFFICULTY_INTERVAL, height)
         == EASY_MINE_DIFFICULTY
        <==> last < first && 604_500 <= Elapsed(last, first) <= 2_418_000
  {
    IntervalTime();
    if first < last {
      NextDifficultyExact(EASY_MINE_DIFFICULTY, last, first);
      ScaledMonotone(EASY_MINE_DIFFICULTY, 302_250, Clamp(last - first, 302_250, 4_836_000));
      assert NextDifficulty(EASY_MINE_DIFFICULTY, last, first, DIFFICULTY_INTERVAL) == 0x047fffff;
    }
  }
}
