/** The emission schedule. */
module Subsidy {
  import opened Bytes
  import opened Types

  const SUPPLY_CAP: nat := 10_500_000 * COIN

  function Halved(x: nat, times: nat): (r: nat)
    ensures r <= x
  {
    if times == 0 then x else Halved(x, times - 1) / 2
  }

  /** The reward at a height: the first reward shifted right once per era, nothing from era 32 on. */
  function BlockSubsidy(height: nat): (subsidy: nat)
    ensures subsidy <= INITIAL_BLOCK_SUBSIDY
  {
    var halvings := height / SUBSIDY_HALVING_INTERVAL;
    if halvings >= 32 then 0 else Halved(INITIAL_BLOCK_SUBSIDY, halvings)
  }

  /** All rewards up to and including a height. */
  function SupplyUpTo(height: nat): nat {
    (if height == 0 then 0 else SupplyUpTo(height - 1)) + BlockSubsidy(height)
  }

  /** Reward of an era, without the cut-off. */
  function Era(k: nat): nat { Halved(INITIAL_BLOCK_SUBSIDY, k) }

  function EraSum(q: nat): nat { if q == 0 then 0 else EraSum(q - 1) + Era(q - 1) }

  lemma TwoEras(k: nat, x: nat, s: nat)
    requires Era(k) == x && EraSum(k) == s
    ensures Era(k + 2) == x / 4 && EraSum(k + 2) == s + x + x / 2
  {
    assert Era(k + 1) == x / 2 && EraSum(k + 1) == s + x;
    assert Era(k + 2) == Era(k + 1) / 2;
  }

  /** Four eras at once, from a known reward x and a known sum s. */
  lemma FourEras(k: nat, x: nat, s: nat)
    requires Era(k) == x && EraSum(k) == s
    ensures Era(k + 4) == x / 16
    ensures EraSum(k + 4) == s + x + x / 2 + x / 4 + x / 8
  {
    TwoEras(k, x, s);
    TwoEras(k + 2, x / 4, s + x + x / 2);
  }

  /** Sixteen eras on from the first. */
  lemma MiddleEras(k: nat)
    requires Era(k) == 2_500_000_000 && EraSum(k) == 0
    ensures Era(k + 16) == 38_146 && EraSum(k + 16) == 4_999_923_702
  {
    FourEras(k, 2_500_000_000, 0);
    FourEras(k + 4, 156_250_000, 4_687_500_000);
    FourEras(k + 8, 9_765_625, 4_980_468_750);
    FourEras(k + 12, 610_351, 4_998_779_296);
  }

  lemma LastEras(k: nat)
    requires Era(k) == 2_500_000_000 && EraSum(k) == 0
    ensures Era(k + 28) == 9 && Era(k + 32) == 0 && EraSum(k + 32) == 4_999_999_989
  {
    MiddleEras(k);
    FourEras(k + 16, 38_146, 4_999_923_702);
    FourEras(k + 20, 2_384, 4_999_995_225);
    FourEras(k + 24, 149, 4_999_999_695);
    FourEras(k + 28, 9, 4_999_999_973);
  }

  lemma {:induction false} ErasEnd(k: nat)
    requires k >= 32
    ensures Era(k) == 0 && EraSum(k) == 4_999_999_989
    decreases k
  {
    if k == 32 {
      LastEras(0);
    } else {
      ErasEnd(k - 1);
    }
  }

  /** The cut-off at 32 halvings changes nothing: the shift has already reached zero. */
  lemma SubsidyOfEra(q: nat, r: nat)
    requires r < 210_000
    ensures BlockSubsidy(q * 210_000 + r) == Era(q)
  {
    assert SUBSIDY_HALVING_INTERVAL == 210_000;
    assert (q * 210_000 + r) / 210_000 == q;
    if q >= 32 {
      ErasEnd(q);
    }
  }

  /** Whole eras, then the blocks of the current one. */
  function Closed(q: nat, r: nat): nat { 210_000 * EraSum(q) + (r + 1) * Era(q) }

  lemma ClosedNext(q: nat, r: nat)
    requires r > 0
    ensures Closed(q, r) == Closed(q, r - 1) + Era(q)
  {
  }

  lemma ClosedNextEra(q: nat)
    requires q > 0
    ensures Closed(q, 0) == Closed(q - 1, 209_999) + Era(q)
  {
  }

  lemma NextInEra(height: nat, q: nat, r: nat)
    requires 0 < r < 210_000 && height == q * 210_000 + r && SupplyUpTo(height - 1) == Closed(q, r - 1)
    ensures SupplyUpTo(height) == Closed(q, r)
  {
    SupplyGrows(height, q, r);
    ClosedNext(q, r);
  }

  lemma FirstOfEra(height: nat, q: nat)
    requires q > 0 && height == q * 210_000 && SupplyUpTo(height - 1) == Closed(q - 1, 209_999)
    ensures SupplyUpTo(height) == Closed(q, 0)
  {
    SupplyGrows(height, q, 0);
    ClosedNextEra(q);
  }

  lemma FirstOfAll()
    ensures SupplyUpTo(0) == Closed(0, 0)
  {
    SubsidyOfEra(0, 0);
  }

  lemma {:induction false} ClosedFormAt(height: nat, q: nat, r: nat)
    requires r < 210_000 && height == q * 210_000 + r
    ensures SupplyUpTo(height) == Closed(q, r)
    decreases height
  {
    if r > 0 {
      ClosedFormAt(height - 1, q, r - 1);
      NextInEra(height, q, r);
    } else if q > 0 {
      ClosedFormAt(height - 1, q - 1, 209_999);
      FirstOfEra(height, q);
    } else {
      FirstOfAll();
    }
  }

  /** The total issued in closed form. */
  lemma SupplyClosedForm(q: nat, r: nat)
    requires r < 210_000
    ensures SupplyUpTo(q * 210_000 + r) == 210_000 * EraSum(q) + (r + 1) * Era(q)
  {
    ClosedFormAt(q * 210_000 + r, q, r);
  }

  lemma SupplyGrows(height: nat, q: nat, r: nat)
    requires r < 210_000 && height == q * 210_000 + r > 0
    ensures SupplyUpTo(height) == SupplyUpTo(height - 1) + Era(q)
  {
    SubsidyOfEra(q, r);
  }

  lemma {:induction false} ErasBounded(q: nat)
    ensures EraSum(q) + 2 * Era(q) <= 2 * INITIAL_BLOCK_SUBSIDY
  {
    if q > 0 {
      ErasBounded(q - 1);
    }
  }

  /** The total issued never reaches 10.5 million coins, and from era 32 on it is one fixed number. */
  lemma SupplyBounded(height: nat)
    ensures SupplyUpTo(height) < SUPPLY_CAP < MAX_MONEY
    ensures height >= 32 * 210_000 ==> SupplyUpTo(height) == 1_049_999_997_690_000
  {
    var q, r := height / 210_000, height % 210_000;
    SupplyClosedForm(q, r);
    if q >= 32 {
      ErasEnd(q);
    } else {
      EraPositive(q);
      ErasBounded(q);
      ProductGrows(r + 1, 210_000, Era(q));
    }
  }

  lemma {:induction false} EraPositive(q: nat)
    requires q < 32
    ensures Era(q) > 0
    decreases 32 - q
  {
    if q == 31 {
      LastEras(0);
      assert Era(29) == 4 && Era(30) == 2 && Era(31) == Era(30) / 2;
    } else {
      EraPositive(q + 1);
      assert Era(q + 1) == Era(q) / 2;
    }
  }

  lemma {:induction false} SupplyMonotone(low: nat, high: nat)
    requires low <= high
    ensures SupplyUpTo(low) <= SupplyUpTo(high)
    decreases high - low
  {
    if low < high {
      SupplyMonotone(low, high - 1);
    }
  }

  method GetBlockSubsidy(height: u64) returns (subsidy: u64)
    ensures subsidy == BlockSubsidy(height)
  {
    var halvings := height / SUBSIDY_HALVING_INTERVAL;
    if halvings >= 32 { return 0; }
    subsidy := INITIAL_BLOCK_SUBSIDY;
    for i := 0 to halvings
      invariant subsidy == Halved(INITIAL_BLOCK_SUBSIDY, i)
    {
      subsidy := subsidy / 2;
    }
  }

  /**
   The loop over all heights never wraps its 64-bit total. Its condition `h <= height` cannot fail at
   the largest 64-bit height, for which the program does not return.
   */
  method GetTotalSupplyUpTo(height: u64) returns (total: u64)
    requires height < 0xffff_ffff_ffff_ffff
    ensures total == SupplyUpTo(height)
  {
    total := 0;
    var h: u64 := 0;
    while h <= height
      invariant h <= height + 1
      invariant total == if h == 0 then 0 else SupplyUpTo(h - 1)
      decreases height + 1 - h
    {
      var s := GetBlockSubsidy(h);
      SupplyBounded(h);
      total := total + s;
      h := h + 1;
    }
  }
}
