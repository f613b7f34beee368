/** The block reward schedule and the supply it mints. */
module Emission {
  import opened Prelude

  const GENESIS_BLOCK_REWARD: u64 := 50_000_000_000

  /** Epoch heights from which the halving count no longer fits the `u32` it is cast to:
      290,000 times two to the 32nd. */
  const CAST_LIMIT: int := 1_245_540_515_840_000

  /** All that mining ever issues while the cast is exact. */
  const EMISSION_CAP: int := 28_999_999_995_650_000

  /** Bits shifted out one at a time. */
  function Halved(n: nat, k: nat): nat {
    if k == 0 then n else Halved(n / 2, k - 1)
  }

  lemma {:induction false} HalvedBounds(n: nat, k: nat)
    ensures Halved(n, k) <= n
  {
    if k != 0 {
      HalvedBounds(n / 2, k - 1);
    }
  }

  /** One halving per 290,000 epoch heights. */
  function Halvings(height: nat): nat {
    height / 290_000
  }

  /** `checked_shr`: none when the shift is at least the width. */
  function CheckedShr(n: u64, count: u32): Option<u64> {
    HalvedBounds(n, count);
    if count < 64 then Some(Halved(n, count)) else None
  }

  function BlockReward(height: u64): u64 {
    var halvings: u32 := Halvings(height) % TWO_32;
    match CheckedShr(GENESIS_BLOCK_REWARD, halvings)
    case Some(reward) => reward
    case None => 0
  }

  /** Rewards of the epoch heights 0 to `height`, as integers. */
  function RewardSum(height: u64): nat {
    BlockReward(height) + if height == 0 then 0 else RewardSum(height - 1)
  }

  /** `calculate_mined_supply`: a saturating running sum. The counter is itself a `u64`, so the
      loop ends only for heights below the largest one. */
  method CalculateMinedSupply(epochBlockHeight: u64) returns (total: u64)
    requires epochBlockHeight < U64_MAX
    ensures total == if RewardSum(epochBlockHeight) > U64_MAX then U64_MAX else RewardSum(epochBlockHeight)
  {
    total := 0;
    var height: u64 := 0;
    while height <= epochBlockHeight
      invariant height <= epochBlockHeight + 1
      invariant var exact := if height == 0 then 0 else RewardSum(height - 1);
        total == if exact > U64_MAX then U64_MAX else exact
    {
      total := SatAdd(total, BlockReward(height));
      height := height + 1;
    }
  }

  /* ---------- Closed form ---------- */

  /** The sum of n, n/2, n/4, ... with every quotient rounded down. */
  function HalvingSum(n: nat): nat {
    if n == 0 then 0 else n + HalvingSum(n / 2)
  }

  function OneBits(n: nat): nat {
    if n == 0 then 0 else n % 2 + OneBits(n / 2)
  }

  lemma {:induction false} HalvingSumIsTwiceLessBits(n: nat)
    ensures HalvingSum(n) + OneBits(n) == 2 * n
  {
    if n != 0 {
      HalvingSumIsTwiceLessBits(n / 2);
    }
  }

  lemma {:induction false} HalvedStep(n: nat, k: nat)
    ensures Halved(n, k + 1) == Halved(n, k) / 2
  {
    if k != 0 {
      HalvedStep(n / 2, k - 1);
    }
  }

  /** Splitting the sum after `k` halvings. */
  function FirstHalvings(n: nat, k: nat): nat {
    if k == 0 then 0 else FirstHalvings(n, k - 1) + Halved(n, k - 1)
  }

  lemma {:induction false} HalvingSumSplit(n: nat, k: nat)
    ensures HalvingSum(n) == FirstHalvings(n, k) + HalvingSum(Halved(n, k))
  {
    if k != 0 {
      HalvingSumSplit(n, k - 1);
      HalvedStep(n, k - 1);
    }
  }

  lemma {:induction false} HalvedAdd(n: nat, j: nat, k: nat)
    ensures Halved(n, j + k) == Halved(Halved(n, j), k)
    decreases j
  {
    if j != 0 {
      HalvedAdd(n / 2, j - 1, k);
    }
  }

  lemma {:induction false} HalvedZero(k: nat)
    ensures Halved(0, k) == 0
  {
    if k != 0 {
      HalvedZero(k - 1);
    }
  }

  lemma AppendBit(m: nat, bit: nat)
    requires bit < 2
    ensures OneBits(2 * m + bit) == OneBits(m) + bit
  {
    assert (2 * m + bit) / 2 == m;
  }

  lemma AppendTwoBits(m: nat, b: nat, a: nat)
    requires a < 2 && b < 2
    ensures OneBits(2 * (2 * m + b) + a) == OneBits(m) + b + a
  {
    AppendBit(m, b);
    AppendBit(2 * m + b, a);
  }

  /** Four more binary digits. */
  lemma AppendNibble(m: nat, d: nat, c: nat, b: nat, a: nat)
    requires a < 2 && b < 2 && c < 2 && d < 2
    ensures OneBits(2 * (2 * (2 * (2 * m + d) + c) + b) + a) == OneBits(m) + d + c + b + a
  {
    AppendTwoBits(m, d, c);
    AppendTwoBits(2 * (2 * m + d) + c, b, a);
  }

  lemma DropTwoBits(m: nat, x: nat, k: nat)
    requires x < 4
    ensures Halved(4 * m + x, k + 2) == Halved(m, k)
  {
    assert (4 * m + x) / 2 == 2 * m + x / 2 && (2 * m + x / 2) / 2 == m;
    assert Halved(4 * m + x, k + 2) == Halved(2 * m + x / 2, k + 1);
  }

  /** Four halvings drop them again. */
  lemma DropNibble(m: nat, x: nat, k: nat)
    requires x < 16
    ensures Halved(16 * m + x, k + 4) == Halved(m, k)
  {
    DropTwoBits(4 * m + x / 4, x % 4, k + 2);
    DropTwoBits(m, x / 4, k);
  }

  lemma GenesisRewardHighBits()
    ensures OneBits(0xBA43) == 8
  {
    AppendNibble(0, 1, 0, 1, 1);
    AppendNibble(0xB, 1, 0, 1, 0);
    AppendNibble(0xBA, 0, 1, 0, 0);
    AppendNibble(0xBA4, 0, 0, 1, 1);
  }

  /** The genesis reward is 0xBA43B7400: 15 one bits. */
  lemma GenesisRewardBits()
    ensures OneBits(GENESIS_BLOCK_REWARD) == 15
  {
    GenesisRewardHighBits();
    AppendNibble(0xBA43, 1, 0, 1, 1);
    AppendNibble(0xBA43B, 0, 1, 1, 1);
    AppendNibble(0xBA43B7, 0, 1, 0, 0);
    AppendNibble(0xBA43B74, 0, 0, 0, 0);
    AppendNibble(0xBA43B740, 0, 0, 0, 0);
  }

  /** 35 halvings leave one unit of it. */
  lemma GenesisRewardLastUnit()
    ensures Halved(GENESIS_BLOCK_REWARD, 35) == 1
  {
    DropNibble(0xBA43B740, 0, 31);
    DropNibble(0xBA43B74, 0, 27);
    DropNibble(0xBA43B7, 4, 23);
    DropNibble(0xBA43B, 7, 19);
    DropNibble(0xBA43, 0xB, 15);
    DropNibble(0xBA4, 3, 11);
    DropNibble(0xBA, 4, 7);
    DropNibble(0xB, 0xA, 3);
    assert Halved(0xB, 3) == 1;
  }

  lemma HalvedAfterOne(n: nat, j: nat, k: nat)
    requires Halved(n, j) == 1 && j < k
    ensures Halved(n, k) == 0
  {
    HalvedAdd(n, j, k - j);
    HalvedZero(k - j - 1);
  }

  lemma GenesisRewardHalved(k: nat)
    ensures k >= 36 ==> Halved(GENESIS_BLOCK_REWARD, k) == 0
  {
    if k >= 36 {
      GenesisRewardLastUnit();
      HalvedAfterOne(GENESIS_BLOCK_REWARD, 35, k);
    }
  }

  /** Below the cast limit the reward is the genesis reward halved once per interval. */
  lemma RewardFormula(height: u64)
    requires height < CAST_LIMIT
    ensures BlockReward(height) == Halved(GENESIS_BLOCK_REWARD, Halvings(height))
  {
    var count := Halvings(height);
    GenesisRewardHalved(count);
  }

  /** At every height: the genesis reward of 50 KYV, halved once per 290,000 heights, with the number of
      halvings cut down to 32 bits. */
  lemma RewardExactly(height: u64)
    ensures BlockReward(height) == Halved(50_000_000_000, height / 290_000 % TWO_32)
  {
    GenesisRewardHalved(Halvings(height) % TWO_32);
  }

  lemma RewardBounded(height: u64)
    ensures BlockReward(height) <= GENESIS_BLOCK_REWARD
  {
    HalvedBounds(GENESIS_BLOCK_REWARD, Halvings(height) % TWO_32);
  }

  lemma {:induction false} HalvedDecreases(n: nat, k: nat, j: nat)
    requires k <= j
    ensures Halved(n, j) <= Halved(n, k)
    decreases j
  {
    if k < j {
      HalvedStep(n, j - 1);
      HalvedDecreases(n, k, j - 1);
    }
  }

  /** Rewards never increase while the cast is exact; at the limit they start over. */
  lemma RewardsNeverIncrease(h: u64, h': u64)
    requires h <= h' < CAST_LIMIT
    ensures BlockReward(h') <= BlockReward(h)
    ensures BlockReward(CAST_LIMIT) == GENESIS_BLOCK_REWARD
  {
    RewardFormula(h);
    RewardFormula(h');
    HalvedDecreases(GENESIS_BLOCK_REWARD, Halvings(h), Halvings(h'));
    assert Halvings(CAST_LIMIT) == TWO_32;
  }

  /** Whole intervals of past rewards plus the current interval so far. */
  function ClosedForm(height: nat): nat {
    var q := Halvings(height);
    290_000 * FirstHalvings(GENESIS_BLOCK_REWARD, q) + (height % 290_000 + 1) * Halved(GENESIS_BLOCK_REWARD, q)
  }

  lemma ClosedFormStep(height: nat)
    requires height > 0
    ensures ClosedForm(height) == ClosedForm(height - 1) + Halved(GENESIS_BLOCK_REWARD, Halvings(height))
  {
    var q, r := Halvings(height), height % 290_000;
    if r == 0 {
      assert Halvings(height - 1) == q - 1 && (height - 1) % 290_000 == 289_999;
    } else {
      assert Halvings(height - 1) == q && (height - 1) % 290_000 == r - 1;
      DistributeOver(r, Halved(GENESIS_BLOCK_REWARD, q));
    }
  }

  lemma DistributeOver(r: nat, x: nat)
    ensures r * x + x == (r + 1) * x
  {
  }

  lemma {:induction false} RewardSumClosedForm(height: u64)
    requires height < CAST_LIMIT
    ensures RewardSum(height) == ClosedForm(height)
    decreases height
  {
    RewardFormula(height);
    if height != 0 {
      RewardSumClosedForm(height - 1);
      ClosedFormStep(height);
    }
  }

  lemma {:induction false} RewardSumMonotone(h: u64, h': u64)
    requires h <= h'
    ensures RewardSum(h) <= RewardSum(h')
    decreases h'
  {
    if h < h' {
      RewardSumMonotone(h, h' - 1);
    }
  }

  lemma HalvingSumOfGenesisReward()
    ensures 290_000 * HalvingSum(GENESIS_BLOCK_REWARD) == EMISSION_CAP
  {
    GenesisRewardBits();
    HalvingSumIsTwiceLessBits(GENESIS_BLOCK_REWARD);
  }

  /** All the rewards of the schedule, whole intervals at a time. */
  lemma FirstHalvingsOfGenesisReward(q: nat)
    ensures q == 35 ==> 290_000 * FirstHalvings(GENESIS_BLOCK_REWARD, q) == EMISSION_CAP - 290_000
    ensures q >= 36 ==> 290_000 * FirstHalvings(GENESIS_BLOCK_REWARD, q) == EMISSION_CAP
  {
    HalvingSumOfGenesisReward();
    HalvingSumSplit(GENESIS_BLOCK_REWARD, q);
    GenesisRewardLastUnit();
    GenesisRewardHalved(q);
    assert HalvingSum(1) == 1 && HalvingSum(0) == 0;
  }

  /** From the last height with a reward on, the supply stands at the cap. */
  lemma EmissionReachesCap(height: u64)
    requires 10_439_999 <= height < CAST_LIMIT
    ensures RewardSum(height) == EMISSION_CAP
  {
    RewardSumClosedForm(height);
    var q := Halvings(height);
    ClosedFormAtCap(q);
    RestOfTheCap(290_000 * FirstHalvings(GENESIS_BLOCK_REWARD, q), Halved(GENESIS_BLOCK_REWARD, q), height % 290_000);
  }

  /** Whole intervals and the rest, once at most the last unit of the last interval is missing. */
  lemma RestOfTheCap(intervals: nat, reward: nat, r: nat)
    requires (reward == 0 && intervals == EMISSION_CAP) || (reward == 1 && r == 289_999 && intervals == EMISSION_CAP - 290_000)
    ensures intervals + (r + 1) * reward == EMISSION_CAP
  {
  }

  lemma ClosedFormAtCap(q: nat)
    requires q >= 35
    ensures var intervals := 290_000 * FirstHalvings(GENESIS_BLOCK_REWARD, q);
      if q == 35 then Halved(GENESIS_BLOCK_REWARD, q) == 1 && intervals == EMISSION_CAP - 290_000
      else Halved(GENESIS_BLOCK_REWARD, q) == 0 && intervals == EMISSION_CAP
  {
    FirstHalvingsOfGenesisReward(q);
    GenesisRewardLastUnit();
    GenesisRewardHalved(q);
  }

  /** The emission stays within the cap exactly as long as the cast is exact. */
  lemma EmissionWithinCap(height: u64)
    ensures RewardSum(height) <= EMISSION_CAP <==> height < CAST_LIMIT
  {
    if height < CAST_LIMIT {
      var top: u64 := CAST_LIMIT - 1;
      RewardSumMonotone(height, top);
      EmissionReachesCap(top);
    } else {
      RewardSumMonotone(CAST_LIMIT, height);
      RewardsNeverIncrease(0, 0);
      EmissionReachesCap(CAST_LIMIT - 1);
    }
  }

  /** What `CalculateMinedSupply` returns. */
  function MinedSupply(height: u64): u64 {
    if RewardSum(height) > U64_MAX then U64_MAX else RewardSum(height)
  }

  lemma FirstReward()
    ensures RewardSum(0) == GENESIS_BLOCK_REWARD
  {
  }

  lemma MinedSupplyExact(height: u64)
    requires height < CAST_LIMIT
    ensures MinedSupply(height) == RewardSum(height) <= EMISSION_CAP
  {
    EmissionWithinCap(height);
  }
}
