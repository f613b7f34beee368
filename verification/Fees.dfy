/** The two places where a fee is split: per transaction and per epoch. */
module Fees {
  import opened Prelude
  import opened Types

  /** A share in basis points of a fee; the product is unchecked. */
  function FeePortion(fee: u64, bps: u64): u64 {
    Wrap64(fee * bps) / 10_000
  }

  /** `calculate_fee_split`: 50 percent burn, 40 percent validator pool and 10 percent treasury, with
      the dust added to the burn. */
  function FeeSplitOf(fee: u64): (u64, u64, u64) {
    var burn := FeePortion(fee, 5_000);
    var validator := FeePortion(fee, 4_000);
    var treasury := FeePortion(fee, 1_000);
    var dust := SatSub(SatSub(SatSub(fee, burn), validator), treasury);
    (Wrap64(burn + dust), validator, treasury)
  }

  /** 40 percent of the fees of an epoch; the product is unchecked. */
  function ValidatorFeeShare(totalFees: u64): u64 {
    Wrap64(totalFees * 40) / 100
  }

  /** `total_fees`: the unchecked sum. */
  function TotalFees(txs: seq<Transaction>): u64 {
    if txs == [] then 0 else Wrap64(TotalFees(txs[..|txs| - 1]) + txs[|txs| - 1].fee)
  }

  /** The fees collected, as an integer. */
  ghost function FeeSum(txs: seq<Transaction>): nat {
    if txs == [] then 0 else FeeSum(txs[..|txs| - 1]) + txs[|txs| - 1].fee
  }

  /** What leaves the accounts when the fees are charged: everything but the treasury tenths. */
  ghost function Withheld(txs: seq<Transaction>): nat {
    if txs == [] then 0
    else var fee := txs[|txs| - 1].fee; Withheld(txs[..|txs| - 1]) + (fee - fee / 10)
  }

  /* ---------- One fee ---------- */

  /** The split never creates or loses a unit, for every fee, even where a product wraps. */
  lemma FeeSplitExact(fee: u64)
    ensures var (burn, validator, treasury) := FeeSplitOf(fee); burn + validator + treasury == fee
  {
    PortionBound(fee, 5_000);
    PortionBound(fee, 4_000);
    PortionBound(fee, 1_000);
  }

  /** Who gets which part: 40 percent to the validators and a tenth to the treasury exactly while the
      products fit, and the whole rest is burnt. */
  lemma FeeSplitParts(fee: u64)
    ensures var (burn, validator, treasury) := FeeSplitOf(fee);
      && (validator == fee * 40 / 100 <==> fee * 4_000 <= U64_MAX)
      && (treasury == fee / 10 <==> fee * 1_000 <= U64_MAX)
      && burn == fee - validator - treasury
  {
    FeeSplitExact(fee);
    PortionExact(fee, 4_000);
    PortionExact(fee, 1_000);
    assert fee * 4_000 / 10_000 == fee * 40 / 100 && fee * 1_000 / 10_000 == fee / 10;
  }

  lemma PortionBound(fee: u64, bps: u64)
    requires bps <= 10_000
    ensures 10_000 * FeePortion(fee, bps) <= fee * bps
  {
    WrapBound(fee * bps);
  }

  lemma WrapBound(n: nat)
    ensures Wrap64(n) <= n && (Wrap64(n) == n <==> n < TWO_64) && (n >= TWO_64 ==> Wrap64(n) + TWO_64 <= n)
  {
  }

  /** The advertised proportions hold exactly when the product fits: 40 percent to validators for
      fees up to the largest `u64` over 4,000, and so for the other shares. */
  lemma PortionExact(fee: u64, bps: u64)
    requires 0 < bps <= 10_000
    ensures FeePortion(fee, bps) == fee * bps / 10_000 <==> fee * bps <= U64_MAX
  {
    WrapBound(fee * bps);
  }

  /** The validator share of an epoch is 40 percent exactly when the product fits. */
  lemma ValidatorShareExact(totalFees: u64)
    ensures ValidatorFeeShare(totalFees) == totalFees * 40 / 100 <==> totalFees * 40 <= U64_MAX
  {
    WrapBound(totalFees * 40);
  }

  /** The supply bound does not rule the wrap out: this total of fees is within it. */
  lemma ValidatorShareWraps()
    ensures ValidatorFeeShare(500_000_000_000_000_000) == 15_532_559_262_904_483 < 500_000_000_000_000_000 * 40 / 100
  {
  }

  /** The two formulas for the treasury tenth and for the validator share agree while nothing wraps. */
  lemma FormulasAgree(fee: u64, totalFees: u64)
    requires fee * 1_000 <= U64_MAX && totalFees * 4_000 <= U64_MAX
    ensures FeePortion(fee, 1_000) == fee / 10
    ensures FeePortion(totalFees, 4_000) == ValidatorFeeShare(totalFees)
  {
  }

  /* ---------- The fees of an epoch ---------- */

  lemma {:induction false} TotalFeesWraps(txs: seq<Transaction>)
    ensures TotalFees(txs) == Wrap64(FeeSum(txs))
    decreases |txs|
  {
    if txs != [] {
      TotalFeesWraps(txs[..|txs| - 1]);
      WrapAdd(FeeSum(txs[..|txs| - 1]), txs[|txs| - 1].fee);
    }
  }

  lemma {:induction false} WithheldBounds(txs: seq<Transaction>)
    ensures 9 * FeeSum(txs) <= 10 * Withheld(txs) <= 9 * FeeSum(txs) + 9 * |txs|
    decreases |txs|
  {
    if txs != [] {
      WithheldBounds(txs[..|txs| - 1]);
    }
  }

  /** What an epoch destroys: the withheld fees less the validator share paid back. */
  ghost function EpochBurn(txs: seq<Transaction>): int {
    Withheld(txs) - ValidatorFeeShare(TotalFees(txs))
  }

  lemma ShareBounds(totalFees: u64)
    ensures 100 * ValidatorFeeShare(totalFees) <= 40 * totalFees
    ensures totalFees * 40 <= U64_MAX ==> 40 * totalFees <= 100 * ValidatorFeeShare(totalFees) + 99
  {
    WrapBound(totalFees * 40);
  }

  /** The linear arithmetic of one epoch: `t` collected, `w` withheld, `v` paid to validators. */
  lemma BurnArithmetic(t: nat, w: nat, v: nat, n: nat)
    requires 100 * v <= 40 * t && 9 * t <= 10 * w <= 9 * t + 9 * n
    ensures v <= w
    ensures 40 * t <= 100 * v + 99 ==> 5 * t <= 10 * (w - v) <= 5 * t + 9 * n + 8
  {
  }

  /** The destroyed amount is never negative, whatever wraps; while the product fits it is half the
      fees plus less than a unit of rounding per transaction. */
  lemma EpochBurnBounds(txs: seq<Transaction>)
    ensures EpochBurn(txs) >= 0
    ensures FeeSum(txs) * 40 <= U64_MAX ==>
      5 * FeeSum(txs) <= 10 * EpochBurn(txs) <= 5 * FeeSum(txs) + 9 * |txs| + 8
  {
    TotalFeesWraps(txs);
    WrapBound(FeeSum(txs));
    WithheldBounds(txs);
    ShareBounds(TotalFees(txs));
    BurnArithmetic(FeeSum(txs), Withheld(txs), ValidatorFeeShare(TotalFees(txs)), |txs|);
  }
}
