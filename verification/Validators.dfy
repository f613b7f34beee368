/** Epoch rewards: the coinbase, the pro-rata validator share, and slashing. */
module Validators {
  import opened Prelude
  import opened Types
  import opened Ledger
  import opened Order
  import opened Fees
  import opened MapSum

  const MINOR_SLASH_BPS: u64 := 100
  const MAJOR_SLASH_BPS: u64 := 1000

  /** The accounts holding a tier, in scan order. */
  function ValidatorsAmong(m: Accounts, keys: seq<string>): seq<Account>
    requires forall k :: k in keys ==> k in m
  {
    if keys == [] then []
    else (if m[keys[0]].IsValidator() then [m[keys[0]]] else []) + ValidatorsAmong(m, keys[1..])
  }

  function GetValidators(m: Accounts): seq<Account> {
    ValidatorsAmong(m, Sorted(m.Keys))
  }

  /** Stake plus tier bonus, both saturating. */
  function Weight(a: Account): u64 {
    var bonusBps := match a.validatorTier case Some(tier) => tier.RewardBonusBps() case None => 0;
    SatAdd(a.stakedBalance, SatMul(a.stakedBalance, bonusBps) / 10_000)
  }

  /** The `u128` sum of the weights. */
  function TotalWeight(vs: seq<Account>): nat {
    if vs == [] then 0 else Wrap128(TotalWeight(vs[..|vs| - 1]) + Weight(vs[|vs| - 1]))
  }

  /** One validator's cut: a `u128` product and quotient narrowed back to `u64`. */
  function Share(total: u64, weight: u64, totalWeight: nat): u64
    requires totalWeight > 0
  {
    Wrap64(Wrap128(total * weight) / totalWeight)
  }

  function Distribute(m: Accounts, vs: seq<Account>, total: u64, totalWeight: nat, distributed: u64): Outcome<u64>
    requires totalWeight > 0
    decreases |vs|
  {
    if vs == [] then Outcome(m, Success(distributed))
    else
      var share := Share(total, Weight(vs[0]), totalWeight);
      var o := CreditIfAny(m, vs[0].address, share);
      if o.result.Failure? then Outcome(o.accounts, Failure(o.result.error))
      else Distribute(o.accounts, vs[1..], total, totalWeight, SatAdd(distributed, share))
  }

  function DistributeRewards(m: Accounts, total: u64): Outcome<u64> {
    var vs := GetValidators(m);
    if total == 0 || vs == [] || TotalWeight(vs) == 0 then Outcome(m, Success(0))
    else Distribute(m, vs, total, TotalWeight(vs), 0)
  }

  function ApplyCoinbase(m: Accounts, coinbase: Transaction, feeShare: u64): Outcome<Unit> {
    if coinbase.sender != COINBASE_SENDER then Outcome(m, Failure(NotCoinbase))
    else
      var o := CreditIfAny(m, coinbase.receiver, coinbase.amount);
      if o.result.Failure? then o else CreditIfAny(o.accounts, coinbase.receiver, feeShare)
  }

  function EpochRewards(m: Accounts, coinbase: Transaction, totalFees: u64): Outcome<Unit> {
    var minted := ApplyCoinbase(m, coinbase, 0);
    if minted.result.Failure? then minted
    else
      var share := ValidatorFeeShare(totalFees);
      var d := DistributeRewards(minted.accounts, share);
      if d.result.Failure? then Outcome(d.accounts, Failure(d.result.error))
      else
        CreditIfAny(d.accounts, TREASURY_ADDRESS, SatSub(share, d.result.value))
  }

  function SlashAmount(staked: u64, bps: u64): u64 {
    SatMul(staked, bps) / 10_000
  }

  function Slash(m: Accounts, address: string, bps: u64): Outcome<u64> {
    if address !in m then Outcome(m, Failure(NoAccount))
    else if m[address].stakedBalance == 0 then Outcome(m, Failure(NothingStaked))
    else
      var amount := SlashAmount(m[address].stakedBalance, bps);
      if amount == 0 then Outcome(m, Success(0))
      else
        var cut := m[address].(stakedBalance := Wrap64(m[address].stakedBalance - amount)).UpdateValidatorTier();
        var o := Credit(Save(m, cut), TREASURY_ADDRESS, amount);
        Outcome(o.accounts, if o.result.Failure? then Failure(o.result.error) else Success(amount))
  }

  /* ---------- Weights ---------- */

  /** The tier of every account is the one its stake earns. */
  ghost predicate TiersCurrent(m: Accounts) {
    forall a :: a in m ==> m[a].validatorTier == ValidatorTier.FromStakedBalance(m[a].stakedBalance)
  }

  /** The bonus promised to a tier is paid in full exactly below the stake at which the product
      saturates; above it the bonus stops growing. */
  lemma BonusExactUntilSaturation(staked: u64, bps: u64)
    ensures SatMul(staked, bps) / 10_000 == staked * bps / 10_000
       <==> staked * bps < 18_446_744_073_709_560_000
  {
    assert U64_MAX / 10_000 == 1_844_674_407_370_955;
  }

  /** Ten million KYV staked at the top tier should weigh 35 percent more than the stake; the
      saturated product leaves it a little over 18 percent. */
  lemma NexusBonusSaturates()
    ensures var a := NewAccount("v").(stakedBalance := 10_000_000_000_000_000).UpdateValidatorTier();
      && a.validatorTier == Some(Nexus)
      && Weight(a) == 11_844_674_407_370_955 < a.stakedBalance + a.stakedBalance * 3500 / 10_000
  {
  }

  /** The tier of a stake: 500, 5,000 and 25,000 KYV are the thresholds, and there is no other tier. */
  lemma TierExactly(staked: u64)
    ensures var tier := ValidatorTier.FromStakedBalance(staked);
      && (tier == None <==> staked < 500_000_000_000)
      && (tier == Some(Igniter) <==> 500_000_000_000 <= staked < 5_000_000_000_000)
      && (tier == Some(Kinetic) <==> 5_000_000_000_000 <= staked < 25_000_000_000_000)
      && (tier == Some(Nexus) <==> 25_000_000_000_000 <= staked)
  {
  }

  /** What the code calls a validator, and its weight, in closed form for every stake: no bonus up to
      Igniter, 15 percent for Kinetic, 35 percent for Nexus until the product saturates, and from then
      on a fixed bonus, cut off at the largest `u64`. */
  lemma WeightExactly(a: Account)
    requires a.validatorTier == ValidatorTier.FromStakedBalance(a.stakedBalance)
    ensures a.IsValidator() <==> a.stakedBalance >= 500_000_000_000
    ensures var s: int := a.stakedBalance;
      Weight(a) == (if s < 5_000_000_000_000 then s
                    else if s < 25_000_000_000_000 then s + s * 15 / 100
                    else if s * 3500 < TWO_64 then s + s * 35 / 100
                    else if s <= U64_MAX - 1_844_674_407_370_955 then s + 1_844_674_407_370_955
                    else U64_MAX)
  {
    var s: int := a.stakedBalance;
    TierExactly(s);
    assert U64_MAX / 10_000 == 1_844_674_407_370_955;
    if s < 25_000_000_000_000 {
      assert s * 1500 / 10_000 == s * 15 / 100;
    } else {
      assert s * 3500 / 10_000 == s * 35 / 100;
    }
  }

  /** More stake never weighs less, across tier boundaries and saturation. */
  lemma WeightMonotone(a: Account, b: Account)
    requires a.validatorTier == ValidatorTier.FromStakedBalance(a.stakedBalance)
    requires b.validatorTier == ValidatorTier.FromStakedBalance(b.stakedBalance)
    requires a.stakedBalance <= b.stakedBalance
    ensures Weight(a) <= Weight(b)
  {
  }

  lemma ShareMonotone(total: u64, w: u64, w': u64, totalWeight: nat)
    requires 0 < totalWeight && w <= w' <= totalWeight
    ensures Share(total, w, totalWeight) <= Share(total, w', totalWeight)
  {
    ShareExact(total, w, totalWeight);
    ShareExact(total, w', totalWeight);
    MulMonotone(total, w, w');
    DivMonotone(total * w, total * w', totalWeight);
  }

  lemma MulMonotone(a: nat, b: nat, c: nat)
    requires b <= c
    ensures a * b <= a * c
  {
  }

  lemma Quotient(n: nat, d: nat, q: nat)
    requires d > 0 && d * q <= n < d * q + d
    ensures n / d == q
  {
    MulMonotone(d, n / d + 1, if n / d < q then q else n / d + 1);
    MulMonotone(d, q + 1, if q < n / d then n / d else q + 1);
  }

  lemma DivMonotone(a: nat, b: nat, d: nat)
    requires a <= b && d > 0
    ensures a / d <= b / d
  {
    MulMonotone(d, b / d + 1, if b / d < a / d then a / d else b / d + 1);
  }

  /** Narrowing the quotient to `u64` loses nothing, and neither does the `u128` product. */
  lemma ShareExact(total: u64, w: u64, totalWeight: nat)
    requires 0 < totalWeight && w <= totalWeight
    ensures Share(total, w, totalWeight) == total * w / totalWeight <= total
  {
    ProductFits(total, w);
    QuotientBound(total, w, totalWeight);
  }

  lemma ProductFits(a: u64, b: u64)
    ensures Wrap128(a * b) == a * b
  {
    ProductBelow(a, b, U64_MAX);
    SmallProduct(a * b);
  }

  lemma ProductBelow(a: nat, b: nat, n: nat)
    requires a <= n && b <= n
    ensures 0 <= a * b <= n * n
  {
    MulMonotone(a, b, n);
    MulMonotone(n, a, n);
  }

  lemma SmallProduct(p: nat)
    requires p <= U64_MAX * U64_MAX
    ensures Wrap128(p) == p
  {
  }

  lemma QuotientBound(total: nat, w: nat, totalWeight: nat)
    requires 0 < totalWeight && w <= totalWeight
    ensures 0 <= total * w / totalWeight <= total
  {
    MulMonotone(total, w, totalWeight);
    DivMonotone(total * w, total * totalWeight, totalWeight);
    DivCancel(total, totalWeight);
  }

  lemma DivCancel(a: nat, d: nat)
    requires d > 0
    ensures a * d / d == a
  {
    Quotient(a * d, d, a);
  }

  /* ---------- Pro-rata distribution ---------- */

  /** The exact rational weights and the rounded shares, as integers. */
  ghost function WeightSum(vs: seq<Account>): nat {
    if vs == [] then 0 else Weight(vs[0]) + WeightSum(vs[1..])
  }

  ghost function ShareSum(vs: seq<Account>, total: u64, w: nat): nat
    requires w > 0
  {
    if vs == [] then 0 else Share(total, Weight(vs[0]), w) + ShareSum(vs[1..], total, w)
  }

  lemma {:induction false} WeightSumAppend(vs: seq<Account>, v: Account)
    ensures WeightSum(vs + [v]) == WeightSum(vs) + Weight(v)
  {
    if vs == [] {
      assert vs + [v] == [v];
    } else {
      assert (vs + [v])[1..] == vs[1..] + [v];
      WeightSumAppend(vs[1..], v);
    }
  }

  /** The `u128` accumulator is exact as long as the weights fit in it. */
  lemma {:induction false} TotalWeightExact(vs: seq<Account>)
    requires WeightSum(vs) < TWO_64 * TWO_64
    ensures TotalWeight(vs) == WeightSum(vs)
    decreases |vs|
  {
    if vs != [] {
      var init, last := vs[..|vs| - 1], vs[|vs| - 1];
      assert vs == init + [last];
      WeightSumAppend(init, last);
      TotalWeightExact(init);
    }
  }

  lemma MulDistributes(a: int, b: int, c: int)
    ensures a * (b + c) == a * b + a * c
  {
  }

  /** One rounded share against its exact cut. */
  lemma ShareRounding(total: u64, x: u64, w: nat)
    requires 0 < w && x <= w
    ensures w * Share(total, x, w) <= total * x <= w * Share(total, x, w) + (w - 1)
  {
    ShareExact(total, x, w);
    var n := total * x;
    assert n == w * (n / w) + n % w;
  }

  /** Rounding: the shares never exceed the exact cuts and miss each by less than one unit. */
  lemma {:induction false} ShareSumBounds(vs: seq<Account>, total: u64, w: nat)
    requires 0 < w && WeightSum(vs) <= w
    ensures w * ShareSum(vs, total, w) <= total * WeightSum(vs) <= w * ShareSum(vs, total, w) + (w - 1) * |vs|
  {
    if vs != [] {
      var x := Weight(vs[0]);
      ShareSumBounds(vs[1..], total, w);
      ShareRounding(total, x, w);
      MulDistributes(total, x, WeightSum(vs[1..]));
      MulDistributes(w, Share(total, x, w), ShareSum(vs[1..], total, w));
      MulDistributes(w - 1, 1, |vs[1..]|);
    }
  }

  /** What is paid out is at most the pool and misses it by fewer units than there are validators. */
  lemma ProRata(vs: seq<Account>, total: u64)
    requires 0 < WeightSum(vs)
    ensures ShareSum(vs, total, WeightSum(vs)) <= total < ShareSum(vs, total, WeightSum(vs)) + |vs|
  {
    var w := WeightSum(vs);
    var paid := ShareSum(vs, total, w);
    ShareSumBounds(vs, total, w);
    RoundingGap(w, paid, total, |vs|);
  }

  lemma RoundingGap(w: nat, paid: nat, total: nat, n: nat)
    requires 0 < w && 0 < n
    requires w * paid <= total * w <= w * paid + (w - 1) * n
    ensures paid <= total < paid + n
  {
    MulMonotone(w, total + 1, if total < paid then paid else total + 1);
    MulDistributes(w, total, 1);
    MulDistributes(w, paid, n);
    MulDistributes(n, w, -1);
    MulMonotone(w, paid + n, if total < paid + n then paid + n else total);
  }

  /** What the validators listed under `a` receive together. */
  ghost function ShareOf(vs: seq<Account>, total: u64, w: nat, a: string): nat
    requires w > 0
  {
    if vs == [] then 0
    else (if vs[0].address == a then Share(total, Weight(vs[0]), w) else 0) + ShareOf(vs[1..], total, w, a)
  }

  /** Every address received its shares and nothing else changed. */
  ghost predicate SharesPaid(m: Accounts, m': Accounts, vs: seq<Account>, total: u64, w: nat)
    requires w > 0
  {
    forall a :: Raised(GetOrCreate(m, a), GetOrCreate(m', a), ShareOf(vs, total, w, a))
  }

  /** The crediting loop pays every validator its share, reports the sum, and never fails while
      the supply bound holds; the saturating running sum is exact. */
  lemma {:induction false} DistributeMeaning(m: Accounts, vs: seq<Account>, total: u64, w: nat, d: u64)
    requires Keyed(m) && w > 0
    requires Total(m) + ShareSum(vs, total, w) <= U64_MAX
    requires d + ShareSum(vs, total, w) <= U64_MAX
    ensures var o := Distribute(m, vs, total, w, d);
      && o.result == Success(d + ShareSum(vs, total, w))
      && Keyed(o.accounts) && Total(o.accounts) == Total(m) + ShareSum(vs, total, w)
      && SharesPaid(m, o.accounts, vs, total, w)
    decreases |vs|
  {
    if vs != [] {
      var share := Share(total, Weight(vs[0]), w);
      assert ShareSum(vs, total, w) == share + ShareSum(vs[1..], total, w);
      CreditIfAnyMeaning(m, vs[0].address, share);
      var m1 := CreditIfAny(m, vs[0].address, share).accounts;
      DistributeMeaning(m1, vs[1..], total, w, d + share);
      var o := Distribute(m1, vs[1..], total, w, d + share);
      assert Distribute(m, vs, total, w, d) == o;
      SharePaidFirst(m, m1, o.accounts, vs, total, w);
    }
  }

  lemma SharePaidFirst(m: Accounts, m1: Accounts, m2: Accounts, vs: seq<Account>, total: u64, w: nat)
    requires w > 0 && vs != []
    requires Paid(m, m1, vs[0].address, Share(total, Weight(vs[0]), w)) && SharesPaid(m1, m2, vs[1..], total, w)
    ensures SharesPaid(m, m2, vs, total, w)
  {
    forall a
      ensures Raised(GetOrCreate(m, a), GetOrCreate(m2, a), ShareOf(vs, total, w, a))
    {
      assert Raised(GetOrCreate(m, a), GetOrCreate(m1, a), if vs[0].address == a then Share(total, Weight(vs[0]), w) else 0);
      assert Raised(GetOrCreate(m1, a), GetOrCreate(m2, a), ShareOf(vs[1..], total, w, a));
    }
  }

  lemma ValidatorsAmongFirst(m: Accounts, keys: seq<string>)
    requires keys != [] && forall k :: k in keys ==> k in m
    ensures WeightSum(ValidatorsAmong(m, keys)) <= 2 * Worth(m[keys[0]]) + WeightSum(ValidatorsAmong(m, keys[1..]))
  {
    var v, rest := m[keys[0]], ValidatorsAmong(m, keys[1..]);
    if v.IsValidator() {
      assert Weight(v) <= 2 * Worth(v);
      assert ([v] + rest)[1..] == rest;
    } else {
      assert [] + rest == rest;
    }
  }

  lemma {:induction false} ValidatorsWeigh(m: Accounts, keys: seq<string>)
    requires forall k :: k in keys ==> k in m
    requires forall i, j :: 0 <= i < j < |keys| ==> keys[i] != keys[j]
    ensures WeightSum(ValidatorsAmong(m, keys)) <= 2 * Total(m)
    decreases |keys|
  {
    if keys != [] {
      var rest := m - {keys[0]};
      SumRemove(m, Worth, keys[0]);
      ValidatorsAmongFirst(m, keys);
      ValidatorsAmongRest(m, rest, keys[1..]);
      ValidatorsWeigh(rest, keys[1..]);
    }
  }

  lemma {:induction false} ValidatorsAmongRest(m: Accounts, m': Accounts, keys: seq<string>)
    requires forall k :: k in keys ==> k in m && k in m' && m[k] == m'[k]
    ensures ValidatorsAmong(m, keys) == ValidatorsAmong(m', keys)
    decreases |keys|
  {
    if keys != [] {
      ValidatorsAmongRest(m, m', keys[1..]);
    }
  }

  /** The validator list: all accounts that hold a tier and no others, by ascending address. */
  lemma ValidatorsListed(m: Accounts)
    requires Keyed(m)
    ensures var vs := GetValidators(m);
      && (forall v :: v in vs <==> v.address in m && m[v.address] == v && v.validatorTier.Some?)
      && forall i, j :: 0 <= i < j < |vs| ==> Less(vs[i].address, vs[j].address)
  {
    SortedAscending(m.Keys);
    AmongListed(m, Sorted(m.Keys));
  }

  lemma {:induction false} AmongListed(m: Accounts, keys: seq<string>)
    requires Keyed(m) && Ascending(keys) && forall k :: k in keys ==> k in m
    ensures var vs := ValidatorsAmong(m, keys);
      && (forall v :: v in vs <==> v.address in keys && m[v.address] == v && v.validatorTier.Some?)
      && forall i, j :: 0 <= i < j < |vs| ==> Less(vs[i].address, vs[j].address)
    decreases |keys|
  {
    if keys != [] {
      var rest := ValidatorsAmong(m, keys[1..]);
      AmongListed(m, keys[1..]);
      assert keys == [keys[0]] + keys[1..] && keys[0] in keys;
      forall j | 0 <= j < |rest|
        ensures Less(keys[0], rest[j].address)
      {
        assert rest[j] in rest;
        var i :| 0 <= i < |keys[1..]| && keys[1..][i] == rest[j].address;
        assert keys[i + 1] == rest[j].address;
      }
    }
  }

  /** Under the supply bound the `u128` total is the exact sum of the weights. */
  lemma ValidatorWeightsExact(m: Accounts)
    requires Total(m) <= U64_MAX
    ensures TotalWeight(GetValidators(m)) == WeightSum(GetValidators(m))
  {
    SortedAscending(m.Keys);
    AscendingDistinct(Sorted(m.Keys));
    ValidatorsWeigh(m, Sorted(m.Keys));
    TotalWeightExact(GetValidators(m));
  }

  /** Paying a pool out never loses more than rounding, never overdraws it and never fails. */
  lemma DistributionMeaning(m: Accounts, total: u64)
    requires Keyed(m) && Total(m) + total <= U64_MAX
    ensures var o := DistributeRewards(m, total); var vs := GetValidators(m);
      && o.result.Success? && Keyed(o.accounts)
      && Total(o.accounts) == Total(m) + o.result.value && o.result.value <= total
      && (if total == 0 || WeightSum(vs) == 0 then o == Outcome(m, Success(0))
          else total < o.result.value + |vs|
               && SharesPaid(m, o.accounts, vs, total, WeightSum(vs)))
  {
    var vs := GetValidators(m);
    ValidatorWeightsExact(m);
    if total != 0 && WeightSum(vs) != 0 {
      ProRata(vs, total);
      DistributeMeaning(m, vs, total, WeightSum(vs), 0);
    }
  }

  /** With tiers current, a validator always has weight, so a non-empty set takes the whole pool
      up to rounding. */
  lemma {:induction false} ValidatorsHaveWeight(m: Accounts, keys: seq<string>)
    requires TiersCurrent(m) && forall k :: k in keys ==> k in m
    requires ValidatorsAmong(m, keys) != []
    ensures WeightSum(ValidatorsAmong(m, keys)) > 0
    decreases |keys|
  {
    assert keys[0] in keys;
    if m[keys[0]].IsValidator() {
      assert ValidatorsAmong(m, keys)[0] == m[keys[0]];
    } else {
      assert ValidatorsAmong(m, keys) == ValidatorsAmong(m, keys[1..]);
      ValidatorsHaveWeight(m, keys[1..]);
    }
  }

  /** `distribute_validator_rewards` with a validator present, for any pool within the supply bound. */
  lemma PoolPaidOut(m: Accounts, total: u64)
    requires Keyed(m) && TiersCurrent(m) && Total(m) + total <= U64_MAX
    requires GetValidators(m) != []
    ensures var o := DistributeRewards(m, total);
      o.result.Success? && o.result.value <= total < o.result.value + |GetValidators(m)|
  {
    ValidatorsHaveWeight(m, Sorted(m.Keys));
    DistributionMeaning(m, total);
  }

  lemma {:induction false} ShareOfAmong(m: Accounts, keys: seq<string>, total: u64, w: nat, a: string)
    requires Keyed(m) && w > 0 && forall k :: k in keys ==> k in m
    requires forall i, j :: 0 <= i < j < |keys| ==> keys[i] != keys[j]
    ensures ShareOf(ValidatorsAmong(m, keys), total, w, a)
         == if a in keys && m[a].IsValidator() then Share(total, Weight(m[a]), w) else 0
    decreases |keys|
  {
    if keys != [] {
      ShareOfAmong(m, keys[1..], total, w, a);
      var rest := ValidatorsAmong(m, keys[1..]);
      assert keys[0] in keys;
      if m[keys[0]].IsValidator() {
        assert ([m[keys[0]]] + rest)[1..] == rest;
      } else {
        assert [] + rest == rest;
      }
    }
  }

  lemma {:induction false} WeightAmong(m: Accounts, keys: seq<string>, a: string)
    requires a in keys && (forall k :: k in keys ==> k in m) && m[a].IsValidator()
    ensures Weight(m[a]) <= WeightSum(ValidatorsAmong(m, keys))
    decreases |keys|
  {
    var rest := ValidatorsAmong(m, keys[1..]);
    if m[keys[0]].IsValidator() {
      assert ([m[keys[0]]] + rest)[1..] == rest;
    } else {
      assert [] + rest == rest;
    }
    if a != keys[0] {
      WeightAmong(m, keys[1..], a);
    }
  }

  /** What each account gains from a pool: its own share if it is a validator, otherwise nothing. */
  lemma EachValidatorsShare(m: Accounts, total: u64, a: string)
    requires Keyed(m) && Total(m) + total <= U64_MAX
    requires total > 0 && WeightSum(GetValidators(m)) > 0
    ensures BalanceOf(DistributeRewards(m, total).accounts, a) - BalanceOf(m, a)
         == if a in m && m[a].IsValidator() then Share(total, Weight(m[a]), WeightSum(GetValidators(m))) else 0
  {
    var w := WeightSum(GetValidators(m));
    SortedAscending(m.Keys);
    AscendingDistinct(Sorted(m.Keys));
    ShareOfAmong(m, Sorted(m.Keys), total, w, a);
    DistributionMeaning(m, total);
    var m' := DistributeRewards(m, total).accounts;
    assert Raised(GetOrCreate(m, a), GetOrCreate(m', a), ShareOf(GetValidators(m), total, w, a));
  }

  /** A validator with at least as much stake gains at least as much. */
  lemma MoreStakeNeverLess(m: Accounts, total: u64, a: string, b: string)
    requires Keyed(m) && TiersCurrent(m) && Total(m) + total <= U64_MAX && total > 0
    requires a in m && m[a].IsValidator() && b in m && m[b].IsValidator()
    requires m[a].stakedBalance <= m[b].stakedBalance
    ensures var m' := DistributeRewards(m, total).accounts;
      BalanceOf(m', a) - BalanceOf(m, a) <= BalanceOf(m', b) - BalanceOf(m, b)
  {
    var keys := Sorted(m.Keys);
    WeightAmong(m, keys, a);
    WeightAmong(m, keys, b);
    EachValidatorsShare(m, total, a);
    EachValidatorsShare(m, total, b);
    WeightMonotone(m[a], m[b]);
    ShareMonotone(total, Weight(m[a]), Weight(m[b]), WeightSum(GetValidators(m)));
  }

  /** An epoch reward adds to the accounts exactly the coinbase amount plus the validator share:
      whatever rounding leaves over goes to the treasury. */
  lemma EpochRewardsMeaning(m: Accounts, coinbase: Transaction, totalFees: u64)
    requires Keyed(m) && Total(m) + coinbase.amount + ValidatorFeeShare(totalFees) <= U64_MAX
    ensures var o := EpochRewards(m, coinbase, totalFees);
      && (o.result.Success? <==> coinbase.sender == COINBASE_SENDER)
      && (o.result.Failure? ==> o.accounts == m)
      && (o.result.Success? ==>
            && Keyed(o.accounts)
            && Total(o.accounts) == Total(m) + coinbase.amount + ValidatorFeeShare(totalFees))
  {
    if coinbase.sender == COINBASE_SENDER {
      CreditIfAnyMeaning(m, coinbase.receiver, coinbase.amount);
      var m1 := CreditIfAny(m, coinbase.receiver, coinbase.amount).accounts;
      assert ApplyCoinbase(m, coinbase, 0) == Outcome(m1, Success(Unit));
      StakingLayer(m1, ValidatorFeeShare(totalFees));
    }
  }

  lemma DistributionTotal(m: Accounts, total: u64)
    requires Keyed(m) && Total(m) + total <= U64_MAX
    ensures var o := DistributeRewards(m, total);
      && o.result.Success? && Keyed(o.accounts)
      && Total(o.accounts) == Total(m) + o.result.value && o.result.value <= total
  {
    DistributionMeaning(m, total);
  }

  /** Pool and leftover together: exactly the share reaches the accounts. */
  lemma StakingLayer(m: Accounts, share: u64)
    requires Keyed(m) && Total(m) + share <= U64_MAX
    ensures var d := DistributeRewards(m, share);
      && d.result.Success?
      && var o := CreditIfAny(d.accounts, TREASURY_ADDRESS, SatSub(share, d.result.value));
         o.result.Success? && Keyed(o.accounts) && Total(o.accounts) == Total(m) + share
  {
    DistributionTotal(m, share);
    var d := DistributeRewards(m, share);
    CreditIfAnyMeaning(d.accounts, TREASURY_ADDRESS, share - d.result.value);
  }

  /* ---------- Slashing ---------- */

  /** `amount` left the stake of `a`, whose tier follows, and reached the treasury; nothing else changed. */
  ghost predicate Confiscated(m: Accounts, m': Accounts, a: string, amount: nat) {
    && m'.Keys == m.Keys + {TREASURY_ADDRESS}
    && forall b :: Shifted(GetOrCreate(m, b), GetOrCreate(m', b), if b == TREASURY_ADDRESS then amount else 0,
                           if b == a then -(amount as int) else 0, b == a)
  }

  /** A slash moves stake to the treasury and conserves value as long as it is not larger than
      the stake, which rates up to 10,000 basis points guarantee. An amount of zero changes nothing,
      not even the tier. */
  lemma SlashConserves(m: Accounts, address: string, bps: u64)
    requires Keyed(m) && Total(m) <= U64_MAX && bps <= 10_000
    ensures var o := Slash(m, address, bps);
      && Keyed(o.accounts) && Total(o.accounts) == Total(m)
      && (o.result.Success? <==> address in m && m[address].stakedBalance > 0)
      && (o.result.Failure? ==> o.accounts == m)
      && (o.result.Failure? ==> o.result.error == if address in m then NothingStaked else NoAccount)
      && (o.result.Success? ==>
            var amount := o.result.value;
            && amount == SlashAmount(m[address].stakedBalance, bps)
            && if amount == 0 then o.accounts == m else Confiscated(m, o.accounts, address, amount))
  {
    if address in m && m[address].stakedBalance > 0 {
      SlashWithinStake(m[address].stakedBalance, bps);
      CutConserves(m, address, SlashAmount(m[address].stakedBalance, bps));
    }
  }

  /** The slashed amount is the given part of the stake exactly while the product fits. */
  lemma SlashAmountExactly(staked: u64, bps: u64)
    ensures SlashAmount(staked, bps) == staked * bps / 10_000 <==> staked * bps < 18_446_744_073_709_560_000
    ensures staked * bps > U64_MAX ==> SlashAmount(staked, bps) == 1_844_674_407_370_955
  {
    BonusExactUntilSaturation(staked, bps);
    assert U64_MAX / 10_000 == 1_844_674_407_370_955;
  }

  lemma CutConserves(m: Accounts, address: string, amount: u64)
    requires Keyed(m) && Total(m) <= U64_MAX && address in m && amount <= m[address].stakedBalance
    ensures
      var cut := m[address].(stakedBalance := m[address].stakedBalance - amount).UpdateValidatorTier();
      var o := Credit(Save(m, cut), TREASURY_ADDRESS, amount);
      && Wrap64(m[address].stakedBalance - amount) == m[address].stakedBalance - amount
      && o.result.Success? && Keyed(o.accounts) && Total(o.accounts) == Total(m)
      && Confiscated(m, o.accounts, address, amount)
  {
    var cut := m[address].(stakedBalance := m[address].stakedBalance - amount).UpdateValidatorTier();
    WorthBound(m, address);
    SaveTotal(m, cut);
    CreditMeaning(Save(m, cut), TREASURY_ADDRESS, amount);
    CutShifts(m, address, amount, cut, Credit(Save(m, cut), TREASURY_ADDRESS, amount).accounts);
  }

  lemma CutShifts(m: Accounts, address: string, amount: u64, cut: Account, m': Accounts)
    requires Keyed(m) && address in m && amount <= m[address].stakedBalance
    requires cut == m[address].(stakedBalance := m[address].stakedBalance - amount).UpdateValidatorTier()
    requires m'.Keys == m.Keys + {TREASURY_ADDRESS} && Paid(Save(m, cut), m', TREASURY_ADDRESS, amount)
    ensures Confiscated(m, m', address, amount)
  {
    forall b
      ensures Shifted(GetOrCreate(m, b), GetOrCreate(m', b), if b == TREASURY_ADDRESS then amount else 0,
                      if b == address then -(amount as int) else 0, b == address)
    {
      assert Raised(GetOrCreate(Save(m, cut), b), GetOrCreate(m', b), if TREASURY_ADDRESS == b then amount else 0);
    }
  }

  lemma SlashWithinStake(staked: u64, bps: u64)
    requires bps <= 10_000
    ensures SlashAmount(staked, bps) <= staked
  {
    MulMonotone(staked, bps, 10_000);
  }

  /** The two standard rates take one percent and one tenth of the stake exactly below the stakes at
      which the product saturates; above them the penalty stops growing. */
  lemma StandardSlashes(staked: u64)
    ensures SlashAmount(staked, MINOR_SLASH_BPS) == staked / 100 <==> staked < 184_467_440_737_095_600
    ensures SlashAmount(staked, MAJOR_SLASH_BPS) == staked / 10 <==> staked < 18_446_744_073_709_560
    ensures staked >= 184_467_440_737_095_600 ==>
      SlashAmount(staked, MINOR_SLASH_BPS) == SlashAmount(staked, MAJOR_SLASH_BPS) == 1_844_674_407_370_955
  {
    BonusExactUntilSaturation(staked, MINOR_SLASH_BPS);
    BonusExactUntilSaturation(staked, MAJOR_SLASH_BPS);
    assert staked * 100 / 10_000 == staked / 100 && staked * 1000 / 10_000 == staked / 10;
  }

  lemma WrapNegative(n: int)
    requires -TWO_64 < n < 0
    ensures Wrap64(n) == n + TWO_64
  {
  }

  lemma CreditNeverLowers(m: Accounts, to: string, amount: u64)
    requires Keyed(m)
    ensures Total(Credit(m, to, amount).accounts) >= Total(m)
  {
    var account := GetOrCreate(m, to);
    if account.balance + amount <= U64_MAX {
      SaveTotal(m, account.(balance := account.balance + amount));
    }
  }

  lemma OverCut(m: Accounts, address: string, amount: u64, cut: Account)
    requires Keyed(m) && address in m && cut.address == address
    requires cut.balance == m[address].balance && cut.stakedBalance > m[address].stakedBalance
    ensures Total(Credit(Save(m, cut), TREASURY_ADDRESS, amount).accounts) > Total(m)
  {
    SaveTotal(m, cut);
    CreditNeverLowers(Save(m, cut), TREASURY_ADDRESS, amount);
  }

  /** For every rate: a slash conserves value exactly when it does not exceed the stake. */
  lemma SlashConservesExactly(m: Accounts, address: string, bps: u64)
    requires Keyed(m) && Total(m) <= U64_MAX
    ensures Total(Slash(m, address, bps).accounts) == Total(m)
       <==> (address in m && m[address].stakedBalance > 0 ==> SlashAmount(m[address].stakedBalance, bps) <= m[address].stakedBalance)
  {
    if address in m && m[address].stakedBalance > 0 {
      var staked := m[address].stakedBalance;
      var amount := SlashAmount(staked, bps);
      if amount <= staked {
        CutConserves(m, address, amount);
      } else {
        var excess: int := amount - staked;
        WrapNegative(-excess);
        OverCut(m, address, amount, m[address].(stakedBalance := Wrap64(-excess)).UpdateValidatorTier());
      }
    }
  }

  /** Above 10,000 basis points the unchecked subtraction wraps: slashing one unit of stake at
      20,000 leaves the account with the largest possible stake. */
  lemma SlashBeyondStakeExample(a: string)
    requires a != TREASURY_ADDRESS
    ensures var m := map[a := NewAccount(a).(stakedBalance := 1)];
      var o := Slash(m, a, 20_000);
      o.result == Success(2) && StakeOf(o.accounts, a) == U64_MAX && BalanceOf(o.accounts, TREASURY_ADDRESS) == 2
  {
  }
}
