/** The stored tier of every account is the one its stake earns, in every reachable state; so a
    validator always has weight and an epoch pool is paid out up to rounding. */
module Tiers {
  import opened Prelude
  import opened Types
  import opened Order
  import opened Ledger
  import opened Fees
  import opened Validators
  import opened Staking
  import opened Genesis
  import opened Supply
  import opened EpochPay

  lemma SaveTiers(m: Accounts, a: Account)
    requires TiersCurrent(m) && a.validatorTier == ValidatorTier.FromStakedBalance(a.stakedBalance)
    ensures TiersCurrent(Save(m, a))
  {
  }

  lemma GetOrCreateTier(m: Accounts, a: string)
    requires TiersCurrent(m)
    ensures GetOrCreate(m, a).validatorTier == ValidatorTier.FromStakedBalance(GetOrCreate(m, a).stakedBalance)
  {
  }

  lemma CreditTiers(m: Accounts, a: string, amount: u64)
    requires TiersCurrent(m)
    ensures TiersCurrent(Credit(m, a, amount).accounts) && TiersCurrent(CreditIfAny(m, a, amount).accounts)
  {
    GetOrCreateTier(m, a);
  }

  lemma ApplyTiers(m: Accounts, tx: Transaction)
    requires TiersCurrent(m)
    ensures TiersCurrent(Apply(m, tx).accounts)
  {
    var s := GetOrCreate(m, tx.sender);
    GetOrCreateTier(m, tx.sender);
    var c := Charge(s, tx);
    if c.Success? {
      ChargedFields(s, tx);
      var m1 := Save(m, c.value);
      SaveTiers(m, c.value);
      CreditTiers(m1, tx.receiver, tx.amount);
      CreditTiers(PayReceiver(m1, tx).accounts, TREASURY_ADDRESS, tx.fee / 10);
    }
  }

  lemma {:induction false} DistributeTiers(m: Accounts, vs: seq<Account>, total: u64, w: nat, d: u64)
    requires TiersCurrent(m) && w > 0
    ensures TiersCurrent(Distribute(m, vs, total, w, d).accounts)
    decreases |vs|
  {
    if vs != [] {
      var share := Share(total, Weight(vs[0]), w);
      CreditTiers(m, vs[0].address, share);
      DistributeTiers(CreditIfAny(m, vs[0].address, share).accounts, vs[1..], total, w, SatAdd(d, share));
    }
  }

  lemma RewardTiers(m: Accounts, coinbase: Transaction, totalFees: u64)
    requires TiersCurrent(m)
    ensures TiersCurrent(EpochRewards(m, coinbase, totalFees).accounts)
  {
    CreditTiers(m, coinbase.receiver, coinbase.amount);
    var m1 := ApplyCoinbase(m, coinbase, 0).accounts;
    assert TiersCurrent(m1);
    var share := ValidatorFeeShare(totalFees);
    var vs := GetValidators(m1);
    if TotalWeight(vs) != 0 {
      DistributeTiers(m1, vs, share, TotalWeight(vs), 0);
    }
    var d := DistributeRewards(m1, share);
    if d.result.Success? {
      CreditTiers(d.accounts, TREASURY_ADDRESS, SatSub(share, d.result.value));
    }
  }

  lemma SlashTiers(m: Accounts, a: string, bps: u64)
    requires TiersCurrent(m)
    ensures TiersCurrent(Slash(m, a, bps).accounts)
  {
    if a in m {
      var amount := SlashAmount(m[a].stakedBalance, bps);
      var cut := m[a].(stakedBalance := Wrap64(m[a].stakedBalance - amount)).UpdateValidatorTier();
      SaveTiers(m, cut);
      CreditTiers(Save(m, cut), TREASURY_ADDRESS, amount);
    }
  }

  lemma {:induction false} ReleaseTiers(m: Accounts, p: Pending, keys: seq<string>, epoch: u64, total: u64)
    requires TiersCurrent(m) && forall k :: k in keys ==> k in p
    ensures TiersCurrent(Release(m, p, keys, epoch, total).accounts)
    decreases |keys|
  {
    if keys != [] {
      var u := p[keys[0]];
      if u.unlockEpoch <= epoch {
        CreditTiers(m, u.address, u.amount);
        ReleaseTiers(Credit(m, u.address, u.amount).accounts, p, keys[1..], epoch, SatAdd(total, u.amount));
      } else {
        ReleaseTiers(m, p, keys[1..], epoch, total);
      }
    }
  }

  /** Every step keeps the tiers current, refused or not, legal or not. */
  lemma NextTiers(w: World, step: Step)
    requires TiersCurrent(w.accounts)
    ensures TiersCurrent(Next(w, step).accounts)
  {
    match step
    case Submit(tx) => ApplyTiers(w.accounts, tx);
    case ReleaseDue => ReleaseTiers(w.accounts, w.pending, Sorted(w.pending.Keys), w.epoch, 0);
    case Penalize(a, bps) => SlashTiers(w.accounts, a, bps);
    case CloseEpoch(coinbase, _) => RewardTiers(w.accounts, coinbase, TotalFees(w.txs));
    case _ =>
  }

  lemma {:induction false} RunTiers(s: State, steps: seq<Step>)
    requires TiersCurrent(s.world.accounts)
    ensures TiersCurrent(RunFrom(s, steps).world.accounts)
    decreases |steps|
  {
    if steps != [] {
      NextTiers(s.world, steps[0]);
      RunTiers(NextState(s, steps[0]), steps[1..]);
    }
  }

  lemma InitialTiers()
    ensures TiersCurrent(InitialAccounts(map[]).accounts)
  {
    CreditTiers(map[], ECOSYSTEM_ADDRESS, ECOSYSTEM_ALLOCATION);
    var m1 := Credit(map[], ECOSYSTEM_ADDRESS, ECOSYSTEM_ALLOCATION);
    CreditTiers(m1.accounts, FOUNDER_ADDRESS, FOUNDER_ALLOCATION);
    var m2 := ThenCredit(m1, FOUNDER_ADDRESS, FOUNDER_ALLOCATION);
    CreditTiers(m2.accounts, COMMUNITY_ADDRESS, COMMUNITY_ALLOCATION);
    var m3 := ThenCredit(m2, COMMUNITY_ADDRESS, COMMUNITY_ALLOCATION);
    CreditTiers(m3.accounts, TREASURY_ADDRESS, TREASURY_ALLOCATION);
    var m4 := ThenCredit(m3, TREASURY_ADDRESS, TREASURY_ALLOCATION);
    CreditTiers(m4.accounts, GENESIS_MINER, 50_000_000_000);
  }

  /** The state a legal run reaches, with the next block reward credited, and room for the pool. */
  lemma RewardedState(H: string -> Digest, w: World, step: Step)
    requires Sound(w) && TiersCurrent(w.accounts) && step.CloseEpoch? && Legal(H, w, step)
    ensures var o := Validators.ApplyCoinbase(w.accounts, step.coinbase, 0);
      && o.result.Success? && Keyed(o.accounts) && TiersCurrent(o.accounts)
      && Total(o.accounts) + ValidatorFeeShare(TotalFees(w.txs)) <= U64_MAX
  {
    LegalCoinbase(H, w, step);
    EpochBurnBounds(w.txs);
    CreditTiers(w.accounts, step.coinbase.receiver, step.coinbase.amount);
    CreditIfAnyMeaning(w.accounts, step.coinbase.receiver, step.coinbase.amount);
  }

  /** In every state a legal run reaches tiers are current, and closing the epoch there pays every
      address its epoch gain. If there is a validator, less than one unit per validator of the pool is
      lost to rounding and left to the treasury; distributing after the coinbase credit succeeds. */
  lemma EpochPoolPaidOut(H: string -> Digest, steps: seq<Step>, step: Step)
    requires LegalRun(H, Initial(), steps)
    ensures var w := RunFrom(Initial(), steps).world; var pool := ValidatorFeeShare(TotalFees(w.txs));
      && TiersCurrent(w.accounts)
      && (step.CloseEpoch? && Legal(H, w, step) ==>
            && EpochPaid(w.accounts, Next(w, step).accounts, step.coinbase, pool)
            && (GetValidators(w.accounts) != [] ==>
                  PoolPaid(w.accounts, pool) <= pool < PoolPaid(w.accounts, pool) + |GetValidators(w.accounts)|)
            && PoolDistributed(w, step.coinbase, pool))
  {
    InitialTiers();
    RunTiers(Initial(), steps);
    InitialInv();
    RunKeepsInv(H, Initial(), steps);
    InvSound(RunFrom(Initial(), steps));
    if step.CloseEpoch? && Legal(H, RunFrom(Initial(), steps).world, step) {
      ClosingPays(H, RunFrom(Initial(), steps).world, step);
    }
  }

  /** The distribution inside the closing: from the accounts after the coinbase credit. */
  ghost predicate PoolDistributed(w: World, coinbase: Transaction, pool: u64) {
    var minted := Validators.ApplyCoinbase(w.accounts, coinbase, 0);
    var o := DistributeRewards(minted.accounts, pool);
    && minted.result.Success?
    && (GetValidators(minted.accounts) != [] ==>
          o.result.Success? && o.result.value <= pool < o.result.value + |GetValidators(minted.accounts)|)
  }

  lemma ClosingPays(H: string -> Digest, w: World, step: Step)
    requires Sound(w) && TiersCurrent(w.accounts) && step.CloseEpoch? && Legal(H, w, step)
    ensures var pool := ValidatorFeeShare(TotalFees(w.txs));
      && EpochPaid(w.accounts, Next(w, step).accounts, step.coinbase, pool)
      && (GetValidators(w.accounts) != [] ==>
            PoolPaid(w.accounts, pool) <= pool < PoolPaid(w.accounts, pool) + |GetValidators(w.accounts)|)
      && PoolDistributed(w, step.coinbase, pool)
  {
    var pool := ValidatorFeeShare(TotalFees(w.txs));
    LegalCoinbase(H, w, step);
    EpochBurnBounds(w.txs);
    EpochMeaning(w.accounts, step.coinbase, TotalFees(w.txs));
    RewardedState(H, w, step);
    PoolMeaning(w.accounts, pool);
    if GetValidators(w.accounts) != [] {
      PoolPaidOut(w.accounts, pool);
    }
    var m1 := Validators.ApplyCoinbase(w.accounts, step.coinbase, 0).accounts;
    if GetValidators(m1) != [] {
      PoolPaidOut(m1, pool);
    }
  }
}
