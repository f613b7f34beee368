/** Who is paid what at the end of an epoch, address by address. */
module EpochPay {
  import opened Prelude
  import opened Types
  import opened MapSum
  import opened Order
  import opened Ledger
  import opened Fees
  import opened Validators

  /* ---------- The exact cuts ---------- */

  function ValidatorWeight(a: Account): nat {
    if a.IsValidator() then Weight(a) else 0
  }

  /** The exact cut, rounded down. */
  function Cut(pool: nat, weight: nat, weights: nat): nat
    requires weights > 0
  {
    MulNonNegative(pool, weight);
    DivNonNegative(pool * weight, weights);
    pool * weight / weights
  }

  lemma DivNonNegative(n: nat, d: nat)
    requires d > 0
    ensures n / d >= 0
  {
  }

  /** An account's cut of a pool. */
  function PoolShare(pool: nat, weights: nat): Account -> nat {
    (a: Account) => if a.IsValidator() && weights > 0 then Cut(pool, Weight(a), weights) else 0
  }

  ghost function Weights(m: Accounts): nat {
    Sum(m, ValidatorWeight)
  }

  /** What of a pool reaches the validators of `m`. */
  ghost function PoolPaid(m: Accounts, pool: nat): nat {
    Sum(m, PoolShare(pool, Weights(m)))
  }

  ghost function PoolGain(m: Accounts, pool: nat, a: string): nat {
    if a in m then PoolShare(pool, Weights(m))(m[a]) else 0
  }

  /** What an epoch adds to the balance of `a`: the block reward, its cut of the pool, and for the
      treasury what rounding or the lack of validators leaves over. */
  ghost function EpochGain(m: Accounts, coinbase: Transaction, pool: nat, a: string): int {
    (if a == coinbase.receiver then coinbase.amount else 0)
    + PoolGain(m, pool, a)
    + (if a == TREASURY_ADDRESS then pool - PoolPaid(m, pool) else 0)
  }

  /** Every balance grew by its epoch gain and nothing else about any account changed. */
  ghost predicate EpochPaid(m: Accounts, m': Accounts, coinbase: Transaction, pool: nat) {
    forall a :: Shifted(GetOrCreate(m, a), GetOrCreate(m', a), EpochGain(m, coinbase, pool, a), 0, false)
  }

  /* ---------- The cuts as sums over the map ---------- */

  ghost predicate ListsAll(keys: seq<string>, m: Accounts) {
    && (forall k :: k in keys <==> k in m)
    && forall i, j :: 0 <= i < j < |keys| ==> keys[i] != keys[j]
  }

  lemma ListsRest(keys: seq<string>, m: Accounts)
    requires keys != [] && ListsAll(keys, m)
    ensures ListsAll(keys[1..], m - {keys[0]})
    ensures ValidatorsAmong(m, keys[1..]) == ValidatorsAmong(m - {keys[0]}, keys[1..])
  {
    forall k
      ensures k in keys[1..] <==> k in m - {keys[0]}
    {
      if k in m && k != keys[0] {
        assert k in keys;
      }
    }
    ValidatorsAmongRest(m, m - {keys[0]}, keys[1..]);
  }

  lemma AmongFirst(m: Accounts, keys: seq<string>, pool: u64, w: nat)
    requires keys != [] && (forall k :: k in keys ==> k in m) && w > 0
    ensures var a := m[keys[0]]; var vs, rest := ValidatorsAmong(m, keys), ValidatorsAmong(m, keys[1..]);
      && WeightSum(vs) == ValidatorWeight(a) + WeightSum(rest)
      && ShareSum(vs, pool, w) == (if a.IsValidator() then Share(pool, Weight(a), w) else 0) + ShareSum(rest, pool, w)
  {
    var a, rest := m[keys[0]], ValidatorsAmong(m, keys[1..]);
    if a.IsValidator() {
      assert ([a] + rest)[1..] == rest;
    } else {
      assert [] + rest == rest;
    }
  }

  lemma {:induction false} WeightSumIsSum(m: Accounts, keys: seq<string>)
    requires ListsAll(keys, m)
    ensures WeightSum(ValidatorsAmong(m, keys)) == Weights(m)
    decreases |keys|
  {
    if keys == [] {
      assert m == map[];
    } else {
      ListsRest(keys, m);
      AmongFirst(m, keys, 0, 1);
      WeightSumIsSum(m - {keys[0]}, keys[1..]);
      SumRemove(m, ValidatorWeight, keys[0]);
    }
  }

  lemma {:induction false} ShareSumIsSum(m: Accounts, keys: seq<string>, pool: u64, w: nat)
    requires ListsAll(keys, m) && 0 < w && Weights(m) <= w
    ensures ShareSum(ValidatorsAmong(m, keys), pool, w) == Sum(m, PoolShare(pool, w))
    decreases |keys|
  {
    if keys == [] {
      assert m == map[];
    } else {
      var a := m[keys[0]];
      ListsRest(keys, m);
      AmongFirst(m, keys, pool, w);
      SumRemove(m, ValidatorWeight, keys[0]);
      ShareSumIsSum(m - {keys[0]}, keys[1..], pool, w);
      SumRemove(m, PoolShare(pool, w), keys[0]);
      if a.IsValidator() {
        ShareExact(pool, Weight(a), w);
      }
    }
  }

  lemma {:induction false} NoSharesNoSum(m: Accounts, pool: nat, w: nat)
    requires pool == 0 || w == 0
    ensures Sum(m, PoolShare(pool, w)) == 0
    decreases |m|
  {
    if m != map[] {
      var k :| k in m;
      SumRemove(m, PoolShare(pool, w), k);
      NoSharesNoSum(m - {k}, pool, w);
      NothingShared(m[k], pool, w);
    }
  }

  lemma NothingShared(a: Account, pool: nat, w: nat)
    requires pool == 0 || w == 0
    ensures PoolShare(pool, w)(a) == 0
  {
    if a.IsValidator() && w > 0 {
      Quotient(0, w, 0);
    }
  }

  lemma KeysListed(m: Accounts)
    ensures ListsAll(Sorted(m.Keys), m)
  {
    SortedAscending(m.Keys);
    AscendingDistinct(Sorted(m.Keys));
  }

  /* ---------- The three payments ---------- */

  /** Every balance grew by its cut of the pool and nothing else changed. */
  ghost predicate PoolSpread(m: Accounts, m': Accounts, pool: nat) {
    forall a :: Raised(GetOrCreate(m, a), GetOrCreate(m', a), PoolGain(m, pool, a))
  }

  /** The pool: every account gains its cut, and what is reported is their sum. */
  lemma PoolMeaning(m: Accounts, pool: u64)
    requires Keyed(m) && Total(m) + pool <= U64_MAX
    ensures var o := DistributeRewards(m, pool);
      && o.result == Success(PoolPaid(m, pool)) && PoolPaid(m, pool) <= pool
      && Keyed(o.accounts) && Total(o.accounts) == Total(m) + PoolPaid(m, pool)
    ensures PoolSpread(m, DistributeRewards(m, pool).accounts, pool)
  {
    var keys := Sorted(m.Keys);
    KeysListed(m);
    WeightSumIsSum(m, keys);
    DistributionMeaning(m, pool);
    if pool == 0 || Weights(m) == 0 {
      NoSharesNoSum(m, pool, Weights(m));
      forall a
        ensures PoolGain(m, pool, a) == 0
      {
        if a in m { NothingShared(m[a], pool, Weights(m)); }
      }
    } else {
      SharesReported(m, pool);
      forall a
        ensures Raised(GetOrCreate(m, a), GetOrCreate(DistributeRewards(m, pool).accounts, a), PoolGain(m, pool, a))
      {
        ShareGained(m, pool, a);
      }
    }
  }

  lemma SharesReported(m: Accounts, pool: u64)
    requires Keyed(m) && Total(m) + pool <= U64_MAX && pool > 0 && Weights(m) > 0
    ensures DistributeRewards(m, pool).result == Success(PoolPaid(m, pool))
  {
    var vs, w := GetValidators(m), Weights(m);
    KeysListed(m);
    WeightSumIsSum(m, Sorted(m.Keys));
    ShareSumIsSum(m, Sorted(m.Keys), pool, w);
    ValidatorWeightsExact(m);
    ReportedSum(m, vs, pool, w);
  }

  lemma ReportedSum(m: Accounts, vs: seq<Account>, pool: u64, w: nat)
    requires Keyed(m) && Total(m) + pool <= U64_MAX && 0 < w == WeightSum(vs)
    ensures Distribute(m, vs, pool, w, 0).result == Success(ShareSum(vs, pool, w))
  {
    ProRata(vs, pool);
    DistributeMeaning(m, vs, pool, w, 0);
  }

  lemma ShareGained(m: Accounts, pool: u64, a: string)
    requires Keyed(m) && Total(m) + pool <= U64_MAX && pool > 0 && Weights(m) > 0
    ensures Raised(GetOrCreate(m, a), GetOrCreate(DistributeRewards(m, pool).accounts, a), PoolGain(m, pool, a))
  {
    var keys, w := Sorted(m.Keys), Weights(m);
    KeysListed(m);
    WeightSumIsSum(m, keys);
    ShareOfAmong(m, keys, pool, w, a);
    DistributionMeaning(m, pool);
    assert Raised(GetOrCreate(m, a), GetOrCreate(DistributeRewards(m, pool).accounts, a),
                  ShareOf(GetValidators(m), pool, w, a));
    if a in m && m[a].IsValidator() {
      WeightAmong(m, keys, a);
      ShareExact(pool, Weight(m[a]), w);
    }
  }

  /** The coinbase: its receiver gains the amount and the share handed over with it. */
  lemma CoinbasePaid(m: Accounts, coinbase: Transaction, feeShare: u64)
    requires Keyed(m) && Total(m) + coinbase.amount + feeShare <= U64_MAX
    ensures var o := Validators.ApplyCoinbase(m, coinbase, feeShare);
      && (o.result.Success? <==> coinbase.sender == COINBASE_SENDER)
      && (o.result.Failure? ==> o == Outcome(m, Failure(NotCoinbase)))
      && (o.result.Success? ==> Keyed(o.accounts) && Total(o.accounts) == Total(m) + coinbase.amount + feeShare)
      && (o.result.Success? ==>
            forall a :: Raised(GetOrCreate(m, a), GetOrCreate(o.accounts, a),
                               if a == coinbase.receiver then coinbase.amount + feeShare else 0))
  {
    if coinbase.sender == COINBASE_SENDER {
      var m1 := CreditIfAny(m, coinbase.receiver, coinbase.amount).accounts;
      CreditIfAnyMeaning(m, coinbase.receiver, coinbase.amount);
      CreditIfAnyMeaning(m1, coinbase.receiver, feeShare);
      var m2 := CreditIfAny(m1, coinbase.receiver, feeShare).accounts;
      forall a
        ensures Raised(GetOrCreate(m, a), GetOrCreate(m2, a), if a == coinbase.receiver then coinbase.amount + feeShare else 0)
      {
        assert Raised(GetOrCreate(m, a), GetOrCreate(m1, a), if coinbase.receiver == a then coinbase.amount else 0);
        assert Raised(GetOrCreate(m1, a), GetOrCreate(m2, a), if coinbase.receiver == a then feeShare else 0);
      }
    }
  }

  /** A credit changes neither weights nor cuts: they look at stake and tier only. */
  lemma CreditKeepsSum(m: Accounts, to: string, amount: u64, f: Account -> nat)
    requires Keyed(m) && f(NewAccount(to)) == 0
    requires forall a: Account, b: u64 :: f(a.(balance := b)) == f(a)
    ensures Sum(CreditIfAny(m, to, amount).accounts, f) == Sum(m, f)
  {
    var account := GetOrCreate(m, to);
    if amount > 0 && account.balance + amount <= U64_MAX {
      var raised := account.(balance := account.balance + amount);
      SumUpdate(m, f, to, raised);
      assert f(raised) == f(account);
    }
  }

  lemma MintKeepsCuts(m: Accounts, coinbase: Transaction, pool: nat, m1: Accounts)
    requires Keyed(m) && m1 == CreditIfAny(m, coinbase.receiver, coinbase.amount).accounts
    ensures Weights(m1) == Weights(m) && PoolPaid(m1, pool) == PoolPaid(m, pool)
  {
    CreditKeepsSum(m, coinbase.receiver, coinbase.amount, ValidatorWeight);
    CreditKeepsSum(m, coinbase.receiver, coinbase.amount, PoolShare(pool, Weights(m)));
  }

  lemma MintKeepsGain(m: Accounts, m1: Accounts, pool: nat, a: string, amount: nat)
    requires Weights(m1) == Weights(m) && m.Keys <= m1.Keys && Raised(GetOrCreate(m, a), GetOrCreate(m1, a), amount)
    ensures PoolGain(m1, pool, a) == PoolGain(m, pool, a)
  {
    if a in m1 {
      assert m1[a].IsValidator() == GetOrCreate(m, a).IsValidator() && Weight(m1[a]) == Weight(GetOrCreate(m, a));
    }
  }

  lemma GainAdds(m: Accounts, coinbase: Transaction, pool: nat, a: string, x: Account, x1: Account, x2: Account, x3: Account)
    requires Raised(x, x1, if coinbase.receiver == a then coinbase.amount else 0)
    requires Raised(x1, x2, PoolGain(m, pool, a))
    requires PoolPaid(m, pool) <= pool && Raised(x2, x3, if TREASURY_ADDRESS == a then pool - PoolPaid(m, pool) else 0)
    ensures Shifted(x, x3, EpochGain(m, coinbase, pool, a), 0, false)
  {
  }

  /** Main theorem about closing an epoch: it fails exactly on a transaction that is no coinbase and
      then changes nothing; otherwise every address gains the block reward if it is the receiver, its
      exact cut of the pool if it is a validator, and the exact rest if it is the treasury. */
  lemma EpochMeaning(m: Accounts, coinbase: Transaction, totalFees: u64)
    requires Keyed(m) && Total(m) + coinbase.amount + ValidatorFeeShare(totalFees) <= U64_MAX
    ensures var o := EpochRewards(m, coinbase, totalFees);
      && (o.result.Success? <==> coinbase.sender == COINBASE_SENDER)
      && (o.result.Failure? ==> o == Outcome(m, Failure(NotCoinbase)))
      && (o.result.Success? ==> EpochPaid(m, o.accounts, coinbase, ValidatorFeeShare(totalFees)))
  {
    if coinbase.sender == COINBASE_SENDER {
      EpochPays(m, coinbase, totalFees);
    }
  }

  lemma EpochPays(m: Accounts, coinbase: Transaction, totalFees: u64)
    requires Keyed(m) && Total(m) + coinbase.amount + ValidatorFeeShare(totalFees) <= U64_MAX
    requires coinbase.sender == COINBASE_SENDER
    ensures var o := EpochRewards(m, coinbase, totalFees);
      o.result.Success? && EpochPaid(m, o.accounts, coinbase, ValidatorFeeShare(totalFees))
  {
    var m1, m2, m3, rest := EpochStages(m, coinbase, ValidatorFeeShare(totalFees));
    EpochSteps(m, coinbase, totalFees, m1, m2, m3, rest);
  }

  lemma EpochStages(m: Accounts, coinbase: Transaction, pool: u64)
    returns (m1: Accounts, m2: Accounts, m3: Accounts, rest: u64)
    requires Keyed(m) && Total(m) + coinbase.amount + pool <= U64_MAX
    ensures CreditIfAny(m, coinbase.receiver, coinbase.amount) == Outcome(m1, Success(Unit))
    ensures rest <= pool && DistributeRewards(m1, pool) == Outcome(m2, Success(pool - rest))
    ensures CreditIfAny(m2, TREASURY_ADDRESS, rest) == Outcome(m3, Success(Unit))
    ensures EpochPaid(m, m3, coinbase, pool)
  {
    m1 := MintStage(m, coinbase, pool);
    m2, rest := PoolStage(m1, pool);
    m3 := RestStage(m2, rest);
    GainsAdd(m, coinbase, pool, m1, m2, m3, rest);
  }

  lemma RestStage(m2: Accounts, rest: u64) returns (m3: Accounts)
    requires Keyed(m2) && Total(m2) + rest <= U64_MAX
    ensures CreditIfAny(m2, TREASURY_ADDRESS, rest) == Outcome(m3, Success(Unit)) && Paid(m2, m3, TREASURY_ADDRESS, rest)
  {
    CreditIfAnyMeaning(m2, TREASURY_ADDRESS, rest);
    m3 := CreditIfAny(m2, TREASURY_ADDRESS, rest).accounts;
  }

  lemma MintStage(m: Accounts, coinbase: Transaction, pool: u64) returns (m1: Accounts)
    requires Keyed(m) && Total(m) + coinbase.amount + pool <= U64_MAX
    ensures CreditIfAny(m, coinbase.receiver, coinbase.amount) == Outcome(m1, Success(Unit))
    ensures Keyed(m1) && Total(m1) + pool <= U64_MAX && m.Keys <= m1.Keys
    ensures Weights(m1) == Weights(m) && PoolPaid(m1, pool) == PoolPaid(m, pool)
    ensures Paid(m, m1, coinbase.receiver, coinbase.amount)
  {
    m1 := CreditIfAny(m, coinbase.receiver, coinbase.amount).accounts;
    CreditIfAnyMeaning(m, coinbase.receiver, coinbase.amount);
    MintKeepsCuts(m, coinbase, pool, m1);
  }

  lemma PoolStage(m1: Accounts, pool: u64) returns (m2: Accounts, rest: u64)
    requires Keyed(m1) && Total(m1) + pool <= U64_MAX
    ensures rest == pool - PoolPaid(m1, pool)
    ensures DistributeRewards(m1, pool) == Outcome(m2, Success(pool - rest))
    ensures Keyed(m2) && Total(m2) + rest <= U64_MAX && PoolSpread(m1, m2, pool)
  {
    PoolMeaning(m1, pool);
    m2, rest := DistributeRewards(m1, pool).accounts, pool - PoolPaid(m1, pool);
  }

  /** The three payments make up the call. */
  lemma EpochSteps(m: Accounts, coinbase: Transaction, totalFees: u64, m1: Accounts, m2: Accounts, m3: Accounts, rest: u64)
    requires coinbase.sender == COINBASE_SENDER && rest <= ValidatorFeeShare(totalFees)
    requires CreditIfAny(m, coinbase.receiver, coinbase.amount) == Outcome(m1, Success(Unit))
    requires DistributeRewards(m1, ValidatorFeeShare(totalFees)) == Outcome(m2, Success(ValidatorFeeShare(totalFees) - rest))
    requires CreditIfAny(m2, TREASURY_ADDRESS, rest) == Outcome(m3, Success(Unit))
    ensures EpochRewards(m, coinbase, totalFees) == Outcome(m3, Success(Unit))
  {
    assert Validators.ApplyCoinbase(m, coinbase, 0) == Outcome(m1, Success(Unit));
  }

  lemma GainsAdd(m: Accounts, coinbase: Transaction, pool: nat, m1: Accounts, m2: Accounts, m3: Accounts, rest: u64)
    requires rest == pool - PoolPaid(m, pool) && Weights(m1) == Weights(m) && m.Keys <= m1.Keys
    requires Paid(m, m1, coinbase.receiver, coinbase.amount)
    requires PoolSpread(m1, m2, pool)
    requires Paid(m2, m3, TREASURY_ADDRESS, rest)
    ensures EpochPaid(m, m3, coinbase, pool)
  {
    forall a
      ensures Shifted(GetOrCreate(m, a), GetOrCreate(m3, a), EpochGain(m, coinbase, pool, a), 0, false)
    {
      MintKeepsGain(m, m1, pool, a, if coinbase.receiver == a then coinbase.amount else 0);
      GainAdds(m, coinbase, pool, a, GetOrCreate(m, a), GetOrCreate(m1, a), GetOrCreate(m2, a), GetOrCreate(m3, a));
    }
  }
}
