/** The node's database and the operations that update it in place. Each method is the code's own
    sequence of reads and writes, proved to have the effect its specification function describes. */
module Db {
  import opened Prelude
  import opened Types
  import opened Order
  import opened Ledger
  import opened Fees
  import opened Emission
  import opened Validators
  import opened Staking
  import opened Genesis
  import opened Snapshots
  import opened Mining
  import opened Rules
  import opened Chain
  import Json
  import StateRoot

  class KyveraDb {
    const H: string -> Digest
    var accounts: Accounts
    /** The entries of the metadata tree under the pending-unstake prefix. */
    var pending: Pending
    var stateRoot: Option<string>
    var chainTip: Option<ChainTip>

    constructor (H: string -> Digest)
      ensures this.H == H && accounts == map[] && pending == map[] && stateRoot == None && chainTip == None
    {
      this.H := H;
      accounts, pending, stateRoot, chainTip := map[], map[], None, None;
    }

    /* ---------- Account store ---------- */

    method SaveAccount(account: Account)
      modifies this`accounts
      ensures accounts == Save(old(accounts), account)
    {
      accounts := accounts[account.address := account];
    }

    method GetAccount(address: string) returns (account: Option<Account>)
      ensures account == Lookup(accounts, address)
    {
      account := if address in accounts then Some(accounts[address]) else None;
    }

    method GetOrCreateAccount(address: string) returns (account: Account)
      ensures account == GetOrCreate(accounts, address)
    {
      var stored := GetAccount(address);
      match stored {
        case Some(a) => account := a;
        case None => account := NewAccount(address);
      }
    }

    method CreditAccount(address: string, amount: u64) returns (r: Result<Unit, LedgerError>)
      modifies this`accounts
      ensures Outcome(accounts, r) == Credit(old(accounts), address, amount)
    {
      var account := GetOrCreateAccount(address);
      if account.balance + amount > U64_MAX {
        return Failure(BalanceOverflow);
      }
      account := account.(balance := account.balance + amount);
      SaveAccount(account);
      r := Success(Unit);
    }

    method LockStake(address: string, amount: u64) returns (r: Result<Unit, LedgerError>)
      modifies this`accounts
      ensures Outcome(accounts, r) == Ledger.LockStake(old(accounts), address, amount)
    {
      var account := GetOrCreateAccount(address);
      if account.balance < amount {
        return Failure(InsufficientBalance(account.balance, amount));
      }
      account := account.(balance := account.balance - amount);
      if account.stakedBalance + amount > U64_MAX {
        return Failure(StakeOverflow);
      }
      account := account.(stakedBalance := account.stakedBalance + amount);
      account := account.UpdateValidatorTier();
      SaveAccount(account);
      r := Success(Unit);
    }

    method UnlockStake(address: string, amount: u64) returns (r: Result<Unit, LedgerError>)
      modifies this`accounts
      ensures Outcome(accounts, r) == Ledger.UnlockStake(old(accounts), address, amount)
    {
      var account := GetOrCreateAccount(address);
      if account.stakedBalance < amount {
        return Failure(InsufficientStake(account.stakedBalance, amount));
      }
      account := account.(stakedBalance := account.stakedBalance - amount);
      if account.balance + amount > U64_MAX {
        return Failure(BalanceOverflow);
      }
      account := account.(balance := account.balance + amount);
      account := account.UpdateValidatorTier();
      SaveAccount(account);
      r := Success(Unit);
    }

    method GetValidators() returns (validators: seq<Account>)
      ensures validators == Validators.GetValidators(accounts)
    {
      validators := [];
      var keys := Sorted(accounts.Keys);
      for i := 0 to |keys|
        invariant validators + ValidatorsAmong(accounts, keys[i..]) == Validators.GetValidators(accounts)
      {
        assert keys[i] in keys;
        var account := accounts[keys[i]];
        assert keys[i..][1..] == keys[i + 1..];
        ghost var rest := ValidatorsAmong(accounts, keys[i + 1..]);
        if account.IsValidator() {
          assert validators + ([account] + rest) == (validators + [account]) + rest;
          validators := validators + [account];
        } else {
          assert [] + rest == rest;
        }
      }
      assert keys[|keys|..] == [];
    }

    /* ---------- State transition ---------- */

    method ApplyTransaction(tx: Transaction) returns (r: Result<Unit, LedgerError>)
      modifies this`accounts
      ensures Outcome(accounts, r) == Apply(old(accounts), tx)
    {
      match tx.transactionType {
        case Transfer => r := ApplyTransfer(tx);
        case StakeLock => r := ApplyStakeLock(tx);
        case StakeUnlock => r := ApplyStakeUnlock(tx);
        case ContractDeploy => r := ApplyFeeOnly(tx);
        case ContractCall => r := ApplyFeeOnly(tx);
      }
    }

    method ApplyTransfer(tx: Transaction) returns (r: Result<Unit, LedgerError>)
      requires tx.transactionType == Transfer
      modifies this`accounts
      ensures Outcome(accounts, r) == Apply(old(accounts), tx)
    {
      var sender := GetOrCreateAccount(tx.sender);
      if tx.amount + tx.fee > U64_MAX {
        return Failure(CostOverflow);
      }
      var totalCost := tx.amount + tx.fee;
      if sender.balance < totalCost {
        return Failure(InsufficientBalance(sender.balance, totalCost));
      }
      if sender.nonce != tx.nonce {
        return Failure(NonceMismatch(sender.nonce, tx.nonce));
      }
      sender := sender.(balance := sender.balance - totalCost);
      sender := sender.(nonce := Wrap64(sender.nonce + 1));
      assert Charge(GetOrCreate(accounts, tx.sender), tx) == Success(sender);
      SaveAccount(sender);
      ghost var charged := accounts;
      assert Apply(old(accounts), tx) == Settle(charged, tx);
      var receiver := GetOrCreateAccount(tx.receiver);
      if receiver.balance + tx.amount > U64_MAX {
        return Failure(BalanceOverflow);
      }
      receiver := receiver.(balance := receiver.balance + tx.amount);
      SaveAccount(receiver);
      assert Outcome(accounts, Success(Unit)) == PayReceiver(charged, tx);
      var _ :- ApplyFeeSplit(tx.fee);
      r := Success(Unit);
    }

    method ApplyStakeLock(tx: Transaction) returns (r: Result<Unit, LedgerError>)
      requires tx.transactionType == StakeLock
      modifies this`accounts
      ensures Outcome(accounts, r) == Apply(old(accounts), tx)
    {
      var account := GetOrCreateAccount(tx.sender);
      if tx.amount + tx.fee > U64_MAX {
        return Failure(CostOverflow);
      }
      var totalCost := tx.amount + tx.fee;
      if account.balance < totalCost {
        return Failure(InsufficientBalance(account.balance, totalCost));
      }
      if account.nonce != tx.nonce {
        return Failure(NonceMismatch(account.nonce, tx.nonce));
      }
      account := account.(balance := account.balance - totalCost);
      if account.stakedBalance + tx.amount > U64_MAX {
        return Failure(StakeOverflow);
      }
      account := account.(stakedBalance := account.stakedBalance + tx.amount);
      account := account.(nonce := Wrap64(account.nonce + 1));
      account := account.UpdateValidatorTier();
      SaveAccount(account);
      var _ :- ApplyFeeSplit(tx.fee);
      r := Success(Unit);
    }

    method ApplyStakeUnlock(tx: Transaction) returns (r: Result<Unit, LedgerError>)
      requires tx.transactionType == StakeUnlock
      modifies this`accounts
      ensures Outcome(accounts, r) == Apply(old(accounts), tx)
    {
      var account := GetOrCreateAccount(tx.sender);
      if account.stakedBalance < tx.amount {
        return Failure(InsufficientStake(account.stakedBalance, tx.amount));
      }
      if account.balance < tx.fee {
        return Failure(InsufficientBalance(account.balance, tx.fee));
      }
      if account.nonce != tx.nonce {
        return Failure(NonceMismatch(account.nonce, tx.nonce));
      }
      account := account.(stakedBalance := account.stakedBalance - tx.amount);
      if account.balance + tx.amount > U64_MAX {
        return Failure(BalanceOverflow);
      }
      account := account.(balance := account.balance + tx.amount);
      account := account.(balance := account.balance - tx.fee);
      account := account.(nonce := Wrap64(account.nonce + 1));
      account := account.UpdateValidatorTier();
      SaveAccount(account);
      var _ :- ApplyFeeSplit(tx.fee);
      r := Success(Unit);
    }

    method ApplyFeeOnly(tx: Transaction) returns (r: Result<Unit, LedgerError>)
      requires tx.transactionType == ContractDeploy || tx.transactionType == ContractCall
      modifies this`accounts
      ensures Outcome(accounts, r) == Apply(old(accounts), tx)
    {
      var sender := GetOrCreateAccount(tx.sender);
      if sender.balance < tx.fee {
        return Failure(InsufficientBalance(sender.balance, tx.fee));
      }
      if sender.nonce != tx.nonce {
        return Failure(NonceMismatch(sender.nonce, tx.nonce));
      }
      sender := sender.(balance := sender.balance - tx.fee);
      sender := sender.(nonce := Wrap64(sender.nonce + 1));
      SaveAccount(sender);
      var _ :- ApplyFeeSplit(tx.fee);
      r := Success(Unit);
    }

    method ApplyFeeSplit(fee: u64) returns (r: Result<Unit, LedgerError>)
      modifies this`accounts
      ensures Outcome(accounts, r) == FeeSplit(old(accounts), fee)
    {
      var treasuryShare := fee / 10;
      if treasuryShare > 0 {
        var _ :- CreditAccount(TREASURY_ADDRESS, treasuryShare);
      }
      r := Success(Unit);
    }

    /* ---------- State root, snapshots ---------- */

    method ComputeStateRoot() returns (root: string)
      ensures root == StateRoot.Root(H, accounts)
    {
      SortedAscending(accounts.Keys);
      var accountHashes := HashAccounts();
      if accountHashes == [] {
        return H(EMPTY_STATE);
      }
      accountHashes := StateRoot.SortDigests(accountHashes);
      root := H(StateRoot.Join(accountHashes));
    }

    /** The hashing loop, in key order. */
    method HashAccounts() returns (accountHashes: seq<Digest>)
      ensures accountHashes == StateRoot.Hashes(H, accounts, Sorted(accounts.Keys))
    {
      accountHashes := [];
      var keys := Sorted(accounts.Keys);
      for i := 0 to |keys|
        invariant accountHashes == StateRoot.Hashes(H, accounts, keys)[..i]
      {
        StateRoot.HashesNext(H, accounts, keys, i);
        var digest: Digest := H(Json.Leaf(accounts[keys[i]]));
        accountHashes := accountHashes + [digest];
      }
    }

    function StateView(): State
      reads this
    {
      State(accounts, stateRoot)
    }

    method TakeSnapshot(blockHeight: u64, affectedAddresses: seq<string>) returns (snapshot: Snapshot)
      ensures snapshot == Take(H, StateView(), blockHeight, affectedAddresses)
    {
      var currentRoot := match stateRoot case Some(root) => root case None => H(EMPTY_STATE);
      var modifiedAccounts := [];
      for i := 0 to |affectedAddresses|
        invariant modifiedAccounts == Entries(accounts, affectedAddresses)[..i]
      {
        var account := GetAccount(affectedAddresses[i]);
        modifiedAccounts := modifiedAccounts + [(affectedAddresses[i], account)];
      }
      assert modifiedAccounts == Entries(accounts, affectedAddresses);
      snapshot := Snapshot(blockHeight, currentRoot, modifiedAccounts);
    }

    method RollbackToSnapshot(snapshot: Snapshot)
      modifies this`accounts, this`stateRoot
      ensures StateView() == Rollback(old(StateView()), snapshot)
    {
      var entries := snapshot.modifiedAccounts;
      for i := 0 to |entries|
        invariant Restore(accounts, entries[i..]) == Restore(old(accounts), entries)
        invariant stateRoot == old(stateRoot)
      {
        assert entries[i..][1..] == entries[i + 1..];
        match entries[i].1 {
          case Some(account) => SaveAccount(account);
          case None => accounts := accounts - {entries[i].0};
        }
      }
      assert entries[|entries|..] == [];
      stateRoot := Some(snapshot.stateRoot);
    }

    /* ---------- Epoch rewards and slashing ---------- */

    method ApplyCoinbase(coinbase: Transaction, validatorFeeShare: u64) returns (r: Result<Unit, LedgerError>)
      modifies this`accounts
      ensures Outcome(accounts, r) == Validators.ApplyCoinbase(old(accounts), coinbase, validatorFeeShare)
    {
      if coinbase.sender != COINBASE_SENDER {
        return Failure(NotCoinbase);
      }
      if coinbase.amount > 0 {
        var _ :- CreditAccount(coinbase.receiver, coinbase.amount);
      }
      if validatorFeeShare > 0 {
        var _ :- CreditAccount(coinbase.receiver, validatorFeeShare);
      }
      r := Success(Unit);
    }

    method DistributeValidatorRewards(totalShare: u64) returns (r: Result<u64, LedgerError>)
      modifies this`accounts
      ensures Outcome(accounts, r) == DistributeRewards(old(accounts), totalShare)
    {
      if totalShare == 0 {
        return Success(0);
      }
      var validators := GetValidators();
      if validators == [] {
        return Success(0);
      }
      var totalWeight := 0;
      for i := 0 to |validators|
        invariant totalWeight == TotalWeight(validators[..i])
      {
        assert validators[..i + 1][..i] == validators[..i];
        totalWeight := Wrap128(totalWeight + Weight(validators[i]));
      }
      assert validators[..|validators|] == validators;
      if totalWeight == 0 {
        return Success(0);
      }
      r := CreditShares(validators, totalShare, totalWeight);
    }

    /** The crediting loop, over weights fixed before the first credit. */
    method CreditShares(validators: seq<Account>, totalShare: u64, totalWeight: nat) returns (r: Result<u64, LedgerError>)
      requires totalWeight > 0
      modifies this`accounts
      ensures Outcome(accounts, r) == Distribute(old(accounts), validators, totalShare, totalWeight, 0)
    {
      var distributed: u64 := 0;
      for i := 0 to |validators|
        invariant Distribute(accounts, validators[i..], totalShare, totalWeight, distributed)
               == Distribute(old(accounts), validators, totalShare, totalWeight, 0)
      {
        assert validators[i..][1..] == validators[i + 1..];
        var share := Share(totalShare, Weight(validators[i]), totalWeight);
        if share > 0 {
          var _ :- CreditAccount(validators[i].address, share);
          distributed := SatAdd(distributed, share);
        }
      }
      assert validators[|validators|..] == [];
      r := Success(distributed);
    }

    method ApplyEpochRewards(coinbase: Transaction, totalFeesCollected: u64) returns (r: Result<Unit, LedgerError>)
      modifies this`accounts
      ensures Outcome(accounts, r) == EpochRewards(old(accounts), coinbase, totalFeesCollected)
    {
      var _ :- ApplyCoinbase(coinbase, 0);
      var validatorShare := ValidatorFeeShare(totalFeesCollected);
      var distributed :- DistributeValidatorRewards(validatorShare);
      var leftover := SatSub(validatorShare, distributed);
      if leftover > 0 {
        var _ :- CreditAccount(TREASURY_ADDRESS, leftover);
      }
      r := Success(Unit);
    }

    method SlashValidator(address: string, slashBps: u64) returns (r: Result<u64, LedgerError>)
      modifies this`accounts
      ensures Outcome(accounts, r) == Slash(old(accounts), address, slashBps)
    {
      var stored := GetAccount(address);
      if stored.None? {
        return Failure(NoAccount);
      }
      var account := stored.value;
      if account.stakedBalance == 0 {
        return Failure(NothingStaked);
      }
      var slashAmount := SatMul(account.stakedBalance, slashBps) / 10_000;
      if slashAmount == 0 {
        return Success(0);
      }
      account := account.(stakedBalance := Wrap64(account.stakedBalance - slashAmount));
      account := account.UpdateValidatorTier();
      SaveAccount(account);
      var _ :- CreditAccount(TREASURY_ADDRESS, slashAmount);
      r := Success(slashAmount);
    }

    /* ---------- Unbonding ---------- */

    method RequestUnstake(address: string, amount: u64, currentEpoch: u64) returns (r: Result<PendingUnstake, LedgerError>)
      modifies this`accounts, this`pending
      ensures StakingOutcome(accounts, pending, r)
           == Staking.RequestUnstake(old(accounts), old(pending), address, amount, currentEpoch)
    {
      var stored := GetAccount(address);
      if stored.None? {
        return Failure(NoAccount);
      }
      var account := stored.value;
      if account.stakedBalance < amount {
        return Failure(InsufficientStake(account.stakedBalance, amount));
      }
      account := account.(stakedBalance := account.stakedBalance - amount);
      account := account.UpdateValidatorTier();
      SaveAccount(account);
      var unlockEpoch := Wrap64(currentEpoch + UNBONDING_PERIOD_EPOCHS);
      var unstake := PendingUnstake(address, amount, currentEpoch, unlockEpoch);
      pending := pending[unstake.Key() := unstake];
      r := Success(unstake);
    }

    method ProcessMaturedUnstakes(currentEpoch: u64) returns (r: Result<u64, LedgerError>)
      modifies this`accounts, this`pending
      ensures StakingOutcome(accounts, pending, r) == ReleaseMatured(old(accounts), old(pending), currentEpoch)
    {
      var released := CreditMatured(currentEpoch);
      if released.Failure? {
        return Failure(released.error);
      }
      var (totalProcessed, keysToRemove) := released.value;
      RemoveEntries(keysToRemove);
      r := Success(totalProcessed);
    }

    /** The crediting scan, which collects the keys to remove and removes nothing yet. */
    method CreditMatured(currentEpoch: u64) returns (r: Result<(u64, seq<string>), LedgerError>)
      modifies this`accounts
      ensures var o := Release(old(accounts), pending, Sorted(pending.Keys), currentEpoch, 0);
        && accounts == o.accounts
        && (r.Failure? ==> o.result == Failure(r.error))
        && (r.Success? ==> o.result == Success(r.value.0))
      ensures r.Success? ==> (set k | k in r.value.1) == MaturedKeys(pending, currentEpoch)
    {
      var totalProcessed: u64 := 0;
      var keysToRemove := [];
      var keys := Sorted(pending.Keys);
      for i := 0 to |keys|
        invariant Release(accounts, pending, keys[i..], currentEpoch, totalProcessed)
               == Release(old(accounts), pending, keys, currentEpoch, 0)
        invariant Collected(pending, keys, i, currentEpoch, keysToRemove)
      {
        ReleaseNext(accounts, pending, keys, i, currentEpoch, totalProcessed);
        CollectedNext(pending, keys, i, currentEpoch, keysToRemove);
        var unstake := pending[keys[i]];
        if unstake.unlockEpoch <= currentEpoch {
          var _ :- CreditAccount(unstake.address, unstake.amount);
          totalProcessed := SatAdd(totalProcessed, unstake.amount);
          keysToRemove := keysToRemove + [keys[i]];
        }
      }
      assert keys[|keys|..] == [];
      CollectedAll(pending, currentEpoch, keysToRemove);
      r := Success((totalProcessed, keysToRemove));
    }

    method RemoveEntries(keys: seq<string>)
      modifies this`pending
      ensures pending == old(pending) - (set k | k in keys)
    {
      for i := 0 to |keys|
        invariant pending == old(pending) - (set k | k in keys[..i])
      {
        pending := pending - {keys[i]};
        assert keys[..i + 1] == keys[..i] + [keys[i]];
      }
      assert keys[..|keys|] == keys;
    }

    /* ---------- Genesis ---------- */

    method ApplyGenesisAllocations() returns (r: Result<Unit, LedgerError>)
      modifies this`accounts
      ensures Outcome(accounts, r) == GenesisAllocations(old(accounts))
    {
      var _ :- CreditAccount(ECOSYSTEM_ADDRESS, ECOSYSTEM_ALLOCATION);
      var _ :- CreditAccount(FOUNDER_ADDRESS, FOUNDER_ALLOCATION);
      var _ :- CreditAccount(COMMUNITY_ADDRESS, COMMUNITY_ALLOCATION);
      var _ :- CreditAccount(TREASURY_ADDRESS, TREASURY_ALLOCATION);
      assert ALLOCATED + MINING_ALLOCATION == TOTAL_SUPPLY;
      r := Success(Unit);
    }

    method MintGenesis() returns (r: Result<Unit, LedgerError>)
      modifies this`accounts
      ensures Outcome(accounts, r) == InitialAccounts(old(accounts))
    {
      var _ :- ApplyGenesisAllocations();
      var _ :- CreditAccount(GENESIS_MINER, GENESIS_BLOCK_REWARD);
      r := Success(Unit);
    }

    /** Block zero is mined first, so a failed search leaves the database untouched. */
    method InitializeChain(timestamp: i64) returns (r: Result<ChainTip, LedgerError>)
      modifies this`accounts, this`stateRoot, this`chainTip
      ensures old(chainTip).Some? ==> r == Failure(AlreadyInitialized) && accounts == old(accounts)
      ensures r.Failure? ==> stateRoot == old(stateRoot) && chainTip == old(chainTip)
      ensures old(chainTip).None? && r.Failure? ==>
        || (r.error == GenesisNotMined && accounts == old(accounts)
            && NoneBelow(H, GenesisHeader(H, timestamp), 0xFFFF_FFFF_FFFF_FFFF))
        || Outcome(accounts, Failure(r.error)) == InitialAccounts(old(accounts))
      ensures r.Success? ==> Outcome(accounts, Success(Unit)) == InitialAccounts(old(accounts))
      ensures r.Success? ==> stateRoot == Some(StateRoot.Root(H, accounts)) && chainTip == Some(r.value)
      ensures r.Success? ==>
        (exists genesis :: MinedGenesis(H, genesis, GENESIS_MINER, timestamp) && r.value == Advanced(GENESIS_TIP, genesis))
    {
      if chainTip.Some? {
        return Failure(AlreadyInitialized);
      }
      var genesis := ProduceGenesisBlock(H, GENESIS_MINER, timestamp);
      if genesis.Failure? {
        return Failure(GenesisNotMined);
      }
      var _ :- MintGenesis();
      var root := ComputeStateRoot();
      stateRoot := Some(root);
      var tip := Advanced(GENESIS_TIP, genesis.value);
      chainTip := Some(tip);
      r := Success(tip);
    }
  }
}
