/** The records of `src/types`: accounts, validator tiers and transactions. */
module Types {
  import opened Prelude

  datatype ValidatorTier = Igniter | Kinetic | Nexus {
    function MinimumStake(): u64 {
      match this
      case Igniter => 500_000_000_000
      case Kinetic => 5_000_000_000_000
      case Nexus => 25_000_000_000_000
    }

    function RewardBonusBps(): u64 {
      match this
      case Igniter => 0
      case Kinetic => 1500
      case Nexus => 3500
    }

    static function FromStakedBalance(staked: u64): Option<ValidatorTier> {
      if staked >= Nexus.MinimumStake() then Some(Nexus)
      else if staked >= Kinetic.MinimumStake() then Some(Kinetic)
      else if staked >= Igniter.MinimumStake() then Some(Igniter)
      else None
    }
  }

  datatype Account = Account(
    address: string,
    balance: u64,
    stakedBalance: u64,
    nonce: u64,
    validatorTier: Option<ValidatorTier>,
    isContract: bool,
    lastRewardEpoch: u64
  ) {
    function UpdateValidatorTier(): Account {
      this.(validatorTier := ValidatorTier.FromStakedBalance(stakedBalance))
    }

    predicate IsValidator() {
      validatorTier.Some?
    }
  }

  function NewAccount(address: string): Account {
    Account(address, 0, 0, 0, None, false, 0)
  }

  datatype TransactionType = Transfer | StakeLock | StakeUnlock | ContractDeploy | ContractCall

  datatype Transaction = Transaction(
    hash: string,
    sender: string,
    receiver: string,
    amount: u64,
    fee: u64,
    nonce: u64,
    signature: string,
    transactionType: TransactionType
  )

  datatype BlockHeader = BlockHeader(
    index: u64,
    timestamp: i64,
    previousHash: string,
    merkleRoot: string,
    nonce: u64,
    difficulty: u32,
    isEpochBlock: bool,
    epochIndex: u64,
    stateRoot: string
  )

  datatype Block = Block(
    header: BlockHeader,
    transactionHashes: seq<string>,
    hash: string,
    producerAddress: string,
    blockReward: u64
  )

  const TREASURY_ADDRESS := "kyv10000000000000000000000000000000000000000000000000000treasury00"
  const COINBASE_SENDER := "kyv10000000000000000000000000000000000000000000000000000coinbase0"
}
