# Kyvera core, modelled and proved in Dafny

Kyvera Continuum is a proof-of-work chain with an account ledger, staked validators and a fixed
emission schedule. This project models the deterministic core of its Rust implementation and proves
what that core is for:

- **Supply.** In every state a legal run reaches from genesis, balances, stakes, pending withdrawals
  and fees not yet distributed, plus what was burnt or replaced on the way, are the four genesis
  allocations plus the mined supply. So no checked addition on a balance or a stake ever fails, and a
  refused operation changes nothing (`Supply`).
- **Transactions.** One transaction is all-or-nothing under the supply bound, including self-transfers
  and the treasury as a party; without the bound, the exact condition for a partial write (`Ledger`).
- **Rewards, emission, fees, unbonding** (`Validators`, `EpochPay`, `Tiers`, `Emission`, `Fees`, `Staking`, `Unbonding`).
- **Commitments.** Merkle proofs are complete and sound, Merkle roots and state roots bind what they
  commit to, and exactly which lists share a root; every soundness statement constructs the collision it
  falls back on (`Merkle`, `MerkleLists`, `StateRoot`).
- **Rollback** restores the ledger exactly, and when it does not (`Snapshots`).
- **The mempool's** three indexes agree, and eviction keeps the best-paying transactions (`Mempool`).
- **Accepted chains**: what the block rules and the chain tip keep, and when a validated list of
  transactions executes (`Rules`, `Acceptance`, `HeaderHash`, `Chain`, `Execution`).

## How the model is built

Modules follow the source files. Operations that update the database, the pool, the transaction store
or the chain tip in place are methods of classes (`Db.KyveraDb`, `Mempool.MempoolObject`,
`TxStore.Store`, `Chain.TipCell`) that perform the code's own sequence of reads and writes; each is
proved to have the effect a specification function describes. The theorems are about those functions.

- `u64`, `u32` and `i64` are bounded integers. Arithmetic the code does not check wraps, as it does in
  the release profile; a debug build would stop there instead. Checked, saturating and widened
  arithmetic is modelled as such.
- SHA3-256 (section 6.1 of FIPS 202) is a parameter `H` from strings to 64-character strings and is
  never assumed injective. A statement that rests on collision resistance returns an optional
  collision, and says which of the strings hashed on each side collide.
- The sled trees are maps scanned in ascending key order. The metadata tree is split into the pending
  withdrawals, the state root and the chain tip. Account serialisation is the concrete JSON text, and
  is proved injective.
- The clock is a parameter of block production and validation.
- An error is a value; a call that fails after writing returns the partly written state with it.
- The code has no driver that strings the operations together. A run in `Supply` is a list of steps
  (transactions, direct stake locks and unlocks, unstake requests, releases, slashes, epoch closings).
  An epoch is the transactions applied since the last closing; closing it is one
  `apply_epoch_rewards` call with their total fees and the next epoch's coinbase. A legal step has a
  slash rate of at most 10,000 basis points and an epoch below the emission's cast limit. Nothing else
  is assumed about transactions: not their fees, senders or signatures.

## What the proofs found

- The tier bonus is a saturating product divided afterwards. Above 5.27 million KYV staked the Nexus
  bonus stops growing, and falls short of the +35% the documentation promises
  (`Validators.BonusExactUntilSaturation`, `Validators.NexusBonusSaturates`). The ten percent slash
  stops growing above 18.4 million KYV in the same way (`Validators.StandardSlashes`).
- The emission schedule mints 28,999,999.99565 KYV in all, about 3% of the 900 million KYV reserved
  for mining. From height 290,000 * 2^32 the narrowing of the halving count restarts it
  (`Emission.EmissionWithinCap`).
- Rolling back a snapshot taken before any state root was stored restores the accounts, but leaves
  the empty-state root behind (`Snapshots.RollbackIdentity`).
- A second unstake request by one address in one epoch overwrites the first, whose amount is lost
  (`Staking.SecondRequestReplaces`). What is paid at the end is the amount of the last request of the
  epoch, over every run (`Unbonding.PendingUnchanged`, `Unbonding.UnbondingLifecycle`); the supply
  theorem counts the rest as `replaced`.
- The block rules do not look at the stake behind a stake unlock, skip coinbases and unknown senders,
  and check every transaction against the state before the block: `Execution.UncoveredUnlockAccepted`,
  `Execution.CoinbaseAccepted`, `Execution.UnknownSenderAccepted` and `Execution.RepeatedSenderAccepted`
  are lists they accept that do not execute. If every sender was checked, an accepted list executes exactly if no sender
  repeats and all unlocks are covered; with distinct senders, exactly if the unlocks and the skipped
  senders are covered (`Execution.ValidatedExecutes`). `Execution.ListExecutesExactly` gives the
  condition for any list at all.
- A Merkle root does not fix the number of leaves (`MerkleLists.OddListRepeatedLast`). Exactly which lists
  share a root, up to a collision: those that fill up to the same full tree, the deeper one taken at the
  level where it is as deep as the other (`MerkleLists.SameRootExactly`).
- `verify_proof` does not check the length of a proof: a shorter one proves an inner node, and a longer one
  a string that hashes up to a leaf (`Merkle.InnerNodeAccepted`, `Merkle.UnlistedAccepted`).
  `Merkle.ProofSound` with `Merkle.NodeHasProof` and `Merkle.LongerHasProof` says exactly which are accepted.
- The rules look for the coinbase of an epoch block in first place only and skip every other one, so they
  accept any further coinbases, of whatever amounts (`Rules.FurtherCoinbasesAccepted`). A comment says
  exactly one.
- Header fields are hashed without separators, so a block hash commits to each field by itself
  (`HeaderHash.HeaderCommits`), but not to two neighbouring ones together
  (`HeaderHash.NeighboursRunTogether`). For two blocks on one predecessor it still fixes the Merkle root,
  except after a hash that repeats itself (`HeaderHash.SameTextSameRoot`, `HeaderHash.RootsRunTogether`).
- The scan prefix of the sender index has no end mark, so an address that begins with another is listed
  under it (`TxStore.LongerAddressListed`). The exact condition is that no other sender's key starts like
  the address's own (`TxStore.ScanOwnExactly`); equal address lengths ensure it.
- The validator share of an epoch wraps for total fees above 461 million KYV, which the supply bound does
  not rule out (`Fees.ValidatorShareExact`, `Fees.ValidatorShareWraps`). The supply theorem covers it: the
  burn is then larger.
- A comment says the state root sorts accounts by address; the code sorts their hashes.
  `StateRoot.RootCanonical` is about the code.
- Where comments and code differ elsewhere, the model follows the code.

## Model

| member | source | states |
|---|---|---|
| Supply.SupplyAccounted | src/consensus/genesis.rs:14-48 | after any legal run from genesis: held value + burnt + replaced = four allocations + mined supply, held value is at most TOTAL_SUPPLY, and the next legal step cannot overflow and changes nothing if refused |
| Supply.EveryStepKeeps | src/storage/state_trie.rs:156-316 | every kind of step from a sound state: value enters only as the block reward and leaves only as burnt fees or a replaced withdrawal, no checked addition fails, a release or epoch reward is never refused |
| Supply.RunKeepsInv | src/consensus/validators.rs:113-172 | the balanced books are an invariant of all legal runs |
| Supply.InitialInv | src/consensus/genesis.rs:58-123 | the books balance after chain initialisation |
| Supply.EpochAdvances | src/consensus/coinbase.rs:130-140 | the mined supply grows by exactly what a legal step mints |
| Ledger.TransactionMeaning | src/storage/state_trie.rs:156-316 | under the supply bound a transaction succeeds iff nonce, balance and stake suffice; a refusal changes nothing; a success changes sender, receiver and treasury as described address by address and lowers the total by fee minus a tenth |
| Ledger.RefusalReason | src/storage/state_trie.rs:172-299 | the reason given for a refusal is true, with the amounts there are and are needed, funds before nonce |
| Ledger.RequiredIsCost | src/consensus/rules.rs:364-375 | what admission demands is the cost of the transaction, cut off at the largest u64 |
| Ledger.UnknownSender | src/storage/account_store.rs:43-48 | an address never seen can only send a free first transaction |
| Ledger.PartialWriteExactly | src/storage/state_trie.rs:198-208 | for every map: an error leaves a partial write iff the charge went through and one of the two later credits would overflow; success iff charged and no such overflow |
| Ledger.PartialWriteExample | src/storage/state_trie.rs:198-206 | a concrete transfer that fails and leaves the debit in place |
| Ledger.LockConserves | src/storage/account_store.rs:113-132 | on every map: locking succeeds iff the balance covers it and the stake does not overflow; it then moves the amount from balance to stake of one account, whose tier follows, and changes nothing else; a failure changes nothing and gives the true reason |
| Ledger.UnlockConserves | src/storage/account_store.rs:137-156 | the same for unlocking, from stake to balance |
| Ledger.CreditMeaning | src/storage/account_store.rs:70-76 | within the supply bound a credit succeeds, adds to one balance, creates at most that account and changes nothing else |
| Ledger.CreditOutcome | src/storage/account_store.rs:70-76 | without the bound: a credit succeeds iff the sum fits, else changes nothing, and never touches a nonce |
| Db.KyveraDb.SaveAccount | src/storage/account_store.rs:13-22 | overwrites the entry under the account's own address |
| Db.KyveraDb.GetAccount | src/storage/account_store.rs:28-38 | the stored account, or none |
| Db.KyveraDb.GetOrCreateAccount | src/storage/account_store.rs:43-48 | the stored account, or a zero account, without storing it |
| Db.KyveraDb.CreditAccount | src/storage/account_store.rs:70-76 | has the effect Ledger.CreditMeaning and Ledger.CreditOutcome describe |
| Db.KyveraDb.LockStake | src/storage/account_store.rs:113-132 | has the effect Ledger.LockConserves describes |
| Db.KyveraDb.UnlockStake | src/storage/account_store.rs:137-156 | has the effect Ledger.UnlockConserves describes |
| Db.KyveraDb.GetValidators | src/storage/account_store.rs:161-176 | the accounts with a tier, in key order |
| Db.KyveraDb.ApplyTransaction | src/storage/state_trie.rs:156-170 | the in-place state transition, dispatching on the type, has the effect Ledger.TransactionMeaning describes |
| Db.KyveraDb.ApplyTransfer | src/storage/state_trie.rs:172-214 | saves the sender before it re-reads the receiver, so coinciding addresses work |
| Db.KyveraDb.ApplyStakeLock | src/storage/state_trie.rs:216-245 | the stake-lock case of the transition |
| Db.KyveraDb.ApplyStakeUnlock | src/storage/state_trie.rs:247-278 | the stake-unlock case: stake and fee are checked before the nonce, and the amount is credited before the fee is taken |
| Db.KyveraDb.ApplyFeeOnly | src/storage/state_trie.rs:280-299 | contract transactions pay their fee only |
| Db.KyveraDb.ApplyFeeSplit | src/storage/state_trie.rs:305-316 | a tenth of the fee, rounded down, goes to the treasury; nothing is written for zero |
| Snapshots.RollbackIdentity | src/storage/state_trie.rs:94-150 | rolling back restores the accounts iff only recorded addresses changed, and the whole state iff besides a root had been stored; otherwise the empty-state root is left |
| Snapshots.UnwindRestores | src/storage/state_trie.rs:132-150 | any stack of blocks, with failing transactions and new accounts, undone newest first gives the first accounts back from every state, and the first root iff one was stored or the stack is empty |
| Snapshots.RunBlockTouches | src/storage/state_trie.rs:172-316 | a list of transactions, some failing partway, changes only senders, receivers and the treasury |
| Snapshots.RestoreMeaning | src/storage/state_trie.rs:133-144 | restoring overwrites exactly the recorded addresses, deleting those that did not exist |
| Snapshots.SnapshotRecords | src/storage/state_trie.rs:94-114 | a snapshot holds the height and, address by address, the account as it is or that there is none |
| Db.KyveraDb.TakeSnapshot | src/storage/state_trie.rs:94-114 | records the entry of each given address and the root, or the empty-state root |
| Db.KyveraDb.RollbackToSnapshot | src/storage/state_trie.rs:132-150 | the in-place rollback loop has the effect Snapshots.RollbackIdentity is about |
| StateRoot.RootCanonical | src/storage/state_trie.rs:41-72 | the root is the same in whatever order the accounts are scanned |
| StateRoot.RootCommits | src/storage/state_trie.rs:41-72 | two account maps with one root are equal, or a collision between strings hashed for the two roots |
| StateRoot.AccountCollision | src/storage/state_trie.rs:54-58 | an account that differs under one root leads to two colliding leaves |
| StateRoot.SortIgnoresOrder | src/storage/state_trie.rs:67-68 | sorting the hashes forgets the scan order |
| StateRoot.SortSorts | src/storage/state_trie.rs:67-68 | the sort that stands for the library's gives the same digests, as often, in non-descending order |
| StateRoot.JoinInjective | src/storage/state_trie.rs:70-71 | the joined digests split in one way only |
| StateRoot.JoinAt | src/storage/state_trie.rs:70-71 | the digests are joined in their order |
| StateRoot.EmptyStateRoot | src/storage/state_trie.rs:62-64 | what a snapshot records for a missing root is the root of no accounts |
| Json.LeafInjective | src/storage/state_trie.rs:54-57 | the hashed text of an account, address then JSON, determines the account, whatever characters the address has |
| Json.LeafExample | src/storage/state_trie.rs:54-57 | the hashed text of one account, piece by piece |
| Db.KyveraDb.ComputeStateRoot | src/storage/state_trie.rs:41-72 | the code's hashing loop, the sort described by StateRoot.SortSorts and the joining compute the root of the map |
| Validators.DistributionMeaning | src/consensus/validators.rs:62-98 | paying a pool out never fails, raises the total by what it reports, never overdraws the pool, misses it by fewer units than validators, and pays each address its shares and nobody else |
| Validators.PoolPaidOut | src/consensus/validators.rs:62-98 | with current tiers and a validator present, the same with no condition on weights |
| Validators.ShareExact | src/consensus/validators.rs:90 | the u128 product and the narrowing to u64 lose nothing |
| Validators.ProRata | src/consensus/validators.rs:86-96 | the rounded shares sum to at most the pool and miss it by fewer units than validators |
| Validators.ValidatorWeightsExact | src/consensus/validators.rs:76-79 | the u128 total is the exact sum of the weights |
| Validators.EachValidatorsShare | src/consensus/validators.rs:86-96 | a validator gains the share of its own weight, other accounts gain nothing |
| Validators.MoreStakeNeverLess | src/consensus/validators.rs:46-98 | a validator with at least as much stake gains at least as much, across tiers and saturation |
| Validators.WeightMonotone | src/consensus/validators.rs:46-53 | weight never falls as stake grows |
| Validators.BonusExactUntilSaturation | src/consensus/validators.rs:51 | a basis-point cut of a stake is exact iff the product stays below 18,446,744,073,709,560,000 |
| Validators.NexusBonusSaturates | README.md:112 | a stake of ten million KYV whose weight falls short of the promised 35 percent |
| Validators.EpochRewardsMeaning | src/consensus/validators.rs:113-136 | an epoch reward fails iff it is not a coinbase, changing nothing, and otherwise adds exactly coinbase amount plus validator share |
| EpochPay.EpochMeaning | src/consensus/validators.rs:113-136 | closing an epoch adds to every balance exactly the block reward if it is the receiver, its exact cut of the pool if it is a validator, and the exact rest if it is the treasury; nothing else about any account changes, and a refusal changes nothing |
| EpochPay.PoolMeaning | src/consensus/validators.rs:62-98 | every account gains pool times its weight over all weights, rounded down, what is reported is the sum, and nothing else changes |
| EpochPay.CoinbasePaid | src/consensus/coinbase.rs:61-82 | the receiver of a coinbase gains amount plus fee share and nobody else anything |
| Validators.ValidatorsListed | src/storage/account_store.rs:161-176 | the validator list holds exactly the accounts with a tier, by ascending address |
| Validators.TierExactly | src/types/account.rs:67-99 | the stake thresholds of the three tiers |
| Validators.WeightExactly | src/consensus/validators.rs:46-53 | the weight of every stake in closed form: no bonus, 15 percent, 35 percent, and the fixed bonus from saturation on |
| Validators.SlashConserves | src/consensus/validators.rs:145-172 | at rates up to 10,000 a slash succeeds iff there is a staked account, takes the amount from its stake, updates its tier, gives the amount to the treasury and changes nothing else; an amount of zero changes nothing; a refusal gives the true reason |
| Validators.SlashAmountExactly | src/consensus/validators.rs:157 | the amount is the given part of the stake iff the product stays below saturation, and fixed above |
| Validators.SlashConservesExactly | src/consensus/validators.rs:157-169 | at any rate: conserves value iff the amount does not exceed the stake |
| Validators.StandardSlashes | src/consensus/validators.rs:25-29 | the two standard rates take a hundredth and a tenth exactly iff the stake is below the saturation point |
| Validators.SlashBeyondStakeExample | src/consensus/validators.rs:163 | a rate of 20,000 makes the unchecked subtraction wrap |
| Db.KyveraDb.ApplyCoinbase | src/consensus/coinbase.rs:61-82 | credits reward and fee share only for a coinbase sender, and writes nothing for zero amounts |
| Db.KyveraDb.DistributeValidatorRewards | src/consensus/validators.rs:62-98 | guards, weight total and crediting loop have the effect Validators.DistributionMeaning describes |
| Db.KyveraDb.CreditShares | src/consensus/validators.rs:84-97 | the crediting loop over weights fixed beforehand |
| Db.KyveraDb.ApplyEpochRewards | src/consensus/validators.rs:113-136 | coinbase, pool and leftover in order, as in Validators.EpochRewardsMeaning |
| Db.KyveraDb.SlashValidator | src/consensus/validators.rs:145-172 | the in-place slash, as in Validators.SlashConservesExactly |
| Tiers.EpochPoolPaidOut | src/consensus/validators.rs:113-136 | in every reachable state tiers are current, and closing the epoch there pays every address its epoch gain, with less than one unit per validator left to rounding |
| Tiers.NextTiers | src/types/account.rs:129-131 | every step, refused or not, keeps each stored tier the one its stake earns |
| Fees.FeeSplitExact | src/mempool/fees.rs:92-101 | burn, validator and treasury parts sum to the fee for every fee, even where a product wraps |
| Fees.FeeSplitParts | src/mempool/fees.rs:71-101 | validators get 40 percent and the treasury a tenth iff the products fit, and the rest is burnt |
| Fees.PortionExact | src/mempool/fees.rs:71-87 | a part is the advertised fraction iff fee times rate fits in a u64 |
| Fees.FormulasAgree | src/consensus/coinbase.rs:88-91 | the two formulas for treasury and validator share agree while nothing wraps |
| Fees.ValidatorShareExact | src/consensus/coinbase.rs:88-91 | the validator share is 40 percent of the fees iff their product with 40 fits in a u64 |
| Fees.ValidatorShareWraps | src/consensus/coinbase.rs:90 | a total of fees within the supply whose share is far below 40 percent |
| Fees.TotalFeesWraps | src/mempool/fees.rs:136-138 | the u64 sum of fees is the integer sum modulo 2^64 |
| Fees.EpochBurnBounds | src/storage/state_trie.rs:305-316 | what an epoch destroys is never negative, and between T/2 and T/2 + (9n+8)/10 while T times 40 fits |
| Emission.CalculateMinedSupply | src/consensus/coinbase.rs:130-140 | the saturating loop returns the sum of all rewards up to the height, cut off at the largest u64 |
| Emission.RewardFormula | src/chain/mining.rs:46-52 | below the cast limit the reward is the genesis reward halved once per interval |
| Emission.RewardExactly | src/chain/mining.rs:46-52 | the reward at every height, narrowing of the halving count included |
| Emission.RewardsNeverIncrease | src/chain/mining.rs:46-52 | rewards never increase below the cast limit, and start over at it |
| Emission.RewardSumClosedForm | src/consensus/coinbase.rs:130-140 | the sum of rewards in closed form for every height below the limit |
| Emission.HalvingSumIsTwiceLessBits | src/chain/mining.rs:51 | the sum of all halvings of n is 2n minus the number of its one bits |
| Emission.EmissionReachesCap | src/consensus/coinbase.rs:130-140 | from height 10,439,999 the mined supply is 28,999,999,995,650,000 |
| Emission.EmissionWithinCap | src/consensus/genesis.rs:18 | the emission stays within its cap iff the height is below 290,000 * 2^32 |
| Coinbase.BuiltCoinbaseVerifies | src/consensus/coinbase.rs:26-125 | a built coinbase verifies for a height iff it was built for it |
| Coinbase.VerifiedExactly | src/consensus/coinbase.rs:96-125 | the check accepts exactly the transactions that agree with the built one in sender, amount, nonce and hash |
| Coinbase.BuiltCoinbasePays | src/consensus/coinbase.rs:26-57 | a built coinbase is a free transfer of the reward to the miner |
| Coinbase.CoinbaseTextInjective | src/consensus/coinbase.rs:48-50 | one hashed text stands for one block hash and height |
| Genesis.GenesisTotal | src/consensus/genesis.rs:58-123 | genesis credits the four allocations and one reward without error, and allocations plus mining make the total supply |
| Genesis.GenesisBalances | src/consensus/genesis.rs:30-66 | exactly who receives what: four accounts with these balances, no stake, nonce or tier, and no others |
| Db.KyveraDb.ApplyGenesisAllocations | src/consensus/genesis.rs:101-123 | four credits in order, stopping at the first that overflows |
| Db.KyveraDb.InitializeChain | src/consensus/genesis.rs:58-98 | refuses an initialised chain and writes nothing; writes nothing if no nonce mines block zero; stops at the first genesis credit that overflows; else stores accounts, root and the tip after a mined block zero |
| Staking.RequestMeaning | src/consensus/staking.rs:40-72 | a request succeeds iff the stake covers it, moves stake to the pending pool less an entry it replaces, and a refusal changes nothing |
| Staking.RequestExactly | src/consensus/staking.rs:40-72 | one account loses the stake and its tier follows, one entry that unlocks ten epochs on is written and returned, nothing else changes; a refusal gives the true reason |
| Staking.RequestOwed | src/consensus/staking.rs:40-86 | owner by owner: a request changes what is owed to its own address only |
| Staking.SecondRequestReplaces | src/consensus/staking.rs:74-86 | two granted requests of one address in one epoch leave the second amount, and the first leaves the books |
| Staking.ReleaseMeaning | src/consensus/staking.rs:108-130 | a release credits every matured entry to its owner, removes exactly those, reports their sum and conserves value |
| Staking.ReleasePaysOwner | src/consensus/staking.rs:108-130 | the owner of a matured entry gains exactly its matured amounts, and the entry is gone |
| Staking.ReleaseOwed | src/consensus/staking.rs:108-130 | owner by owner: what is gained is what is owed less |
| Staking.ReleasePaysEntry | src/consensus/staking.rs:114-121 | a matured entry adds exactly its amount to its owner's balance and nothing to any other, compared with a release without it |
| Staking.ReleaseTwice | src/consensus/staking.rs:108-130 | repeating a release in one epoch returns 0 and changes nothing |
| Staking.MaturedFirst | src/consensus/staking.rs:78-83 | matured entries form a prefix of the scan |
| Keys.UnstakeKeyInjective | src/consensus/staking.rs:80-83 | a key stands for one unlock epoch, address and request epoch |
| Keys.UnstakeKeyOrder | src/consensus/staking.rs:78-83 | an entry that unlocks earlier sorts earlier |
| Keys.PaddedOrder | src/storage/tx_store.rs:32-35 | zero-padded decimals are injective and sort as the numbers do |
| Keys.UnstakeKeyExample | src/consensus/staking.rs:80-83 | the text of one key |
| Db.KyveraDb.RequestUnstake | src/consensus/staking.rs:40-72 | the in-place request, as in Staking.RequestMeaning |
| Db.KyveraDb.ProcessMaturedUnstakes | src/consensus/staking.rs:108-130 | credits during the scan, removes afterwards; a failing credit leaves all entries pending |
| Db.KyveraDb.CreditMatured | src/consensus/staking.rs:109-121 | the scan credits matured entries and collects exactly their keys |
| Unbonding.RequestGranted | src/consensus/staking.rs:52-69 | a request the stake covers is granted: it takes the stake at once, leaves the balance alone and unlocks ten epochs later |
| Unbonding.PendingUntilReleased | src/consensus/staking.rs:108-130 | over every legal run an entry is still pending iff no release ran at or after its unlock epoch |
| Unbonding.PendingUnchanged | src/consensus/staking.rs:40-130 | over every legal run without a due release an entry holds exactly the amount of the last granted request of its owner in its epoch |
| Unbonding.AmountSettled | src/consensus/staking.rs:80-83 | once the request epoch is over nothing writes the entry any more |
| Unbonding.EntryLife | src/consensus/staking.rs:108-130 | an entry over a run, the release that ends it and any run after that: held, paid once, never back |
| Unbonding.NeverReturns | src/consensus/staking.rs:108-130 | a matured entry that is gone never comes back |
| Unbonding.UnbondingLifecycle | src/consensus/staking.rs:40-130 | the stake leaves at once; over every run the entry is there until exactly the first release at or after request epoch + 10, with the amount last requested in its epoch; that release pays exactly this amount to the owner, and over every later run the entry never returns |
| Unbonding.OwnerAccount | src/consensus/staking.rs:40-130 | over every legal run an address is owed what it requested less what was released to it or replaced |
| Merkle.BuildNextLayer | src/chain/merkle.rs:65-84 | each parent hashes its two children in order; the last node of an odd layer is paired with itself |
| Merkle.ComputeMerkleRoot | src/chain/merkle.rs:40-60 | the loop computes the recursive tree root, or the sentinel for an empty list |
| Merkle.GenerateProof | src/chain/merkle.rs:98-146 | a proof exists iff the target is listed; it carries the root, is as deep as the tree and passes its check |
| Merkle.VerifyProof | src/chain/merkle.rs:151-162 | accepts iff hashing up from the leaf along the siblings ends at the root |
| Merkle.ProofClimbsToRoot | src/chain/merkle.rs:98-162 | from every leaf, through every odd layer, its siblings lead to the root |
| Merkle.EmptyListRoot | src/chain/merkle.rs:41-45 | the sentinel root of an empty list |
| Merkle.ProofSound | src/chain/merkle.rs:151-162 | an accepted proof of full depth is for a listed leaf, a shorter one for a node that many levels up, a longer one for a string whose extra siblings lead to a listed leaf, or a collision between strings hashed by check and tree |
| Merkle.FullProofSound | src/chain/merkle.rs:151-162 | the induction behind it, through duplicated nodes |
| Merkle.TreeBinding | src/chain/merkle.rs:40-92 | lists of one length and one root are equal, or a collision between strings hashed in the two trees |
| Merkle.NodeHasProof | src/chain/merkle.rs:98-162 | every node any number of levels above the leaves has an accepted proof with that many siblings fewer |
| Merkle.LongerHasProof | src/chain/merkle.rs:151-162 | every string that extra siblings lead to a listed hash has an accepted proof longer by these |
| Merkle.InnerNodeAccepted | src/chain/merkle.rs:151-162 | the root of two leaves is accepted as a leaf with no siblings, though not listed unless it equals one |
| Merkle.UnlistedAccepted | src/chain/merkle.rs:151-162 | a string is accepted below the only leaf, though not listed unless it equals it |
| MerkleLists.SameRootExactly | src/chain/merkle.rs:40-92 | lists of any two lengths, empty ones included, have one root iff they complete to the same list at the depth of the shallower, or a collision between strings hashed for the two roots |
| MerkleLists.SameCompletionExactly | src/chain/merkle.rs:40-92 | the same for two non-empty lists ordered by depth |
| MerkleLists.RootOfComplete | src/chain/merkle.rs:65-84 | pairing odd last nodes with themselves amounts to filling the list up to a full tree: same root, same hashed strings |
| MerkleLists.SameLengthSameTree | src/chain/merkle.rs:65-84 | among lists of one length the condition for one root is equality |
| MerkleLists.EmptyRoot | src/chain/merkle.rs:40-49 | a non-empty list has the sentinel root iff it is the sentinel's digest alone, or a collision |
| MerkleLists.OddListRepeatedLast | src/chain/merkle.rs:65-84 | an odd list and the list with its last entry repeated share their root for every hash function |
| Mempool.MempoolObject.AddTransaction | src/mempool/pool.rs:114-179 | keeps the indexes in agreement; a failure leaves all three as they were; the effect is the one Mempool.AddedMeaning describes |
| Mempool.MempoolObject.Insert | src/mempool/pool.rs:183-188 | adds to all three indexes and keeps them in agreement |
| Mempool.MempoolObject.EvictFor | src/mempool/pool.rs:192-205 | gives up the lowest (fee, hash) entry only to a strictly higher fee |
| Mempool.MempoolObject.Remove | src/mempool/pool.rs:209-215 | removes one transaction from all three indexes and returns it, or does nothing |
| Mempool.MempoolObject.RemoveBatch | src/mempool/pool.rs:231-235 | removes exactly the listed hashes and keeps the indexes in agreement |
| Mempool.MempoolObject.TopByFee | src/mempool/pool.rs:220-227 | min(limit, size) pooled transactions in descending (fee, hash) order, everything left out being smaller |
| Mempool.AddedMeaning | src/mempool/pool.rs:114-179 | a submission succeeds iff it is well formed, new in hash and nonce, affordable, in turn, and the pool has room or a lower fee; it then replaces at most one entry that paid least |
| Mempool.RefusalReason | src/mempool/pool.rs:114-179 | the reason given for a refusal is true of the pool and the account |
| Mempool.SizesAgree | src/mempool/pool.rs:72-82 | agreeing indexes have one size |
| Mempool.StreamingEviction | src/mempool/pool.rs:114-205 | over every run of submissions: at most 50,000 transactions, agreement, and nothing evicted or refused for its fee paid more than anything that is left |
| Mempool.FullPoolFloorRises | src/mempool/pool.rs:174-205 | once full the pool stays full and its lowest fee never falls |
| Mempool.NothingVanishes | src/mempool/pool.rs:114-205 | over every run of submissions whatever was pooled before or let in is in the pool at the end or among what was shed |
| Mempool.AddedToFull | src/mempool/pool.rs:174-205 | one submission to a full pool |
| Rules.CheckTransactions | src/consensus/rules.rs:339-396 | the loop with its set of seen hashes returns the first violation in list order |
| Rules.ChecksAdmissible | src/consensus/rules.rs:339-396 | a list is accepted iff no hash repeats outside coinbases and every known sender can pay and has the expected nonce |
| Rules.FurtherCoinbasesAccepted | src/consensus/rules.rs:312-328 | an accepted epoch list stays accepted with any further coinbases; it has exactly one iff no later sender is the sentinel |
| Acceptance.AcceptedExactly | src/consensus/rules.rs:107-150 | a block above the first is accepted iff it fits the tip, carries what its kind must, and its transactions are admissible, with every limit and interval spelt out |
| Acceptance.FirstAcceptedExactly | src/consensus/rules.rs:113-123 | block zero is accepted iff it follows 64 zeros and its work, hash and root are right |
| Acceptance.AcceptedCoinbase | src/consensus/rules.rs:312-328 | an accepted epoch block begins with the coinbase of its own epoch and hash, worth the reward of the schedule |
| Acceptance.ReportedViolation | src/consensus/rules.rs:152-396 | whatever violation the rules report is a true one, with the values that clash |
| Acceptance.ListReason | src/consensus/rules.rs:339-396 | a refused list is refused for its first offender |
| Execution.ListExecutesExactly | src/storage/state_trie.rs:156-299 | any list executes without error iff each transaction carries its sender's next nonce and its cost and unlock are covered by the state before the list plus the sum of earlier changes |
| Execution.ValidatedExecutes | src/consensus/rules.rs:339-396 | a list the rules accept executes: with distinct senders iff unlocks and the senders the rules skipped are covered; with every sender checked iff no sender repeats and unlocks are covered |
| Execution.UnknownSenderAccepted | src/consensus/rules.rs:359-362 | a transfer from an unknown sender that passes the check and cannot execute |
| Execution.CoinbaseAccepted | src/consensus/rules.rs:346-350 | a coinbase that passes the check and cannot execute as a transaction |
| Execution.UncoveredUnlockAccepted | src/consensus/rules.rs:372 | an unlock without stake that passes the check and cannot execute |
| Execution.RepeatedSenderAccepted | src/consensus/rules.rs:385-391 | two transactions with one nonce that pass the check, of which the second cannot execute |
| Execution.AppliedListIsIndependent | src/storage/state_trie.rs:185-190 | a list carrying current nonces that executes has distinct senders and covered unlocks |
| Execution.StaleNonceBlocks | src/storage/state_trie.rs:185-190 | an account whose nonce has moved on blocks every transaction that carries another |
| Execution.ExecutableListApplies | src/storage/state_trie.rs:156-299 | independent executable transactions all execute, in order |
| Chain.ChainFromGenesis | src/consensus/rules.rs:107-150 | after any run of accepted blocks: height counts blocks, epoch index counts epoch blocks, work is the sum of difficulties, the clock moved by the minimum intervals, the coinbases pay the claimed rewards and these are the mined supply, the tip is that of the last block, every block names its predecessor |
| Chain.AcceptedBlock | src/consensus/rules.rs:203-310 | what acceptance establishes about hash, link, height, time, epoch index, reward and Merkle root of one block |
| Chain.ChainHeights | src/consensus/rules.rs:290-299 | heights and epoch indices count blocks and epoch blocks without ever wrapping |
| Chain.ChainClock | src/consensus/rules.rs:203-247 | the tip timestamp is at least the start plus 500 ms per micro block and 60,000 ms per epoch block |
| Chain.ChainRewards | src/consensus/rules.rs:301-310 | the rewards claimed by accepted epoch blocks are those of the schedule, none skipped and none twice |
| Chain.BlockFixesTransactions | src/consensus/rules.rs:279-288 | two blocks with one hash accepted on one tip have lists that complete to the same list, and are equal if equally long, or a collision; except after a repeating hash with timestamps of different lengths |
| HeaderHash.HeaderCommits | src/chain/hash.rs:17-40 | a block hash commits to each header field: headers that differ in one field at most share a hash iff they are equal, or their texts collide |
| HeaderHash.SameTextSameRoot | src/chain/hash.rs:28-37 | headers at one height on one predecessor with one text have one timestamp and root if the timestamps are equally long, and else the predecessor's hash repeats itself |
| HeaderHash.RootsRunTogether | src/chain/hash.rs:28-37 | the exception is real: two headers with different timestamps, roots and nonces and one text |
| HeaderHash.NeighboursRunTogether | src/chain/hash.rs:28-37 | two headers with different heights and timestamps and one text |
| HeaderHash.HeaderTextExample | src/chain/hash.rs:28-37 | the hashed text of one header |
| Chain.TipCell.Advance | src/chain/block_producer.rs:93-102 | the tip takes over hash, height, time and difficulty, the epoch index only from epoch blocks, and adds the work |
| Chain.TipCell.Genesis | src/chain/block_producer.rs:81-90 | the tip before block zero |
| Chain.ProduceGenesisBlock | src/chain/block_producer.rs:109-137 | block zero: an empty epoch block of difficulty 1 with the first reward, properly mined, or a failure only if no nonce works |
| Chain.GenesisAccepted | src/consensus/rules.rs:117-123 | block zero passes its rules iff the given transactions have the empty root |
| Chain.ProduceMicroBlock | src/chain/block_producer.rs:143-181 | a mined block on the tip with the root of its transactions and no reward, or a failure only if no nonce below the limit works |
| Chain.ProducedBlockValidates | src/chain/block_producer.rs:237-297 | a produced micro block passes the lightweight validation iff its timestamp is in range |
| Chain.ValidatedExactly | src/chain/block_producer.rs:237-297 | the lightweight validation accepts a block iff height, link, work, hash, clock and root are right |
| Chain.ValidationReason | src/chain/block_producer.rs:237-297 | the error it reports is true of the block |
| Chain.ProducedBlockExtends | src/chain/block_producer.rs:143-181 | a produced micro block extends the tip at the tip's difficulty over the given transactions in order |
| Chain.ProducedBlockAccepted | src/consensus/rules.rs:107-150 | it passes the full rules iff it also keeps the interval and the size limit and its transactions are admissible and no coinbases |
| Mining.MineBlock | src/chain/mining.rs:65-98 | returns the least nonce below the limit whose hash meets the difficulty, and none only if there is none |
| Mining.DifficultyIsLeadingZeros | src/chain/hash.rs:94-111 | a hash meets a difficulty iff it has that many leading zeros |
| TxStore.Store.SaveTransaction | src/storage/tx_store.rs:17-45 | writes the transaction and its index entry, or refuses an empty hash and writes nothing |
| TxStore.Store.GetTransactionsBySender | src/storage/tx_store.rs:67-83 | the prefix scan over both kinds of entry |
| TxStore.Store.GetRecentTransactionsBySender | src/storage/tx_store.rs:87-110 | the last entries of that scan in reverse, loaded one by one |
| TxStore.SenderKeyInjective | src/storage/tx_store.rs:32-35 | a key stands for one sender and nonce, whatever the address |
| TxStore.SenderKeyOrder | src/storage/tx_store.rs:32-35 | keys of one sender sort by nonce |
| TxStore.ScanOwnExactly | src/storage/tx_store.rs:67-77 | the scan for an address visits its own keys only iff no saved key of another sender starts like them |
| TxStore.IntruderListed | src/storage/tx_store.rs:71-80 | the hash under such a key is listed for the wrong address |
| TxStore.LongerAddressListed | src/storage/tx_store.rs:71-80 | a concrete log in which one address is listed under another |
| TxStore.EqualLengthsSeparate | src/storage/tx_store.rs:71-74 | addresses of one length never intrude on each other |
| TxStore.SenderHistory | src/storage/tx_store.rs:67-83 | after any log of saves without such an intruder: the sender's nonces in ascending order, each with the hash saved last |
| TxStore.RecentHistory | src/storage/tx_store.rs:87-110 | the recent variant never fails and gives, for the last `limit` hashes of that history in reverse, the whole transactions saved last under them |
| TxStore.ReplayStored | src/storage/tx_store.rs:17-30 | every saved hash leads to the whole transaction saved last under it |
| TxStore.SenderKeyExample | src/storage/tx_store.rs:32-35 | the text of one key |

## Left out

- Supply.SupplyAccounted: covers heights below the cast limit of the emission, where the schedule restarts.
- Emission.CalculateMinedSupply: leaves out the largest height, at which the loop's own counter wraps and it does not end.
- Chain.ChainFromGenesis: states the work sum for runs shorter than 2^57 blocks, beyond which the counter could wrap; `Chain.ChainWork` gives it modulo 2^64 for all runs.
- Chain.ProducedBlockAccepted: takes a tip with a positive timestamp and a height below the largest, as on every chain after block zero.
- TxStore.SenderHistory: is about addresses without an intruder, which `TxStore.ScanOwnExactly` shows to be exactly those whose scan is their own; and about transaction hashes that do not start like an index key, as no hexadecimal digest does.
- Rules.ChecksAdmissible: the reason texts of violations are not modelled.
- Epoch-block production: its Merkle root is over micro-block hashes, while the rules recompute it from transactions, and its coinbase hash depends on the block hash it feeds into.
- Difficulty adjustment: nothing compares a block's difficulty with it, so no consensus property rests on it.
- Minimum fees and the floating-point fee multiplier: no other core operation reads them.
- The separate debit and nonce functions of the account store: the state transition does its own.
- The listing of pending withdrawals by address and the other read-only queries: easy lookups.
- The numbered snapshot store: its counter is written back unchanged, so no stack property rests on it.
- The genesis integrity check and the block store: easy map lookups.
- I/O errors, crash recovery and the decoding of stored records: a stored value is read back as it was written.
- Which fields a transaction hash commits to: it is computed by the wallet, and no modelled operation recomputes it.
- Timestamps, payloads and signatures of transactions beyond their presence, and the signatures of blocks: no modelled operation reads them.
- The contract virtual machine, the cryptographic library, the wallet and the command line.
