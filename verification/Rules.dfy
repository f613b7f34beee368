/** The consensus rules a block is checked against. */
module Rules {
  import opened Prelude
  import opened Types
  import opened Ledger
  import opened Emission
  import opened Coinbase
  import opened Merkle
  import opened Mining

  const MAX_CLOCK_SKEW_MS: int := 120_000
  const MIN_MICRO_BLOCK_INTERVAL_MS: int := 500
  const MIN_EPOCH_BLOCK_INTERVAL_MS: int := 60_000
  const MAX_TRANSACTIONS_PER_MICRO_BLOCK: int := 1_000
  const MAX_MICRO_BLOCKS_PER_EPOCH: int := 10_000

  const ZERO_HASH := "0000000000000000000000000000000000000000000000000000000000000000"

  datatype ChainTip = ChainTip(
    hash: string,
    height: u64,
    timestamp: i64,
    difficulty: u32,
    epochIndex: u64,
    totalWork: u64
  )

  datatype RuleViolation =
    | InvalidHeight(expectedHeight: u64, gotHeight: u64)
    | InvalidPreviousHash(expectedHash: string, gotHash: string)
    | InvalidHash
    | InsufficientProofOfWork(required: u32, hash: string)
    | InvalidTimestamp
    | InvalidMerkleRoot
    | BlockTooLarge(max: int, got: int)
    | InvalidCoinbase
    | DuplicateTransaction(duplicate: string)
    | InvalidTransactionNonce(expected: u64, gotNonce: u64)
    | InsufficientFunds(address: string, needed: u64, available: u64)
    | MissingCoinbase
    | UnexpectedCoinbase
    | InvalidEpochIndex(expectedEpoch: u64, gotEpoch: u64)
    | InvalidBlockReward(expectedReward: u64, gotReward: u64)

  type Verdict = Result<Unit, RuleViolation>

  function Check(ok: bool, violation: RuleViolation): Verdict {
    if ok then Success(Unit) else Failure(violation)
  }

  function CheckHeight(block: Block, tip: ChainTip): Verdict {
    Check(block.header.index == Wrap64(tip.height + 1), InvalidHeight(Wrap64(tip.height + 1), block.header.index))
  }

  function CheckPreviousHash(block: Block, expected: string): Verdict {
    Check(block.header.previousHash == expected, InvalidPreviousHash(expected, block.header.previousHash))
  }

  function CheckBlockSize(block: Block, txs: seq<Transaction>): Verdict {
    if block.header.isEpochBlock then
      Check(|block.transactionHashes| <= MAX_MICRO_BLOCKS_PER_EPOCH,
            BlockTooLarge(MAX_MICRO_BLOCKS_PER_EPOCH, |block.transactionHashes|))
    else
      Check(|txs| <= MAX_TRANSACTIONS_PER_MICRO_BLOCK, BlockTooLarge(MAX_TRANSACTIONS_PER_MICRO_BLOCK, |txs|))
  }

  function CheckTimestamp(block: Block, tip: ChainTip, now: i64): Verdict {
    var minInterval := if block.header.isEpochBlock then MIN_EPOCH_BLOCK_INTERVAL_MS else MIN_MICRO_BLOCK_INTERVAL_MS;
    var _ :- Check(block.header.timestamp <= WrapI64(now + MAX_CLOCK_SKEW_MS), InvalidTimestamp);
    var _ :- Check(!(block.header.timestamp <= tip.timestamp && tip.timestamp > 0), InvalidTimestamp);
    Check(!(tip.timestamp > 0 && block.header.timestamp - tip.timestamp < minInterval), InvalidTimestamp)
  }

  function CheckProofOfWork(block: Block): Verdict {
    Check(MeetsDifficulty(block.hash, block.header.difficulty),
          InsufficientProofOfWork(block.header.difficulty, block.hash))
  }

  function CheckBlockHash(H: string -> Digest, block: Block): Verdict {
    Check(HashBlockHeader(H, block.header) == block.hash, InvalidHash)
  }

  function HashesOf(txs: seq<Transaction>): seq<string> {
    seq(|txs|, i requires 0 <= i < |txs| => txs[i].hash)
  }

  function CheckMerkleRoot(H: string -> Digest, block: Block, txs: seq<Transaction>): Verdict {
    Check(MerkleRoot(H, HashesOf(txs)) == block.header.merkleRoot, InvalidMerkleRoot)
  }

  function CheckEpochIndex(block: Block, tip: ChainTip): Verdict {
    Check(block.header.epochIndex == Wrap64(tip.epochIndex + 1),
          InvalidEpochIndex(Wrap64(tip.epochIndex + 1), block.header.epochIndex))
  }

  function CheckBlockReward(block: Block): Verdict {
    Check(block.blockReward == BlockReward(block.header.epochIndex),
          InvalidBlockReward(BlockReward(block.header.epochIndex), block.blockReward))
  }

  function CheckCoinbase(H: string -> Digest, block: Block, txs: seq<Transaction>): Verdict {
    if txs == [] || txs[0].sender != COINBASE_SENDER then Failure(MissingCoinbase)
    else Check(VerifyCoinbase(H, txs[0], block.header.epochIndex, block.hash), InvalidCoinbase)
  }

  function CheckNoCoinbase(txs: seq<Transaction>): Verdict {
    Check(forall i :: 0 <= i < |txs| ==> txs[i].sender != COINBASE_SENDER, UnexpectedCoinbase)
  }

  /** One transaction against the account state; an unknown sender passes. */
  function CheckSender(tx: Transaction, db: Accounts): Verdict {
    if tx.sender !in db then Success(Unit)
    else
      var account := db[tx.sender];
      var _ :- Check(account.balance >= Required(tx), InsufficientFunds(tx.sender, Required(tx), account.balance));
      Check(account.nonce == tx.nonce, InvalidTransactionNonce(account.nonce, tx.nonce))
  }

  /** `check_transactions`, with the hashes seen before. */
  function CheckFrom(txs: seq<Transaction>, seen: set<string>, db: Accounts): Verdict
    decreases |txs|
  {
    if txs == [] then Success(Unit)
    else if txs[0].sender == COINBASE_SENDER then CheckFrom(txs[1..], seen, db)
    else
      var _ :- Check(txs[0].hash !in seen, DuplicateTransaction(txs[0].hash));
      var _ :- CheckSender(txs[0], db);
      CheckFrom(txs[1..], seen + {txs[0].hash}, db)
  }

  method CheckTransactions(txs: seq<Transaction>, db: Accounts) returns (verdict: Verdict)
    ensures verdict == CheckFrom(txs, {}, db)
  {
    var seenHashes := {};
    for i := 0 to |txs|
      invariant CheckFrom(txs[i..], seenHashes, db) == CheckFrom(txs, {}, db)
    {
      var tx := txs[i];
      if tx.sender != COINBASE_SENDER {
        if tx.hash in seenHashes {
          return Failure(DuplicateTransaction(tx.hash));
        }
        seenHashes := seenHashes + {tx.hash};
        if tx.sender in db {
          var account := db[tx.sender];
          if account.balance < Required(tx) {
            return Failure(InsufficientFunds(tx.sender, Required(tx), account.balance));
          }
          if account.nonce != tx.nonce {
            return Failure(InvalidTransactionNonce(account.nonce, tx.nonce));
          }
        }
      }
    }
    verdict := Success(Unit);
  }

  /** The rules, cheapest first; the genesis block has its own. */
  function ValidateBlockRules(H: string -> Digest, block: Block, txs: seq<Transaction>, tip: ChainTip,
                              db: Accounts, now: i64): Verdict
  {
    if block.header.index == 0 then
      var _ :- CheckPreviousHash(block, ZERO_HASH);
      var _ :- CheckProofOfWork(block);
      var _ :- CheckBlockHash(H, block);
      CheckMerkleRoot(H, block, txs)
    else
      var _ :- CheckHeight(block, tip);
      var _ :- CheckPreviousHash(block, tip.hash);
      var _ :- CheckBlockSize(block, txs);
      var _ :- CheckTimestamp(block, tip, now);
      var _ :- CheckProofOfWork(block);
      var _ :- CheckBlockHash(H, block);
      var _ :- CheckMerkleRoot(H, block, txs);
      var _ :- CheckKind(H, block, txs, tip);
      CheckFrom(txs, {}, db)
  }

  function CheckKind(H: string -> Digest, block: Block, txs: seq<Transaction>, tip: ChainTip): Verdict {
    if block.header.isEpochBlock then
      var _ :- CheckEpochIndex(block, tip);
      var _ :- CheckBlockReward(block);
      CheckCoinbase(H, block, txs)
    else
      CheckNoCoinbase(txs)
  }

  /* ---------- What the transaction check accepts ---------- */

  predicate Affordable(tx: Transaction, db: Accounts) {
    tx.sender in db ==> Required(tx) <= db[tx.sender].balance && tx.nonce == db[tx.sender].nonce
  }

  /** No hash repeats among the ordinary transactions, and each known sender can pay and has the
      expected nonce. */
  ghost predicate Admissible(txs: seq<Transaction>, db: Accounts) {
    && (forall i :: 0 <= i < |txs| && txs[i].sender != COINBASE_SENDER ==> Affordable(txs[i], db))
    && forall i, j :: 0 <= i < j < |txs| && txs[i].sender != COINBASE_SENDER && txs[j].sender != COINBASE_SENDER
         ==> txs[i].hash != txs[j].hash
  }

  lemma {:induction false} CheckFromMeaning(txs: seq<Transaction>, seen: set<string>, db: Accounts)
    ensures CheckFrom(txs, seen, db).Success? <==>
      && Admissible(txs, db)
      && forall i :: 0 <= i < |txs| && txs[i].sender != COINBASE_SENDER ==> txs[i].hash !in seen
    decreases |txs|
  {
    if txs != [] {
      var tx, rest := txs[0], txs[1..];
      assert forall i :: 0 <= i < |rest| ==> rest[i] == txs[i + 1];
      assert forall i :: 1 <= i < |txs| ==> txs[i] == rest[i - 1];
      CheckFromMeaning(rest, if tx.sender == COINBASE_SENDER then seen else seen + {tx.hash}, db);
    }
  }

  /** The loop over the transactions accepts exactly the admissible lists. */
  lemma ChecksAdmissible(txs: seq<Transaction>, db: Accounts)
    ensures CheckFrom(txs, {}, db).Success? <==> Admissible(txs, db)
  {
    CheckFromMeaning(txs, {}, db);
  }

  /* ---------- How many coinbases ---------- */

  /** At most one coinbase: what an epoch block is meant to carry beyond the first transaction. */
  predicate OneCoinbase(txs: seq<Transaction>) {
    forall i :: 0 < i < |txs| ==> txs[i].sender != COINBASE_SENDER
  }

  lemma {:induction false} CoinbasesSkipped(txs: seq<Transaction>, extra: seq<Transaction>, seen: set<string>, db: Accounts)
    requires forall i :: 0 <= i < |extra| ==> extra[i].sender == COINBASE_SENDER
    ensures CheckFrom(txs + extra, seen, db) == CheckFrom(txs, seen, db)
    decreases |txs| + |extra|
  {
    if txs != [] {
      assert (txs + extra)[1..] == txs[1..] + extra;
      CoinbasesSkipped(txs[1..], extra, if txs[0].sender == COINBASE_SENDER then seen else seen + {txs[0].hash}, db);
    } else if extra != [] {
      assert (txs + extra)[1..] == [] + extra[1..];
      CoinbasesSkipped([], extra[1..], seen, db);
    }
  }

  /** The rules look at the first transaction of an epoch block for its coinbase and skip every other
      one: what they accept they also accept with any further coinbases, of whatever amounts. So an
      accepted epoch block has exactly one coinbase if and only if no later sender is the sentinel. */
  lemma FurtherCoinbasesAccepted(H: string -> Digest, block: Block, txs: seq<Transaction>, extra: seq<Transaction>,
                                 tip: ChainTip, db: Accounts)
    requires block.header.isEpochBlock
    requires CheckKind(H, block, txs, tip).Success? && CheckFrom(txs, {}, db).Success?
    requires forall i :: 0 <= i < |extra| ==> extra[i].sender == COINBASE_SENDER
    ensures CheckKind(H, block, txs + extra, tip).Success? && CheckFrom(txs + extra, {}, db).Success?
    ensures txs != [] && txs[0].sender == COINBASE_SENDER
    ensures (forall i, j :: 0 <= i < |txs| && 0 <= j < |txs| && txs[i].sender == txs[j].sender == COINBASE_SENDER ==> i == j)
       <==> OneCoinbase(txs)
    ensures extra != [] ==> !OneCoinbase(txs + extra)
  {
    CoinbasesSkipped(txs, extra, {}, db);
    assert CheckCoinbase(H, block, txs).Success?;
    assert (txs + extra)[0] == txs[0];
    if extra != [] {
      assert (txs + extra)[|txs|] == extra[0];
    }
  }
}
