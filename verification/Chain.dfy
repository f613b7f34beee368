/** The chain tip, block production and what every accepted chain keeps. */
module Chain {
  import opened Prelude
  import opened Types
  import opened Ledger
  import opened Emission
  import opened Merkle
  import opened MerkleLists
  import opened Mining
  import opened Rules
  import opened HeaderHash
  import opened Acceptance

  const GENESIS_TIP := ChainTip(ZERO_HASH, 0, 0, 1, 0, 0)

  function Advanced(tip: ChainTip, block: Block): ChainTip {
    ChainTip(block.hash, block.header.index, block.header.timestamp, block.header.difficulty,
             if block.header.isEpochBlock then block.header.epochIndex else tip.epochIndex,
             Wrap64(tip.totalWork + block.header.difficulty))
  }

  /** The tip a node keeps and updates as blocks arrive. */
  class TipCell {
    var hash: string
    var height: u64
    var timestamp: i64
    var difficulty: u32
    var epochIndex: u64
    var totalWork: u64

    function View(): ChainTip
      reads this
    {
      ChainTip(hash, height, timestamp, difficulty, epochIndex, totalWork)
    }

    constructor Genesis()
      ensures View() == GENESIS_TIP
      ensures View() == ChainTip("0000000000000000000000000000000000000000000000000000000000000000", 0, 0, 1, 0, 0)
    {
      hash, height, timestamp, difficulty, epochIndex, totalWork := ZERO_HASH, 0, 0, 1, 0, 0;
    }

    method Advance(block: Block)
      modifies this
      ensures View() == Advanced(old(View()), block)
    {
      hash := block.hash;
      height := block.header.index;
      timestamp := block.header.timestamp;
      difficulty := block.header.difficulty;
      if block.header.isEpochBlock {
        epochIndex := block.header.epochIndex;
      }
      totalWork := Wrap64(totalWork + block.header.difficulty);
    }
  }

  /* ---------- Accepted chains ---------- */

  /** A block as it arrives: with its transactions, the account state and the clock of the node. */
  datatype Arrival = Arrival(block: Block, txs: seq<Transaction>, db: Accounts, now: i64)

  ghost predicate Accepted(H: string -> Digest, tip: ChainTip, a: Arrival) {
    a.block.header.index != 0 && ValidateBlockRules(H, a.block, a.txs, tip, a.db, a.now).Success?
  }

  /** Every arrival is accepted on the tip the ones before it left. */
  ghost predicate AcceptedRun(H: string -> Digest, tip: ChainTip, run: seq<Arrival>) {
    run == [] ||
    (AcceptedRun(H, tip, run[..|run| - 1]) && Accepted(H, TipAfter(tip, run[..|run| - 1]), run[|run| - 1]))
  }

  ghost function TipAfter(tip: ChainTip, run: seq<Arrival>): ChainTip {
    if run == [] then tip else Advanced(TipAfter(tip, run[..|run| - 1]), run[|run| - 1].block)
  }

  ghost function EpochBlocks(run: seq<Arrival>): nat {
    if run == [] then 0
    else EpochBlocks(run[..|run| - 1]) + if run[|run| - 1].block.header.isEpochBlock then 1 else 0
  }

  ghost function Work(run: seq<Arrival>): nat {
    if run == [] then 0 else Work(run[..|run| - 1]) + run[|run| - 1].block.header.difficulty
  }

  /** The rewards claimed by the epoch blocks of a run. */
  ghost function Rewards(run: seq<Arrival>): nat {
    if run == [] then 0
    else Rewards(run[..|run| - 1])
         + if run[|run| - 1].block.header.isEpochBlock then run[|run| - 1].block.blockReward else 0
  }

  /** How an accepted block continues the chain. */
  ghost predicate Continues(H: string -> Digest, tip: ChainTip, block: Block) {
    var h := block.header;
    && block.hash == HashBlockHeader(H, h)
    && h.index == tip.height + 1 && h.previousHash == tip.hash && h.difficulty <= 64
    && h.timestamp >= tip.timestamp + (if h.isEpochBlock then 60_000 else 500)
    && (h.isEpochBlock ==> h.epochIndex == Wrap64(tip.epochIndex + 1) && block.blockReward == BlockReward(h.epochIndex))
  }

  ghost predicate ContinuesRun(H: string -> Digest, tip: ChainTip, run: seq<Arrival>) {
    run == [] ||
    (ContinuesRun(H, tip, run[..|run| - 1]) && Continues(H, TipAfter(tip, run[..|run| - 1]), run[|run| - 1].block))
  }

  /** What acceptance establishes about one block. */
  lemma AcceptedBlock(H: string -> Digest, tip: ChainTip, a: Arrival)
    requires Accepted(H, tip, a) && tip.timestamp > 0
    ensures Continues(H, tip, a.block)
    ensures a.block.header.merkleRoot == MerkleRoot(H, HashesOf(a.txs))
  {
    var block := a.block;
    assert CheckHeight(block, tip).Success? && CheckPreviousHash(block, tip.hash).Success?;
    assert CheckTimestamp(block, tip, a.now).Success? && CheckProofOfWork(block).Success?;
    assert CheckBlockHash(H, block).Success? && CheckMerkleRoot(H, block, a.txs).Success?;
    assert CheckKind(H, block, a.txs, tip).Success?;
    var digest: Digest := HashBlockHeader(H, block.header);
  }

  lemma {:induction false} AcceptedRunContinues(H: string -> Digest, tip: ChainTip, run: seq<Arrival>)
    requires tip.timestamp > 0 && AcceptedRun(H, tip, run)
    ensures ContinuesRun(H, tip, run)
    decreases |run|
  {
    if run != [] {
      var init := run[..|run| - 1];
      AcceptedRunContinues(H, tip, init);
      ChainClock(H, tip, init);
      AcceptedBlock(H, TipAfter(tip, init), run[|run| - 1]);
    }
  }

  lemma WrapSmall(n: nat)
    ensures n <= U64_MAX ==> Wrap64(n) == n
  {
  }

  /** Heights count blocks and epoch indices count epoch blocks; neither ever wraps. */
  lemma {:induction false} ChainHeights(H: string -> Digest, tip: ChainTip, run: seq<Arrival>)
    requires tip.epochIndex <= tip.height && ContinuesRun(H, tip, run)
    ensures var t := TipAfter(tip, run);
      && t.height == tip.height + |run| && t.epochIndex == tip.epochIndex + EpochBlocks(run)
      && EpochBlocks(run) <= |run|
    decreases |run|
  {
    if run != [] {
      var init := run[..|run| - 1];
      ChainHeights(H, tip, init);
      WrapSmall(TipAfter(tip, init).epochIndex + 1);
    }
  }

  lemma {:induction false} ChainClock(H: string -> Digest, tip: ChainTip, run: seq<Arrival>)
    requires ContinuesRun(H, tip, run)
    ensures EpochBlocks(run) <= |run|
    ensures TipAfter(tip, run).timestamp
         >= tip.timestamp + 500 * (|run| - EpochBlocks(run)) + 60_000 * EpochBlocks(run)
    decreases |run|
  {
    if run != [] {
      ChainClock(H, tip, run[..|run| - 1]);
    }
  }

  /** The work of the tip is the sum of the difficulties, each at most the length of a digest. */
  lemma {:induction false} ChainWork(H: string -> Digest, tip: ChainTip, run: seq<Arrival>)
    requires ContinuesRun(H, tip, run)
    ensures TipAfter(tip, run).totalWork == Wrap64(tip.totalWork + Work(run)) && Work(run) <= 64 * |run|
    decreases |run|
  {
    if run != [] {
      ChainWork(H, tip, run[..|run| - 1]);
      WrapAdd(tip.totalWork + Work(run[..|run| - 1]), run[|run| - 1].block.header.difficulty);
    }
  }

  lemma RewardSumStep(epoch: u64)
    requires epoch < U64_MAX
    ensures RewardSum(epoch + 1) == RewardSum(epoch) + BlockReward(epoch + 1) && Wrap64(epoch + 1) == epoch + 1
  {
  }

  lemma RewardCounted(H: string -> Digest, t: ChainTip, block: Block)
    requires t.epochIndex <= t.height && Continues(H, t, block)
    ensures RewardSum(Advanced(t, block).epochIndex)
         == RewardSum(t.epochIndex) + if block.header.isEpochBlock then block.blockReward else 0
  {
    if block.header.isEpochBlock {
      RewardSumStep(t.epochIndex);
    }
  }

  /** The rewards claimed by accepted epoch blocks are those of the emission schedule, none skipped
      and none twice. */
  lemma {:induction false} ChainRewards(H: string -> Digest, tip: ChainTip, run: seq<Arrival>)
    requires tip.epochIndex <= tip.height && ContinuesRun(H, tip, run)
    ensures RewardSum(tip.epochIndex) + Rewards(run) == RewardSum(TipAfter(tip, run).epochIndex)
    decreases |run|
  {
    if run != [] {
      var init := run[..|run| - 1];
      ChainRewards(H, tip, init);
      ChainHeights(H, tip, init);
      RewardCounted(H, TipAfter(tip, init), run[|run| - 1].block);
    }
  }

  /** Each block is linked to the one before it. */
  lemma {:induction false} ChainLinked(H: string -> Digest, tip: ChainTip, run: seq<Arrival>, i: nat)
    requires ContinuesRun(H, tip, run) && i < |run|
    ensures var block := run[i].block;
      && block.hash == HashBlockHeader(H, block.header)
      && block.header.previousHash == if i == 0 then tip.hash else run[i - 1].block.hash
    decreases |run|
  {
    if i < |run| - 1 {
      ChainLinked(H, tip, run[..|run| - 1], i);
    }
  }

  /** The numbers of a tip `t` reached from block zero, stamped `start`, by `run`. */
  ghost predicate Counts(t: ChainTip, start: int, run: seq<Arrival>) {
    && t.height == |run| && t.epochIndex == EpochBlocks(run)
    && (|run| < 0x200_0000_0000_0000 ==> t.totalWork == 1 + Work(run))
    && t.timestamp >= start + 500 * (t.height - t.epochIndex) + 60_000 * t.epochIndex
  }

  /** What the first transactions of the epoch blocks of a run pay out. */
  ghost function Minted(run: seq<Arrival>): nat {
    if run == [] then 0
    else
      var last := run[|run| - 1];
      Minted(run[..|run| - 1]) + if last.block.header.isEpochBlock && last.txs != [] then last.txs[0].amount else 0
  }

  /** The coinbases of accepted epoch blocks pay exactly the rewards the blocks claim. */
  lemma {:induction false} CoinbasesPayRewards(H: string -> Digest, tip: ChainTip, run: seq<Arrival>)
    requires AcceptedRun(H, tip, run)
    ensures Minted(run) == Rewards(run)
    decreases |run|
  {
    if run != [] {
      var init, last := run[..|run| - 1], run[|run| - 1];
      CoinbasesPayRewards(H, tip, init);
      if last.block.header.isEpochBlock {
        AcceptedCoinbase(H, last.block, last.txs, TipAfter(tip, init), last.db, last.now);
      }
    }
  }

  /** The tip is that of the last block in every field it takes over. */
  ghost predicate TipOf(t: ChainTip, last: Block) {
    && t.hash == last.hash && t.height == last.header.index && t.timestamp == last.header.timestamp
    && t.difficulty == last.header.difficulty
  }

  function LastBlock(first: Block, run: seq<Arrival>): Block {
    if run == [] then first else run[|run| - 1].block
  }

  lemma TipIsLast(tip: ChainTip, first: Block, run: seq<Arrival>)
    ensures TipOf(TipAfter(Advanced(tip, first), run), LastBlock(first, run))
  {
  }

  /** Every block carries its own hash and names its predecessor. */
  ghost predicate Linked(H: string -> Digest, first: string, run: seq<Arrival>) {
    forall i :: 0 <= i < |run| ==>
      && run[i].block.hash == HashBlockHeader(H, run[i].block.header)
      && run[i].block.header.previousHash == if i == 0 then first else run[i - 1].block.hash
  }

  lemma WorkExact(work: nat)
    requires work <= 64 * 0x200_0000_0000_0000 - 64
    ensures Wrap64(1 + work) == 1 + work
  {
  }

  lemma ChainNumbers(H: string -> Digest, tip: ChainTip, run: seq<Arrival>)
    requires tip.height == 0 && tip.epochIndex == 0 && tip.totalWork == 1 && ContinuesRun(H, tip, run)
    ensures Counts(TipAfter(tip, run), tip.timestamp, run)
  {
    ChainHeights(H, tip, run);
    ChainWork(H, tip, run);
    ChainClock(H, tip, run);
    if |run| < 0x200_0000_0000_0000 {
      WorkExact(Work(run));
    }
  }

  lemma RewardsFromZero(H: string -> Digest, tip: ChainTip, run: seq<Arrival>)
    requires tip.height == 0 && tip.epochIndex == 0 && ContinuesRun(H, tip, run)
    ensures var epoch := TipAfter(tip, run).epochIndex;
      epoch < CAST_LIMIT ==> GENESIS_BLOCK_REWARD + Rewards(run) == MinedSupply(epoch) <= EMISSION_CAP
  {
    var epoch := TipAfter(tip, run).epochIndex;
    ChainRewards(H, tip, run);
    FirstReward();
    if epoch < CAST_LIMIT {
      MinedSupplyExact(epoch);
    }
  }

  /** Accepted-chain invariant from block zero: after any run of accepted blocks the height counts
      blocks, the epoch index counts epoch blocks, the work is the sum of all difficulties, the clock
      has moved by the minimum intervals, the rewards claimed so far, which are what the coinbases
      pay, are the mined supply, the tip is that of the last block, and every block names its
      predecessor. */
  lemma ChainFromGenesis(H: string -> Digest, genesis: Block, run: seq<Arrival>)
    requires genesis.header.index == 0 && genesis.header.isEpochBlock && genesis.header.epochIndex == 0
    requires genesis.header.timestamp > 0 && genesis.header.difficulty == 1
    requires AcceptedRun(H, Advanced(GENESIS_TIP, genesis), run)
    ensures var t := TipAfter(Advanced(GENESIS_TIP, genesis), run);
      && Counts(t, genesis.header.timestamp, run)
      && (t.epochIndex < CAST_LIMIT ==> GENESIS_BLOCK_REWARD + Rewards(run) == MinedSupply(t.epochIndex) <= EMISSION_CAP)
    ensures Minted(run) == Rewards(run) && Linked(H, genesis.hash, run)
    ensures TipOf(TipAfter(Advanced(GENESIS_TIP, genesis), run), LastBlock(genesis, run))
  {
    var tip := Advanced(GENESIS_TIP, genesis);
    AcceptedRunContinues(H, tip, run);
    ChainNumbers(H, tip, run);
    RewardsFromZero(H, tip, run);
    CoinbasesPayRewards(H, tip, run);
    LinkedRun(H, tip, run);
    TipIsLast(GENESIS_TIP, genesis, run);
  }

  lemma LinkedRun(H: string -> Digest, tip: ChainTip, run: seq<Arrival>)
    requires ContinuesRun(H, tip, run)
    ensures Linked(H, tip.hash, run)
  {
    forall i | 0 <= i < |run|
      ensures run[i].block.hash == HashBlockHeader(H, run[i].block.header)
      ensures run[i].block.header.previousHash == if i == 0 then tip.hash else run[i - 1].block.hash
    {
      ChainLinked(H, tip, run, i);
    }
  }

  /** A block hash fixes the transactions up to completion of their list: two blocks with one hash
      accepted on one tip have lists that complete to the same list, and are the same if they are
      equally long, or there is a collision between the two headers or the two trees. The exception are
      timestamps with different numbers of digits after a hash that repeats itself. */
  lemma BlockFixesTransactions(H: string -> Digest, tip: ChainTip, a: Arrival, b: Arrival)
    returns (c: Option<Collision>)
    requires tip.timestamp > 0 && Accepted(H, tip, a) && Accepted(H, tip, b) && a.block.hash == b.block.hash
    requires AllDigests(HashesOf(a.txs)) && AllDigests(HashesOf(b.txs))
    ensures var k := DigitsApart(a.block.header.timestamp, b.block.header.timestamp);
      c.None? && (k == 0 || !Repeats(tip.hash, k)) ==>
        && SameTree(H, HashesOf(a.txs), HashesOf(b.txs))
        && (|a.txs| == |b.txs| ==> HashesOf(a.txs) == HashesOf(b.txs))
    ensures c.Some? ==> Collides(H, c.value)
    ensures c.Some? ==>
      || c.value == Collision(HeaderText(a.block.header), HeaderText(b.block.header))
      || (HashedForRoot(H, HashesOf(a.txs), c.value.x) && HashedForRoot(H, HashesOf(b.txs), c.value.y))
  {
    var h, h' := a.block.header, b.block.header;
    AcceptedBlock(H, tip, a);
    AcceptedBlock(H, tip, b);
    c := None;
    if HeaderText(h) != HeaderText(h') {
      c := Some(Collision(HeaderText(h), HeaderText(h')));
    } else {
      RootLength(H, HashesOf(a.txs));
      RootLength(H, HashesOf(b.txs));
      SameTextSameRoot(h, h');
      if DigitsApart(h.timestamp, h'.timestamp) == 0 {
        c := SameRootExactly(H, HashesOf(a.txs), HashesOf(b.txs));
        if |a.txs| == |b.txs| {
          SameLengthSameTree(H, HashesOf(a.txs), HashesOf(b.txs));
        }
      }
    }
  }

  /* ---------- Producing and validating micro blocks ---------- */

  datatype BlockError =
    | WrongPreviousHash(expected: string, got: string)
    | InsufficientWork
    | TimestampOutOfRange
    | WrongMerkleRoot
    | WrongHeight
    | MiningFailed

  function ValidateBlock(H: string -> Digest, block: Block, tip: ChainTip, txs: seq<Transaction>, now: i64)
    : Result<Unit, BlockError>
  {
    if block.header.index != Wrap64(tip.height + 1) then Failure(WrongHeight)
    else if block.header.previousHash != tip.hash then Failure(WrongPreviousHash(tip.hash, block.header.previousHash))
    else if !MeetsDifficulty(block.hash, block.header.difficulty) then Failure(InsufficientWork)
    else if block.header.timestamp < tip.timestamp then Failure(TimestampOutOfRange)
    else if block.header.timestamp > WrapI64(now + MAX_CLOCK_SKEW_MS) then Failure(TimestampOutOfRange)
    else if block.header.merkleRoot != MerkleRoot(H, HashesOf(txs)) then Failure(WrongMerkleRoot)
    else if HashBlockHeader(H, block.header) != block.hash then Failure(InsufficientWork)
    else Success(Unit)
  }

  function GenesisHeader(H: string -> Digest, timestamp: i64): BlockHeader {
    BlockHeader(0, timestamp, ZERO_HASH, MerkleRoot(H, []), 0, 1, true, 0, "")
  }

  ghost predicate MinedGenesis(H: string -> Digest, block: Block, miner: string, timestamp: i64) {
    && block.header == GenesisHeader(H, timestamp).(nonce := block.header.nonce)
    && block.hash == HashBlockHeader(H, block.header) && MeetsDifficulty(block.hash, 1)
    && block.transactionHashes == [] && block.blockReward == GENESIS_BLOCK_REWARD && block.producerAddress == miner
  }

  method ProduceGenesisBlock(H: string -> Digest, miner: string, timestamp: i64) returns (r: Result<Block, BlockError>)
    ensures r.Success? ==> MinedGenesis(H, r.value, miner, timestamp)
    ensures r.Failure? ==> r.error == MiningFailed && NoneBelow(H, GenesisHeader(H, timestamp), 0xFFFF_FFFF_FFFF_FFFF)
  {
    var merkleRoot := ComputeMerkleRoot(H, []);
    var header := BlockHeader(0, timestamp, ZERO_HASH, merkleRoot, 0, 1, true, 0, "");
    var mined := MineBlock(H, header, 0xFFFF_FFFF_FFFF_FFFF);
    if mined.None? {
      return Failure(MiningFailed);
    }
    r := Success(Block(header.(nonce := mined.value.nonce), [], mined.value.hash, miner, GENESIS_BLOCK_REWARD));
  }

  /** The produced genesis block passes the rules for block zero with an empty transaction list and
      with no other list whose root is different. */
  lemma GenesisAccepted(H: string -> Digest, block: Block, miner: string, timestamp: i64, txs: seq<Transaction>,
                        tip: ChainTip, db: Accounts, now: i64)
    requires MinedGenesis(H, block, miner, timestamp)
    ensures ValidateBlockRules(H, block, txs, tip, db, now).Success? <==> MerkleRoot(H, HashesOf(txs)) == MerkleRoot(H, [])
    ensures HashesOf([]) == []
  {
    assert CheckPreviousHash(block, ZERO_HASH).Success? && CheckProofOfWork(block).Success?;
    assert CheckBlockHash(H, block).Success?;
  }

  /** The header a producer mines for a micro block stamped `timestamp`. */
  function MicroHeader(H: string -> Digest, txs: seq<Transaction>, tip: ChainTip, timestamp: i64): BlockHeader {
    BlockHeader(Wrap64(tip.height + 1), timestamp, tip.hash, MerkleRoot(H, HashesOf(txs)), 0, tip.difficulty,
                false, tip.epochIndex, "")
  }

  method ProduceMicroBlock(H: string -> Digest, txs: seq<Transaction>, tip: ChainTip, miner: string,
                           maxAttempts: u64, timestamp: i64) returns (r: Result<Block, BlockError>)
    ensures r.Success? ==> MinedMicroBlock(H, r.value, txs, tip, timestamp) && r.value.producerAddress == miner
    ensures r.Failure? ==> r.error == MiningFailed && NoneBelow(H, MicroHeader(H, txs, tip, timestamp), maxAttempts)
  {
    var txHashes := [];
    for i := 0 to |txs|
      invariant txHashes == HashesOf(txs)[..i]
    {
      txHashes := txHashes + [txs[i].hash];
    }
    assert txHashes == HashesOf(txs);
    var merkleRoot := ComputeMerkleRoot(H, txHashes);
    var header := BlockHeader(Wrap64(tip.height + 1), timestamp, tip.hash, merkleRoot, 0, tip.difficulty,
                              false, tip.epochIndex, "");
    var mined := MineBlock(H, header, maxAttempts);
    if mined.None? {
      return Failure(MiningFailed);
    }
    header := header.(nonce := mined.value.nonce);
    r := Success(Block(header, txHashes, mined.value.hash, miner, 0));
  }

  ghost predicate MinedMicroBlock(H: string -> Digest, block: Block, txs: seq<Transaction>, tip: ChainTip, timestamp: i64) {
    && block.header == MicroHeader(H, txs, tip, timestamp).(nonce := block.header.nonce)
    && block.transactionHashes == HashesOf(txs)
    && block.hash == HashBlockHeader(H, block.header) && MeetsDifficulty(block.hash, block.header.difficulty)
    && block.blockReward == 0
  }

  /** The lightweight validation in one statement, for any block. */
  lemma ValidatedExactly(H: string -> Digest, block: Block, tip: ChainTip, txs: seq<Transaction>, now: i64)
    ensures ValidateBlock(H, block, tip, txs, now).Success? <==>
      var h := block.header;
      && h.index == (tip.height + 1) % TWO_64 && h.previousHash == tip.hash
      && h.difficulty <= LeadingZeros(block.hash) && block.hash == HashBlockHeader(H, h)
      && tip.timestamp <= h.timestamp <= WrapI64(now + 120_000)
      && h.merkleRoot == MerkleRoot(H, HashesOf(txs))
  {
    DifficultyIsLeadingZeros(block.hash, block.header.difficulty);
  }

  /** The error it reports is true of the block. */
  lemma ValidationReason(H: string -> Digest, block: Block, tip: ChainTip, txs: seq<Transaction>, now: i64)
    requires ValidateBlock(H, block, tip, txs, now).Failure?
    ensures var h := block.header;
      match ValidateBlock(H, block, tip, txs, now).error
      case WrongHeight => h.index != (tip.height + 1) % TWO_64
      case WrongPreviousHash(expected, got) => expected == tip.hash && got == h.previousHash && expected != got
      case InsufficientWork => LeadingZeros(block.hash) < h.difficulty || block.hash != HashBlockHeader(H, h)
      case TimestampOutOfRange => h.timestamp < tip.timestamp || h.timestamp > WrapI64(now + 120_000)
      case WrongMerkleRoot => h.merkleRoot != MerkleRoot(H, HashesOf(txs))
      case MiningFailed => false
  {
    DifficultyIsLeadingZeros(block.hash, block.header.difficulty);
  }

  /** A produced micro block extends the tip: next height, linked, in the tip's epoch, at the tip's
      difficulty and with that much work, over the given transactions in order. */
  lemma ProducedBlockExtends(H: string -> Digest, block: Block, txs: seq<Transaction>, tip: ChainTip, timestamp: i64)
    requires MinedMicroBlock(H, block, txs, tip, timestamp)
    ensures var h := block.header;
      && h.index == (tip.height + 1) % TWO_64 && h.previousHash == tip.hash && h.timestamp == timestamp
      && !h.isEpochBlock && h.epochIndex == tip.epochIndex && h.stateRoot == "" && block.blockReward == 0
      && h.difficulty == tip.difficulty <= LeadingZeros(block.hash) && block.hash == HashBlockHeader(H, h)
      && |block.transactionHashes| == |txs| && forall i :: 0 <= i < |txs| ==> block.transactionHashes[i] == txs[i].hash
  {
    DifficultyIsLeadingZeros(block.hash, block.header.difficulty);
  }

  /** A produced micro block passes the lightweight validation exactly when its timestamp is in range. */
  lemma ProducedBlockValidates(H: string -> Digest, block: Block, txs: seq<Transaction>, tip: ChainTip,
                               timestamp: i64, now: i64)
    requires MinedMicroBlock(H, block, txs, tip, timestamp)
    ensures ValidateBlock(H, block, tip, txs, now).Success?
       <==> tip.timestamp <= timestamp <= WrapI64(now + MAX_CLOCK_SKEW_MS)
  {
  }

  /** It passes the full rules exactly when, besides, it keeps the minimum interval, is small enough,
      and its transactions are admissible and no coinbases. */
  lemma ProducedBlockAccepted(H: string -> Digest, block: Block, txs: seq<Transaction>, tip: ChainTip,
                              timestamp: i64, db: Accounts, now: i64)
    requires MinedMicroBlock(H, block, txs, tip, timestamp)
    requires tip.timestamp > 0 && tip.height < U64_MAX
    ensures ValidateBlockRules(H, block, txs, tip, db, now).Success? <==>
      && tip.timestamp + 500 <= timestamp <= WrapI64(now + MAX_CLOCK_SKEW_MS)
      && |txs| <= 1_000
      && (forall i :: 0 <= i < |txs| ==> txs[i].sender != COINBASE_SENDER)
      && Admissible(txs, db)
  {
    ChecksAdmissible(txs, db);
    assert CheckHeight(block, tip).Success? && CheckPreviousHash(block, tip.hash).Success?;
    assert CheckProofOfWork(block).Success? && CheckBlockHash(H, block).Success?;
    assert CheckMerkleRoot(H, block, txs).Success?;
    assert CheckTimestamp(block, tip, now).Success?
      <==> tip.timestamp + 500 <= timestamp <= WrapI64(now + MAX_CLOCK_SKEW_MS);
    assert CheckBlockSize(block, txs).Success? <==> |txs| <= 1_000;
  }
}
