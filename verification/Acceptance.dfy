/** Exactly which blocks the rules accept, and what an accepted epoch block carries. */
module Acceptance {
  import opened Prelude
  import opened Types
  import opened Keys
  import opened Ledger
  import opened Emission
  import opened Merkle
  import opened Mining
  import opened Rules

  /** The coinbase of an epoch block: pays the reward of the block, is numbered by its epoch, and is
      bound to its hash. */
  ghost predicate PaysReward(H: string -> Digest, coinbase: Transaction, block: Block) {
    && coinbase.sender == "kyv10000000000000000000000000000000000000000000000000000coinbase0"
    && coinbase.amount == block.blockReward && coinbase.nonce == block.header.epochIndex
    && coinbase.hash == H("coinbase:" + block.hash + ":" + Decimal(block.header.epochIndex))
  }

  /** What the rules ask of a block's place in the chain and of its own hash. */
  ghost predicate Fits(H: string -> Digest, block: Block, tip: ChainTip, now: i64) {
    var h := block.header;
    && h.index == (tip.height + 1) % TWO_64 && h.previousHash == tip.hash
    && h.timestamp <= WrapI64(now + 120_000)
    && (tip.timestamp > 0 ==> h.timestamp >= tip.timestamp + if h.isEpochBlock then 60_000 else 500)
    && block.hash == HashBlockHeader(H, h) && h.difficulty <= LeadingZeros(block.hash)
  }

  /** What they ask of its contents: epoch blocks name the next epoch, claim its reward and begin with
      the coinbase that pays it; micro blocks have none. */
  ghost predicate Carries(H: string -> Digest, block: Block, txs: seq<Transaction>, tip: ChainTip) {
    var h := block.header;
    && h.merkleRoot == MerkleRoot(H, seq(|txs|, i requires 0 <= i < |txs| => txs[i].hash))
    && if h.isEpochBlock then
         && |block.transactionHashes| <= 10_000
         && h.epochIndex == (tip.epochIndex + 1) % TWO_64 && block.blockReward == BlockReward(h.epochIndex)
         && txs != [] && PaysReward(H, txs[0], block)
       else
         |txs| <= 1_000 && forall i :: 0 <= i < |txs| ==> txs[i].sender != COINBASE_SENDER
  }

  lemma TimestampExactly(block: Block, tip: ChainTip, now: i64)
    ensures CheckTimestamp(block, tip, now).Success? <==>
      && block.header.timestamp <= WrapI64(now + 120_000)
      && (tip.timestamp > 0 ==> block.header.timestamp >= tip.timestamp + if block.header.isEpochBlock then 60_000 else 500)
  {
  }

  lemma FitsExactly(H: string -> Digest, block: Block, tip: ChainTip, now: i64)
    ensures Fits(H, block, tip, now) <==>
      && CheckHeight(block, tip).Success? && CheckPreviousHash(block, tip.hash).Success?
      && CheckTimestamp(block, tip, now).Success? && CheckProofOfWork(block).Success? && CheckBlockHash(H, block).Success?
  {
    TimestampExactly(block, tip, now);
    DifficultyIsLeadingZeros(block.hash, block.header.difficulty);
  }

  lemma CoinbaseExactly(H: string -> Digest, block: Block, txs: seq<Transaction>)
    requires block.blockReward == BlockReward(block.header.epochIndex)
    ensures CheckCoinbase(H, block, txs).Success? <==> txs != [] && PaysReward(H, txs[0], block)
  {
  }

  lemma CarriesExactly(H: string -> Digest, block: Block, txs: seq<Transaction>, tip: ChainTip)
    ensures Carries(H, block, txs, tip) <==>
      CheckBlockSize(block, txs).Success? && CheckMerkleRoot(H, block, txs).Success? && CheckKind(H, block, txs, tip).Success?
  {
    assert HashesOf(txs) == seq(|txs|, i requires 0 <= i < |txs| => txs[i].hash);
    if block.header.isEpochBlock && block.blockReward == BlockReward(block.header.epochIndex) {
      CoinbaseExactly(H, block, txs);
    }
  }

  /** The whole rule book in one statement: a block above the first is accepted exactly when it fits
      the tip, carries what its kind must carry, and its transactions are admissible. */
  lemma AcceptedExactly(H: string -> Digest, block: Block, txs: seq<Transaction>, tip: ChainTip, db: Accounts, now: i64)
    requires block.header.index != 0
    ensures ValidateBlockRules(H, block, txs, tip, db, now).Success?
       <==> Fits(H, block, tip, now) && Carries(H, block, txs, tip) && Admissible(txs, db)
  {
    FitsExactly(H, block, tip, now);
    CarriesExactly(H, block, txs, tip);
    ChecksAdmissible(txs, db);
  }

  /** An accepted epoch block begins with the coinbase of its own epoch and hash, worth the reward of
      the schedule. */
  lemma AcceptedCoinbase(H: string -> Digest, block: Block, txs: seq<Transaction>, tip: ChainTip, db: Accounts, now: i64)
    requires block.header.index != 0 && block.header.isEpochBlock
    requires ValidateBlockRules(H, block, txs, tip, db, now).Success?
    ensures txs != [] && PaysReward(H, txs[0], block) && txs[0].amount == BlockReward(block.header.epochIndex)
  {
    AcceptedExactly(H, block, txs, tip, db, now);
  }

  /** Block zero is accepted exactly when it follows 64 zeros and its work, hash and root are right,
      whatever the tip is. */
  lemma FirstAcceptedExactly(H: string -> Digest, block: Block, txs: seq<Transaction>, tip: ChainTip, db: Accounts, now: i64)
    requires block.header.index == 0
    ensures ValidateBlockRules(H, block, txs, tip, db, now).Success? <==>
      && block.header.previousHash == "0000000000000000000000000000000000000000000000000000000000000000"
      && block.header.difficulty <= LeadingZeros(block.hash) && block.hash == HashBlockHeader(H, block.header)
      && block.header.merkleRoot == MerkleRoot(H, seq(|txs|, i requires 0 <= i < |txs| => txs[i].hash))
  {
    assert HashesOf(txs) == seq(|txs|, i requires 0 <= i < |txs| => txs[i].hash);
    DifficultyIsLeadingZeros(block.hash, block.header.difficulty);
  }

  /* ---------- Reasons ---------- */

  /** The violation reported is one that is there, with the values that clash. */
  ghost predicate TrueViolation(H: string -> Digest, block: Block, txs: seq<Transaction>, tip: ChainTip, db: Accounts,
                                now: i64, v: RuleViolation)
  {
    var h := block.header;
    match v
    case InvalidHeight(expected, got) => expected == (tip.height + 1) % TWO_64 && got == h.index && expected != got
    case InvalidPreviousHash(expected, got) =>
      got == h.previousHash && expected != got && expected == if h.index == 0 then ZERO_HASH else tip.hash
    case InvalidHash => block.hash != HashBlockHeader(H, h)
    case InsufficientProofOfWork(required, hash) => required == h.difficulty && hash == block.hash && LeadingZeros(hash) < required
    case InvalidTimestamp =>
      || h.timestamp > WrapI64(now + 120_000)
      || (tip.timestamp > 0 && h.timestamp < tip.timestamp + if h.isEpochBlock then 60_000 else 500)
    case InvalidMerkleRoot => h.merkleRoot != MerkleRoot(H, HashesOf(txs))
    case BlockTooLarge(max, got) =>
      max < got && if h.isEpochBlock then max == 10_000 && got == |block.transactionHashes| else max == 1_000 && got == |txs|
    case InvalidCoinbase => h.isEpochBlock && txs != [] && !PaysReward(H, txs[0], block)
    case MissingCoinbase => h.isEpochBlock && (txs == [] || txs[0].sender != COINBASE_SENDER)
    case UnexpectedCoinbase => !h.isEpochBlock && exists i :: 0 <= i < |txs| && txs[i].sender == COINBASE_SENDER
    case InvalidEpochIndex(expected, got) => h.isEpochBlock && expected == (tip.epochIndex + 1) % TWO_64 && got == h.epochIndex && expected != got
    case InvalidBlockReward(expected, got) => h.isEpochBlock && expected == BlockReward(h.epochIndex) && got == block.blockReward && expected != got
    case _ => exists i :: 0 <= i < |txs| && TrueListViolation(txs, {}, i, db, v)
  }

  /** Transaction `i` is the first of the list to break a rule, and `v` says which. */
  ghost predicate TrueListViolation(txs: seq<Transaction>, seen: set<string>, i: nat, db: Accounts, v: RuleViolation)
    requires i < |txs|
  {
    var tx := txs[i];
    && tx.sender != COINBASE_SENDER && CheckFrom(txs[..i], seen, db).Success?
    && match v
       case DuplicateTransaction(hash) =>
         hash == tx.hash && (hash in seen || exists j :: 0 <= j < i && txs[j].sender != COINBASE_SENDER && txs[j].hash == hash)
       case InsufficientFunds(address, needed, available) =>
         address == tx.sender && address in db && needed == Required(tx) && available == db[address].balance && available < needed
       case InvalidTransactionNonce(expected, got) =>
         tx.sender in db && expected == db[tx.sender].nonce && got == tx.nonce && expected != got
         && Required(tx) <= db[tx.sender].balance
       case _ => false
  }

  /** A refused list is refused for its first offender. */
  lemma {:induction false} ListReason(txs: seq<Transaction>, seen: set<string>, db: Accounts) returns (i: nat)
    requires CheckFrom(txs, seen, db).Failure?
    ensures i < |txs| && TrueListViolation(txs, seen, i, db, CheckFrom(txs, seen, db).error)
    decreases |txs|
  {
    var tx, rest := txs[0], txs[1..];
    if tx.sender != COINBASE_SENDER && (tx.hash in seen || CheckSender(tx, db).Failure?) {
      i := 0;
      assert txs[..0] == [];
    } else {
      var seen' := if tx.sender == COINBASE_SENDER then seen else seen + {tx.hash};
      var k := ListReason(rest, seen', db);
      i := k + 1;
      assert txs[..i][1..] == rest[..k] && txs[i] == rest[k];
      ReasonBehind(txs, seen, k, db, CheckFrom(rest, seen', db).error);
    }
  }

  lemma ReasonBehind(txs: seq<Transaction>, seen: set<string>, k: nat, db: Accounts, v: RuleViolation)
    requires txs != [] && k < |txs[1..]|
    requires txs[0].sender == COINBASE_SENDER || (txs[0].hash !in seen && CheckSender(txs[0], db).Success?)
    requires TrueListViolation(txs[1..], if txs[0].sender == COINBASE_SENDER then seen else seen + {txs[0].hash}, k, db, v)
    ensures TrueListViolation(txs, seen, k + 1, db, v)
  {
    assert txs[..k + 1][1..] == txs[1..][..k] && txs[..k + 1][0] == txs[0];
    if v.DuplicateTransaction? && v.duplicate !in seen {
      if j :| 0 <= j < k && txs[1..][j].sender != COINBASE_SENDER && txs[1..][j].hash == v.duplicate {
        assert txs[j + 1] == txs[1..][j];
      } else {
        assert txs[0].sender != COINBASE_SENDER && txs[0].hash == v.duplicate;
      }
    }
  }

  /** Whatever violation the rules report is a true one. */
  lemma ReportedViolation(H: string -> Digest, block: Block, txs: seq<Transaction>, tip: ChainTip, db: Accounts, now: i64)
    requires ValidateBlockRules(H, block, txs, tip, db, now).Failure?
    ensures TrueViolation(H, block, txs, tip, db, now, ValidateBlockRules(H, block, txs, tip, db, now).error)
  {
    WorkViolation(H, block, txs, tip, db, now);
    if block.header.index != 0 {
      PlaceViolation(H, block, txs, tip, db, now);
      if CheckKind(H, block, txs, tip).Failure? {
        KindViolation(H, block, txs, tip, db, now);
      }
      if CheckFrom(txs, {}, db).Failure? {
        ListViolation(H, block, txs, tip, db, now);
      }
    }
  }

  lemma WorkViolation(H: string -> Digest, block: Block, txs: seq<Transaction>, tip: ChainTip, db: Accounts, now: i64)
    ensures var v := CheckProofOfWork(block); v.Failure? ==> TrueViolation(H, block, txs, tip, db, now, v.error)
    ensures var v := CheckBlockHash(H, block); v.Failure? ==> TrueViolation(H, block, txs, tip, db, now, v.error)
    ensures var v := CheckMerkleRoot(H, block, txs); v.Failure? ==> TrueViolation(H, block, txs, tip, db, now, v.error)
  {
    DifficultyIsLeadingZeros(block.hash, block.header.difficulty);
  }

  lemma PlaceViolation(H: string -> Digest, block: Block, txs: seq<Transaction>, tip: ChainTip, db: Accounts, now: i64)
    requires block.header.index != 0
    ensures var v := CheckHeight(block, tip); v.Failure? ==> TrueViolation(H, block, txs, tip, db, now, v.error)
    ensures var v := CheckPreviousHash(block, tip.hash); v.Failure? ==> TrueViolation(H, block, txs, tip, db, now, v.error)
    ensures var v := CheckBlockSize(block, txs); v.Failure? ==> TrueViolation(H, block, txs, tip, db, now, v.error)
    ensures var v := CheckTimestamp(block, tip, now); v.Failure? ==> TrueViolation(H, block, txs, tip, db, now, v.error)
  {
    TimestampExactly(block, tip, now);
  }

  lemma KindViolation(H: string -> Digest, block: Block, txs: seq<Transaction>, tip: ChainTip, db: Accounts, now: i64)
    requires CheckKind(H, block, txs, tip).Failure?
    ensures TrueViolation(H, block, txs, tip, db, now, CheckKind(H, block, txs, tip).error)
  {
    if block.header.isEpochBlock && block.blockReward == BlockReward(block.header.epochIndex) {
      CoinbaseExactly(H, block, txs);
    }
  }

  lemma ListViolation(H: string -> Digest, block: Block, txs: seq<Transaction>, tip: ChainTip, db: Accounts, now: i64)
    requires CheckFrom(txs, {}, db).Failure?
    ensures TrueViolation(H, block, txs, tip, db, now, CheckFrom(txs, {}, db).error)
  {
    var i := ListReason(txs, {}, db);
  }
}
