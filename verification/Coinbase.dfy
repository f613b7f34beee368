/** The coinbase transaction of an epoch block. */
module Coinbase {
  import opened Prelude
  import opened Types
  import opened Keys
  import opened Emission

  function CoinbaseHashInput(blockHash: string, height: u64): string {
    "coinbase:" + blockHash + ":" + Decimal(height)
  }

  function BuildCoinbase(H: string -> Digest, miner: string, height: u64, blockHash: string): Transaction {
    Transaction(H(CoinbaseHashInput(blockHash, height)), COINBASE_SENDER, miner, BlockReward(height), 0, height,
                "coinbase", Transfer)
  }

  predicate VerifyCoinbase(H: string -> Digest, coinbase: Transaction, height: u64, blockHash: string) {
    && coinbase.sender == COINBASE_SENDER
    && coinbase.amount == BlockReward(height)
    && coinbase.nonce == height
    && coinbase.hash == H(CoinbaseHashInput(blockHash, height))
  }

  /** A built coinbase passes its own check, and passes no check for another height. */
  lemma BuiltCoinbaseVerifies(H: string -> Digest, miner: string, height: u64, blockHash: string, other: u64)
    ensures VerifyCoinbase(H, BuildCoinbase(H, miner, height, blockHash), other, blockHash) <==> other == height
  {
  }

  /** What is built: a free transfer of the reward to the miner. */
  lemma BuiltCoinbasePays(H: string -> Digest, miner: string, height: u64, blockHash: string)
    ensures var c := BuildCoinbase(H, miner, height, blockHash);
      && c.receiver == miner && c.amount == BlockReward(height) && c.fee == 0 && c.nonce == height
      && c.transactionType == Transfer && c.signature == "coinbase" && c.sender == COINBASE_SENDER
  {
  }

  /** The check accepts exactly the transactions that agree with the built one in sender, amount, nonce
      and hash, whoever they pay; the hash is that of a text naming block and height. */
  lemma VerifiedExactly(H: string -> Digest, tx: Transaction, height: u64, blockHash: string)
    ensures VerifyCoinbase(H, tx, height, blockHash)
       <==> tx == BuildCoinbase(H, tx.receiver, height, blockHash).(fee := tx.fee, signature := tx.signature,
                                                                    transactionType := tx.transactionType)
    ensures VerifyCoinbase(H, tx, height, blockHash) ==> tx.hash == H("coinbase:" + blockHash + ":" + Decimal(height))
  {
  }

  /** One text stands for one block hash and height, for block hashes of one length. */
  lemma CoinbaseTextInjective(hash: string, height: u64, hash': string, height': u64)
    requires |hash| == |hash'| && CoinbaseHashInput(hash, height) == CoinbaseHashInput(hash', height')
    ensures hash == hash' && height == height'
  {
    assert CoinbaseHashInput(hash, height) == ("coinbase:" + hash) + (":" + Decimal(height));
    assert CoinbaseHashInput(hash', height') == ("coinbase:" + hash') + (":" + Decimal(height'));
    SplitAt("coinbase:" + hash, "coinbase:" + hash', ":" + Decimal(height), ":" + Decimal(height'));
    CancelLeft("coinbase:", hash, hash');
    CancelLeft(":", Decimal(height), Decimal(height'));
    DecimalInjective(height, height');
  }
}
