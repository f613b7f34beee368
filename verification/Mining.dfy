/** Header hashing, the difficulty test and the nonce search. */
module Mining {
  import opened Prelude
  import opened Types
  import opened Keys

  function DecimalInt(n: int): string {
    if n < 0 then "-" + Decimal(-n) else Decimal(n)
  }

  function HeaderText(h: BlockHeader): string {
    Decimal(h.index) + DecimalInt(h.timestamp) + h.previousHash + h.merkleRoot + Decimal(h.nonce)
    + Decimal(h.difficulty) + (if h.isEpochBlock then "1" else "0") + Decimal(h.epochIndex) + h.stateRoot
  }

  function HashBlockHeader(H: string -> Digest, h: BlockHeader): Digest {
    H(HeaderText(h))
  }

  predicate MeetsDifficulty(hash: string, difficulty: u32) {
    |hash| >= difficulty && forall i :: 0 <= i < difficulty ==> hash[i] == '0'
  }

  function LeadingZeros(hash: string): nat {
    if hash == "" || hash[0] != '0' then 0 else 1 + LeadingZeros(hash[1..])
  }

  /** The two readings of difficulty agree. */
  lemma {:induction false} DifficultyIsLeadingZeros(hash: string, difficulty: u32)
    ensures MeetsDifficulty(hash, difficulty) <==> difficulty <= LeadingZeros(hash)
    decreases |hash|
  {
    if hash != "" && difficulty > 0 && hash[0] == '0' {
      DifficultyIsLeadingZeros(hash[1..], difficulty - 1);
      assert forall i :: 0 <= i < |hash| - 1 ==> hash[1..][i] == hash[i + 1];
      if MeetsDifficulty(hash[1..], difficulty - 1) {
        forall i | 0 <= i < difficulty
          ensures hash[i] == '0'
        {
          assert i > 0 ==> hash[1..][i - 1] == '0';
        }
      }
    }
  }

  datatype MinedBlock = MinedBlock(nonce: u64, hash: string, attempts: u64)

  /** No nonce below `limit` is good enough. */
  ghost predicate NoneBelow(H: string -> Digest, header: BlockHeader, limit: u64) {
    forall n: u64 :: n < limit ==> !MeetsDifficulty(HashBlockHeader(H, header.(nonce := n)), header.difficulty)
  }

  /** The search returns the least nonce below the limit whose hash is good enough, if there is one. */
  method MineBlock(H: string -> Digest, header: BlockHeader, maxAttempts: u64) returns (r: Option<MinedBlock>)
    ensures r.Some? ==>
      && r.value.nonce < maxAttempts && r.value.attempts == r.value.nonce + 1
      && r.value.hash == HashBlockHeader(H, header.(nonce := r.value.nonce))
      && MeetsDifficulty(r.value.hash, header.difficulty)
    ensures NoneBelow(H, header, if r.Some? then r.value.nonce else maxAttempts)
  {
    var nonce: u64 := 0;
    while nonce < maxAttempts
      invariant nonce <= maxAttempts
      invariant NoneBelow(H, header, nonce)
    {
      var hash := HashBlockHeader(H, header.(nonce := nonce));
      if MeetsDifficulty(hash, header.difficulty) {
        return Some(MinedBlock(nonce, hash, nonce + 1));
      }
      nonce := nonce + 1;
    }
    r := None;
  }
}
