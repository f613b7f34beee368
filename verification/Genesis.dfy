/** The allocations of block zero. */
module Genesis {
  import opened Prelude
  import opened Types
  import opened Ledger
  import opened Emission

  const TOTAL_SUPPLY: u64 := 1_500_000_000_000_000_000
  const MINING_ALLOCATION: u64 := 900_000_000_000_000_000
  const ECOSYSTEM_ALLOCATION: u64 := 225_000_000_000_000_000
  const FOUNDER_ALLOCATION: u64 := 150_000_000_000_000_000
  const COMMUNITY_ALLOCATION: u64 := 150_000_000_000_000_000
  const TREASURY_ALLOCATION: u64 := 75_000_000_000_000_000

  const ECOSYSTEM_ADDRESS := "kyv10000000000000000000000000000000000000000000000000ecosystem00"
  const FOUNDER_ADDRESS := "kyv10000000000000000000000000000000000000000000000000000founder00"
  const COMMUNITY_ADDRESS := "kyv100000000000000000000000000000000000000000000000000community00"
  const GENESIS_MINER := FOUNDER_ADDRESS

  /** Everything credited at genesis except the first block reward. */
  const ALLOCATED: int := ECOSYSTEM_ALLOCATION + FOUNDER_ALLOCATION + COMMUNITY_ALLOCATION + TREASURY_ALLOCATION

  /** Run one credit unless an earlier one failed. */
  function ThenCredit(o: Outcome<Unit>, address: string, amount: u64): Outcome<Unit> {
    if o.result.Failure? then o else Credit(o.accounts, address, amount)
  }

  function GenesisAllocations(m: Accounts): Outcome<Unit> {
    ThenCredit(ThenCredit(ThenCredit(Credit(m, ECOSYSTEM_ADDRESS, ECOSYSTEM_ALLOCATION),
                                     FOUNDER_ADDRESS, FOUNDER_ALLOCATION),
                          COMMUNITY_ADDRESS, COMMUNITY_ALLOCATION),
               TREASURY_ADDRESS, TREASURY_ALLOCATION)
  }

  function InitialAccounts(m: Accounts): Outcome<Unit> {
    ThenCredit(GenesisAllocations(m), GENESIS_MINER, GENESIS_BLOCK_REWARD)
  }

  /** Genesis mints the four allocations and one block reward, whichever of its addresses coincide;
      the fifth allocation is left to mining, which completes the total supply. */
  lemma GenesisTotal(m: Accounts)
    requires m == map[]
    ensures var o := InitialAccounts(m);
      o.result.Success? && Keyed(o.accounts) && Total(o.accounts) == ALLOCATED + GENESIS_BLOCK_REWARD
    ensures ALLOCATED + MINING_ALLOCATION == TOTAL_SUPPLY
    ensures EMISSION_CAP <= MINING_ALLOCATION
  {
    assert Total(m) == 0;
    CreditTotal(m, ECOSYSTEM_ADDRESS, ECOSYSTEM_ALLOCATION);
    var m1 := Credit(m, ECOSYSTEM_ADDRESS, ECOSYSTEM_ALLOCATION).accounts;
    CreditTotal(m1, FOUNDER_ADDRESS, FOUNDER_ALLOCATION);
    var m2 := Credit(m1, FOUNDER_ADDRESS, FOUNDER_ALLOCATION).accounts;
    CreditTotal(m2, COMMUNITY_ADDRESS, COMMUNITY_ALLOCATION);
    var m3 := Credit(m2, COMMUNITY_ADDRESS, COMMUNITY_ALLOCATION).accounts;
    CreditTotal(m3, TREASURY_ADDRESS, TREASURY_ALLOCATION);
    var m4 := Credit(m3, TREASURY_ADDRESS, TREASURY_ALLOCATION).accounts;
    CreditTotal(m4, GENESIS_MINER, GENESIS_BLOCK_REWARD);
  }

  /** An account that was only ever credited. */
  function Funded(address: string, balance: u64): Account {
    Account(address, balance, 0, 0, None, false, 0)
  }

  /** Who receives what: exactly four accounts, the founder with the first block reward besides its
      allocation, none with a stake, a nonce or a tier. */
  lemma GenesisBalances()
    ensures InitialAccounts(map[]) == Outcome(
      map[ECOSYSTEM_ADDRESS := Funded(ECOSYSTEM_ADDRESS, 225_000_000_000_000_000),
          FOUNDER_ADDRESS := Funded(FOUNDER_ADDRESS, 150_000_050_000_000_000),
          COMMUNITY_ADDRESS := Funded(COMMUNITY_ADDRESS, 150_000_000_000_000_000),
          TREASURY_ADDRESS := Funded(TREASURY_ADDRESS, 75_000_000_000_000_000)], Success(Unit))
    ensures ECOSYSTEM_ADDRESS == "kyv10000000000000000000000000000000000000000000000000ecosystem00"
    ensures FOUNDER_ADDRESS == "kyv10000000000000000000000000000000000000000000000000000founder00"
    ensures COMMUNITY_ADDRESS == "kyv100000000000000000000000000000000000000000000000000community00"
    ensures TREASURY_ADDRESS == "kyv10000000000000000000000000000000000000000000000000000treasury00"
  {
    GenesisAddressesDiffer();
    var e, f := Funded(ECOSYSTEM_ADDRESS, 225_000_000_000_000_000), Funded(FOUNDER_ADDRESS, 150_000_000_000_000_000);
    var c, t := Funded(COMMUNITY_ADDRESS, 150_000_000_000_000_000), Funded(TREASURY_ADDRESS, 75_000_000_000_000_000);
    assert GenesisAllocations(map[]) == Outcome(
      map[ECOSYSTEM_ADDRESS := e, FOUNDER_ADDRESS := f, COMMUNITY_ADDRESS := c, TREASURY_ADDRESS := t], Success(Unit));
  }

  lemma GenesisAddressesDiffer()
    ensures ECOSYSTEM_ADDRESS != FOUNDER_ADDRESS && ECOSYSTEM_ADDRESS != COMMUNITY_ADDRESS
    ensures ECOSYSTEM_ADDRESS != TREASURY_ADDRESS && FOUNDER_ADDRESS != COMMUNITY_ADDRESS
    ensures FOUNDER_ADDRESS != TREASURY_ADDRESS && COMMUNITY_ADDRESS != TREASURY_ADDRESS
  {
    assert ECOSYSTEM_ADDRESS[56] == 's' && FOUNDER_ADDRESS[56] == 'f' && COMMUNITY_ADDRESS[56] == 'm' && TREASURY_ADDRESS[56] == 't';
  }
}
