/** Whole runs of the ledger from genesis: every unit of value is accounted for at every step. */
module Supply {
  import opened Prelude
  import opened Types
  import opened Ledger
  import opened Fees
  import opened Emission
  import opened Coinbase
  import opened Validators
  import opened Staking
  import opened Genesis

  /** The database of a node between two calls, with the transactions applied since the last epoch
      block, whose fees the next epoch reward distributes. */
  datatype World = World(accounts: Accounts, pending: Pending, epoch: u64, txs: seq<Transaction>)

  /** A world together with what has been destroyed on the way to it: fees burnt by epoch rewards,
      and pending withdrawals replaced by a second request under the same key. */
  datatype State = State(world: World, burned: int, replaced: nat)

  datatype Step =
    | Submit(tx: Transaction)
    | Lock(address: string, amount: u64)
    | Unlock(address: string, amount: u64)
    | RequestUnbonding(address: string, amount: u64)
    | ReleaseDue
    | Penalize(address: string, bps: u64)
    | CloseEpoch(coinbase: Transaction, blockHash: string)

  function ErrorOf<T>(r: Result<T, LedgerError>): Option<LedgerError> {
    match r case Success(_) => None case Failure(e) => Some(e)
  }

  /** The error a step reports, if any. */
  function Refusal(w: World, step: Step): Option<LedgerError> {
    match step
    case Submit(tx) => ErrorOf(Apply(w.accounts, tx).result)
    case Lock(a, amount) => ErrorOf(LockStake(w.accounts, a, amount).result)
    case Unlock(a, amount) => ErrorOf(UnlockStake(w.accounts, a, amount).result)
    case RequestUnbonding(a, amount) => ErrorOf(RequestUnstake(w.accounts, w.pending, a, amount, w.epoch).result)
    case ReleaseDue => ErrorOf(ReleaseMatured(w.accounts, w.pending, w.epoch).result)
    case Penalize(a, bps) => ErrorOf(Slash(w.accounts, a, bps).result)
    case CloseEpoch(coinbase, _) => ErrorOf(EpochRewards(w.accounts, coinbase, TotalFees(w.txs)).result)
  }

  function Next(w: World, step: Step): World {
    match step
    case Submit(tx) =>
      var o := Apply(w.accounts, tx);
      w.(accounts := o.accounts, txs := if o.result.Success? then w.txs + [tx] else w.txs)
    case Lock(a, amount) => w.(accounts := LockStake(w.accounts, a, amount).accounts)
    case Unlock(a, amount) => w.(accounts := UnlockStake(w.accounts, a, amount).accounts)
    case RequestUnbonding(a, amount) =>
      var o := RequestUnstake(w.accounts, w.pending, a, amount, w.epoch);
      w.(accounts := o.accounts, pending := o.pending)
    case ReleaseDue =>
      var o := ReleaseMatured(w.accounts, w.pending, w.epoch);
      w.(accounts := o.accounts, pending := o.pending)
    case Penalize(a, bps) => w.(accounts := Slash(w.accounts, a, bps).accounts)
    case CloseEpoch(coinbase, _) =>
      var o := EpochRewards(w.accounts, coinbase, TotalFees(w.txs));
      World(o.accounts, w.pending, Wrap64(w.epoch + 1), [])
  }

  /** What the step destroys by replacing a pending withdrawal. */
  function Replaced(w: World, step: Step): nat {
    if step.RequestUnbonding? && Refusal(w, step).None? then
      var key := NewUnstake(step.address, step.amount, w.epoch).Key();
      if key in w.pending then w.pending[key].amount else 0
    else 0
  }

  ghost function Burned(w: World, step: Step): int {
    if step.CloseEpoch? then EpochBurn(w.txs) else 0
  }

  ghost function NextState(s: State, step: Step): State {
    State(Next(s.world, step), s.burned + Burned(s.world, step), s.replaced + Replaced(s.world, step))
  }

  /** The assumptions about a step. The rules make an epoch block carry the coinbase of the next
      epoch; that a slash rate is a rate and that the emission schedule is still in its range is
      nowhere checked. */
  predicate Legal(H: string -> Digest, w: World, step: Step) {
    match step
    case Penalize(_, bps) => bps <= 10_000
    case CloseEpoch(coinbase, blockHash) =>
      w.epoch + 1 < CAST_LIMIT && VerifyCoinbase(H, coinbase, w.epoch + 1, blockHash)
    case _ => true
  }

  ghost predicate LegalRun(H: string -> Digest, s: State, steps: seq<Step>)
    decreases |steps|
  {
    steps == [] || (Legal(H, s.world, steps[0]) && LegalRun(H, NextState(s, steps[0]), steps[1..]))
  }

  ghost function RunFrom(s: State, steps: seq<Step>): State
    decreases |steps|
  {
    if steps == [] then s else RunFrom(NextState(s, steps[0]), steps[1..])
  }

  ghost function Initial(): State {
    State(World(InitialAccounts(map[]).accounts, map[], 0, []), 0, 0)
  }

  /* ---------- One step ---------- */

  /** All the value a world holds: accounts, pending withdrawals and undistributed fees. */
  ghost function Held(w: World): nat {
    Total(w.accounts) + PendingTotal(w.pending) + Withheld(w.txs)
  }

  ghost predicate Sound(w: World) {
    Keyed(w.accounts) && PendingKeyed(w.pending) && Held(w) <= TOTAL_SUPPLY
  }

  function Minted(w: World, step: Step): nat {
    if step.CloseEpoch? then BlockReward(Wrap64(w.epoch + 1)) else 0
  }

  predicate IsOverflow(e: Option<LedgerError>) {
    e == Some(BalanceOverflow) || e == Some(StakeOverflow)
  }

  /** What a step keeps: value enters only as a block reward and leaves only as burnt fees or a
      replaced withdrawal, a refused step changed nothing, no addition on a balance or a stake
      overflowed, and neither a release nor an epoch reward is ever refused. */
  ghost predicate StepKeeps(w: World, step: Step) {
    var w' := Next(w, step);
    && Keyed(w'.accounts) && PendingKeyed(w'.pending)
    && Held(w') + Burned(w, step) + Replaced(w, step) == Held(w) + Minted(w, step)
    && Burned(w, step) >= 0
    && (Refusal(w, step).Some? ==> w' == w)
    && !IsOverflow(Refusal(w, step))
    && (step.ReleaseDue? || step.CloseEpoch? ==> Refusal(w, step).None?)
  }

  lemma WithheldAppend(txs: seq<Transaction>, tx: Transaction)
    ensures Withheld(txs + [tx]) == Withheld(txs) + (tx.fee - tx.fee / 10)
  {
    assert (txs + [tx])[..|txs|] == txs;
  }

  /** No charge of a sender overflows while its balance and stake fit together in a `u64`. */
  lemma ChargeNeverOverflows(a: Account, tx: Transaction)
    requires a.balance + a.stakedBalance <= U64_MAX
    ensures !IsOverflow(ErrorOf(Charge(a, tx)))
  {
  }

  lemma SubmitValue(m: Accounts, tx: Transaction)
    requires Keyed(m) && Total(m) <= U64_MAX
    ensures var o := Apply(m, tx);
      && Keyed(o.accounts) && !IsOverflow(ErrorOf(o.result))
      && (o.result.Failure? ==> o.accounts == m)
      && (o.result.Success? ==> Total(o.accounts) + (tx.fee - tx.fee / 10) == Total(m))
  {
    TransactionMeaning(m, tx);
    WorthBound(m, tx.sender);
    ChargeMeaning(m, tx);
    ChargeNeverOverflows(GetOrCreate(m, tx.sender), tx);
  }

  lemma SubmitStep(w: World, tx: Transaction)
    requires Sound(w)
    ensures StepKeeps(w, Submit(tx))
  {
    SubmitValue(w.accounts, tx);
    WithheldAppend(w.txs, tx);
  }

  lemma LockStep(w: World, a: string, amount: u64)
    requires Sound(w)
    ensures StepKeeps(w, Lock(a, amount))
  {
    LockConserves(w.accounts, a, amount);
  }

  lemma UnlockStep(w: World, a: string, amount: u64)
    requires Sound(w)
    ensures StepKeeps(w, Unlock(a, amount))
  {
    UnlockConserves(w.accounts, a, amount);
  }

  lemma RequestStep(w: World, a: string, amount: u64)
    requires Sound(w)
    ensures StepKeeps(w, RequestUnbonding(a, amount))
  {
    RequestMeaning(w.accounts, w.pending, a, amount, w.epoch);
  }

  lemma ReleaseValue(m: Accounts, p: Pending, epoch: u64)
    requires Keyed(m) && PendingKeyed(p) && Total(m) + PendingTotal(p) <= U64_MAX
    ensures var o := ReleaseMatured(m, p, epoch);
      && o.result.Success? && Keyed(o.accounts) && PendingKeyed(o.pending)
      && Total(o.accounts) + PendingTotal(o.pending) == Total(m) + PendingTotal(p)
  {
    ReleaseMeaning(m, p, epoch);
  }

  lemma ReleaseStep(w: World)
    requires Sound(w)
    ensures StepKeeps(w, ReleaseDue)
  {
    ReleaseValue(w.accounts, w.pending, w.epoch);
  }

  lemma PenalizeStep(w: World, a: string, bps: u64)
    requires Sound(w) && bps <= 10_000
    ensures StepKeeps(w, Penalize(a, bps))
  {
    SlashConserves(w.accounts, a, bps);
  }

  /** The validator share paid out of an epoch's fees fits in what was withheld from them. */
  lemma EpochValue(m: Accounts, txs: seq<Transaction>, coinbase: Transaction)
    requires Keyed(m) && Total(m) + Withheld(txs) + coinbase.amount <= U64_MAX
    requires coinbase.sender == COINBASE_SENDER
    ensures var o := EpochRewards(m, coinbase, TotalFees(txs));
      && o.result.Success? && Keyed(o.accounts)
      && Total(o.accounts) + EpochBurn(txs) == Total(m) + Withheld(txs) + coinbase.amount
      && EpochBurn(txs) >= 0
  {
    EpochBurnBounds(txs);
    EpochRewardsMeaning(m, coinbase, TotalFees(txs));
  }

  lemma LegalCoinbase(H: string -> Digest, w: World, step: Step)
    requires step.CloseEpoch? && Legal(H, w, step)
    ensures Wrap64(w.epoch + 1) == w.epoch + 1
    ensures step.coinbase.sender == COINBASE_SENDER
    ensures step.coinbase.amount == Minted(w, step) <= GENESIS_BLOCK_REWARD
  {
    RewardBounded(w.epoch + 1);
  }

  lemma CloseEpochStep(w: World, step: Step)
    requires Sound(w) && step.CloseEpoch?
    requires step.coinbase.sender == COINBASE_SENDER && step.coinbase.amount == Minted(w, step) <= GENESIS_BLOCK_REWARD
    ensures StepKeeps(w, step)
  {
    EpochValue(w.accounts, w.txs, step.coinbase);
    assert Withheld([]) == 0;
    assert Next(w, step).txs == [] && Next(w, step).pending == w.pending;
  }

  lemma EveryStepKeeps(H: string -> Digest, w: World, step: Step)
    requires Sound(w) && Legal(H, w, step)
    ensures StepKeeps(w, step)
  {
    match step
    case Submit(tx) => SubmitStep(w, tx);
    case Lock(a, amount) => LockStep(w, a, amount);
    case Unlock(a, amount) => UnlockStep(w, a, amount);
    case RequestUnbonding(a, amount) => RequestStep(w, a, amount);
    case ReleaseDue => ReleaseStep(w);
    case Penalize(a, bps) => PenalizeStep(w, a, bps);
    case CloseEpoch(_, _) => LegalCoinbase(H, w, step); CloseEpochStep(w, step);
  }

  /* ---------- Whole runs ---------- */

  /** The books balance: what is held and what was destroyed is what was ever issued. */
  ghost predicate Inv(s: State) {
    && Keyed(s.world.accounts) && PendingKeyed(s.world.pending) && s.world.epoch < CAST_LIMIT
    && s.burned >= 0
    && Held(s.world) + s.burned + s.replaced == ALLOCATED + RewardSum(s.world.epoch)
  }

  lemma InvSound(s: State)
    requires Inv(s)
    ensures Sound(s.world)
  {
    EmissionWithinCap(s.world.epoch);
  }

  lemma RewardSumNext(epoch: u64)
    requires epoch + 1 < CAST_LIMIT
    ensures Wrap64(epoch + 1) == epoch + 1 && RewardSum(epoch + 1) == RewardSum(epoch) + BlockReward(epoch + 1)
  {
  }

  lemma EpochAdvances(H: string -> Digest, w: World, step: Step)
    requires Legal(H, w, step) && w.epoch < CAST_LIMIT
    ensures var epoch := Next(w, step).epoch;
      && w.epoch <= epoch < CAST_LIMIT
      && RewardSum(epoch) == RewardSum(w.epoch) + Minted(w, step)
  {
    if step.CloseEpoch? {
      RewardSumNext(w.epoch);
      assert Next(w, step).epoch == w.epoch + 1;
    } else {
      assert Next(w, step).epoch == w.epoch;
    }
  }

  lemma StepKeepsInv(H: string -> Digest, s: State, step: Step)
    requires Inv(s) && Legal(H, s.world, step)
    ensures Inv(NextState(s, step))
  {
    InvSound(s);
    EveryStepKeeps(H, s.world, step);
    EpochAdvances(H, s.world, step);
  }

  lemma {:induction false} RunKeepsInv(H: string -> Digest, s: State, steps: seq<Step>)
    requires Inv(s) && LegalRun(H, s, steps)
    ensures Inv(RunFrom(s, steps))
    decreases |steps|
  {
    if steps != [] {
      StepKeepsInv(H, s, steps[0]);
      RunKeepsInv(H, NextState(s, steps[0]), steps[1..]);
    }
  }

  lemma InitialInv()
    ensures Inv(Initial())
  {
    GenesisTotal(map[]);
    FirstReward();
  }

  /** Whole-run supply: after any legal run from genesis, balances, stakes, pending withdrawals and
      fees not yet distributed, together with what was burnt and replaced, are the four allocations
      plus the mined supply; so the value held never exceeds the total supply, and whatever legal
      step comes next cannot overflow a balance or a stake and changes nothing if it is refused. */
  lemma SupplyAccounted(H: string -> Digest, steps: seq<Step>, step: Step)
    requires LegalRun(H, Initial(), steps)
    ensures var s := RunFrom(Initial(), steps);
      && Held(s.world) + s.burned + s.replaced == ALLOCATED + MinedSupply(s.world.epoch)
      && Held(s.world) <= TOTAL_SUPPLY && s.burned >= 0
      && (Legal(H, s.world, step) ==> StepKeeps(s.world, step))
  {
    InitialInv();
    RunKeepsInv(H, Initial(), steps);
    var s := RunFrom(Initial(), steps);
    InvSound(s);
    MinedSupplyExact(s.world.epoch);
    if Legal(H, s.world, step) {
      EveryStepKeeps(H, s.world, step);
    }
  }
}
