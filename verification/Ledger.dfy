/** What one call of the account store or of the state transition does to the account map.
    Every function returns the resulting map together with the call's result, because the
    code can fail after it has already written an account. */
module Ledger {
  import opened Prelude
  import opened Types
  import opened MapSum

  type Accounts = map<string, Account>

  datatype LedgerError =
    | CostOverflow
    | InsufficientBalance(has: u64, needs: u64)
    | InsufficientStake(has: u64, needs: u64)
    | NonceMismatch(expected: u64, got: u64)
    | BalanceOverflow
    | StakeOverflow
    | NoAccount
    | NothingStaked
    | NotCoinbase
    | AlreadyInitialized
    | GenesisNotMined

  datatype Outcome<+T> = Outcome(accounts: Accounts, result: Result<T, LedgerError>)

  /** Every account is stored under its own address. */
  ghost predicate Keyed(m: Accounts) {
    forall a :: a in m ==> m[a].address == a
  }

  function GetOrCreate(m: Accounts, address: string): Account {
    if address in m then m[address] else NewAccount(address)
  }

  function Save(m: Accounts, account: Account): Accounts {
    m[account.address := account]
  }

  function Credit(m: Accounts, address: string, amount: u64): Outcome<Unit> {
    var account := GetOrCreate(m, address);
    if account.balance + amount > U64_MAX then
      Outcome(m, Failure(BalanceOverflow))
    else
      Outcome(Save(m, account.(balance := account.balance + amount)), Success(Unit))
  }

  /** The guard in front of every protocol payment: nothing is written for an amount of zero. */
  function CreditIfAny(m: Accounts, address: string, amount: u64): Outcome<Unit> {
    if amount > 0 then Credit(m, address, amount) else Outcome(m, Success(Unit))
  }

  function LockStake(m: Accounts, address: string, amount: u64): Outcome<Unit> {
    var account := GetOrCreate(m, address);
    if account.balance < amount then
      Outcome(m, Failure(InsufficientBalance(account.balance, amount)))
    else if account.stakedBalance + amount > U64_MAX then
      Outcome(m, Failure(StakeOverflow))
    else
      Outcome(Save(m, account.(balance := account.balance - amount,
                               stakedBalance := account.stakedBalance + amount).UpdateValidatorTier()),
              Success(Unit))
  }

  function UnlockStake(m: Accounts, address: string, amount: u64): Outcome<Unit> {
    var account := GetOrCreate(m, address);
    if account.stakedBalance < amount then
      Outcome(m, Failure(InsufficientStake(account.stakedBalance, amount)))
    else if account.balance + amount > U64_MAX then
      Outcome(m, Failure(BalanceOverflow))
    else
      Outcome(Save(m, account.(stakedBalance := account.stakedBalance - amount,
                               balance := account.balance + amount).UpdateValidatorTier()),
              Success(Unit))
  }

  /** A tenth of the fee goes to the treasury at once. */
  function FeeSplit(m: Accounts, fee: u64): Outcome<Unit> {
    CreditIfAny(m, TREASURY_ADDRESS, fee / 10)
  }

  /** The sender's account after the transaction has been charged to it, or the refusal. */
  function Charge(s: Account, tx: Transaction): Result<Account, LedgerError> {
    var bumped := s.(nonce := Wrap64(s.nonce + 1));
    match tx.transactionType
    case Transfer =>
      if tx.amount + tx.fee > U64_MAX then Failure(CostOverflow)
      else if s.balance < tx.amount + tx.fee then
        Failure(InsufficientBalance(s.balance, tx.amount + tx.fee))
      else if s.nonce != tx.nonce then Failure(NonceMismatch(s.nonce, tx.nonce))
      else Success(bumped.(balance := s.balance - (tx.amount + tx.fee)))
    case StakeLock =>
      if tx.amount + tx.fee > U64_MAX then Failure(CostOverflow)
      else if s.balance < tx.amount + tx.fee then
        Failure(InsufficientBalance(s.balance, tx.amount + tx.fee))
      else if s.nonce != tx.nonce then Failure(NonceMismatch(s.nonce, tx.nonce))
      else if s.stakedBalance + tx.amount > U64_MAX then Failure(StakeOverflow)
      else Success(bumped.(balance := s.balance - (tx.amount + tx.fee),
                           stakedBalance := s.stakedBalance + tx.amount).UpdateValidatorTier())
    case StakeUnlock =>
      if s.stakedBalance < tx.amount then
        Failure(InsufficientStake(s.stakedBalance, tx.amount))
      else if s.balance < tx.fee then Failure(InsufficientBalance(s.balance, tx.fee))
      else if s.nonce != tx.nonce then Failure(NonceMismatch(s.nonce, tx.nonce))
      else if s.balance + tx.amount > U64_MAX then Failure(BalanceOverflow)
      else Success(bumped.(stakedBalance := s.stakedBalance - tx.amount,
                           balance := s.balance + tx.amount - tx.fee).UpdateValidatorTier())
    case _ =>
      if s.balance < tx.fee then Failure(InsufficientBalance(s.balance, tx.fee))
      else if s.nonce != tx.nonce then Failure(NonceMismatch(s.nonce, tx.nonce))
      else Success(bumped.(balance := s.balance - tx.fee))
  }

  /** What a transfer sends; other transactions send nothing to a receiver. */
  function Sent(tx: Transaction): u64 {
    if tx.transactionType == Transfer then tx.amount else 0
  }

  function PayReceiver(m: Accounts, tx: Transaction): Outcome<Unit> {
    if tx.transactionType == Transfer then Credit(m, tx.receiver, tx.amount) else Outcome(m, Success(Unit))
  }

  function Settle(m: Accounts, tx: Transaction): Outcome<Unit> {
    var paid := PayReceiver(m, tx);
    if paid.result.Failure? then paid else FeeSplit(paid.accounts, tx.fee)
  }

  /** `apply_transaction`: charge the sender and save it, then re-read and credit the receiver
      of a transfer, then split the fee. The order matters when addresses coincide. */
  function Apply(m: Accounts, tx: Transaction): Outcome<Unit> {
    match Charge(GetOrCreate(m, tx.sender), tx)
    case Failure(e) => Outcome(m, Failure(e))
    case Success(sender) => Settle(Save(m, sender), tx)
  }

  /** The balance the admission checks demand, with a saturating sum. */
  function Required(tx: Transaction): u64 {
    match tx.transactionType
    case Transfer => SatAdd(tx.amount, tx.fee)
    case StakeLock => SatAdd(tx.amount, tx.fee)
    case _ => tx.fee
  }

  /* ---------- Value held by the map ---------- */

  function Worth(a: Account): nat {
    a.balance + a.stakedBalance
  }

  ghost function Total(m: Accounts): nat {
    Sum(m, Worth)
  }

  function BalanceOf(m: Accounts, a: string): u64 {
    GetOrCreate(m, a).balance
  }

  function StakeOf(m: Accounts, a: string): u64 {
    GetOrCreate(m, a).stakedBalance
  }

  function NonceOf(m: Accounts, a: string): u64 {
    GetOrCreate(m, a).nonce
  }

  lemma SaveTotal(m: Accounts, account: Account)
    ensures Total(Save(m, account)) == Total(m) - Worth(GetOrCreate(m, account.address)) + Worth(account)
  {
    SumUpdate(m, Worth, account.address, account);
  }

  lemma WorthBound(m: Accounts, a: string)
    ensures BalanceOf(m, a) + StakeOf(m, a) <= Total(m)
  {
    if a in m {
      SumBounds(m, Worth, a);
    }
  }

  lemma CreditTotal(m: Accounts, a: string, amount: u64)
    requires Keyed(m)
    requires Total(m) + amount <= U64_MAX
    ensures var o := Credit(m, a, amount);
      o.result.Success? && Keyed(o.accounts) && Total(o.accounts) == Total(m) + amount
  {
    WorthBound(m, a);
    SaveTotal(m, GetOrCreate(m, a).(balance := BalanceOf(m, a) + amount));
  }

  /** Balance and stake changed by the given amounts, the tier was or was not worked out again, and
      nothing else about the account changed. */
  ghost predicate Shifted(before: Account, after: Account, balance: int, stake: int, retiered: bool) {
    && after.balance == before.balance + balance && after.stakedBalance == before.stakedBalance + stake
    && after.validatorTier == (if retiered then ValidatorTier.FromStakedBalance(after.stakedBalance) else before.validatorTier)
    && after == before.(balance := after.balance, stakedBalance := after.stakedBalance, validatorTier := after.validatorTier)
  }

  /** `amount` moved from the balance of `a` to its stake, backwards if negative; nothing else changed. */
  ghost predicate StakeShifted(m: Accounts, m': Accounts, a: string, amount: int) {
    && m'.Keys == m.Keys + {a}
    && Shifted(GetOrCreate(m, a), GetOrCreate(m', a), -amount, amount, true)
    && forall b :: b != a ==> GetOrCreate(m', b) == GetOrCreate(m, b)
  }

  /** Locking stake either fails, for lack of balance or because the stake would overflow, and changes
      nothing, or moves the amount inside one account, whose tier follows. Under the supply bound it
      fails for lack of balance only. */
  lemma LockConserves(m: Accounts, a: string, amount: u64)
    requires Keyed(m)
    ensures var o := LockStake(m, a, amount);
      && Keyed(o.accounts) && Total(o.accounts) == Total(m)
      && (o.result.Success? <==> amount <= BalanceOf(m, a) && StakeOf(m, a) + amount <= U64_MAX)
      && (Total(m) <= U64_MAX ==> (o.result.Success? <==> amount <= BalanceOf(m, a)))
      && (o.result.Failure? ==> o.accounts == m)
      && (o.result.Failure? ==>
            o.result.error == if BalanceOf(m, a) < amount then InsufficientBalance(BalanceOf(m, a), amount) else StakeOverflow)
      && (o.result.Success? ==> StakeShifted(m, o.accounts, a, amount))
  {
    WorthBound(m, a);
    var s := GetOrCreate(m, a);
    if amount <= s.balance && s.stakedBalance + amount <= U64_MAX {
      SaveTotal(m, s.(balance := s.balance - amount, stakedBalance := s.stakedBalance + amount).UpdateValidatorTier());
    }
  }

  lemma UnlockConserves(m: Accounts, a: string, amount: u64)
    requires Keyed(m)
    ensures var o := UnlockStake(m, a, amount);
      && Keyed(o.accounts) && Total(o.accounts) == Total(m)
      && (o.result.Success? <==> amount <= StakeOf(m, a) && BalanceOf(m, a) + amount <= U64_MAX)
      && (Total(m) <= U64_MAX ==> (o.result.Success? <==> amount <= StakeOf(m, a)))
      && (o.result.Failure? ==> o.accounts == m)
      && (o.result.Failure? ==>
            o.result.error == if StakeOf(m, a) < amount then InsufficientStake(StakeOf(m, a), amount) else BalanceOverflow)
      && (o.result.Success? ==> StakeShifted(m, o.accounts, a, -(amount as int)))
  {
    WorthBound(m, a);
    var s := GetOrCreate(m, a);
    if amount <= s.stakedBalance && s.balance + amount <= U64_MAX {
      SaveTotal(m, s.(stakedBalance := s.stakedBalance - amount, balance := s.balance + amount).UpdateValidatorTier());
    }
  }

  /** The balance grew by `amount` and nothing else about the account changed. */
  ghost predicate Raised(before: Account, after: Account, amount: nat) {
    after.balance == before.balance + amount && after == before.(balance := after.balance)
  }

  /** `m'` is `m` with `amount` added to the balance of `a` and nothing else changed. */
  ghost predicate Paid(m: Accounts, m': Accounts, a: string, amount: u64) {
    forall b :: Raised(GetOrCreate(m, b), GetOrCreate(m', b), if a == b then amount else 0)
  }

  /* ---------- What a transaction means, address by address ---------- */

  /** The sender can pay: the whole entry condition of a transaction. */
  predicate Executable(m: Accounts, tx: Transaction) {
    && NonceOf(m, tx.sender) == tx.nonce
    && match tx.transactionType
       case Transfer => tx.amount + tx.fee <= BalanceOf(m, tx.sender)
       case StakeLock => tx.amount + tx.fee <= BalanceOf(m, tx.sender)
       case StakeUnlock => tx.amount <= StakeOf(m, tx.sender) && tx.fee <= BalanceOf(m, tx.sender)
       case _ => tx.fee <= BalanceOf(m, tx.sender)
  }

  /** What the sender's balance loses; negative for an unlock that returns more than the fee. */
  function Outlay(tx: Transaction): int {
    match tx.transactionType
    case Transfer => tx.amount + tx.fee
    case StakeLock => tx.amount + tx.fee
    case StakeUnlock => tx.fee - tx.amount
    case _ => tx.fee
  }

  function StakeChange(tx: Transaction): int {
    match tx.transactionType
    case StakeLock => tx.amount
    case StakeUnlock => 0 - tx.amount
    case _ => 0
  }

  function BalanceChange(tx: Transaction, a: string): int {
    (if a == tx.sender then -Outlay(tx) else 0)
    + (if a == tx.receiver then Sent(tx) else 0)
    + (if a == TREASURY_ADDRESS then tx.fee / 10 else 0)
  }

  function Credited(tx: Transaction): set<string> {
    (if tx.transactionType == Transfer then {tx.receiver} else {})
    + (if tx.fee / 10 > 0 then {TREASURY_ADDRESS} else {})
  }

  function Touched(tx: Transaction): set<string> {
    {tx.sender} + Credited(tx)
  }

  /** The account `a` after an executed transaction. */
  ghost predicate ExecutedAt(m: Accounts, tx: Transaction, a: string, after: Account) {
    var before := GetOrCreate(m, a);
    && after.balance == before.balance + BalanceChange(tx, a)
    && after.stakedBalance == before.stakedBalance + (if a == tx.sender then StakeChange(tx) else 0)
    && after.nonce == (if a == tx.sender then Wrap64(before.nonce + 1) else before.nonce)
    && after.validatorTier ==
         (if a == tx.sender && (tx.transactionType == StakeLock || tx.transactionType == StakeUnlock)
          then ValidatorTier.FromStakedBalance(after.stakedBalance) else before.validatorTier)
    && after.address == a
    && after.isContract == before.isContract
    && after.lastRewardEpoch == before.lastRewardEpoch
  }

  /** The state after an executed transaction, described address by address and without regard
      to the order of the writes, so coinciding addresses need no special case. */
  ghost predicate Executed(m: Accounts, tx: Transaction, m': Accounts) {
    && m'.Keys == m.Keys + Touched(tx)
    && forall a :: a in m' ==> ExecutedAt(m, tx, a, m'[a])
  }

  /** The account that was charged, field by field. */
  lemma ChargedFields(s: Account, tx: Transaction)
    requires Charge(s, tx).Success?
    ensures var c := Charge(s, tx).value;
      && c.balance == s.balance - Outlay(tx)
      && c.stakedBalance == s.stakedBalance + StakeChange(tx)
      && c.validatorTier == (if tx.transactionType == StakeLock || tx.transactionType == StakeUnlock
                             then ValidatorTier.FromStakedBalance(c.stakedBalance) else s.validatorTier)
      && c == s.(balance := c.balance, stakedBalance := c.stakedBalance,
                 validatorTier := c.validatorTier, nonce := Wrap64(s.nonce + 1))
  {
  }

  lemma ChargeSucceeds(s: Account, tx: Transaction)
    requires s.balance + s.stakedBalance <= U64_MAX
    ensures Charge(s, tx).Success? <==> Executable(map[tx.sender := s], tx)
  {
  }

  lemma ChargeMeaning(m: Accounts, tx: Transaction)
    requires Keyed(m) && Total(m) <= U64_MAX
    ensures Charge(GetOrCreate(m, tx.sender), tx).Success? <==> Executable(m, tx)
    ensures Executable(m, tx) ==>
      var s := Charge(GetOrCreate(m, tx.sender), tx).value;
      && s.address == tx.sender && Keyed(Save(m, s))
      && Total(Save(m, s)) == Total(m) - Outlay(tx) + StakeChange(tx)
  {
    WorthBound(m, tx.sender);
    var s := GetOrCreate(m, tx.sender);
    ChargeSucceeds(s, tx);
    assert Executable(m, tx) <==> Executable(map[tx.sender := s], tx);
    if Charge(s, tx).Success? {
      ChargedFields(s, tx);
      SaveTotal(m, Charge(s, tx).value);
    }
  }

  /** A credit within the supply bound succeeds and adds to one balance. */
  lemma CreditMeaning(m: Accounts, a: string, amount: u64)
    requires Keyed(m) && Total(m) + amount <= U64_MAX
    ensures var o := Credit(m, a, amount);
      && o.result.Success? && Keyed(o.accounts) && Total(o.accounts) == Total(m) + amount
      && o.accounts.Keys == m.Keys + {a} && Paid(m, o.accounts, a, amount)
  {
    CreditTotal(m, a, amount);
  }

  lemma CreditIfAnyMeaning(m: Accounts, a: string, amount: u64)
    requires Keyed(m) && Total(m) + amount <= U64_MAX
    ensures var o := CreditIfAny(m, a, amount);
      && o.result.Success? && Keyed(o.accounts) && Total(o.accounts) == Total(m) + amount
      && o.accounts.Keys == m.Keys + (if amount > 0 then {a} else {})
      && Paid(m, o.accounts, a, amount)
  {
    if amount > 0 {
      CreditMeaning(m, a, amount);
    }
  }

  lemma PayMeaning(m: Accounts, tx: Transaction)
    requires Keyed(m) && Total(m) + Sent(tx) <= U64_MAX
    ensures var o := PayReceiver(m, tx);
      && o.result.Success? && Keyed(o.accounts) && Total(o.accounts) == Total(m) + Sent(tx)
      && o.accounts.Keys == m.Keys + (if tx.transactionType == Transfer then {tx.receiver} else {})
      && Paid(m, o.accounts, tx.receiver, Sent(tx))
  {
    if tx.transactionType == Transfer {
      CreditMeaning(m, tx.receiver, tx.amount);
    }
  }

  /** After the charge everything goes through, and the two credits are all that happens. */
  lemma SettleMeaning(m1: Accounts, tx: Transaction) returns (m2: Accounts, m3: Accounts)
    requires Keyed(m1) && Total(m1) + Sent(tx) + tx.fee / 10 <= U64_MAX
    ensures Settle(m1, tx) == Outcome(m3, Success(Unit))
    ensures Paid(m1, m2, tx.receiver, Sent(tx)) && Paid(m2, m3, TREASURY_ADDRESS, tx.fee / 10)
    ensures Keyed(m3) && m3.Keys == m1.Keys + Credited(tx)
    ensures Total(m3) == Total(m1) + Sent(tx) + tx.fee / 10
  {
    PayMeaning(m1, tx);
    m2 := PayReceiver(m1, tx).accounts;
    CreditIfAnyMeaning(m2, TREASURY_ADDRESS, tx.fee / 10);
    m3 := FeeSplit(m2, tx.fee).accounts;
    assert Settle(m1, tx) == FeeSplit(m2, tx.fee);
  }

  lemma ExecutedAddress(m: Accounts, tx: Transaction, c: Account, x: Account, a: string)
    requires Keyed(m) && Charge(GetOrCreate(m, tx.sender), tx) == Success(c)
    requires var charged := if a == tx.sender then c else GetOrCreate(m, a);
      && x == charged.(balance := x.balance)
      && x.balance == charged.balance
                      + (if a == tx.receiver then Sent(tx) else 0)
                      + (if a == TREASURY_ADDRESS then tx.fee / 10 else 0)
    ensures ExecutedAt(m, tx, a, x)
  {
    ChargedFields(GetOrCreate(m, tx.sender), tx);
  }

  lemma TwicePaid(m1: Accounts, m2: Accounts, m3: Accounts, tx: Transaction, a: string)
    requires Paid(m1, m2, tx.receiver, Sent(tx)) && Paid(m2, m3, TREASURY_ADDRESS, tx.fee / 10)
    ensures var before, after := GetOrCreate(m1, a), GetOrCreate(m3, a);
      && after == before.(balance := after.balance)
      && after.balance == before.balance
                          + (if a == tx.receiver then Sent(tx) else 0)
                          + (if a == TREASURY_ADDRESS then tx.fee / 10 else 0)
  {
    assert Raised(GetOrCreate(m1, a), GetOrCreate(m2, a), if tx.receiver == a then Sent(tx) else 0);
    assert Raised(GetOrCreate(m2, a), GetOrCreate(m3, a), if TREASURY_ADDRESS == a then tx.fee / 10 else 0);
  }

  lemma ExecutedMeaning(m: Accounts, tx: Transaction, c: Account, m1: Accounts, m2: Accounts, m3: Accounts)
    requires Keyed(m) && Charge(GetOrCreate(m, tx.sender), tx) == Success(c)
    requires m1 == Save(m, c) && c.address == tx.sender
    requires Paid(m1, m2, tx.receiver, Sent(tx)) && Paid(m2, m3, TREASURY_ADDRESS, tx.fee / 10)
    requires m3.Keys == m1.Keys + Credited(tx)
    ensures Executed(m, tx, m3)
  {
    forall a | a in m3
      ensures ExecutedAt(m, tx, a, m3[a])
    {
      TwicePaid(m1, m2, m3, tx, a);
      ExecutedAddress(m, tx, c, GetOrCreate(m3, a), a);
    }
  }

  /** Main theorem about one transaction: it succeeds exactly when its sender can pay; a refusal
      changes nothing; a success is the address-by-address effect and removes from the accounts
      exactly the fee less its treasury tenth. */
  lemma TransactionMeaning(m: Accounts, tx: Transaction)
    requires Keyed(m) && Total(m) <= U64_MAX
    ensures var o := Apply(m, tx);
      && (o.result.Success? <==> Executable(m, tx))
      && (o.result.Failure? ==> o.accounts == m)
      && (o.result.Success? ==>
            && Executed(m, tx, o.accounts)
            && Total(o.accounts) == Total(m) - (tx.fee - tx.fee / 10))
      && Keyed(o.accounts)
  {
    ChargeMeaning(m, tx);
    if Executable(m, tx) {
      var c := Charge(GetOrCreate(m, tx.sender), tx).value;
      var m1 := Save(m, c);
      var m2, m3 := SettleMeaning(m1, tx);
      ExecutedMeaning(m, tx, c, m1, m2, m3);
    }
  }

  /** What a transaction needs in its sender's spendable balance. */
  function Cost(tx: Transaction): nat {
    if tx.transactionType == Transfer || tx.transactionType == StakeLock then tx.amount + tx.fee else tx.fee
  }

  /** The admission checks demand the cost, cut off at the largest `u64`. */
  lemma RequiredIsCost(tx: Transaction)
    ensures Required(tx) == if Cost(tx) <= U64_MAX then Cost(tx) else U64_MAX
  {
  }

  /** The reason given for a refusal is true, and names what is there and what is needed: funds are
      looked at before the nonce. */
  ghost predicate TrueReason(m: Accounts, tx: Transaction, e: LedgerError) {
    var a := tx.sender;
    match e
    case CostOverflow => Cost(tx) > U64_MAX
    case InsufficientBalance(has, needs) => has == BalanceOf(m, a) && needs == Cost(tx) && has < needs
    case InsufficientStake(has, needs) =>
      tx.transactionType == StakeUnlock && has == StakeOf(m, a) && needs == tx.amount && has < needs
    case NonceMismatch(expected, got) =>
      expected == NonceOf(m, a) && got == tx.nonce && expected != got && Cost(tx) <= BalanceOf(m, a)
      && (tx.transactionType == StakeUnlock ==> tx.amount <= StakeOf(m, a))
    case _ => false
  }

  lemma RefusalReason(m: Accounts, tx: Transaction)
    requires Keyed(m) && Total(m) <= U64_MAX && Apply(m, tx).result.Failure?
    ensures TrueReason(m, tx, Apply(m, tx).result.error)
  {
    TransactionMeaning(m, tx);
    WorthBound(m, tx.sender);
    ChargeMeaning(m, tx);
  }

  /** An address never seen has nothing and nonce 0: only a first transaction that costs nothing and
      unlocks nothing can come from it. */
  lemma UnknownSender(m: Accounts, tx: Transaction)
    requires tx.sender !in m
    ensures Executable(m, tx) <==> tx.nonce == 0 && Cost(tx) == 0 && (tx.transactionType == StakeUnlock ==> tx.amount == 0)
  {
  }

  /* ---------- Without the supply bound ---------- */

  /** What `a` holds once the sender has been charged. */
  function BalanceAfterCharge(m: Accounts, tx: Transaction, a: string): int {
    BalanceOf(m, a) - if a == tx.sender then Outlay(tx) else 0
  }

  /** A credit that follows the charge would not fit: computable before the call. */
  predicate CreditWouldOverflow(m: Accounts, tx: Transaction) {
    || BalanceAfterCharge(m, tx, tx.receiver) + Sent(tx) > U64_MAX
    || (tx.fee / 10 > 0
        && BalanceAfterCharge(m, tx, TREASURY_ADDRESS)
           + (if tx.receiver == TREASURY_ADDRESS then Sent(tx) else 0) + tx.fee / 10 > U64_MAX)
  }

  lemma CreditOutcome(m: Accounts, to: string, amount: u64)
    requires Keyed(m)
    ensures var o := Credit(m, to, amount);
      && (o.result.Success? <==> BalanceOf(m, to) + amount <= U64_MAX)
      && (o.result.Failure? ==> o.accounts == m)
      && (o.result.Success? ==> forall b :: BalanceOf(o.accounts, b) == BalanceOf(m, b) + if b == to then amount else 0)
      && (forall b :: NonceOf(o.accounts, b) == NonceOf(m, b))
      && Keyed(o.accounts)
  {
  }

  /** What follows the charge fails exactly on one of the two credits. */
  lemma SettleOutcome(m1: Accounts, tx: Transaction)
    requires Keyed(m1)
    ensures
      var o := Settle(m1, tx);
      && (o.result.Failure? <==>
            || BalanceOf(m1, tx.receiver) + Sent(tx) > U64_MAX
            || (tx.fee / 10 > 0
                && BalanceOf(m1, TREASURY_ADDRESS)
                   + (if tx.receiver == TREASURY_ADDRESS then Sent(tx) else 0) + tx.fee / 10 > U64_MAX))
      && (forall b :: NonceOf(o.accounts, b) == NonceOf(m1, b))
      && Keyed(o.accounts)
  {
    CreditOutcome(m1, tx.receiver, tx.amount);
    CreditOutcome(PayReceiver(m1, tx).accounts, TREASURY_ADDRESS, tx.fee / 10);
  }

  lemma ApplyKeepsKeyed(m: Accounts, tx: Transaction)
    requires Keyed(m)
    ensures Keyed(Apply(m, tx).accounts)
  {
    var c := Charge(GetOrCreate(m, tx.sender), tx);
    if c.Success? {
      ChargedFields(GetOrCreate(m, tx.sender), tx);
      SettleOutcome(Save(m, c.value), tx);
    }
  }

  /** A transaction is all-or-nothing except in one case, for every account map whatever it holds:
      it fails after writing exactly when the sender could be charged but a following credit
      overflows. `TransactionMeaning` shows the supply bound rules that case out. */
  lemma PartialWriteExactly(m: Accounts, tx: Transaction)
    requires Keyed(m)
    ensures var o := Apply(m, tx); var charged := Charge(GetOrCreate(m, tx.sender), tx).Success?;
      && (o.result.Failure? && o.accounts != m <==> charged && CreditWouldOverflow(m, tx))
      && (o.result.Success? <==> charged && !CreditWouldOverflow(m, tx))
  {
    var s := GetOrCreate(m, tx.sender);
    var c := Charge(s, tx);
    if c.Success? {
      ChargedFields(s, tx);
      var m1 := Save(m, c.value);
      assert BalanceOf(m1, tx.receiver) == BalanceAfterCharge(m, tx, tx.receiver);
      assert BalanceOf(m1, TREASURY_ADDRESS) == BalanceAfterCharge(m, tx, TREASURY_ADDRESS);
      assert NonceOf(m1, tx.sender) != NonceOf(m, tx.sender);
      SettleOutcome(m1, tx);
    }
  }

  /** The case is real: a transfer to an account that is already full debits its sender, fails,
      and leaves the debit in place. */
  lemma PartialWriteExample(sender: string, receiver: string)
    requires sender != receiver
    ensures
      var m := map[sender := NewAccount(sender).(balance := 1), receiver := NewAccount(receiver).(balance := U64_MAX)];
      var o := Apply(m, Transaction("h", sender, receiver, 1, 0, 0, "s", Transfer));
      && o.result == Failure(BalanceOverflow)
      && BalanceOf(o.accounts, sender) == 0 && BalanceOf(o.accounts, receiver) == U64_MAX
  {
  }
}
