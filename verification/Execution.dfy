/** From the admission checks of a block to its execution. */
module Execution {
  import opened Prelude
  import opened Types
  import opened MapSum
  import opened Ledger
  import opened Rules

  /** Every transaction of the list succeeds when they are applied in order. */
  ghost predicate AllApply(m: Accounts, txs: seq<Transaction>)
    decreases |txs|
  {
    txs == [] || (Apply(m, txs[0]).result.Success? && AllApply(Apply(m, txs[0]).accounts, txs[1..]))
  }

  ghost predicate SendersDistinct(txs: seq<Transaction>) {
    forall i, j :: 0 <= i < j < |txs| ==> txs[i].sender != txs[j].sender
  }

  ghost predicate AllExecutable(m: Accounts, txs: seq<Transaction>) {
    forall i :: 0 <= i < |txs| ==> Executable(m, txs[i])
  }

  /** The stake an unlock takes is there: the one thing the rules do not look at. */
  ghost predicate UnlocksCovered(m: Accounts, txs: seq<Transaction>) {
    forall i :: 0 <= i < |txs| && txs[i].transactionType == StakeUnlock
      ==> txs[i].amount <= StakeOf(m, txs[i].sender)
  }

  /** What an executed transaction does to an account that did not send it. */
  lemma OthersOnlyGain(m: Accounts, tx: Transaction, a: string)
    requires Keyed(m) && Total(m) <= U64_MAX && Executable(m, tx) && a != tx.sender
    ensures var m' := Apply(m, tx).accounts;
      && BalanceOf(m', a) >= BalanceOf(m, a) && StakeOf(m', a) == StakeOf(m, a) && NonceOf(m', a) == NonceOf(m, a)
  {
    TransactionMeaning(m, tx);
    var m' := Apply(m, tx).accounts;
    if a in m' {
      assert ExecutedAt(m, tx, a, m'[a]);
    }
  }

  lemma SenderNonceMoves(m: Accounts, tx: Transaction)
    requires Keyed(m) && Total(m) <= U64_MAX && Executable(m, tx)
    ensures NonceOf(Apply(m, tx).accounts, tx.sender) != tx.nonce
  {
    TransactionMeaning(m, tx);
    var m' := Apply(m, tx).accounts;
    assert tx.sender in m' && ExecutedAt(m, tx, tx.sender, m'[tx.sender]);
  }

  /** Independent executable transactions all go through. */
  lemma {:induction false} ExecutableListApplies(m: Accounts, txs: seq<Transaction>)
    requires Keyed(m) && Total(m) <= U64_MAX && SendersDistinct(txs) && AllExecutable(m, txs)
    ensures AllApply(m, txs)
    decreases |txs|
  {
    if txs != [] {
      TransactionMeaning(m, txs[0]);
      var m' := Apply(m, txs[0]).accounts;
      forall i | 0 <= i < |txs[1..]|
        ensures Executable(m', txs[1..][i])
      {
        assert txs[1..][i] == txs[i + 1] && Executable(m, txs[i + 1]);
        OthersOnlyGain(m, txs[0], txs[i + 1].sender);
      }
      ExecutableListApplies(m', txs[1..]);
    }
  }

  /** An account whose nonce is not the one its transactions carry blocks every one of them. */
  lemma {:induction false} StaleNonceBlocks(m: Accounts, txs: seq<Transaction>, a: string)
    requires Keyed(m) && Total(m) <= U64_MAX && AllApply(m, txs)
    requires forall i :: 0 <= i < |txs| && txs[i].sender == a ==> txs[i].nonce != NonceOf(m, a)
    ensures forall i :: 0 <= i < |txs| ==> txs[i].sender != a
    decreases |txs|
  {
    if txs != [] {
      TransactionMeaning(m, txs[0]);
      OthersOnlyGain(m, txs[0], a);
      var rest := txs[1..];
      assert forall i :: 0 <= i < |rest| ==> rest[i] == txs[i + 1];
      StaleNonceBlocks(Apply(m, txs[0]).accounts, rest, a);
      assert forall i :: 1 <= i < |txs| ==> txs[i] == rest[i - 1];
    }
  }

  /** If a list carrying the current nonce of each sender goes through, no sender repeats and every
      unlock was covered from the start. */
  lemma {:induction false} AppliedListIsIndependent(m: Accounts, txs: seq<Transaction>)
    requires Keyed(m) && Total(m) <= U64_MAX && AllApply(m, txs)
    requires forall i, j :: 0 <= i < j < |txs| && txs[i].sender == txs[j].sender ==> txs[i].nonce == txs[j].nonce
    ensures SendersDistinct(txs) && UnlocksCovered(m, txs)
    decreases |txs|
  {
    if txs != [] {
      var tx, rest := txs[0], txs[1..];
      var m' := Apply(m, tx).accounts;
      TransactionMeaning(m, tx);
      SenderNonceMoves(m, tx);
      assert forall i :: 0 <= i < |rest| ==> rest[i] == txs[i + 1];
      StaleNonceBlocks(m', rest, tx.sender);
      AppliedListIsIndependent(m', rest);
      forall i | 0 <= i < |txs|
        ensures txs[i].transactionType == StakeUnlock ==> txs[i].amount <= StakeOf(m, txs[i].sender)
        ensures i > 0 ==> txs[i].sender != tx.sender
      {
        if i > 0 {
          assert txs[i] == rest[i - 1];
          OthersOnlyGain(m, tx, txs[i].sender);
        }
      }
      assert forall i :: 1 <= i < |txs| ==> txs[i] == rest[i - 1];
    }
  }

  /* ---------- Exactly which lists execute ---------- */

  /** What a list does to the balance, the stake and the nonce of `a`, added up. */
  ghost function BalanceMoved(txs: seq<Transaction>, a: string): int {
    if txs == [] then 0 else BalanceChange(txs[0], a) + BalanceMoved(txs[1..], a)
  }

  ghost function StakeMoved(txs: seq<Transaction>, a: string): int {
    if txs == [] then 0 else (if txs[0].sender == a then StakeChange(txs[0]) else 0) + StakeMoved(txs[1..], a)
  }

  ghost function SentBy(txs: seq<Transaction>, a: string): nat {
    if txs == [] then 0 else (if txs[0].sender == a then 1 else 0) + SentBy(txs[1..], a)
  }

  /** Transaction `i` is covered by the state before the list and the sums of those before it. */
  ghost predicate CoveredAt(m: Accounts, txs: seq<Transaction>, i: nat)
    requires i < |txs|
  {
    var tx, before := txs[i], txs[..i];
    && tx.nonce == Wrap64(NonceOf(m, tx.sender) + SentBy(before, tx.sender))
    && Cost(tx) <= BalanceOf(m, tx.sender) + BalanceMoved(before, tx.sender)
    && (tx.transactionType == StakeUnlock ==> tx.amount <= StakeOf(m, tx.sender) + StakeMoved(before, tx.sender))
  }

  ghost predicate Covered(m: Accounts, txs: seq<Transaction>) {
    forall i :: 0 <= i < |txs| ==> CoveredAt(m, txs, i)
  }

  lemma UntouchedFields(tx: Transaction, a: string)
    requires a !in Touched(tx)
    ensures a != tx.sender && BalanceChange(tx, a) == 0
  {
  }

  /** What an executed transaction does to one account, present or not. */
  ghost predicate Moved(m: Accounts, tx: Transaction, m': Accounts, a: string) {
    && BalanceOf(m', a) == BalanceOf(m, a) + BalanceChange(tx, a)
    && StakeOf(m', a) == StakeOf(m, a) + (if tx.sender == a then StakeChange(tx) else 0)
    && NonceOf(m', a) == (if tx.sender == a then Wrap64(NonceOf(m, a) + 1) else NonceOf(m, a))
  }

  lemma ExecutedMoves(m: Accounts, tx: Transaction, m': Accounts, a: string)
    requires Executed(m, tx, m')
    ensures Moved(m, tx, m', a)
  {
    if a in m' {
      assert ExecutedAt(m, tx, a, m'[a]);
    } else {
      UntouchedFields(tx, a);
    }
  }

  lemma AppliedMoves(m: Accounts, tx: Transaction, a: string)
    requires Keyed(m) && Total(m) <= U64_MAX && Executable(m, tx)
    ensures Moved(m, tx, Apply(m, tx).accounts, a)
  {
    TransactionMeaning(m, tx);
    ExecutedMoves(m, tx, Apply(m, tx).accounts, a);
  }

  /** The sums over the first `i` transactions, with the first one split off. */
  lemma SumsFirst(txs: seq<Transaction>, i: nat, a: string)
    requires 0 < i <= |txs|
    ensures var before, rest, own := txs[..i], txs[1..][..i - 1], txs[0].sender == a;
      && BalanceMoved(before, a) == BalanceChange(txs[0], a) + BalanceMoved(rest, a)
      && StakeMoved(before, a) == (if own then StakeChange(txs[0]) else 0) + StakeMoved(rest, a)
      && SentBy(before, a) == (if own then 1 else 0) + SentBy(rest, a)
  {
    assert txs[..i][1..] == txs[1..][..i - 1];
  }

  lemma NextNonce(m: Accounts, txs: seq<Transaction>, i: nat, m': Accounts, a: string)
    requires 0 < i <= |txs| && Moved(m, txs[0], m', a)
    ensures Wrap64(NonceOf(m, a) + SentBy(txs[..i], a)) == Wrap64(NonceOf(m', a) + SentBy(txs[1..][..i - 1], a))
  {
    SumsFirst(txs, i, a);
    if txs[0].sender == a {
      WrapAdd(NonceOf(m, a) + 1, SentBy(txs[1..][..i - 1], a));
    }
  }

  /** Being covered does not depend on whether the first transaction is counted or already applied. */
  lemma CoveredAfterFirst(m: Accounts, txs: seq<Transaction>, i: nat, m': Accounts)
    requires 0 < i < |txs| && Moved(m, txs[0], m', txs[i].sender)
    ensures CoveredAt(m, txs, i) <==> CoveredAt(m', txs[1..], i - 1)
  {
    assert txs[1..][i - 1] == txs[i];
    NextNonce(m, txs, i, m', txs[i].sender);
    SumsFirst(txs, i, txs[i].sender);
  }

  lemma CoveredRest(m: Accounts, txs: seq<Transaction>, m': Accounts)
    requires txs != [] && CoveredAt(m, txs, 0)
    requires forall i :: 0 < i < |txs| ==> (CoveredAt(m, txs, i) <==> CoveredAt(m', txs[1..], i - 1))
    ensures Covered(m, txs) <==> Covered(m', txs[1..])
  {
    if Covered(m, txs) {
      forall i | 0 <= i < |txs[1..]|
        ensures CoveredAt(m', txs[1..], i)
      {
        assert CoveredAt(m, txs, i + 1);
      }
    }
  }

  /** For every list, repeated and unknown senders included: it executes in order without an error
      exactly when each transaction carries the next nonce of its sender and its cost and the stake
      it unlocks are covered by what the sender held and the sum of all earlier changes to it. */
  lemma {:induction false} ListExecutesExactly(m: Accounts, txs: seq<Transaction>)
    requires Keyed(m) && Total(m) <= U64_MAX
    ensures AllApply(m, txs) <==> Covered(m, txs)
    decreases |txs|
  {
    if txs != [] {
      TransactionMeaning(m, txs[0]);
      FirstCovered(m, txs);
      if Executable(m, txs[0]) {
        var m', rest := Apply(m, txs[0]).accounts, txs[1..];
        ListExecutesExactly(m', rest);
        forall i | 0 < i < |txs|
          ensures CoveredAt(m, txs, i) <==> CoveredAt(m', rest, i - 1)
        {
          AppliedMoves(m, txs[0], txs[i].sender);
          CoveredAfterFirst(m, txs, i, m');
        }
        CoveredRest(m, txs, m');
      }
    }
  }

  lemma FirstCovered(m: Accounts, txs: seq<Transaction>)
    requires txs != []
    ensures CoveredAt(m, txs, 0) <==> Executable(m, txs[0])
  {
    assert txs[..0] == [];
  }

  /* ---------- Lists the rules accept ---------- */

  lemma AdmissibleSender(m: Accounts, txs: seq<Transaction>, i: nat)
    requires Admissible(txs, m) && i < |txs| && txs[i].sender in m && txs[i].sender != COINBASE_SENDER
    requires Total(m) < U64_MAX
    ensures txs[i].nonce == NonceOf(m, txs[i].sender) && Cost(txs[i]) <= BalanceOf(m, txs[i].sender)
  {
    assert Affordable(txs[i], m);
    WorthBound(m, txs[i].sender);
  }

  /** The rules did not look at the balance and the nonce of this sender. */
  predicate Unchecked(m: Accounts, tx: Transaction) {
    tx.sender !in m || tx.sender == COINBASE_SENDER
  }

  /** A list the rules accept without having looked at every sender still has to cover those. */
  ghost predicate UncheckedCovered(m: Accounts, txs: seq<Transaction>) {
    forall i :: 0 <= i < |txs| && Unchecked(m, txs[i]) ==>
      && txs[i].nonce == NonceOf(m, txs[i].sender)
      && Cost(txs[i]) <= BalanceOf(m, txs[i].sender) + BalanceMoved(txs[..i], txs[i].sender)
  }

  lemma {:induction false} OthersMove(txs: seq<Transaction>, a: string)
    requires forall i :: 0 <= i < |txs| ==> txs[i].sender != a
    ensures BalanceMoved(txs, a) >= 0 && StakeMoved(txs, a) == 0 && SentBy(txs, a) == 0
  {
    if txs != [] {
      OthersMove(txs[1..], a);
    }
  }

  /** Among distinct senders nothing but incoming payments precedes a transaction. */
  lemma DistinctCoveredAt(m: Accounts, txs: seq<Transaction>, i: nat)
    requires SendersDistinct(txs) && i < |txs|
    ensures BalanceMoved(txs[..i], txs[i].sender) >= 0
    ensures var tx := txs[i];
      CoveredAt(m, txs, i) <==>
        && tx.nonce == NonceOf(m, tx.sender)
        && Cost(tx) <= BalanceOf(m, tx.sender) + BalanceMoved(txs[..i], tx.sender)
        && (tx.transactionType == StakeUnlock ==> tx.amount <= StakeOf(m, tx.sender))
  {
    OthersMove(txs[..i], txs[i].sender);
  }

  /** An accepted list of distinct senders executes exactly when its unlocks are covered and so are
      the senders the rules skipped: unknown ones and coinbases. */
  lemma AcceptedExecutes(m: Accounts, txs: seq<Transaction>)
    requires Keyed(m) && Total(m) < U64_MAX
    requires CheckFrom(txs, {}, m).Success? && SendersDistinct(txs)
    ensures AllApply(m, txs) <==> UnlocksCovered(m, txs) && UncheckedCovered(m, txs)
  {
    ListExecutesExactly(m, txs);
    ChecksAdmissible(txs, m);
    forall i | 0 <= i < |txs|
      ensures CoveredAt(m, txs, i) <==>
        && (txs[i].transactionType == StakeUnlock ==> txs[i].amount <= StakeOf(m, txs[i].sender))
        && (Unchecked(m, txs[i]) ==>
              && txs[i].nonce == NonceOf(m, txs[i].sender)
              && Cost(txs[i]) <= BalanceOf(m, txs[i].sender) + BalanceMoved(txs[..i], txs[i].sender))
    {
      DistinctCoveredAt(m, txs, i);
      if !Unchecked(m, txs[i]) {
        AdmissibleSender(m, txs, i);
      }
    }
  }

  /** Validated implies executable, and exactly when: an accepted list executes in order without an
      error, if its senders are distinct, exactly when its unlocks and its unchecked senders are
      covered; if every sender was checked, exactly when no sender repeats and unlocks are covered. */
  lemma ValidatedExecutes(m: Accounts, txs: seq<Transaction>)
    requires Keyed(m) && Total(m) < U64_MAX
    requires CheckFrom(txs, {}, m).Success?
    ensures SendersDistinct(txs) ==> (AllApply(m, txs) <==> UnlocksCovered(m, txs) && UncheckedCovered(m, txs))
    ensures (forall i :: 0 <= i < |txs| ==> !Unchecked(m, txs[i])) ==>
      (AllApply(m, txs) <==> SendersDistinct(txs) && UnlocksCovered(m, txs))
  {
    if SendersDistinct(txs) {
      AcceptedExecutes(m, txs);
    } else if AllApply(m, txs) && forall i :: 0 <= i < |txs| ==> !Unchecked(m, txs[i]) {
      ChecksAdmissible(txs, m);
      forall i | 0 <= i < |txs|
        ensures txs[i].nonce == NonceOf(m, txs[i].sender)
      {
        AdmissibleSender(m, txs, i);
      }
      AppliedListIsIndependent(m, txs);
    }
  }

  /** The rules skip unknown senders: on an empty ledger a transfer of one unit passes, and fails. */
  lemma UnknownSenderAccepted(hash: string, sender: string, receiver: string)
    requires sender != COINBASE_SENDER
    ensures var txs := [Transaction(hash, sender, receiver, 1, 0, 0, "s", Transfer)];
      CheckFrom(txs, {}, map[]).Success? && SendersDistinct(txs) && UnlocksCovered(map[], txs) && !AllApply(map[], txs)
  {
    var tx := Transaction(hash, sender, receiver, 1, 0, 0, "s", Transfer);
    assert [tx][1..] == [];
    assert !Apply(map[], tx).result.Success?;
  }

  /** They skip coinbases: one whose sender holds nothing passes, and fails as a transaction. */
  lemma CoinbaseAccepted(hash: string, receiver: string, nonce: u64)
    ensures var txs := [Transaction(hash, COINBASE_SENDER, receiver, 1, 0, nonce, "coinbase", Transfer)];
      CheckFrom(txs, {}, map[]).Success? && SendersDistinct(txs) && UnlocksCovered(map[], txs) && !AllApply(map[], txs)
  {
    var tx := Transaction(hash, COINBASE_SENDER, receiver, 1, 0, nonce, "coinbase", Transfer);
    assert [tx][1..] == [];
    assert !Apply(map[], tx).result.Success?;
  }

  /** They do not look at stake: an unlock of one unit from a zero account passes, and fails. */
  lemma UncoveredUnlockAccepted(hash: string, sender: string, receiver: string)
    requires sender != COINBASE_SENDER
    ensures var m := map[sender := NewAccount(sender)];
      var txs := [Transaction(hash, sender, receiver, 1, 0, 0, "s", StakeUnlock)];
      CheckFrom(txs, {}, m).Success? && SendersDistinct(txs) && UncheckedCovered(m, txs) && !AllApply(m, txs)
  {
    var m, tx := map[sender := NewAccount(sender)], Transaction(hash, sender, receiver, 1, 0, 0, "s", StakeUnlock);
    assert [tx][1..] == [];
    assert !Apply(m, tx).result.Success?;
  }

  /** They check every transaction against one state: two with the same nonce and different hashes
      pass, and the second fails. */
  lemma RepeatedSenderAccepted(sender: string, receiver: string)
    requires sender != COINBASE_SENDER
    ensures var m := map[sender := NewAccount(sender)];
      var txs := [Transaction("g", sender, receiver, 0, 0, 0, "s", Transfer),
                  Transaction("h", sender, receiver, 0, 0, 0, "s", Transfer)];
      CheckFrom(txs, {}, m).Success? && UnlocksCovered(m, txs) && UncheckedCovered(m, txs) && !AllApply(m, txs)
  {
    var m := map[sender := NewAccount(sender)];
    var first := Transaction("g", sender, receiver, 0, 0, 0, "s", Transfer);
    var second := first.(hash := "h");
    assert [first, second][1..] == [second] && [second][1..] == [];
    ChecksAdmissible([first, second], m);
    SumRemove(m, Worth, sender);
    assert m - {sender} == map[];
    SenderNonceMoves(m, first);
  }
}
