/** The unbonding timelock: pending withdrawals and their release. */
module Staking {
  import opened Prelude
  import opened MapSum
  import opened Order
  import opened Keys
  import opened Ledger

  const UNBONDING_PERIOD_EPOCHS: u64 := 10

  datatype PendingUnstake = PendingUnstake(address: string, amount: u64, requestEpoch: u64, unlockEpoch: u64) {
    function Key(): string {
      UnstakeKey(unlockEpoch, address, requestEpoch)
    }
  }

  type Pending = map<string, PendingUnstake>

  datatype StakingOutcome<+T> = StakingOutcome(accounts: Accounts, pending: Pending, result: Result<T, LedgerError>)

  lemma SameKey(u: PendingUnstake, v: PendingUnstake)
    requires u.Key() == v.Key()
    ensures u == v.(amount := u.amount)
  {
    UnstakeKeyInjective(u.unlockEpoch, u.address, u.requestEpoch, v.unlockEpoch, v.address, v.requestEpoch);
  }

  /** Every withdrawal is stored under its own key. */
  ghost predicate PendingKeyed(p: Pending) {
    forall k :: k in p ==> k == p[k].Key()
  }

  function Amount(u: PendingUnstake): nat {
    u.amount
  }

  /** The amounts owed to one address. */
  function AmountFor(a: string): PendingUnstake -> nat {
    (u: PendingUnstake) => if u.address == a then u.amount else 0
  }

  ghost function PendingFor(p: Pending, a: string): nat {
    Sum(p, AmountFor(a))
  }

  ghost function PendingTotal(p: Pending): nat {
    Sum(p, Amount)
  }

  function NewUnstake(address: string, amount: u64, epoch: u64): PendingUnstake {
    PendingUnstake(address, amount, epoch, Wrap64(epoch + UNBONDING_PERIOD_EPOCHS))
  }

  function RequestUnstake(m: Accounts, p: Pending, address: string, amount: u64, epoch: u64)
    : StakingOutcome<PendingUnstake>
  {
    if address !in m then StakingOutcome(m, p, Failure(NoAccount))
    else if m[address].stakedBalance < amount then
      StakingOutcome(m, p, Failure(InsufficientStake(m[address].stakedBalance, amount)))
    else
      var account := m[address].(stakedBalance := m[address].stakedBalance - amount).UpdateValidatorTier();
      var u := NewUnstake(address, amount, epoch);
      StakingOutcome(Save(m, account), p[u.Key() := u], Success(u))
  }

  /** The scan of `process_matured_unstakes` over the given keys. */
  function Release(m: Accounts, p: Pending, keys: seq<string>, epoch: u64, total: u64): Outcome<u64>
    requires forall k :: k in keys ==> k in p
    decreases |keys|
  {
    if keys == [] then Outcome(m, Success(total))
    else
      var u := p[keys[0]];
      if u.unlockEpoch <= epoch then
        var o := Credit(m, u.address, u.amount);
        if o.result.Failure? then Outcome(o.accounts, Failure(o.result.error))
        else Release(o.accounts, p, keys[1..], epoch, SatAdd(total, u.amount))
      else
        Release(m, p, keys[1..], epoch, total)
  }

  /** The listed keys whose entries have matured. */
  function MaturedAmong(p: Pending, keys: seq<string>, epoch: u64): set<string>
    requires forall k :: k in keys ==> k in p
  {
    set k | k in keys && p[k].unlockEpoch <= epoch
  }

  function MaturedKeys(p: Pending, epoch: u64): set<string> {
    set k | k in p && p[k].unlockEpoch <= epoch
  }

  function ReleaseMatured(m: Accounts, p: Pending, epoch: u64): StakingOutcome<u64> {
    var o := Release(m, p, Sorted(p.Keys), epoch, 0);
    StakingOutcome(o.accounts, if o.result.Success? then p - MaturedKeys(p, epoch) else p, o.result)
  }

  /* ---------- Requests ---------- */

  /** A request moves stake into the pending pool. Value is kept exactly when it does not replace
      a non-empty entry: a second request by one address in one epoch has the same key. */
  lemma RequestMeaning(m: Accounts, p: Pending, address: string, amount: u64, epoch: u64)
    requires Keyed(m) && PendingKeyed(p)
    ensures var o := RequestUnstake(m, p, address, amount, epoch);
      var key := NewUnstake(address, amount, epoch).Key();
      var replaced := if key in p then p[key].amount else 0;
      && Keyed(o.accounts) && PendingKeyed(o.pending)
      && (o.result.Success? <==> address in m && amount <= m[address].stakedBalance)
      && (o.result.Failure? ==> o.accounts == m && o.pending == p)
      && (o.result.Success? ==>
            && StakeOf(o.accounts, address) == StakeOf(m, address) - amount
            && BalanceOf(o.accounts, address) == BalanceOf(m, address)
            && Total(o.accounts) == Total(m) - amount
            && PendingTotal(o.pending) == PendingTotal(p) + amount - replaced)
  {
    if address in m && amount <= m[address].stakedBalance {
      var account := m[address].(stakedBalance := m[address].stakedBalance - amount).UpdateValidatorTier();
      var u := NewUnstake(address, amount, epoch);
      SaveTotal(m, account);
      SumUpdate(p, Amount, u.Key(), u);
    }
  }

  /** All a request does: the reason of a refusal, or one account with less stake and its tier worked
      out again, and one entry, written and returned, that unlocks ten epochs on. */
  lemma RequestExactly(m: Accounts, p: Pending, address: string, amount: u64, epoch: u64)
    requires Keyed(m)
    ensures var o := RequestUnstake(m, p, address, amount, epoch);
      && (o.result.Failure? ==>
            o.result.error == if address in m then InsufficientStake(StakeOf(m, address), amount) else NoAccount)
      && (o.result.Success? ==>
            && o.result.value == PendingUnstake(address, amount, epoch, (epoch + 10) % TWO_64)
            && o.pending == p[o.result.value.Key() := o.result.value] && o.accounts.Keys == m.Keys && address in m
            && Shifted(m[address], o.accounts[address], 0, -(amount as int), true)
            && (forall b :: b in m && b != address ==> o.accounts[b] == m[b]))
  {
  }

  /** Two requests in one epoch leave the second amount only: the first leaves the books. */
  lemma SecondRequestReplaces(m: Accounts, p: Pending, a: string, first: u64, second: u64, epoch: u64)
    requires Keyed(m) && PendingKeyed(p) && a in m && first + second <= m[a].stakedBalance
    ensures var o1 := RequestUnstake(m, p, a, first, epoch);
      var o2 := RequestUnstake(o1.accounts, o1.pending, a, second, epoch);
      var key := NewUnstake(a, first, epoch).Key();
      && o1.result.Success? && o2.result.Success?
      && key in o2.pending && o2.pending[key].amount == second
      && Total(o2.accounts) + PendingTotal(o2.pending) == Total(o1.accounts) + PendingTotal(o1.pending) - first
  {
    RequestMeaning(m, p, a, first, epoch);
    var o1 := RequestUnstake(m, p, a, first, epoch);
    RequestMeaning(o1.accounts, o1.pending, a, second, epoch);
  }

  /** Owner by owner: the request of `address` changes what is owed to it and to nobody else. */
  lemma RequestOwed(m: Accounts, p: Pending, address: string, amount: u64, epoch: u64, a: string)
    requires PendingKeyed(p)
    ensures var o := RequestUnstake(m, p, address, amount, epoch);
      var key := NewUnstake(address, amount, epoch).Key();
      var replaced := if key in p then p[key].amount else 0;
      PendingFor(o.pending, a) == PendingFor(p, a) + if o.result.Success? && a == address then amount - replaced else 0
  {
    var u := NewUnstake(address, amount, epoch);
    SumUpdate(p, AmountFor(a), u.Key(), u);
    if u.Key() in p {
      SameKey(u, p[u.Key()]);
    }
  }

  /* ---------- Releases ---------- */

  /** The matured part of a weight over the listed keys. */
  ghost function MaturedWeight(p: Pending, keys: seq<string>, epoch: u64, f: PendingUnstake -> nat): nat
    requires forall k :: k in keys ==> k in p
  {
    if keys == [] then 0
    else (if p[keys[0]].unlockEpoch <= epoch then f(p[keys[0]]) else 0) + MaturedWeight(p, keys[1..], epoch, f)
  }

  ghost function MaturedSum(p: Pending, keys: seq<string>, epoch: u64): nat
    requires forall k :: k in keys ==> k in p
  {
    MaturedWeight(p, keys, epoch, Amount)
  }

  ghost function MaturedFor(p: Pending, keys: seq<string>, epoch: u64, a: string): nat
    requires forall k :: k in keys ==> k in p
  {
    MaturedWeight(p, keys, epoch, AmountFor(a))
  }

  /** Every address received its matured amounts and nothing else changed. */
  ghost predicate MaturedPaid(m: Accounts, m': Accounts, p: Pending, keys: seq<string>, epoch: u64)
    requires forall k :: k in keys ==> k in p
  {
    forall a :: Raised(GetOrCreate(m, a), GetOrCreate(m', a), MaturedFor(p, keys, epoch, a))
  }

  /** One step of the scan, inside a longer one. */
  lemma ReleaseNext(m: Accounts, p: Pending, keys: seq<string>, i: nat, epoch: u64, total: u64)
    requires i < |keys| && forall k :: k in keys ==> k in p
    ensures var u := p[keys[i]]; var o := Credit(m, u.address, u.amount);
      Release(m, p, keys[i..], epoch, total)
        == (if u.unlockEpoch > epoch then Release(m, p, keys[i + 1..], epoch, total)
            else if o.result.Failure? then Outcome(o.accounts, Failure(o.result.error))
            else Release(o.accounts, p, keys[i + 1..], epoch, SatAdd(total, u.amount)))
  {
    assert keys[i..][1..] == keys[i + 1..];
  }

  /** The keys collected so far are the matured ones among the first `i`. */
  ghost predicate Collected(p: Pending, keys: seq<string>, i: nat, epoch: u64, collected: seq<string>)
    requires i <= |keys| && forall k :: k in keys ==> k in p
  {
    forall k :: k in collected <==> k in keys[..i] && p[k].unlockEpoch <= epoch
  }

  lemma CollectedNext(p: Pending, keys: seq<string>, i: nat, epoch: u64, collected: seq<string>)
    requires i < |keys| && (forall k :: k in keys ==> k in p) && Collected(p, keys, i, epoch, collected)
    ensures Collected(p, keys, i + 1, epoch, if p[keys[i]].unlockEpoch <= epoch then collected + [keys[i]] else collected)
  {
    assert keys[..i + 1] == keys[..i] + [keys[i]];
  }

  lemma CollectedAll(p: Pending, epoch: u64, collected: seq<string>)
    requires Collected(p, Sorted(p.Keys), |Sorted(p.Keys)|, epoch, collected)
    ensures (set k | k in collected) == MaturedKeys(p, epoch)
  {
    var keys := Sorted(p.Keys);
    assert keys[..|keys|] == keys;
  }

  lemma MaturedPaidFirst(m: Accounts, m1: Accounts, m2: Accounts, p: Pending, keys: seq<string>, epoch: u64)
    requires keys != [] && (forall k :: k in keys ==> k in p) && p[keys[0]].unlockEpoch <= epoch
    requires Paid(m, m1, p[keys[0]].address, p[keys[0]].amount) && MaturedPaid(m1, m2, p, keys[1..], epoch)
    ensures MaturedPaid(m, m2, p, keys, epoch)
  {
    forall a
      ensures Raised(GetOrCreate(m, a), GetOrCreate(m2, a), MaturedFor(p, keys, epoch, a))
    {
      assert Raised(GetOrCreate(m, a), GetOrCreate(m1, a), if p[keys[0]].address == a then p[keys[0]].amount else 0);
      assert Raised(GetOrCreate(m1, a), GetOrCreate(m2, a), MaturedFor(p, keys[1..], epoch, a));
    }
  }

  lemma MaturedPaidSkip(m: Accounts, m': Accounts, p: Pending, keys: seq<string>, epoch: u64)
    requires keys != [] && (forall k :: k in keys ==> k in p) && p[keys[0]].unlockEpoch > epoch
    requires MaturedPaid(m, m', p, keys[1..], epoch)
    ensures MaturedPaid(m, m', p, keys, epoch)
  {
    forall a
      ensures Raised(GetOrCreate(m, a), GetOrCreate(m', a), MaturedFor(p, keys, epoch, a))
    {
      assert Raised(GetOrCreate(m, a), GetOrCreate(m', a), MaturedFor(p, keys[1..], epoch, a));
    }
  }

  lemma {:induction false} ReleaseScan(m: Accounts, p: Pending, keys: seq<string>, epoch: u64, total: u64)
    requires Keyed(m) && forall k :: k in keys ==> k in p
    requires Total(m) + MaturedSum(p, keys, epoch) <= U64_MAX
    requires total + MaturedSum(p, keys, epoch) <= U64_MAX
    ensures var o := Release(m, p, keys, epoch, total);
      && o.result == Success(total + MaturedSum(p, keys, epoch))
      && Keyed(o.accounts) && Total(o.accounts) == Total(m) + MaturedSum(p, keys, epoch)
      && MaturedPaid(m, o.accounts, p, keys, epoch)
    decreases |keys|
  {
    if keys != [] {
      var u := p[keys[0]];
      if u.unlockEpoch <= epoch {
        CreditMeaning(m, u.address, u.amount);
        var m1 := Credit(m, u.address, u.amount).accounts;
        ReleaseScan(m1, p, keys[1..], epoch, total + u.amount);
        MaturedPaidFirst(m, m1, Release(m1, p, keys[1..], epoch, total + u.amount).accounts, p, keys, epoch);
      } else {
        ReleaseScan(m, p, keys[1..], epoch, total);
        MaturedPaidSkip(m, Release(m, p, keys[1..], epoch, total).accounts, p, keys, epoch);
      }
    }
  }

  /** What the scan counts is what the removed entries held, in whatever way entries are weighed. */
  lemma {:induction false} MaturedRemoved(p: Pending, keys: seq<string>, epoch: u64, f: PendingUnstake -> nat)
    requires forall k :: k in keys ==> k in p
    requires forall i, j :: 0 <= i < j < |keys| ==> keys[i] != keys[j]
    ensures Sum(p, f) == MaturedWeight(p, keys, epoch, f) + Sum(p - MaturedAmong(p, keys, epoch), f)
    decreases |keys|
  {
    var gone := MaturedAmong(p, keys, epoch);
    if keys == [] {
      assert p - gone == p;
    } else {
      MaturedRemoved(p, keys[1..], epoch, f);
      var gone' := MaturedAmong(p, keys[1..], epoch);
      if p[keys[0]].unlockEpoch <= epoch {
        assert gone == gone' + {keys[0]};
        assert p - gone == p - gone' - {keys[0]};
        SumRemove(p - gone', f, keys[0]);
      } else {
        assert gone == gone';
      }
    }
  }

  lemma SortedKeysDistinct<V>(p: map<string, V>)
    ensures var keys := Sorted(p.Keys);
      && (forall k :: k in keys <==> k in p)
      && forall i, j :: 0 <= i < j < |keys| ==> keys[i] != keys[j]
  {
    SortedAscending(p.Keys);
    AscendingDistinct(Sorted(p.Keys));
  }

  lemma MaturedTotals(p: Pending, epoch: u64, f: PendingUnstake -> nat)
    ensures var keys := Sorted(p.Keys);
      && (forall k :: k in keys <==> k in p)
      && Sum(p, f) == MaturedWeight(p, keys, epoch, f) + Sum(p - MaturedKeys(p, epoch), f)
  {
    var keys := Sorted(p.Keys);
    SortedKeysDistinct(p);
    MaturedRemoved(p, keys, epoch, f);
    assert MaturedAmong(p, keys, epoch) == MaturedKeys(p, epoch);
  }

  /** Every matured entry is credited to its address and removed, every other one stays; the
      returned total is what the removed entries held; nothing is lost and nothing fails. */
  lemma ReleaseMeaning(m: Accounts, p: Pending, epoch: u64)
    requires Keyed(m) && Total(m) + PendingTotal(p) <= U64_MAX
    ensures var o := ReleaseMatured(m, p, epoch); var keys := Sorted(p.Keys);
      && (forall k :: k in keys <==> k in p)
      && o.result == Success(PendingTotal(p) - PendingTotal(o.pending))
      && o.pending == p - MaturedKeys(p, epoch)
      && Keyed(o.accounts)
      && Total(o.accounts) + PendingTotal(o.pending) == Total(m) + PendingTotal(p)
      && MaturedPaid(m, o.accounts, p, keys, epoch)
  {
    SortedKeysDistinct(p);
    ReleaseTotals(m, p, Sorted(p.Keys), epoch);
  }

  lemma ReleaseTotals(m: Accounts, p: Pending, keys: seq<string>, epoch: u64)
    requires Keyed(m) && Total(m) + PendingTotal(p) <= U64_MAX
    requires keys == Sorted(p.Keys) && forall k :: k in keys ==> k in p
    ensures var o := Release(m, p, keys, epoch, 0); var left := PendingTotal(p - MaturedKeys(p, epoch));
      && o.result == Success(PendingTotal(p) - left)
      && Keyed(o.accounts) && Total(o.accounts) + left == Total(m) + PendingTotal(p)
      && MaturedPaid(m, o.accounts, p, keys, epoch)
  {
    MaturedTotals(p, epoch, Amount);
    ReleaseScan(m, p, keys, epoch, 0);
  }

  lemma {:induction false} MaturedForCovers(p: Pending, keys: seq<string>, epoch: u64, k: string)
    requires k in keys && (forall j :: j in keys ==> j in p) && p[k].unlockEpoch <= epoch
    ensures p[k].amount <= MaturedFor(p, keys, epoch, p[k].address)
    decreases |keys|
  {
    if k != keys[0] {
      MaturedForCovers(p, keys[1..], epoch, k);
    }
  }

  /** A release credits a matured amount to its owner: the balance grows by exactly the owner's
      matured entries, this one among them, and the entry is gone. */
  lemma ReleasePaysOwner(m: Accounts, p: Pending, epoch: u64, k: string)
    requires Keyed(m) && Total(m) + PendingTotal(p) <= U64_MAX
    requires k in p && p[k].unlockEpoch <= epoch
    ensures var o := ReleaseMatured(m, p, epoch); var owner := p[k].address; var keys := Sorted(p.Keys);
      && (forall j :: j in keys <==> j in p)
      && BalanceOf(o.accounts, owner) - BalanceOf(m, owner) == MaturedFor(p, keys, epoch, owner) >= p[k].amount
      && k !in o.pending
  {
    ReleaseMeaning(m, p, epoch);
    MaturedForCovers(p, Sorted(p.Keys), epoch, k);
    var owner := p[k].address;
    assert Raised(GetOrCreate(m, owner), GetOrCreate(ReleaseMatured(m, p, epoch).accounts, owner),
                  MaturedFor(p, Sorted(p.Keys), epoch, owner));
  }

  lemma ReleaseGain(m: Accounts, p: Pending, epoch: u64, k: string)
    requires Keyed(m) && Total(m) + PendingTotal(p) <= U64_MAX
    requires k in p && p[k].unlockEpoch <= epoch
    ensures var o := ReleaseMatured(m, p, epoch);
      BalanceOf(o.accounts, p[k].address) >= BalanceOf(m, p[k].address) + p[k].amount && k !in o.pending
  {
    ReleasePaysOwner(m, p, epoch, k);
  }

  /** Owner by owner: what an address gains in a release is what it is owed less. */
  lemma ReleaseOwed(m: Accounts, p: Pending, epoch: u64, a: string)
    requires Keyed(m) && Total(m) + PendingTotal(p) <= U64_MAX
    ensures var o := ReleaseMatured(m, p, epoch);
      BalanceOf(o.accounts, a) + PendingFor(o.pending, a) == BalanceOf(m, a) + PendingFor(p, a)
  {
    var keys := Sorted(p.Keys);
    ReleaseMeaning(m, p, epoch);
    MaturedTotals(p, epoch, AmountFor(a));
    assert Raised(GetOrCreate(m, a), GetOrCreate(ReleaseMatured(m, p, epoch).accounts, a), MaturedFor(p, keys, epoch, a));
  }

  lemma ReleasedBalance(m: Accounts, p: Pending, epoch: u64, a: string)
    requires Keyed(m) && Total(m) + PendingTotal(p) <= U64_MAX
    ensures BalanceOf(ReleaseMatured(m, p, epoch).accounts, a)
         == BalanceOf(m, a) + PendingFor(p, a) - PendingFor(p - MaturedKeys(p, epoch), a)
  {
    ReleaseOwed(m, p, epoch, a);
    ReleaseMeaning(m, p, epoch);
  }

  lemma MaturedWithout(p: Pending, epoch: u64, k: string)
    requires k in p && p[k].unlockEpoch <= epoch
    ensures p - {k} - MaturedKeys(p - {k}, epoch) == p - MaturedKeys(p, epoch)
  {
  }

  /** A matured entry is worth exactly its amount to its owner: a release pays it, and pays nobody
      anything else, compared with the release of the same entries without it. */
  lemma ReleasePaysEntry(m: Accounts, p: Pending, epoch: u64, k: string, a: string)
    requires Keyed(m) && Total(m) + PendingTotal(p) <= U64_MAX
    requires k in p && p[k].unlockEpoch <= epoch
    ensures BalanceOf(ReleaseMatured(m, p, epoch).accounts, a)
         == BalanceOf(ReleaseMatured(m, p - {k}, epoch).accounts, a) + if a == p[k].address then p[k].amount else 0
  {
    SumRemove(p, Amount, k);
    SumRemove(p, AmountFor(a), k);
    MaturedWithout(p, epoch, k);
    ReleasedBalance(m, p, epoch, a);
    ReleasedBalance(m, p - {k}, epoch, a);
  }

  /** Repeating the release in the same epoch finds nothing. */
  lemma ReleaseTwice(m: Accounts, p: Pending, epoch: u64)
    requires Keyed(m) && Total(m) + PendingTotal(p) <= U64_MAX
    ensures var o := ReleaseMatured(m, p, epoch);
      ReleaseMatured(o.accounts, o.pending, epoch) == StakingOutcome(o.accounts, o.pending, Success(0))
  {
    ReleaseMeaning(m, p, epoch);
    var o := ReleaseMatured(m, p, epoch);
    NothingToRelease(o.accounts, o.pending, epoch);
  }

  lemma NothingToRelease(m: Accounts, p: Pending, epoch: u64)
    requires MaturedKeys(p, epoch) == {}
    ensures ReleaseMatured(m, p, epoch) == StakingOutcome(m, p, Success(0))
  {
    NoneMatured(p, epoch);
    NothingMatured(m, p, Sorted(p.Keys), epoch);
    assert p - MaturedKeys(p, epoch) == p;
  }

  lemma NoneMatured(p: Pending, epoch: u64)
    requires MaturedKeys(p, epoch) == {}
    ensures forall k :: k in Sorted(p.Keys) ==> k in p && p[k].unlockEpoch > epoch
  {
    forall k | k in p
      ensures p[k].unlockEpoch > epoch
    {
      assert k !in MaturedKeys(p, epoch);
    }
  }

  lemma {:induction false} NothingMatured(m: Accounts, p: Pending, keys: seq<string>, epoch: u64)
    requires forall k :: k in keys ==> k in p && p[k].unlockEpoch > epoch
    ensures Release(m, p, keys, epoch, 0) == Outcome(m, Success(0))
    decreases |keys|
  {
    if keys != [] {
      assert keys[0] in keys;
      NothingMatured(m, p, keys[1..], epoch);
    }
  }

  lemma EarlierFirst(p: Pending, x: string, y: string)
    requires PendingKeyed(p) && x in p && y in p && Less(x, y)
    ensures p[x].unlockEpoch <= p[y].unlockEpoch
  {
    var u, v := p[x], p[y];
    if v.unlockEpoch < u.unlockEpoch {
      UnstakeKeyOrder(v.unlockEpoch, v.address, v.requestEpoch, u.unlockEpoch, u.address, u.requestEpoch);
      LessAsymmetric(x, y);
    }
  }

  /** The scan meets all matured entries before any other. */
  lemma MaturedFirst(p: Pending, epoch: u64)
    requires PendingKeyed(p)
    ensures var keys := Sorted(p.Keys);
      && (forall k :: k in keys <==> k in p)
      && forall i, j :: 0 <= i < j < |keys| && p[keys[j]].unlockEpoch <= epoch ==> p[keys[i]].unlockEpoch <= epoch
  {
    var keys := Sorted(p.Keys);
    SortedAscending(p.Keys);
    forall i, j | 0 <= i < j < |keys|
      ensures keys[i] in p && keys[j] in p && p[keys[i]].unlockEpoch <= p[keys[j]].unlockEpoch
    {
      assert keys[i] in keys && keys[j] in keys;
      EarlierFirst(p, keys[i], keys[j]);
    }
  }
}
