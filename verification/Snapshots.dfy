/** Snapshot, partial application and rollback over the account map and the stored state root. */
module Snapshots {
  import opened Prelude
  import opened Types
  import opened Ledger

  const EMPTY_STATE := "kyvera-empty-state"

  /** The part of the database a block changes. */
  datatype State = State(accounts: Accounts, stateRoot: Option<string>)

  datatype Snapshot = Snapshot(
    blockHeight: u64,
    stateRoot: string,
    modifiedAccounts: seq<(string, Option<Account>)>
  )

  function Lookup(m: Accounts, a: string): Option<Account> {
    if a in m then Some(m[a]) else None
  }

  function Entries(m: Accounts, addresses: seq<string>): seq<(string, Option<Account>)> {
    seq(|addresses|, i requires 0 <= i < |addresses| => (addresses[i], Lookup(m, addresses[i])))
  }

  /** A missing root is recorded as the hash of the empty state. */
  function CurrentRoot(H: string -> Digest, s: State): string {
    match s.stateRoot case Some(root) => root case None => H(EMPTY_STATE)
  }

  function Take(H: string -> Digest, s: State, height: u64, addresses: seq<string>): Snapshot {
    Snapshot(height, CurrentRoot(H, s), Entries(s.accounts, addresses))
  }

  /** What a snapshot records: the height, and the entry of each address as it is. */
  lemma SnapshotRecords(H: string -> Digest, s: State, height: u64, addresses: seq<string>, i: nat)
    requires i < |addresses|
    ensures var snapshot := Take(H, s, height, addresses); var a := addresses[i];
      && snapshot.blockHeight == height && |snapshot.modifiedAccounts| == |addresses|
      && snapshot.modifiedAccounts[i].0 == a
      && (snapshot.modifiedAccounts[i].1.Some? <==> a in s.accounts)
      && (a in s.accounts ==> snapshot.modifiedAccounts[i].1 == Some(s.accounts[a]))
  {
  }

  function Restore(m: Accounts, entries: seq<(string, Option<Account>)>): Accounts
    decreases |entries|
  {
    if entries == [] then m
    else
      var m' := match entries[0].1
        case Some(account) => Save(m, account)
        case None => m - {entries[0].0};
      Restore(m', entries[1..])
  }

  function Rollback(s: State, snapshot: Snapshot): State {
    State(Restore(s.accounts, snapshot.modifiedAccounts), Some(snapshot.stateRoot))
  }

  /** The two maps differ at most on `addresses`. */
  ghost predicate AgreeOutside(m: Accounts, m': Accounts, addresses: seq<string>) {
    forall a :: a !in addresses ==> Lookup(m, a) == Lookup(m', a)
  }

  /** Restoring overwrites exactly the recorded addresses, whatever they hold by then. */
  lemma {:induction false} RestoreMeaning(m0: Accounts, m: Accounts, addresses: seq<string>, a: string)
    requires Keyed(m0)
    ensures Lookup(Restore(m, Entries(m0, addresses)), a)
         == Lookup(if a in addresses then m0 else m, a)
    decreases |addresses|
  {
    if addresses != [] {
      var entries := Entries(m0, addresses);
      var m' := match entries[0].1 case Some(acc) => Save(m, acc) case None => m - {addresses[0]};
      assert entries[1..] == Entries(m0, addresses[1..]);
      RestoreMeaning(m0, m', addresses[1..], a);
    }
  }

  lemma MapsEqual(m: Accounts, m': Accounts)
    requires forall a :: Lookup(m, a) == Lookup(m', a)
    ensures m == m'
  {
    forall a
      ensures a in m <==> a in m'
      ensures a in m ==> m[a] == m'[a]
    {
      assert Lookup(m, a) == Lookup(m', a);
    }
  }

  /** Rolling back gives the original accounts back exactly when nothing outside the recorded
      addresses changed, and the stored root back exactly when there was one: otherwise the root of
      the empty state is left in its place. */
  lemma RollbackIdentity(H: string -> Digest, s: State, s': State, height: u64, addresses: seq<string>)
    requires Keyed(s.accounts)
    ensures var back := Rollback(s', Take(H, s, height, addresses));
      && (back.accounts == s.accounts <==> AgreeOutside(s.accounts, s'.accounts, addresses))
      && (back == s <==> AgreeOutside(s.accounts, s'.accounts, addresses) && s.stateRoot.Some?)
      && back.stateRoot == Some(CurrentRoot(H, s))
  {
    var restored := Restore(s'.accounts, Entries(s.accounts, addresses));
    forall a
      ensures Lookup(restored, a) == Lookup(if a in addresses then s.accounts else s'.accounts, a)
    {
      RestoreMeaning(s.accounts, s'.accounts, addresses, a);
    }
    if AgreeOutside(s.accounts, s'.accounts, addresses) {
      MapsEqual(restored, s.accounts);
    }
  }

  /* ---------- Blocks ---------- */

  /** Apply transactions in order, keeping whatever each one wrote even if it failed. Stopping at
      the first failure is a run of a shorter list. */
  function RunBlock(m: Accounts, txs: seq<Transaction>): Accounts
    decreases |txs|
  {
    if txs == [] then m else RunBlock(Apply(m, txs[0]).accounts, txs[1..])
  }

  ghost predicate Covers(addresses: seq<string>, txs: seq<Transaction>) {
    && TREASURY_ADDRESS in addresses
    && forall tx :: tx in txs ==> tx.sender in addresses && tx.receiver in addresses
  }

  lemma CreditTouches(m: Accounts, to: string, amount: u64, a: string)
    requires Keyed(m) && a != to
    ensures Lookup(Credit(m, to, amount).accounts, a) == Lookup(m, a) && Keyed(Credit(m, to, amount).accounts)
  {
  }

  lemma ApplyTouches(m: Accounts, tx: Transaction, a: string)
    requires Keyed(m) && a != tx.sender && a != tx.receiver && a != TREASURY_ADDRESS
    ensures Lookup(Apply(m, tx).accounts, a) == Lookup(m, a)
  {
    var c := Charge(GetOrCreate(m, tx.sender), tx);
    if c.Success? {
      ChargedFields(GetOrCreate(m, tx.sender), tx);
      var m1 := Save(m, c.value);
      CreditTouches(m1, tx.receiver, tx.amount, a);
      var m2 := if tx.transactionType == Transfer then Credit(m1, tx.receiver, tx.amount).accounts else m1;
      CreditTouches(m2, TREASURY_ADDRESS, tx.fee / 10, a);
    }
  }

  lemma {:induction false} RunBlockTouches(m: Accounts, txs: seq<Transaction>, addresses: seq<string>)
    requires Keyed(m) && Covers(addresses, txs)
    ensures Keyed(RunBlock(m, txs)) && AgreeOutside(m, RunBlock(m, txs), addresses)
    decreases |txs|
  {
    if txs != [] {
      var m' := Apply(m, txs[0]).accounts;
      ApplyKeepsKeyed(m, txs[0]);
      assert txs[0] in txs;
      forall a | a !in addresses
        ensures Lookup(m', a) == Lookup(m, a)
      {
        ApplyTouches(m, txs[0], a);
      }
      RunBlockTouches(m', txs[1..], addresses);
    }
  }

  /** One block together with the addresses its snapshot covers and the root it commits, if any. */
  datatype Batch = Batch(txs: seq<Transaction>, addresses: seq<string>, root: Option<string>)

  function Execute(s: State, b: Batch): State {
    State(RunBlock(s.accounts, b.txs), if b.root.Some? then b.root else s.stateRoot)
  }

  /** Execute blocks one after the other, taking a snapshot before each. */
  function ExecuteAll(H: string -> Digest, s: State, blocks: seq<Batch>, height: nat): (State, seq<Snapshot>)
    decreases |blocks|
  {
    if blocks == [] then (s, [])
    else
      var (last, rest) := ExecuteAll(H, Execute(s, blocks[0]), blocks[1..], height + 1);
      (last, [Take(H, s, Wrap64(height), blocks[0].addresses)] + rest)
  }

  /** Roll the snapshots back, newest first. */
  function Unwind(s: State, snapshots: seq<Snapshot>): State {
    if snapshots == [] then s
    else Rollback(Unwind(s, snapshots[1..]), snapshots[0])
  }

  /** Any stack of blocks, some of them failing partway, undone newest first leads back to the
      accounts before the first, and to the root stored then if there was one. */
  lemma {:induction false} UnwindRestores(H: string -> Digest, s: State, blocks: seq<Batch>, height: nat)
    requires Keyed(s.accounts) && forall b :: b in blocks ==> Covers(b.addresses, b.txs)
    ensures var (last, snapshots) := ExecuteAll(H, s, blocks, height); var first := Unwind(last, snapshots);
      && |snapshots| == |blocks| && first.accounts == s.accounts
      && first.stateRoot == (if blocks == [] then s.stateRoot else Some(CurrentRoot(H, s)))
      && (first == s <==> blocks == [] || s.stateRoot.Some?)
    decreases |blocks|
  {
    if blocks != [] {
      var b := blocks[0];
      assert b in blocks;
      RunBlockTouches(s.accounts, b.txs, b.addresses);
      var s1 := Execute(s, b);
      UnwindRestores(H, s1, blocks[1..], height + 1);
      var (last, rest) := ExecuteAll(H, s1, blocks[1..], height + 1);
      var first := Take(H, s, Wrap64(height), b.addresses);
      assert ([first] + rest)[1..] == rest;
      var back := Unwind(last, rest);
      assert AgreeOutside(s.accounts, back.accounts, b.addresses);
      RollbackIdentity(H, s, back, Wrap64(height), b.addresses);
    }
  }
}
