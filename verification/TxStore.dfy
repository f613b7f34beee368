/** The transaction store and its sender index. */
module TxStore {
  import opened Prelude
  import opened Types
  import opened Order
  import opened Keys

  const SENDER_PREFIX := "sender:"

  /** One tree holds both kinds of entry: transactions by hash, and hashes by sender and nonce. */
  datatype Entry = Stored(tx: Transaction) | HashRef(hash: string)

  type Tree = map<string, Entry>

  function SenderScanPrefix(address: string): string {
    SENDER_PREFIX + address
  }

  function SenderKey(address: string, nonce: u64): string {
    SenderScanPrefix(address) + (":" + Padded(nonce, 20))
  }

  predicate HasPrefix(key: string, prefix: string) {
    |prefix| <= |key| && key[..|prefix|] == prefix
  }

  function KeysWithPrefix(keys: seq<string>, prefix: string): seq<string> {
    if keys == [] then []
    else (if HasPrefix(keys[0], prefix) then [keys[0]] else []) + KeysWithPrefix(keys[1..], prefix)
  }

  /** The keys a prefix scan visits, in order. */
  function Scan(t: Tree, prefix: string): seq<string> {
    KeysWithPrefix(Sorted(t.Keys), prefix)
  }

  function Put(t: Tree, tx: Transaction): Tree {
    t[tx.hash := Stored(tx)][SenderKey(tx.sender, tx.nonce) := HashRef(tx.hash)]
  }

  function Replay(log: seq<Transaction>): Tree {
    if log == [] then map[] else Put(Replay(log[..|log| - 1]), log[|log| - 1])
  }

  /** The bytes an entry holds, read as text. */
  function EntryText(encode: Transaction -> string, e: Entry): string {
    match e case HashRef(hash) => hash case Stored(tx) => encode(tx)
  }

  function Texts(encode: Transaction -> string, t: Tree, keys: seq<string>): seq<string>
    requires forall k :: k in keys ==> k in t
  {
    seq(|keys|, i requires 0 <= i < |keys| => EntryText(encode, t[keys[i]]))
  }

  /** The last `limit` entries, newest first. */
  function Newest(hashes: seq<string>, limit: nat): seq<string> {
    var n := if limit < |hashes| then limit else |hashes|;
    seq(n, i requires 0 <= i < n => hashes[|hashes| - 1 - i])
  }

  /** Load transactions by hash: an unknown hash is skipped, an index entry does not decode. */
  function Load(t: Tree, hashes: seq<string>): Option<seq<Transaction>> {
    if hashes == [] then Some([])
    else
      var loaded, hash := Load(t, hashes[..|hashes| - 1]), hashes[|hashes| - 1];
      if loaded.None? || hash !in t then loaded
      else if t[hash].Stored? then Some(loaded.value + [t[hash].tx])
      else None
  }

  class Store {
    const Encode: Transaction -> string
    var transactions: Tree

    constructor (encode: Transaction -> string)
      ensures transactions == map[] && Encode == encode
    {
      Encode := encode;
      transactions := map[];
    }

    method SaveTransaction(tx: Transaction) returns (ok: bool)
      modifies this`transactions
      ensures ok <==> tx.hash != ""
      ensures transactions == if ok then Put(old(transactions), tx) else old(transactions)
    {
      if tx.hash == "" {
        return false;
      }
      transactions := transactions[tx.hash := Stored(tx)];
      transactions := transactions[SenderKey(tx.sender, tx.nonce) := HashRef(tx.hash)];
      ok := true;
    }

    function History(address: string): seq<string>
      reads this
    {
      ScanKeysPresent(transactions, SenderScanPrefix(address));
      Texts(Encode, transactions, Scan(transactions, SenderScanPrefix(address)))
    }

    method GetTransactionsBySender(address: string) returns (hashes: seq<string>)
      ensures hashes == History(address)
    {
      var keys := Scan(transactions, SenderScanPrefix(address));
      ScanKeysPresent(transactions, SenderScanPrefix(address));
      hashes := [];
      for i := 0 to |keys|
        invariant hashes == Texts(Encode, transactions, keys)[..i]
      {
        hashes := hashes + [EntryText(Encode, transactions[keys[i]])];
      }
    }

    method GetRecentTransactionsBySender(address: string, limit: nat) returns (r: Option<seq<Transaction>>)
      ensures r == Load(transactions, Newest(History(address), limit))
    {
      var hashes := GetTransactionsBySender(address);
      r := LoadTransactions(Newest(hashes, limit));
    }

    method LoadTransactions(hashes: seq<string>) returns (r: Option<seq<Transaction>>)
      ensures r == Load(transactions, hashes)
    {
      var loaded := [];
      for i := 0 to |hashes|
        invariant Load(transactions, hashes[..i]) == Some(loaded)
      {
        assert hashes[..i + 1][..i] == hashes[..i];
        if hashes[i] in transactions {
          match transactions[hashes[i]] {
            case Stored(tx) => loaded := loaded + [tx];
            case HashRef(_) =>
              LoadFails(transactions, hashes, i);
              return None;
          }
        }
      }
      assert hashes[..|hashes|] == hashes;
      r := Some(loaded);
    }
  }

  lemma {:induction false} LoadFails(t: Tree, hashes: seq<string>, i: nat)
    requires i < |hashes| && hashes[i] in t && t[hashes[i]].HashRef?
    ensures Load(t, hashes) == None
    decreases |hashes|
  {
    if i < |hashes| - 1 {
      LoadFails(t, hashes[..|hashes| - 1], i);
    }
  }

  lemma {:induction false} KeysWithPrefixAre(keys: seq<string>, prefix: string)
    ensures forall k :: k in KeysWithPrefix(keys, prefix) <==> k in keys && HasPrefix(k, prefix)
    ensures Ascending(keys) ==> Ascending(KeysWithPrefix(keys, prefix))
  {
    if keys != [] {
      var rest := KeysWithPrefix(keys[1..], prefix);
      KeysWithPrefixAre(keys[1..], prefix);
      if Ascending(keys) {
        forall i | 0 <= i < |rest|
          ensures Less(keys[0], rest[i])
        {
          assert rest[i] in rest;
          var j :| 0 <= j < |keys[1..]| && keys[1..][j] == rest[i];
          assert keys[j + 1] == rest[i];
        }
      }
    }
  }

  lemma ScanKeysPresent(t: Tree, prefix: string)
    ensures forall k :: k in Scan(t, prefix) <==> k in t && HasPrefix(k, prefix)
    ensures Ascending(Scan(t, prefix))
  {
    SortedAscending(t.Keys);
    KeysWithPrefixAre(Sorted(t.Keys), prefix);
  }

  /* ---------- The history of a sender ---------- */

  /** The hash saved last under a sender and nonce. */
  function LastHash(log: seq<Transaction>, address: string, nonce: u64): Option<string> {
    if log == [] then None
    else
      var tx := log[|log| - 1];
      if tx.sender == address && tx.nonce == nonce then Some(tx.hash)
      else LastHash(log[..|log| - 1], address, nonce)
  }

  /** No hash looks like an index key, which no hexadecimal digest does. */
  ghost predicate HashesAreNoKeys(log: seq<Transaction>) {
    forall i :: 0 <= i < |log| ==> !HasPrefix(log[i].hash, SENDER_PREFIX)
  }

  /** The index key of another sender starts like the keys of `a`. */
  predicate Intrudes(tx: Transaction, a: string) {
    tx.sender != a && HasPrefix(SenderKey(tx.sender, tx.nonce), SenderScanPrefix(a))
  }

  /** No saved transaction of another sender has a key that starts like the keys of `a`. */
  ghost predicate NoIntruder(log: seq<Transaction>, a: string) {
    forall i :: 0 <= i < |log| ==> !Intrudes(log[i], a)
  }

  /** Between addresses of one length there are no intruders. */
  lemma EqualLengthsSeparate(log: seq<Transaction>, a: string)
    requires forall i :: 0 <= i < |log| ==> |log[i].sender| == |a|
    ensures NoIntruder(log, a)
  {
    forall i | 0 <= i < |log|
      ensures !Intrudes(log[i], a)
    {
      var s := log[i].sender;
      if HasPrefix(SenderKey(s, log[i].nonce), SenderScanPrefix(a)) {
        SenderKeyShape(s, log[i].nonce);
        assert SenderScanPrefix(a) == SenderScanPrefix(s);
        CancelLeft(SENDER_PREFIX, a, s);
      }
    }
  }

  lemma SenderKeyShape(address: string, nonce: u64)
    ensures HasPrefix(SenderKey(address, nonce), SENDER_PREFIX)
    ensures HasPrefix(SenderKey(address, nonce), SenderScanPrefix(address))
    ensures |SenderKey(address, nonce)| == |SENDER_PREFIX| + |address| + 21
  {
    var key := SenderKey(address, nonce);
    assert key[..|SenderScanPrefix(address)|] == SenderScanPrefix(address);
    assert key[..|SENDER_PREFIX|] == SenderScanPrefix(address)[..|SENDER_PREFIX|] == SENDER_PREFIX;
  }

  lemma SenderKeyExample()
    ensures SenderKey("ab", 12) == "sender:" + "ab" + (":" + "00000000000000000012")
  {
    TwentyDigitsOf12();
  }

  lemma SenderKeyInjective(a: string, n: u64, a': string, n': u64)
    requires SenderKey(a, n) == SenderKey(a', n')
    ensures a == a' && n == n'
  {
    SenderKeyShape(a, n);
    SenderKeyShape(a', n');
    var s, s' := SenderScanPrefix(a), SenderScanPrefix(a');
    SplitAt(s, s', ":" + Padded(n, 20), ":" + Padded(n', 20));
    CancelLeft(SENDER_PREFIX, a, a');
    CancelLeft(":", Padded(n, 20), Padded(n', 20));
    TwentyDigitsFit(n);
    TwentyDigitsFit(n');
    PaddedOrder(n, n', 20);
  }

  lemma SenderKeyOrder(a: string, n: u64, n': u64)
    ensures Less(SenderKey(a, n), SenderKey(a, n')) <==> n < n'
  {
    TwentyDigitsFit(n);
    TwentyDigitsFit(n');
    PaddedOrder(n, n', 20);
    LessAppend(":", ":", Padded(n, 20), Padded(n', 20));
    LessIrreflexive(":");
    LessAppend(SenderScanPrefix(a), SenderScanPrefix(a), ":" + Padded(n, 20), ":" + Padded(n', 20));
    LessIrreflexive(SenderScanPrefix(a));
  }

  /** The index entry of a sender and nonce is the hash saved last. */
  lemma {:induction false} ReplayIndex(log: seq<Transaction>, a: string, n: u64)
    requires HashesAreNoKeys(log)
    ensures var t := Replay(log); var last := LastHash(log, a, n);
      && (SenderKey(a, n) in t <==> last.Some?)
      && (last.Some? ==> t[SenderKey(a, n)] == HashRef(last.value))
    decreases |log|
  {
    if log != [] {
      var tx := log[|log| - 1];
      ReplayIndex(log[..|log| - 1], a, n);
      SenderKeyShape(a, n);
      assert tx.hash != SenderKey(a, n);
      if SenderKey(tx.sender, tx.nonce) == SenderKey(a, n) {
        SenderKeyInjective(tx.sender, tx.nonce, a, n);
      }
    }
  }

  /** Every key under the prefix of an address belongs to it, as long as there is no intruder. */
  lemma {:induction false} ReplayKeys(log: seq<Transaction>, a: string, k: string) returns (n: u64)
    requires HashesAreNoKeys(log) && NoIntruder(log, a)
    requires k in Replay(log) && HasPrefix(k, SenderScanPrefix(a))
    ensures k == SenderKey(a, n)
    decreases |log|
  {
    var tx := log[|log| - 1];
    PrefixOfPrefix(k, a);
    if k == SenderKey(tx.sender, tx.nonce) {
      assert !Intrudes(tx, a);
      n := tx.nonce;
    } else {
      assert k != tx.hash;
      n := ReplayKeys(log[..|log| - 1], a, k);
    }
  }

  lemma PrefixOfPrefix(k: string, a: string)
    requires HasPrefix(k, SenderScanPrefix(a))
    ensures HasPrefix(k, SENDER_PREFIX)
  {
    assert k[..|SENDER_PREFIX|] == SenderScanPrefix(a)[..|SENDER_PREFIX|] == SENDER_PREFIX;
  }

  /** The transaction saved last under a hash. */
  function LastSaved(log: seq<Transaction>, hash: string): Option<Transaction> {
    if log == [] then None
    else if log[|log| - 1].hash == hash then Some(log[|log| - 1])
    else LastSaved(log[..|log| - 1], hash)
  }

  /** Every saved hash leads to the whole transaction saved last under it. */
  lemma {:induction false} ReplayStored(log: seq<Transaction>, i: nat)
    requires HashesAreNoKeys(log) && i < |log|
    ensures StoredUnder(log, Replay(log), log[i].hash)
    decreases |log|
  {
    var tx := log[|log| - 1];
    SenderKeyShape(tx.sender, tx.nonce);
    assert log[i].hash != SenderKey(tx.sender, tx.nonce);
    if i < |log| - 1 {
      ReplayStored(log[..|log| - 1], i);
    }
  }

  lemma {:induction false} LastHashListed(log: seq<Transaction>, a: string, n: u64) returns (i: nat)
    requires LastHash(log, a, n).Some?
    ensures i < |log| && log[i].hash == LastHash(log, a, n).value
    decreases |log|
  {
    var tx := log[|log| - 1];
    if tx.sender == a && tx.nonce == n {
      i := |log| - 1;
    } else {
      i := LastHashListed(log[..|log| - 1], a, n);
    }
  }

  /** The keys of an address are its nonces in ascending order. */
  lemma HistoryNonces(log: seq<Transaction>, a: string) returns (nonces: seq<u64>)
    requires HashesAreNoKeys(log) && NoIntruder(log, a)
    ensures var keys := Scan(Replay(log), SenderScanPrefix(a));
      |nonces| == |keys| && forall i :: 0 <= i < |keys| ==> keys[i] in Replay(log) && keys[i] == SenderKey(a, nonces[i])
    ensures forall i, j :: 0 <= i < j < |nonces| ==> nonces[i] < nonces[j]
  {
    var keys := Scan(Replay(log), SenderScanPrefix(a));
    ScanKeysPresent(Replay(log), SenderScanPrefix(a));
    nonces := [];
    for i := 0 to |keys|
      invariant |nonces| == i && forall j :: 0 <= j < i ==> keys[j] == SenderKey(a, nonces[j])
    {
      assert keys[i] in keys;
      var n := ReplayKeys(log, a, keys[i]);
      nonces := nonces + [n];
    }
    forall i | 0 <= i < |keys|
      ensures keys[i] in Replay(log)
    {
      assert keys[i] in keys;
    }
    forall i, j | 0 <= i < j < |nonces|
      ensures nonces[i] < nonces[j]
    {
      SenderKeyOrder(a, nonces[i], nonces[j]);
    }
  }

  /** The history of an address after any log of saves: its nonces in ascending order, each with the
      hash saved last for it, as long as there is no intruder. */
  lemma SenderHistory(encode: Transaction -> string, log: seq<Transaction>, a: string) returns (nonces: seq<u64>)
    requires HashesAreNoKeys(log) && NoIntruder(log, a)
    ensures var t := Replay(log); var keys := Scan(t, SenderScanPrefix(a));
      && (forall k :: k in keys ==> k in t) && |nonces| == |keys|
      && forall i :: 0 <= i < |keys| ==> LastHash(log, a, nonces[i]) == Some(Texts(encode, t, keys)[i])
    ensures forall i, j :: 0 <= i < j < |nonces| ==> nonces[i] < nonces[j]
    ensures forall n: u64 :: n in nonces <==> LastHash(log, a, n).Some?
  {
    var t, keys := Replay(log), Scan(Replay(log), SenderScanPrefix(a));
    ScanKeysPresent(t, SenderScanPrefix(a));
    nonces := HistoryNonces(log, a);
    forall i | 0 <= i < |keys|
      ensures LastHash(log, a, nonces[i]) == Some(Texts(encode, t, keys)[i])
    {
      ReplayIndex(log, a, nonces[i]);
    }
    forall n: u64 | LastHash(log, a, n).Some?
      ensures n in nonces
    {
      ReplayIndex(log, a, n);
      SenderKeyShape(a, n);
      assert SenderKey(a, n) in keys;
      var i :| 0 <= i < |keys| && keys[i] == SenderKey(a, n);
      SenderKeyInjective(a, nonces[i], a, n);
    }
  }

  /** A saved key stays, and holds the hash saved last under it. */
  lemma SavedKeyStays(log: seq<Transaction>, i: nat)
    requires HashesAreNoKeys(log) && i < |log|
    ensures var k := SenderKey(log[i].sender, log[i].nonce); var last := LastHash(log, log[i].sender, log[i].nonce);
      last.Some? && k in Replay(log) && Replay(log)[k] == HashRef(last.value)
  {
    LastHashOf(log, i);
    ReplayIndex(log, log[i].sender, log[i].nonce);
  }

  lemma {:induction false} LastHashOf(log: seq<Transaction>, i: nat)
    requires i < |log|
    ensures LastHash(log, log[i].sender, log[i].nonce).Some?
    decreases |log|
  {
    if i < |log| - 1 {
      LastHashOf(log[..|log| - 1], i);
    }
  }

  /** The scan for an address visits every saved key that starts like its own, so an intruder's
      hash is listed under the wrong address. */
  lemma IntruderListed(encode: Transaction -> string, log: seq<Transaction>, a: string, i: nat) returns (j: nat)
    requires HashesAreNoKeys(log) && i < |log| && Intrudes(log[i], a)
    ensures var t := Replay(log); var keys := Scan(t, SenderScanPrefix(a));
      && (forall k :: k in keys ==> k in t) && j < |keys| && keys[j] == SenderKey(log[i].sender, log[i].nonce)
      && LastHash(log, log[i].sender, log[i].nonce) == Some(Texts(encode, t, keys)[j])
  {
    var t, keys := Replay(log), Scan(Replay(log), SenderScanPrefix(a));
    ScanKeysPresent(t, SenderScanPrefix(a));
    SavedKeyStays(log, i);
    var key := SenderKey(log[i].sender, log[i].nonce);
    assert key in keys;
    j :| 0 <= j < |keys| && keys[j] == key;
  }

  /** The scan for an address visits its own keys only exactly when there is no intruder. */
  lemma ScanOwnExactly(log: seq<Transaction>, a: string)
    requires HashesAreNoKeys(log)
    ensures (forall k :: k in Scan(Replay(log), SenderScanPrefix(a)) ==> exists n: u64 :: k == SenderKey(a, n))
       <==> NoIntruder(log, a)
  {
    ScanKeysPresent(Replay(log), SenderScanPrefix(a));
    if NoIntruder(log, a) {
      forall k | k in Scan(Replay(log), SenderScanPrefix(a))
        ensures exists n: u64 :: k == SenderKey(a, n)
      {
        var n := ReplayKeys(log, a, k);
      }
    } else {
      var i :| 0 <= i < |log| && Intrudes(log[i], a);
      SavedKeyStays(log, i);
      var key := SenderKey(log[i].sender, log[i].nonce);
      assert key in Scan(Replay(log), SenderScanPrefix(a));
      forall n: u64
        ensures key != SenderKey(a, n)
      {
        if key == SenderKey(a, n) {
          SenderKeyInjective(log[i].sender, log[i].nonce, a, n);
        }
      }
    }
  }

  /** The case is real: an address that begins with another is listed under it. */
  lemma LongerAddressListed(encode: Transaction -> string) returns (j: nat)
    ensures var t := Replay([Transaction("h", "ab", "c", 1, 0, 0, "s", Transfer)]);
      var keys := Scan(t, SenderScanPrefix("a"));
      && (forall k :: k in keys ==> k in t) && j < |keys| && Texts(encode, t, keys)[j] == "h"
  {
    var tx := Transaction("h", "ab", "c", 1, 0, 0, "s", Transfer);
    var key := SenderKey("ab", 0);
    assert key[..|SenderScanPrefix("a")|] == SenderScanPrefix("a");
    assert Intrudes(tx, "a");
    assert HashesAreNoKeys([tx]);
    j := IntruderListed(encode, [tx], "a", 0);
  }

  /** Each hash of a history leads to its transaction. */
  lemma HistoryStored(encode: Transaction -> string, log: seq<Transaction>, a: string)
    requires HashesAreNoKeys(log) && NoIntruder(log, a)
    ensures var t := Replay(log); var keys := Scan(t, SenderScanPrefix(a));
      && (forall k :: k in keys ==> k in t)
      && AllStored(log, t, Texts(encode, t, keys))
  {
    var t, keys := Replay(log), Scan(Replay(log), SenderScanPrefix(a));
    var nonces := SenderHistory(encode, log, a);
    var hashes := Texts(encode, t, keys);
    forall i | 0 <= i < |hashes|
      ensures StoredUnder(log, t, hashes[i])
    {
      var j := LastHashListed(log, a, nonces[i]);
      ReplayStored(log, j);
    }
  }

  ghost predicate StoredUnder(log: seq<Transaction>, t: Tree, hash: string) {
    var last := LastSaved(log, hash);
    last.Some? && last.value.hash == hash && hash in t && t[hash] == Stored(last.value)
  }

  ghost predicate AllStored(log: seq<Transaction>, t: Tree, hashes: seq<string>) {
    forall i :: 0 <= i < |hashes| ==> StoredUnder(log, t, hashes[i])
  }

  /** The transactions saved last under the last `limit` hashes, newest first. */
  ghost predicate IsNewest(log: seq<Transaction>, hashes: seq<string>, limit: nat, r: Option<seq<Transaction>>) {
    && r.Some? && |r.value| == (if limit < |hashes| then limit else |hashes|)
    && forall i :: 0 <= i < |r.value| ==>
         r.value[i].hash == hashes[|hashes| - 1 - i] && LastSaved(log, r.value[i].hash) == Some(r.value[i])
  }

  /** The recent variant never fails and returns the last `limit` of that history in reverse. */
  lemma RecentHistory(encode: Transaction -> string, log: seq<Transaction>, a: string, limit: nat)
    requires HashesAreNoKeys(log) && NoIntruder(log, a)
    ensures var t := Replay(log); var keys := Scan(t, SenderScanPrefix(a));
      && (forall k :: k in keys ==> k in t)
      && IsNewest(log, Texts(encode, t, keys), limit, Load(t, Newest(Texts(encode, t, keys), limit)))
  {
    var t, keys := Replay(log), Scan(Replay(log), SenderScanPrefix(a));
    HistoryStored(encode, log, a);
    LoadNewest(log, t, Texts(encode, t, keys), limit);
  }

  lemma LoadNewest(log: seq<Transaction>, t: Tree, hashes: seq<string>, limit: nat)
    requires AllStored(log, t, hashes)
    ensures IsNewest(log, hashes, limit, Load(t, Newest(hashes, limit)))
  {
    LoadAll(log, t, Newest(hashes, limit));
  }

  lemma {:induction false} LoadAll(log: seq<Transaction>, t: Tree, hashes: seq<string>)
    requires AllStored(log, t, hashes)
    ensures var r := Load(t, hashes);
      && r.Some? && |r.value| == |hashes|
      && forall i :: 0 <= i < |hashes| ==> r.value[i].hash == hashes[i] && LastSaved(log, hashes[i]) == Some(r.value[i])
    decreases |hashes|
  {
    if hashes != [] {
      LoadAll(log, t, hashes[..|hashes| - 1]);
    }
  }
}
