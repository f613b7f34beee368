/** The transaction pool: three indexes that must agree, and bounded size by lowest-fee eviction. */
module Mempool {
  import opened Prelude
  import opened Types
  import opened Order
  import opened Ledger

  const MAX_MEMPOOL_SIZE: nat := 50_000

  datatype MempoolError =
    | AlreadyExists
    | DuplicateNonce(address: string, nonce: u64)
    | InsufficientFunds(address: string, required: u64, available: u64)
    | InvalidNonce(expected: u64, got: u64)
    | PoolFullFeeTooLow
    | MalformedTransaction(reason: string)

  datatype FeeKey = FeeKey(fee: u64, hash: string)

  /** Fee first, hash second: the order of the fee index. */
  predicate KeyLess(a: FeeKey, b: FeeKey) {
    a.fee < b.fee || (a.fee == b.fee && Less(a.hash, b.hash))
  }

  function KeyOf(tx: Transaction): FeeKey {
    FeeKey(tx.fee, tx.hash)
  }

  function NonceKey(tx: Transaction): (string, u64) {
    (tx.sender, tx.nonce)
  }

  /** The three indexes as one value. */
  datatype Pool = Pool(transactions: map<string, Transaction>, feeIndex: set<FeeKey>, pendingNonces: set<(string, u64)>)

  /* ---------- Agreement of the indexes ---------- */

  function FeeKeys(m: map<string, Transaction>): set<FeeKey> {
    set h | h in m :: KeyOf(m[h])
  }

  function NonceKeys(m: map<string, Transaction>): set<(string, u64)> {
    set h | h in m :: NonceKey(m[h])
  }

  /** Every transaction is stored under its hash, and no two share a sender and nonce. */
  ghost predicate Consistent(m: map<string, Transaction>) {
    && (forall h :: h in m ==> m[h].hash == h)
    && (forall h, h' :: h in m && h' in m && h != h' ==> NonceKey(m[h]) != NonceKey(m[h']))
  }

  /** The indexes hold exactly the keys of the pooled transactions. */
  ghost predicate Agree(p: Pool) {
    && Consistent(p.transactions)
    && p.feeIndex == FeeKeys(p.transactions) && p.pendingNonces == NonceKeys(p.transactions)
  }

  function Inserted(p: Pool, tx: Transaction): Pool {
    Pool(p.transactions[tx.hash := tx], p.feeIndex + {KeyOf(tx)}, p.pendingNonces + {NonceKey(tx)})
  }

  function Removed(p: Pool, hash: string): Pool {
    if hash !in p.transactions then p
    else var tx := p.transactions[hash];
      Pool(p.transactions - {hash}, p.feeIndex - {KeyOf(tx)}, p.pendingNonces - {NonceKey(tx)})
  }

  lemma KeysWith(m: map<string, Transaction>, tx: Transaction)
    requires tx.hash !in m
    ensures FeeKeys(m[tx.hash := tx]) == FeeKeys(m) + {KeyOf(tx)}
    ensures NonceKeys(m[tx.hash := tx]) == NonceKeys(m) + {NonceKey(tx)}
  {
    var m' := m[tx.hash := tx];
    assert m'[tx.hash] == tx;
    forall h | h in m
      ensures KeyOf(m[h]) in FeeKeys(m') && NonceKey(m[h]) in NonceKeys(m')
    {
      assert h in m' && m'[h] == m[h];
    }
  }

  lemma KeysWithout(m: map<string, Transaction>, hash: string)
    requires Consistent(m) && hash in m
    ensures FeeKeys(m - {hash}) == FeeKeys(m) - {KeyOf(m[hash])}
    ensures NonceKeys(m - {hash}) == NonceKeys(m) - {NonceKey(m[hash])}
  {
    var m' := m - {hash};
    forall h | h in m && h != hash
      ensures KeyOf(m[h]) in FeeKeys(m') && NonceKey(m[h]) in NonceKeys(m')
    {
      assert h in m' && m'[h] == m[h];
    }
  }

  lemma InsertedAgrees(p: Pool, tx: Transaction)
    requires Agree(p) && tx.hash !in p.transactions && NonceKey(tx) !in p.pendingNonces
    ensures Agree(Inserted(p, tx))
  {
    KeysWith(p.transactions, tx);
    var m' := p.transactions[tx.hash := tx];
    forall h | h in m' && h != tx.hash
      ensures NonceKey(m'[h]) != NonceKey(tx)
    {
      assert NonceKey(p.transactions[h]) in p.pendingNonces;
    }
  }

  lemma RemovedAgrees(p: Pool, hash: string)
    requires Agree(p)
    ensures Agree(Removed(p, hash))
  {
    if hash in p.transactions {
      KeysWithout(p.transactions, hash);
    }
  }

  lemma RemovedSize(p: Pool, hash: string)
    requires hash in p.transactions
    ensures |Removed(p, hash).transactions| == |p.transactions| - 1
  {
    assert (p.transactions - {hash}).Keys == p.transactions.Keys - {hash};
  }

  lemma InsertedSize(p: Pool, tx: Transaction)
    requires tx.hash !in p.transactions
    ensures |Inserted(p, tx).transactions| == |p.transactions| + 1
  {
    assert p.transactions[tx.hash := tx].Keys == p.transactions.Keys + {tx.hash};
  }

  /** Agreeing indexes have one size. */
  lemma {:induction false} SizesAgree(p: Pool)
    requires Agree(p)
    ensures |p.transactions| == |p.feeIndex| == |p.pendingNonces|
    decreases |p.transactions|
  {
    if p.transactions == map[] {
      assert p.feeIndex == {} && p.pendingNonces == {};
    } else {
      var h :| h in p.transactions;
      RemovedAgrees(p, h);
      RemovedSize(p, h);
      SizesAgree(Removed(p, h));
      assert KeyOf(p.transactions[h]) in p.feeIndex && NonceKey(p.transactions[h]) in p.pendingNonces;
    }
  }

  /* ---------- Ends of the fee index ---------- */

  lemma KeyLessTotal(a: FeeKey, b: FeeKey)
    ensures a == b || KeyLess(a, b) || KeyLess(b, a)
  {
    LessTotal(a.hash, b.hash);
  }

  lemma KeyLessTransitive(a: FeeKey, b: FeeKey, c: FeeKey)
    requires KeyLess(a, b) && KeyLess(b, c)
    ensures KeyLess(a, c)
  {
    if a.fee == b.fee == c.fee {
      LessTransitive(a.hash, b.hash, c.hash);
    }
  }

  lemma KeyLessAsymmetric(a: FeeKey, b: FeeKey)
    requires KeyLess(a, b)
    ensures !KeyLess(b, a) && a != b
  {
    if a.fee == b.fee {
      LessAsymmetric(a.hash, b.hash);
    }
  }

  predicate IsLowest(k: FeeKey, s: set<FeeKey>) {
    k in s && forall j :: j in s ==> j == k || KeyLess(k, j)
  }

  predicate IsHighest(k: FeeKey, s: set<FeeKey>) {
    k in s && forall j :: j in s ==> j == k || KeyLess(j, k)
  }

  lemma {:induction false} EndsExist(s: set<FeeKey>) returns (low: FeeKey, high: FeeKey)
    requires s != {}
    ensures IsLowest(low, s) && IsHighest(high, s)
    decreases |s|
  {
    var x :| x in s;
    low, high := x, x;
    if s != {x} {
      var l, h := EndsExist(s - {x});
      KeyLessTotal(x, l);
      KeyLessTotal(x, h);
      low := if KeyLess(x, l) then x else l;
      high := if KeyLess(h, x) then x else h;
      forall j | j in s
        ensures j == low || KeyLess(low, j)
        ensures j == high || KeyLess(j, high)
      {
        if j != x {
          if KeyLess(x, l) && j != l { KeyLessTransitive(x, l, j); }
          if KeyLess(h, x) && j != h { KeyLessTransitive(j, h, x); }
        }
      }
    }
  }

  function Lowest(s: set<FeeKey>): (k: FeeKey)
    requires s != {}
    ensures IsLowest(k, s)
  {
    assert exists k :: IsLowest(k, s) by { var _, _ := EndsExist(s); }
    assert forall j, k :: IsLowest(j, s) && IsLowest(k, s) ==> j == k by {
      forall j, k | IsLowest(j, s) && IsLowest(k, s) ensures j == k { if j != k { KeyLessAsymmetric(j, k); } }
    }
    var k :| k in s && IsLowest(k, s);
    k
  }

  function Highest(s: set<FeeKey>): (k: FeeKey)
    requires s != {}
    ensures IsHighest(k, s)
  {
    assert exists k :: IsHighest(k, s) by { var _, _ := EndsExist(s); }
    assert forall j, k :: IsHighest(j, s) && IsHighest(k, s) ==> j == k by {
      forall j, k | IsHighest(j, s) && IsHighest(k, s) ensures j == k { if j != k { KeyLessAsymmetric(j, k); } }
    }
    var k :| k in s && IsHighest(k, s);
    k
  }

  /* ---------- Adding ---------- */

  function StructureError(tx: Transaction): Option<MempoolError> {
    if tx.hash == "" then Some(MalformedTransaction("empty hash"))
    else if tx.signature == "" then Some(MalformedTransaction("empty signature"))
    else if tx.sender == "" || tx.receiver == "" then Some(MalformedTransaction("empty sender or receiver"))
    else None
  }

  predicate HasPendingFrom(p: Pool, sender: string) {
    exists n :: n in p.pendingNonces && n.0 == sender
  }

  /** The first check a transaction fails, before the size of the pool is looked at. */
  function Objection(p: Pool, tx: Transaction, db: Accounts): Option<MempoolError> {
    var account := GetOrCreate(db, tx.sender);
    if StructureError(tx).Some? then StructureError(tx)
    else if tx.hash in p.transactions then Some(AlreadyExists)
    else if NonceKey(tx) in p.pendingNonces then Some(DuplicateNonce(tx.sender, tx.nonce))
    else if account.balance < Required(tx) then
      Some(InsufficientFunds(tx.sender, Required(tx), account.balance))
    else if !HasPendingFrom(p, tx.sender) && tx.nonce != account.nonce then
      Some(InvalidNonce(account.nonce, tx.nonce))
    else None
  }

  /** A full pool makes room by giving up its lowest entry to a strictly higher fee. */
  function RoomFor(p: Pool, fee: u64): (Pool, Result<Unit, MempoolError>) {
    if p.feeIndex == {} then (p, Success(Unit))
    else if fee <= Lowest(p.feeIndex).fee then (p, Failure(PoolFullFeeTooLow))
    else (Removed(p, Lowest(p.feeIndex).hash), Success(Unit))
  }

  function Added(p: Pool, tx: Transaction, db: Accounts): (Pool, Result<Unit, MempoolError>) {
    var objection := Objection(p, tx, db);
    if objection.Some? then (p, Failure(objection.value))
    else
      var (roomy, room) := if |p.transactions| >= MAX_MEMPOOL_SIZE then RoomFor(p, tx.fee) else (p, Success(Unit));
      if room.Failure? then (p, room) else (Inserted(roomy, tx), Success(Unit))
  }

  /** What a pool asks of a newcomer, in terms of the pooled transactions alone. */
  ghost predicate Welcome(p: Pool, tx: Transaction, db: Accounts) {
    var m := p.transactions;
    && tx.hash != "" && tx.signature != "" && tx.sender != "" && tx.receiver != ""
    && (forall h :: h in m ==> h != tx.hash && NonceKey(m[h]) != NonceKey(tx))
    && Required(tx) <= BalanceOf(db, tx.sender)
    && (tx.nonce == NonceOf(db, tx.sender) || exists h :: h in m && m[h].sender == tx.sender)
    && (|m| < MAX_MEMPOOL_SIZE || exists h :: h in m && m[h].fee < tx.fee)
  }

  lemma PendingFromPool(p: Pool, tx: Transaction)
    requires Agree(p)
    ensures NonceKey(tx) in p.pendingNonces <==> exists h :: h in p.transactions && NonceKey(p.transactions[h]) == NonceKey(tx)
    ensures HasPendingFrom(p, tx.sender) <==> exists h :: h in p.transactions && p.transactions[h].sender == tx.sender
  {
    if h :| h in p.transactions && p.transactions[h].sender == tx.sender {
      assert NonceKey(p.transactions[h]) in p.pendingNonces;
    }
  }

  lemma ObjectionMeaning(p: Pool, tx: Transaction, db: Accounts)
    requires Agree(p)
    ensures Welcome(p, tx, db) <==>
      && Objection(p, tx, db).None?
      && (|p.transactions| < MAX_MEMPOOL_SIZE || exists h :: h in p.transactions && p.transactions[h].fee < tx.fee)
  {
    PendingFromPool(p, tx);
  }

  /** A submission succeeds exactly when the transaction is welcome; a refused one changes nothing;
      an accepted one is added, in place of an entry that paid least if the pool was full. */
  lemma AddedMeaning(p: Pool, tx: Transaction, db: Accounts)
    requires Agree(p)
    ensures var (q, r) := Added(p, tx, db); var m := p.transactions;
      && (r.Success? <==> Welcome(p, tx, db))
      && (r.Failure? ==> q == p)
      && (r.Success? && |m| < MAX_MEMPOOL_SIZE ==> q.transactions == m[tx.hash := tx])
      && (r.Success? && |m| >= MAX_MEMPOOL_SIZE ==>
            exists h :: h in m && AllAtLeast(p, m[h].fee) && q.transactions == (m - {h})[tx.hash := tx])
  {
    ObjectionMeaning(p, tx, db);
    if |p.transactions| >= MAX_MEMPOOL_SIZE {
      assert p.transactions != map[] by {
        assert |p.transactions| > 0;
      }
      LowestPaysLeast(p);
    }
  }

  /** The reason given for a refusal is true of the pool and the account. */
  ghost predicate TrueReason(p: Pool, tx: Transaction, db: Accounts, e: MempoolError) {
    var m, a := p.transactions, tx.sender;
    match e
    case MalformedTransaction(_) => tx.hash == "" || tx.signature == "" || tx.sender == "" || tx.receiver == ""
    case AlreadyExists => tx.hash in m
    case DuplicateNonce(address, nonce) =>
      address == a && nonce == tx.nonce && exists h :: h in m && m[h].sender == a && m[h].nonce == nonce
    case InsufficientFunds(address, required, available) =>
      address == a && required == Required(tx) && available == BalanceOf(db, a) && available < required
    case InvalidNonce(expected, got) =>
      expected == NonceOf(db, a) && got == tx.nonce && expected != got && forall h :: h in m ==> m[h].sender != a
    case PoolFullFeeTooLow => |m| >= MAX_MEMPOOL_SIZE && AllAtLeast(p, tx.fee)
  }

  lemma RefusalReason(p: Pool, tx: Transaction, db: Accounts)
    requires Agree(p) && Added(p, tx, db).1.Failure?
    ensures TrueReason(p, tx, db, Added(p, tx, db).1.error)
  {
    PendingFromPool(p, tx);
    if |p.transactions| >= MAX_MEMPOOL_SIZE {
      assert p.transactions != map[] by {
        assert |p.transactions| > 0;
      }
      LowestPaysLeast(p);
    }
  }

  function Elements(hashes: seq<string>): set<string> {
    set h | h in hashes
  }

  /* ---------- The pool object ---------- */

  class MempoolObject {
    var transactions: map<string, Transaction>
    var feeIndex: set<FeeKey>
    var pendingNonces: set<(string, u64)>

    function View(): Pool
      reads this
    {
      Pool(transactions, feeIndex, pendingNonces)
    }

    ghost predicate Valid()
      reads this
    {
      Agree(View())
    }

    constructor ()
      ensures Valid() && View() == Pool(map[], {}, {})
    {
      transactions, feeIndex, pendingNonces := map[], {}, {};
    }

    /** A failure leaves every index as it was. */
    method AddTransaction(tx: Transaction, db: Accounts) returns (r: Result<Unit, MempoolError>)
      requires Valid()
      modifies this
      ensures Valid()
      ensures (View(), r) == Added(old(View()), tx, db)
      ensures r.Failure? ==> View() == old(View())
    {
      var malformed := StructureError(tx);
      if malformed.Some? {
        return Failure(malformed.value);
      }
      if tx.hash in transactions {
        return Failure(AlreadyExists);
      }
      if (tx.sender, tx.nonce) in pendingNonces {
        return Failure(DuplicateNonce(tx.sender, tx.nonce));
      }
      var account := GetOrCreate(db, tx.sender);
      var required := Required(tx);
      if account.balance < required {
        return Failure(InsufficientFunds(tx.sender, required, account.balance));
      }
      var hasOtherPending := exists n :: n in pendingNonces && n.0 == tx.sender;
      if !hasOtherPending && tx.nonce != account.nonce {
        return Failure(InvalidNonce(account.nonce, tx.nonce));
      }
      if |transactions| >= MAX_MEMPOOL_SIZE {
        r := EvictFor(tx.fee);
        if r.Failure? {
          return;
        }
      }
      Insert(tx);
      r := Success(Unit);
    }

    method Insert(tx: Transaction)
      requires Valid() && tx.hash !in transactions && (tx.sender, tx.nonce) !in pendingNonces
      modifies this
      ensures Valid() && View() == Inserted(old(View()), tx)
    {
      InsertedAgrees(View(), tx);
      pendingNonces := pendingNonces + {(tx.sender, tx.nonce)};
      feeIndex := feeIndex + {FeeKey(tx.fee, tx.hash)};
      transactions := transactions[tx.hash := tx];
    }

    method EvictFor(incomingFee: u64) returns (r: Result<Unit, MempoolError>)
      requires Valid()
      modifies this
      ensures Valid()
      ensures (View(), r) == RoomFor(old(View()), incomingFee)
    {
      if feeIndex == {} {
        return Success(Unit);
      }
      var lowest := Lowest(feeIndex);
      if incomingFee <= lowest.fee {
        return Failure(PoolFullFeeTooLow);
      }
      var _ := Remove(lowest.hash);
      r := Success(Unit);
    }

    method Remove(hash: string) returns (removed: Option<Transaction>)
      requires Valid()
      modifies this
      ensures Valid() && View() == Removed(old(View()), hash)
      ensures removed == if hash in old(transactions) then Some(old(transactions)[hash]) else None
    {
      RemovedAgrees(View(), hash);
      if hash !in transactions {
        return None;
      }
      var tx := transactions[hash];
      transactions := transactions - {hash};
      feeIndex := feeIndex - {FeeKey(tx.fee, tx.hash)};
      pendingNonces := pendingNonces - {(tx.sender, tx.nonce)};
      removed := Some(tx);
    }

    method RemoveBatch(hashes: seq<string>)
      requires Valid()
      modifies this
      ensures Valid()
      ensures transactions == old(transactions) - Elements(hashes)
    {
      for i := 0 to |hashes|
        invariant Valid()
        invariant transactions == old(transactions) - Elements(hashes[..i])
      {
        var _ := Remove(hashes[i]);
        assert hashes[..i + 1] == hashes[..i] + [hashes[i]];
        assert Elements(hashes[..i + 1]) == Elements(hashes[..i]) + {hashes[i]};
      }
      assert hashes[..|hashes|] == hashes;
    }

    /** The fee index read backwards, cut off after `limit` keys. */
    method HighestKeys(limit: nat) returns (keys: seq<FeeKey>)
      ensures |keys| == if limit < |feeIndex| then limit else |feeIndex|
      ensures IsTop(keys, feeIndex)
    {
      keys := [];
      var rest := feeIndex;
      while |keys| < limit && rest != {}
        invariant rest <= feeIndex && |keys| <= limit && |keys| + |rest| == |feeIndex|
        invariant IsTop(keys, feeIndex)
        invariant forall k :: k in rest <==> k in feeIndex && k !in keys
        decreases |rest|
      {
        var key := Highest(rest);
        rest := rest - {key};
        keys := keys + [key];
      }
    }

    /** The `limit` highest entries in descending order of fee, then hash: everything left out is
        smaller than everything returned. */
    method TopByFee(limit: nat) returns (top: seq<Transaction>)
      requires Valid()
      ensures |top| == if limit < |transactions| then limit else |transactions|
      ensures forall i :: 0 <= i < |top| ==> top[i].hash in transactions && transactions[top[i].hash] == top[i]
      ensures IsTop(seq(|top|, i requires 0 <= i < |top| => KeyOf(top[i])), FeeKeys(transactions))
    {
      SizesAgree(View());
      var keys := HighestKeys(limit);
      top := [];
      for n := 0 to |keys|
        invariant |top| == n
        invariant forall i :: 0 <= i < n ==> keys[i].hash in transactions && top[i] == transactions[keys[i].hash]
        invariant forall i :: 0 <= i < n ==> KeyOf(top[i]) == keys[i]
      {
        assert keys[n] in feeIndex;
        if keys[n].hash in transactions {
          top := top + [transactions[keys[n].hash]];
        }
      }
      assert seq(|top|, i requires 0 <= i < |top| => KeyOf(top[i])) == keys;
    }
  }

  /** `keys` are the highest of `s` in descending order. */
  ghost predicate IsTop(keys: seq<FeeKey>, s: set<FeeKey>) {
    && (forall k :: k in keys ==> k in s)
    && (forall i, j :: 0 <= i < j < |keys| ==> KeyLess(keys[j], keys[i]))
    && (forall k, i :: k in s && k !in keys && 0 <= i < |keys| ==> KeyLess(k, keys[i]))
  }

  /* ---------- Streaming eviction over whole runs ---------- */

  /** One submission: a transaction and the account state it is checked against. */
  datatype Submission = Submission(tx: Transaction, db: Accounts)

  /** What a submission turned away for its fee: the evicted entry, or the transaction itself. */
  function Shed(p: Pool, s: Submission): seq<Transaction> {
    var (q, r) := Added(p, s.tx, s.db);
    if r == Failure(PoolFullFeeTooLow) then [s.tx]
    else if r.Success? && |p.transactions| >= MAX_MEMPOOL_SIZE && p.feeIndex != {}
            && Lowest(p.feeIndex).hash in p.transactions then [p.transactions[Lowest(p.feeIndex).hash]]
    else []
  }

  ghost function After(p: Pool, run: seq<Submission>): Pool {
    if run == [] then p else var q := After(p, run[..|run| - 1]); Added(q, run[|run| - 1].tx, run[|run| - 1].db).0
  }

  ghost function ShedBy(p: Pool, run: seq<Submission>): seq<Transaction> {
    if run == [] then []
    else ShedBy(p, run[..|run| - 1]) + Shed(After(p, run[..|run| - 1]), run[|run| - 1])
  }

  ghost predicate AllAtLeast(p: Pool, fee: nat) {
    forall h :: h in p.transactions ==> fee <= p.transactions[h].fee
  }

  /** The entry a full pool would give up is real and pays no more than any other. */
  lemma LowestPaysLeast(p: Pool)
    requires Agree(p) && p.transactions != map[]
    ensures p.feeIndex != {}
    ensures var low := Lowest(p.feeIndex);
      && low.hash in p.transactions && p.transactions[low.hash].fee == low.fee
      && AllAtLeast(p, low.fee)
  {
    var x :| x in p.transactions;
    assert KeyOf(p.transactions[x]) in p.feeIndex;
    var low := Lowest(p.feeIndex);
    var l :| l in p.transactions && KeyOf(p.transactions[l]) == low;
    forall h | h in p.transactions
      ensures low.fee <= p.transactions[h].fee
    {
      assert KeyOf(p.transactions[h]) in p.feeIndex;
    }
  }

  /** What happens to a submission when the pool is full. */
  lemma AddedToFullCases(p: Pool, s: Submission)
    requires Agree(p) && |p.transactions| == MAX_MEMPOOL_SIZE
    ensures p.feeIndex != {}
    ensures var low := Lowest(p.feeIndex); var q := Added(p, s.tx, s.db).0;
      && low.hash in p.transactions && p.transactions[low.hash].fee == low.fee && AllAtLeast(p, low.fee)
      && if Objection(p, s.tx, s.db).Some? then q == p && Shed(p, s) == []
         else if s.tx.fee <= low.fee then q == p && Shed(p, s) == [s.tx]
         else q == Inserted(Removed(p, low.hash), s.tx) && Shed(p, s) == [p.transactions[low.hash]]
              && s.tx.hash !in p.transactions && NonceKey(s.tx) !in p.pendingNonces
  {
    assert p.transactions != map[] by {
      assert |p.transactions| > 0;
    }
    LowestPaysLeast(p);
  }

  /** One submission to a full pool keeps it full, only lifts its fees, and turns away nothing that
      pays more than what stays. */
  lemma AddedToFull(p: Pool, s: Submission, floor: nat)
    requires Agree(p) && |p.transactions| == MAX_MEMPOOL_SIZE && AllAtLeast(p, floor)
    ensures var q := Added(p, s.tx, s.db).0;
      && Agree(q) && |q.transactions| == MAX_MEMPOOL_SIZE && AllAtLeast(q, floor)
      && forall t :: t in Shed(p, s) ==> AllAtLeast(q, t.fee)
  {
    AddedToFullCases(p, s);
    var low := Lowest(p.feeIndex);
    if Objection(p, s.tx, s.db).None? && s.tx.fee > low.fee {
      RemovedAgrees(p, low.hash);
      RemovedSize(p, low.hash);
      InsertedAgrees(Removed(p, low.hash), s.tx);
      InsertedSize(Removed(p, low.hash), s.tx);
    }
  }

  lemma AddedAgrees(p: Pool, s: Submission)
    requires Agree(p) && |p.transactions| < MAX_MEMPOOL_SIZE
    ensures var q := Added(p, s.tx, s.db).0;
      Agree(q) && |q.transactions| <= MAX_MEMPOOL_SIZE && Shed(p, s) == []
  {
    if Objection(p, s.tx, s.db).None? {
      InsertedAgrees(p, s.tx);
      InsertedSize(p, s.tx);
    }
  }

  /** Over any run of submissions the pool stays within its bound, its indexes agree, and every
      transaction evicted or refused for its fee paid no more than each one that is left. Something
      was shed only if the pool is full, and then it stays full. */
  lemma {:induction false} StreamingEviction(p: Pool, run: seq<Submission>)
    requires Agree(p) && |p.transactions| <= MAX_MEMPOOL_SIZE
    ensures var q := After(p, run);
      && Agree(q) && |q.transactions| <= MAX_MEMPOOL_SIZE == 50_000
      && (ShedBy(p, run) != [] ==> |q.transactions| == MAX_MEMPOOL_SIZE)
      && forall t :: t in ShedBy(p, run) ==> AllAtLeast(q, t.fee)
    decreases |run|
  {
    if run != [] {
      var init, last := run[..|run| - 1], run[|run| - 1];
      StreamingEviction(p, init);
      var q := After(p, init);
      if |q.transactions| == MAX_MEMPOOL_SIZE {
        forall t | t in ShedBy(p, run)
          ensures AllAtLeast(After(p, run), t.fee)
        {
          AddedToFull(q, last, if t in ShedBy(p, init) then t.fee else 0);
        }
        AddedToFull(q, last, 0);
      } else {
        AddedAgrees(q, last);
      }
    }
  }

  /** Once full, a pool only submitted to stays full and its lowest fee never falls. */
  lemma {:induction false} FullPoolFloorRises(p: Pool, run: seq<Submission>, floor: nat)
    requires Agree(p) && |p.transactions| == MAX_MEMPOOL_SIZE && AllAtLeast(p, floor)
    ensures |After(p, run).transactions| == MAX_MEMPOOL_SIZE && AllAtLeast(After(p, run), floor)
    decreases |run|
  {
    if run != [] {
      var init := run[..|run| - 1];
      FullPoolFloorRises(p, init, floor);
      StreamingEviction(p, init);
      AddedToFull(After(p, init), run[|run| - 1], floor);
    }
  }

  /* ---------- Nothing vanishes ---------- */

  /** The transactions a run of submissions let in. */
  ghost function Admitted(p: Pool, run: seq<Submission>): seq<Transaction> {
    if run == [] then []
    else
      var init, last := run[..|run| - 1], run[|run| - 1];
      Admitted(p, init) + if Added(After(p, init), last.tx, last.db).1.Success? then [last.tx] else []
  }

  predicate Pooled(p: Pool, tx: Transaction) {
    tx.hash in p.transactions && p.transactions[tx.hash] == tx
  }

  /** One submission: what was pooled is still there or was shed, and what was let in is there. */
  lemma AddedKeeps(p: Pool, s: Submission)
    requires Agree(p)
    ensures var (q, r) := Added(p, s.tx, s.db);
      && (r.Success? ==> Pooled(q, s.tx))
      && forall t :: Pooled(p, t) ==> Pooled(q, t) || t in Shed(p, s)
  {
    if |p.transactions| >= MAX_MEMPOOL_SIZE {
      assert p.transactions != map[] by {
        assert |p.transactions| > 0;
      }
      LowestPaysLeast(p);
    }
  }

  lemma AddedAlwaysAgrees(p: Pool, s: Submission)
    requires Agree(p)
    ensures Agree(Added(p, s.tx, s.db).0)
  {
    var (q, r) := Added(p, s.tx, s.db);
    if r.Success? {
      var roomy := if |p.transactions| >= MAX_MEMPOOL_SIZE then RoomFor(p, s.tx.fee).0 else p;
      if p.feeIndex != {} {
        RemovedAgrees(p, Lowest(p.feeIndex).hash);
      }
      InsertedAgrees(roomy, s.tx);
    }
  }

  /** Over any run of submissions whatever was pooled before it or let in by it is in the pool at the
      end or among what was shed. */
  lemma {:induction false} NothingVanishes(p: Pool, run: seq<Submission>)
    requires Agree(p)
    ensures Agree(After(p, run))
    ensures forall t :: Pooled(p, t) || t in Admitted(p, run) ==> Pooled(After(p, run), t) || t in ShedBy(p, run)
    decreases |run|
  {
    if run != [] {
      var init, last := run[..|run| - 1], run[|run| - 1];
      NothingVanishes(p, init);
      AddedKeeps(After(p, init), last);
      AddedAlwaysAgrees(After(p, init), last);
    }
  }
}
