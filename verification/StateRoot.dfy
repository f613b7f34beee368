/** The state root: the hash of the sorted hashes of all accounts. */
module StateRoot {
  import opened Prelude
  import opened Order
  import opened Json
  import opened Ledger
  import opened Snapshots

  function Hashes(H: string -> Digest, m: Accounts, keys: seq<string>): seq<Digest>
    requires forall k :: k in keys ==> k in m
  {
    seq<Digest>(|keys|, i requires 0 <= i < |keys| => H(Leaf(m[keys[i]])))
  }

  lemma HashesNext(H: string -> Digest, m: Accounts, keys: seq<string>, i: nat)
    requires i < |keys| && forall k :: k in keys ==> k in m
    ensures keys[i] in m && Hashes(H, m, keys)[..i + 1] == Hashes(H, m, keys)[..i] + [H(Leaf(m[keys[i]]))]
  {
  }

  function Insert(x: Digest, s: seq<Digest>): seq<Digest> {
    if s == [] || !Less(s[0], x) then [x] + s else [s[0]] + Insert(x, s[1..])
  }

  function SortDigests(s: seq<Digest>): seq<Digest> {
    if s == [] then [] else Insert(s[0], SortDigests(s[1..]))
  }

  function Join(s: seq<Digest>): string {
    if s == [] then "" else s[0] + Join(s[1..])
  }

  /** The string whose hash is the root. */
  function RootInput(H: string -> Digest, m: Accounts, keys: seq<string>): string
    requires forall k :: k in keys ==> k in m
  {
    if keys == [] then EMPTY_STATE else Join(SortDigests(Hashes(H, m, keys)))
  }

  function Root(H: string -> Digest, m: Accounts): Digest {
    H(RootInput(H, m, Sorted(m.Keys)))
  }

  /* ---------- The root does not depend on the scan order ---------- */

  lemma {:induction false} InsertCommutes(x: Digest, y: Digest, s: seq<Digest>)
    ensures Insert(x, Insert(y, s)) == Insert(y, Insert(x, s))
  {
    LessTotal(x, y);
    if x != y {
      if Less(x, y) {
        InsertCommutesOrdered(x, y, s);
      } else {
        InsertCommutesOrdered(y, x, s);
      }
    }
  }

  lemma {:induction false} InsertCommutesOrdered(x: Digest, y: Digest, s: seq<Digest>)
    requires Less(x, y)
    ensures Insert(x, Insert(y, s)) == Insert(y, Insert(x, s))
  {
    LessAsymmetric(x, y);
    if s == [] {
      assert [y] + [] == [y] && ([x] + [y])[1..] == [y];
    } else {
      var h, t := s[0], s[1..];
      if Less(h, x) {
        LessTransitive(h, x, y);
        InsertCommutesOrdered(x, y, t);
        assert ([h] + Insert(x, t))[1..] == Insert(x, t);
        assert ([h] + Insert(y, t))[1..] == Insert(y, t);
      } else if Less(h, y) {
        assert ([h] + Insert(y, t))[0] == h;
        assert ([x] + s)[1..] == s;
      } else {
        assert ([y] + s)[0] == y;
        assert ([x] + s)[1..] == s;
      }
    }
  }

  /** An element may be sorted in from any position. */
  lemma {:induction false} SortFrom(a: seq<Digest>, x: Digest, b: seq<Digest>)
    ensures SortDigests(a + [x] + b) == Insert(x, SortDigests(a + b))
  {
    if a == [] {
      assert [] + [x] + b == [x] + b && [] + b == b && ([x] + b)[1..] == b;
    } else {
      var h, t := a[0], a[1..];
      assert (a + [x] + b)[1..] == t + [x] + b && (a + b)[1..] == t + b;
      SortFrom(t, x, b);
      InsertCommutes(h, x, SortDigests(t + b));
    }
  }

  ghost predicate Lists(keys: seq<string>, s: set<string>) {
    && (forall k :: k in keys <==> k in s)
    && forall i, j :: 0 <= i < j < |keys| ==> keys[i] != keys[j]
  }

  lemma {:induction false} ListingLength(keys: seq<string>, s: set<string>)
    requires Lists(keys, s)
    ensures |keys| == |s|
    decreases |keys|
  {
    if keys == [] {
      assert s == {};
    } else {
      assert keys[0] in keys;
      RemoveListed(keys, 0, s);
      assert keys[..0] + keys[1..] == keys[1..];
      ListingLength(keys[1..], s - {keys[0]});
    }
  }

  /** Any two listings of the same keys give the same sorted hashes. */
  lemma {:induction false} SortIgnoresOrder(H: string -> Digest, m: Accounts, keys: seq<string>, keys': seq<string>, s: set<string>)
    requires Lists(keys, s) && Lists(keys', s) && s <= m.Keys
    ensures SortDigests(Hashes(H, m, keys)) == SortDigests(Hashes(H, m, keys'))
    decreases |keys|
  {
    ListingLength(keys, s);
    ListingLength(keys', s);
    if keys != [] {
      var k := keys[0];
      assert k in keys && k in keys';
      var i :| 0 <= i < |keys'| && keys'[i] == k;
      var a, b := keys'[..i], keys'[i + 1..];
      RemoveListed(keys', i, s);
      RemoveListed(keys, 0, s);
      assert keys[..0] + keys[1..] == keys[1..];
      SortIgnoresOrder(H, m, keys[1..], a + b, s - {k});
      SortFirst(H, m, keys);
      SortWithout(H, m, keys', i);
    }
  }

  lemma SortFirst(H: string -> Digest, m: Accounts, keys: seq<string>)
    requires keys != [] && forall k :: k in keys ==> k in m
    ensures SortDigests(Hashes(H, m, keys)) == Insert(H(Leaf(m[keys[0]])), SortDigests(Hashes(H, m, keys[1..])))
  {
    assert Hashes(H, m, keys)[1..] == Hashes(H, m, keys[1..]);
  }

  /** Taking one key out of a listing takes its hash out of the sorted hashes. */
  lemma SortWithout(H: string -> Digest, m: Accounts, keys: seq<string>, i: nat)
    requires i < |keys| && forall k :: k in keys ==> k in m
    ensures forall k :: k in keys[..i] + keys[i + 1..] ==> k in m
    ensures SortDigests(Hashes(H, m, keys))
         == Insert(H(Leaf(m[keys[i]])), SortDigests(Hashes(H, m, keys[..i] + keys[i + 1..])))
  {
    var a, b := keys[..i], keys[i + 1..];
    var x := H(Leaf(m[keys[i]]));
    assert Hashes(H, m, keys) == Hashes(H, m, a) + [x] + Hashes(H, m, b);
    assert Hashes(H, m, a + b) == Hashes(H, m, a) + Hashes(H, m, b);
    SortFrom(Hashes(H, m, a), x, Hashes(H, m, b));
  }

  lemma RemoveListed(keys: seq<string>, i: nat, s: set<string>)
    requires i < |keys| && Lists(keys, s)
    ensures Lists(keys[..i] + keys[i + 1..], s - {keys[i]})
  {
    var rest := keys[..i] + keys[i + 1..];
    forall k
      ensures k in rest <==> k in s - {keys[i]}
    {
      if k in s && k != keys[i] {
        assert k in keys;
        var j :| 0 <= j < |keys| && keys[j] == k;
        assert rest[if j < i then j else j - 1] == k;
      }
    }
  }

  lemma SortedLists(s: set<string>)
    ensures Lists(Sorted(s), s)
  {
    SortedAscending(s);
    AscendingDistinct(Sorted(s));
  }

  /** The root is a function of the account map alone: scanning it in any order gives the same root. */
  lemma RootCanonical(H: string -> Digest, m: Accounts, keys: seq<string>)
    requires Lists(keys, m.Keys)
    ensures H(RootInput(H, m, keys)) == Root(H, m)
  {
    SortedLists(m.Keys);
    SortIgnoresOrder(H, m, keys, Sorted(m.Keys), m.Keys);
    if keys == [] {
      assert m.Keys == {};
    } else {
      assert keys[0] in keys;
    }
  }

  /** No digest is followed by a smaller one. */
  ghost predicate NonDescending(s: seq<Digest>) {
    forall i, j :: 0 <= i < j < |s| ==> !Less(s[j], s[i])
  }

  lemma {:induction false} InsertBag(x: Digest, s: seq<Digest>)
    ensures multiset(Insert(x, s)) == multiset(s) + multiset{x}
  {
    if s != [] && Less(s[0], x) {
      InsertBag(x, s[1..]);
      assert s == [s[0]] + s[1..];
    }
  }

  lemma NoneBelowFirst(x: Digest, s: seq<Digest>, i: nat)
    requires NonDescending(s) && i < |s| && !Less(s[0], x)
    ensures !Less(s[i], x)
  {
    LessTotal(s[0], x);
    if Less(s[i], x) && x != s[0] {
      LessTransitive(s[i], x, s[0]);
    }
  }

  lemma Prepended(x: Digest, s: seq<Digest>)
    requires NonDescending(s) && forall i :: 0 <= i < |s| ==> !Less(s[i], x)
    ensures NonDescending([x] + s)
  {
    forall i, j | 0 <= i < j < |[x] + s|
      ensures !Less(([x] + s)[j], ([x] + s)[i])
    {
      assert ([x] + s)[j] == s[j - 1];
    }
  }

  lemma {:induction false} InsertOrdered(x: Digest, s: seq<Digest>)
    requires NonDescending(s)
    ensures NonDescending(Insert(x, s))
  {
    if s != [] && Less(s[0], x) {
      var rest := Insert(x, s[1..]);
      InsertOrdered(x, s[1..]);
      forall i | 0 <= i < |rest|
        ensures !Less(rest[i], s[0])
      {
        InsertContains(x, s[1..], rest[i]);
        LessAsymmetric(s[0], x);
      }
      Prepended(s[0], rest);
    } else {
      forall i | 0 <= i < |s|
        ensures !Less(s[i], x)
      {
        NoneBelowFirst(x, s, i);
      }
      Prepended(x, s);
    }
  }

  /** The specification sort sorts: its result is in order and has the same digests, as often. */
  lemma {:induction false} SortSorts(s: seq<Digest>)
    ensures NonDescending(SortDigests(s)) && multiset(SortDigests(s)) == multiset(s)
  {
    if s != [] {
      SortSorts(s[1..]);
      InsertOrdered(s[0], SortDigests(s[1..]));
      InsertBag(s[0], SortDigests(s[1..]));
      assert s == [s[0]] + s[1..];
    }
  }

  /* ---------- The root commits to the account map ---------- */

  lemma {:induction false} JoinInjective(s: seq<Digest>, t: seq<Digest>)
    requires Join(s) == Join(t)
    ensures s == t
  {
    JoinLength(s);
    JoinLength(t);
    if s != [] {
      assert s[0] == Join(s)[..64] == Join(t)[..64] == t[0];
      assert Join(s[1..]) == Join(s)[64..] == Join(t)[64..] == Join(t[1..]);
      JoinInjective(s[1..], t[1..]);
      assert s == [s[0]] + s[1..] && t == [t[0]] + t[1..];
    }
  }

  /** The digests are joined in their order. */
  lemma {:induction false} JoinAt(s: seq<Digest>, i: nat)
    requires i < |s|
    ensures |Join(s)| == 64 * |s| && Join(s)[64 * i..64 * i + 64] == s[i]
  {
    JoinLength(s);
    JoinLength(s[1..]);
    if i > 0 {
      JoinAt(s[1..], i - 1);
      assert Join(s)[64 * i..64 * i + 64] == Join(s[1..])[64 * (i - 1)..64 * (i - 1) + 64];
    }
  }

  /** What a snapshot records for a missing root is the root of no accounts. */
  lemma EmptyStateRoot(H: string -> Digest, s: State)
    requires s.stateRoot == None
    ensures CurrentRoot(H, s) == Root(H, map[]) == H("kyvera-empty-state")
  {
  }

  lemma {:induction false} JoinLength(s: seq<Digest>)
    ensures |Join(s)| == 64 * |s|
  {
    if s != [] {
      JoinLength(s[1..]);
    }
  }

  lemma {:induction false} InsertContains(x: Digest, s: seq<Digest>, y: Digest)
    ensures y in Insert(x, s) <==> y == x || y in s
  {
    if s != [] && Less(s[0], x) {
      InsertContains(x, s[1..], y);
      assert s == [s[0]] + s[1..];
    }
  }

  lemma {:induction false} SortContains(s: seq<Digest>, y: Digest)
    ensures y in SortDigests(s) <==> y in s
  {
    if s != [] {
      InsertContains(s[0], SortDigests(s[1..]), y);
      SortContains(s[1..], y);
      assert s == [s[0]] + s[1..];
    }
  }

  lemma {:induction false} SortLength(s: seq<Digest>)
    ensures |SortDigests(s)| == |s|
  {
    if s != [] {
      SortLength(s[1..]);
      InsertLength(s[0], SortDigests(s[1..]));
    }
  }

  lemma {:induction false} InsertLength(x: Digest, s: seq<Digest>)
    ensures |Insert(x, s)| == |s| + 1
  {
    if s != [] && Less(s[0], x) {
      InsertLength(x, s[1..]);
    }
  }

  /** Everything hashed while computing the root of `m`. */
  ghost predicate HashedFor(H: string -> Digest, m: Accounts, x: string) {
    x == RootInput(H, m, Sorted(m.Keys)) || exists a :: a in m && x == Leaf(m[a])
  }

  /** An account of `m` that `m'` does not hold as it is. */
  ghost predicate Differs(m: Accounts, m': Accounts, a: string) {
    a in m && (a !in m' || m'[a] != m[a])
  }

  /** If the hash inputs of the roots agree, an account that differs leads to a collision. */
  lemma AccountCollision(H: string -> Digest, m: Accounts, m': Accounts, a: string) returns (c: Collision)
    requires Keyed(m) && Keyed(m') && Differs(m, m', a)
    requires RootInput(H, m, Sorted(m.Keys)) == RootInput(H, m', Sorted(m'.Keys))
    ensures Collides(H, c) && HashedFor(H, m, c.x) && HashedFor(H, m', c.y)
  {
    var keys, keys' := Sorted(m.Keys), Sorted(m'.Keys);
    var hs, hs' := Hashes(H, m, keys), Hashes(H, m', keys');
    SortLength(hs);
    SortLength(hs');
    JoinLength(SortDigests(hs));
    JoinLength(SortDigests(hs'));
    assert keys != [] && keys' != [];
    JoinInjective(SortDigests(hs), SortDigests(hs'));
    assert a in keys;
    var i :| 0 <= i < |keys| && keys[i] == a;
    var h := hs[i];
    assert h in hs;
    SortContains(hs, h);
    SortContains(hs', h);
    var j :| 0 <= j < |hs'| && hs'[j] == h;
    assert keys'[j] in keys';
    LeafInjective(m[a], m'[keys'[j]]);
    c := Collision(Leaf(m[a]), Leaf(m'[keys'[j]]));
  }

  /** Two account maps with one root are equal, or two different strings hashed on the way to the
      two roots collide; the proof names them. */
  lemma RootCommits(H: string -> Digest, m: Accounts, m': Accounts) returns (c: Option<Collision>)
    requires Keyed(m) && Keyed(m') && Root(H, m) == Root(H, m')
    ensures c.None? ==> m == m'
    ensures c.Some? ==> Collides(H, c.value) && HashedFor(H, m, c.value.x) && HashedFor(H, m', c.value.y)
  {
    var x, y := RootInput(H, m, Sorted(m.Keys)), RootInput(H, m', Sorted(m'.Keys));
    if x != y {
      c := Some(Collision(x, y));
    } else if a :| Differs(m, m', a) {
      var d := AccountCollision(H, m, m', a);
      c := Some(d);
    } else if a :| Differs(m', m, a) {
      var d := AccountCollision(H, m', m, a);
      c := Some(Collision(d.y, d.x));
    } else {
      SameAccounts(m, m');
      c := None;
    }
  }

  lemma SameAccounts(m: Accounts, m': Accounts)
    requires forall a :: !Differs(m, m', a)
    requires forall a :: !Differs(m', m, a)
    ensures m == m'
  {
    forall a
      ensures a in m <==> a in m'
      ensures a in m ==> m[a] == m'[a]
    {
      assert !Differs(m, m', a) && !Differs(m', m, a);
    }
  }
}
