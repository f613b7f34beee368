/** Byte-wise key order: the order in which the database scans a tree. */
module Order {

  predicate Less(a: string, b: string) {
    if b == "" then false
    else if a == "" then true
    else if a[0] != b[0] then a[0] < b[0]
    else Less(a[1..], b[1..])
  }

  lemma {:induction false} LessIrreflexive(a: string)
    ensures !Less(a, a)
  {
    if a != "" {
      LessIrreflexive(a[1..]);
    }
  }

  lemma {:induction false} LessTransitive(a: string, b: string, c: string)
    requires Less(a, b) && Less(b, c)
    ensures Less(a, c)
  {
    if a != "" && a[0] == b[0] == c[0] {
      LessTransitive(a[1..], b[1..], c[1..]);
    }
  }

  lemma {:induction false} LessTotal(a: string, b: string)
    ensures a == b || Less(a, b) || Less(b, a)
  {
    if a != "" && b != "" && a[0] == b[0] {
      LessTotal(a[1..], b[1..]);
      assert a == [a[0]] + a[1..] && b == [b[0]] + b[1..];
    }
  }

  lemma LessAsymmetric(a: string, b: string)
    requires Less(a, b)
    ensures !Less(b, a) && a != b
  {
    LessIrreflexive(a);
    if Less(b, a) {
      LessTransitive(a, b, a);
    }
  }

  predicate IsLeast(k: string, s: set<string>) {
    k in s && forall j :: j in s ==> j == k || Less(k, j)
  }

  lemma {:induction false} LeastExists(s: set<string>) returns (k: string)
    requires s != {}
    ensures IsLeast(k, s)
    decreases |s|
  {
    var x :| x in s;
    if s == {x} {
      k := x;
    } else {
      var y := LeastExists(s - {x});
      LessTotal(x, y);
      k := if Less(x, y) then x else y;
      forall j | j in s && j != k
        ensures Less(k, j)
      {
        if Less(x, y) && j != y {
          LessTransitive(x, y, j);
        }
      }
    }
  }

  lemma LeastUnique(k: string, k': string, s: set<string>)
    requires IsLeast(k, s) && IsLeast(k', s)
    ensures k == k'
  {
    if k != k' {
      LessAsymmetric(k, k');
    }
  }

  function Least(s: set<string>): (k: string)
    requires s != {}
    ensures IsLeast(k, s)
  {
    assert exists k :: IsLeast(k, s) by { var _ := LeastExists(s); }
    assert forall k, k' :: IsLeast(k, s) && IsLeast(k', s) ==> k == k' by {
      forall k, k' | IsLeast(k, s) && IsLeast(k', s) ensures k == k' { LeastUnique(k, k', s); }
    }
    var k :| k in s && IsLeast(k, s);
    k
  }

  /** The keys in scan order. */
  function Sorted(s: set<string>): (r: seq<string>)
    ensures |r| == |s| && forall k :: k in r <==> k in s
    decreases |s|
  {
    if s == {} then [] else
      var k := Least(s);
      var rest := Sorted(s - {k});
      assert s == {k} + (s - {k});
      [k] + rest
  }

  ghost predicate Ascending(r: seq<string>) {
    forall i, j :: 0 <= i < j < |r| ==> Less(r[i], r[j])
  }

  lemma {:induction false} SortedAscending(s: set<string>)
    ensures Ascending(Sorted(s))
    decreases |s|
  {
    if s != {} {
      var k := Least(s);
      SortedAscending(s - {k});
      AscendingFirst(k, Sorted(s - {k}), s);
    }
  }

  lemma AscendingFirst(k: string, rest: seq<string>, s: set<string>)
    requires IsLeast(k, s) && Ascending(rest) && forall j :: j in rest ==> j in s && j != k
    ensures Ascending([k] + rest)
  {
    forall i, j | 0 <= i < j < |[k] + rest|
      ensures Less(([k] + rest)[i], ([k] + rest)[j])
    {
      assert ([k] + rest)[j] == rest[j - 1] && rest[j - 1] in rest;
    }
  }

  lemma AscendingDistinct(r: seq<string>)
    requires Ascending(r)
    ensures forall i, j :: 0 <= i < j < |r| ==> r[i] != r[j]
  {
    forall i, j | 0 <= i < j < |r|
      ensures r[i] != r[j]
    {
      LessIrreflexive(r[i]);
    }
  }

  /** A set has one ascending listing: the scan order is a function of the keys alone. */
  lemma {:induction false} AscendingUnique(r: seq<string>, s: set<string>)
    requires Ascending(r) && forall k :: k in r <==> k in s
    ensures r == Sorted(s)
    decreases |r|
  {
    if r != [] {
      assert r[0] in r;
      assert IsLeast(r[0], s);
      LeastUnique(r[0], Least(s), s);
      AscendingDistinct(r);
      assert r == [r[0]] + r[1..];
      AscendingUnique(r[1..], s - {r[0]});
    } else {
      assert forall k :: k in s ==> k in r;
    }
  }
}
