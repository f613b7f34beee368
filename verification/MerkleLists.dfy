/** Which lists share a Merkle root. */
module MerkleLists {
  import opened Prelude
  import opened Merkle

  /* ---------- The completed list ---------- */

  /** Two children for every listed parent, of which there are `ParentCount(n)` over `n` nodes. */
  function Children(parents: seq<nat>, n: nat): seq<nat> {
    seq(2 * |parents|, t requires 0 <= t < 2 * |parents| =>
      var j := parents[t / 2];
      if t % 2 == 1 && 2 * j + 1 < n then 2 * j + 1 else 2 * j)
  }

  /** Which of `n` leaves stands at each place of the full binary tree that pairing an odd last node
      with itself amounts to. */
  function Places(n: nat): seq<nat> {
    if n <= 1 then [0] else Children(Places(ParentCount(n)), n)
  }

  lemma {:induction false} PlacesBelow(n: nat)
    requires n > 0
    ensures forall t :: 0 <= t < |Places(n)| ==> Places(n)[t] < n
  {
    if n > 1 {
      PlacesBelow(ParentCount(n));
      forall t | 0 <= t < |Places(n)|
        ensures Places(n)[t] < n
      {
        assert Places(ParentCount(n))[t / 2] < ParentCount(n);
      }
    }
  }

  /** The number of places depends on the depth alone. */
  lemma {:induction false} PlacesCount(n: nat, n': nat)
    requires Depth(n) == Depth(n')
    ensures |Places(n)| == |Places(n')| > 0
  {
    if n > 1 {
      PlacesCount(ParentCount(n), ParentCount(n'));
    }
  }

  /** Every leaf stands somewhere. */
  lemma {:induction false} PlaceOf(n: nat, i: nat) returns (t: nat)
    requires i < n
    ensures t < |Places(n)| && Places(n)[t] == i
    decreases n
  {
    if n == 1 {
      t := 0;
    } else {
      var p := PlaceOf(ParentCount(n), i / 2);
      t := 2 * p + i % 2;
      assert t / 2 == p && t % 2 == i % 2;
    }
  }

  /** The list with its odd ends filled up to a full tree. */
  function Complete(a: seq<string>): seq<string>
    requires a != []
  {
    PlacesBelow(|a|);
    seq(|Places(|a|)|, t requires 0 <= t < |Places(|a|)| => a[Places(|a|)[t]])
  }

  lemma CompleteDigests(a: seq<string>)
    requires a != [] && AllDigests(a)
    ensures AllDigests(Complete(a))
  {
    PlacesBelow(|a|);
  }

  lemma CompleteInjective(a: seq<string>, b: seq<string>)
    requires a != [] && |a| == |b| && Complete(a) == Complete(b)
    ensures a == b
  {
    forall i | 0 <= i < |a|
      ensures a[i] == b[i]
    {
      var t := PlaceOf(|a|, i);
      assert Complete(a)[t] == a[i] && Complete(b)[t] == b[i];
    }
  }

  lemma HalfOf(i: nat)
    ensures (2 * i) / 2 == i && (2 * i + 1) / 2 == i && (2 * i) % 2 == 0 && (2 * i + 1) % 2 == 1
  {
  }

  lemma ChildrenAt(parents: seq<nat>, n: nat, i: nat)
    requires i < |parents|
    ensures var j := parents[i]; var c := Children(parents, n);
      c[2 * i] == 2 * j && c[2 * i + 1] == if 2 * j + 1 < n then 2 * j + 1 else 2 * j
  {
    HalfOf(i);
  }

  /** Two neighbouring places hold the children of the place above them. */
  lemma PlacesAbove(n: nat, i: nat)
    requires n > 1 && i < |Places(ParentCount(n))|
    ensures |Places(n)| == 2 * |Places(ParentCount(n))|
    ensures var j := Places(ParentCount(n))[i];
      Places(n)[2 * i] == 2 * j && Places(n)[2 * i + 1] == if 2 * j + 1 < n then 2 * j + 1 else 2 * j
  {
    ChildrenAt(Places(ParentCount(n)), n, i);
  }

  lemma CompleteText(a: seq<string>, i: nat)
    requires |a| > 1 && i < |Places(ParentCount(|a|))|
    ensures |Complete(a)| == 2 * |Places(ParentCount(|a|))| && Places(ParentCount(|a|))[i] < ParentCount(|a|)
    ensures ChildText(Complete(a), i) == ChildText(a, Places(ParentCount(|a|))[i])
  {
    PlacesBelow(ParentCount(|a|));
    PlacesAbove(|a|, i);
  }

  /** The completed list hashes the same texts as the list. */
  lemma CompleteTexts(a: seq<string>)
    requires |a| > 1
    ensures |Complete(a)| == 2 * |Places(ParentCount(|a|))| > 1
    ensures forall i :: 0 <= i < |Places(ParentCount(|a|))| ==>
      Places(ParentCount(|a|))[i] < ParentCount(|a|) && ChildText(Complete(a), i) == ChildText(a, Places(ParentCount(|a|))[i])
  {
    PlacesCount(ParentCount(|a|), ParentCount(|a|));
    CompleteText(a, 0);
    forall i | 0 <= i < |Places(ParentCount(|a|))|
      ensures Places(ParentCount(|a|))[i] < ParentCount(|a|)
      ensures ChildText(Complete(a), i) == ChildText(a, Places(ParentCount(|a|))[i])
    {
      CompleteText(a, i);
    }
  }

  /** One layer up it is the completion of the layer above. */
  lemma CompleteNext(H: string -> Digest, a: seq<string>)
    requires |a| > 1
    ensures NextLayer(H, Complete(a)) == Complete(NextLayer(H, a))
  {
    CompleteTexts(a);
    var layer, above := NextLayer(H, Complete(a)), Complete(NextLayer(H, a));
    forall i | 0 <= i < |above|
      ensures layer[i] == above[i]
    {
      assert layer[i] == H(ChildText(Complete(a), i));
    }
  }

  /** A list and its completion have one root and hash the same strings on the way to it. */
  lemma {:induction false} RootOfComplete(H: string -> Digest, a: seq<string>, x: string)
    requires a != []
    ensures Complete(a) != [] && TreeRoot(H, Complete(a)) == TreeRoot(H, a)
    ensures HashedInTree(H, Complete(a), x) ==> HashedInTree(H, a, x)
    decreases |a|
  {
    if |a| > 1 {
      CompleteTexts(a);
      CompleteNext(H, a);
      RootOfComplete(H, NextLayer(H, a), x);
    }
  }

  /* ---------- Equal roots ---------- */

  /** The deeper list, at the level where it is as deep as the other, completes to the same list. */
  ghost predicate SameCompletion(H: string -> Digest, a: seq<string>, b: seq<string>)
    requires a != [] && b != [] && Depth(|a|) <= Depth(|b|)
  {
    Complete(a) == Complete(LayerAbove(H, b, Depth(|b|) - Depth(|a|)))
  }

  /** The condition for one root, lists of any two lengths. An empty list has the sentinel's digest. */
  ghost predicate SameTree(H: string -> Digest, a: seq<string>, b: seq<string>) {
    if a == [] || b == [] then a == b || a + b == [H(EMPTY_BLOCK)]
    else if Depth(|a|) <= Depth(|b|) then SameCompletion(H, a, b)
    else SameCompletion(H, b, a)
  }

  /** `x` is hashed while the root of the list is computed. */
  ghost predicate HashedForRoot(H: string -> Digest, hashes: seq<string>, x: string) {
    if hashes == [] then x == EMPTY_BLOCK else HashedInTree(H, hashes, x)
  }

  lemma SameCompletionExactly(H: string -> Digest, a: seq<string>, b: seq<string>) returns (c: Option<Collision>)
    requires a != [] && b != [] && AllDigests(a) && AllDigests(b) && Depth(|a|) <= Depth(|b|)
    ensures SameCompletion(H, a, b) ==> TreeRoot(H, a) == TreeRoot(H, b)
    ensures c.None? && TreeRoot(H, a) == TreeRoot(H, b) ==> SameCompletion(H, a, b)
    ensures c.Some? ==> Collides(H, c.value) && HashedInTree(H, a, c.value.x) && HashedInTree(H, b, c.value.y)
  {
    var k := Depth(|b|) - Depth(|a|);
    var up := LayerAbove(H, b, k);
    LayerAboveProperties(H, b, k, "");
    RootOfComplete(H, a, "");
    RootOfComplete(H, up, "");
    c := None;
    if TreeRoot(H, a) == TreeRoot(H, b) {
      PlacesCount(|a|, |up|);
      CompleteDigests(a);
      CompleteDigests(up);
      c := TreeBinding(H, Complete(a), Complete(up));
      if c.Some? {
        RootOfComplete(H, a, c.value.x);
        RootOfComplete(H, up, c.value.y);
        LayerAboveProperties(H, b, k, c.value.y);
      }
    }
  }

  /** The root of more than one leaf is the digest of two digests. */
  lemma {:induction false} RootText(H: string -> Digest, a: seq<string>) returns (x: string)
    requires |a| > 1 && AllDigests(a)
    ensures HashedInTree(H, a, x) && H(x) == TreeRoot(H, a) && |x| == 128
    decreases |a|
  {
    var next := NextLayer(H, a);
    if |next| == 1 {
      x := ChildText(a, 0);
      assert next[0] == H(x);
    } else {
      NextLayerDigests(H, a);
      x := RootText(H, next);
    }
  }

  /** No list but the sentinel's digest alone has the root of the empty list. */
  lemma EmptyRoot(H: string -> Digest, a: seq<string>) returns (c: Option<Collision>)
    requires a != [] && AllDigests(a)
    ensures a == [H(EMPTY_BLOCK)] ==> MerkleRoot(H, a) == MerkleRoot(H, [])
    ensures c.None? && MerkleRoot(H, a) == MerkleRoot(H, []) ==> a == [H(EMPTY_BLOCK)]
    ensures c.Some? ==> Collides(H, c.value) && HashedForRoot(H, a, c.value.x) && HashedForRoot(H, [], c.value.y)
  {
    c := None;
    if |a| > 1 && MerkleRoot(H, a) == MerkleRoot(H, []) {
      var x := RootText(H, a);
      c := Some(Collision(x, EMPTY_BLOCK));
    }
  }

  function Flip(c: Option<Collision>): Option<Collision> {
    if c.None? then None else Some(Collision(c.value.y, c.value.x))
  }

  /** Exactly which lists, of any two lengths, have one root: those that complete to the same list at
      the depth of the shallower one, or else the two trees yield a collision. */
  lemma SameRootExactly(H: string -> Digest, a: seq<string>, b: seq<string>) returns (c: Option<Collision>)
    requires AllDigests(a) && AllDigests(b)
    ensures SameTree(H, a, b) ==> MerkleRoot(H, a) == MerkleRoot(H, b)
    ensures c.None? && MerkleRoot(H, a) == MerkleRoot(H, b) ==> SameTree(H, a, b)
    ensures c.Some? ==> Collides(H, c.value) && HashedForRoot(H, a, c.value.x) && HashedForRoot(H, b, c.value.y)
  {
    if a == [] && b == [] {
      c := None;
    } else if a == [] {
      c := EmptyRoot(H, b);
      c := Flip(c);
      assert a + b == b;
    } else if b == [] {
      c := EmptyRoot(H, a);
      assert a + b == a;
    } else if Depth(|a|) <= Depth(|b|) {
      c := SameCompletionExactly(H, a, b);
    } else {
      c := SameCompletionExactly(H, b, a);
      c := Flip(c);
    }
  }

  /** Among lists of one length the condition is equality. */
  lemma SameLengthSameTree(H: string -> Digest, a: seq<string>, b: seq<string>)
    requires |a| == |b|
    ensures SameTree(H, a, b) <==> a == b
  {
    if a != [] && SameTree(H, a, b) {
      CompleteInjective(a, b);
    }
  }

  /** The simplest case of different lengths: an odd list and the same list with its last entry repeated have one
      root, whatever the hash function. */
  lemma OddListRepeatedLast(H: string -> Digest, a: seq<string>)
    requires |a| > 1 && |a| % 2 == 1
    ensures MerkleRoot(H, a) == MerkleRoot(H, a + [a[|a| - 1]])
  {
    var b := a + [a[|a| - 1]];
    forall i | 0 <= i < ParentCount(|a|)
      ensures ChildText(a, i) == ChildText(b, i)
    {
    }
    assert NextLayer(H, a) == NextLayer(H, b);
  }
}
