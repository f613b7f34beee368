/** Merkle roots, inclusion proofs and what they commit to. */
module Merkle {
  import opened Prelude

  const EMPTY_BLOCK := "kyvera-empty-block"

  datatype ProofDirection = Left | Right

  datatype MerkleProof = MerkleProof(leafHash: string, siblings: seq<(string, ProofDirection)>, root: string)

  /* ---------- The tree as functions ---------- */

  function HashPair(H: string -> Digest, left: string, right: string): Digest {
    H(left + right)
  }

  function ParentCount(n: nat): nat {
    (n + 1) / 2
  }

  /** The text hashed for parent `i`; the last node of an odd layer is its own right sibling. */
  function ChildText(layer: seq<string>, i: nat): string
    requires i < ParentCount(|layer|)
  {
    layer[2 * i] + layer[if 2 * i + 1 < |layer| then 2 * i + 1 else 2 * i]
  }

  function NextLayer(H: string -> Digest, layer: seq<string>): seq<string> {
    seq<string>(ParentCount(|layer|), i requires 0 <= i < ParentCount(|layer|) => H(ChildText(layer, i)))
  }

  function TreeRoot(H: string -> Digest, layer: seq<string>): string
    requires layer != []
    decreases |layer|
  {
    if |layer| == 1 then layer[0] else TreeRoot(H, NextLayer(H, layer))
  }

  function MerkleRoot(H: string -> Digest, hashes: seq<string>): string {
    if hashes == [] then H(EMPTY_BLOCK) else TreeRoot(H, hashes)
  }

  function Depth(n: nat): nat {
    if n <= 1 then 0 else 1 + Depth(ParentCount(n))
  }

  function Sibling(layer: seq<string>, i: nat): (string, ProofDirection)
    requires i < |layer|
  {
    if i % 2 == 0 then (layer[if i + 1 < |layer| then i + 1 else i], Right) else (layer[i - 1], Left)
  }

  function Siblings(H: string -> Digest, layer: seq<string>, i: nat): seq<(string, ProofDirection)>
    requires i < |layer|
    decreases |layer|
  {
    if |layer| == 1 then [] else [Sibling(layer, i)] + Siblings(H, NextLayer(H, layer), i / 2)
  }

  /** The text hashed when a proof climbs one level. */
  function StepText(current: string, sibling: (string, ProofDirection)): string {
    match sibling.1 case Right => current + sibling.0 case Left => sibling.0 + current
  }

  function Climb(H: string -> Digest, current: string, siblings: seq<(string, ProofDirection)>): string
    decreases |siblings|
  {
    if siblings == [] then current else Climb(H, H(StepText(current, siblings[0])), siblings[1..])
  }

  predicate Accepts(H: string -> Digest, proof: MerkleProof) {
    Climb(H, proof.leafHash, proof.siblings) == proof.root
  }

  /* ---------- The code ---------- */

  method BuildNextLayer(H: string -> Digest, layer: seq<string>) returns (nextLayer: seq<string>)
    ensures nextLayer == NextLayer(H, layer)
  {
    nextLayer := [];
    var i := 0;
    while i < |layer|
      invariant i % 2 == 0 && i <= |layer| + 1 && |nextLayer| == i / 2
      invariant forall j :: 0 <= j < |nextLayer| ==> nextLayer[j] == H(ChildText(layer, j))
    {
      var left := layer[i];
      var right := if i + 1 < |layer| then layer[i + 1] else layer[i];
      nextLayer := nextLayer + [HashPair(H, left, right)];
      i := i + 2;
    }
  }

  method ComputeMerkleRoot(H: string -> Digest, transactionHashes: seq<string>) returns (root: string)
    ensures root == MerkleRoot(H, transactionHashes)
  {
    if transactionHashes == [] {
      return H(EMPTY_BLOCK);
    }
    if |transactionHashes| == 1 {
      return transactionHashes[0];
    }
    var currentLayer := transactionHashes;
    while |currentLayer| > 1
      invariant currentLayer != [] && TreeRoot(H, currentLayer) == TreeRoot(H, transactionHashes)
      decreases |currentLayer|
    {
      currentLayer := BuildNextLayer(H, currentLayer);
    }
    root := currentLayer[0];
  }

  method Position(hashes: seq<string>, target: string) returns (index: Option<nat>)
    ensures index.None? ==> target !in hashes
    ensures index.Some? ==>
      index.value < |hashes| && hashes[index.value] == target && target !in hashes[..index.value]
  {
    for i := 0 to |hashes|
      invariant target !in hashes[..i]
    {
      if hashes[i] == target {
        return Some(i);
      }
    }
    index := None;
  }

  /** The upward walk, one sibling per layer. */
  method CollectSiblings(H: string -> Digest, hashes: seq<string>, index: nat)
    returns (siblings: seq<(string, ProofDirection)>)
    requires index < |hashes|
    ensures siblings == Siblings(H, hashes, index)
  {
    siblings := [];
    var currentLayer := hashes;
    var currentIndex := index;
    while |currentLayer| > 1
      invariant 0 <= currentIndex < |currentLayer|
      invariant siblings + Siblings(H, currentLayer, currentIndex) == Siblings(H, hashes, index)
      decreases |currentLayer|
    {
      var siblingIndex, direction;
      if currentIndex % 2 == 0 {
        siblingIndex := if currentIndex + 1 < |currentLayer| then currentIndex + 1 else currentIndex;
        direction := Right;
      } else {
        siblingIndex := currentIndex - 1;
        direction := Left;
      }
      siblings := siblings + [(currentLayer[siblingIndex], direction)];
      currentLayer := BuildNextLayer(H, currentLayer);
      currentIndex := currentIndex / 2;
    }
  }

  /** A proof exists exactly for the listed hashes, carries the root of the list, is as deep as the
      tree and passes its own check. */
  method GenerateProof(H: string -> Digest, transactionHashes: seq<string>, targetHash: string)
    returns (proof: Option<MerkleProof>)
    ensures proof.Some? <==> targetHash in transactionHashes
    ensures proof.Some? ==> Accepts(H, proof.value) && proof.value.leafHash == targetHash
    ensures proof.Some? ==> proof.value.root == MerkleRoot(H, transactionHashes)
    ensures proof.Some? ==> |proof.value.siblings| == Depth(|transactionHashes|)
  {
    var targetIndex := Position(transactionHashes, targetHash);
    if targetIndex.None? {
      return None;
    }
    var root := ComputeMerkleRoot(H, transactionHashes);
    var siblings := CollectSiblings(H, transactionHashes, targetIndex.value);
    ProofClimbsToRoot(H, transactionHashes, targetIndex.value);
    proof := Some(MerkleProof(targetHash, siblings, root));
  }

  method VerifyProof(H: string -> Digest, proof: MerkleProof) returns (ok: bool)
    ensures ok <==> Accepts(H, proof)
  {
    var currentHash := proof.leafHash;
    for i := 0 to |proof.siblings|
      invariant Climb(H, currentHash, proof.siblings[i..]) == Climb(H, proof.leafHash, proof.siblings)
    {
      var sibling := proof.siblings[i].0;
      match proof.siblings[i].1 {
        case Right => currentHash := HashPair(H, currentHash, sibling);
        case Left => currentHash := HashPair(H, sibling, currentHash);
      }
    }
    ok := currentHash == proof.root;
  }

  /* ---------- Completeness ---------- */

  /** Climbing from any leaf along its own siblings, through every odd layer, ends at the root. */
  lemma {:induction false} ProofClimbsToRoot(H: string -> Digest, layer: seq<string>, i: nat)
    requires i < |layer|
    ensures Climb(H, layer[i], Siblings(H, layer, i)) == TreeRoot(H, layer)
    ensures |Siblings(H, layer, i)| == Depth(|layer|)
    decreases |layer|
  {
    if |layer| > 1 {
      var next := NextLayer(H, layer);
      assert StepText(layer[i], Sibling(layer, i)) == ChildText(layer, i / 2);
      assert next[i / 2] == H(StepText(layer[i], Sibling(layer, i)));
      ProofClimbsToRoot(H, next, i / 2);
    }
  }

  /* ---------- Soundness ---------- */

  ghost predicate AllDigests(s: seq<string>) {
    forall i :: 0 <= i < |s| ==> |s[i]| == 64
  }

  lemma NextLayerDigests(H: string -> Digest, layer: seq<string>)
    ensures AllDigests(NextLayer(H, layer))
  {
    forall i | 0 <= i < ParentCount(|layer|)
      ensures |NextLayer(H, layer)[i]| == 64
    {
      var digest: Digest := H(ChildText(layer, i));
    }
  }

  /** The root of a list of digests is as long as one. */
  lemma {:induction false} TreeRootLength(H: string -> Digest, layer: seq<string>)
    requires layer != [] && AllDigests(layer)
    ensures |TreeRoot(H, layer)| == 64
    decreases |layer|
  {
    if |layer| > 1 {
      NextLayerDigests(H, layer);
      TreeRootLength(H, NextLayer(H, layer));
    }
  }

  lemma EmptyListRoot(H: string -> Digest)
    ensures MerkleRoot(H, []) == H("kyvera-empty-block")
  {
  }

  lemma RootLength(H: string -> Digest, hashes: seq<string>)
    requires AllDigests(hashes)
    ensures |MerkleRoot(H, hashes)| == 64
  {
    if hashes == [] {
      var digest: Digest := H(EMPTY_BLOCK);
    } else {
      TreeRootLength(H, hashes);
    }
  }

  /** `x` is hashed while the root of `layer` is computed. */
  ghost predicate HashedInTree(H: string -> Digest, layer: seq<string>, x: string)
    decreases |layer|
  {
    |layer| > 1 &&
    ((exists i :: 0 <= i < ParentCount(|layer|) && x == ChildText(layer, i))
     || HashedInTree(H, NextLayer(H, layer), x))
  }

  /** `x` is hashed while the proof is checked. */
  ghost predicate HashedInClimb(H: string -> Digest, current: string, siblings: seq<(string, ProofDirection)>, x: string)
    decreases |siblings|
  {
    siblings != [] &&
    (x == StepText(current, siblings[0]) || HashedInClimb(H, H(StepText(current, siblings[0])), siblings[1..], x))
  }

  /** A proof as deep as the tree that ends at the root starts at one of the leaves, or the check
      and the tree hashed two different strings to the same digest. */
  lemma {:induction false} FullProofSound(H: string -> Digest, layer: seq<string>, leaf: string,
                                         siblings: seq<(string, ProofDirection)>) returns (c: Option<Collision>)
    requires layer != [] && AllDigests(layer) && |leaf| == 64
    requires forall i :: 0 <= i < |siblings| ==> |siblings[i].0| == 64
    requires |siblings| == Depth(|layer|) && Climb(H, leaf, siblings) == TreeRoot(H, layer)
    ensures c.None? ==> leaf in layer
    ensures c.Some? ==>
      (Collides(H, c.value) && HashedInClimb(H, leaf, siblings, c.value.x) && HashedInTree(H, layer, c.value.y))
    decreases |layer|
  {
    if |layer| == 1 {
      return None;
    }
    var next, text := NextLayer(H, layer), StepText(leaf, siblings[0]);
    NextLayerDigests(H, layer);
    c := FullProofSound(H, next, H(text), siblings[1..]);
    if c.None? {
      var i :| 0 <= i < |next| && next[i] == H(text);
      var child := ChildText(layer, i);
      if child != text {
        c := Some(Collision(text, child));
      } else {
        var left, right := layer[2 * i], layer[if 2 * i + 1 < |layer| then 2 * i + 1 else 2 * i];
        match siblings[0].1
        case Right => SplitAt(leaf, left, siblings[0].0, right);
        case Left => SplitAt(siblings[0].0, left, leaf, right);
      }
    }
  }

  /** The layer `k` levels above the leaves. */
  function LayerAbove(H: string -> Digest, layer: seq<string>, k: nat): seq<string>
    requires layer != []
    ensures LayerAbove(H, layer, k) != []
    decreases k
  {
    if k == 0 then layer else LayerAbove(H, NextLayer(H, layer), k - 1)
  }

  lemma {:induction false} LayerAboveProperties(H: string -> Digest, layer: seq<string>, k: nat, x: string)
    requires layer != [] && AllDigests(layer) && k <= Depth(|layer|)
    ensures var up := LayerAbove(H, layer, k);
      && AllDigests(up) && Depth(|up|) == Depth(|layer|) - k && TreeRoot(H, up) == TreeRoot(H, layer)
      && (HashedInTree(H, up, x) ==> HashedInTree(H, layer, x))
    decreases k
  {
    if k != 0 {
      NextLayerDigests(H, layer);
      LayerAboveProperties(H, NextLayer(H, layer), k - 1, x);
    }
  }

  /** Climbing in two stages; what is hashed in the second is hashed in the whole. */
  lemma {:induction false} ClimbSplit(H: string -> Digest, current: string, siblings: seq<(string, ProofDirection)>, e: nat, x: string)
    requires e <= |siblings|
    ensures var reached := Climb(H, current, siblings[..e]);
      && Climb(H, reached, siblings[e..]) == Climb(H, current, siblings)
      && (HashedInClimb(H, reached, siblings[e..], x) ==> HashedInClimb(H, current, siblings, x))
      && (e > 0 ==> |reached| == 64)
    decreases e
  {
    if e == 0 {
      assert siblings[..0] == [] && siblings[0..] == siblings;
    } else {
      var next: Digest := H(StepText(current, siblings[0]));
      assert siblings[..e][1..] == siblings[1..][..e - 1] && siblings[e..] == siblings[1..][e - 1..];
      ClimbSplit(H, next, siblings[1..], e - 1, x);
      assert e == 1 ==> siblings[1..][..e - 1] == [];
    }
  }

  /** What `verify_proof` establishes, for a proof of any length: with as many siblings as the tree is
      deep the leaf is listed; with fewer it is a node that many levels above the leaves; with more,
      the extra ones lead from it to a listed hash. Otherwise the proof and the tree yield a
      collision. */
  lemma ProofSound(H: string -> Digest, hashes: seq<string>, proof: MerkleProof)
    returns (c: Option<Collision>)
    requires hashes != [] && AllDigests(hashes) && |proof.leafHash| == 64
    requires forall i :: 0 <= i < |proof.siblings| ==> |proof.siblings[i].0| == 64
    requires Accepts(H, proof) && proof.root == MerkleRoot(H, hashes)
    ensures c.None? ==>
      var length, depth := |proof.siblings|, Depth(|hashes|);
      if length <= depth then
        proof.leafHash in LayerAbove(H, hashes, depth - length) && (length == depth ==> proof.leafHash in hashes)
      else Climb(H, proof.leafHash, proof.siblings[..length - depth]) in hashes
    ensures c.Some? ==>
      (Collides(H, c.value) && HashedInClimb(H, proof.leafHash, proof.siblings, c.value.x) && HashedInTree(H, hashes, c.value.y))
  {
    var length, depth := |proof.siblings|, Depth(|hashes|);
    if length <= depth {
      LayerAboveProperties(H, hashes, depth - length, "");
      c := FullProofSound(H, LayerAbove(H, hashes, depth - length), proof.leafHash, proof.siblings);
      if c.Some? {
        LayerAboveProperties(H, hashes, depth - length, c.value.y);
      }
    } else {
      var extra := length - depth;
      ClimbSplit(H, proof.leafHash, proof.siblings, extra, "");
      var reached := Climb(H, proof.leafHash, proof.siblings[..extra]);
      c := FullProofSound(H, hashes, reached, proof.siblings[extra..]);
      if c.Some? {
        ClimbSplit(H, proof.leafHash, proof.siblings, extra, c.value.x);
      }
    }
  }

  lemma SiblingsDigests(H: string -> Digest, layer: seq<string>, i: nat)
    requires i < |layer| && AllDigests(layer)
    ensures forall j :: 0 <= j < |Siblings(H, layer, i)| ==> |Siblings(H, layer, i)[j].0| == 64
    decreases |layer|
  {
    if |layer| > 1 {
      NextLayerDigests(H, layer);
      SiblingsDigests(H, NextLayer(H, layer), i / 2);
    }
  }

  /** The converse for full and shorter proofs: every node `k` levels above the leaves has an accepted
      proof with `k` siblings fewer than the tree is deep. */
  lemma NodeHasProof(H: string -> Digest, hashes: seq<string>, k: nat, node: string) returns (proof: MerkleProof)
    requires hashes != [] && AllDigests(hashes) && k <= Depth(|hashes|) && node in LayerAbove(H, hashes, k)
    ensures proof.leafHash == node && proof.root == MerkleRoot(H, hashes) && Accepts(H, proof)
    ensures |proof.siblings| == Depth(|hashes|) - k
    ensures forall j :: 0 <= j < |proof.siblings| ==> |proof.siblings[j].0| == 64
  {
    var up := LayerAbove(H, hashes, k);
    LayerAboveProperties(H, hashes, k, "");
    var i :| 0 <= i < |up| && up[i] == node;
    ProofClimbsToRoot(H, up, i);
    SiblingsDigests(H, up, i);
    proof := MerkleProof(node, Siblings(H, up, i), MerkleRoot(H, hashes));
  }

  /** The converse for longer proofs: any string that extra siblings lead to a listed hash has one. */
  lemma LongerHasProof(H: string -> Digest, hashes: seq<string>, leaf: string, extra: seq<(string, ProofDirection)>)
    returns (proof: MerkleProof)
    requires hashes != [] && Climb(H, leaf, extra) in hashes
    ensures proof.leafHash == leaf && proof.root == MerkleRoot(H, hashes) && Accepts(H, proof)
    ensures |proof.siblings| == Depth(|hashes|) + |extra| && proof.siblings[..|extra|] == extra
  {
    var i :| 0 <= i < |hashes| && hashes[i] == Climb(H, leaf, extra);
    var siblings := extra + Siblings(H, hashes, i);
    ProofClimbsToRoot(H, hashes, i);
    ClimbSplit(H, leaf, siblings, |extra|, "");
    assert siblings[..|extra|] == extra && siblings[|extra|..] == Siblings(H, hashes, i);
    proof := MerkleProof(leaf, siblings, MerkleRoot(H, hashes));
  }

  /** The root of a list of two is itself accepted as a leaf, with no siblings at all. */
  lemma InnerNodeAccepted(H: string -> Digest, x: string, y: string)
    ensures var proof := MerkleProof(H(x + y), [], H(x + y));
      && Accepts(H, proof) && proof.root == MerkleRoot(H, [x, y])
      && (proof.leafHash in [x, y] <==> H(x + y) == x || H(x + y) == y)
  {
    var pair: seq<string>, above: seq<string> := [x, y], [H(x + y)];
    assert ChildText(pair, 0) == x + y;
    assert NextLayer(H, pair) == above;
    assert MerkleRoot(H, pair) == TreeRoot(H, above) == H(x + y);
  }

  /** The first half of a text whose hash is listed is accepted as a leaf, one level below the leaves. */
  lemma UnlistedAccepted(H: string -> Digest, x: string, y: string)
    ensures var proof := MerkleProof(x, [(y, Right)], H(x + y));
      && Accepts(H, proof) && proof.root == MerkleRoot(H, [H(x + y)])
      && (proof.leafHash in [H(x + y)] <==> x == H(x + y))
  {
    var siblings := [(y, Right)];
    assert siblings[1..] == [];
    assert Climb(H, x, siblings) == Climb(H, H(StepText(x, siblings[0])), siblings[1..]);
  }

  /* ---------- Binding ---------- */

  /** Two lists of one length and one root are the same list, or their trees yield a collision. */
  lemma {:induction false} TreeBinding(H: string -> Digest, a: seq<string>, b: seq<string>)
    returns (c: Option<Collision>)
    requires |a| == |b| && a != [] && AllDigests(a) && AllDigests(b)
    requires TreeRoot(H, a) == TreeRoot(H, b)
    ensures c.None? ==> a == b
    ensures c.Some? ==> Collides(H, c.value) && HashedInTree(H, a, c.value.x) && HashedInTree(H, b, c.value.y)
    decreases |a|
  {
    if |a| == 1 {
      return None;
    }
    NextLayerDigests(H, a);
    NextLayerDigests(H, b);
    c := TreeBinding(H, NextLayer(H, a), NextLayer(H, b));
    if c.None? {
      c := LayerBinding(H, a, b);
    }
  }

  lemma LayerBinding(H: string -> Digest, a: seq<string>, b: seq<string>) returns (c: Option<Collision>)
    requires |a| == |b| > 1 && AllDigests(a) && AllDigests(b) && NextLayer(H, a) == NextLayer(H, b)
    ensures c.None? ==> a == b
    ensures c.Some? ==> Collides(H, c.value) && HashedInTree(H, a, c.value.x) && HashedInTree(H, b, c.value.y)
  {
    if i :| 0 <= i < ParentCount(|a|) && ChildText(a, i) != ChildText(b, i) {
      assert NextLayer(H, a)[i] == NextLayer(H, b)[i];
      c := Some(Collision(ChildText(a, i), ChildText(b, i)));
    } else {
      forall j | 0 <= j < |a|
        ensures a[j] == b[j]
      {
        var i := j / 2;
        assert ChildText(a, i) == ChildText(b, i);
        var right := if 2 * i + 1 < |a| then 2 * i + 1 else 2 * i;
        SplitAt(a[2 * i], b[2 * i], a[right], b[right]);
      }
      c := None;
    }
  }
}
