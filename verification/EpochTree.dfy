/**
 The Rust side of the epoch tree: the seeder's root builder, the reader's proof builder and the
 proof verifier, as the loops they are.
 */
module EpochTree {
  import opened Bytes
  import opened Merkle

  function HashPair(h: HashFn, l: Digest, r: Digest): Digest {
    h(l + r)
  }

  /** An inner node is the hash of its children's 64 bytes. */
  function NodeHash(h: HashFn): PairHash<Digest> {
    (l: Digest, r: Digest) => HashPair(h, l, r)
  }

  function NodeBytes(c: Children<Digest>): Bytes {
    c.left + c.right
  }

  /** Digests have one length, so a collision of nodes is a collision of the hash itself. */
  lemma CollidingNodesCollide(h: HashFn, a: Children<Digest>, b: Children<Digest>)
    requires Collides(NodeHash(h), a, b)
    ensures Collision(h, (NodeBytes(a), NodeBytes(b)))
  {
    var x, y := NodeBytes(a), NodeBytes(b);
    assert a.left == x[..32] && a.right == x[32..];
    assert b.left == y[..32] && b.right == y[32..];
  }

  function EpochRoot(h: HashFn, leaves: seq<Digest>): Digest {
    if leaves == [] then ZERO_DIGEST else Root(NodeHash(h), leaves)
  }

  // ---------------------------------------------------------------------------
  // Building
  // ---------------------------------------------------------------------------

  /** Hash pairs into the next layer, which is the layer above the one that was padded. */
  method HashLayer(h: HashFn, layer: seq<Digest>, ghost unpadded: seq<Digest>) returns (next: seq<Digest>)
    requires unpadded != []
    requires layer == if |unpadded| % 2 == 1 then unpadded + [unpadded[|unpadded| - 1]] else unpadded
    ensures next == Above(NodeHash(h), unpadded)
  {
    if |unpadded| % 2 == 1 {
      PaddingKeepsParents(NodeHash(h), unpadded);
    }
    next := [];
    for k := 0 to |layer| / 2
      invariant next == Above(NodeHash(h), layer)[..k]
    {
      next := next + [HashPair(h, layer[2 * k], layer[2 * k + 1])];
    }
  }

  method MerkleRoot(h: HashFn, leaves: seq<Digest>) returns (root: Digest)
    ensures root == EpochRoot(h, leaves)
  {
    if |leaves| == 0 {
      return ZERO_DIGEST;
    }
    var layer := leaves;
    while |layer| > 1
      invariant layer != [] && Root(NodeHash(h), layer) == Root(NodeHash(h), leaves)
      decreases |layer|
    {
      ghost var below := layer;
      if |layer| % 2 == 1 {
        layer := layer + [layer[|layer| - 1]];
      }
      layer := HashLayer(h, layer, below);
    }
    root := layer[0];
  }

  datatype ProofError = EmptyEpoch | TargetMissing | WrongHashLength

  /** The first position holding the key, or the length of the list when there is none. */
  function FirstIndex(leaves: seq<(int, Bytes)>, target: int): (i: nat)
    ensures i <= |leaves|
    ensures i < |leaves| ==> leaves[i].0 == target
    ensures forall j :: 0 <= j < i ==> leaves[j].0 != target
  {
    if leaves == [] || leaves[0].0 == target then 0 else 1 + FirstIndex(leaves[1..], target)
  }

  predicate AllDigests(leaves: seq<(int, Bytes)>) {
    forall k :: 0 <= k < |leaves| ==> |leaves[k].1| == 32
  }

  function Hashes(leaves: seq<(int, Bytes)>): (s: seq<Digest>)
    requires AllDigests(leaves)
    ensures |s| == |leaves| && forall k :: 0 <= k < |s| ==> s[k] == leaves[k].1
  {
    if leaves == [] then [] else [leaves[0].1] + Hashes(leaves[1..])
  }

  /** What the proof builder answers, error cases in the order it tests them. */
  function HonestProof(h: HashFn, leaves: seq<(int, Bytes)>, target: int): Result<seq<Digest>, ProofError> {
    if leaves == [] then Err(EmptyEpoch)
    else if FirstIndex(leaves, target) == |leaves| then Err(TargetMissing)
    else if !AllDigests(leaves) then Err(WrongHashLength)
    else Ok(Path(NodeHash(h), Hashes(leaves), FirstIndex(leaves, target)))
  }

  method LeafLayer(leaves: seq<(int, Bytes)>) returns (r: Result<seq<Digest>, ProofError>)
    ensures r == if AllDigests(leaves) then Ok(Hashes(leaves)) else Err(WrongHashLength)
  {
    var layer: seq<Digest> := [];
    for k := 0 to |leaves|
      invariant |layer| == k && forall j :: 0 <= j < k ==> |leaves[j].1| == 32 && layer[j] == leaves[j].1
    {
      if |leaves[k].1| != 32 {
        return Err(WrongHashLength);
      }
      layer := layer + [leaves[k].1];
    }
    assert layer == Hashes(leaves);
    r := Ok(layer);
  }

  lemma PathStep(h: HashFn, layer: seq<Digest>, idx: nat)
    requires |layer| > 1 && idx < |layer|
    ensures idx / 2 < |Above(NodeHash(h), layer)|
    ensures Path(NodeHash(h), layer, idx)
         == [Sibling(layer, idx)] + Path(NodeHash(h), Above(NodeHash(h), layer), idx / 2)
  {
  }

  /** The climb: record the sibling, hash the padded layer, halve the index. */
  method Siblings(h: HashFn, leafLayer: seq<Digest>, targetIdx: nat) returns (proof: seq<Digest>)
    requires targetIdx < |leafLayer|
    ensures proof == Path(NodeHash(h), leafLayer, targetIdx)
  {
    hide Path, Above, Parent, ChildrenOf, Root;
    var layer, idx := leafLayer, targetIdx;
    proof := [];
    ghost var f := NodeHash(h);
    while |layer| > 1
      invariant 0 <= idx < |layer|
      invariant proof + Path(f, layer, idx) == Path(f, leafLayer, targetIdx)
      decreases |layer|
    {
      ghost var below := layer;
      PathStep(h, below, idx);
      if |layer| % 2 == 1 {
        layer := layer + [layer[|layer| - 1]];
      }
      var siblingIdx := if idx % 2 == 0 then idx + 1 else idx - 1;
      assert layer[siblingIdx] == Sibling(below, idx);
      proof := proof + [layer[siblingIdx]];
      layer := HashLayer(h, layer, below);
      idx := idx / 2;
    }
    assert Path(f, layer, idx) == [] by { EmptyPath(h, layer, idx); }
  }

  lemma EmptyPath(h: HashFn, layer: seq<Digest>, idx: nat)
    requires |layer| == 1 && idx == 0
    ensures Path(NodeHash(h), layer, idx) == []
  {
  }

  method ProofFor(h: HashFn, leaves: seq<(int, Bytes)>, target: int) returns (r: Result<seq<Digest>, ProofError>)
    ensures r == HonestProof(h, leaves, target)
  {
    if |leaves| == 0 {
      return Err(EmptyEpoch);
    }
    var targetIdx := FirstIndex(leaves, target);
    if targetIdx == |leaves| {
      return Err(TargetMissing);
    }
    var layer := LeafLayer(leaves);
    if layer.Err? {
      return Err(layer.error);
    }
    var proof := Siblings(h, layer.value, targetIdx);
    r := Ok(proof);
  }

  /** Every key of the list gets a proof of the tree's depth, accepted at its first position. */
  lemma EveryKeyHasAcceptedProof(h: HashFn, leaves: seq<(int, Bytes)>, target: int)
    requires AllDigests(leaves) && FirstIndex(leaves, target) < |leaves|
    ensures var r, i := HonestProof(h, leaves, target), FirstIndex(leaves, target);
      && r.Ok? && |r.value| == Depth(|leaves|)
      && Fold(NodeHash(h), Hashes(leaves)[i], i, r.value) == EpochRoot(h, Hashes(leaves))
  {
    HonestPathAccepted(NodeHash(h), Hashes(leaves), FirstIndex(leaves, target));
  }

  // ---------------------------------------------------------------------------
  // Verifying
  // ---------------------------------------------------------------------------

  /** Width of layer k above n leaves. */
  function Width(n: nat, k: nat): nat {
    if k == 0 then n else Width((n + 1) / 2, k - 1)
  }

  function Layer<D>(f: PairHash<D>, s: seq<D>, k: nat): seq<D>
    decreases k
  {
    if k == 0 then s else Layer(f, Above(f, s), k - 1)
  }

  /** The counters the verifiers keep are the widths of the builder's layers. */
  lemma {:induction false} WidthOfLayer<D>(f: PairHash<D>, s: seq<D>, k: nat)
    ensures |Layer(f, s, k)| == Width(|s|, k)
    decreases k
  {
    if k == 0 {
    } else {
      WidthOfLayer(f, Above(f, s), k - 1);
    }
  }

  lemma {:induction false} WidthStep(n: nat, k: nat)
    ensures Width(n, k + 1) == (Width(n, k) + 1) / 2
    decreases k
  {
    if k == 0 {
    } else {
      WidthStep((n + 1) / 2, k - 1);
    }
  }

  /** What a verifier's layer counter holds: at the start of each of n turns, and after the last. */
  ghost predicate CountsWidths(counts: seq<nat>, leafCount: nat, n: nat) {
    |counts| == n + 1 && forall k :: 0 <= k <= n ==> counts[k] == Width(leafCount, k)
  }

  /** Given the true leaf count, the counter is the width of the builder's layer at every level. */
  lemma CountersAreLayerWidths(h: HashFn, leaves: seq<Digest>, counts: seq<nat>, n: nat)
    requires CountsWidths(counts, |leaves|, n)
    ensures forall k :: 0 <= k <= n ==> counts[k] == |Layer(NodeHash(h), leaves, k)|
  {
    forall k | 0 <= k <= n ensures counts[k] == |Layer(NodeHash(h), leaves, k)| {
      WidthOfLayer(NodeHash(h), leaves, k);
    }
  }

  /** Every layer up to the root has the root of the leaves: depth is not bound by the root. */
  lemma {:induction false} EveryLayerSharesRoot<D>(f: PairHash<D>, s: seq<D>, k: nat)
    requires s != [] && k <= Depth(|s|)
    ensures Layer(f, s, k) != [] && Root(f, Layer(f, s, k)) == Root(f, s)
    decreases k
  {
    if k == 0 {
    } else {
      EveryLayerSharesRoot(f, Above(f, s), k - 1);
    }
  }

  /** The leaf count is tracked, as counts records, but never consulted: the verdict is the fold alone. */
  method VerifyProof(h: HashFn, contentHash: Digest, leafIdx: nat, leafCount: nat,
                     proof: seq<Digest>, expectedRoot: Digest) returns (ok: bool, ghost counts: seq<nat>)
    ensures ok <==> Fold(NodeHash(h), contentHash, leafIdx, proof) == expectedRoot
    ensures CountsWidths(counts, leafCount, |proof|)
  {
    var current, idx, layerCount := contentHash, leafIdx, leafCount;
    counts := [layerCount];
    for k := 0 to |proof|
      invariant Fold(NodeHash(h), current, idx, proof[k..]) == Fold(NodeHash(h), contentHash, leafIdx, proof)
      invariant CountsWidths(counts, leafCount, k) && layerCount == counts[k]
    {
      WidthStep(leafCount, k);
      if layerCount % 2 == 1 {
        layerCount := layerCount + 1;
      }
      var sibling := proof[k];
      if idx % 2 == 0 {
        current := HashPair(h, current, sibling);
      } else {
        current := HashPair(h, sibling, current);
      }
      idx := idx / 2;
      layerCount := layerCount / 2;
      counts := counts + [layerCount];
      assert proof[k..][1..] == proof[k + 1..];
    }
    ok := current == expectedRoot;
  }

  /** The bytes whose hashes coincide when an accepted leaf or proof is not the honest one. */
  function ForgedInputs(h: HashFn, leaves: seq<Digest>, x: Digest, i: nat, proof: seq<Digest>): (Bytes, Bytes)
    requires |leaves| > 1 && |proof| == Depth(|leaves|)
  {
    var forged := Forgery(NodeHash(h), leaves, x, i, proof);
    (NodeBytes(forged.0), NodeBytes(forged.1))
  }

  /**
   Position soundness against a sealed root, exactly: given a proof of the right length and no collision
   in the two paths, acceptance at index i means the leaf at i's position with its honest proof. For an
   index below the leaf count that is the leaf at i.
   */
  lemma AcceptanceIsPosition(h: HashFn, leaves: seq<Digest>, x: Digest, i: nat, proof: seq<Digest>)
    requires leaves != [] && |proof| == Depth(|leaves|)
    requires |leaves| > 1 ==> !Collision(h, ForgedInputs(h, leaves, x, i, proof))
    ensures Fold(NodeHash(h), x, i, proof) == EpochRoot(h, leaves)
       <==> x == LeafAt(leaves, i) && proof == Path(NodeHash(h), leaves, Position(|leaves|, i))
    ensures i < |leaves| ==> LeafAt(leaves, i) == leaves[i] && Position(|leaves|, i) == i
  {
    HonestPathAccepted(NodeHash(h), leaves, i);
    if Fold(NodeHash(h), x, i, proof) == EpochRoot(h, leaves) {
      AcceptedIsHonest(NodeHash(h), leaves, x, i, proof);
      if |leaves| > 1 {
        var forged := Forgery(NodeHash(h), leaves, x, i, proof);
        if Collides(NodeHash(h), forged.0, forged.1) {
          CollidingNodesCollide(h, forged.0, forged.1);
        }
      }
    }
  }

  /** Two leaf lists of one length share a root only by colliding, and the colliding bytes can be pointed at. */
  lemma SealedRootBindsLeaves(h: HashFn, a: seq<Digest>, b: seq<Digest>)
    requires |a| == |b| && EpochRoot(h, a) == EpochRoot(h, b)
    ensures a == b || exists i: nat :: i < |a| && |a| > 1 && Collision(h, PartingInputs(h, a, b, i))
  {
    if a != b {
      RootBindsList(NodeHash(h), a, b);
      var i: nat :|
        && i < |a| && |a| > 1
        && Collides(NodeHash(h), Parting(NodeHash(h), a, b, i).0, Parting(NodeHash(h), a, b, i).1);
      var parting := Parting(NodeHash(h), a, b, i);
      CollidingNodesCollide(h, parting.0, parting.1);
      assert Collision(h, PartingInputs(h, a, b, i));
    }
  }

  function PartingInputs(h: HashFn, a: seq<Digest>, b: seq<Digest>, i: nat): (Bytes, Bytes)
    requires |a| == |b| > 1
  {
    var parting := Parting(NodeHash(h), a, b, i);
    (NodeBytes(parting.0), NodeBytes(parting.1))
  }

  /** The index must be checked too: with an odd number of leaves the last one passes at its double. */
  lemma IndexBeyondCountAccepted(h: HashFn, leaves: seq<Digest>)
    requires |leaves| > 1 && |leaves| % 2 == 1
    ensures var last := |leaves| - 1;
      Fold(NodeHash(h), leaves[last], last + 1, Path(NodeHash(h), leaves, last)) == EpochRoot(h, leaves)
  {
    var n := |leaves|;
    PositionStep(n, n);
    assert n / 2 < (n + 1) / 2 && Position((n + 1) / 2, n / 2) == n / 2;
    HonestPathAccepted(NodeHash(h), leaves, n);
  }
}
