/**
 The epoch tree: the root builder of the seeder, the proof builder of the reader and the three
 verifier folds. Everything is stated for an arbitrary hash of two nodes, over arbitrary nodes.
 */
module Merkle {
  type PairHash<!D> = (D, D) -> D

  datatype Children<D> = Children(left: D, right: D)

  /** Two different pairs of children under one parent: what every soundness result falls back on. */
  predicate Collides<D(==)>(f: PairHash<D>, a: Children<D>, b: Children<D>) {
    a != b && f(a.left, a.right) == f(b.left, b.right)
  }

  // ---------------------------------------------------------------------------
  // Layers
  // ---------------------------------------------------------------------------

  /** The children of node k of the layer over s. An unpaired last node is its own partner. */
  function ChildrenOf<D>(s: seq<D>, k: nat): Children<D>
    requires 2 * k < |s|
  {
    Children(s[2 * k], if 2 * k + 1 < |s| then s[2 * k + 1] else s[2 * k])
  }

  function Parent<D>(f: PairHash<D>, s: seq<D>, k: nat): D
    requires 2 * k < |s|
  {
    f(ChildrenOf(s, k).left, ChildrenOf(s, k).right)
  }

  function Above<D>(f: PairHash<D>, s: seq<D>): (t: seq<D>)
    ensures |t| == (|s| + 1) / 2
  {
    seq((|s| + 1) / 2, k requires 0 <= k < (|s| + 1) / 2 => Parent(f, s, k))
  }

  function Sibling<D>(s: seq<D>, i: nat): D
    requires i < |s|
  {
    if i % 2 == 1 then s[i - 1] else if i + 1 < |s| then s[i + 1] else s[i]
  }

  lemma PaddingKeepsParents<D>(f: PairHash<D>, s: seq<D>)
    requires |s| % 2 == 1
    ensures Above(f, s + [s[|s| - 1]]) == Above(f, s)
  {
    var t := s + [s[|s| - 1]];
    forall k: nat | 2 * k < |s| ensures Parent(f, t, k) == Parent(f, s, k) {
      assert ChildrenOf(t, k) == ChildrenOf(s, k);
    }
  }

  /** Hash layer after layer until one node is left. */
  function Root<D>(f: PairHash<D>, s: seq<D>): D
    requires s != []
    decreases |s|
  {
    if |s| == 1 then s[0] else Root(f, Above(f, s))
  }

  /** Siblings of position i on the way up, lowest first. */
  function Path<D>(f: PairHash<D>, s: seq<D>, i: nat): (p: seq<D>)
    requires i < |s|
    ensures |p| == Depth(|s|)
    decreases |s|
  {
    if |s| == 1 then [] else [Sibling(s, i)] + Path(f, Above(f, s), i / 2)
  }

  /** A node with an odd index is a right child. */
  function Join<D>(f: PairHash<D>, node: D, sibling: D, index: nat): D {
    if index % 2 == 1 then f(sibling, node) else f(node, sibling)
  }

  function Fold<D>(f: PairHash<D>, leaf: D, index: nat, proof: seq<D>): D
    decreases |proof|
  {
    if proof == [] then leaf else Fold(f, Join(f, leaf, proof[0], index), index / 2, proof[1..])
  }

  // ---------------------------------------------------------------------------
  // Depth, and the tree seen from the top
  // ---------------------------------------------------------------------------

  function Pow2(d: nat): (p: nat)
    ensures p >= 1
  {
    if d == 0 then 1 else 2 * Pow2(d - 1)
  }

  function Depth(n: nat): nat {
    if n <= 1 then 0 else 1 + Depth((n + 1) / 2)
  }

  /** A proof is as long as the least d for which d levels have room for n leaves. */
  lemma {:induction false} DepthIsLeast(n: nat, d: nat)
    ensures n <= Pow2(d) <==> Depth(n) <= d
  {
    if n <= 1 || d == 0 {
    } else {
      DepthIsLeast((n + 1) / 2, d - 1);
    }
  }

  function Left<D>(s: seq<D>, d: nat): (l: seq<D>)
    requires d > 0 && 1 <= |s| <= Pow2(d)
    ensures 1 <= |l| <= Pow2(d - 1)
  {
    if |s| <= Pow2(d - 1) then s else s[..Pow2(d - 1)]
  }

  /** A half that holds no leaf of its own repeats the other half. */
  function Right<D>(s: seq<D>, d: nat): (r: seq<D>)
    requires d > 0 && 1 <= |s| <= Pow2(d)
    ensures 1 <= |r| <= Pow2(d - 1)
  {
    if |s| <= Pow2(d - 1) then s else s[Pow2(d - 1)..]
  }

  /** The complete binary tree of depth d over s, defined without layers. */
  function Tree<D>(f: PairHash<D>, s: seq<D>, d: nat): D
    requires 1 <= |s| <= Pow2(d)
  {
    if d == 0 then s[0] else f(Tree(f, Left(s, d), d - 1), Tree(f, Right(s, d), d - 1))
  }

  lemma AboveHalves<D>(f: PairHash<D>, s: seq<D>, d: nat)
    requires d > 1 && 1 <= |s| <= Pow2(d)
    ensures Left(Above(f, s), d - 1) == Above(f, Left(s, d))
    ensures Right(Above(f, s), d - 1) == Above(f, Right(s, d))
  {
    var half := Pow2(d - 2);
    assert Pow2(d) == 2 * Pow2(d - 1) && Pow2(d - 1) == 2 * half;
    if |s| > 2 * half {
      HalvesOfAbove(f, s, half);
    }
  }

  lemma HalvesOfAbove<D>(f: PairHash<D>, s: seq<D>, half: nat)
    requires |s| > 2 * half
    ensures Above(f, s)[..half] == Above(f, s[..2 * half])
    ensures Above(f, s)[half..] == Above(f, s[2 * half..])
  {
    var l, r := s[..2 * half], s[2 * half..];
    forall k | 0 <= k < half ensures Above(f, s)[k] == Above(f, l)[k] {
      assert ChildrenOf(s, k) == ChildrenOf(l, k);
    }
    forall k | 0 <= k < |Above(f, r)| ensures Above(f, s)[half + k] == Above(f, r)[k] {
      assert ChildrenOf(s, half + k) == ChildrenOf(r, k);
    }
  }

  lemma LowestLevel<D>(f: PairHash<D>, s: seq<D>)
    requires 1 <= |s| <= Pow2(1)
    ensures |Above(f, s)| == 1 && Tree(f, s, 1) == Above(f, s)[0]
  {
    assert Pow2(1) == 2 && Pow2(0) == 1;
    assert Tree(f, s, 1) == f(Left(s, 1)[0], Right(s, 1)[0]);
  }

  lemma {:induction false} TreeAbove<D>(f: PairHash<D>, s: seq<D>, d: nat)
    requires d > 0 && 1 <= |s| <= Pow2(d)
    ensures 1 <= |Above(f, s)| <= Pow2(d - 1)
    ensures Tree(f, s, d) == Tree(f, Above(f, s), d - 1)
  {
    if d == 1 {
      LowestLevel(f, s);
    } else {
      TreeAbove(f, Left(s, d), d - 1);
      TreeAbove(f, Right(s, d), d - 1);
      AboveHalves(f, s, d);
    }
  }

  /** The layer loop computes the root of the complete tree. */
  lemma {:induction false} RootIsTree<D>(f: PairHash<D>, s: seq<D>)
    requires s != []
    ensures |s| <= Pow2(Depth(|s|)) && Root(f, s) == Tree(f, s, Depth(|s|))
    decreases |s|
  {
    DepthIsLeast(|s|, Depth(|s|));
    if |s| <= 1 {
    } else {
      RootIsTree(f, Above(f, s));
      TreeAbove(f, s, Depth(|s|));
    }
  }

  // ---------------------------------------------------------------------------
  // Positions
  // ---------------------------------------------------------------------------

  /** The leaf an index leads to. Indices from n on are not refused: they lead to some leaf too. */
  function Position(n: nat, i: nat): (c: nat)
    requires n > 0
    ensures c < n
    ensures i < n ==> c == i
  {
    if n == 1 then 0
    else
      var c := 2 * Position((n + 1) / 2, i / 2) + i % 2;
      if c < n then c else n - 1
  }

  function LeafAt<D>(s: seq<D>, i: nat): D
    requires s != []
  {
    s[Position(|s|, i)]
  }

  lemma PositionStep(n: nat, i: nat)
    requires n > 1
    ensures var c, up := Position(n, i), Position((n + 1) / 2, i / 2);
      && 2 * up < n
      && (c == 2 * up + i % 2 || (i % 2 == 1 && c == 2 * up == n - 1))
  {
  }

  lemma JoinIsParent<D>(f: PairHash<D>, s: seq<D>, i: nat)
    requires |s| > 1
    ensures var c, up := Position(|s|, i), Position((|s| + 1) / 2, i / 2);
      && 2 * up < |s| && c / 2 == up
      && Join(f, s[c], Sibling(s, c), i) == Parent(f, s, up)
      && ChildrenOf(s, up) == if i % 2 == 1 then Children(Sibling(s, c), s[c]) else Children(s[c], Sibling(s, c))
  {
    PositionStep(|s|, i);
    var c, up := Position(|s|, i), Position((|s| + 1) / 2, i / 2);
    if c == 2 * up {
      assert c % 2 == 0 && c / 2 == up;
    } else {
      assert c == 2 * up + 1 && i % 2 == 1;
      assert c % 2 == 1 && c / 2 == up;
    }
  }

  /** Completeness: the honest path leads from the leaf at any index to the root. */
  lemma {:induction false} HonestPathAccepted<D>(f: PairHash<D>, s: seq<D>, i: nat)
    requires s != []
    ensures Fold(f, LeafAt(s, i), i, Path(f, s, Position(|s|, i))) == Root(f, s)
    decreases |s|
  {
    if |s| <= 1 {
    } else {
      JoinIsParent(f, s, i);
      HonestPathAccepted(f, Above(f, s), i / 2);
    }
  }

  /** The pairs to compare when x and proof are accepted at index i without being honest. */
  function Forgery<D(==)>(f: PairHash<D>, s: seq<D>, x: D, i: nat, proof: seq<D>): (r: (Children<D>, Children<D>))
    requires |s| > 1 && |proof| == Depth(|s|)
    decreases |s|
  {
    var up, node := Above(f, s), Join(f, x, proof[0], i);
    if |up| == 1 || (node == LeafAt(up, i / 2) && proof[1..] == Path(f, up, Position(|up|, i / 2))) then
      (if i % 2 == 1 then Children(proof[0], x) else Children(x, proof[0]),
       ChildrenOf(s, Position(|up|, i / 2)))
    else
      Forgery(f, up, node, i / 2, proof[1..])
  }

  /**
   Soundness, for every index: an accepted leaf with a proof of the tree's length is the leaf at that
   index's position and its proof is the honest one, or the two paths contain a collision.
   */
  lemma {:induction false} AcceptedIsHonest<D>(f: PairHash<D>, s: seq<D>, x: D, i: nat, proof: seq<D>)
    requires s != [] && |proof| == Depth(|s|)
    requires Fold(f, x, i, proof) == Root(f, s)
    ensures
      || (x == LeafAt(s, i) && proof == Path(f, s, Position(|s|, i)))
      || (|s| > 1 && var forged := Forgery(f, s, x, i, proof); Collides(f, forged.0, forged.1))
    decreases |s|
  {
    if |s| <= 1 {
    } else {
      var up, node := Above(f, s), Join(f, x, proof[0], i);
      AcceptedIsHonest(f, up, node, i / 2, proof[1..]);
      if node == LeafAt(up, i / 2) && proof[1..] == Path(f, up, Position(|up|, i / 2)) {
        HonestBelow(f, s, x, i, proof);
      } else {
        ForgedAbove(f, s, x, i, proof);
      }
    }
  }

  lemma ForgedAbove<D>(f: PairHash<D>, s: seq<D>, x: D, i: nat, proof: seq<D>)
    requires |s| > 1 && |proof| == Depth(|s|) && |Above(f, s)| > 1
    requires var up, node := Above(f, s), Join(f, x, proof[0], i);
      !(node == LeafAt(up, i / 2) && proof[1..] == Path(f, up, Position(|up|, i / 2)))
    ensures Forgery(f, s, x, i, proof) == Forgery(f, Above(f, s), Join(f, x, proof[0], i), i / 2, proof[1..])
  {
    hide Above, Join, LeafAt, Path, Position, ChildrenOf;
  }

  /** Below an honest node and path: the step down is honest, or the two pairs of children collide. */
  lemma HonestBelow<D>(f: PairHash<D>, s: seq<D>, x: D, i: nat, proof: seq<D>)
    requires |s| > 1 && |proof| == Depth(|s|)
    requires var up, node := Above(f, s), Join(f, x, proof[0], i);
      node == LeafAt(up, i / 2) && proof[1..] == Path(f, up, Position(|up|, i / 2))
    ensures
      || (x == LeafAt(s, i) && proof == Path(f, s, Position(|s|, i)))
      || var forged := Forgery(f, s, x, i, proof); Collides(f, forged.0, forged.1)
  {
    JoinIsParent(f, s, i);
    assert proof == [proof[0]] + proof[1..];
  }

  /** Why the length must be checked: a proof cut by one step is accepted for the parent. */
  lemma ShorterProofAcceptsInnerNode<D>(f: PairHash<D>, s: seq<D>, i: nat)
    requires i < |s| && |s| > 1
    ensures var proof := Path(f, s, i);
      Fold(f, Parent(f, s, i / 2), i / 2, proof[1..]) == Root(f, s)
  {
    HonestPathAccepted(f, Above(f, s), i / 2);
  }

  // ---------------------------------------------------------------------------
  // What a root determines
  // ---------------------------------------------------------------------------

  /** Where the trees over s and t part on the way down to position i. */
  function Parting<D(==)>(f: PairHash<D>, s: seq<D>, t: seq<D>, i: nat): (r: (Children<D>, Children<D>))
    requires s != [] && t != [] && Depth(|s|) == Depth(|t|) && |s| > 1
    decreases |s|
  {
    var up, vp := Above(f, s), Above(f, t);
    if |up| == 1 || LeafAt(up, i / 2) == LeafAt(vp, i / 2) then
      (ChildrenOf(s, Position(|up|, i / 2)), ChildrenOf(t, Position(|vp|, i / 2)))
    else
      Parting(f, up, vp, i / 2)
  }

  /** One root, one depth: the two lists agree at every position, or part in a collision. */
  lemma {:induction false} EqualRootsAgree<D>(f: PairHash<D>, s: seq<D>, t: seq<D>, i: nat)
    requires s != [] && t != [] && Depth(|s|) == Depth(|t|)
    requires Root(f, s) == Root(f, t)
    ensures
      || LeafAt(s, i) == LeafAt(t, i)
      || (|s| > 1 && var parting := Parting(f, s, t, i); Collides(f, parting.0, parting.1))
    decreases |s|
  {
    if |s| <= 1 {
    } else {
      EqualRootsAgree(f, Above(f, s), Above(f, t), i / 2);
      JoinIsParent(f, s, i);
      JoinIsParent(f, t, i);
    }
  }

  lemma AgreementRises<D>(f: PairHash<D>, s: seq<D>, t: seq<D>, k: nat)
    requires |s| > 1 && |t| > 1
    requires LeafAt(s, 2 * k) == LeafAt(t, 2 * k) && LeafAt(s, 2 * k + 1) == LeafAt(t, 2 * k + 1)
    ensures LeafAt(Above(f, s), k) == LeafAt(Above(f, t), k)
  {
    assert 2 * k / 2 == k && (2 * k + 1) / 2 == k && 2 * k % 2 == 0 && (2 * k + 1) % 2 == 1;
    RisingPair(s, k);
    RisingPair(t, k);
  }

  lemma RisingPair<D>(s: seq<D>, k: nat)
    requires |s| > 1
    ensures var up := Position((|s| + 1) / 2, k);
      2 * up < |s| && ChildrenOf(s, up) == Children(LeafAt(s, 2 * k), LeafAt(s, 2 * k + 1))
  {
    assert 2 * k / 2 == k && (2 * k + 1) / 2 == k && 2 * k % 2 == 0 && (2 * k + 1) % 2 == 1;
    PositionStep(|s|, 2 * k);
    PositionStep(|s|, 2 * k + 1);
  }

  /** And conversely: agreeing at every position is enough for one root. */
  lemma {:induction false} AgreeingListsShareRoot<D>(f: PairHash<D>, s: seq<D>, t: seq<D>)
    requires s != [] && t != [] && Depth(|s|) == Depth(|t|)
    requires forall i: nat :: LeafAt(s, i) == LeafAt(t, i)
    ensures Root(f, s) == Root(f, t)
    decreases |s|
  {
    if |s| == 1 {
      assert LeafAt(s, 0) == LeafAt(t, 0);
    } else {
      forall k: nat ensures LeafAt(Above(f, s), k) == LeafAt(Above(f, t), k) {
        AgreementRises(f, s, t, k);
      }
      AgreeingListsShareRoot(f, Above(f, s), Above(f, t));
    }
  }

  /** For lists of one length the root determines the list, or some position shows a collision. */
  lemma RootBindsList<D>(f: PairHash<D>, s: seq<D>, t: seq<D>)
    requires |s| == |t| > 0 && Root(f, s) == Root(f, t)
    ensures s == t || exists i: nat :: i < |s| && |s| > 1 && Collides(f, Parting(f, s, t, i).0, Parting(f, s, t, i).1)
  {
    if s != t {
      var i: nat :| i < |s| && s[i] != t[i];
      EqualRootsAgree(f, s, t, i);
    }
  }

  /** Across lengths it does not: repeating the last of an odd number of leaves changes nothing. */
  lemma OddListAndRepeatShareRoot<D>(f: PairHash<D>, s: seq<D>)
    requires |s| % 2 == 1 && |s| > 1
    ensures Root(f, s + [s[|s| - 1]]) == Root(f, s)
  {
    PaddingKeepsParents(f, s);
  }
}
