/**
 The Merkle tree of a block: `CBlock::BuildMerkleTree`, `GetMerkleBranch` and `CheckMerkleBranch`
 (src/primitives/block.cpp).  A level of odd length is filled up with its last hash, so that different lists of
 transactions can have the same root; which ones do is said exactly, and that the test made while building finds them.
 */
module MerkleTree {
  import opened NatMath
  import opened PartialMerkle
  import PartialMerkleTree

  // ----- levels

  /** The second child of a node. */
  function Second(n: nat, i: nat): nat
    requires n > 0
  {
    if 2 * i + 1 < n then 2 * i + 1 else n - 1
  }

  function Level(node: NodeHash, s: seq<Hash>): (r: seq<Hash>)
    requires s != []
    ensures |r| == (|s| + 1) / 2 && forall i :: 0 <= i < |r| ==> r[i] == node(s[2 * i], s[Second(|s|, i)])
  {
    seq<Hash>((|s| + 1) / 2, i requires 0 <= i < (|s| + 1) / 2 => node(s[2 * i], s[Second(|s|, i)]))
  }

  function MerkleRoot(node: NodeHash, s: seq<Hash>): Hash
    decreases |s|
  {
    if s == [] then NULL_HASH else if |s| == 1 then s[0] else MerkleRoot(node, Level(node, s))
  }

  /** Two identical hashes at the end of a level. */
  predicate Twins(s: seq<Hash>) {
    |s| > 1 && |s| % 2 == 0 && s[|s| - 2] == s[|s| - 1]
  }

  predicate Mutated(node: NodeHash, s: seq<Hash>)
    decreases |s|
  {
    |s| > 1 && (Twins(s) || Mutated(node, Level(node, s)))
  }

  /** All levels one after another. */
  function AllLevels(node: NodeHash, s: seq<Hash>): (r: seq<Hash>)
    ensures s <= r && (s == [] <==> r == [])
    decreases |s|
  {
    if |s| <= 1 then s else s + AllLevels(node, Level(node, s))
  }

  /** One level is computed from the one before, which ends the list. */
  method AddLevel(node: NodeHash, tree: seq<Hash>, j: nat, nSize: nat) returns (tree': seq<Hash>, twins: bool)
    requires nSize > 1 && j + nSize == |tree|
    ensures tree' == tree + Level(node, tree[j..]) && twins == Twins(tree[j..])
  {
    tree', twins := tree, false;
    ghost var s := tree[j..];
    var i := 0;
    while i < nSize
      invariant i % 2 == 0 && 0 <= i <= nSize + 1 && |tree'| == |tree| + i / 2 && tree <= tree'
      invariant forall k :: 0 <= k < i / 2 ==> tree'[|tree| + k] == Level(node, s)[k]
      invariant twins == (i >= nSize && Twins(s))
    {
      var i2 := if i + 1 <= nSize - 1 then i + 1 else nSize - 1;
      assert tree'[j + i] == s[i] && tree'[j + i2] == s[i2] && i2 == Second(nSize, i / 2);
      if i2 == i + 1 && i2 + 1 == nSize && tree'[j + i] == tree'[j + i2] {
        // Two identical hashes at the end of the list at a particular level.
        twins := true;
      }
      tree' := tree' + [node(tree'[j + i], tree'[j + i2])];
      i := i + 2;
    }
    assert tree' == tree + Level(node, s);
  }

  /** The levels up to the one that begins at `j` and ends the list have been computed. */
  ghost predicate Building(node: NodeHash, txids: seq<Hash>, tree: seq<Hash>, j: nat, mutated: bool) {
    && j <= |tree| && (tree[j..] == [] <==> txids == [])
    && AllLevels(node, txids) == tree[..j] + AllLevels(node, tree[j..])
    && MerkleRoot(node, txids) == MerkleRoot(node, tree[j..])
    && (Mutated(node, txids) <==> mutated || Mutated(node, tree[j..]))
  }

  lemma BuildingStarts(node: NodeHash, txids: seq<Hash>)
    ensures Building(node, txids, txids, 0, false)
  {
    assert txids[0..] == txids && txids[..0] == [];
  }

  lemma OneLevelUp(node: NodeHash, s: seq<Hash>)
    requires |s| > 1
    ensures AllLevels(node, s) == s + AllLevels(node, Level(node, s)) && MerkleRoot(node, s) == MerkleRoot(node, Level(node, s))
    ensures Mutated(node, s) <==> Twins(s) || Mutated(node, Level(node, s))
  {
  }

  lemma BuildingStep(node: NodeHash, txids: seq<Hash>, tree: seq<Hash>, j: nat, mutated: bool)
    requires Building(node, txids, tree, j, mutated) && |tree[j..]| > 1
    ensures Building(node, txids, tree + Level(node, tree[j..]), |tree|, mutated || Twins(tree[j..]))
  {
    var s := tree[j..];
    var l := Level(node, s);
    assert (tree + l)[|tree|..] == l && (tree + l)[..|tree|] == tree;
    OneLevelUp(node, s);
    hide AllLevels, MerkleRoot, Mutated, Twins, Level;
    assert tree == tree[..j] + s;
    assert (tree[..j] + s) + AllLevels(node, l) == tree[..j] + (s + AllLevels(node, l));
  }

  lemma BuildingEnds(node: NodeHash, txids: seq<Hash>, tree: seq<Hash>, j: nat, mutated: bool)
    requires Building(node, txids, tree, j, mutated) && |tree[j..]| <= 1
    ensures tree == AllLevels(node, txids) && mutated == Mutated(node, txids)
    ensures MerkleRoot(node, txids) == if tree == [] then NULL_HASH else tree[|tree| - 1]
    ensures tree[j..] == [] ==> tree == []
  {
    assert tree[..j] + tree[j..] == tree;
    if txids == [] { assert tree == AllLevels(node, txids); }
  }

  /** `BuildMerkleTree`. */
  method BuildMerkleTree(node: NodeHash, txids: seq<Hash>) returns (vMerkleTree: seq<Hash>, mutated: bool, root: Hash)
    ensures vMerkleTree == AllLevels(node, txids) && mutated == Mutated(node, txids) && root == MerkleRoot(node, txids)
  {
    hide Building, AllLevels, Mutated, MerkleRoot;
    vMerkleTree, mutated := txids, false;
    BuildingStarts(node, txids);
    var j: nat, nSize: nat := 0, |txids|;
    while nSize > 1
      invariant j + nSize == |vMerkleTree| && Building(node, txids, vMerkleTree, j, mutated)
      decreases nSize
    {
      BuildingStep(node, txids, vMerkleTree, j, mutated);
      var twins;
      vMerkleTree, twins := AddLevel(node, vMerkleTree, j, nSize);
      mutated := mutated || twins;
      j := j + nSize;
      nSize := (nSize + 1) / 2;
    }
    BuildingEnds(node, txids, vMerkleTree, j, mutated);
    root := if vMerkleTree == [] then NULL_HASH else vMerkleTree[|vMerkleTree| - 1];
  }

  // ----- the same tree as that of the partial trees

  ghost function Nth(node: NodeHash, s: seq<Hash>, h: nat): (r: seq<Hash>)
    requires s != []
    ensures r != []
  {
    if h == 0 then s else Level(node, Nth(node, s, h - 1))
  }

  /** A hash of a level, by its children. */
  lemma LevelAt(node: NodeHash, s: seq<Hash>, pos: nat)
    requires s != []
    ensures pos < |Level(node, s)| <==> 2 * pos < |s|
    ensures 2 * pos < |s| ==> Level(node, s)[pos] == node(s[2 * pos], s[if 2 * pos + 1 < |s| then 2 * pos + 1 else 2 * pos])
  {
  }

  lemma {:induction false} NthIsCalcHash(node: NodeHash, s: seq<Hash>, h: nat, pos: nat)
    requires s != []
    ensures pos < |Nth(node, s, h)| <==> Exists(|s|, h, pos)
    ensures pos < |Nth(node, s, h)| ==> Nth(node, s, h)[pos] == CalcHash(node, s, h, pos)
    decreases h
  {
    hide Width, CalcHash, Exists, Level;
    if h == 0 {
      LeafRange(|s|, pos);
      if pos < |s| { LeafHash(node, s, pos); }
    } else {
      NthIsCalcHash(node, s, h - 1, 2 * pos);
      NthIsCalcHash(node, s, h - 1, 2 * pos + 1);
      HalfExists(|s|, h, pos);
      LevelAt(node, Nth(node, s, h - 1), pos);
      if Exists(|s|, h, pos) { CalcHashStep(node, s, h, pos); }
    }
  }

  lemma LeafHash(node: NodeHash, s: seq<Hash>, pos: nat)
    requires pos < |s|
    ensures Exists(|s|, 0, pos) && CalcHash(node, s, 0, pos) == s[pos]
  {
    LeafRange(|s|, pos);
  }

  lemma HalfExists(n: nat, h: nat, pos: nat)
    requires h > 0
    ensures Exists(n, h, pos) <==> Exists(n, h - 1, 2 * pos)
  {
    MulAssoc(pos, 2, Pow2(h - 1));
  }

  lemma CalcHashStep(node: NodeHash, s: seq<Hash>, h: nat, pos: nat)
    requires h > 0 && Exists(|s|, h, pos)
    ensures Exists(|s|, h - 1, 2 * pos)
    ensures CalcHash(node, s, h, pos) ==
              node(CalcHash(node, s, h - 1, 2 * pos),
                   CalcHash(node, s, h - 1, if Exists(|s|, h - 1, 2 * pos + 1) then 2 * pos + 1 else 2 * pos))
  {
    Children(|s|, h, pos);
  }

  lemma {:induction false} RootOfNth(node: NodeHash, s: seq<Hash>, h: nat)
    requires s != [] && forall k :: 0 <= k < h ==> |Nth(node, s, k)| > 1
    ensures MerkleRoot(node, s) == MerkleRoot(node, Nth(node, s, h))
    decreases h
  {
    if h > 0 {
      RootOfNth(node, s, h - 1);
      assert |Nth(node, s, h - 1)| > 1;
    }
  }

  /** The root of a block is the root that partial trees are checked against. */
  lemma SameRoot(node: NodeHash, txids: seq<Hash>, h: nat)
    requires txids != [] && PartialMerkleTree.IsHeight(|txids|, h)
    ensures PartialMerkleTree.Root(node, txids, h) == MerkleRoot(node, txids)
  {
    hide Width;
    forall k | 0 <= k <= h ensures |Nth(node, txids, k)| > 1 <==> Width(|txids|, k) > 1 {
      NthIsCalcHash(node, txids, k, 1);
      WidthIff(|txids|, k, 1);
    }
    RootOfNth(node, txids, h);
    NthIsCalcHash(node, txids, h, 0);
  }

  // ----- which lists have the same root

  /** How many levels there are above the transactions. */
  function Height(n: nat): nat {
    if n <= 1 then 0 else 1 + Height((n + 1) / 2)
  }

  /** A level is determined by its parent level, up to one more hash at the end that repeats the last. */
  lemma LevelDetermines(node: NodeHash, a: seq<Hash>, b: seq<Hash>)
    requires Injective(node) && a != [] && b != [] && Level(node, a) == Level(node, b) && |b| <= |a|
    ensures a == b || (Twins(a) && b == a[..|a| - 1])
  {
    var l := Level(node, a);
    forall i | 0 <= i < |l| ensures a[2 * i] == b[2 * i] && a[Second(|a|, i)] == b[Second(|b|, i)] {
      assert l[i] == node(a[2 * i], a[Second(|a|, i)]) == node(b[2 * i], b[Second(|b|, i)]);
    }
    forall i | 0 <= i < |b| ensures a[i] == b[i] {
      if i % 2 == 1 {
        assert Second(|b|, i / 2) == i && Second(|a|, i / 2) == i && 0 <= i / 2 < |l|;
      } else {
        assert 2 * (i / 2) == i && 0 <= i / 2 < |l|;
      }
    }
    if |b| < |a| {
      var k := |l| - 1;
      assert |a| == |b| + 1 && |a| == 2 * k + 2;
      assert a[2 * k] == b[2 * k] && a[Second(|a|, k)] == b[Second(|b|, k)];
      assert b == a[..|a| - 1];
    } else {
      assert a == b;
    }
  }

  /** A level of more than two hashes ends in twins. */
  predicate Ambiguous(node: NodeHash, s: seq<Hash>)
    decreases |s|
  {
    |s| > 2 && (Twins(s) || Ambiguous(node, Level(node, s)))
  }

  /** Of two lists with equally many levels and the same root the longer one is ambiguous. */
  lemma {:induction false} SameHeightSameRoot(node: NodeHash, a: seq<Hash>, b: seq<Hash>)
    requires Injective(node) && a != [] && b != [] && Height(|a|) == Height(|b|) && |b| <= |a|
    requires MerkleRoot(node, a) == MerkleRoot(node, b)
    ensures a == b || (|b| < |a| && Ambiguous(node, a))
    decreases |a|
  {
    hide Injective;
    if |a| > 1 {
      var la, lb := Level(node, a), Level(node, b);
      SameHeightSameRoot(node, la, lb);
      if la == lb {
        LevelDetermines(node, a, b);
      }
    }
  }

  /** `x` is made of `leaf` by taking parents `h` times, from the left child always. */
  ghost predicate Under(node: NodeHash, x: Hash, h: nat, leaf: Hash)
    decreases h
  {
    if h == 0 then x == leaf else exists y, z :: x == node(y, z) && Under(node, y, h - 1, leaf)
  }

  lemma {:induction false} UnderMore(node: NodeHash, x: Hash, h: nat, y: Hash, z: Hash)
    requires Under(node, x, h, node(y, z))
    ensures Under(node, x, h + 1, y)
    decreases h
  {
    if h == 0 {
      assert Under(node, y, 0, y);
    } else {
      var y', z' :| x == node(y', z') && Under(node, y', h - 1, node(y, z));
      UnderMore(node, y', h - 1, y, z);
    }
  }

  lemma {:induction false} FirstUnder(node: NodeHash, s: seq<Hash>)
    requires s != []
    ensures Under(node, MerkleRoot(node, s), Height(|s|), s[0])
    decreases |s|
  {
    hide Under;
    if |s| > 1 {
      var l := Level(node, s);
      FirstUnder(node, l);
      assert l[0] == node(s[0], s[Second(|s|, 0)]);
      UnderMore(node, MerkleRoot(node, s), Height(|l|), s[0], s[Second(|s|, 0)]);
    } else {
      UnderItself(node, s[0]);
    }
  }

  lemma UnderItself(node: NodeHash, x: Hash)
    ensures Under(node, x, 0, x)
  {
  }

  lemma {:induction false} DeeperIsNode(node: NodeHash, x: Hash, h: nat, leaf: Hash, h': nat, leaf': Hash)
    requires Injective(node) && Under(node, x, h, leaf) && Under(node, x, h', leaf') && h < h'
    ensures exists y, z :: leaf == node(y, z)
    decreases h
  {
    var y', z' :| x == node(y', z') && Under(node, y', h' - 1, leaf');
    if h > 0 {
      var y, z :| x == node(y, z) && Under(node, y, h - 1, leaf);
      assert y == y';
      DeeperIsNode(node, y, h - 1, leaf, h' - 1, leaf');
    }
  }

  /** No transaction id is the hash of two others. */
  ghost predicate NoNode(node: NodeHash, s: seq<Hash>) {
    forall i, y, z {:trigger s[i], node(y, z)} :: 0 <= i < |s| ==> s[i] != node(y, z)
  }

  lemma SameRootSameHeight(node: NodeHash, a: seq<Hash>, b: seq<Hash>)
    requires Injective(node) && a != [] && b != [] && NoNode(node, a) && NoNode(node, b) && MerkleRoot(node, a) == MerkleRoot(node, b)
    ensures Height(|a|) == Height(|b|)
  {
    hide Under, Injective, MerkleRoot, Height;
    FirstUnder(node, a);
    FirstUnder(node, b);
    var x := MerkleRoot(node, a);
    if Height(|a|) < Height(|b|) {
      DeeperIsNode(node, x, Height(|a|), a[0], Height(|b|), b[0]);
      assert false;
    }
    if Height(|b|) < Height(|a|) {
      DeeperIsNode(node, x, Height(|b|), b[0], Height(|a|), a[0]);
      assert false;
    }
  }

  lemma {:induction false} AmbiguousIsMutated(node: NodeHash, s: seq<Hash>)
    requires Ambiguous(node, s)
    ensures Mutated(node, s)
    decreases |s|
  {
    if !Twins(s) { AmbiguousIsMutated(node, Level(node, s)); }
  }

  /** The two hashes below the root are the same. */
  predicate TopTwins(node: NodeHash, s: seq<Hash>)
    decreases |s|
  {
    if |s| <= 2 then |s| == 2 && s[0] == s[1] else TopTwins(node, Level(node, s))
  }

  /** The test also fails when only the two hashes below the root are the same, although no shorter list has that root. */
  lemma {:induction false} MutatedExactly(node: NodeHash, s: seq<Hash>)
    ensures Mutated(node, s) <==> Ambiguous(node, s) || TopTwins(node, s)
    decreases |s|
  {
    if |s| > 2 {
      MutatedExactly(node, Level(node, s));
    } else if |s| == 2 {
      assert |Level(node, s)| == 1;
    }
  }

  /** The promise of the test: with no collisions, two lists that pass it and have the same root are the same. */
  lemma UnmutatedIsUnique(node: NodeHash, a: seq<Hash>, b: seq<Hash>)
    requires Injective(node) && a != [] && b != [] && NoNode(node, a) && NoNode(node, b)
    requires !Mutated(node, a) && !Mutated(node, b) && MerkleRoot(node, a) == MerkleRoot(node, b)
    ensures a == b
  {
    hide Injective, NoNode, Mutated, Ambiguous, MerkleRoot, Height;
    SameRootSameHeight(node, a, b);
    if |b| <= |a| {
      SameHeightSameRoot(node, a, b);
      if a != b { AmbiguousIsMutated(node, a); }
    } else {
      SameHeightSameRoot(node, b, a);
      if a != b { AmbiguousIsMutated(node, b); }
    }
  }

  lemma DropTwin(node: NodeHash, s: seq<Hash>)
    requires Twins(s) && |s| > 2
    ensures Level(node, s[..|s| - 1]) == Level(node, s)
  {
    var t := s[..|s| - 1];
    var a, b := Level(node, t), Level(node, s);
    forall i | 0 <= i < |b| ensures a[i] == b[i] {
      assert t[2 * i] == s[2 * i];
      assert t[Second(|t|, i)] == s[Second(|s|, i)];
    }
  }

  lemma LevelOfPrefix(node: NodeHash, s: seq<Hash>, q: nat)
    requires 0 < 2 * q <= |s|
    ensures Level(node, s[..2 * q]) == Level(node, s)[..q]
  {
    var a, b := Level(node, s[..2 * q]), Level(node, s)[..q];
    forall i | 0 <= i < q ensures a[i] == b[i] {
      assert Second(2 * q, i) == Second(|s|, i) == 2 * i + 1;
    }
  }

  /** An ambiguous list has the same root as a shorter one, its own beginning. */
  lemma {:induction false} AmbiguousHasShorter(node: NodeHash, s: seq<Hash>) returns (q: nat)
    requires Ambiguous(node, s)
    ensures 0 < q < |s| && MerkleRoot(node, s[..q]) == MerkleRoot(node, s)
    decreases |s|
  {
    if Twins(s) {
      q := |s| - 1;
      DropTwin(node, s);
    } else {
      var k := AmbiguousHasShorter(node, Level(node, s));
      q := 2 * k;
      LevelOfPrefix(node, s, k);
    }
  }

  /** A list shares its root with a shorter one exactly when a level of more than two hashes ends in twins. */
  lemma SharedRootExactly(node: NodeHash, a: seq<Hash>)
    requires Injective(node) && a != [] && NoNode(node, a)
    ensures Ambiguous(node, a) <==> exists b :: SharesRoot(node, a, b) && |b| < |a|
  {
    hide Injective, Ambiguous, MerkleRoot, Height;
    if Ambiguous(node, a) {
      var q := AmbiguousHasShorter(node, a);
      assert SharesRoot(node, a, a[..q]);
    }
    if b: seq<Hash> :| SharesRoot(node, a, b) && |b| < |a| {
      SameRootSameHeight(node, a, b);
      SameHeightSameRoot(node, a, b);
    }
  }

  ghost predicate SharesRoot(node: NodeHash, a: seq<Hash>, b: seq<Hash>) {
    b != [] && NoNode(node, b) && MerkleRoot(node, b) == MerkleRoot(node, a)
  }

  /** Without a repeated transaction the test never fails. */
  lemma {:induction false} DistinctIsUnmutated(node: NodeHash, s: seq<Hash>)
    requires Injective(node) && Distinct(s)
    ensures !Mutated(node, s)
    decreases |s|
  {
    if |s| > 1 {
      var l := Level(node, s);
      forall i, j | 0 <= i < j < |l| ensures l[i] != l[j] {
        assert s[2 * i] != s[2 * j];
      }
      DistinctIsUnmutated(node, l);
    }
  }

  // ----- branches

  /** The place of the other child, or of the hash itself if there is none. */
  function Sibling(i: nat, n: nat): nat
    requires i < n
  {
    if i % 2 == 1 then i - 1 else if i + 1 < n then i + 1 else n - 1
  }

  function Branch(node: NodeHash, s: seq<Hash>, i: nat): seq<Hash>
    requires i < |s|
    decreases |s|
  {
    if |s| <= 1 then [] else [s[Sibling(i, |s|)]] + Branch(node, Level(node, s), i / 2)
  }

  /** Hashing up along a branch. */
  function Climb(node: NodeHash, hash: Hash, branch: seq<Hash>, i: nat): Hash
    decreases |branch|
  {
    if branch == [] then hash
    else Climb(node, if i % 2 == 1 then node(branch[0], hash) else node(hash, branch[0]), branch[1..], i / 2)
  }

  lemma NextLevels(node: NodeHash, tree: seq<Hash>, j: nat, s: seq<Hash>)
    requires j <= |tree| && tree[j..] == AllLevels(node, s) && |s| > 1
    ensures j + |s| <= |tree| && tree[j + |s|..] == AllLevels(node, Level(node, s)) && forall i :: 0 <= i < |s| ==> tree[j + i] == s[i]
  {
    var rest := AllLevels(node, Level(node, s));
    assert tree[j..] == s + rest;
    hide AllLevels;
    assert tree[j..][|s|..] == tree[j + |s|..];
    forall i | 0 <= i < |s| ensures tree[j + i] == s[i] { assert tree[j..][i] == (s + rest)[i]; }
  }

  lemma NextSibling(node: NodeHash, s: seq<Hash>, i: nat)
    requires i < |s| && |s| > 1
    ensures i / 2 < |Level(node, s)| && Branch(node, s, i) == [s[Sibling(i, |s|)]] + Branch(node, Level(node, s), i / 2)
  {
  }

  /** `GetMerkleBranch`, from all the levels. */
  method GetMerkleBranch(node: NodeHash, vMerkleTree: seq<Hash>, txids: seq<Hash>, nIndex: nat) returns (branch: seq<Hash>)
    requires vMerkleTree == AllLevels(node, txids) && nIndex < |txids|
    ensures branch == Branch(node, txids, nIndex)
  {
    hide AllLevels, Branch;
    branch := [];
    ghost var s := txids;
    var index: nat, j: nat, nSize: nat := nIndex, 0, |txids|;
    while nSize > 1
      invariant |s| == nSize && j <= |vMerkleTree| && vMerkleTree[j..] == AllLevels(node, s) && index < nSize
      invariant branch + Branch(node, s, index) == Branch(node, txids, nIndex)
      decreases nSize
    {
      NextLevels(node, vMerkleTree, j, s);
      NextSibling(node, s, index);
      var i := Sibling(index, nSize);
      assert branch + ([s[i]] + Branch(node, Level(node, s), index / 2)) == (branch + [s[i]]) + Branch(node, Level(node, s), index / 2);
      branch := branch + [vMerkleTree[j + i]];
      index := index / 2;
      j := j + nSize;
      s := Level(node, s);
      nSize := (nSize + 1) / 2;
    }
    NoSibling(node, s, index);
  }

  lemma NoSibling(node: NodeHash, s: seq<Hash>, i: nat)
    requires i < |s| <= 1
    ensures Branch(node, s, i) == []
  {
  }

  /** `CheckMerkleBranch`. */
  method CheckMerkleBranch(node: NodeHash, hash: Hash, branch: seq<Hash>, nIndex: int) returns (r: Hash)
    requires nIndex >= -1
    ensures r == if nIndex == -1 then NULL_HASH else Climb(node, hash, branch, nIndex)
  {
    if nIndex == -1 {
      return NULL_HASH;
    }
    r := hash;
    var index := nIndex;
    for k := 0 to |branch|
      invariant index >= 0 && Climb(node, r, branch[k..], index) == Climb(node, hash, branch, nIndex)
    {
      assert branch[k..][1..] == branch[k + 1..];
      if index % 2 == 1 {
        r := node(branch[k], r);
      } else {
        r := node(r, branch[k]);
      }
      index := index / 2;
    }
  }

  /** The branch of a transaction leads to the root. */
  lemma {:induction false} BranchProves(node: NodeHash, s: seq<Hash>, i: nat)
    requires i < |s|
    ensures |Branch(node, s, i)| == Height(|s|) && Climb(node, s[i], Branch(node, s, i), i) == MerkleRoot(node, s)
    decreases |s|
  {
    if |s| > 1 {
      var l := Level(node, s);
      BranchProves(node, l, i / 2);
      var b := Branch(node, s, i);
      assert b[1..] == Branch(node, l, i / 2);
      ParentOf(node, s, i);
    }
  }

  lemma ParentOf(node: NodeHash, s: seq<Hash>, i: nat)
    requires i < |s| && |s| > 1
    ensures i / 2 < |Level(node, s)|
    ensures Level(node, s)[i / 2] == if i % 2 == 1 then node(s[Sibling(i, |s|)], s[i]) else node(s[i], s[Sibling(i, |s|)])
  {
    var k := i / 2;
    assert Level(node, s)[k] == node(s[2 * k], s[Second(|s|, k)]);
  }

  /** Whatever branch of the right length leads to the root from a place in the block starts at the transaction there. */
  lemma {:induction false} BranchIsAuthentic(node: NodeHash, s: seq<Hash>, i: nat, hash: Hash, branch: seq<Hash>)
    requires Injective(node) && i < |s| && |branch| == Height(|s|) && Climb(node, hash, branch, i) == MerkleRoot(node, s)
    ensures hash == s[i] && branch == Branch(node, s, i)
    decreases |s|
  {
    if |s| > 1 {
      var l := Level(node, s);
      var up := if i % 2 == 1 then node(branch[0], hash) else node(hash, branch[0]);
      BranchIsAuthentic(node, l, i / 2, up, branch[1..]);
      ParentOf(node, s, i);
      assert branch == [branch[0]] + branch[1..];
    }
  }
}
