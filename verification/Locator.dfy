/**
 Block locators: `CChain::GetLocator` (src/chain.cpp) and `FindForkInGlobalIndex` (src/main.cpp).
 */
module Locator {
  import opened NatMath
  import opened BlockTree
  import opened SkipList
  import opened ActiveChain

  /** How far below its start the `k`-th entry of a locator lies: single steps for twelve entries,
      then steps that double. */
  function Offset(k: nat): nat {
    if k <= 11 then k else 9 + Pow2(k - 10)
  }

  lemma {:induction false} OffsetGrows(j: nat, k: nat)
    requires j < k
    ensures Offset(j) < Offset(k)
    decreases k
  {
    if j < k - 1 { OffsetGrows(j, k - 1); }
  }

  function Clamp(h: int): nat {
    if h < 0 then 0 else h
  }

  /** `have` lists the ancestors of `p` at these offsets and ends with the genesis block. */
  ghost predicate IsLocator(t: Tree, p: Ptr, have: seq<Ptr>)
    requires Linked(t) && p in t
  {
    && |have| > 0
    && (forall k :: 0 <= k < |have| ==> have[k] == Path(t, p)[Clamp(t[p].height - Offset(k))])
    && (forall k :: 0 <= k < |have| ==> (Offset(k) >= t[p].height <==> k == |have| - 1))
  }

  /** The step that leads from entry `k` to the next one. */
  function Step(k: nat): nat {
    if k <= 10 then 1 else Pow2(k - 10)
  }

  lemma OffsetStarts()
    ensures Offset(0) == 0 && Step(0) == 1
  {
  }

  lemma StepReachesNextOffset(k: nat)
    ensures Offset(k) + Step(k) == Offset(k + 1)
    ensures Step(k + 1) == if k + 1 > 10 then 2 * Step(k) else Step(k)
  {
    assert Pow2(0) == 1 && Pow2(1) == 2 && Pow2(2) == 4;
  }

  /** From an ancestor of `start`, both ways of going back reach the ancestor of `start`. */
  method StepBack(t: Tree, chain: Chain, ghost start: Ptr, p: Ptr, height: nat) returns (r: Ptr)
    requires Linked(t) && SkipsBuilt(t) && chain.Valid(t) && start in t
    requires p in t && t[p].height <= t[start].height && p == Path(t, start)[t[p].height] && height <= t[p].height
    ensures r == Path(t, start)[height]
  {
    PathOfAncestor(t, start, t[p].height);
    assert Path(t, p)[height] == Path(t, start)[height];
    if chain.Contains(t, p) {
      PathOfAncestor(t, chain.Tip(), t[p].height);
      assert Path(t, p)[height] == chain.vChain[height];
      r := chain.At(height);
    } else {
      ghost var turns;
      r, turns := GetAncestor(t, p, height);
    }
  }

  method LocatorFrom(t: Tree, chain: Chain, start: Ptr) returns (have: seq<Ptr>)
    requires Linked(t) && SkipsBuilt(t) && chain.Valid(t) && start in t
    ensures IsLocator(t, start, have)
  {
    hide SkipsBuilt, Offset;
    ghost var path := Path(t, start);
    OffsetStarts();
    var step := 1;
    have := [];
    var p := start;
    while true
      invariant p == path[Clamp(t[start].height - Offset(|have|))]
      invariant step == Step(|have|)
      invariant forall k :: 0 <= k < |have| ==> have[k] == path[Clamp(t[start].height - Offset(k))]
      invariant forall k :: 0 <= k < |have| ==> Offset(k) < t[start].height
      decreases t[p].height
    {
      StepReachesNextOffset(|have|);
      have := have + [p];
      // Stop when we have added the genesis block.
      if t[p].height == 0 {
        break;
      }
      p := StepBack(t, chain, start, p, Clamp(t[p].height - step));
      if |have| > 10 {
        step := step * 2;
      }
    }
  }

  /** `GetLocator`: by default from the tip. */
  method GetLocator(t: Tree, chain: Chain, from: Ptr) returns (have: seq<Ptr>)
    requires Linked(t) && SkipsBuilt(t) && chain.Valid(t) && Known(t, from)
    ensures from != NULL ==> IsLocator(t, from, have)
    ensures from == NULL && chain.Tip() != NULL ==> IsLocator(t, chain.Tip(), have)
    ensures from == NULL && chain.Tip() == NULL ==> have == []
  {
    var p := if from == NULL then chain.Tip() else from;
    if p == NULL {
      return [];
    }
    have := LocatorFrom(t, chain, p);
  }

  /** Heights strictly decrease, the last entry is the genesis block, and the length is logarithmic. */
  lemma LocatorShape(t: Tree, p: Ptr, have: seq<Ptr>)
    requires Linked(t) && p in t && IsLocator(t, p, have)
    ensures have[0] == p
    ensures have[|have| - 1] == Path(t, p)[0]
    ensures forall j, k :: 0 <= j < k < |have| ==> t[have[k]].height < t[have[j]].height
    ensures |have| <= 12 || Pow2(|have| - 12) < t[p].height
  {
    assert p != NULL;
    hide Offset, Pow2, Linked, Pow;
    OffsetStarts();
    HeightAt(t, p, have, 0);
    var last := |have| - 1;
    HeightAt(t, p, have, last);
    forall k | 0 <= k < |have| ensures have[k] in t { HeightAt(t, p, have, k); }
    forall j, k | 0 <= j < k < |have| ensures t[have[k]].height < t[have[j]].height {
      OffsetGrows(j, k);
      HeightAt(t, p, have, j);
      HeightAt(t, p, have, k);
    }
    if |have| > 12 {
      HeightAt(t, p, have, last - 1);
      OffsetLarge(last - 1);
      assert last - 1 - 10 == |have| - 12;
    }
  }

  lemma HeightAt(t: Tree, p: Ptr, have: seq<Ptr>, k: nat)
    requires Linked(t) && p in t && IsLocator(t, p, have) && k < |have|
    ensures have[k] in t && t[have[k]].height == Clamp(t[p].height - Offset(k)) && (k < |have| - 1 ==> Offset(k) < t[p].height)
    ensures k == |have| - 1 ==> Offset(k) >= t[p].height
  {
  }

  lemma OffsetLarge(k: nat)
    requires k >= 11
    ensures Pow2(k - 10) < Offset(k)
  {
  }

  method FindForkInGlobalIndex(t: Tree, chain: Chain, have: seq<Ptr>) returns (r: Ptr)
    requires Linked(t) && chain.Valid(t)
    ensures (exists i :: 0 <= i < |have| && IsFirstOnChain(chain.vChain, have, i) && r == have[i])
         || ((forall i :: 0 <= i < |have| ==> have[i] !in chain.vChain) && r == chain.Genesis())
  {
    for i := 0 to |have|
      invariant forall j :: 0 <= j < i ==> have[j] !in chain.vChain
    {
      if have[i] in t {
        chain.ContainsIsAncestry(t, have[i]);
        if chain.Contains(t, have[i]) {
          assert IsFirstOnChain(chain.vChain, have, i);
          return have[i];
        }
      }
    }
    return chain.Genesis();
  }

  predicate IsFirstOnChain(chain: seq<Ptr>, have: seq<Ptr>, i: nat)
    requires i < |have|
  {
    have[i] in chain && forall j :: 0 <= j < i ==> have[j] !in chain
  }

  /** Two nodes hold entries of the same blocks: a hash commits to everything below it. */
  ghost predicate Agree(t: Tree, u: Tree) {
    forall p :: p in t && p in u ==> t[p] == u[p]
  }

  lemma {:induction false} AgreeingPaths(t: Tree, u: Tree, p: Ptr)
    requires Linked(t) && Linked(u) && Agree(t, u) && Known(t, p) && Known(u, p)
    ensures Path(t, p) == Path(u, p)
    decreases HeightOf(t, p) + 1
  {
    if p != NULL {
      assert NodeLinked(t, p) && NodeLinked(u, p);
      AgreeingPaths(t, u, t[p].prev);
    }
  }

  /** The path of `p` meets the chain with tip `tip` up to height `f` and not above. */
  ghost predicate ForksAt(t: Tree, p: Ptr, u: Tree, tip: Ptr, f: nat)
    requires Linked(t) && p in t && Linked(u) && Known(u, tip)
  {
    && f <= t[p].height
    && Path(t, p)[f] in Path(u, tip)
    && forall i :: f < i <= t[p].height ==> Path(t, p)[i] !in Path(u, tip)
  }

  lemma BelowTheFork(t: Tree, p: Ptr, u: Tree, tip: Ptr, f: nat, i: nat)
    requires Linked(t) && Linked(u) && Agree(t, u) && p in t && Known(u, tip)
    requires ForksAt(t, p, u, tip, f) && i <= f
    ensures Path(t, p)[i] in Path(u, tip)
  {
    var x := Path(t, p)[f];
    AncestorAtHeight(u, x, tip);
    PathOfAncestor(t, p, f);
    PathOfAncestor(u, tip, u[x].height);
    AgreeingPaths(t, u, x);
    assert Path(t, p)[i] == Path(t, x)[i] == Path(u, x)[i] == Path(u, tip)[i];
  }

  /** The entry the peer answers with: a common ancestor, at most twice as far back as the true fork. */
  lemma LocatorFindsNearFork(t: Tree, p: Ptr, have: seq<Ptr>, u: Tree, tip: Ptr, f: nat, k: nat)
    requires Linked(t) && Linked(u) && Agree(t, u) && p in t && Known(u, tip)
    requires IsLocator(t, p, have) && ForksAt(t, p, u, tip, f)
    requires k < |have| && IsFirstOnChain(Path(u, tip), have, k)
    ensures have[k] in Path(t, p) && have[k] in Path(u, tip)
    ensures t[have[k]].height <= f
    ensures t[p].height - t[have[k]].height <= 2 * (t[p].height - f)
  {
    var h := t[have[k]].height;
    if k > 0 && t[have[k - 1]].height <= f {
      BelowTheFork(t, p, u, tip, f, t[have[k - 1]].height);
      assert false;
    }
    if k > 11 {
      assert Offset(k) == 2 * Offset(k - 1) - 9 by {
        if k > 12 { assert Pow2(k - 10) == 2 * Pow2(k - 11); }
      }
    }
  }

  /** A locator always has an entry on the peer's chain when both start at the same genesis block,
      so the fallback to the genesis block is never taken. */
  lemma LocatorAlwaysHits(t: Tree, p: Ptr, have: seq<Ptr>, u: Tree, tip: Ptr, f: nat)
    requires Linked(t) && Linked(u) && Agree(t, u) && p in t && Known(u, tip)
    requires IsLocator(t, p, have) && ForksAt(t, p, u, tip, f)
    ensures exists i :: 0 <= i < |have| && have[i] in Path(u, tip)
  {
    LocatorShape(t, p, have);
    BelowTheFork(t, p, u, tip, f, 0);
    assert have[|have| - 1] in Path(u, tip);
  }

  /** The whole exchange: one node builds a locator from `p`, another answers from its own index. */
  method LocateFork(t: Tree, mine: Chain, p: Ptr, u: Tree, theirs: Chain, ghost f: nat) returns (r: Ptr)
    requires Linked(t) && SkipsBuilt(t) && mine.Valid(t) && p in t
    requires Linked(u) && theirs.Valid(u) && Agree(t, u)
    requires ForksAt(t, p, u, theirs.Tip(), f)
    ensures r in t && Ancestor(t, r, p) && Ancestor(u, r, theirs.Tip())
    ensures t[r].height <= f && t[p].height - t[r].height <= 2 * (t[p].height - f)
  {
    var have := GetLocator(t, mine, p);
    r := FindForkInGlobalIndex(u, theirs, have);
    LocatorAlwaysHits(t, p, have, u, theirs.Tip(), f);
    var k :| 0 <= k < |have| && IsFirstOnChain(theirs.vChain, have, k) && r == have[k];
    LocatorFindsNearFork(t, p, have, u, theirs.Tip(), f, k);
  }
}
