/**
 The vector of active blocks: class `CChain` (src/chain.h, src/chain.cpp).
 */
module ActiveChain {
  import opened BlockTree
  import opened SkipList

  class Chain {
    var vChain: seq<Ptr>

    constructor ()
      ensures vChain == []
    {
      vChain := [];
    }

    function Tip(): Ptr
      reads this
    {
      if |vChain| > 0 then vChain[|vChain| - 1] else NULL
    }

    function Genesis(): Ptr
      reads this
    {
      if |vChain| > 0 then vChain[0] else NULL
    }

    function Height(): int
      reads this
    {
      |vChain| - 1
    }

    function At(height: int): Ptr
      reads this
    {
      if height < 0 || height >= |vChain| then NULL else vChain[height]
    }

    predicate Contains(t: Tree, p: Ptr)
      requires p in t
      reads this
    {
      At(t[p].height) == p
    }

    function Next(t: Tree, p: Ptr): Ptr
      requires p in t
      reads this
    {
      if Contains(t, p) then At(t[p].height + 1) else NULL
    }

    /** The vector is the full path of its last element. */
    ghost predicate Valid(t: Tree)
      requires Linked(t)
      reads this
    {
      Known(t, Tip()) && vChain == Path(t, Tip())
    }

    /** The constant-time test decides ancestry of the tip. */
    lemma ContainsIsAncestry(t: Tree, p: Ptr)
      requires Linked(t) && Valid(t) && p in t
      ensures Contains(t, p) <==> Ancestor(t, p, Tip())
    {
      AncestorAtHeight(t, p, Tip());
    }

    /** `Next` is the one child of a block on the chain that is on it too. */
    lemma NextIsChild(t: Tree, p: Ptr, q: Ptr)
      requires Linked(t) && Valid(t) && p in t && q in t
      ensures Next(t, p) == q <==> Contains(t, p) && Contains(t, q) && t[q].prev == p
    {
      assert NodeLinked(t, q) && NodeLinked(t, p);
      var h := t[q].height;
      if 0 < h < |vChain| {
        PrevOnPath(t, Tip(), h);
      }
    }

    /** `SetTip`: overwrite the vector from the new tip downwards and stop at the first entry that is
        already right.  The early stop still leaves the whole path of the new tip. */
    method SetTip(t: Tree, p: Ptr)
      requires Linked(t) && Valid(t) && Known(t, p)
      modifies this
      ensures vChain == Path(t, p) && Tip() == p && Valid(t)
    {
      hide SkipsBuilt;
      if p == NULL {
        vChain := [];
        return;
      }
      ghost var path := Path(t, p);
      var n := t[p].height + 1;
      vChain := Resized(vChain, n);
      ghost var resized := vChain;
      var walk := p;
      ghost var k: nat := n;
      while walk != NULL && vChain[t[walk].height] != walk
        invariant k <= n && walk == if k == 0 then NULL else path[k - 1]
        invariant vChain == Spliced(resized, path, k)
        decreases k
      {
        vChain := vChain[t[walk].height := walk];
        k := k - 1;
        SpliceStep(resized, path, k);
        PrevOnPath(t, p, k);
        walk := t[walk].prev;
      }
      StopIsSafe(t, old(Tip()), p, k);
    }

    /** `FindFork`: the last common block of this chain and the path of `p`. */
    method FindFork(t: Tree, p: Ptr) returns (r: Ptr)
      requires Linked(t) && SkipsBuilt(t) && Valid(t) && p in t
      ensures r != NULL ==> r in t && Contains(t, r) && Ancestor(t, r, p)
      ensures forall q :: q in t && Contains(t, q) && Ancestor(t, q, p) ==> t[q].height <= HeightOf(t, r)
    {
      hide SkipsBuilt;
      r := p;
      if t[p].height > Height() {
        ghost var turns;
        r, turns := GetAncestor(t, p, Height());
      }
      ghost var path := Path(t, p);
      while r != NULL && !Contains(t, r)
        invariant Known(t, r) && HeightOf(t, r) < |path| && (r != NULL ==> r == path[t[r].height])
        invariant forall i :: HeightOf(t, r) < i < |path| && i < |vChain| ==> vChain[i] != path[i]
        decreases HeightOf(t, r) + 1
      {
        PrevOnPath(t, p, t[r].height);
        r := t[r].prev;
      }
      NoneAbove(t, p, HeightOf(t, r));
    }

    lemma NoneAbove(t: Tree, p: Ptr, h: int)
      requires Linked(t) && p in t && h >= -1
      requires forall i :: h < i < |Path(t, p)| && i < |vChain| ==> vChain[i] != Path(t, p)[i]
      ensures forall q :: q in t && Contains(t, q) && Ancestor(t, q, p) ==> t[q].height <= h
    {
      forall q | q in t && Contains(t, q) && Ancestor(t, q, p) ensures t[q].height <= h {
        AncestorAtHeight(t, q, p);
      }
    }
  }

  /** `std::vector::resize`: truncate, or pad with null pointers. */
  function Resized(v: seq<Ptr>, n: nat): (r: seq<Ptr>)
    ensures |r| == n
    ensures forall i :: 0 <= i < n ==> r[i] == if i < |v| then v[i] else NULL
  {
    if n <= |v| then v[..n] else v + seq(n - |v|, _ => NULL)
  }

  /** The first `k` elements of `a`, then those of `b`. */
  ghost function Spliced(a: seq<Ptr>, b: seq<Ptr>, k: nat): (r: seq<Ptr>)
    requires |a| == |b| && k <= |a|
    ensures |r| == |a| && forall i :: 0 <= i < |a| ==> r[i] == if i < k then a[i] else b[i]
  {
    a[..k] + b[k..]
  }

  lemma SpliceStep(a: seq<Ptr>, b: seq<Ptr>, k: nat)
    requires |a| == |b| && k < |a|
    ensures Spliced(a, b, k + 1)[k := b[k]] == Spliced(a, b, k)
  {
  }

  lemma PrevOnPath(t: Tree, p: Ptr, h: nat)
    requires Linked(t) && p in t && h <= t[p].height
    ensures t[Path(t, p)[h]].prev == if h == 0 then NULL else Path(t, p)[h - 1]
  {
    var w := Path(t, p)[h];
    PathOfAncestor(t, p, h);
    assert NodeLinked(t, w);
    assert h > 0 ==> Path(t, p)[h - 1] == Path(t, w)[h - 1];
  }

  /** Entries below the first right one are right already. */
  lemma StopIsSafe(t: Tree, tip: Ptr, p: Ptr, k: nat)
    requires Linked(t) && Known(t, tip) && p in t && k <= |Path(t, p)|
    requires k > 0 ==> Resized(Path(t, tip), |Path(t, p)|)[k - 1] == Path(t, p)[k - 1]
    ensures Spliced(Resized(Path(t, tip), |Path(t, p)|), Path(t, p), k) == Path(t, p)
  {
    var was, path := Path(t, tip), Path(t, p);
    if k > 0 {
      assert path[k - 1] in t && path[k - 1] != NULL;
      hide Path, Resized, Spliced, Linked;
      SharedPrefix(t, tip, p, k - 1);
      ResizedPrefix(was, |path|, k);
    }
    SplicedWhole(Resized(was, |path|), path, k);
  }

  lemma ResizedPrefix(v: seq<Ptr>, n: nat, k: nat)
    requires k <= n && k <= |v|
    ensures Resized(v, n)[..k] == v[..k]
  {
  }

  lemma SplicedWhole(a: seq<Ptr>, b: seq<Ptr>, k: nat)
    requires |a| == |b| && k <= |a| && a[..k] == b[..k]
    ensures Spliced(a, b, k) == b
  {
  }

  /** Two paths that meet at a height are equal below it. */
  lemma SharedPrefix(t: Tree, p: Ptr, q: Ptr, h: nat)
    requires Linked(t) && Known(t, p) && Known(t, q) && h < |Path(t, p)| && h < |Path(t, q)|
    requires Path(t, p)[h] == Path(t, q)[h]
    ensures Path(t, p)[..h + 1] == Path(t, q)[..h + 1]
  {
    PathOfAncestor(t, p, h);
    PathOfAncestor(t, q, h);
  }
}
