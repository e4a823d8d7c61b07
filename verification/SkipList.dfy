/**
 Skip pointers: `CBlockIndex::GetAncestor` and `BuildSkip` (src/chain.cpp).
 */
module SkipList {
  import opened BlockTree

  /** Bitwise and of two naturals. */
  function BitAnd(a: nat, b: nat): (r: nat)
    ensures r <= a && r <= b
  {
    if a == 0 || b == 0 then 0 else (if a % 2 == 1 && b % 2 == 1 then 1 else 0) + 2 * BitAnd(a / 2, b / 2)
  }

  lemma {:induction false} BitAndSelf(n: nat)
    ensures BitAnd(n, n) == n
  {
    if n > 0 {
      BitAndSelf(n / 2);
    }
  }

  function InvertLowestOne(n: nat): (r: nat)
    ensures n > 0 ==> r < n
  {
    if n == 0 then 0 else BitAnd(n, n - 1)
  }

  /** The bit trick clears exactly the lowest one: an odd number loses its unit, an even number
      loses the lowest one of its half. */
  lemma InvertLowestOneClearsLowest(n: nat)
    ensures InvertLowestOne(2 * n + 1) == 2 * n
    ensures InvertLowestOne(2 * n) == 2 * InvertLowestOne(n)
  {
    if n > 0 {
      BitAndSelf(n);
      assert (2 * n + 1) / 2 == n && (2 * n) / 2 == n && (2 * n - 1) / 2 == n - 1;
    }
  }

  /** Compute what height to jump back to.  The jump always goes back. */
  function SkipHeight(height: nat): (r: nat)
    ensures height > 0 ==> r < height
  {
    if height < 2 then 0
    else if height % 2 == 1 then InvertLowestOne(InvertLowestOne(height - 1)) + 1
    else InvertLowestOne(height)
  }

  /** From an even height the jump leads to another even height, and from an odd one to an odd height; so above
      height one it is never a single step. */
  lemma SkipKeepsParity(height: nat)
    requires height >= 2
    ensures SkipHeight(height) % 2 == height % 2 && SkipHeight(height) <= height - 2
  {
    var n := height / 2;
    InvertLowestOneClearsLowest(n);
    if height % 2 == 1 {
      assert height - 1 == 2 * n;
      InvertLowestOneClearsLowest(InvertLowestOne(n));
    } else {
      assert height == 2 * n;
    }
  }

  /** What `BuildSkip` leaves in an entry that has a parent. */
  ghost predicate SkipBuilt(t: Tree, p: Ptr)
    requires Linked(t) && p in t
  {
    t[p].height > 0 ==> t[p].skip == Path(t, p)[SkipHeight(t[p].height)]
  }

  ghost predicate SkipsBuilt(t: Tree)
    requires Linked(t)
  {
    forall p {:trigger SkipBuilt(t, p)} :: p in t ==> SkipBuilt(t, p)
  }

  /** From any entry of a path both pointers lead to entries of the same path. */
  lemma PointersStayOnPath(t: Tree, p: Ptr, h: nat)
    requires Linked(t) && SkipsBuilt(t) && p in t && 0 < h <= t[p].height
    ensures t[Path(t, p)[h]].prev == Path(t, p)[h - 1]
    ensures t[Path(t, p)[h]].skip == Path(t, p)[SkipHeight(h)]
  {
    var w := Path(t, p)[h];
    PathOfAncestor(t, p, h);
    assert NodeLinked(t, w) && SkipBuilt(t, w);
    assert Path(t, w) == Path(t, t[w].prev) + [w];
    assert Path(t, p)[h - 1] == Path(t, w)[h - 1];
  }

  /** The height after one turn of the loop. */
  function StepTo(w: nat, t: nat): (r: nat)
    requires t < w
    ensures t <= r < w
  {
    var s, sp := SkipHeight(w), SkipHeight(w - 1);
    if s == t || (s > t && !(sp < s - 2 && sp >= t)) then s else w - 1
  }

  /** How many turns there are. */
  function Steps(w: nat, t: nat): nat {
    if w <= t then 0 else 1 + Steps(StepTo(w, t), t)
  }

  /** `GetAncestor`: walk by skip pointers where they do not overshoot.  The result is the entry the
      plain walk along `prev` would reach, or null when there is no such height; SkipSteps bounds the number of turns. */
  method GetAncestor(t: Tree, p: Ptr, height: int) returns (r: Ptr, ghost turns: nat)
    requires Linked(t) && SkipsBuilt(t) && p in t
    ensures 0 <= height <= t[p].height ==> r == Path(t, p)[height] && turns == Steps(t[p].height, height)
    ensures !(0 <= height <= t[p].height) ==> r == NULL
  {
    turns := 0;
    if height > t[p].height || height < 0 {
      return NULL, turns;
    }
    ghost var path := Path(t, p);
    var walk := p;
    var heightWalk := t[p].height;
    while heightWalk > height
      invariant height <= heightWalk <= t[p].height
      invariant walk == path[heightWalk] && turns + Steps(heightWalk, height) == Steps(t[p].height, height)
    {
      var heightSkip := SkipHeight(heightWalk);
      var heightSkipPrev := SkipHeight(heightWalk - 1);
      PointersStayOnPath(t, p, heightWalk);
      if heightSkip == height || (heightSkip > height && !(heightSkipPrev < heightSkip - 2 && heightSkipPrev >= height)) {
        walk := t[walk].skip;
        heightWalk := heightSkip;
      } else {
        walk := t[walk].prev;
        heightWalk := heightWalk - 1;
      }
      turns := turns + 1;
    }
    return walk, turns;
  }

  /** `BuildSkip` for an entry about to be added under `prev`: the pointer it computes makes the
      grown tree satisfy `SkipBuilt` again (see LeafKeepsSkips). */
  method BuildSkip(t: Tree, prev: Ptr) returns (skip: Ptr)
    requires Linked(t) && SkipsBuilt(t) && Known(t, prev)
    ensures prev == NULL ==> skip == NULL
    ensures prev != NULL ==> skip == Path(t, prev)[SkipHeight(t[prev].height + 1)]
  {
    if prev == NULL {
      return NULL;
    }
    ghost var turns;
    skip, turns := GetAncestor(t, prev, SkipHeight(t[prev].height + 1));
  }

  /** `n` can be added to the tree as a leaf. */
  ghost predicate IsLeafFor(t: Tree, p: Ptr, n: Node)
    requires Linked(t)
  {
    && p !in t && p != NULL && Known(t, n.prev)
    && n.height == HeightOf(t, n.prev) + 1
    && (n.prev != NULL ==> n.work > t[n.prev].work && n.skip == Path(t, n.prev)[SkipHeight(n.height)])
  }

  lemma LeafKeepsLinks(t: Tree, p: Ptr, n: Node)
    requires Linked(t) && IsLeafFor(t, p, n)
    ensures Linked(t[p := n]) && Extends(t, t[p := n])
    ensures Path(t[p := n], p) == Path(t, n.prev) + [p]
  {
    var t' := t[p := n];
    forall q | q in t' ensures NodeLinked(t', q) {
      if q != p { assert NodeLinked(t, q); }
    }
    PathExtends(t, t', n.prev);
  }

  /** Adding a leaf keeps the tree linked, its paths and its skip pointers. */
  lemma LeafKeepsSkips(t: Tree, p: Ptr, n: Node)
    requires Linked(t) && SkipsBuilt(t) && IsLeafFor(t, p, n)
    ensures Linked(t[p := n]) && Extends(t, t[p := n]) && SkipsBuilt(t[p := n])
  {
    LeafKeepsLinks(t, p, n);
    var t' := t[p := n];
    forall q | q in t' ensures SkipBuilt(t', q) {
      if q != p {
        assert SkipBuilt(t, q);
        PathExtends(t, t', q);
      }
    }
  }
}
