/**
 The tree of block index entries.

 A `CBlockIndex*` is a `Ptr`; `NULL` is the null pointer.  `mapBlockIndex` is bijective with the set of
 entries, so a pointer also stands for the hash of its block.  The fields of an entry that never change
 once it is in the tree are a `Node`; the fields that change live with the code that changes them.
 */
module BlockTree {
  type Ptr = nat

  const NULL: Ptr := 0

  datatype Node = Node(prev: Ptr, height: nat, work: nat, skip: Ptr)

  type Tree = map<Ptr, Node>

  predicate NodeLinked(t: Tree, p: Ptr)
    requires p in t
  {
    if t[p].prev == NULL then t[p].height == 0
    else && t[p].prev in t
         && t[p].height == t[t[p].prev].height + 1
         && t[p].work > t[t[p].prev].work
  }

  /** Every entry has its parent in the tree, one level below it and with less work. */
  ghost predicate Linked(t: Tree) {
    NULL !in t && forall p {:trigger NodeLinked(t, p)} :: p in t ==> NodeLinked(t, p)
  }

  /** A pointer that is null or names an entry. */
  predicate Known(t: Tree, p: Ptr) {
    p == NULL || p in t
  }

  function HeightOf(t: Tree, p: Ptr): int
    requires Known(t, p)
  {
    if p == NULL then -1 else t[p].height
  }

  /** The reference definition everything below is compared with: the entries from the root down to `p`,
      collected by following `prev` one step at a time.  The entry at index `i` has height `i`. */
  ghost function Path(t: Tree, p: Ptr): (path: seq<Ptr>)
    requires Linked(t) && Known(t, p)
    ensures |path| == HeightOf(t, p) + 1
    ensures forall i :: 0 <= i < |path| ==> path[i] in t && t[path[i]].height == i
    ensures p != NULL ==> path[|path| - 1] == p
    decreases HeightOf(t, p) + 1
  {
    if p == NULL then [] else assert NodeLinked(t, p); Path(t, t[p].prev) + [p]
  }

  /** `a` is `p` or one of its ancestors. */
  ghost predicate Ancestor(t: Tree, a: Ptr, p: Ptr)
    requires Linked(t) && Known(t, p)
  {
    a in Path(t, p)
  }

  lemma {:induction false} PathOfAncestor(t: Tree, p: Ptr, i: nat)
    requires Linked(t) && Known(t, p) && i < |Path(t, p)|
    ensures Path(t, Path(t, p)[i]) == Path(t, p)[..i + 1]
    decreases HeightOf(t, p) + 1
  {
    assert NodeLinked(t, p);
    if i < |Path(t, p)| - 1 {
      PathOfAncestor(t, t[p].prev, i);
      assert Path(t, p)[..i + 1] == Path(t, t[p].prev)[..i + 1];
    } else {
      assert Path(t, p)[..i + 1] == Path(t, p);
    }
  }

  /** An ancestor is found in the path at its own height, and nowhere else. */
  lemma AncestorAtHeight(t: Tree, a: Ptr, p: Ptr)
    requires Linked(t) && Known(t, p)
    ensures Ancestor(t, a, p) <==> a in t && t[a].height < |Path(t, p)| && Path(t, p)[t[a].height] == a
  {
    if Ancestor(t, a, p) {
      var i :| 0 <= i < |Path(t, p)| && Path(t, p)[i] == a;
      assert t[a].height == i;
    }
  }

  lemma AncestorTransitive(t: Tree, a: Ptr, b: Ptr, c: Ptr)
    requires Linked(t) && Known(t, c) && Ancestor(t, b, c) && Ancestor(t, a, b)
    ensures Ancestor(t, a, c)
  {
    AncestorAtHeight(t, b, c);
    PathOfAncestor(t, c, t[b].height);
  }

  /** Work grows along a path. */
  lemma {:induction false} AncestorWork(t: Tree, a: Ptr, p: Ptr)
    requires Linked(t) && Known(t, p) && Ancestor(t, a, p)
    ensures a == p || t[a].work < t[p].work
    decreases HeightOf(t, p) + 1
  {
    assert NodeLinked(t, p);
    if a != p {
      AncestorWork(t, a, t[p].prev);
    }
  }

  /** The tree only grows, and entries in it do not change. */
  ghost predicate Extends(t: Tree, t': Tree) {
    forall p :: p in t ==> p in t' && t'[p] == t[p]
  }

  lemma {:induction false} PathExtends(t: Tree, t': Tree, p: Ptr)
    requires Linked(t) && Linked(t') && Extends(t, t') && Known(t, p)
    ensures Path(t', p) == Path(t, p)
    decreases HeightOf(t, p) + 1
  {
    if p != NULL {
      assert NodeLinked(t, p) && NodeLinked(t', p);
      PathExtends(t, t', t[p].prev);
    }
  }
}
