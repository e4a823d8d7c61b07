/**
 Which block should be the tip: the work comparator, the candidate set and the facts that best-chain
 activation keeps (src/main.cpp, FindMostWorkChain to ActivateBestChain).  Everything here is a
 statement about values; ChainState holds the code that changes them.
 */
module ChainSelection {
  import opened BlockTree

  /** The fields of an entry that arrive with its data. */
  datatype Status = Status(nTx: nat, nChainTx: nat, haveData: bool, sequenceId: nat)

  type Statuses = map<Ptr, Status>

  /** `CBlockIndexWorkComparator`: less work, then later arrival, then the higher address is worse. */
  predicate Worse(t: Tree, st: Statuses, a: Ptr, b: Ptr)
    requires a in t && b in t && a in st && b in st
  {
    if t[a].work != t[b].work then t[a].work < t[b].work
    else if st[a].sequenceId != st[b].sequenceId then st[a].sequenceId > st[b].sequenceId
    else a > b
  }

  ghost predicate InBoth(t: Tree, st: Statuses, s: set<Ptr>) {
    forall p :: p in s ==> p in t && p in st
  }

  ghost predicate IsBest(t: Tree, st: Statuses, s: set<Ptr>, m: Ptr)
    requires InBoth(t, st, s) && m in t && m in st
  {
    m in s && forall p :: p in s ==> !Worse(t, st, m, p)
  }

  ghost predicate IsWorst(t: Tree, st: Statuses, s: set<Ptr>, m: Ptr)
    requires InBoth(t, st, s) && m in t && m in st
  {
    m in s && forall p :: p in s ==> !Worse(t, st, p, m)
  }

  /** The ordered set has a last element. */
  lemma {:induction false} BestExists(t: Tree, st: Statuses, s: set<Ptr>) returns (m: Ptr)
    requires InBoth(t, st, s) && s != {}
    ensures m in s && IsBest(t, st, s, m)
    decreases |s|
  {
    var x :| x in s;
    if s == {x} {
      m := x;
    } else {
      m := BestExists(t, st, s - {x});
      assert forall p :: p in s ==> p == x || p in s - {x};
      if Worse(t, st, m, x) { m := x; }
    }
  }

  /** ... and a first one. */
  lemma {:induction false} WorstExists(t: Tree, st: Statuses, s: set<Ptr>) returns (m: Ptr)
    requires InBoth(t, st, s) && s != {}
    ensures m in s && IsWorst(t, st, s, m)
    decreases |s|
  {
    var x :| x in s;
    if s == {x} {
      m := x;
    } else {
      m := WorstExists(t, st, s - {x});
      assert forall p :: p in s ==> p == x || p in s - {x};
      if Worse(t, st, x, m) { m := x; }
    }
  }

  /** `ok` is the verdict ConnectBlock gives on each block; a chain is sound when it holds throughout. */
  ghost predicate Sound(t: Tree, ok: Ptr -> bool, p: Ptr)
    requires Linked(t) && Known(t, p)
  {
    forall a :: a in Path(t, p) ==> ok(a)
  }

  /** No entry of the path carries a failure mark. */
  ghost predicate Clean(t: Tree, failed: set<Ptr>, p: Ptr)
    requires Linked(t) && Known(t, p)
  {
    forall a :: a in Path(t, p) ==> a !in failed
  }

  lemma SoundAncestor(t: Tree, ok: Ptr -> bool, a: Ptr, p: Ptr)
    requires Linked(t) && Known(t, p) && Sound(t, ok, p) && Ancestor(t, a, p)
    ensures Sound(t, ok, a)
  {
    forall b | b in Path(t, a) ensures ok(b) { AncestorTransitive(t, b, a, p); }
  }

  /** Data for the block and all its ancestors has arrived. */
  predicate HasChain(st: Statuses, p: Ptr)
    requires p in st
  {
    st[p].nChainTx != 0
  }

  /** A failure mark is never put on a chain that would connect. */
  ghost predicate FailuresJustified(t: Tree, ok: Ptr -> bool, failed: set<Ptr>)
    requires Linked(t)
  {
    forall p :: p in failed && p in t ==> !Sound(t, ok, p)
  }

  lemma SoundIsClean(t: Tree, ok: Ptr -> bool, failed: set<Ptr>, p: Ptr)
    requires Linked(t) && Known(t, p) && FailuresJustified(t, ok, failed) && Sound(t, ok, p)
    ensures Clean(t, failed, p)
  {
    forall a | a in Path(t, p) ensures a !in failed { SoundAncestor(t, ok, a, p); }
  }

  /** A block that could still become the tip: its chain is complete and unmarked. */
  ghost predicate Viable(t: Tree, st: Statuses, failed: set<Ptr>, p: Ptr)
    requires Linked(t)
  {
    p in t && p in st && HasChain(st, p) && Clean(t, failed, p)
  }

  /** `q` is at least as good as `p`, where no block at all is worst. */
  ghost predicate AtLeast(t: Tree, st: Statuses, q: Ptr, p: Ptr)
    requires t.Keys == st.Keys && Known(t, p) && Known(t, q)
  {
    p == NULL || (q != NULL && !Worse(t, st, q, p))
  }

  lemma AtLeastReflexive(t: Tree, st: Statuses, a: Ptr)
    requires t.Keys == st.Keys && Known(t, a)
    ensures AtLeast(t, st, a, a)
  {
  }

  lemma AtLeastTransitive(t: Tree, st: Statuses, a: Ptr, b: Ptr, c: Ptr)
    requires t.Keys == st.Keys && Known(t, a) && Known(t, b) && Known(t, c)
    requires AtLeast(t, st, a, b) && AtLeast(t, st, b, c)
    ensures AtLeast(t, st, a, c)
  {
  }

  /** Any two entries can be compared, and none is as good as another one: there is one best. */
  lemma AtLeastTotal(t: Tree, st: Statuses, a: Ptr, b: Ptr)
    requires t.Keys == st.Keys && Known(t, a) && Known(t, b)
    ensures AtLeast(t, st, a, b) || AtLeast(t, st, b, a)
    ensures AtLeast(t, st, a, b) && AtLeast(t, st, b, a) ==> a == b
  {
  }

  /** Sequence numbers are below the next one, and no two linked entries have the same. */
  ghost predicate Numbered(st: Statuses, next: nat) {
    && next > 0 && (forall p :: p in st ==> st[p].sequenceId < next)
    && (forall p, q :: p in st && q in st && p != q && st[p].sequenceId != 0 ==> st[p].sequenceId != st[q].sequenceId)
  }

  lemma UnlinkedNumbered(st: Statuses, p: Ptr, s: Status, next: nat)
    requires Numbered(st, next) && s.sequenceId == 0
    ensures Numbered(st[p := s], next)
  {
  }

  lemma LinkedNumbered(st: Statuses, p: Ptr, s: Status, next: nat)
    requires Numbered(st, next) && s.sequenceId == next
    ensures Numbered(st[p := s], next + 1)
  {
  }

  /** Of two entries with different numbers the better one has more work, or the same work and was received earlier. */
  lemma BetterMeans(t: Tree, st: Statuses, next: nat, a: Ptr, b: Ptr)
    requires t.Keys == st.Keys && Numbered(st, next) && a in t && b in t && a != b && st[a].sequenceId != 0
    ensures AtLeast(t, st, a, b) <==>
              b == NULL || (a != NULL && (t[a].work > t[b].work || (t[a].work == t[b].work && st[a].sequenceId < st[b].sequenceId)))
  {
  }

  lemma NullIsWorst(t: Tree, st: Statuses, p: Ptr, tip: Ptr)
    requires t.Keys == st.Keys && p in t && p != NULL && Known(t, tip) && AtLeast(t, st, tip, p)
    ensures tip in t
  {
  }

  /** What became linked since then has a later number than everything linked before. */
  ghost predicate LinkedLater(st: Statuses, st': Statuses) {
    forall p, q {:trigger HasChain(st, p), HasChain(st', q)} ::
      p in st && HasChain(st, p) && q in st' && HasChain(st', q) && !(q in st && HasChain(st, q)) ==>
        st[p].sequenceId < st'[q].sequenceId
  }

  /** An entry that may become or has been the tip. */
  ghost predicate Connectable(t: Tree, st: Statuses, ok: Ptr -> bool, p: Ptr)
    requires Linked(t) && t.Keys == st.Keys
  {
    p != NULL ==> p in t && HasChain(st, p) && Sound(t, ok, p)
  }

  /** What holds between any two steps of activation.  `best` is the best tip reached so far: while a
      reorganisation is under way the tip itself may be worse, and candidates between the two have
      been dropped, but `best` and everything at least as good as it is still there to fall back on. */
  ghost predicate Selecting(t: Tree, st: Statuses, ok: Ptr -> bool, failed: set<Ptr>, cands: set<Ptr>, tip: Ptr, best: Ptr)
    requires Linked(t)
  {
    && t.Keys == st.Keys
    && FailuresJustified(t, ok, failed)
    && (forall c :: c in cands ==> c in t && HasChain(st, c))
    && Connectable(t, st, ok, tip)
    && Connectable(t, st, ok, best)
    && (best != NULL ==> best in cands)
    && AtLeast(t, st, best, tip)
    && (forall c :: c in cands ==> AtLeast(t, st, c, tip))
    && (forall p :: Viable(t, st, failed, p) && AtLeast(t, st, p, best) ==> p in cands)
  }

  /** Going back to the parent of the tip. */
  lemma DisconnectKeeps(t: Tree, st: Statuses, ok: Ptr -> bool, failed: set<Ptr>, cands: set<Ptr>, tip: Ptr, best: Ptr)
    requires Linked(t) && Selecting(t, st, ok, failed, cands, tip, best) && tip != NULL
    requires t[tip].prev in st ==> HasChain(st, t[tip].prev)
    ensures Selecting(t, st, ok, failed, cands, t[tip].prev, best)
  {
    var prev := t[tip].prev;
    assert NodeLinked(t, tip);
    if prev != NULL {
      SoundAncestor(t, ok, prev, tip);
      assert AtLeast(t, st, tip, prev);
    }
  }

  /** The best of two tips. */
  ghost function Better(t: Tree, st: Statuses, a: Ptr, b: Ptr): Ptr
    requires t.Keys == st.Keys && Known(t, a) && b in t
  {
    if a == NULL || Worse(t, st, a, b) then b else a
  }

  /** Connecting a block that passes, then dropping the candidates worse than it. */
  lemma ConnectKeeps(t: Tree, st: Statuses, ok: Ptr -> bool, failed: set<Ptr>, cands: set<Ptr>, tip: Ptr, best: Ptr, x: Ptr, cands': set<Ptr>)
    requires Linked(t) && Selecting(t, st, ok, failed, cands, tip, best)
    requires x in t && t[x].prev == tip && HasChain(st, x) && ok(x)
    requires cands' == set c | c in cands && AtLeast(t, st, c, x)
    ensures Selecting(t, st, ok, failed, cands', x, Better(t, st, best, x))
    ensures cands' != {}
  {
    assert NodeLinked(t, x);
    assert Sound(t, ok, x);
    SoundIsClean(t, ok, failed, x);
    var best' := Better(t, st, best, x);
    assert Viable(t, st, failed, x);
    assert best' in cands && AtLeast(t, st, best', x) && AtLeast(t, st, best', best);
    forall p | Viable(t, st, failed, p) && AtLeast(t, st, p, best') ensures p in cands' {
      AtLeastTransitive(t, st, p, best', x);
      AtLeastTransitive(t, st, p, best', best);
    }
  }

  /** Marking a block that does not connect, and dropping it as a candidate. */
  lemma FailKeeps(t: Tree, st: Statuses, ok: Ptr -> bool, failed: set<Ptr>, cands: set<Ptr>, tip: Ptr, best: Ptr, x: Ptr)
    requires Linked(t) && Selecting(t, st, ok, failed, cands, tip, best)
    requires x in t && !Sound(t, ok, x)
    ensures Selecting(t, st, ok, failed + {x}, cands - {x}, tip, best)
  {
    forall p | Viable(t, st, failed + {x}, p) ensures Viable(t, st, failed, p) && p != x {}
  }

  /** A failure mark is only ever on a block that does not connect. */
  lemma MarkedIsUnsound(t: Tree, st: Statuses, ok: Ptr -> bool, failed: set<Ptr>, cands: set<Ptr>, tip: Ptr, best: Ptr, x: Ptr)
    requires Linked(t) && Selecting(t, st, ok, failed, cands, tip, best) && x in failed && x in t
    ensures !Sound(t, ok, x)
  {
  }

  /** When the tip is the best candidate, no viable block is better: the search ended on the right tip. */
  lemma BestCandidateSettles(t: Tree, st: Statuses, ok: Ptr -> bool, failed: set<Ptr>, cands: set<Ptr>, tip: Ptr, best: Ptr)
    requires Linked(t) && Selecting(t, st, ok, failed, cands, tip, best)
    requires tip != NULL && IsBest(t, st, cands, tip)
    ensures tip == best
    ensures forall p :: p in t && HasChain(st, p) && Sound(t, ok, p) ==> AtLeast(t, st, tip, p)
  {
    forall p | p in t && HasChain(st, p) && Sound(t, ok, p) ensures AtLeast(t, st, tip, p) {
      SoundIsClean(t, ok, failed, p);
      assert Viable(t, st, failed, p);
    }
  }

  /** A block becomes linked: it is a candidate when it is not worse than the tip. */
  lemma LinkKeeps(t: Tree, st: Statuses, ok: Ptr -> bool, failed: set<Ptr>, cands: set<Ptr>, tip: Ptr, x: Ptr, s: Status)
    requires Linked(t) && Selecting(t, st, ok, failed, cands, tip, tip)
    requires x in t && !HasChain(st, x) && s.nChainTx != 0
    ensures AtLeast(t, st[x := s], x, tip) ==> Selecting(t, st[x := s], ok, failed, cands + {x}, tip, tip)
    ensures !AtLeast(t, st[x := s], x, tip) ==> Selecting(t, st[x := s], ok, failed, cands, tip, tip)
  {
    var st' := st[x := s];
    forall p | Viable(t, st', failed, p) && p != x ensures Viable(t, st, failed, p) {}
    forall p, q | Known(t, p) && Known(t, q) && p != x && q != x
      ensures AtLeast(t, st', p, q) <==> AtLeast(t, st, p, q) {}
  }

  /** Data arrives without linking the block: nothing about selection changes. */
  lemma UnlinkedKeeps(t: Tree, st: Statuses, ok: Ptr -> bool, failed: set<Ptr>, cands: set<Ptr>, tip: Ptr, x: Ptr, s: Status)
    requires Linked(t) && Selecting(t, st, ok, failed, cands, tip, tip)
    requires x in t && !HasChain(st, x) && s.nChainTx == 0
    ensures Selecting(t, st[x := s], ok, failed, cands, tip, tip)
  {
    var st' := st[x := s];
    forall p | Viable(t, st', failed, p) ensures Viable(t, st, failed, p) {}
    forall p, q | Known(t, p) && Known(t, q) && p != x && q != x
      ensures AtLeast(t, st', p, q) <==> AtLeast(t, st, p, q) {}
  }

  /** A header arrives. */
  lemma HeaderKeeps(t: Tree, st: Statuses, ok: Ptr -> bool, failed: set<Ptr>, cands: set<Ptr>, tip: Ptr, x: Ptr, n: Node)
    requires Linked(t) && Selecting(t, st, ok, failed, cands, tip, tip)
    requires x !in t && x !in failed && Linked(t[x := n])
    ensures Selecting(t[x := n], st[x := Status(0, 0, false, 0)], ok, failed, cands, tip, tip)
  {
    var t', st' := t[x := n], st[x := Status(0, 0, false, 0)];
    forall p | Known(t, p) ensures Path(t', p) == Path(t, p) { PathExtends(t, t', p); }
    forall p | Viable(t', st', failed, p) ensures Viable(t, st, failed, p) {}
    forall p, q | Known(t, p) && Known(t, q) ensures AtLeast(t', st', p, q) <==> AtLeast(t, st, p, q) {}
  }
}
