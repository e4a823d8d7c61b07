/**
 Blocks and headers arrive in any order: which entries have a complete chain, and which wait for a
 parent (src/main.cpp, AddToBlockIndex and ReceivedBlockTransactions).
 */
module Linkage {
  import opened BlockTree
  import opened ChainSelection

  /** `mapBlocksUnlinked`: for each parent the waiting children, in the order of insertion. */
  type Waiting = map<Ptr, seq<Ptr>>

  function EqualRange(w: Waiting, a: Ptr): seq<Ptr> {
    if a in w then w[a] else []
  }

  function Inserted(w: Waiting, a: Ptr, b: Ptr): Waiting {
    w[a := EqualRange(w, a) + [b]]
  }

  ghost predicate Distinct(s: seq<Ptr>) {
    forall i, j :: 0 <= i < j < |s| ==> s[i] != s[j]
  }

  ghost predicate Shaped(t: Tree, st: Statuses) {
    Linked(t) && t.Keys == st.Keys
  }

  predicate ParentReady(t: Tree, st: Statuses, p: Ptr)
    requires Shaped(t, st) && p in t
  {
    assert NodeLinked(t, p);
    t[p].prev == NULL || HasChain(st, t[p].prev)
  }

  function ParentChainTx(t: Tree, st: Statuses, p: Ptr): nat
    requires Shaped(t, st) && p in t
  {
    assert NodeLinked(t, p);
    if t[p].prev == NULL then 0 else st[t[p].prev].nChainTx
  }

  /** One entry, except that those in `queue` are about to be linked. */
  ghost predicate EntryOk(t: Tree, st: Statuses, failed: set<Ptr>, w: Waiting, queue: seq<Ptr>, p: Ptr)
    requires Shaped(t, st) && p in t
  {
    && (st[p].haveData <==> st[p].nTx > 0)
    && (HasChain(st, p) ==> st[p].haveData && ParentReady(t, st, p) && st[p].nChainTx == ParentChainTx(t, st, p) + st[p].nTx)
    && (st[p].haveData && ParentReady(t, st, p) && p !in queue ==> HasChain(st, p))
    && (st[p].haveData && !HasChain(st, p) && p !in queue ==> p in EqualRange(w, t[p].prev) || t[p].prev in failed)
    && (p in failed && st[p].haveData ==> HasChain(st, p))
    && (HasChain(st, p) <==> st[p].sequenceId != 0)
  }

  /** A child in the waiting map, or in the queue, has data and is not linked yet. */
  ghost predicate Pending(st: Statuses, p: Ptr) {
    p in st && st[p].haveData && !HasChain(st, p)
  }

  ghost predicate QueueOk(t: Tree, st: Statuses, queue: seq<Ptr>)
    requires Shaped(t, st)
  {
    && Distinct(queue)
    && forall i :: 0 <= i < |queue| ==> Pending(st, queue[i]) && ParentReady(t, st, queue[i])
  }

  ghost predicate WaitingOk(t: Tree, st: Statuses, w: Waiting)
    requires t.Keys == st.Keys
  {
    && (forall a :: a in w ==> Distinct(w[a]) && a in t && !HasChain(st, a))
    && forall a, b :: a in w && b in w[a] ==> Pending(st, b) && t[b].prev == a
  }

  ghost predicate Arriving(t: Tree, st: Statuses, failed: set<Ptr>, w: Waiting, queue: seq<Ptr>)
    requires Linked(t)
  {
    && t.Keys == st.Keys
    && (forall p {:trigger EntryOk(t, st, failed, w, queue, p)} ::
          p in t ==> EntryOk(t, st, failed, w, queue, p))
    && QueueOk(t, st, queue)
    && WaitingOk(t, st, w)
  }

  /** The state after one turn of the linking loop on `x`. */
  function LinkedStatus(t: Tree, st: Statuses, x: Ptr, id: nat): Status
    requires Shaped(t, st) && x in t
  {
    st[x].(nChainTx := ParentChainTx(t, st, x) + st[x].nTx, sequenceId := id)
  }

  lemma FrontIsPending(t: Tree, st: Statuses, failed: set<Ptr>, w: Waiting, queue: seq<Ptr>)
    requires Linked(t) && Arriving(t, st, failed, w, queue) && queue != []
    ensures queue[0] in t && !HasChain(st, queue[0])
    ensures LinkedStatus(t, st, queue[0], 1).nChainTx != 0
  {
    assert Pending(st, queue[0]) && EntryOk(t, st, failed, w, queue, queue[0]);
  }

  /** One turn: the front of the queue is linked and its waiting children join the queue. */
  lemma LinkStepKeeps(t: Tree, st: Statuses, failed: set<Ptr>, w: Waiting, queue: seq<Ptr>, id: nat)
    requires Linked(t) && Arriving(t, st, failed, w, queue) && queue != [] && id > 0
    ensures Arriving(t, st[queue[0] := LinkedStatus(t, st, queue[0], id)], failed, w - {queue[0]}, queue[1..] + EqualRange(w, queue[0]))
  {
    var x := queue[0];
    var st' := st[x := LinkedStatus(t, st, x, id)];
    var w' := w - {x};
    var rest, kids := queue[1..], EqualRange(w, x);
    assert EntryOk(t, st, failed, w, queue, x);
    assert Pending(st, x);
    assert HasChain(st', x) && x !in failed && x !in rest;
    forall p | p in t ensures EntryOk(t, st', failed, w', rest + kids, p) {
      assert EntryOk(t, st, failed, w, queue, p);
      assert p in queue <==> p == x || p in rest;
      if p != x && t[p].prev == x {
        assert p !in queue;
      }
    }
    QueueAfterLink(t, st, w, queue, st');
  }

  lemma QueueAfterLink(t: Tree, st: Statuses, w: Waiting, queue: seq<Ptr>, st': Statuses)
    requires Shaped(t, st) && QueueOk(t, st, queue) && WaitingOk(t, st, w) && queue != []
    requires queue[0] in st && st'.Keys == st.Keys && HasChain(st', queue[0]) && forall p :: p in st && p != queue[0] ==> st'[p] == st[p]
    ensures QueueOk(t, st', queue[1..] + EqualRange(w, queue[0]))
    ensures WaitingOk(t, st', w - {queue[0]})
  {
    var x := queue[0];
    var rest, kids := queue[1..], EqualRange(w, x);
    forall i, j | 0 <= i < |rest| && 0 <= j < |kids| ensures rest[i] != kids[j] {
      assert rest[i] == queue[i + 1] && kids[j] in w[x];
    }
    forall i | 0 <= i < |rest| ensures Pending(st', rest[i]) && ParentReady(t, st', rest[i]) {
      assert rest[i] == queue[i + 1];
      assert NodeLinked(t, rest[i]);
    }
    forall j | 0 <= j < |kids| ensures Pending(st', kids[j]) && ParentReady(t, st', kids[j]) {
      assert kids[j] in w[x] && Pending(st, kids[j]) && NodeLinked(t, kids[j]);
    }
  }

  /** Every waiting block with an unmarked parent is filed under that parent. */
  lemma WaitingIsFiled(t: Tree, st: Statuses, failed: set<Ptr>, w: Waiting, p: Ptr)
    requires Linked(t) && Arriving(t, st, failed, w, []) && p in t
    requires st[p].haveData && !HasChain(st, p)
    requires forall a :: a in Path(t, p) ==> a !in failed
    ensures t[p].prev != NULL && p in EqualRange(w, t[p].prev)
  {
    assert EntryOk(t, st, failed, w, [], p);
    assert t[p].prev in Path(t, p);
  }

  ghost function TxSum(st: Statuses, path: seq<Ptr>): nat
    requires forall i :: 0 <= i < |path| ==> path[i] in st
  {
    if path == [] then 0 else TxSum(st, path[..|path| - 1]) + st[path[|path| - 1]].nTx
  }

  ghost predicate AllHaveData(st: Statuses, path: seq<Ptr>) {
    forall i :: 0 <= i < |path| ==> path[i] in st && st[path[i]].haveData
  }

  /** `nChainTx` is nonzero exactly when the block and all its ancestors have data, and then it counts
      the transactions of the whole path. */
  lemma {:induction false} ChainTxCountsPath(t: Tree, st: Statuses, failed: set<Ptr>, w: Waiting, p: Ptr)
    requires Linked(t) && Arriving(t, st, failed, w, []) && p in t
    ensures HasChain(st, p) <==> AllHaveData(st, Path(t, p))
    ensures HasChain(st, p) ==> st[p].nChainTx == TxSum(st, Path(t, p))
    decreases t[p].height
  {
    assert EntryOk(t, st, failed, w, [], p) && NodeLinked(t, p);
    hide Arriving, AllHaveData;
    var prev := t[p].prev;
    var above := Path(t, prev);
    assert Path(t, p) == above + [p];
    assert (above + [p])[..|above|] == above;
    if prev != NULL {
      ChainTxCountsPath(t, st, failed, w, prev);
    } else {
      NoneLacksData(st);
    }
    OneMoreHasData(st, above, p);
  }

  lemma NoneLacksData(st: Statuses)
    ensures AllHaveData(st, [])
  {
  }

  lemma OneMoreHasData(st: Statuses, path: seq<Ptr>, p: Ptr)
    ensures AllHaveData(st, path + [p]) <==> AllHaveData(st, path) && p in st && st[p].haveData
  {
    if AllHaveData(st, path + [p]) {
      assert (path + [p])[|path|] == p;
      forall i | 0 <= i < |path| ensures path[i] in st && st[path[i]].haveData {
        assert (path + [p])[i] == path[i];
      }
    }
  }

  /** A new header brings no data and waits for nothing. */
  lemma HeaderKeepsArriving(t: Tree, st: Statuses, failed: set<Ptr>, w: Waiting, p: Ptr, n: Node)
    requires Linked(t) && Arriving(t, st, failed, w, []) && p !in t && p !in failed
    requires Linked(t[p := n])
    ensures Arriving(t[p := n], st[p := Status(0, 0, false, 0)], failed, w, [])
  {
    var t', st' := t[p := n], st[p := Status(0, 0, false, 0)];
    HeaderKeepsWaiting(t, st, w, p, n);
    hide WaitingOk;
    forall q | q in t' ensures EntryOk(t', st', failed, w, [], q) {
      if q != p {
        assert NodeLinked(t, q) && EntryOk(t, st, failed, w, [], q);
      }
    }
  }

  lemma HeaderKeepsWaiting(t: Tree, st: Statuses, w: Waiting, p: Ptr, n: Node)
    requires t.Keys == st.Keys && WaitingOk(t, st, w) && p !in t
    ensures WaitingOk(t[p := n], st[p := Status(0, 0, false, 0)], w)
  {
    var t', st' := t[p := n], st[p := Status(0, 0, false, 0)];
    forall a, b | a in w && b in w[a] ensures Pending(st', b) && t'[b].prev == a {
      assert Pending(st, b);
    }
  }

  /** Where a block with new data goes: the queue if its parent is ready, else under its parent unless
      the parent is marked as failed. */
  function DataQueue(t: Tree, st: Statuses, p: Ptr): seq<Ptr>
    requires Shaped(t, st) && p in t
  {
    if ParentReady(t, st, p) then [p] else []
  }

  function DataWaiting(t: Tree, st: Statuses, failed: set<Ptr>, w: Waiting, p: Ptr): Waiting
    requires Shaped(t, st) && p in t
  {
    if !ParentReady(t, st, p) && t[p].prev !in failed then Inserted(w, t[p].prev, p) else w
  }

  lemma DataKeepsWaiting(t: Tree, st: Statuses, failed: set<Ptr>, w: Waiting, p: Ptr, nTx: nat)
    requires Shaped(t, st) && WaitingOk(t, st, w) && p in t && !st[p].haveData && nTx > 0
    ensures WaitingOk(t, st[p := Status(nTx, 0, true, 0)], DataWaiting(t, st, failed, w, p))
    ensures forall a :: a in w ==> p !in w[a]
  {
    assert NodeLinked(t, p);
    var st' := st[p := Status(nTx, 0, true, 0)];
    forall a | a in w ensures p !in w[a] && !HasChain(st', a) {
      assert p in w[a] ==> Pending(st, p);
    }
    var prev, w' := t[p].prev, DataWaiting(t, st, failed, w, p);
    forall a, b | a in w' && b in w'[a] ensures Pending(st', b) && t[b].prev == a {
      if b != p { assert a in w && b in w[a] && Pending(st, b); }
    }
  }

  /** Data arrives for an unmarked block that had none. */
  lemma DataKeepsArriving(t: Tree, st: Statuses, failed: set<Ptr>, w: Waiting, p: Ptr, nTx: nat)
    requires Linked(t) && Arriving(t, st, failed, w, []) && p in t && !st[p].haveData && p !in failed && nTx > 0
    ensures Arriving(t, st[p := Status(nTx, 0, true, 0)], failed, DataWaiting(t, st, failed, w, p), DataQueue(t, st, p))
  {
    assert NodeLinked(t, p) && EntryOk(t, st, failed, w, [], p);
    var st' := st[p := Status(nTx, 0, true, 0)];
    var w', queue := DataWaiting(t, st, failed, w, p), DataQueue(t, st, p);
    DataKeepsWaiting(t, st, failed, w, p, nTx);
    forall q | q in t ensures EntryOk(t, st', failed, w', queue, q) {
      assert NodeLinked(t, q) && EntryOk(t, st, failed, w, [], q);
    }
  }

  /** A failure mark on a block that is linked, or has no data, takes nothing out of order. */
  lemma MarkKeepsArriving(t: Tree, st: Statuses, failed: set<Ptr>, w: Waiting, marked: set<Ptr>)
    requires Linked(t) && Arriving(t, st, failed, w, [])
    requires forall x :: x in marked ==> x in t && (st[x].haveData ==> HasChain(st, x))
    ensures Arriving(t, st, failed + marked, w, [])
  {
    forall q | q in t ensures EntryOk(t, st, failed + marked, w, [], q) {
      assert EntryOk(t, st, failed, w, [], q);
    }
  }

  // ----- the order in which data arrived

  /** The data of `p` was there when the entries were as in `was`. */
  predicate Had(was: Statuses, p: Ptr) {
    p in was && was[p].haveData
  }

  /** Among the children of a parent that is waited for, those that had data then come first. */
  ghost predicate WaitingSince(was: Statuses, w: Waiting) {
    forall a, i, j :: a in w && 0 <= i < j < |w[a]| && Had(was, w[a][j]) ==> Had(was, w[a][i])
  }

  /** The same for siblings in the queue. */
  ghost predicate QueueSince(was: Statuses, t: Tree, queue: seq<Ptr>) {
    forall i, j :: 0 <= i < j < |queue| && queue[i] in t && queue[j] in t && t[queue[i]].prev == t[queue[j]].prev && Had(was, queue[j]) ==>
      Had(was, queue[i])
  }

  /** Of two siblings of which one had data then and the other had not, the one that had is linked first. */
  ghost predicate SiblingsSince(was: Statuses, t: Tree, st: Statuses) {
    forall a, b {:trigger Had(was, a), Had(was, b)} ::
      a in t && b in t && t[a].prev == t[b].prev && b in st && HasChain(st, b) && Had(was, a) && !Had(was, b) ==>
        a in st && HasChain(st, a) && st[a].sequenceId < st[b].sequenceId
  }

  ghost predicate DataKept(was: Statuses, st: Statuses) {
    forall p :: Had(was, p) ==> Had(st, p)
  }

  /** What has arrived since the entries were as in `was` has not overtaken what had arrived by then. */
  ghost predicate Since(was: Statuses, t: Tree, st: Statuses, w: Waiting, queue: seq<Ptr>) {
    WaitingSince(was, w) && QueueSince(was, t, queue) && SiblingsSince(was, t, st) && DataKept(was, st)
  }

  /** For every one of the earlier states. */
  ghost predicate History(seen: set<Statuses>, t: Tree, st: Statuses, w: Waiting, queue: seq<Ptr>) {
    forall was :: was in seen ==> Since(was, t, st, w, queue)
  }

  lemma SinceNow(t: Tree, st: Statuses, failed: set<Ptr>, w: Waiting)
    requires Linked(t) && Arriving(t, st, failed, w, [])
    ensures Since(st, t, st, w, [])
  {
    forall a, i | a in w && 0 <= i < |w[a]| ensures Had(st, w[a][i]) {
      assert w[a][i] in w[a] && Pending(st, w[a][i]);
    }
    forall b | b in t && HasChain(st, b) ensures Had(st, b) { assert EntryOk(t, st, failed, w, [], b); }
  }

  lemma HeaderKeepsSince(was: Statuses, t: Tree, st: Statuses, w: Waiting, p: Ptr, n: Node)
    requires Since(was, t, st, w, []) && p !in st && t.Keys == st.Keys
    ensures Since(was, t[p := n], st[p := Status(0, 0, false, 0)], w, [])
  {
    assert !Had(was, p) by { assert !Had(st, p); }
    var t', st' := t[p := n], st[p := Status(0, 0, false, 0)];
    forall q | Had(was, q) ensures Had(st', q) { assert Had(st, q); }
  }

  lemma DataKeepsSince(was: Statuses, t: Tree, st: Statuses, failed: set<Ptr>, w: Waiting, p: Ptr, nTx: nat)
    requires Shaped(t, st) && Since(was, t, st, w, []) && p in t && !st[p].haveData && !HasChain(st, p)
    ensures Since(was, t, st[p := Status(nTx, 0, true, 0)], DataWaiting(t, st, failed, w, p), DataQueue(t, st, p))
  {
    assert !Had(was, p) by { assert !Had(st, p); }
    assert NodeLinked(t, p);
    var st', w' := st[p := Status(nTx, 0, true, 0)], DataWaiting(t, st, failed, w, p);
    forall q | Had(was, q) ensures Had(st', q) { assert Had(st, q); }
    forall a, i, j | a in w' && 0 <= i < j < |w'[a]| && Had(was, w'[a][j]) ensures Had(was, w'[a][i]) {
      assert a in w && w'[a][j] == w[a][j] && w'[a][i] == w[a][i];
    }
  }

  /** Linking the front of the queue. */
  lemma LinkKeepsSince(was: Statuses, t: Tree, st: Statuses, failed: set<Ptr>, w: Waiting, queue: seq<Ptr>, id: nat)
    requires Linked(t) && Arriving(t, st, failed, w, queue) && queue != [] && Numbered(st, id) && Since(was, t, st, w, queue)
    ensures Since(was, t, st[queue[0] := LinkedStatus(t, st, queue[0], id)], w - {queue[0]}, queue[1..] + EqualRange(w, queue[0]))
  {
    var x := queue[0];
    assert Pending(st, x) && EntryOk(t, st, failed, w, queue, x);
    var st' := st[x := LinkedStatus(t, st, x, id)];
    assert HasChain(st', x) by { FrontIsPending(t, st, failed, w, queue); }
    LinkedSiblings(was, t, st, failed, w, queue);
    hide Arriving;
    SiblingsAfterLink(was, t, st, x, st'[x], id);
    forall q | Had(was, q) ensures Had(st', q) { assert Had(st, q); }
    QueueSinceLink(was, t, st, failed, w, queue);
  }

  /** When the front of the queue had no data then, its siblings that had are linked; none is linked ahead of it. */
  lemma LinkedSiblings(was: Statuses, t: Tree, st: Statuses, failed: set<Ptr>, w: Waiting, queue: seq<Ptr>)
    requires Linked(t) && Arriving(t, st, failed, w, queue) && queue != [] && Since(was, t, st, w, queue)
    ensures queue[0] in t && !HasChain(st, queue[0])
    ensures forall a :: a in t && t[a].prev == t[queue[0]].prev && Had(was, a) && !Had(was, queue[0]) ==> HasChain(st, a)
  {
    var x := queue[0];
    assert Pending(st, x) && ParentReady(t, st, x);
    forall a | a in t && t[a].prev == t[x].prev && Had(was, a) && !Had(was, x) ensures HasChain(st, a) {
      assert Had(st, a) && EntryOk(t, st, failed, w, queue, a) && NodeLinked(t, a);
      assert a !in queue;
    }
  }

  lemma SiblingsAfterLink(was: Statuses, t: Tree, st: Statuses, x: Ptr, s: Status, id: nat)
    requires SiblingsSince(was, t, st) && Numbered(st, id) && x in t && x in st && !HasChain(st, x) && s.nChainTx != 0 && s.sequenceId == id
    requires t.Keys == st.Keys
    requires forall a :: a in t && t[a].prev == t[x].prev && Had(was, a) && !Had(was, x) ==> HasChain(st, a)
    ensures SiblingsSince(was, t, st[x := s])
  {
    var st' := st[x := s];
    forall a, b | a in t && b in t && t[a].prev == t[b].prev && b in st' && HasChain(st', b) && Had(was, a) && !Had(was, b)
      ensures a in st' && HasChain(st', a) && st'[a].sequenceId < st'[b].sequenceId
    {
      assert a != b;
      if b == x { assert HasChain(st, a); }
    }
  }

  lemma QueueSinceLink(was: Statuses, t: Tree, st: Statuses, failed: set<Ptr>, w: Waiting, queue: seq<Ptr>)
    requires Linked(t) && Arriving(t, st, failed, w, queue) && queue != [] && QueueSince(was, t, queue) && WaitingSince(was, w)
    ensures QueueSince(was, t, queue[1..] + EqualRange(w, queue[0])) && WaitingSince(was, w - {queue[0]})
  {
    var x := queue[0];
    var rest, kids := queue[1..], EqualRange(w, x);
    assert Pending(st, x);
    var more := rest + kids;
    forall k | 0 <= k < |rest| ensures more[k] in t && t[more[k]].prev != x {
      assert more[k] == queue[k + 1] && ParentReady(t, st, queue[k + 1]) && Pending(st, queue[k + 1]);
    }
    forall i, j | 0 <= i < j < |more| && more[i] in t && more[j] in t && t[more[i]].prev == t[more[j]].prev && Had(was, more[j])
      ensures Had(was, more[i])
    {
      if j < |rest| {
        assert more[i] == queue[i + 1] && more[j] == queue[j + 1];
      } else {
        assert more[j] == kids[j - |rest|] && kids[j - |rest|] in w[x];
        assert t[more[j]].prev == x;
        if i >= |rest| { assert more[i] == kids[i - |rest|]; }
      }
    }
  }

  lemma HeaderKeepsHistory(seen: set<Statuses>, t: Tree, st: Statuses, w: Waiting, p: Ptr, n: Node)
    requires History(seen, t, st, w, []) && p !in st && t.Keys == st.Keys
    ensures History(seen, t[p := n], st[p := Status(0, 0, false, 0)], w, [])
  {
    hide Since;
    forall was | was in seen ensures Since(was, t[p := n], st[p := Status(0, 0, false, 0)], w, []) {
      HeaderKeepsSince(was, t, st, w, p, n);
    }
  }

  lemma DataKeepsHistory(seen: set<Statuses>, t: Tree, st: Statuses, failed: set<Ptr>, w: Waiting, p: Ptr, nTx: nat)
    requires Shaped(t, st) && History(seen, t, st, w, []) && p in t && !st[p].haveData && !HasChain(st, p)
    ensures History(seen, t, st[p := Status(nTx, 0, true, 0)], DataWaiting(t, st, failed, w, p), DataQueue(t, st, p))
  {
    hide Since, DataWaiting, DataQueue;
    var st', w', queue := st[p := Status(nTx, 0, true, 0)], DataWaiting(t, st, failed, w, p), DataQueue(t, st, p);
    forall was | was in seen ensures Since(was, t, st', w', queue) {
      DataKeepsSince(was, t, st, failed, w, p, nTx);
    }
  }

  lemma LinkKeepsHistory(seen: set<Statuses>, t: Tree, st: Statuses, failed: set<Ptr>, w: Waiting, queue: seq<Ptr>, id: nat)
    requires Linked(t) && Arriving(t, st, failed, w, queue) && queue != [] && Numbered(st, id) && History(seen, t, st, w, queue)
    ensures queue[0] in t
    ensures History(seen, t, st[queue[0] := LinkedStatus(t, st, queue[0], id)], w - {queue[0]}, queue[1..] + EqualRange(w, queue[0]))
  {
    FrontIsPending(t, st, failed, w, queue);
    hide Since, Arriving, Numbered, LinkedStatus, EqualRange;
    var st', w', rest := st[queue[0] := LinkedStatus(t, st, queue[0], id)], w - {queue[0]}, queue[1..] + EqualRange(w, queue[0]);
    forall was | was in seen ensures Since(was, t, st', w', rest) {
      LinkKeepsSince(was, t, st, failed, w, queue, id);
    }
  }

  lemma NoHistory(t: Tree, st: Statuses, w: Waiting, queue: seq<Ptr>)
    ensures History({}, t, st, w, queue)
  {
  }

  lemma NowIsHistory(seen: set<Statuses>, t: Tree, st: Statuses, failed: set<Ptr>, w: Waiting)
    requires Linked(t) && Arriving(t, st, failed, w, []) && History(seen, t, st, w, [])
    ensures History(seen + {st}, t, st, w, [])
  {
    SinceNow(t, st, failed, w);
    hide Since;
  }
}
