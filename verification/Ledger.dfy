/**
 The coins, nullifiers and anchors a chain of blocks leads to: ConnectBlock (src/main.cpp) applied from the
 genesis block on.  Whether a block is valid depends on nothing but the blocks it builds on.
 */
module Ledger {
  import opened BlockTree
  import opened Coins
  import opened CoinsLayer
  import opened CoinsView
  import opened Undo
  import opened Effects

  /** What is fixed: the genesis block, the state before it, the block behind every hash, and the verdict on a
      block of every rule that is not about coins, nullifiers and anchors. */
  datatype Rules = Rules(genesis: Ptr, start: View, block: Ptr -> Block, others: Ptr -> bool)

  ghost predicate RulesOk(r: Rules) {
    && r.genesis != NULL && r.block(r.genesis).height == 0
    && StateSane(r.start) && r.start.bestBlock == NullHash && r.start.bestAnchor != NoRoot
  }

  datatype Ledger = Broken | Balanced(view: View)

  /** The block names its parent, one level below it. */
  predicate Follows(r: Rules, p: Ptr) {
    var b := r.block(p);
    b.hash == p && b.prev != NULL && b.height == r.block(b.prev).height + 1
  }

  /** The state after the chain that ends with `p`.  The transactions of the genesis block are not connected. */
  ghost function LedgerOf(r: Rules, p: Ptr): Ledger
    decreases r.block(p).height
  {
    if p == NULL then Balanced(r.start)
    else if p == r.genesis then Balanced(r.start.(bestBlock := p))
    else if !Follows(r, p) then Broken
    else
      var b := r.block(p);
      match LedgerOf(r, b.prev)
      case Broken => Broken
      case Balanced(v) =>
        if v.bestAnchor in v.anchors && r.others(p) && Connects(v, b) then Balanced(Undo.ConnectBlock(v, b)) else Broken
  }

  /** Every state a chain leads to is sane, and names its last block. */
  lemma {:induction false} LedgerSane(r: Rules, p: Ptr)
    requires RulesOk(r) && LedgerOf(r, p).Balanced?
    ensures StateSane(LedgerOf(r, p).view) && LedgerOf(r, p).view.bestBlock == p && LedgerOf(r, p).view.bestAnchor != NoRoot
    decreases r.block(p).height
  {
    hide UtxoSane, Connects, AnchorsSane, Undo.ConnectBlock;
    if p == NULL {
    } else if p == r.genesis {
      BestBlockAlone(r.start, p);
    } else {
      var b := r.block(p);
      LedgerSane(r, b.prev);
      var v := LedgerOf(r, b.prev).view;
      ConnectKeepsSane(v, b);
      ConnectedBest(v, b);
    }
  }

  lemma BestBlockAlone(v: View, p: BlockHash)
    requires StateSane(v)
    ensures StateSane(v.(bestBlock := p))
  {
  }

  lemma ConnectedBest(v: View, b: Block)
    requires StateSane(v) && Connects(v, b)
    ensures Undo.ConnectBlock(v, b).bestBlock == b.hash && Undo.ConnectBlock(v, b).bestAnchor != NoRoot
  {
    hide UtxoSane, Connects, ConnectTxs;
    ConnectTxsFrame(v, b.vtx, b.height);
  }

  /** The undo data ConnectBlock writes for `p`. */
  ghost function UndoFor(r: Rules, p: Ptr): BlockUndo
    requires p != NULL && p != r.genesis && LedgerOf(r, p).Balanced?
  {
    BlockUndoOf(LedgerOf(r, r.block(p).prev).view, r.block(p))
  }

  /** Undo data that has been written is right. */
  ghost predicate UndosRight(r: Rules, undos: map<Ptr, BlockUndo>) {
    forall p :: p in undos ==> p != NULL && p != r.genesis && LedgerOf(r, p).Balanced? && undos[p] == UndoFor(r, p)
  }

  /** There is undo data for every block from `p` down to the genesis block. */
  ghost predicate Recorded(r: Rules, undos: map<Ptr, BlockUndo>, p: Ptr)
    decreases r.block(p).height
  {
    p == NULL || p == r.genesis || (p in undos && Follows(r, p) && Recorded(r, undos, r.block(p).prev))
  }

  lemma {:induction false} MoreRecorded(r: Rules, undos: map<Ptr, BlockUndo>, p: Ptr, x: Ptr, u: BlockUndo)
    requires Recorded(r, undos, p)
    ensures Recorded(r, undos[x := u], p)
    decreases r.block(p).height
  {
    if p != NULL && p != r.genesis { MoreRecorded(r, undos, r.block(p).prev, x, u); }
  }

  // ----- which outputs a chain holds

  /** Every block changes the ledger of its parent as one block does. */
  lemma LedgerStep(r: Rules, p: Ptr)
    requires RulesOk(r) && p != NULL && p != r.genesis && LedgerOf(r, p).Balanced?
    ensures LedgerOf(r, r.block(p).prev).Balanced?
    ensures BlockEffect(LedgerOf(r, r.block(p).prev).view, r.block(p), LedgerOf(r, p).view)
  {
    hide UtxoSane, Connects, AnchorsSane, Undo.ConnectBlock, BlockEffect;
    var b := r.block(p);
    LedgerSane(r, b.prev);
    ConnectBlockEffect(LedgerOf(r, b.prev).view, b);
  }

  /** `q` is `p` or one of the blocks it builds on. */
  ghost predicate Below(r: Rules, q: Ptr, p: Ptr)
    decreases r.block(p).height
  {
    p != NULL && (q == p || (p != r.genesis && Follows(r, p) && Below(r, q, r.block(p).prev)))
  }

  /** No block spends `o`, from `p` down to `q`, or to the genesis block if `q` is not met. */
  ghost predicate Unspent(r: Rules, q: Ptr, p: Ptr, o: OutPoint)
    decreases r.block(p).height
  {
    p == NULL || p == r.genesis ||
    (!AnySpends(r.block(p).vtx, o) && (p == q || (Follows(r, p) && Unspent(r, q, r.block(p).prev, o))))
  }

  /** `q` is a block of the chain that creates `o`, and since then none has spent it. */
  ghost predicate HeldSince(r: Rules, q: Ptr, p: Ptr, o: OutPoint) {
    Below(r, q, p) && q != r.genesis && AnyCreates(r.block(q).vtx, o) && Unspent(r, q, p, o)
  }

  /** What can be spent after a chain was there at the start or comes from one of its blocks, with the output, the flags and
      the height found there, and no block has spent it since. */
  lemma {:induction false} CoinComesFrom(r: Rules, p: Ptr, o: OutPoint) returns (q: Ptr, i: nat)
    requires RulesOk(r) && LedgerOf(r, p).Balanced? && Spendable(LedgerOf(r, p).view.coins, o)
    ensures q == NULL ==> && Spendable(r.start.coins, o) && Unspent(r, NULL, p, o)
                          && CoinAt(LedgerOf(r, p).view.coins, o) == CoinAt(r.start.coins, o)
    ensures q != NULL ==> && HeldSince(r, q, p, o) && i < |r.block(q).vtx| && Creates(r.block(q).vtx[i], o)
                          && var tx := r.block(q).vtx[i];
                             CoinAt(LedgerOf(r, p).view.coins, o) == Coin(tx.vout[o.n], r.block(q).height, tx.coinBase, tx.version)
    decreases r.block(p).height
  {
    hide Spendable, CoinAt, Creates, AnySpends, Connects, Undo.ConnectBlock;
    q, i := NULL, 0;
    if p != NULL && p != r.genesis {
      var b := r.block(p);
      LedgerStep(r, p);
      var v, w := LedgerOf(r, b.prev).view, LedgerOf(r, p).view;
      assert OutputAfter(v.coins, b.vtx, b.height, w.coins, o);
      if AnyCreates(b.vtx, o) {
        q := p;
        i :| 0 <= i < |b.vtx| && Creates(b.vtx[i], o);
      } else {
        q, i := CoinComesFrom(r, b.prev, o);
      }
    }
  }

  /** Conversely, what a block of the chain creates can be spent as long as none has spent it. */
  lemma {:induction false} CoinStays(r: Rules, q: Ptr, p: Ptr, o: OutPoint)
    requires RulesOk(r) && LedgerOf(r, p).Balanced?
    requires if q == NULL then Spendable(r.start.coins, o) && Unspent(r, NULL, p, o) else HeldSince(r, q, p, o)
    ensures Spendable(LedgerOf(r, p).view.coins, o)
    decreases r.block(p).height
  {
    hide Spendable, CoinAt, Creates, AnySpends, AnyCreates, Connects, Undo.ConnectBlock;
    if p != NULL && p != r.genesis {
      var b := r.block(p);
      LedgerStep(r, p);
      assert OutputAfter(LedgerOf(r, b.prev).view.coins, b.vtx, b.height, LedgerOf(r, p).view.coins, o);
      if q != p { CoinStays(r, q, b.prev, o); }
    }
  }

  /** The outputs of a ledger, without looking at it: those at the start or of a block of the chain that no block has spent
      since. */
  lemma LedgerHolds(r: Rules, p: Ptr, o: OutPoint)
    requires RulesOk(r) && LedgerOf(r, p).Balanced?
    ensures Spendable(LedgerOf(r, p).view.coins, o) <==>
              || (Spendable(r.start.coins, o) && Unspent(r, NULL, p, o))
              || exists q :: q != NULL && HeldSince(r, q, p, o)
  {
    hide Spendable, CoinAt, HeldSince, Unspent, LedgerOf;
    if Spendable(LedgerOf(r, p).view.coins, o) {
      var q, i := CoinComesFrom(r, p, o);
    }
    if Spendable(r.start.coins, o) && Unspent(r, NULL, p, o) {
      CoinStays(r, NULL, p, o);
    }
    if q: Ptr :| q != NULL && HeldSince(r, q, p, o) {
      CoinStays(r, q, p, o);
    }
  }
}
