/**
 `pcoinsTip` and the undo files: the coins of the active chain, moved one block forward or back by ConnectTip and
 DisconnectTip (src/main.cpp).  Wherever the chain goes, they are what the blocks on it lead to.
 */
module CoinsTip {
  import opened BlockTree
  import opened Coins
  import opened CoinsLayer
  import opened CoinsView
  import opened Undo
  import opened Ledger
  import BlockConnection

  class Tip {
    const rules: Rules
    const coins: CoinsViewCache
    /** The undo data that has been written. */
    var undos: map<Ptr, BlockUndo>

    ghost function Repr(): set<object> {
      {this} + coins.Repr
    }

    /** The coins are those of the chain that ends with `p`, and it can be undone block by block. */
    ghost predicate At(p: Ptr)
      reads this, coins, coins.Repr
    {
      && RulesOk(rules) && this !in coins.Repr && BlockConnection.Ready(coins) && coins.base.Db?
      && LedgerOf(rules, p) == Balanced(coins.View())
      && UndosRight(rules, undos) && Recorded(rules, undos, p)
      && (p == NULL ==> coins.BaseView().bestAnchor == coins.View().bestAnchor)
    }

    constructor (rules: Rules, coins: CoinsViewCache)
      requires RulesOk(rules) && BlockConnection.Ready(coins) && coins.base.Db? && coins.View() == rules.start
      requires coins.BaseView().bestAnchor == coins.View().bestAnchor
      ensures At(NULL) && this.rules == rules && this.coins == coins
    {
      hide UtxoSane, AnchorsSane, CoinsViewCache.Overlay, CoinsViewCache.Valid, CoinsViewCache.Stacked;
      this.rules, this.coins, undos := rules, coins, map[];
    }

    /** The special case in ConnectBlock: only the best block changes. */
    method ConnectGenesis()
      requires At(NULL)
      modifies Repr()
      ensures At(rules.genesis)
    {
      hide CoinsViewCache.Overlay, CoinsViewCache.LayerOk, UtxoSane, AnchorsSane, UndosRight;
      ghost var v := coins.View();
      var view := new CoinsViewCache.OnCache(coins);
      view.SetBestBlock(rules.genesis);
      view.Flush();
      assert coins.View() == v.(bestBlock := rules.genesis);
    }

    /** Everything ConnectTip does on the coins: the block is applied as a whole if it is valid, or not at all. */
    method Connect(x: Ptr) returns (connected: bool)
      requires x != NULL && At(if x == rules.genesis then NULL else rules.block(x).prev)
      requires x != rules.genesis ==> Follows(rules, x) && TxsWellFormed(rules.block(x).vtx) && rules.block(x).vtx != []
      modifies Repr()
      ensures connected <==> LedgerOf(rules, x).Balanced?
      ensures At(if connected then x else rules.block(x).prev)
    {
      hide UtxoSane, AnchorsSane, Connects, Undo.ConnectBlock, BlockUndoOf, UndosRight, TxsWellFormed, CoinsViewCache.Overlay, CoinsViewCache.Valid, CoinsViewCache.Stacked;
      if x == rules.genesis {
        ConnectGenesis();
        return true;
      }
      if !rules.others(x) {
        return false;
      }
      var b := rules.block(x);
      LedgerSane(rules, b.prev);
      AnchorIsThere(coins.View());
      var undo;
      connected, undo := BlockConnection.ConnectTip(coins, b);
      if connected {
        Written(rules, undos, x, undo);
        MoreRecorded(rules, undos, b.prev, x, undo);
        undos := undos[x := undo];
      }
    }

    /** Everything DisconnectTip does on the coins.  It never fails. */
    method Disconnect(x: Ptr)
      requires x != NULL && x != rules.genesis && At(x)
      modifies Repr()
      ensures At(rules.block(x).prev)
    {
      hide UtxoSane, AnchorsSane, Connects, Undo.ConnectBlock, Undo.DisconnectBlock, UndosFit, DisconnectTxsClean, CoinsViewCache.Overlay,
        CoinsViewCache.Valid, CoinsViewCache.Stacked;
      var b := rules.block(x);
      ghost var v := LedgerOf(rules, b.prev).view;
      LedgerSane(rules, b.prev);
      AnchorIsThere(v);
      DisconnectInvertsConnect(v, b);
      BlockConnection.BestIsNotEmpty(v, b);
      ConnectKeepsSane(v, b);
      AnchorIsThere(coins.View());
      HasTransactions(v, b);
      var fits, clean := BlockConnection.DisconnectTip(coins, b, undos[x]);
    }

    /** `FlushStateToDisk`, at any time: the coins stay what they are, and the database then holds the same. */
    method Flush(ghost p: Ptr)
      requires At(p)
      modifies Repr()
      ensures At(p) && LedgerOf(rules, p) == Balanced(coins.BaseView())
    {
      hide UtxoSane, AnchorsSane, CoinsViewCache.LayerOk, LedgerOf, UndosRight, Recorded;
      coins.Flush();
      assert coins.View() == old(coins.View()) == coins.BaseView();
    }
  }

  lemma AnchorIsThere(v: View)
    requires StateSane(v)
    ensures v.bestAnchor in v.anchors
  {
  }

  lemma HasTransactions(v: View, b: Block)
    requires Connects(v, b)
    ensures b.vtx != []
  {
  }

  lemma Written(r: Rules, undos: map<Ptr, BlockUndo>, x: Ptr, u: BlockUndo)
    requires UndosRight(r, undos) && x != NULL && x != r.genesis && LedgerOf(r, x).Balanced? && u == UndoFor(r, x)
    ensures UndosRight(r, undos[x := u])
  {
    hide LedgerOf, UndoFor;
  }
}
