/**
 Connecting and disconnecting blocks on the stack of caches (src/main.cpp, UpdateCoins,
 ApplyTxInUndo, ConnectBlock, DisconnectBlock, and the cache handling of ConnectTip and DisconnectTip).
 Each method is tied to the function of module Undo that says what it does to the plain maps.
 */
module BlockConnection {
  import opened Coins
  import opened CoinsLayer
  import opened CoinsView
  import opened Undo
  import opened Effects

  ghost predicate Ready(view: CoinsViewCache)
    reads view, view.Repr
  {
    view in view.Repr && view.Stacked() && view.Valid() && !view.hasModifier
  }

  // ----- connecting

  /** One turn of the input loop of `UpdateCoins`. */
  method SpendInput(view: CoinsViewCache, out: OutPoint) returns (undo: TxInUndo)
    requires Ready(view) && Spendable(view.View().coins, out)
    modifies view.Repr
    ensures Ready(view) && view.BaseView() == old(view.BaseView())
    ensures view.View() == old(view.View()).(coins := SpendOne(old(view.View()).coins, out))
    ensures undo == UndoOf(old(view.View()).coins, out)
  {
    hide AllNull, CoinsViewCache.Valid, Trimmed;
    var coins := view.ModifyCoins(out.hash);
    undo := TxInUndo(coins.vout[out.n], false, 0, 0);
    var (spent, done) := coins.Spend(out.n);
    if |spent.vout| == 0 {
      undo := undo.(height := spent.height, coinBase := spent.coinBase, version := spent.version);
    }
    view.EndModify(out.hash, spent);
  }

  method SpendInputs(view: CoinsViewCache, vin: seq<OutPoint>) returns (undo: seq<TxInUndo>)
    requires Ready(view) && AllSpendable(view.View().coins, vin)
    modifies view.Repr
    ensures Ready(view) && view.BaseView() == old(view.BaseView())
    ensures view.View() == old(view.View()).(coins := SpendAll(old(view.View()).coins, vin))
    ensures undo == UndosOf(old(view.View()).coins, vin)
  {
    hide CoinsViewCache.Valid, CoinsViewCache.Stacked, SpendOne, UndoOf, Spendable;
    undo := [];
    assert vin[..0] == [];
    for i := 0 to |vin|
      invariant Ready(view) && view.BaseView() == old(view.BaseView())
      invariant view.View() == old(view.View()).(coins := SpendAll(old(view.View()).coins, vin[..i]))
      invariant undo == UndosOf(old(view.View()).coins, vin[..i])
    {
      assert vin[..i + 1][..i] == vin[..i];
      var u := SpendInput(view, vin[i]);
      undo := undo + [u];
    }
    assert vin[..|vin|] == vin;
  }

  method SetNullifiers(view: CoinsViewCache, nullifiers: seq<Nullifier>, spent: bool)
    requires Ready(view)
    modifies view.Repr
    ensures Ready(view) && view.BaseView() == old(view.BaseView())
    ensures view.View() == old(view.View()).(nullifiers :=
              if spent then old(view.View()).nullifiers + (set n | n in nullifiers)
              else old(view.View()).nullifiers - (set n | n in nullifiers))
  {
    hide CoinsViewCache.Valid, CoinsViewCache.Stacked;
    for i := 0 to |nullifiers|
      invariant Ready(view) && view.BaseView() == old(view.BaseView())
      invariant view.View() == old(view.View()).(nullifiers :=
                  if spent then old(view.View()).nullifiers + (set n | n in nullifiers[..i])
                  else old(view.View()).nullifiers - (set n | n in nullifiers[..i]))
    {
      assert nullifiers[..i + 1] == nullifiers[..i] + [nullifiers[i]];
      view.SetNullifier(nullifiers[i], spent);
    }
    assert nullifiers[..|nullifiers|] == nullifiers;
  }

  method UpdateCoins(view: CoinsViewCache, tx: Tx, height: nat) returns (undo: seq<TxInUndo>)
    requires Ready(view) && (!tx.coinBase ==> AllSpendable(view.View().coins, tx.vin))
    modifies view.Repr
    ensures Ready(view) && view.BaseView() == old(view.BaseView())
    ensures view.View() == ConnectTx(old(view.View()), tx, height) && TxEffect(old(view.View()), tx, height, view.View())
    ensures undo == TxUndo(old(view.View()), tx)
  {
    hide CoinsViewCache.Valid, CoinsViewCache.Stacked, FromTx, SpendAll, UndosOf, WithCoins, AllSpendable, TxEffect;
    ConnectTxEffect(view.View(), tx, height);
    undo := [];
    if !tx.coinBase {
      undo := SpendInputs(view, tx.vin);
    }
    SetNullifiers(view, tx.nullifiers, true);
    var coins := view.ModifyCoins(tx.hash);
    view.EndModify(tx.hash, FromTx(tx, height));
  }

  /** `HaveInputs`, then the nullifier test of `HaveJoinSplitRequirements`. */
  method CheckInputs(view: CoinsViewCache, tx: Tx) returns (ok: bool)
    requires Ready(view)
    modifies view.Repr
    ensures Ready(view) && view.View() == old(view.View()) && view.BaseView() == old(view.BaseView())
    ensures ok <==> TxInputsOk(view.View(), tx)
  {
    hide CoinsViewCache.Valid, CoinsViewCache.Stacked, AllNull;
    if tx.coinBase {
      return true;
    }
    for i := 0 to |tx.vin|
      invariant Ready(view) && view.View() == old(view.View()) && view.BaseView() == old(view.BaseView())
      invariant forall j :: 0 <= j < i ==> Spendable(view.View().coins, tx.vin[j])
    {
      var found, coins := view.GetCoins(tx.vin[i].hash);
      AvailableIffSpendable(view.View().coins, tx.vin[i], found, coins);
      if !found || !coins.IsAvailable(tx.vin[i].n) {
        return false;
      }
    }
    for i := 0 to |tx.nullifiers|
      invariant Ready(view) && view.View() == old(view.View()) && view.BaseView() == old(view.BaseView())
      invariant forall j :: 0 <= j < i ==> tx.nullifiers[j] !in view.View().nullifiers
    {
      var spent := view.GetNullifier(tx.nullifiers[i]);
      if spent {
        assert tx.nullifiers[i] in NullifiersOf(tx);
        return false;
      }
    }
    return true;
  }

  lemma AvailableIffSpendable(m: Utxo, out: OutPoint, found: bool, coins: CCoins)
    requires Answers(m, out.hash, found, coins)
    ensures Spendable(m, out) <==> found && coins.IsAvailable(out.n)
  {
  }

  /** The overwrite check at the start of ConnectBlock. */
  method CheckNoOverwrite(view: CoinsViewCache, vtx: seq<Tx>) returns (ok: bool)
    requires Ready(view)
    modifies view.Repr
    ensures Ready(view) && view.View() == old(view.View()) && view.BaseView() == old(view.BaseView())
    ensures ok <==> NoOverwrite(view.View(), vtx)
  {
    hide CoinsViewCache.Valid, CoinsViewCache.Stacked, AllNull;
    for i := 0 to |vtx|
      invariant Ready(view) && view.View() == old(view.View()) && view.BaseView() == old(view.BaseView())
      invariant forall j :: 0 <= j < i ==> vtx[j].hash !in view.View().coins
    {
      var found, coins := view.GetCoins(vtx[i].hash);
      if found && !coins.IsPruned() {
        return false;
      }
    }
    return true;
  }

  /** What has been connected and recorded when the transactions of `done` have been processed. */
  ghost predicate ConnectedSoFar(v: View, now: View, done: seq<Tx>, height: nat, undos: seq<seq<TxInUndo>>) {
    && now == ConnectTxs(v, done, height) && undos == TxUndos(v, done, height)
    && UtxoSane(now.coins) && InputsOk(v, done, height)
  }

  lemma ConnectedOneMore(v: View, done: seq<Tx>, tx: Tx, height: nat, undos: seq<seq<TxInUndo>>)
    requires height >= 1 && TxWellFormed(tx)
    requires ConnectedSoFar(v, ConnectTxs(v, done, height), done, height, undos)
    requires TxInputsOk(ConnectTxs(v, done, height), tx)
    ensures !tx.coinBase ==> AllSpendable(ConnectTxs(v, done, height).coins, tx.vin)
    ensures ConnectedSoFar(v, ConnectTx(ConnectTxs(v, done, height), tx, height), done + [tx], height,
                           if done == [] then [] else undos + [TxUndo(ConnectTxs(v, done, height), tx)])
    ensures CommitmentsOf(done + [tx]) == CommitmentsOf(done) + tx.commitments
  {
    hide UtxoSane, TxWellFormed, TxInputsOk, ConnectTx, TxUndo, AllSpendable, InputsOk;
    var more := done + [tx];
    assert more[..|done|] == done;
    ConnectTxKeepsSane(ConnectTxs(v, done, height), tx, height);
    OneMoreInputsOk(v, done, tx, height);
  }

  lemma OneMoreInputsOk(v: View, done: seq<Tx>, tx: Tx, height: nat)
    requires InputsOk(v, done, height) && TxInputsOk(ConnectTxs(v, done, height), tx)
    ensures InputsOk(v, done + [tx], height)
  {
    hide TxInputsOk, ConnectTxs;
    var more := done + [tx];
    assert more[..|done|] == done;
    forall i | 0 <= i < |more| ensures TxInputsOk(ConnectTxs(v, more[..i], height), more[i]) {
      if i < |done| { assert more[..i] == done[..i] && more[i] == done[i]; }
    }
  }

  /** The loop of ConnectBlock over the transactions. */
  method ConnectTransactions(view: CoinsViewCache, vtx: seq<Tx>, height: nat, tree0: CommitTree)
    returns (ok: bool, undos: seq<seq<TxInUndo>>, tree: CommitTree)
    requires Ready(view) && UtxoSane(view.View().coins) && TxsWellFormed(vtx) && height >= 1
    modifies view.Repr
    ensures Ready(view) && view.BaseView() == old(view.BaseView())
    ensures ok <==> InputsOk(old(view.View()), vtx, height)
    ensures ok ==> view.View() == ConnectTxs(old(view.View()), vtx, height)
    ensures ok ==> undos == TxUndos(old(view.View()), vtx, height) && tree == tree0 + CommitmentsOf(vtx)
  {
    hide CoinsViewCache.Valid, CoinsViewCache.Stacked, UtxoSane, TxWellFormed, TxInputsOk, AllSpendable, ConnectTx, TxUndo;
    ghost var v := old(view.View());
    undos, tree := [], tree0;
    assert vtx[..0] == [];
    for i := 0 to |vtx|
      invariant Ready(view) && view.BaseView() == old(view.BaseView()) && ConnectedSoFar(v, view.View(), vtx[..i], height, undos)
      invariant tree == tree0 + CommitmentsOf(vtx[..i])
    {
      var inputsOk := CheckInputs(view, vtx[i]);
      if !inputsOk {
        return false, undos, tree;
      }
      ConnectedOneMore(v, vtx[..i], vtx[i], height, undos);
      assert vtx[..i + 1] == vtx[..i] + [vtx[i]];
      var undo := UpdateCoins(view, vtx[i], height);
      if i > 0 {
        undos := undos + [undo];
      }
      tree := tree + vtx[i].commitments;
    }
    assert vtx[..|vtx|] == vtx;
    return true, undos, tree;
  }

  /** `ConnectBlock` on a block that has passed CheckBlock, on top of the block it names as its parent. */
  method ConnectBlock(view: CoinsViewCache, b: Block) returns (ok: bool, undo: BlockUndo)
    requires Ready(view) && StateSane(view.View())
    requires b.height >= 1 && b.hash != NullHash && b.prev == view.View().bestBlock
    requires TxsWellFormed(b.vtx) && b.vtx != []
    modifies view.Repr
    ensures Ready(view) && view.BaseView() == old(view.BaseView())
    ensures ok <==> Connects(old(view.View()), b)
    ensures ok ==> view.View() == Undo.ConnectBlock(old(view.View()), b) && undo == BlockUndoOf(old(view.View()), b)
    ensures ok ==> BlockEffect(old(view.View()), b, view.View())
    ensures ok ==> view.hashBlock != NullHash && view.hashAnchor != NoRoot
  {
    hide CoinsViewCache.Valid, CoinsViewCache.Stacked, UtxoSane, TxsWellFormed, InputsOk, NoOverwrite, ConnectTxs, TxUndos, RootsOk, Pushed, BlockEffect;
    if Connects(view.View(), b) { ConnectBlockEffect(view.View(), b); }
    var noOverwrite := CheckNoOverwrite(view, b.vtx);
    undo := BlockUndo([], NoRoot);
    if !noOverwrite {
      return false, undo;
    }
    var oldRoot := view.GetBestAnchor();
    var found, tree := view.GetAnchorAt(oldRoot);
    var undos;
    ok, undos, tree := ConnectTransactions(view, b.vtx, b.height, tree);
    if !ok {
      return;
    }
    view.PushAnchor(tree);
    undo := BlockUndo(undos, oldRoot);
    view.SetBestBlock(b.hash);
  }

  // ----- disconnecting

  /** `ApplyTxInUndo`. */
  method ApplyTxInUndo(view: CoinsViewCache, undo: TxInUndo, out: OutPoint) returns (clean: bool)
    requires Ready(view)
    modifies view.Repr
    ensures Ready(view) && view.BaseView() == old(view.BaseView())
    ensures clean <==> RestoreClean(old(view.View()).coins, undo, out)
    ensures view.View() == old(view.View()).(coins := view.View().coins)
    ensures clean ==> view.View().coins == RestoreOne(old(view.View()).coins, undo, out)
  {
    hide CoinsViewCache.Valid, CoinsViewCache.Stacked, Trimmed, WithOutput;
    clean := true;
    var coins := view.ModifyCoins(out.hash);
    if undo.height != 0 {
      // undo data contains height: this is the last output of the prevout tx being spent
      if !coins.IsPruned() {
        clean := false;
      }
      coins := CCoins(undo.coinBase, [], undo.height, undo.version);
    } else if coins.IsPruned() {
      clean := false;
    }
    if coins.IsAvailable(out.n) {
      clean := false;
    }
    coins := coins.(vout := WithOutput(coins.vout, out.n, undo.txout));
    view.EndModify(out.hash, coins);
  }

  /** Restoring the inputs of a transaction, last first. */
  method RestoreInputs(view: CoinsViewCache, undos: seq<TxInUndo>, vin: seq<OutPoint>) returns (clean: bool)
    requires Ready(view) && |undos| == |vin|
    modifies view.Repr
    ensures Ready(view) && view.BaseView() == old(view.BaseView())
    ensures clean <==> RestoreAllClean(old(view.View()).coins, undos, vin)
    ensures view.View() == old(view.View()).(coins := view.View().coins)
    ensures clean ==> view.View().coins == RestoreAll(old(view.View()).coins, undos, vin)
  {
    hide CoinsViewCache.Valid, CoinsViewCache.Stacked, RestoreClean, RestoreOne;
    clean := true;
    assert undos[..|vin|] == undos && vin[..|vin|] == vin;
    var j := |vin|;
    while j > 0
      invariant 0 <= j <= |vin| && Ready(view) && view.BaseView() == old(view.BaseView())
      invariant view.View() == old(view.View()).(coins := view.View().coins)
      invariant RestoreAllClean(old(view.View()).coins, undos, vin)
           <==> clean && RestoreAllClean(view.View().coins, undos[..j], vin[..j])
      invariant clean ==> RestoreAll(old(view.View()).coins, undos, vin) == RestoreAll(view.View().coins, undos[..j], vin[..j])
    {
      assert undos[..j][..j - 1] == undos[..j - 1] && vin[..j][..j - 1] == vin[..j - 1];
      j := j - 1;
      var ok := ApplyTxInUndo(view, undos[j], vin[j]);
      clean := clean && ok;
    }
  }

  /** One turn of the loop of DisconnectBlock. */
  method DisconnectTransaction(view: CoinsViewCache, tx: Tx, height: nat, undo: seq<TxInUndo>, restore: bool) returns (clean: bool)
    requires Ready(view) && (restore ==> |undo| == |tx.vin|)
    modifies view.Repr
    ensures Ready(view) && view.BaseView() == old(view.BaseView())
    ensures clean <==> DisconnectTxClean(old(view.View()), tx, height, undo, restore)
    ensures view.View() == old(view.View()).(coins := view.View().coins, nullifiers := view.View().nullifiers)
    ensures clean ==> view.View() == DisconnectTx(old(view.View()), tx, undo, restore)
  {
    hide CoinsViewCache.Valid, CoinsViewCache.Stacked, RestoreAllClean, RestoreAll, OutputsMatch, AllNull;
    // Check that all outputs are available and match the outputs in the block itself exactly.
    var outs := view.ModifyCoins(tx.hash);
    clean := OutputsMatch(outs, tx, height);
    PrunedMatchesAlike(outs, NoCoins, tx, height);
    NoCoinsIsPruned();
    // remove outputs
    view.EndModify(tx.hash, NoCoins);
    // unspend nullifiers
    SetNullifiers(view, tx.nullifiers, false);
    // restore inputs
    if restore {
      var ok := RestoreInputs(view, undo, tx.vin);
      clean := clean && ok;
    }
  }

  lemma PrunedMatchesAlike(c: CCoins, d: CCoins, tx: Tx, height: nat)
    requires c.IsTrimmed() && d.IsTrimmed()
    ensures c.IsPruned() && d.IsPruned() ==> (OutputsMatch(c, tx, height) <==> OutputsMatch(d, tx, height))
  {
  }

  function UndosUpTo(undos: seq<seq<TxInUndo>>, k: nat): seq<seq<TxInUndo>>
    requires k <= |undos| + 1
  {
    if k > 0 then undos[..k - 1] else []
  }

  /** The transactions from `k` on have been disconnected. */
  ghost predicate DisconnectedSoFar(v: View, now: View, vtx: seq<Tx>, height: nat, undos: seq<seq<TxInUndo>>, k: nat, clean: bool)
    requires UndosFit(vtx, undos) && k <= |vtx| && vtx != []
  {
    && UndosFit(vtx[..k], UndosUpTo(undos, k))
    && now == v.(coins := now.coins, nullifiers := now.nullifiers)
    && (DisconnectTxsClean(v, vtx, height, undos) <==> clean && DisconnectTxsClean(now, vtx[..k], height, UndosUpTo(undos, k)))
    && (clean ==> DisconnectTxs(v, vtx, undos) == DisconnectTxs(now, vtx[..k], UndosUpTo(undos, k)))
  }

  lemma DisconnectStarts(v: View, vtx: seq<Tx>, height: nat, undos: seq<seq<TxInUndo>>)
    requires UndosFit(vtx, undos) && vtx != []
    ensures DisconnectedSoFar(v, v, vtx, height, undos, |vtx|, true)
  {
    assert vtx[..|vtx|] == vtx && UndosUpTo(undos, |vtx|) == undos;
  }

  lemma DisconnectedOneMore(v: View, now: View, next: View, vtx: seq<Tx>, height: nat, undos: seq<seq<TxInUndo>>, k: nat, clean: bool, ok: bool)
    requires UndosFit(vtx, undos) && k < |vtx| && DisconnectedSoFar(v, now, vtx, height, undos, k + 1, clean)
    requires var undo := if k > 0 then undos[k - 1] else [];
             && (ok <==> DisconnectTxClean(now, vtx[k], height, undo, k > 0))
             && next == now.(coins := next.coins, nullifiers := next.nullifiers)
             && (ok ==> next == DisconnectTx(now, vtx[k], undo, k > 0))
    ensures DisconnectedSoFar(v, next, vtx, height, undos, k, clean && ok)
  {
    hide DisconnectTx, DisconnectTxClean;
    assert vtx[..k + 1][..k] == vtx[..k];
    assert k > 0 ==> UndosUpTo(undos, k + 1)[..k - 1] == UndosUpTo(undos, k);
  }

  /** `DisconnectBlock`.  Undo data of the wrong shape is refused (`ok`); otherwise `clean` tells
      whether everything matched. */
  method DisconnectBlock(view: CoinsViewCache, b: Block, undo: BlockUndo) returns (ok: bool, clean: bool)
    requires Ready(view) && b.vtx != [] && b.prev != NullHash && undo.oldRoot != NoRoot && b.hash == view.View().bestBlock
    requires view.View().bestAnchor == undo.oldRoot
          || (view.View().bestAnchor in view.View().anchors && view.View().bestAnchor != EmptyRoot)
    modifies view.Repr
    ensures Ready(view) && view.BaseView() == old(view.BaseView())
    ensures ok <==> UndosFit(b.vtx, undo.vtxundo)
    ensures ok ==> (clean <==> DisconnectTxsClean(old(view.View()), b.vtx, b.height, undo.vtxundo))
    ensures ok && clean ==> view.View() == Undo.DisconnectBlock(old(view.View()), b, undo)
    ensures ok ==> view.hashBlock != NullHash && view.hashAnchor != NoRoot
  {
    hide CoinsViewCache.Valid, CoinsViewCache.Stacked, DisconnectTxsClean, DisconnectTxs, DisconnectTx, DisconnectTxClean, Popped, DisconnectedSoFar;
    if |undo.vtxundo| + 1 != |b.vtx| {
      return false, false;
    }
    clean := true;
    ghost var v := view.View();
    if UndosFit(b.vtx, undo.vtxundo) { DisconnectStarts(v, b.vtx, b.height, undo.vtxundo); }
    var i := |b.vtx|;
    while i > 0
      invariant 0 <= i <= |b.vtx| && Ready(view) && view.BaseView() == old(view.BaseView())
      invariant forall j :: i <= j < |b.vtx| && j > 0 ==> |undo.vtxundo[j - 1]| == |b.vtx[j].vin|
      invariant view.View().anchors == v.anchors && view.View().bestAnchor == v.bestAnchor
      invariant UndosFit(b.vtx, undo.vtxundo) ==> DisconnectedSoFar(v, view.View(), b.vtx, b.height, undo.vtxundo, i, clean)
    {
      i := i - 1;
      ghost var now := view.View();
      var txundo := if i > 0 then undo.vtxundo[i - 1] else [];
      if i > 0 && |txundo| != |b.vtx[i].vin| {
        return false, false;
      }
      var matched := DisconnectTransaction(view, b.vtx[i], b.height, txundo, i > 0);
      if UndosFit(b.vtx, undo.vtxundo) {
        DisconnectedOneMore(v, now, view.View(), b.vtx, b.height, undo.vtxundo, i, clean, matched);
      }
      clean := clean && matched;
    }
    DisconnectEnds(v, view.View(), b.vtx, b.height, undo.vtxundo, clean);
    // set the old best anchor back, then move best block pointer to prevout block
    view.PopAnchor(undo.oldRoot);
    view.SetBestBlock(b.prev);
    ok := true;
  }

  lemma DisconnectEnds(v: View, now: View, vtx: seq<Tx>, height: nat, undos: seq<seq<TxInUndo>>, clean: bool)
    requires UndosFit(vtx, undos) && vtx != [] && DisconnectedSoFar(v, now, vtx, height, undos, 0, clean)
    ensures clean <==> DisconnectTxsClean(v, vtx, height, undos)
    ensures clean ==> now == DisconnectTxs(v, vtx, undos)
  {
  }

  // ----- on the tip of the chain

  /** `ConnectTip`: connect in a cache of its own, and flush it only on success: the block is applied
      as a whole or not at all. */
  method ConnectTip(tip: CoinsViewCache, b: Block) returns (ok: bool, undo: BlockUndo)
    requires Ready(tip) && StateSane(tip.View())
    requires b.height >= 1 && b.hash != NullHash && b.prev == tip.View().bestBlock
    requires TxsWellFormed(b.vtx) && b.vtx != []
    modifies tip.Repr
    ensures Ready(tip)
    ensures ok <==> Connects(old(tip.View()), b)
    ensures ok ==> tip.View() == Undo.ConnectBlock(old(tip.View()), b) && undo == BlockUndoOf(old(tip.View()), b)
    ensures ok ==> BlockEffect(old(tip.View()), b, tip.View())
    ensures !ok ==> tip.View() == old(tip.View())
  {
    hide Connects, StateSane, TxsWellFormed, Undo.ConnectBlock, BlockUndoOf, CoinsViewCache.Overlay, BlockEffect;
    var view := new CoinsViewCache.OnCache(tip);
    ok, undo := ConnectBlock(view, b);
    if ok {
      view.Flush();
    }
  }

  /** `DisconnectTip`. */
  method DisconnectTip(tip: CoinsViewCache, b: Block, undo: BlockUndo) returns (ok: bool, clean: bool)
    requires Ready(tip) && b.vtx != [] && b.prev != NullHash && undo.oldRoot != NoRoot && b.hash == tip.View().bestBlock
    requires tip.View().bestAnchor == undo.oldRoot
          || (tip.View().bestAnchor in tip.View().anchors && tip.View().bestAnchor != EmptyRoot)
    modifies tip.Repr
    ensures Ready(tip)
    ensures ok <==> UndosFit(b.vtx, undo.vtxundo)
    ensures ok ==> (clean <==> DisconnectTxsClean(old(tip.View()), b.vtx, b.height, undo.vtxundo))
    ensures ok && clean ==> tip.View() == Undo.DisconnectBlock(old(tip.View()), b, undo)
    ensures !(ok && clean) ==> tip.View() == old(tip.View())
  {
    hide DisconnectTxsClean, UndosFit, Undo.DisconnectBlock, CoinsViewCache.Overlay;
    var view := new CoinsViewCache.OnCache(tip);
    ok, clean := DisconnectBlock(view, b, undo);
    if ok && clean {
      view.Flush();
    }
  }

  /** Through the whole stack of caches: connect a block on the tip, disconnect it, and the tip gives
      every answer it gave before. */
  method ConnectAndDisconnect(tip: CoinsViewCache, b: Block) returns (ok: bool, clean: bool)
    requires Ready(tip) && StateSane(tip.View())
    requires b.height >= 1 && b.hash != NullHash && b.prev == tip.View().bestBlock && b.prev != NullHash
    requires TxsWellFormed(b.vtx) && b.vtx != []
    modifies tip.Repr
    ensures Ready(tip)
    ensures ok <==> Connects(old(tip.View()), b)
    ensures tip.View() == old(tip.View()) && (ok ==> clean)
  {
    hide Connects, TxsWellFormed, UndosFit, DisconnectTxsClean, DisconnectTxs, ConnectTxs, TxUndos, CoinsViewCache.Overlay, CoinsViewCache.Valid, BlockEffect;
    ghost var v := tip.View();
    var undo;
    ok, undo := ConnectTip(tip, b);
    clean := true;
    if ok {
      DisconnectInvertsConnect(v, b);
      ConnectKeepsSane(v, b);
      BestIsNotEmpty(v, b);
      var fits;
      fits, clean := DisconnectTip(tip, b, undo);
    }
  }

  /** The best anchor after connecting is the old one, or not the empty root. */
  lemma BestIsNotEmpty(v: View, b: Block)
    requires StateSane(v) && Connects(v, b)
    ensures var w := Undo.ConnectBlock(v, b);
            w.bestBlock == b.hash && (w.bestAnchor == v.bestAnchor || w.bestAnchor != EmptyRoot)
    ensures v.bestAnchor != NoRoot
  {
    hide UtxoSane, Connects, ConnectTxs;
    ConnectTxsFrame(v, b.vtx, b.height);
  }
}
