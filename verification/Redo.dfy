/**
 What it means that DisconnectBlock reports clean (src/main.cpp, ApplyTxInUndo and DisconnectBlock): exactly that there is
 a former state, from which connecting again leads back to where the disconnection started.
 */
module Redo {
  import opened Coins
  import opened CoinsLayer
  import opened CoinsView
  import opened Undo

  /** A record as UpdateCoins writes it: an output that was not null nor unspendable, and metadata only with a height. */
  predicate RecordSane(u: TxInUndo) {
    !u.txout.IsNull() && (u.height == 0 ==> !u.coinBase && u.version == 0)
  }

  predicate RecordsSane(undos: seq<TxInUndo>) {
    forall i :: 0 <= i < |undos| ==> RecordSane(undos[i])
  }

  lemma WrittenIsSane(m: Utxo, out: OutPoint)
    requires UtxoSane(m) && Spendable(m, out)
    ensures RecordSane(UndoOf(m, out))
  {
    assert CoinsSane(m[out.hash]);
  }

  // ----- one input

  /** Spending what was restored gives back what was there, and the same record. */
  ghost predicate IsFormer(m: Utxo, u: TxInUndo, out: OutPoint, former: Utxo) {
    UtxoSane(former) && Spendable(former, out) && SpendOne(former, out) == m && UndoOf(former, out) == u
  }

  lemma SpendAgain(c: CCoins, n: nat, o: TxOut)
    requires c.IsTrimmed() && c.NullsCanonical() && !c.IsAvailable(n) && !o.IsNull()
    ensures var r := c.(vout := WithOutput(c.vout, n, o));
            r.IsAvailable(n) && r.IsTrimmed() && r.NullsCanonical() && !r.IsPruned() && r.Spend(n).0 == c
  {
    var v := WithOutput(c.vout, n, o);
    var r := c.(vout := v);
    assert !v[n].IsNull();
    TakenOff(c.vout, n, o);
    hide Trimmed;
  }

  lemma TakenOff(vout: seq<TxOut>, n: nat, o: TxOut)
    requires vout == [] || !vout[|vout| - 1].IsNull()
    requires forall i :: 0 <= i < |vout| && vout[i].IsNull() ==> vout[i] == NullOut
    requires n < |vout| ==> vout[n].IsNull()
    ensures Trimmed(WithOutput(vout, n, o)[n := NullOut]) == vout
  {
    var w := WithOutput(vout, n, o)[n := NullOut];
    assert |w| >= |vout| && forall i :: 0 <= i < |w| ==> w[i] == if i < |vout| then vout[i] else NullOut;
    hide WithOutput, Trimmed;
    assert w[..|vout|] == vout;
    TrimmedUnique(w, |vout|);
  }

  /** Restoring cleanly leads to a former state. */
  lemma CleanIsFormer(m: Utxo, u: TxInUndo, out: OutPoint)
    requires UtxoSane(m) && RecordSane(u) && RestoreClean(m, u, out)
    ensures IsFormer(m, u, out, RestoreOne(m, u, out))
  {
    hide Trimmed, WithOutput, AllNull;
    var c := if u.height != 0 then CCoins(u.coinBase, [], u.height, u.version) else m[out.hash];
    if u.height == 0 { assert CoinsSane(m[out.hash]); } else { EmptyIsTrimmed(c); }
    SpendAgain(c, out.n, u.txout);
    var r := c.(vout := WithOutput(c.vout, out.n, u.txout));
    assert Reinstated(CoinsAt(m, out.hash), u, out.n) == r;
    SaneIsCleaned(r);
    var former := RestoreOne(m, u, out);
    assert former == m[out.hash := r];
    forall t | t in former ensures CoinsSane(former[t]) {
      if t != out.hash { assert CoinsSane(m[t]); }
    }
    SaneIsCleaned(c);
    RestoredOutput(c.vout, out.n, u.txout);
    if u.height == 0 {
      NotPrunedStays(c);
      assert SpendOne(former, out) == m;
    } else {
      EmptyIsPruned(c);
      assert SpendOne(former, out) == m;
    }
  }

  lemma RestoredOutput(vout: seq<TxOut>, n: nat, o: TxOut)
    ensures n < |WithOutput(vout, n, o)| && WithOutput(vout, n, o)[n] == o
  {
  }

  lemma EmptyIsTrimmed(c: CCoins)
    requires c.vout == []
    ensures c.IsTrimmed() && c.NullsCanonical() && forall n :: !c.IsAvailable(n)
  {
  }

  lemma EmptyIsPruned(c: CCoins)
    requires c.vout == []
    ensures c.IsPruned()
  {
  }

  lemma NotPrunedStays(c: CCoins)
    requires CoinsSane(c)
    ensures c.vout != []
  {
  }

  /** Clean, exactly when there is a former state; and there is one only. */
  lemma CleanIffFormer(m: Utxo, u: TxInUndo, out: OutPoint)
    requires UtxoSane(m) && RecordSane(u)
    ensures RestoreClean(m, u, out) <==> IsFormer(m, u, out, RestoreOne(m, u, out))
    ensures forall former :: IsFormer(m, u, out, former) ==> former == RestoreOne(m, u, out)
  {
    hide UtxoSane, Spendable, SpendOne, UndoOf, RestoreOne, RestoreClean;
    if RestoreClean(m, u, out) { CleanIsFormer(m, u, out); }
    forall former | IsFormer(m, u, out, former) ensures former == RestoreOne(m, u, out) && RestoreClean(m, u, out) {
      RestoreInvertsSpend(former, out);
    }
  }

  // ----- all inputs of a transaction

  ghost predicate AreFormer(m: Utxo, undos: seq<TxInUndo>, vin: seq<OutPoint>, former: Utxo) {
    UtxoSane(former) && AllSpendable(former, vin) && SpendAll(former, vin) == m && UndosOf(former, vin) == undos
  }

  lemma {:induction false} AllCleanAreFormer(m: Utxo, undos: seq<TxInUndo>, vin: seq<OutPoint>)
    requires UtxoSane(m) && RecordsSane(undos) && |undos| == |vin| && RestoreAllClean(m, undos, vin)
    ensures AreFormer(m, undos, vin, RestoreAll(m, undos, vin))
    decreases |vin|
  {
    hide UtxoSane, Spendable, SpendOne, UndoOf, RestoreOne, RestoreClean, RecordSane;
    if vin == [] {
      NothingSpent(m);
    } else {
      var n := |vin| - 1;
      var m1 := RestoreOne(m, undos[n], vin[n]);
      CleanIffFormer(m, undos[n], vin[n]);
      AllCleanAreFormer(m1, undos[..n], vin[..n]);
      var former := RestoreAll(m, undos, vin);
      assert former == RestoreAll(m1, undos[..n], vin[..n]);
      OneMoreSpendable(former, vin);
      assert undos == undos[..n] + [undos[n]];
    }
  }

  lemma NothingSpent(m: Utxo)
    ensures AllSpendable(m, []) && SpendAll(m, []) == m && UndosOf(m, []) == []
  {
  }

  lemma OneMoreSpendable(m: Utxo, vin: seq<OutPoint>)
    requires vin != [] && AllSpendable(m, vin[..|vin| - 1]) && Spendable(SpendAll(m, vin[..|vin| - 1]), vin[|vin| - 1])
    ensures AllSpendable(m, vin)
  {
    hide Spendable, SpendAll;
    var init := vin[..|vin| - 1];
    forall i | 0 <= i < |vin| ensures Spendable(SpendAll(m, vin[..i]), vin[i]) {
      if i < |init| { assert init[..i] == vin[..i] && init[i] == vin[i]; }
    }
  }

  /** All inputs are restored cleanly exactly when there is a former state in which they are all there, from which spending
      them in turn leads here and writes these records; and there is one only. */
  lemma AllCleanIffFormer(m: Utxo, undos: seq<TxInUndo>, vin: seq<OutPoint>)
    requires UtxoSane(m) && RecordsSane(undos) && |undos| == |vin|
    ensures RestoreAllClean(m, undos, vin) <==> AreFormer(m, undos, vin, RestoreAll(m, undos, vin))
    ensures forall former :: AreFormer(m, undos, vin, former) ==> former == RestoreAll(m, undos, vin)
  {
    hide UtxoSane, AllSpendable, SpendAll, UndosOf, RestoreAll, RestoreAllClean;
    if RestoreAllClean(m, undos, vin) { AllCleanAreFormer(m, undos, vin); }
    forall former | AreFormer(m, undos, vin, former) ensures former == RestoreAll(m, undos, vin) && RestoreAllClean(m, undos, vin) {
      RestoreAllInvertsSpendAll(former, vin);
    }
  }

  // ----- one transaction

  /** Nothing that is kept is unspendable from the start. */
  ghost predicate PureCoins(c: CCoins) {
    forall i :: 0 <= i < |c.vout| && !c.vout[i].IsNull() ==> !IsUnspendable(c.vout[i].script)
  }

  ghost predicate Pure(m: Utxo) {
    forall t {:trigger PureCoins(m[t])} :: t in m ==> PureCoins(m[t])
  }

  lemma PureIsKept(c: CCoins)
    requires c.IsTrimmed() && c.NullsCanonical() && PureCoins(c)
    ensures ClearUnspendable(c) == c
  {
    assert WithoutUnspendable(c.vout) == c.vout by {
      forall i | 0 <= i < |c.vout| ensures WithoutUnspendable(c.vout)[i] == c.vout[i] {}
    }
    SaneIsCleaned(c);
  }

  /** The outputs found match the transaction exactly when putting its outputs in their place changes nothing. */
  lemma MatchMeans(m: Utxo, tx: Tx, height: nat)
    requires UtxoSane(m) && Pure(m) && tx.version >= 0
    ensures OutputsMatch(CoinsAt(m, tx.hash), tx, height) <==> WithCoins(m - {tx.hash}, tx.hash, FromTx(tx, height)) == m
  {
    var h, c := tx.hash, FromTx(tx, height);
    NothingMatches(tx, height);
    if h in m {
      assert CoinsSane(m[h]) && PureCoins(m[h]);
      PureIsKept(m[h]);
    }
    FromTxIsTrimmed(tx, height);
    SaneIsCleaned(c);
    hide FromTx, ClearUnspendable, Trimmed, WithoutUnspendable;
    var r := WithCoins(m - {h}, h, c);
    if c.IsPruned() {
      assert r == m - {h};
      assert r == m <==> h !in m;
    } else {
      assert r == m[h := c];
      assert r == m <==> h in m && m[h] == c;
    }
  }

  lemma FromTxIsTrimmed(tx: Tx, height: nat)
    ensures FromTx(tx, height).IsTrimmed() && FromTx(tx, height).version == tx.version
  {
  }

  lemma NothingMatches(tx: Tx, height: nat)
    ensures ClearUnspendable(NoCoins).IsPruned() && ClearUnspendable(NoCoins).vout == []
  {
    assert WithoutUnspendable([]) == [];
  }

  /** From `v` connecting the transaction leads to the coins of `w` and writes `undo`. */
  ghost predicate IsFormerView(v: View, tx: Tx, height: nat, undo: seq<TxInUndo>, w: View) {
    && UtxoSane(v.coins) && (!tx.coinBase ==> AllSpendable(v.coins, tx.vin)) && TxUndo(v, tx) == undo
    && tx.hash !in (if tx.coinBase then v.coins else SpendAll(v.coins, tx.vin))
    && ConnectTx(v, tx, height).coins == w.coins
  }

  lemma LessIsSane(m: Utxo, h: Txid)
    ensures UtxoSane(m) ==> UtxoSane(m - {h})
    ensures Pure(m) ==> Pure(m - {h})
  {
    if UtxoSane(m) {
      forall t | t in m - {h} ensures CoinsSane((m - {h})[t]) { assert CoinsSane(m[t]); }
    }
    if Pure(m) {
      forall t | t in m - {h} ensures PureCoins((m - {h})[t]) { assert PureCoins(m[t]); }
    }
  }

  /** A transaction is disconnected cleanly exactly when the outcome is a former state. */
  lemma TxCleanIffFormer(w: View, tx: Tx, height: nat, undo: seq<TxInUndo>)
    requires UtxoSane(w.coins) && Pure(w.coins) && tx.version >= 0 && RecordsSane(undo)
    requires |undo| == if tx.coinBase then 0 else |tx.vin|
    ensures DisconnectTxClean(w, tx, height, undo, !tx.coinBase) <==>
              IsFormerView(DisconnectTx(w, tx, undo, !tx.coinBase), tx, height, undo, w)
  {
    hide UtxoSane, Pure, OutputsMatch, RestoreAll, RestoreAllClean, FromTx, SpendAll, AllSpendable, UndosOf, RecordsSane;
    var h, rest := tx.hash, w.coins - {tx.hash};
    LessIsSane(w.coins, h);
    MatchMeans(w.coins, tx, height);
    if !tx.coinBase { AllCleanIffFormer(rest, undo, tx.vin); }
    var v := DisconnectTx(w, tx, undo, !tx.coinBase);
    var coins := if tx.coinBase then v.coins else SpendAll(v.coins, tx.vin);
    if IsFormerView(v, tx, height, undo, w) {
      BackToRest(coins, h, FromTx(tx, height), w.coins);
    }
  }

  lemma BackToRest(m: Utxo, h: Txid, c: CCoins, after: Utxo)
    requires h !in m && WithCoins(m, h, c) == after
    ensures after - {h} == m
  {
  }

  // ----- all transactions of a block

  predicate RecordPure(u: TxInUndo) {
    RecordSane(u) && !IsUnspendable(u.txout.script)
  }

  predicate RecordsPure(undos: seq<TxInUndo>) {
    forall i :: 0 <= i < |undos| ==> RecordPure(undos[i])
  }

  lemma RestoreKeepsPure(m: Utxo, u: TxInUndo, out: OutPoint)
    requires Pure(m) && RecordPure(u)
    ensures Pure(RestoreOne(m, u, out))
  {
    var c := CoinsAt(m, out.hash);
    assert out.hash in m ==> PureCoins(m[out.hash]);
    var r := Reinstated(c, u, out.n);
    assert PureCoins(r);
    TrimKeepsPure(r);
    var m' := RestoreOne(m, u, out);
    forall t | t in m' ensures PureCoins(m'[t]) {
      if t != out.hash { assert PureCoins(m[t]); }
    }
  }

  lemma TrimKeepsPure(c: CCoins)
    requires PureCoins(c)
    ensures PureCoins(c.Cleaned())
  {
    assert c.Cleaned().vout <= c.vout;
  }

  lemma {:induction false} RestoreAllKeepsPure(m: Utxo, undos: seq<TxInUndo>, vin: seq<OutPoint>)
    requires Pure(m) && RecordsPure(undos) && |undos| == |vin|
    ensures Pure(RestoreAll(m, undos, vin))
    decreases |vin|
  {
    hide Pure, RestoreOne, RecordPure;
    if vin != [] {
      var n := |vin| - 1;
      RestoreKeepsPure(m, undos[n], vin[n]);
      RestoreAllKeepsPure(RestoreOne(m, undos[n], vin[n]), undos[..n], vin[..n]);
    }
  }

  /** What CheckTransaction demands of versions, the place of the coinbase, and records as they are written. */
  ghost predicate UndoShaped(txs: seq<Tx>, undos: seq<seq<TxInUndo>>) {
    && UndosFit(txs, undos) && (forall i :: 0 <= i < |undos| ==> RecordsPure(undos[i]))
    && forall i :: 0 <= i < |txs| ==> txs[i].version >= 0 && (txs[i].coinBase <==> i == 0)
  }

  lemma InitShaped(txs: seq<Tx>, undos: seq<seq<TxInUndo>>)
    requires UndoShaped(txs, undos) && txs != []
    ensures |undos| == |txs| - 1
    ensures var n := |txs| - 1;
            && UndoShaped(txs[..n], if n > 0 then undos[..n - 1] else []) && UndosFit(txs[..n], if n > 0 then undos[..n - 1] else [])
            && (n > 0 ==> |undos[n - 1]| == |txs[n].vin| && RecordsPure(undos[n - 1]) && !txs[n].coinBase)
            && (n == 0 ==> txs[n].coinBase) && txs[n].version >= 0
  {
    hide RecordsPure;
  }

  /** Connecting depends on the coins only, as far as coins and records are concerned. */
  lemma SameCoinsConnect(v: View, w: View, tx: Tx, height: nat)
    requires v.coins == w.coins
    ensures ConnectTx(v, tx, height).coins == ConnectTx(w, tx, height).coins && TxUndo(v, tx) == TxUndo(w, tx)
  {
  }

  /**
   If the transactions of a block are disconnected cleanly, connecting them again gives back the coins, and writes the very
   undo data that was used.  So clean means that the undo data belongs to the block and to this state.
   */
  lemma {:induction false} ReconnectAfterClean(w: View, txs: seq<Tx>, height: nat, undos: seq<seq<TxInUndo>>)
    requires UtxoSane(w.coins) && Pure(w.coins) && UndoShaped(txs, undos) && DisconnectTxsClean(w, txs, height, undos)
    ensures var v := DisconnectTxs(w, txs, undos);
            && UtxoSane(v.coins) && Pure(v.coins)
            && ConnectTxs(v, txs, height).coins == w.coins && TxUndos(v, txs, height) == undos
    decreases |txs|
  {
    hide UtxoSane, Pure, DisconnectTx, DisconnectTxClean, ConnectTx, TxUndo, UndoShaped, RecordsPure, UndosFit, DisconnectTxs,
      DisconnectTxsClean, ConnectTxs, TxUndos;
    ShapedFits(txs, undos);
    if txs == [] {
      NoneReconnected(w, height, undos);
    } else {
      InitShaped(txs, undos);
      var n := |txs| - 1;
      var init, last := txs[..n], txs[n];
      var undo, rest := if n > 0 then undos[n - 1] else [], if n > 0 then undos[..n - 1] else [];
      CleanParts(w, txs, height, undos);
      PureIsSane(undo);
      OneReconnected(w, last, height, undo);
      var w1 := DisconnectTx(w, last, undo, n > 0);
      ReconnectAfterClean(w1, init, height, rest);
      var v := DisconnectTxs(w1, init, rest);
      SameCoinsConnect(ConnectTxs(v, init, height), w1, last, height);
      LastConnected(v, txs, height);
      assert n > 0 ==> undos == rest + [undo];
    }
  }

  lemma OneReconnected(w: View, tx: Tx, height: nat, undo: seq<TxInUndo>)
    requires UtxoSane(w.coins) && Pure(w.coins) && tx.version >= 0 && RecordsPure(undo)
    requires |undo| == if tx.coinBase then 0 else |tx.vin|
    requires DisconnectTxClean(w, tx, height, undo, !tx.coinBase)
    ensures var w1 := DisconnectTx(w, tx, undo, !tx.coinBase);
            && UtxoSane(w1.coins) && Pure(w1.coins)
            && ConnectTx(w1, tx, height).coins == w.coins && (!tx.coinBase ==> TxUndo(w1, tx) == undo)
  {
    hide UtxoSane, Pure, RecordsPure, DisconnectTx, DisconnectTxClean;
    PureIsSane(undo);
    TxCleanIffFormer(w, tx, height, undo);
    DisconnectKeepsPure(w, tx, undo, !tx.coinBase);
  }

  lemma NoneReconnected(w: View, height: nat, undos: seq<seq<TxInUndo>>)
    requires UndosFit([], undos)
    ensures DisconnectTxs(w, [], undos) == w && ConnectTxs(w, [], height) == w && TxUndos(w, [], height) == [] == undos
  {
  }

  lemma CleanParts(w: View, txs: seq<Tx>, height: nat, undos: seq<seq<TxInUndo>>)
    requires UndosFit(txs, undos) && txs != [] && DisconnectTxsClean(w, txs, height, undos)
    ensures var n := |txs| - 1;
            var undo, rest := if n > 0 then undos[n - 1] else [], if n > 0 then undos[..n - 1] else [];
            && (n > 0 ==> |undo| == |txs[n].vin|) && DisconnectTxClean(w, txs[n], height, undo, n > 0) && UndosFit(txs[..n], rest)
            && DisconnectTxsClean(DisconnectTx(w, txs[n], undo, n > 0), txs[..n], height, rest)
            && DisconnectTxs(w, txs, undos) == DisconnectTxs(DisconnectTx(w, txs[n], undo, n > 0), txs[..n], rest)
  {
    hide DisconnectTx, DisconnectTxClean;
  }

  lemma LastConnected(v: View, txs: seq<Tx>, height: nat)
    requires txs != []
    ensures var n := |txs| - 1;
            var u := ConnectTxs(v, txs[..n], height);
            && ConnectTxs(v, txs, height) == ConnectTx(u, txs[n], height)
            && TxUndos(v, txs, height) == if n > 0 then TxUndos(v, txs[..n], height) + [TxUndo(u, txs[n])] else []
  {
    hide ConnectTx, TxUndo;
  }

  lemma ShapedFits(txs: seq<Tx>, undos: seq<seq<TxInUndo>>)
    requires UndoShaped(txs, undos)
    ensures UndosFit(txs, undos) && |undos| == if txs == [] then 0 else |txs| - 1
  {
  }

  lemma PureIsSane(undo: seq<TxInUndo>)
    ensures RecordsPure(undo) ==> RecordsSane(undo)
    ensures RecordsPure([])
  {
  }

  lemma DisconnectKeepsPure(w: View, tx: Tx, undo: seq<TxInUndo>, restore: bool)
    requires Pure(w.coins) && RecordsPure(undo) && (restore ==> |undo| == |tx.vin|)
    ensures Pure(DisconnectTx(w, tx, undo, restore).coins)
  {
    hide Pure, RecordsPure, RestoreAll;
    LessIsSane(w.coins, tx.hash);
    if restore { RestoreAllKeepsPure(w.coins - {tx.hash}, undo, tx.vin); }
  }
}
