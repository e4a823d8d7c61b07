/**
 Connecting and disconnecting a block, on the plain maps a coins view stands for (src/main.cpp,
 UpdateCoins, ApplyTxInUndo, and the coins, nullifier and anchor effects of ConnectBlock and
 DisconnectBlock).
 */
module Undo {
  import opened Coins
  import opened CoinsLayer
  import opened CoinsView

  datatype TxInUndo = TxInUndo(txout: TxOut, coinBase: bool, height: nat, version: int)

  datatype Block = Block(hash: BlockHash, prev: BlockHash, height: nat, vtx: seq<Tx>)

  datatype BlockUndo = BlockUndo(vtxundo: seq<seq<TxInUndo>>, oldRoot: Root)

  type Utxo = map<Txid, CCoins>

  // ----- one input

  predicate Spendable(m: Utxo, out: OutPoint) {
    out.hash in m && m[out.hash].IsAvailable(out.n)
  }

  function SpentCoins(m: Utxo, out: OutPoint): CCoins
    requires Spendable(m, out)
  {
    m[out.hash].Spend(out.n).0
  }

  /** The coins after spending an output; ConnectBlock makes sure it is there. */
  ghost function SpendOne(m: Utxo, out: OutPoint): Utxo {
    if Spendable(m, out) then WithCoins(m, out.hash, SpentCoins(m, out)) else m
  }

  /** The undo record of an input; the last output of a transaction carries its metadata. */
  function UndoOf(m: Utxo, out: OutPoint): TxInUndo {
    if !Spendable(m, out) then TxInUndo(NullOut, false, 0, 0)
    else
    var c := m[out.hash];
    if SpentCoins(m, out).vout == [] then TxInUndo(c.vout[out.n], c.coinBase, c.height, c.version)
    else TxInUndo(c.vout[out.n], false, 0, 0)
  }

  /** `vout` padded with null outputs up to index `n`, where `o` is put. */
  function WithOutput(vout: seq<TxOut>, n: nat, o: TxOut): (r: seq<TxOut>)
    ensures |r| == if n < |vout| then |vout| else n + 1
    ensures forall i :: 0 <= i < |r| ==> r[i] == if i == n then o else if i < |vout| then vout[i] else NullOut
  {
    (if n < |vout| then vout else vout + seq(n + 1 - |vout|, _ => NullOut))[n := o]
  }

  /** `ApplyTxInUndo`, starting from the coins `c` it finds. */
  function Reinstated(c: CCoins, undo: TxInUndo, n: nat): CCoins {
    var d := if undo.height != 0 then CCoins(undo.coinBase, [], undo.height, undo.version) else c;
    d.(vout := WithOutput(d.vout, n, undo.txout))
  }

  function CoinsAt(m: Utxo, t: Txid): CCoins {
    if t in m then m[t] else NoCoins
  }

  ghost function RestoreOne(m: Utxo, undo: TxInUndo, out: OutPoint): Utxo {
    WithCoins(m, out.hash, Reinstated(CoinsAt(m, out.hash), undo, out.n))
  }

  /** The undo record fits what is there. */
  predicate RestoreClean(m: Utxo, undo: TxInUndo, out: OutPoint) {
    if undo.height != 0 then out.hash !in m else out.hash in m && !m[out.hash].IsAvailable(out.n)
  }

  /** Every entry is unspent somewhere, trimmed, and was created above the genesis block. */
  ghost predicate CoinsSane(c: CCoins) {
    !c.IsPruned() && c.IsTrimmed() && c.NullsCanonical() && c.height >= 1
  }

  ghost predicate UtxoSane(m: Utxo) {
    forall t {:trigger CoinsSane(m[t])} :: t in m ==> CoinsSane(m[t])
  }

  /** Putting an output back after spending it gives the same coins. */
  lemma SpendThenReinstate(c: CCoins, n: nat)
    requires CoinsSane(c) && c.IsAvailable(n)
    ensures WithOutput(c.Spend(n).0.vout, n, c.vout[n]) == c.vout
  {
    var v := c.vout[n := NullOut];
    var t := Trimmed(v);
    var r := WithOutput(t, n, c.vout[n]);
    assert |t| < |v| ==> v[|v| - 1].IsNull();
    assert |r| == |c.vout|;
    forall i | 0 <= i < |r| ensures r[i] == c.vout[i] {
      if i != n && i >= |t| { assert v[i].IsNull(); }
    }
  }

  lemma SpendKeepsSane(c: CCoins, n: nat)
    requires CoinsSane(c) && c.IsAvailable(n)
    ensures c.Spend(n).0.IsPruned() <==> c.Spend(n).0.vout == []
    ensures c.Spend(n).0.vout != [] ==> CoinsSane(c.Spend(n).0)
    ensures forall k :: c.Spend(n).0.IsAvailable(k) <==> k != n && c.IsAvailable(k)
  {
    var v := c.vout[n := NullOut];
    var t := Trimmed(v);
    forall k | 0 <= k < |v| && !v[k].IsNull() ensures k < |t| {}
  }

  /** On the coins alone, including those of which nothing was left. */
  lemma ReinstateInvertsSpend(m: Utxo, out: OutPoint)
    requires Spendable(m, out) && CoinsSane(m[out.hash])
    ensures var s := SpentCoins(m, out);
            Reinstated(if s.vout == [] then NoCoins else s, UndoOf(m, out), out.n) == m[out.hash]
  {
    hide AllNull, Trimmed, WithOutput;
    SpendThenReinstate(m[out.hash], out.n);
  }

  lemma SaneIsCleaned(c: CCoins)
    requires c.IsTrimmed()
    ensures c.Cleaned() == c
  {
    TrimmedUnique(c.vout, |c.vout|);
  }

  /** Restoring undoes spending, and reports clean. */
  lemma RestoreInvertsSpend(m: Utxo, out: OutPoint)
    requires UtxoSane(m) && Spendable(m, out)
    ensures UtxoSane(SpendOne(m, out))
    ensures RestoreClean(SpendOne(m, out), UndoOf(m, out), out)
    ensures RestoreOne(SpendOne(m, out), UndoOf(m, out), out) == m
  {
    hide AllNull, Trimmed, WithOutput, Reinstated;
    var c, s, m' := m[out.hash], SpentCoins(m, out), SpendOne(m, out);
    assert CoinsSane(c);
    SpendKeepsSane(c, out.n);
    ReinstateInvertsSpend(m, out);
    SaneIsCleaned(s);
    SaneIsCleaned(c);
    forall t | t in m' ensures CoinsSane(m'[t]) {
      if t != out.hash { assert CoinsSane(m[t]); }
    }
    assert m'.Keys - {out.hash} == m.Keys - {out.hash};
    assert RestoreOne(m', UndoOf(m, out), out) == m;
  }

  // ----- all inputs of a transaction

  ghost function SpendAll(m: Utxo, vin: seq<OutPoint>): Utxo {
    if vin == [] then m else SpendOne(SpendAll(m, vin[..|vin| - 1]), vin[|vin| - 1])
  }

  /** Each input is there when its turn comes: the assertion in UpdateCoins. */
  ghost predicate AllSpendable(m: Utxo, vin: seq<OutPoint>) {
    forall i :: 0 <= i < |vin| ==> Spendable(SpendAll(m, vin[..i]), vin[i])
  }

  ghost function UndosOf(m: Utxo, vin: seq<OutPoint>): (r: seq<TxInUndo>)
    ensures |r| == |vin|
  {
    if vin == [] then []
    else var init := vin[..|vin| - 1]; UndosOf(m, init) + [UndoOf(SpendAll(m, init), vin[|vin| - 1])]
  }

  /** Inputs are restored last first. */
  ghost function RestoreAll(m: Utxo, undos: seq<TxInUndo>, vin: seq<OutPoint>): Utxo
    requires |undos| == |vin|
    decreases |vin|
  {
    if vin == [] then m
    else RestoreAll(RestoreOne(m, undos[|vin| - 1], vin[|vin| - 1]), undos[..|vin| - 1], vin[..|vin| - 1])
  }

  ghost predicate RestoreAllClean(m: Utxo, undos: seq<TxInUndo>, vin: seq<OutPoint>)
    requires |undos| == |vin|
    decreases |vin|
  {
    vin == [] ||
    (&& RestoreClean(m, undos[|vin| - 1], vin[|vin| - 1])
     && RestoreAllClean(RestoreOne(m, undos[|vin| - 1], vin[|vin| - 1]), undos[..|vin| - 1], vin[..|vin| - 1]))
  }

  lemma InitSpendable(m: Utxo, vin: seq<OutPoint>)
    requires AllSpendable(m, vin) && vin != []
    ensures AllSpendable(m, vin[..|vin| - 1]) && Spendable(SpendAll(m, vin[..|vin| - 1]), vin[|vin| - 1])
  {
    forall i | 0 <= i < |vin| - 1 ensures Spendable(SpendAll(m, vin[..|vin| - 1][..i]), vin[i]) {
      assert vin[..|vin| - 1][..i] == vin[..i];
    }
  }

  lemma {:induction false} RestoreAllInvertsSpendAll(m: Utxo, vin: seq<OutPoint>)
    requires UtxoSane(m) && AllSpendable(m, vin)
    ensures UtxoSane(SpendAll(m, vin))
    ensures RestoreAllClean(SpendAll(m, vin), UndosOf(m, vin), vin)
    ensures RestoreAll(SpendAll(m, vin), UndosOf(m, vin), vin) == m
    decreases |vin|
  {
    if vin != [] {
      var init, last := vin[..|vin| - 1], vin[|vin| - 1];
      InitSpendable(m, vin);
      RestoreAllInvertsSpendAll(m, init);
      RestoreInvertsSpend(SpendAll(m, init), last);
      assert UndosOf(m, vin)[..|vin| - 1] == UndosOf(m, init);
    }
  }

  predicate HaveInputs(m: Utxo, vin: seq<OutPoint>) {
    forall i :: 0 <= i < |vin| ==> Spendable(m, vin[i])
  }

  predicate DistinctInputs(vin: seq<OutPoint>) {
    forall i, j :: 0 <= i < j < |vin| ==> vin[i] != vin[j]
  }

  /** Spending an output leaves every other one as it was. */
  lemma SpendOneLeavesOthers(m: Utxo, out: OutPoint, other: OutPoint)
    requires UtxoSane(m) && Spendable(m, out)
    ensures Spendable(SpendOne(m, out), other) <==> other != out && Spendable(m, other)
  {
    hide AllNull, Trimmed;
    assert CoinsSane(m[out.hash]);
    SpendKeepsSane(m[out.hash], out.n);
    SaneIsCleaned(SpentCoins(m, out));
  }

  lemma {:induction false} SpendAllLeavesOthers(m: Utxo, vin: seq<OutPoint>)
    requires UtxoSane(m) && HaveInputs(m, vin) && DistinctInputs(vin)
    ensures UtxoSane(SpendAll(m, vin))
    ensures forall o :: Spendable(SpendAll(m, vin), o) <==> o !in vin && Spendable(m, o)
    decreases |vin|
  {
    hide Spendable, SpendOne, UtxoSane;
    if vin != [] {
      var init, last := vin[..|vin| - 1], vin[|vin| - 1];
      SpendAllLeavesOthers(m, init);
      assert vin == init + [last];
      RestoreInvertsSpend(SpendAll(m, init), last);
      forall o ensures Spendable(SpendAll(m, vin), o) <==> o !in vin && Spendable(m, o) {
        SpendOneLeavesOthers(SpendAll(m, init), last, o);
      }
    }
  }

  /** What HaveInputs checks once, before any input is spent, is enough for all of them in turn. */
  lemma HaveInputsSuffices(m: Utxo, vin: seq<OutPoint>)
    requires UtxoSane(m) && HaveInputs(m, vin) && DistinctInputs(vin)
    ensures AllSpendable(m, vin)
  {
    hide Spendable, SpendAll, UtxoSane;
    forall i | 0 <= i < |vin| ensures Spendable(SpendAll(m, vin[..i]), vin[i]) {
      SpendAllLeavesOthers(m, vin[..i]);
    }
  }

  /** Spending adds no transaction. */
  lemma {:induction false} SpendAllAddsNone(m: Utxo, vin: seq<OutPoint>, t: Txid)
    requires t !in m
    ensures t !in SpendAll(m, vin)
    decreases |vin|
  {
    if vin != [] { SpendAllAddsNone(m, vin[..|vin| - 1], t); }
  }

  // ----- one transaction

  ghost function NullifiersOf(tx: Tx): set<Nullifier> {
    set n | n in tx.nullifiers
  }

  /** `UpdateCoins`. */
  ghost function ConnectTx(v: View, tx: Tx, height: nat): View {
    var coins := if tx.coinBase then v.coins else SpendAll(v.coins, tx.vin);
    v.(nullifiers := v.nullifiers + NullifiersOf(tx), coins := WithCoins(coins, tx.hash, FromTx(tx, height)))
  }

  ghost function TxUndo(v: View, tx: Tx): seq<TxInUndo> {
    if tx.coinBase then [] else UndosOf(v.coins, tx.vin)
  }

  /** The turn of the loop of DisconnectBlock for one transaction; the coinbase restores nothing. */
  ghost function DisconnectTx(v: View, tx: Tx, undo: seq<TxInUndo>, restore: bool): View
    requires restore ==> |undo| == |tx.vin|
  {
    var coins := v.coins - {tx.hash};
    v.(nullifiers := v.nullifiers - NullifiersOf(tx), coins := if restore then RestoreAll(coins, undo, tx.vin) else coins)
  }

  /** The outputs still there match those of the transaction.  A negative version is not serialized. */
  predicate OutputsMatch(found: CCoins, tx: Tx, height: nat) {
    var outs := ClearUnspendable(found);
    var outsBlock := FromTx(tx, height);
    SameCoins(if outsBlock.version < 0 then outs.(version := outsBlock.version) else outs, outsBlock)
  }

  ghost predicate DisconnectTxClean(v: View, tx: Tx, height: nat, undo: seq<TxInUndo>, restore: bool) {
    && OutputsMatch(CoinsAt(v.coins, tx.hash), tx, height)
    && (restore ==> |undo| == |tx.vin| && RestoreAllClean(v.coins - {tx.hash}, undo, tx.vin))
  }

  /** What CheckTransaction has established. */
  predicate TxWellFormed(tx: Tx) {
    && DistinctInputs(tx.vin)
    && (forall i :: 0 <= i < |tx.vout| ==> tx.vout[i].value >= 0)
    && (if tx.coinBase then tx.nullifiers == [] else tx.vin != [] || tx.nullifiers != [])
  }

  /** What ConnectBlock checks of a transaction against the view: HaveInputs, and that no nullifier of
      it has been spent. */
  ghost predicate TxInputsOk(v: View, tx: Tx) {
    tx.coinBase || (HaveInputs(v.coins, tx.vin) && v.nullifiers !! NullifiersOf(tx))
  }

  lemma ConnectTxKeepsSane(v: View, tx: Tx, height: nat)
    requires UtxoSane(v.coins) && TxWellFormed(tx) && TxInputsOk(v, tx) && height >= 1
    ensures UtxoSane(ConnectTx(v, tx, height).coins)
    ensures !tx.coinBase ==> AllSpendable(v.coins, tx.vin)
  {
    hide AllNull, Trimmed, WithoutUnspendable;
    if !tx.coinBase {
      HaveInputsSuffices(v.coins, tx.vin);
      RestoreAllInvertsSpendAll(v.coins, tx.vin);
    }
    var before, after := if tx.coinBase then v.coins else SpendAll(v.coins, tx.vin), ConnectTx(v, tx, height).coins;
    FromTxIsCanonical(tx, height);
    SaneIsCleaned(FromTx(tx, height));
    forall t | t in after ensures CoinsSane(after[t]) {
      if t != tx.hash { assert CoinsSane(before[t]); }
    }
  }

  lemma OutputsMatchAfterConnect(m: Utxo, tx: Tx, height: nat)
    ensures OutputsMatch(CoinsAt(WithCoins(m, tx.hash, FromTx(tx, height)), tx.hash), tx, height)
  {
    FromTxIsStable(tx, height);
    SaneIsCleaned(FromTx(tx, height));
  }

  /** Disconnecting a transaction right after connecting it restores the view and reports clean. */
  lemma DisconnectTxInverts(v: View, tx: Tx, height: nat)
    requires UtxoSane(v.coins) && TxWellFormed(tx) && TxInputsOk(v, tx) && height >= 1 && tx.hash !in v.coins
    ensures |TxUndo(v, tx)| == if tx.coinBase then 0 else |tx.vin|
    ensures DisconnectTxClean(ConnectTx(v, tx, height), tx, height, TxUndo(v, tx), !tx.coinBase)
    ensures DisconnectTx(ConnectTx(v, tx, height), tx, TxUndo(v, tx), !tx.coinBase) == v
  {
    hide AllNull, Trimmed, WithoutUnspendable, OutputsMatch, UtxoSane, SpendAll, RestoreAll, RestoreAllClean, UndosOf, FromTx;
    var coins := if tx.coinBase then v.coins else SpendAll(v.coins, tx.vin);
    OutputsMatchAfterConnect(coins, tx, height);
    ConnectTxKeepsSane(v, tx, height);
    if !tx.coinBase {
      SpendAllAddsNone(v.coins, tx.vin, tx.hash);
      RestoreAllInvertsSpendAll(v.coins, tx.vin);
    }
    assert ConnectTx(v, tx, height).coins - {tx.hash} == coins;
    assert v.nullifiers + NullifiersOf(tx) - NullifiersOf(tx) == v.nullifiers;
  }

  // ----- all transactions of a block

  ghost function ConnectTxs(v: View, txs: seq<Tx>, height: nat): View {
    if txs == [] then v else ConnectTx(ConnectTxs(v, txs[..|txs| - 1], height), txs[|txs| - 1], height)
  }

  /** One record for every transaction but the first. */
  ghost function TxUndos(v: View, txs: seq<Tx>, height: nat): (r: seq<seq<TxInUndo>>)
    ensures |r| == if txs == [] then 0 else |txs| - 1
  {
    if |txs| <= 1 then []
    else var init := txs[..|txs| - 1]; TxUndos(v, init, height) + [TxUndo(ConnectTxs(v, init, height), txs[|txs| - 1])]
  }

  /** Checks as the loop of ConnectBlock reaches each transaction. */
  ghost predicate InputsOk(v: View, txs: seq<Tx>, height: nat) {
    forall i :: 0 <= i < |txs| ==> TxInputsOk(ConnectTxs(v, txs[..i], height), txs[i])
  }

  /** A hash stands for one transaction. */
  predicate HashesIdentify(txs: seq<Tx>) {
    forall i, j :: 0 <= i < j < |txs| && txs[i].hash == txs[j].hash ==> txs[i] == txs[j]
  }

  /** What CheckBlock has established: one coinbase, in front.  It does not exclude a repeated transaction. */
  predicate TxsWellFormed(txs: seq<Tx>) {
    && (forall i :: 0 <= i < |txs| ==> TxWellFormed(txs[i]) && (txs[i].coinBase <==> i == 0))
    && HashesIdentify(txs)
  }

  predicate DistinctHashes(txs: seq<Tx>) {
    forall i, j :: 0 <= i < j < |txs| ==> txs[i].hash != txs[j].hash
  }

  /** The overwrite check of BIP 30. */
  ghost predicate NoOverwrite(v: View, txs: seq<Tx>) {
    forall i :: 0 <= i < |txs| ==> txs[i].hash !in v.coins
  }

  ghost function DisconnectTxs(v: View, txs: seq<Tx>, undos: seq<seq<TxInUndo>>): View
    requires UndosFit(txs, undos)
    decreases |txs|
  {
    if txs == [] then v
    else
      var n := |txs| - 1;
      DisconnectTxs(DisconnectTx(v, txs[n], if n > 0 then undos[n - 1] else [], n > 0), txs[..n],
                    if n > 0 then undos[..n - 1] else [])
  }

  ghost predicate UndosFit(txs: seq<Tx>, undos: seq<seq<TxInUndo>>) {
    && |undos| == (if txs == [] then 0 else |txs| - 1)
    && forall i :: 0 <= i < |undos| ==> |undos[i]| == |txs[i + 1].vin|
  }

  ghost predicate DisconnectTxsClean(v: View, txs: seq<Tx>, height: nat, undos: seq<seq<TxInUndo>>)
    requires UndosFit(txs, undos)
    decreases |txs|
  {
    txs == [] ||
    (var n := |txs| - 1;
     var undo := if n > 0 then undos[n - 1] else [];
     && DisconnectTxClean(v, txs[n], height, undo, n > 0)
     && DisconnectTxsClean(DisconnectTx(v, txs[n], undo, n > 0), txs[..n], height, if n > 0 then undos[..n - 1] else []))
  }

  lemma {:induction false} ConnectTxsKeepsSane(v: View, txs: seq<Tx>, height: nat)
    requires UtxoSane(v.coins) && TxsWellFormed(txs) && InputsOk(v, txs, height) && height >= 1
    ensures UtxoSane(ConnectTxs(v, txs, height).coins)
    decreases |txs|
  {
    hide TxWellFormed, TxInputsOk, UtxoSane, ConnectTx;
    if txs != [] {
      var init := txs[..|txs| - 1];
      InitInputsOk(v, txs, height);
      ConnectTxsKeepsSane(v, init, height);
      ConnectTxKeepsSane(ConnectTxs(v, init, height), txs[|txs| - 1], height);
    }
  }

  lemma InitInputsOk(v: View, txs: seq<Tx>, height: nat)
    requires InputsOk(v, txs, height) && txs != []
    ensures InputsOk(v, txs[..|txs| - 1], height)
    ensures TxInputsOk(ConnectTxs(v, txs[..|txs| - 1], height), txs[|txs| - 1])
  {
    hide TxInputsOk, ConnectTxs;
    var init := txs[..|txs| - 1];
    forall i | 0 <= i < |init| ensures TxInputsOk(ConnectTxs(v, init[..i], height), init[i]) {
      assert init[..i] == txs[..i];
    }
  }

  /** Only the transactions of the block itself are added. */
  lemma {:induction false} ConnectTxsAddsOnly(v: View, txs: seq<Tx>, height: nat, t: Txid)
    requires t !in v.coins && forall i :: 0 <= i < |txs| ==> txs[i].hash != t
    ensures t !in ConnectTxs(v, txs, height).coins
    decreases |txs|
  {
    if txs != [] {
      var init := txs[..|txs| - 1];
      ConnectTxsAddsOnly(v, init, height, t);
      SpendAllAddsNone(ConnectTxs(v, init, height).coins, txs[|txs| - 1].vin, t);
    }
  }

  // ----- no transaction twice

  lemma SpendOneAddsNoOutput(m: Utxo, out: OutPoint, other: OutPoint)
    requires !Spendable(m, other)
    ensures !Spendable(SpendOne(m, out), other)
  {
    if Spendable(m, out) && other.hash == out.hash {
      var spent := SpentCoins(m, out);
      assert spent.vout <= m[out.hash].vout[out.n := NullOut];
      SaneIsCleaned(spent);
    }
  }

  lemma {:induction false} SpendAllAddsNoOutput(m: Utxo, vin: seq<OutPoint>, other: OutPoint)
    requires !Spendable(m, other)
    ensures !Spendable(SpendAll(m, vin), other)
    decreases |vin|
  {
    hide Spendable, SpendOne;
    if vin != [] {
      var init := vin[..|vin| - 1];
      SpendAllAddsNoOutput(m, init, other);
      SpendOneAddsNoOutput(SpendAll(m, init), vin[|vin| - 1], other);
    }
  }

  /** `out` is spent, and every transaction of `txs` from `k` on creates other outputs: it stays spent. */
  lemma {:induction false} StaysSpent(v: View, txs: seq<Tx>, height: nat, k: nat, out: OutPoint)
    requires k <= |txs| && !Spendable(ConnectTxs(v, txs[..k], height).coins, out)
    requires forall i :: k <= i < |txs| ==> txs[i].hash != out.hash
    ensures !Spendable(ConnectTxs(v, txs, height).coins, out)
    decreases |txs|
  {
    hide SpendAll, FromTx;
    if k == |txs| {
      assert txs[..k] == txs;
    } else {
      var init, last := txs[..|txs| - 1], txs[|txs| - 1];
      assert init[..k] == txs[..k];
      StaysSpent(v, init, height, k, out);
      SpendAllAddsNoOutput(ConnectTxs(v, init, height).coins, last.vin, out);
    }
  }

  /** Nullifiers stay revealed. */
  lemma {:induction false} StaysRevealed(v: View, txs: seq<Tx>, height: nat, k: nat, n: Nullifier)
    requires k < |txs| && n in txs[k].nullifiers
    ensures n in ConnectTxs(v, txs, height).nullifiers
    decreases |txs|
  {
    var init, last := txs[..|txs| - 1], txs[|txs| - 1];
    if k < |init| {
      StaysRevealed(v, init, height, k, n);
    } else {
      assert n in NullifiersOf(last);
    }
  }

  /** Whatever is there after `txs` was there before or comes from one of them. */
  lemma ComesFrom(v: View, txs: seq<Tx>, height: nat, t: Txid)
    requires t in ConnectTxs(v, txs, height).coins
    ensures t in v.coins || exists i :: 0 <= i < |txs| && txs[i].hash == t
  {
    if t !in v.coins && forall i :: 0 <= i < |txs| ==> txs[i].hash != t { ConnectTxsAddsOnly(v, txs, height, t); }
  }

  /** Right after a transaction its inputs are spent. */
  lemma InputIsSpent(v: View, tx: Tx, height: nat, out: OutPoint)
    requires UtxoSane(v.coins) && TxWellFormed(tx) && TxInputsOk(v, tx) && !tx.coinBase && out in tx.vin && out.hash != tx.hash
    ensures !Spendable(ConnectTx(v, tx, height).coins, out)
  {
    hide SpendAll, FromTx, UtxoSane;
    SpendAllLeavesOthers(v.coins, tx.vin);
  }

  /** Each transaction is refused a second time: what it spent has not come back. */
  lemma SecondTimeRefused(v: View, txs: seq<Tx>, height: nat, i: nat)
    requires UtxoSane(v.coins) && TxsWellFormed(txs) && InputsOk(v, txs, height) && NoOverwrite(v, txs) && height >= 1
    requires DistinctHashes(txs) && 0 < i < |txs|
    ensures !TxInputsOk(ConnectTxs(v, txs, height), txs[i])
  {
    hide UtxoSane, ConnectTx, Spendable, TxWellFormed;
    var before, tx := ConnectTxs(v, txs[..i], height), txs[i];
    assert TxInputsOk(before, tx) && TxWellFormed(tx);
    if tx.nullifiers != [] {
      var n := tx.nullifiers[0];
      StaysRevealed(v, txs, height, i, n);
      assert n in NullifiersOf(tx);
    } else {
      SpendsSomething(tx);
      var out := tx.vin[0];
      PrefixKeepsSane(v, txs, height, i);
      assert Spendable(before.coins, out);
      InputComesFromElsewhere(v, txs, height, i, out);
      InputIsSpent(before, tx, height, out);
      assert txs[..i + 1][..i] == txs[..i];
      StaysSpent(v, txs, height, i + 1, out);
    }
  }

  lemma SpendsSomething(tx: Tx)
    requires TxWellFormed(tx) && !tx.coinBase && tx.nullifiers == []
    ensures tx.vin != []
  {
  }

  lemma PrefixKeepsSane(v: View, txs: seq<Tx>, height: nat, i: nat)
    requires UtxoSane(v.coins) && TxsWellFormed(txs) && InputsOk(v, txs, height) && height >= 1 && i <= |txs|
    ensures UtxoSane(ConnectTxs(v, txs[..i], height).coins)
  {
    hide UtxoSane, ConnectTxs, TxInputsOk, TxWellFormed;
    var part := txs[..i];
    forall k | 0 <= k < |part| ensures TxInputsOk(ConnectTxs(v, part[..k], height), part[k]) {
      assert part[..k] == txs[..k];
    }
    ConnectTxsKeepsSane(v, part, height);
  }

  /** What transaction `i` spends belongs to none of the transactions from `i` on. */
  lemma InputComesFromElsewhere(v: View, txs: seq<Tx>, height: nat, i: nat, out: OutPoint)
    requires NoOverwrite(v, txs) && DistinctHashes(txs) && i < |txs|
    requires Spendable(ConnectTxs(v, txs[..i], height).coins, out)
    ensures forall k :: i <= k < |txs| ==> txs[k].hash != out.hash
  {
    hide ConnectTxs;
    ComesFrom(v, txs[..i], height, out.hash);
  }

  /** A block that connects holds no transaction twice, although CheckBlock lets it pass. */
  lemma {:induction false} ConnectedAreDistinct(v: View, txs: seq<Tx>, height: nat)
    requires UtxoSane(v.coins) && TxsWellFormed(txs) && InputsOk(v, txs, height) && NoOverwrite(v, txs) && height >= 1
    ensures DistinctHashes(txs)
    decreases |txs|
  {
    hide TxInputsOk, UtxoSane, ConnectTxs, TxWellFormed;
    if txs != [] {
      var n := |txs| - 1;
      var init, last := txs[..n], txs[n];
      SplitLast(v, txs);
      InitInputsOk(v, txs, height);
      ConnectedAreDistinct(v, init, height);
      forall i | 0 <= i < n ensures txs[i].hash != last.hash {
        if i > 0 {
          SecondTimeRefused(v, init, height, i);
          assert init[i] == txs[i];
        }
      }
    }
  }

  lemma SplitLast(v: View, txs: seq<Tx>)
    requires TxsWellFormed(txs) && NoOverwrite(v, txs) && txs != []
    ensures var n := |txs| - 1;
            && TxsWellFormed(txs[..n]) && NoOverwrite(v, txs[..n])
            && TxWellFormed(txs[n]) && txs[n].hash !in v.coins && (txs[n].coinBase <==> n == 0)
  {
    hide TxWellFormed;
  }

  lemma {:induction false} TxUndosFit(v: View, txs: seq<Tx>, height: nat)
    requires TxsWellFormed(txs)
    ensures UndosFit(txs, TxUndos(v, txs, height))
    decreases |txs|
  {
    hide TxWellFormed, ConnectTxs, UndosOf;
    if |txs| > 1 {
      var n := |txs| - 1;
      TxUndosFit(v, txs[..n], height);
      var undos, init := TxUndos(v, txs, height), TxUndos(v, txs[..n], height);
      forall i | 0 <= i < |undos| ensures |undos[i]| == |txs[i + 1].vin| {
        if i < n - 1 { assert undos[i] == init[i] && txs[..n][i + 1] == txs[i + 1]; }
      }
    }
  }

  lemma {:induction false} DisconnectTxsInverts(v: View, txs: seq<Tx>, height: nat)
    requires UtxoSane(v.coins) && TxsWellFormed(txs) && InputsOk(v, txs, height) && NoOverwrite(v, txs) && height >= 1
    ensures UndosFit(txs, TxUndos(v, txs, height))
    ensures DisconnectTxsClean(ConnectTxs(v, txs, height), txs, height, TxUndos(v, txs, height))
    ensures DisconnectTxs(ConnectTxs(v, txs, height), txs, TxUndos(v, txs, height)) == v
    decreases |txs|
  {
    hide TxWellFormed, TxInputsOk, UtxoSane, ConnectTx, DisconnectTx, DisconnectTxClean, TxsWellFormed, NoOverwrite, InputsOk, UndosFit, TxUndo;
    TxUndosFit(v, txs, height);
    if txs != [] {
      var n := |txs| - 1;
      var init, last, undos := txs[..n], txs[n], TxUndos(v, txs, height);
      SplitLast(v, txs);
      InitInputsOk(v, txs, height);
      DisconnectTxsInverts(v, init, height);
      ConnectTxsKeepsSane(v, init, height);
      ConnectedAreDistinct(v, txs, height);
      ConnectTxsAddsOnly(v, init, height, last.hash);
      DisconnectTxInverts(ConnectTxs(v, init, height), last, height);
      if n > 0 {
        assert undos[..n - 1] == TxUndos(v, init, height);
        assert undos[n - 1] == TxUndo(ConnectTxs(v, init, height), last);
      } else {
        assert TxUndo(ConnectTxs(v, init, height), last) == [];
      }
    }
  }

  // ----- the block

  function CommitmentsOf(txs: seq<Tx>): seq<Commitment> {
    if txs == [] then [] else CommitmentsOf(txs[..|txs| - 1]) + txs[|txs| - 1].commitments
  }

  /** The anchors are trees no larger than the best one, which is among them. */
  ghost predicate AnchorsSane(v: View) {
    && RootsOk(v.anchors) && v.bestAnchor in v.anchors
    && forall r :: r in v.anchors ==> |v.anchors[r]| <= |v.anchors[v.bestAnchor]|
  }

  ghost predicate StateSane(v: View) {
    UtxoSane(v.coins) && AnchorsSane(v)
  }

  /** Everything ConnectBlock and the checks before it require of a block, as far as it concerns coins,
      nullifiers and anchors. */
  ghost predicate Connects(v: View, b: Block) {
    && b.height >= 1 && b.hash != NullHash && b.prev == v.bestBlock
    && TxsWellFormed(b.vtx) && b.vtx != []
    && NoOverwrite(v, b.vtx) && InputsOk(v, b.vtx, b.height)
  }

  /** CheckBlock lets a block pass that repeats a transaction; ConnectBlock never does. */
  lemma RepeatIsRefused(v: View, b: Block)
    requires StateSane(v) && !DistinctHashes(b.vtx)
    ensures !Connects(v, b)
  {
    hide UtxoSane, TxsWellFormed, NoOverwrite, InputsOk, DistinctHashes;
    if Connects(v, b) { ConnectedAreDistinct(v, b.vtx, b.height); }
  }

  ghost function ConnectBlock(v: View, b: Block): View
    requires v.bestAnchor in v.anchors
  {
    Pushed(ConnectTxs(v, b.vtx, b.height), v.anchors[v.bestAnchor] + CommitmentsOf(b.vtx)).(bestBlock := b.hash)
  }

  ghost function BlockUndoOf(v: View, b: Block): BlockUndo {
    BlockUndo(TxUndos(v, b.vtx, b.height), v.bestAnchor)
  }

  ghost function DisconnectBlock(v: View, b: Block, undo: BlockUndo): View
    requires UndosFit(b.vtx, undo.vtxundo)
  {
    Popped(DisconnectTxs(v, b.vtx, undo.vtxundo), undo.oldRoot).(bestBlock := b.prev)
  }

  /** Connecting touches neither anchors nor the best hashes before the anchor is pushed. */
  lemma {:induction false} ConnectTxsFrame(v: View, txs: seq<Tx>, height: nat)
    ensures var w := ConnectTxs(v, txs, height);
            w.anchors == v.anchors && w.bestAnchor == v.bestAnchor && w.bestBlock == v.bestBlock
    decreases |txs|
  {
    if txs != [] { ConnectTxsFrame(v, txs[..|txs| - 1], height); }
  }

  /** Disconnecting works on coins and nullifiers, whatever the anchors are. */
  lemma {:induction false} DisconnectTxsFrame(v: View, w: View, txs: seq<Tx>, height: nat, undos: seq<seq<TxInUndo>>)
    requires UndosFit(txs, undos) && v.coins == w.coins && v.nullifiers == w.nullifiers
    ensures DisconnectTxs(w, txs, undos)
         == DisconnectTxs(v, txs, undos).(anchors := w.anchors, bestAnchor := w.bestAnchor, bestBlock := w.bestBlock)
    ensures DisconnectTxsClean(w, txs, height, undos) <==> DisconnectTxsClean(v, txs, height, undos)
    decreases |txs|
  {
    if txs != [] {
      var n := |txs| - 1;
      var undo := if n > 0 then undos[n - 1] else [];
      DisconnectTxsFrame(DisconnectTx(v, txs[n], undo, n > 0), DisconnectTx(w, txs[n], undo, n > 0), txs[..n], height,
                         if n > 0 then undos[..n - 1] else []);
    }
  }

  /** Disconnecting a block right after connecting it restores coins, nullifiers, anchors and both best
      hashes, and reports clean. */
  lemma DisconnectInvertsConnect(v: View, b: Block)
    requires StateSane(v) && Connects(v, b)
    ensures UndosFit(b.vtx, BlockUndoOf(v, b).vtxundo)
    ensures DisconnectTxsClean(ConnectBlock(v, b), b.vtx, b.height, BlockUndoOf(v, b).vtxundo)
    ensures DisconnectBlock(ConnectBlock(v, b), b, BlockUndoOf(v, b)) == v
  {
    hide UtxoSane, TxsWellFormed, NoOverwrite, InputsOk, ConnectTxs, DisconnectTxs, DisconnectTxsClean, UndosFit;
    var w := ConnectTxs(v, b.vtx, b.height);
    ConnectTxsFrame(v, b.vtx, b.height);
    DisconnectTxsInverts(v, b.vtx, b.height);
    DisconnectTxsFrame(w, ConnectBlock(v, b), b.vtx, b.height, TxUndos(v, b.vtx, b.height));
    AnchorIsNew(v, CommitmentsOf(b.vtx));
  }

  /** A tree that has grown is not an anchor yet, so popping it takes out what pushing put in. */
  lemma AnchorIsNew(v: View, commitments: seq<Commitment>)
    requires AnchorsSane(v)
    ensures var tree := v.anchors[v.bestAnchor] + commitments;
            v.bestAnchor == RootOf(tree) || RootOf(tree) !in v.anchors
    ensures Popped(Pushed(v, v.anchors[v.bestAnchor] + commitments), v.bestAnchor) == v
  {
    var tree := v.anchors[v.bestAnchor] + commitments;
    if commitments == [] {
      assert tree == v.anchors[v.bestAnchor];
    } else {
      assert forall r :: r in v.anchors ==> r.tree == v.anchors[r];
    }
  }

  /** Connecting keeps what the inverse needs, so it holds along every chain of blocks. */
  lemma ConnectKeepsSane(v: View, b: Block)
    requires StateSane(v) && Connects(v, b)
    ensures StateSane(ConnectBlock(v, b))
  {
    hide UtxoSane, TxsWellFormed, NoOverwrite, InputsOk, ConnectTxs;
    ConnectTxsKeepsSane(v, b.vtx, b.height);
    ConnectTxsFrame(v, b.vtx, b.height);
  }
}
