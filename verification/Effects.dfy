/**
 What connecting a block comes to, output by output: which outputs can be spent afterwards and what is known of them, the
 nullifiers, and the commitment tree (src/main.cpp, UpdateCoins and ConnectBlock; src/coins.h, CCoins).
 */
module Effects {
  import opened NatMath
  import opened Coins
  import opened CoinsLayer
  import opened CoinsView
  import opened Undo

  /** What is known of an output that can be spent. */
  datatype Coin = Coin(out: TxOut, height: nat, coinBase: bool, version: int)

  ghost function CoinAt(m: Utxo, o: OutPoint): Coin
    requires Spendable(m, o)
  {
    var c := m[o.hash];
    Coin(c.vout[o.n], c.height, c.coinBase, c.version)
  }

  /** An output that can ever be spent: its script does not begin with OP_RETURN and has at most 10000 bytes. */
  predicate Kept(o: TxOut) {
    o.value != -1 && (o.script != [] ==> o.script[0] != 0x6a) && |o.script| <= 10000
  }

  /** The transaction has this output, and it is not unspendable from the start. */
  predicate Creates(tx: Tx, o: OutPoint) {
    o.hash == tx.hash && o.n < |tx.vout| && Kept(tx.vout[o.n])
  }

  predicate Spends(tx: Tx, o: OutPoint) {
    !tx.coinBase && o in tx.vin
  }

  // ----- one entry

  lemma WithCoinsEffect(m: Utxo, h: Txid, c: CCoins, o: OutPoint)
    ensures Spendable(WithCoins(m, h, c), o) <==> if o.hash == h then c.IsAvailable(o.n) else Spendable(m, o)
    ensures Spendable(WithCoins(m, h, c), o) ==>
              CoinAt(WithCoins(m, h, c), o) == if o.hash == h then Coin(c.vout[o.n], c.height, c.coinBase, c.version) else CoinAt(m, o)
  {
    TrimmedEffect(c.vout, o.n);
    hide Trimmed;
    if o.hash == h && c.IsAvailable(o.n) { assert !c.vout[o.n].IsNull(); }
  }

  lemma FromTxEffect(tx: Tx, height: nat, n: nat)
    ensures var c := FromTx(tx, height);
            && (c.IsAvailable(n) <==> n < |tx.vout| && Kept(tx.vout[n]))
            && (c.IsAvailable(n) ==> c.vout[n] == tx.vout[n])
            && c.height == height && c.coinBase == tx.coinBase && c.version == tx.version
  {
    TrimmedEffect(WithoutUnspendable(tx.vout), n);
    hide Trimmed;
  }

  // ----- spending

  /** Taking off null outputs at the end changes nothing about any other. */
  lemma TrimmedEffect(v: seq<TxOut>, k: nat)
    ensures var t := Trimmed(v);
            && (k < |t| && !t[k].IsNull() <==> k < |v| && !v[k].IsNull())
            && (k < |t| ==> t[k] == v[k])
  {
    var t := Trimmed(v);
    assert t == v[..|t|];
  }

  lemma SpentEffect(c: CCoins, n: nat, k: nat)
    requires c.IsAvailable(n)
    ensures var s := c.Spend(n).0;
            && (s.IsAvailable(k) <==> k != n && c.IsAvailable(k)) && (s.IsAvailable(k) ==> s.vout[k] == c.vout[k])
            && s.height == c.height && s.coinBase == c.coinBase && s.version == c.version
  {
    TrimmedEffect(c.vout[n := NullOut], k);
    hide Trimmed;
  }

  lemma SpendOneEffect(m: Utxo, out: OutPoint, o: OutPoint)
    requires Spendable(m, out)
    ensures Spendable(SpendOne(m, out), o) <==> o != out && Spendable(m, o)
    ensures Spendable(SpendOne(m, out), o) ==> CoinAt(SpendOne(m, out), o) == CoinAt(m, o)
  {
    SpentEffect(m[out.hash], out.n, o.n);
    hide Trimmed, WithCoins, CCoins.IsAvailable, CCoins.Spend;
    WithCoinsEffect(m, out.hash, SpentCoins(m, out), o);
    AvailableMeans(m, o);
  }

  lemma AvailableMeans(m: Utxo, o: OutPoint)
    ensures Spendable(m, o) <==> o.hash in m && m[o.hash].IsAvailable(o.n)
  {
  }

  lemma {:induction false} SpendAllEffect(m: Utxo, vin: seq<OutPoint>, o: OutPoint)
    requires AllSpendable(m, vin)
    ensures Spendable(SpendAll(m, vin), o) <==> o !in vin && Spendable(m, o)
    ensures Spendable(SpendAll(m, vin), o) ==> CoinAt(SpendAll(m, vin), o) == CoinAt(m, o)
    decreases |vin|
  {
    hide Spendable, SpendOne, CoinAt;
    if vin != [] {
      var init, last := vin[..|vin| - 1], vin[|vin| - 1];
      assert vin == init + [last];
      InitSpendable(m, vin);
      SpendAllEffect(m, init, o);
      SpendOneEffect(SpendAll(m, init), last, o);
    }
  }

  // ----- one transaction

  /** What becomes of an output when a transaction is connected. */
  ghost predicate OutputAfterTx(m: Utxo, tx: Tx, height: nat, m': Utxo, o: OutPoint) {
    && (Spendable(m', o) <==> if o.hash == tx.hash then Creates(tx, o) else Spendable(m, o) && !Spends(tx, o))
    && (Spendable(m', o) ==>
          CoinAt(m', o) == if o.hash == tx.hash then Coin(tx.vout[o.n], height, tx.coinBase, tx.version) else CoinAt(m, o))
  }

  ghost predicate TxEffect(v: View, tx: Tx, height: nat, w: View) {
    && (forall o {:trigger Spendable(w.coins, o)} :: OutputAfterTx(v.coins, tx, height, w.coins, o))
    && (forall n :: n in w.nullifiers <==> n in v.nullifiers || n in tx.nullifiers)
    && w.anchors == v.anchors && w.bestAnchor == v.bestAnchor && w.bestBlock == v.bestBlock
  }

  lemma ConnectTxOutput(v: View, tx: Tx, height: nat, o: OutPoint)
    requires !tx.coinBase ==> AllSpendable(v.coins, tx.vin)
    ensures OutputAfterTx(v.coins, tx, height, ConnectTx(v, tx, height).coins, o)
  {
    hide Spendable, CoinAt, WithCoins, FromTx, SpendAll, AllSpendable;
    var coins := if tx.coinBase then v.coins else SpendAll(v.coins, tx.vin);
    if !tx.coinBase { SpendAllEffect(v.coins, tx.vin, o); }
    WithCoinsEffect(coins, tx.hash, FromTx(tx, height), o);
    FromTxEffect(tx, height, o.n);
  }

  lemma ConnectTxEffect(v: View, tx: Tx, height: nat)
    requires !tx.coinBase ==> AllSpendable(v.coins, tx.vin)
    ensures TxEffect(v, tx, height, ConnectTx(v, tx, height))
  {
    hide OutputAfterTx, WithCoins, FromTx, SpendAll, AllSpendable;
    var w := ConnectTx(v, tx, height);
    forall o ensures OutputAfterTx(v.coins, tx, height, w.coins, o) {
      ConnectTxOutput(v, tx, height, o);
    }
  }

  // ----- all transactions of a block

  predicate AnyCreates(txs: seq<Tx>, o: OutPoint) {
    exists i :: 0 <= i < |txs| && Creates(txs[i], o)
  }

  predicate AnySpends(txs: seq<Tx>, o: OutPoint) {
    exists i :: 0 <= i < |txs| && Spends(txs[i], o)
  }

  /**
   What becomes of an output when a block is connected: it can be spent exactly if that was so before or the block creates
   it, and the block does not spend it; what the block creates is what its transaction says, at the height of the block, and
   what was there before is unchanged.
   */
  ghost predicate OutputAfter(m: Utxo, txs: seq<Tx>, height: nat, m': Utxo, o: OutPoint) {
    && (Spendable(m', o) <==> (Spendable(m, o) || AnyCreates(txs, o)) && !AnySpends(txs, o))
    && (Spendable(m', o) && !AnyCreates(txs, o) ==> CoinAt(m', o) == CoinAt(m, o))
    && (forall i :: 0 <= i < |txs| && Creates(txs[i], o) && Spendable(m', o) ==>
          CoinAt(m', o) == Coin(txs[i].vout[o.n], height, txs[i].coinBase, txs[i].version))
  }

  lemma OneMoreTx(init: seq<Tx>, last: Tx, o: OutPoint)
    ensures AnyCreates(init + [last], o) <==> AnyCreates(init, o) || Creates(last, o)
    ensures AnySpends(init + [last], o) <==> AnySpends(init, o) || Spends(last, o)
  {
    hide Creates, Spends;
    var txs := init + [last];
    assert txs[|init|] == last && forall i :: 0 <= i < |init| ==> txs[i] == init[i];
  }

  /** No transaction of a block spends an output of itself or of a later one. */
  lemma SpentComesFirst(v: View, txs: seq<Tx>, height: nat, o: OutPoint)
    requires InputsOk(v, txs, height) && NoOverwrite(v, txs) && DistinctHashes(txs) && txs != []
    requires o.hash == txs[|txs| - 1].hash
    ensures !AnySpends(txs, o)
  {
    hide ConnectTxs, Spendable, NoOverwrite, DistinctHashes;
    forall i | 0 <= i < |txs| ensures !Spends(txs[i], o) {
      if Spends(txs[i], o) {
        assert TxInputsOk(ConnectTxs(v, txs[..i], height), txs[i]);
        var k :| 0 <= k < |txs[i].vin| && txs[i].vin[k] == o;
        InputComesFromElsewhere(v, txs, height, i, o);
      }
    }
  }

  lemma {:induction false} OutputsAfter(v: View, txs: seq<Tx>, height: nat, o: OutPoint)
    requires UtxoSane(v.coins) && TxsWellFormed(txs) && InputsOk(v, txs, height) && NoOverwrite(v, txs) && height >= 1
    ensures OutputAfter(v.coins, txs, height, ConnectTxs(v, txs, height).coins, o)
    decreases |txs|
  {
    hide UtxoSane, TxsWellFormed, InputsOk, NoOverwrite, ConnectTx, TxWellFormed, TxInputsOk, OutputAfter, AllSpendable;
    if txs == [] {
      NothingAfter(v.coins, height, o);
    } else {
      var n := |txs| - 1;
      var init, last := txs[..n], txs[n];
      assert txs == init + [last];
      SplitLast(v, txs);
      InitInputsOk(v, txs, height);
      OutputsAfter(v, init, height, o);
      ConnectTxsKeepsSane(v, init, height);
      var w := ConnectTxs(v, init, height);
      ConnectTxKeepsSane(w, last, height);
      ConnectTxOutput(w, last, height, o);
      ConnectedAreDistinct(v, txs, height);
      if o.hash == last.hash {
        SpentComesFirst(v, txs, height, o);
      }
      OneMoreAfter(v.coins, init, last, height, w.coins, ConnectTx(w, last, height).coins, o);
    }
  }

  lemma NothingAfter(m: Utxo, height: nat, o: OutPoint)
    ensures OutputAfter(m, [], height, m, o)
  {
  }

  lemma OneMoreAfter(m: Utxo, init: seq<Tx>, last: Tx, height: nat, m1: Utxo, m2: Utxo, o: OutPoint)
    requires OutputAfter(m, init, height, m1, o) && OutputAfterTx(m1, last, height, m2, o)
    requires last.hash !in m && DistinctHashes(init + [last])
    requires o.hash == last.hash ==> !AnySpends(init + [last], o)
    ensures OutputAfter(m, init + [last], height, m2, o)
  {
    hide CoinAt, AnyCreates, AnySpends;
    var txs := init + [last];
    OneMoreTx(init, last, o);
    assert txs[|init|] == last && forall i :: 0 <= i < |init| ==> txs[i] == init[i];
    NoneCreates(init, last, o);
    assert o.hash == last.hash ==> !Spendable(m, o);
    forall i | 0 <= i < |txs| && Creates(txs[i], o) && Spendable(m2, o)
      ensures CoinAt(m2, o) == Coin(txs[i].vout[o.n], height, txs[i].coinBase, txs[i].version)
    {
      if i < |init| { assert Creates(init[i], o); }
    }
  }

  /** The hash of another transaction is another one. */
  lemma NoneCreates(init: seq<Tx>, last: Tx, o: OutPoint)
    requires DistinctHashes(init + [last])
    ensures o.hash == last.hash ==> !AnyCreates(init, o)
    ensures o.hash != last.hash ==> !Creates(last, o)
  {
    var txs := init + [last];
    assert txs[|init|] == last && forall i :: 0 <= i < |init| ==> txs[i] == init[i];
  }

  // ----- nullifiers and commitments

  lemma {:induction false} NullifiersAfter(v: View, txs: seq<Tx>, height: nat, n: Nullifier)
    ensures n in ConnectTxs(v, txs, height).nullifiers <==> n in v.nullifiers || exists i :: 0 <= i < |txs| && n in txs[i].nullifiers
    decreases |txs|
  {
    hide ConnectTx;
    if txs != [] {
      var init, last := txs[..|txs| - 1], txs[|txs| - 1];
      assert txs == init + [last];
      NullifiersAfter(v, init, height, n);
      NullifiersOfLast(v, init, last, height, n);
      assert txs[|init|] == last && forall i :: 0 <= i < |init| ==> txs[i] == init[i];
    }
  }

  lemma NullifiersOfLast(v: View, init: seq<Tx>, last: Tx, height: nat, n: Nullifier)
    ensures n in ConnectTxs(v, init + [last], height).nullifiers <==>
              n in ConnectTxs(v, init, height).nullifiers || n in last.nullifiers
  {
    hide SpendAll, FromTx;
    assert (init + [last])[..|init|] == init;
  }

  function Counts(txs: seq<Tx>): (r: seq<nat>)
    ensures |r| == |txs| && forall i :: 0 <= i < |txs| ==> r[i] == |txs[i].commitments|
  {
    if txs == [] then [] else Counts(txs[..|txs| - 1]) + [|txs[|txs| - 1].commitments|]
  }

  /** How many commitments there are before transaction `i`. */
  function Before(txs: seq<Tx>, i: nat): nat
    requires i <= |txs|
  {
    Sum(Counts(txs)[..i])
  }

  /** The commitments of every transaction stand where those of the ones before it end, and nothing else is there. */
  ghost predicate InOrder(tree: CommitTree, txs: seq<Tx>, tree': CommitTree) {
    && |tree'| == |tree| + Before(txs, |txs|) && tree <= tree'
    && forall i :: 0 <= i < |txs| ==> StandsAfter(tree', |tree| + Before(txs, i), txs[i].commitments)
  }

  predicate StandsAfter(tree: CommitTree, at: nat, part: seq<Commitment>) {
    at + |part| <= |tree| && tree[at..at + |part|] == part
  }

  lemma StillStands(tree: CommitTree, more: seq<Commitment>, at: nat, part: seq<Commitment>)
    requires StandsAfter(tree, at, part)
    ensures StandsAfter(tree + more, at, part)
  {
    assert (tree + more)[at..at + |part|] == tree[at..at + |part|];
  }

  lemma LastStands(tree: CommitTree, more: seq<Commitment>)
    ensures StandsAfter(tree + more, |tree|, more)
  {
  }

  lemma BeforeStep(init: seq<Tx>, last: Tx, i: nat)
    requires i <= |init|
    ensures Before(init + [last], i) == Before(init, i)
    ensures Before(init + [last], |init| + 1) == Before(init, |init|) + |last.commitments|
  {
    var txs := init + [last];
    assert txs[..|init|] == init;
    var c := Counts(txs);
    assert c == Counts(init) + [|last.commitments|];
    assert c[..i] == Counts(init)[..i] && c[..|init|] == Counts(init) == Counts(init)[..|init|] && c[..|init| + 1] == c;
  }

  lemma {:induction false} CommitmentsInOrder(tree: CommitTree, txs: seq<Tx>)
    ensures InOrder(tree, txs, tree + CommitmentsOf(txs))
    decreases |txs|
  {
    hide Before, StandsAfter;
    var tree' := tree + CommitmentsOf(txs);
    if txs == [] {
      NoneBefore();
    } else {
      var n := |txs| - 1;
      var init, last := txs[..n], txs[n];
      assert txs == init + [last];
      CommitmentsInOrder(tree, init);
      BeforeStep(init, last, n);
      var tree1 := tree + CommitmentsOf(init);
      assert tree' == tree1 + last.commitments;
      forall i | 0 <= i < |txs| ensures StandsAfter(tree', |tree| + Before(txs, i), txs[i].commitments) {
        BeforeStep(init, last, i);
        if i < n {
          assert init[i] == txs[i];
          StillStands(tree1, last.commitments, |tree| + Before(init, i), txs[i].commitments);
        } else {
          LastStands(tree1, last.commitments);
        }
      }
    }
  }

  lemma NoneBefore()
    ensures Before([], 0) == 0
  {
  }

  // ----- the block

  /** Everything connecting a block does to coins, nullifiers, anchors and best hashes. */
  ghost predicate BlockEffect(v: View, b: Block, w: View) {
    && (forall o {:trigger Spendable(w.coins, o)} :: OutputAfter(v.coins, b.vtx, b.height, w.coins, o))
    && (forall n :: n in w.nullifiers <==> n in v.nullifiers || exists i :: 0 <= i < |b.vtx| && n in b.vtx[i].nullifiers)
    && v.bestAnchor in v.anchors && w.bestAnchor in w.anchors
    && InOrder(v.anchors[v.bestAnchor], b.vtx, w.anchors[w.bestAnchor])
    && w.anchors == v.anchors[w.bestAnchor := w.anchors[w.bestAnchor]]
    && w.bestBlock == b.hash
  }

  lemma ConnectBlockEffect(v: View, b: Block)
    requires StateSane(v) && Connects(v, b)
    ensures BlockEffect(v, b, Undo.ConnectBlock(v, b))
  {
    hide UtxoSane, TxsWellFormed, InputsOk, NoOverwrite, ConnectTxs, OutputAfter, InOrder;
    var w, u := Undo.ConnectBlock(v, b), ConnectTxs(v, b.vtx, b.height);
    ConnectTxsFrame(v, b.vtx, b.height);
    forall o ensures OutputAfter(v.coins, b.vtx, b.height, w.coins, o) {
      OutputsAfter(v, b.vtx, b.height, o);
    }
    forall n ensures n in w.nullifiers <==> n in v.nullifiers || exists i :: 0 <= i < |b.vtx| && n in b.vtx[i].nullifiers {
      NullifiersAfter(v, b.vtx, b.height, n);
    }
    CommitmentsInOrder(v.anchors[v.bestAnchor], b.vtx);
    var tree := v.anchors[v.bestAnchor] + CommitmentsOf(b.vtx);
    TreeAfter(u, tree);
  }

  lemma TreeAfter(v: View, tree: CommitTree)
    requires RootsOk(v.anchors) && v.bestAnchor in v.anchors
    ensures var w := Pushed(v, tree);
            w.bestAnchor in w.anchors && w.anchors[w.bestAnchor] == tree && w.anchors == v.anchors[w.bestAnchor := tree]
  {
  }
}
