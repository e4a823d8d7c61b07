/**
 Unspent outputs of one transaction: class `CCoins` (src/coins.h, src/coins.cpp), and the part of
 `CTransaction` it is made from.
 */
module Coins {
  type Txid = nat
  type Nullifier = nat
  type Commitment = nat
  type Script = seq<bv8>

  const OP_RETURN: bv8 := 0x6a
  const MAX_SCRIPT_SIZE: nat := 10000

  predicate IsUnspendable(s: Script) {
    (|s| > 0 && s[0] == OP_RETURN) || |s| > MAX_SCRIPT_SIZE
  }

  datatype TxOut = TxOut(value: int, script: Script) {
    predicate IsNull() {
      value == -1
    }
  }

  const NullOut: TxOut := TxOut(-1, [])

  datatype OutPoint = OutPoint(hash: Txid, n: nat)

  datatype Tx = Tx(hash: Txid, version: int, coinBase: bool, vin: seq<OutPoint>, vout: seq<TxOut>,
                   nullifiers: seq<Nullifier>, commitments: seq<Commitment>)

  /** `vout` after removing spent outputs at the end. */
  function Trimmed(vout: seq<TxOut>): (r: seq<TxOut>)
    ensures |r| <= |vout| && r == vout[..|r|]
    ensures r != [] ==> !r[|r| - 1].IsNull()
    ensures forall i :: |r| <= i < |vout| ==> vout[i].IsNull()
  {
    if |vout| > 0 && vout[|vout| - 1].IsNull() then Trimmed(vout[..|vout| - 1]) else vout
  }

  /** The two properties above determine the trimmed prefix. */
  lemma TrimmedUnique(vout: seq<TxOut>, n: nat)
    requires n <= |vout|
    requires n > 0 ==> !vout[n - 1].IsNull()
    requires forall i :: n <= i < |vout| ==> vout[i].IsNull()
    ensures Trimmed(vout) == vout[..n]
  {
    var r := Trimmed(vout);
    assert forall i :: |r| <= i < |vout| ==> vout[i].IsNull();
    assert |r| > 0 ==> r[|r| - 1] == vout[|r| - 1];
  }

  /** `Cleanup`. */
  method Cleanup(vout: seq<TxOut>) returns (r: seq<TxOut>)
    ensures r == Trimmed(vout)
  {
    r := vout;
    while |r| > 0 && r[|r| - 1].IsNull()
      invariant |r| <= |vout| && Trimmed(r) == Trimmed(vout)
    {
      r := r[..|r| - 1];
    }
  }

  predicate AllNull(vout: seq<TxOut>) {
    forall i :: 0 <= i < |vout| ==> vout[i].IsNull()
  }

  datatype CCoins = CCoins(coinBase: bool, vout: seq<TxOut>, height: nat, version: int) {
    predicate IsPruned() {
      AllNull(vout)
    }

    predicate IsAvailable(n: nat) {
      n < |vout| && !vout[n].IsNull()
    }

    /** What `Cleanup` establishes. */
    predicate IsTrimmed() {
      vout == [] || !vout[|vout| - 1].IsNull()
    }

    /** A spent output has been set to null, not just marked. */
    ghost predicate NullsCanonical() {
      forall i :: 0 <= i < |vout| && vout[i].IsNull() ==> vout[i] == NullOut
    }

    function Cleaned(): (r: CCoins)
      ensures r.IsTrimmed() && r.IsPruned() == IsPruned()
      ensures r.IsPruned() <==> r.vout == []
      ensures NullsCanonical() ==> r.NullsCanonical()
    {
      this.(vout := Trimmed(vout))
    }

    /** `Spend`: false when the output is missing or spent already. */
    function Spend(n: nat): (CCoins, bool) {
      if !IsAvailable(n) then (this, false)
      else (this.(vout := vout[n := NullOut]).Cleaned(), true)
    }
  }

  const NoCoins: CCoins := CCoins(false, [], 0, 0)

  /** The equality test of `CCoins`: empty ones are always equal. */
  predicate SameCoins(a: CCoins, b: CCoins) {
    (a.IsPruned() && b.IsPruned()) || a == b
  }

  function WithoutUnspendable(vout: seq<TxOut>): (r: seq<TxOut>)
    ensures |r| == |vout|
    ensures forall i :: 0 <= i < |vout| ==> r[i] == if IsUnspendable(vout[i].script) then NullOut else vout[i]
  {
    seq(|vout|, i requires 0 <= i < |vout| => if IsUnspendable(vout[i].script) then NullOut else vout[i])
  }

  function ClearUnspendable(c: CCoins): CCoins {
    c.(vout := WithoutUnspendable(c.vout)).Cleaned()
  }

  /** `FromTx`: the outputs a transaction adds. */
  function FromTx(tx: Tx, height: nat): CCoins {
    ClearUnspendable(CCoins(tx.coinBase, tx.vout, height, tx.version))
  }

  lemma FromTxIsStable(tx: Tx, height: nat)
    ensures ClearUnspendable(FromTx(tx, height)) == FromTx(tx, height)
  {
    var w := WithoutUnspendable(tx.vout);
    var t := Trimmed(w);
    assert forall i :: 0 <= i < |t| ==> t[i] == w[i];
    assert WithoutUnspendable(t) == t;
    TrimmedUnique(t, |t|);
  }

  lemma FromTxIsCanonical(tx: Tx, height: nat)
    requires forall i :: 0 <= i < |tx.vout| ==> tx.vout[i].value >= 0
    ensures FromTx(tx, height).NullsCanonical()
  {
  }
}
