/** How much an unspent set is worth, and what a transaction or a block can add to it. */
module Money {
  import opened Wire
  import opened Ledger

  ghost function Total(u: Utxos): int {
    if u == map[] then 0 else var o :| o in u; u[o].amount + Total(u - {o})
  }

  lemma {:induction false} TotalRemove(u: Utxos, o: OutPoint)
    requires o in u
    ensures Total(u) == u[o].amount + Total(u - {o})
    decreases |u|
  {
    var p :| p in u && Total(u) == u[p].amount + Total(u - {p});
    if p != o {
      TotalRemove(u - {p}, o);
      TotalRemove(u - {o}, p);
      assert u - {p} - {o} == u - {o} - {p};
    }
  }

  ghost predicate NonNegative(u: Utxos) {
    forall o :: o in u ==> u[o].amount >= 0
  }

  /** Putting a coin under an outpoint adds its amount, less whatever was there. */
  lemma TotalPut(u: Utxos, o: OutPoint, c: Coin)
    ensures Total(u[o := c]) == Total(u) + c.amount - (if o in u then u[o].amount else 0)
  {
    TotalRemove(u[o := c], o);
    if o in u {
      TotalRemove(u, o);
      assert u[o := c] - {o} == u - {o};
    } else {
      assert u[o := c] - {o} == u;
    }
  }

  /** The value of the first `k` outputs. */
  function OutSum(tx: Tx, k: nat): int
    requires k <= |tx.outs|
  {
    if k == 0 then 0 else OutSum(tx, k - 1) + tx.outs[k-1].value
  }

  function Out(tx: Tx): int {
    OutSum(tx, |tx.outs|)
  }

  /** The value of the coins the first `k` inputs refer to. */
  function InSum(u: Utxos, ins: seq<TxIn>, k: nat): int
    requires k <= |ins|
  {
    if k == 0 then 0 else InSum(u, ins, k - 1) + CoinAt(u, ins[k-1].prev).amount
  }

  /** What a transaction leaves to the miner. */
  function Fee(u: Utxos, tx: Tx): int {
    if IsCoinBase(tx) then 0 else InSum(u, tx.ins, |tx.ins|) - Out(tx)
  }

  function FeeAt(u: Utxos, txs: seq<Tx>, height: int, k: nat): int
    requires k < |txs|
  {
    Fee(ApplyTxs(u, txs, height, k), txs[k])
  }

  function FeeSum(u: Utxos, txs: seq<Tx>, height: int, k: nat): int
    requires k <= |txs|
  {
    if k == 0 then 0 else FeeSum(u, txs, height, k - 1) + FeeAt(u, txs, height, k - 1)
  }

  predicate OutputsNonNegative(tx: Tx) {
    forall i :: 0 <= i < |tx.outs| ==> tx.outs[i].value >= 0
  }

  lemma {:induction false} TotalWithoutInputs(u: Utxos, ins: seq<TxIn>, k: nat)
    requires k <= |ins| && DistinctInputs(ins) && Available(u, ins)
    ensures Total(RemoveInputs(u, ins, k)) == Total(u) - InSum(u, ins, k)
  {
    if k > 0 {
      var o := ins[k-1].prev;
      TotalWithoutInputs(u, ins, k - 1);
      RemoveInputsLookup(u, ins, k - 1, o);
      forall i | 0 <= i < k - 1 ensures ins[i].prev != o {
        assert InputsDiffer(ins, i, k - 1);
      }
      TotalRemove(RemoveInputs(u, ins, k - 1), o);
    }
  }

  lemma {:induction false} TotalWithOutputs(u: Utxos, tx: Tx, height: int, k: nat)
    requires k <= |tx.outs| && NonNegative(u) && OutputsNonNegative(tx)
    ensures NonNegative(AddOutputs(u, tx, height, k))
    ensures Total(AddOutputs(u, tx, height, k)) <= Total(u) + OutSum(tx, k)
  {
    if k > 0 {
      TotalWithOutputs(u, tx, height, k - 1);
      if !tx.outs[k-1].unspendable {
        TotalPut(AddOutputs(u, tx, height, k - 1), OutPoint(tx.id, k - 1), OutputCoin(tx, height, k - 1));
      }
    }
  }

  /** A transaction changes the total by at most its outputs less its inputs. */
  lemma TotalAfterTx(u: Utxos, tx: Tx, height: int)
    requires Spendable(u, tx) && NonNegative(u) && OutputsNonNegative(tx)
    ensures NonNegative(ApplyTx(u, tx, height))
    ensures Total(ApplyTx(u, tx, height)) <= Total(u) + (if IsCoinBase(tx) then Out(tx) else -Fee(u, tx))
  {
    var ins := Spends(tx);
    var w := RemoveInputs(u, ins, |ins|);
    TotalWithoutInputs(u, ins, |ins|);
    forall o | o in w ensures w[o].amount >= 0 {
      RemoveInputsLookup(u, ins, |ins|, o);
    }
    TotalWithOutputs(w, tx, height, |tx.outs|);
  }

  /** After the first `k >= 1` transactions the total has grown by at most the coinbase less the fees. */
  lemma {:induction false} TotalAfterTxs(u: Utxos, txs: seq<Tx>, height: int, k: nat)
    requires 0 < k && AllSpendable(u, txs, height, k) && NonNegative(u)
    requires IsCoinBase(txs[0]) && forall i :: 0 < i < k ==> !IsCoinBase(txs[i])
    requires forall i :: 0 <= i < k ==> OutputsNonNegative(txs[i])
    ensures NonNegative(ApplyTxs(u, txs, height, k))
    ensures Total(ApplyTxs(u, txs, height, k)) <= Total(u) + Out(txs[0]) - FeeSum(u, txs, height, k)
  {
    assert SpendableAt(u, txs, height, k - 1);
    if k == 1 {
      assert ApplyTxs(u, txs, height, 0) == u && FeeSum(u, txs, height, 0) == 0;
    } else {
      TotalAfterTxs(u, txs, height, k - 1);
    }
    TotalAfterTx(ApplyTxs(u, txs, height, k - 1), txs[k-1], height);
  }

  /** What checkConnectBlock establishes about a block on top of the unspent set `u`. */
  ghost predicate BlockValid(u: Utxos, b: Block, reward: int) {
    AllSpendable(u, b.txs, b.height, |b.txs|) &&
    |b.txs| > 0 && IsCoinBase(b.txs[0]) && (forall i :: 0 < i < |b.txs| ==> !IsCoinBase(b.txs[i])) &&
    (forall i :: 0 <= i < |b.txs| ==> OutputsNonNegative(b.txs[i])) &&
    Out(b.txs[0]) <= reward + FeeSum(u, b.txs, b.height, |b.txs|)
  }

  /** Connecting a valid block raises the total by at most the subsidy. */
  lemma BlockConservesMoney(u: Utxos, b: Block, reward: int)
    requires NonNegative(u) && BlockValid(u, b, reward)
    ensures NonNegative(ApplyBlock(u, b)) && Total(ApplyBlock(u, b)) <= Total(u) + reward
  {
    TotalAfterTxs(u, b.txs, b.height, |b.txs|);
  }

  // ----- what is left over, exactly -----

  /** The value of the first `k` outputs that can be spent. */
  function SpendableSum(tx: Tx, k: nat): int
    requires k <= |tx.outs|
  {
    if k == 0 then 0 else SpendableSum(tx, k - 1) + if tx.outs[k-1].unspendable then 0 else tx.outs[k-1].value
  }

  lemma {:induction false} TotalAddedExact(u: Utxos, tx: Tx, height: int, k: nat)
    requires k <= |tx.outs| && forall o :: o in u ==> !Creates(tx, k, o)
    ensures Total(AddOutputs(u, tx, height, k)) == Total(u) + SpendableSum(tx, k)
  {
    if k > 0 {
      assert forall o :: Creates(tx, k - 1, o) ==> Creates(tx, k, o);
      TotalAddedExact(u, tx, height, k - 1);
      var w, o := AddOutputs(u, tx, height, k - 1), OutPoint(tx.id, k - 1);
      AddOutputsLookup(u, tx, height, k - 1, o);
      if !tx.outs[k-1].unspendable {
        assert Creates(tx, k, o);
        TotalPut(w, o, OutputCoin(tx, height, k - 1));
      }
    }
  }

  lemma {:induction false} NothingUnspendable(tx: Tx, k: nat)
    requires k <= |tx.outs| && forall i :: 0 <= i < |tx.outs| ==> !tx.outs[i].unspendable
    ensures SpendableSum(tx, k) == OutSum(tx, k)
  {
    if k > 0 {
      NothingUnspendable(tx, k - 1);
    }
  }

  /**
   A transaction that overwrites nothing takes exactly its fee out of circulation when all its outputs can be spent;
   a coinbase puts exactly its outputs in.
   */
  lemma FeeIsWhatIsLeft(u: Utxos, tx: Tx, height: int)
    requires Spendable(u, tx) && KeepsCoins(u, tx) && forall i :: 0 <= i < |tx.outs| ==> !tx.outs[i].unspendable
    ensures Total(ApplyTx(u, tx, height)) ==
      if |tx.ins| == 1 && tx.ins[0].prev == OutPoint(0, 0xFFFF_FFFF) then Total(u) + Out(tx) else Total(u) - Fee(u, tx)
  {
    var w := RemoveInputs(u, Spends(tx), |Spends(tx)|);
    TotalWithoutInputs(u, Spends(tx), |Spends(tx)|);
    forall o | o in w ensures !Creates(tx, |tx.outs|, o) {
      RemoveInputsLookup(u, Spends(tx), |Spends(tx)|, o);
    }
    TotalAddedExact(w, tx, height, |tx.outs|);
    NothingUnspendable(tx, |tx.outs|);
  }

  /**
   After the first `k` transactions of a block whose outputs can all be spent and which overwrite nothing, the total has
   changed by exactly the coinbase outputs less the fees.
   */
  lemma {:induction false} FeesLeave(u: Utxos, txs: seq<Tx>, height: int, k: nat)
    requires 0 < k <= |txs| && AllSpendable(u, txs, height, k) && NoOverwrite(u, txs, height, k)
    requires IsCoinBase(txs[0]) && forall t :: 0 < t < k ==> !IsCoinBase(txs[t])
    requires forall t, i :: 0 <= t < k && 0 <= i < |txs[t].outs| ==> !txs[t].outs[i].unspendable
    ensures Total(ApplyTxs(u, txs, height, k)) == Total(u) + Out(txs[0]) - FeeSum(u, txs, height, k)
  {
    hide ApplyTx, Fee, Total, AllSpendable, NoOverwrite;
    AtTx(u, txs, height, k);
    if k == 1 {
      assert ApplyTxs(u, txs, height, 0) == u && FeeSum(u, txs, height, 0) == 0;
    } else {
      FeesLeave(u, txs, height, k - 1);
    }
    CoinbaseFee(ApplyTxs(u, txs, height, k - 1), txs[k-1]);
    FeeIsWhatIsLeft(ApplyTxs(u, txs, height, k - 1), txs[k-1], height);
  }

  lemma AtTx(u: Utxos, txs: seq<Tx>, height: int, k: nat)
    requires 0 < k <= |txs| && AllSpendable(u, txs, height, k) && NoOverwrite(u, txs, height, k)
    ensures Spendable(ApplyTxs(u, txs, height, k - 1), txs[k-1]) && KeepsCoins(ApplyTxs(u, txs, height, k - 1), txs[k-1])
    ensures AllSpendable(u, txs, height, k - 1) && NoOverwrite(u, txs, height, k - 1)
  {
    assert SpendableAt(u, txs, height, k - 1) && KeepsCoinsAt(u, txs, height, k - 1);
  }

  lemma CoinbaseFee(u: Utxos, tx: Tx)
    ensures IsCoinBase(tx) <==> |tx.ins| == 1 && tx.ins[0].prev == OutPoint(0, 0xFFFF_FFFF)
    ensures IsCoinBase(tx) ==> Fee(u, tx) == 0
  {
  }
}
