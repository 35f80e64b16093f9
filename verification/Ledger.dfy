/**
 The unspent-output set as a mathematical object: what applying a block does to it, what the spend
 journal of a block is, and what replaying the journal backwards does.  The overlay and the database in
 the other modules are proved against these functions.
 */
module Ledger {
  import opened Wire

  /** The data of an unspent output, and equally of a spend journal record. */
  datatype Coin = Coin(amount: int64, script: Script, height: int, coinbase: bool)

  type Utxos = map<OutPoint, Coin>

  /** The inputs a transaction really spends: a coinbase has none. */
  function Spends(tx: Tx): seq<TxIn> {
    if IsCoinBase(tx) then [] else tx.ins
  }

  /** One of the first `k` inputs refers to `o`. */
  ghost predicate Refers(ins: seq<TxIn>, k: nat, o: OutPoint) {
    exists i :: 0 <= i < k && i < |ins| && ins[i].prev == o
  }

  /** `o` is one of the first `k` outputs of `tx` and not provably unspendable. */
  predicate Creates(tx: Tx, k: nat, o: OutPoint) {
    o.hash == tx.id && o.index < k && o.index < |tx.outs| && !tx.outs[o.index].unspendable
  }

  function OutputCoin(tx: Tx, height: int, i: nat): Coin
    requires i < |tx.outs|
  {
    Coin(tx.outs[i].value, tx.outs[i].script, height, IsCoinBase(tx))
  }

  function RemoveInputs(u: Utxos, ins: seq<TxIn>, k: nat): Utxos
    requires k <= |ins|
  {
    if k == 0 then u else RemoveInputs(u, ins, k - 1) - {ins[k-1].prev}
  }

  function AddOutputs(u: Utxos, tx: Tx, height: int, k: nat): Utxos
    requires k <= |tx.outs|
  {
    if k == 0 then u
    else
      var w := AddOutputs(u, tx, height, k - 1);
      if tx.outs[k-1].unspendable then w else w[OutPoint(tx.id, k - 1) := OutputCoin(tx, height, k - 1)]
  }

  function RemoveOutputs(u: Utxos, tx: Tx, k: nat): Utxos
    requires k <= |tx.outs|
  {
    if k == 0 then u
    else
      var w := RemoveOutputs(u, tx, k - 1);
      if tx.outs[k-1].unspendable then w else w - {OutPoint(tx.id, k - 1)}
  }

  /** Puts the coins from position `i` on back under their inputs, the last input first. */
  function Restore(u: Utxos, ins: seq<TxIn>, coins: seq<Coin>, i: nat): Utxos
    requires i <= |ins| == |coins|
    decreases |ins| - i
  {
    if i == |ins| then u else Restore(u, ins, coins, i + 1)[ins[i].prev := coins[i]]
  }

  function ApplyTx(u: Utxos, tx: Tx, height: int): Utxos {
    AddOutputs(RemoveInputs(u, Spends(tx), |Spends(tx)|), tx, height, |tx.outs|)
  }

  function UndoTx(u: Utxos, tx: Tx, coins: seq<Coin>): Utxos
    requires |coins| == |Spends(tx)|
  {
    Restore(RemoveOutputs(u, tx, |tx.outs|), Spends(tx), coins, 0)
  }

  /** The unspent set after the first `k` transactions of a block at the given height. */
  function ApplyTxs(u: Utxos, txs: seq<Tx>, height: int, k: nat): Utxos
    requires k <= |txs|
  {
    if k == 0 then u else ApplyTx(ApplyTxs(u, txs, height, k - 1), txs[k-1], height)
  }

  function ApplyBlock(u: Utxos, b: Block): Utxos {
    ApplyTxs(u, b.txs, b.height, |b.txs|)
  }

  predicate InputsDiffer(ins: seq<TxIn>, i: nat, j: nat)
    requires i < |ins| && j < |ins|
  {
    ins[i].prev != ins[j].prev
  }

  predicate DistinctInputs(ins: seq<TxIn>) {
    forall i, j :: 0 <= i < j < |ins| ==> InputsDiffer(ins, i, j)
  }

  predicate Available(u: Utxos, ins: seq<TxIn>) {
    forall i :: 0 <= i < |ins| ==> ins[i].prev in u
  }

  predicate Spendable(u: Utxos, tx: Tx) {
    DistinctInputs(Spends(tx)) && Available(u, Spends(tx))
  }

  ghost predicate SpendableAt(u: Utxos, txs: seq<Tx>, height: int, k: nat)
    requires k < |txs|
  {
    Spendable(ApplyTxs(u, txs, height, k), txs[k])
  }

  /** Each of the first `n` transactions spends distinct coins that are unspent at that point. */
  ghost predicate AllSpendable(u: Utxos, txs: seq<Tx>, height: int, n: nat) {
    n <= |txs| && forall k :: 0 <= k < n ==> SpendableAt(u, txs, height, k)
  }

  const NO_COIN := Coin(0, [], 0, false)

  function CoinAt(u: Utxos, o: OutPoint): Coin {
    if o in u then u[o] else NO_COIN
  }

  /** The coins the first `k` inputs refer to, in input order. */
  function SpentCoins(u: Utxos, ins: seq<TxIn>, k: nat): (s: seq<Coin>)
    requires k <= |ins|
    ensures |s| == k
  {
    if k == 0 then [] else SpentCoins(u, ins, k - 1) + [CoinAt(u, ins[k-1].prev)]
  }

  function SpendCount(txs: seq<Tx>, k: nat): nat
    requires k <= |txs|
  {
    if k == 0 then 0 else SpendCount(txs, k - 1) + |Spends(txs[k-1])|
  }

  /** The coins transaction `k` of the block spends. */
  function SpentAt(u: Utxos, txs: seq<Tx>, height: int, k: nat): (s: seq<Coin>)
    requires k < |txs|
    ensures |s| == |Spends(txs[k])|
  {
    SpentCoins(ApplyTxs(u, txs, height, k), Spends(txs[k]), |Spends(txs[k])|)
  }

  /** Every coin the first `k` transactions spend, in the order they spend them. */
  function Journal(u: Utxos, txs: seq<Tx>, height: int, k: nat): (j: seq<Coin>)
    requires k <= |txs|
    ensures |j| == SpendCount(txs, k)
  {
    if k == 0 then [] else Journal(u, txs, height, k - 1) + SpentAt(u, txs, height, k - 1)
  }

  /** The records of transaction `i` inside a journal of the block. */
  function Records(txs: seq<Tx>, journal: seq<Coin>, i: nat): (r: seq<Coin>)
    requires i < |txs| && SpendCount(txs, i + 1) <= |journal|
    ensures |r| == |Spends(txs[i])|
  {
    journal[SpendCount(txs, i)..SpendCount(txs, i + 1)]
  }

  /** Undoes the first `k` transactions, the last of them first. */
  function UndoTxs(u: Utxos, txs: seq<Tx>, journal: seq<Coin>, k: nat): Utxos
    requires k <= |txs| && SpendCount(txs, k) <= |journal|
    decreases k
  {
    if k == 0 then u else UndoTxs(UndoTx(u, txs[k-1], Records(txs, journal, k - 1)), txs, journal, k - 1)
  }

  predicate IdsDiffer(txs: seq<Tx>, i: nat, j: nat)
    requires i < |txs| && j < |txs|
  {
    txs[i].id != txs[j].id
  }

  predicate DistinctIds(txs: seq<Tx>) {
    forall i, j :: 0 <= i < j < |txs| ==> IdsDiffer(txs, i, j)
  }

  /** With distinct ids, the id of transaction `k` is not found below `k`. */
  lemma IdNotBelow(txs: seq<Tx>, k: nat, n: nat, h: Hash)
    requires DistinctIds(txs) && n <= k < |txs| && txs[k].id == h
    ensures !HasId(txs, 0, n, h)
  {
    forall i | 0 <= i < n ensures txs[i].id != h {
      assert IdsDiffer(txs, i, k);
    }
  }

  /** One of the transactions `lo..hi` has this id. */
  ghost predicate HasId(txs: seq<Tx>, lo: nat, hi: nat, h: Hash) {
    exists i :: lo <= i < hi && i < |txs| && txs[i].id == h
  }

  /** No coin of `u` belongs to one of the transactions. */
  ghost predicate Fresh(u: Utxos, txs: seq<Tx>) {
    forall o :: o in u ==> !HasId(txs, 0, |txs|, o.hash)
  }

  /** Adding the outputs of `tx` replaces no coin that is still unspent once its inputs are gone. */
  ghost predicate KeepsCoins(u: Utxos, tx: Tx) {
    forall o :: o in u && Creates(tx, |tx.outs|, o) ==> Refers(Spends(tx), |Spends(tx)|, o)
  }

  ghost predicate KeepsCoinsAt(u: Utxos, txs: seq<Tx>, height: int, k: nat)
    requires k < |txs|
  {
    KeepsCoins(ApplyTxs(u, txs, height, k), txs[k])
  }

  ghost predicate NoOverwrite(u: Utxos, txs: seq<Tx>, height: int, n: nat) {
    n <= |txs| && forall k :: 0 <= k < n ==> KeepsCoinsAt(u, txs, height, k)
  }

  // ----- what the single steps do, looked up one outpoint at a time -----

  lemma {:induction false} RemoveInputsLookup(u: Utxos, ins: seq<TxIn>, k: nat, o: OutPoint)
    requires k <= |ins|
    ensures o in RemoveInputs(u, ins, k) <==> o in u && !Refers(ins, k, o)
    ensures o in RemoveInputs(u, ins, k) ==> RemoveInputs(u, ins, k)[o] == u[o]
  {
    if k > 0 {
      RemoveInputsLookup(u, ins, k - 1, o);
    }
  }

  lemma {:induction false} AddOutputsLookup(u: Utxos, tx: Tx, height: int, k: nat, o: OutPoint)
    requires k <= |tx.outs|
    ensures o in AddOutputs(u, tx, height, k) <==> o in u || Creates(tx, k, o)
    ensures Creates(tx, k, o) ==> AddOutputs(u, tx, height, k)[o] == OutputCoin(tx, height, o.index)
    ensures o in u && !Creates(tx, k, o) ==> AddOutputs(u, tx, height, k)[o] == u[o]
  {
    if k > 0 {
      AddOutputsLookup(u, tx, height, k - 1, o);
    }
  }

  lemma {:induction false} RemoveOutputsLookup(u: Utxos, tx: Tx, k: nat, o: OutPoint)
    requires k <= |tx.outs|
    ensures o in RemoveOutputs(u, tx, k) <==> o in u && !Creates(tx, k, o)
    ensures o in RemoveOutputs(u, tx, k) ==> RemoveOutputs(u, tx, k)[o] == u[o]
  {
    if k > 0 {
      RemoveOutputsLookup(u, tx, k - 1, o);
    }
  }

  lemma {:induction false} RestoreOther(u: Utxos, ins: seq<TxIn>, coins: seq<Coin>, i: nat, o: OutPoint)
    requires i <= |ins| == |coins|
    requires forall j :: i <= j < |ins| ==> ins[j].prev != o
    ensures o in Restore(u, ins, coins, i) <==> o in u
    ensures o in u ==> Restore(u, ins, coins, i)[o] == u[o]
    decreases |ins| - i
  {
    if i < |ins| {
      RestoreOther(u, ins, coins, i + 1, o);
    }
  }

  lemma {:induction false} RestoreOwn(u: Utxos, ins: seq<TxIn>, coins: seq<Coin>, i: nat, m: nat)
    requires i <= m < |ins| == |coins| && DistinctInputs(ins)
    ensures ins[m].prev in Restore(u, ins, coins, i) && Restore(u, ins, coins, i)[ins[m].prev] == coins[m]
    decreases |ins| - i
  {
    if i < m {
      assert InputsDiffer(ins, i, m);
      RestoreOwn(u, ins, coins, i + 1, m);
    }
  }

  lemma {:induction false} SpentCoinsAt(u: Utxos, ins: seq<TxIn>, k: nat, m: nat)
    requires m < k <= |ins|
    ensures SpentCoins(u, ins, k)[m] == CoinAt(u, ins[m].prev)
  {
    if m < k - 1 {
      SpentCoinsAt(u, ins, k - 1, m);
    }
  }

  lemma ApplyTxLookup(u: Utxos, tx: Tx, height: int, o: OutPoint)
    ensures o in ApplyTx(u, tx, height) <==>
      Creates(tx, |tx.outs|, o) || (o in u && !Refers(Spends(tx), |Spends(tx)|, o))
    ensures Creates(tx, |tx.outs|, o) ==> ApplyTx(u, tx, height)[o] == OutputCoin(tx, height, o.index)
    ensures o in ApplyTx(u, tx, height) && !Creates(tx, |tx.outs|, o) ==> ApplyTx(u, tx, height)[o] == u[o]
  {
    RemoveInputsLookup(u, Spends(tx), |Spends(tx)|, o);
    AddOutputsLookup(RemoveInputs(u, Spends(tx), |Spends(tx)|), tx, height, |tx.outs|, o);
  }

  lemma UndoTxOther(u: Utxos, tx: Tx, coins: seq<Coin>, o: OutPoint)
    requires |coins| == |Spends(tx)| && !Refers(Spends(tx), |Spends(tx)|, o)
    ensures o in UndoTx(u, tx, coins) <==> o in u && !Creates(tx, |tx.outs|, o)
    ensures o in UndoTx(u, tx, coins) ==> UndoTx(u, tx, coins)[o] == u[o]
  {
    RemoveOutputsLookup(u, tx, |tx.outs|, o);
    RestoreOther(RemoveOutputs(u, tx, |tx.outs|), Spends(tx), coins, 0, o);
  }

  // ----- undoing a block -----

  lemma UndoTxExact(u: Utxos, tx: Tx, height: int)
    requires Spendable(u, tx) && KeepsCoins(u, tx)
    ensures UndoTx(ApplyTx(u, tx, height), tx, SpentCoins(u, Spends(tx), |Spends(tx)|)) == u
  {
    var ins := Spends(tx);
    var coins := SpentCoins(u, ins, |ins|);
    var r := UndoTx(ApplyTx(u, tx, height), tx, coins);
    forall o ensures (o in r <==> o in u) && (o in u ==> r[o] == u[o]) {
      ApplyTxLookup(u, tx, height, o);
      if Refers(ins, |ins|, o) {
        var m :| 0 <= m < |ins| && ins[m].prev == o;
        RestoreOwn(RemoveOutputs(ApplyTx(u, tx, height), tx, |tx.outs|), ins, coins, 0, m);
        SpentCoinsAt(u, ins, |ins|, m);
      } else {
        UndoTxOther(ApplyTx(u, tx, height), tx, coins, o);
      }
    }
  }

  /** A coin missing from the state stays missing while transactions that do not spend it are undone. */
  lemma {:induction false} UndoKeepsMissing(u: Utxos, txs: seq<Tx>, journal: seq<Coin>, k: nat, o: OutPoint)
    requires k <= |txs| && SpendCount(txs, k) <= |journal|
    requires o !in u
    requires forall i :: 0 <= i < k ==> !Refers(Spends(txs[i]), |Spends(txs[i])|, o)
    ensures o !in UndoTxs(u, txs, journal, k)
    decreases k
  {
    if k > 0 {
      UndoTxOther(u, txs[k-1], Records(txs, journal, k - 1), o);
      UndoKeepsMissing(UndoTx(u, txs[k-1], Records(txs, journal, k - 1)), txs, journal, k - 1, o);
    }
  }

  /** A coin that none of the first `k` transactions created was there before and was not spent. */
  lemma {:induction false} OldCoinUntouched(u: Utxos, txs: seq<Tx>, height: int, k: nat, o: OutPoint)
    requires k <= |txs| && o in ApplyTxs(u, txs, height, k) && !HasId(txs, 0, k, o.hash)
    ensures o in u && ApplyTxs(u, txs, height, k)[o] == u[o]
    ensures forall i :: 0 <= i < k ==> !Refers(Spends(txs[i]), |Spends(txs[i])|, o)
  {
    if k > 0 {
      ApplyTxLookup(ApplyTxs(u, txs, height, k - 1), txs[k-1], height, o);
      OldCoinUntouched(u, txs, height, k - 1, o);
    }
  }

  lemma {:induction false} SpendCountGrows(txs: seq<Tx>, k: nat, n: nat)
    requires k <= n <= |txs|
    ensures SpendCount(txs, k) <= SpendCount(txs, n)
  {
    if k < n {
      SpendCountGrows(txs, k, n - 1);
    }
  }

  ghost predicate RecordsMatch(u: Utxos, txs: seq<Tx>, height: int, journal: seq<Coin>, i: nat)
    requires i < |txs|
  {
    SpendCount(txs, i + 1) <= |journal| && Records(txs, journal, i) == SpentAt(u, txs, height, i)
  }

  /** The journal holds, transaction by transaction, the coins the first `n` transactions spend. */
  ghost predicate IsJournal(u: Utxos, txs: seq<Tx>, height: int, journal: seq<Coin>, n: nat) {
    n <= |txs| && SpendCount(txs, n) <= |journal| && forall i :: 0 <= i < n ==> RecordsMatch(u, txs, height, journal, i)
  }

  lemma RecordsAppend(txs: seq<Tx>, journal: seq<Coin>, tail: seq<Coin>, i: nat)
    requires i < |txs| && SpendCount(txs, i + 1) <= |journal|
    ensures Records(txs, journal + tail, i) == Records(txs, journal, i)
  {
  }

  lemma MatchGrows(u: Utxos, txs: seq<Tx>, height: int, init: seq<Coin>, tail: seq<Coin>, i: nat)
    requires i < |txs| && RecordsMatch(u, txs, height, init, i)
    ensures RecordsMatch(u, txs, height, init + tail, i)
  {
    hide SpentAt;
    RecordsAppend(txs, init, tail, i);
  }

  lemma LastMatches(u: Utxos, txs: seq<Tx>, height: int, init: seq<Coin>, k: nat)
    requires k < |txs| && |init| == SpendCount(txs, k)
    ensures RecordsMatch(u, txs, height, init + SpentAt(u, txs, height, k), k)
    ensures SpendCount(txs, k + 1) == |init + SpentAt(u, txs, height, k)|
  {
    hide SpentAt;
  }

  lemma {:induction false} JournalIsJournal(u: Utxos, txs: seq<Tx>, height: int, n: nat)
    requires n <= |txs|
    ensures IsJournal(u, txs, height, Journal(u, txs, height, n), n)
  {
    if n > 0 {
      hide RecordsMatch, SpentAt, SpendCount;
      JournalIsJournal(u, txs, height, n - 1);
      var init, tail := Journal(u, txs, height, n - 1), SpentAt(u, txs, height, n - 1);
      LastMatches(u, txs, height, init, n - 1);
      forall i | 0 <= i < n ensures RecordsMatch(u, txs, height, init + tail, i) {
        if i < n - 1 {
          MatchGrows(u, txs, height, init, tail, i);
        }
      }
    }
  }

  /** Transaction `tx` of a block and one of its inputs. */
  datatype Spend = Spend(tx: nat, input: nat)

  function TxSpends(txs: seq<Tx>, t: nat, j: nat): (s: seq<Spend>)
    requires t < |txs| && j <= |txs[t].ins|
    ensures |s| == j && forall i :: 0 <= i < j ==> s[i] == Spend(t, i)
  {
    seq(j, i requires 0 <= i < j => Spend(t, i))
  }

  /** What the first `k` transactions spend, in order; a coinbase spends nothing. */
  function AllSpends(txs: seq<Tx>, k: nat): seq<Spend>
    requires k <= |txs|
  {
    if k == 0 then []
    else if |txs[k-1].ins| == 1 && txs[k-1].ins[0].prev == OutPoint(0, 0xFFFF_FFFF) then AllSpends(txs, k - 1)
    else AllSpends(txs, k - 1) + TxSpends(txs, k - 1, |txs[k-1].ins|)
  }

  /** The journal lists the coin that each input finds, input by input and transaction by transaction. */
  lemma {:induction false} JournalInOrder(u: Utxos, txs: seq<Tx>, height: int, k: nat)
    requires k <= |txs|
    ensures |Journal(u, txs, height, k)| == |AllSpends(txs, k)|
    ensures forall p :: 0 <= p < |AllSpends(txs, k)| ==> SpendsAt(u, txs, height, k, p)
  {
    if k > 0 {
      hide ApplyTxs, SpentAt, SpendsAt;
      JournalInOrder(u, txs, height, k - 1);
      forall p | 0 <= p < |AllSpends(txs, k)| ensures SpendsAt(u, txs, height, k, p) {
        if p < |AllSpends(txs, k - 1)| {
          EarlierSpend(u, txs, height, k - 1, p);
        } else {
          NewSpend(u, txs, height, k - 1, p);
        }
      }
    }
  }

  lemma EarlierSpend(u: Utxos, txs: seq<Tx>, height: int, k: nat, p: nat)
    requires k < |txs| && p < |AllSpends(txs, k)| && SpendsAt(u, txs, height, k, p)
    ensures p < |AllSpends(txs, k + 1)| && SpendsAt(u, txs, height, k + 1, p)
  {
    hide ApplyTxs, SpentAt;
  }

  lemma NewSpend(u: Utxos, txs: seq<Tx>, height: int, k: nat, p: nat)
    requires k < |txs| && |AllSpends(txs, k)| == |Journal(u, txs, height, k)| <= p < |AllSpends(txs, k + 1)|
    ensures SpendsAt(u, txs, height, k + 1, p)
  {
    hide ApplyTxs;
    var n := |AllSpends(txs, k)|;
    SpentCoinsAt(ApplyTxs(u, txs, height, k), Spends(txs[k]), |Spends(txs[k])|, p - n);
  }

  ghost predicate SpendsAt(u: Utxos, txs: seq<Tx>, height: int, k: nat, p: nat)
    requires k <= |txs| && p < |AllSpends(txs, k)|
  {
    var s := AllSpends(txs, k)[p];
    p < |Journal(u, txs, height, k)| && s.tx < k && s.input < |txs[s.tx].ins| &&
    var o := txs[s.tx].ins[s.input].prev;
    o in ApplyTxs(u, txs, height, s.tx) ==> Journal(u, txs, height, k)[p] == ApplyTxs(u, txs, height, s.tx)[o]
  }

  lemma {:induction false} UndoRestores(u: Utxos, txs: seq<Tx>, height: int, journal: seq<Coin>, k: nat)
    requires IsJournal(u, txs, height, journal, k)
    requires AllSpendable(u, txs, height, k) && NoOverwrite(u, txs, height, k)
    ensures UndoTxs(ApplyTxs(u, txs, height, k), txs, journal, k) == u
  {
    if k > 0 {
      assert RecordsMatch(u, txs, height, journal, k - 1);
      assert SpendableAt(u, txs, height, k - 1) && KeepsCoinsAt(u, txs, height, k - 1);
      UndoTxExact(ApplyTxs(u, txs, height, k - 1), txs[k-1], height);
      UndoRestores(u, txs, height, journal, k - 1);
    }
  }

  /** A coin that transaction `k - 1` overwrote is gone for good once the block is undone. */
  lemma OverwrittenStaysLost(u: Utxos, txs: seq<Tx>, height: int, journal: seq<Coin>, k: nat, o: OutPoint)
    requires 0 < k <= |txs| && SpendCount(txs, k) <= |journal| && DistinctIds(txs)
    requires o in ApplyTxs(u, txs, height, k - 1) && Creates(txs[k-1], |txs[k-1].outs|, o)
    requires !Refers(Spends(txs[k-1]), |Spends(txs[k-1])|, o)
    ensures o in u && o !in UndoTxs(ApplyTxs(u, txs, height, k), txs, journal, k)
  {
    var after, coins := ApplyTxs(u, txs, height, k), Records(txs, journal, k - 1);
    UndoTxOther(after, txs[k-1], coins, o);
    IdNotBelow(txs, k - 1, k - 1, o.hash);
    OldCoinUntouched(u, txs, height, k - 1, o);
    UndoKeepsMissing(UndoTx(after, txs[k-1], coins), txs, journal, k - 1, o);
  }

  lemma {:induction false} OverwriteIsLost(u: Utxos, txs: seq<Tx>, height: int, journal: seq<Coin>, k: nat)
    requires k <= |txs| && IsJournal(u, txs, height, journal, k)
    requires DistinctIds(txs) && AllSpendable(u, txs, height, k) && !NoOverwrite(u, txs, height, k)
    ensures UndoTxs(ApplyTxs(u, txs, height, k), txs, journal, k) != u
  {
    if KeepsCoinsAt(u, txs, height, k - 1) {
      assert RecordsMatch(u, txs, height, journal, k - 1) && SpendableAt(u, txs, height, k - 1);
      UndoTxExact(ApplyTxs(u, txs, height, k - 1), txs[k-1], height);
      OverwriteIsLost(u, txs, height, journal, k - 1);
    } else {
      var tx := txs[k-1];
      var o :| o in ApplyTxs(u, txs, height, k - 1) && Creates(tx, |tx.outs|, o) && !Refers(Spends(tx), |Spends(tx)|, o);
      OverwrittenStaysLost(u, txs, height, journal, k, o);
    }
  }

  /**
   Replaying the journal backwards restores the unspent set exactly, including outputs created and spent
   inside the same block, if and only if no transaction overwrote a coin that was still unspent.
   */
  lemma UndoExactIff(u: Utxos, txs: seq<Tx>, height: int)
    requires DistinctIds(txs) && AllSpendable(u, txs, height, |txs|)
    ensures UndoTxs(ApplyTxs(u, txs, height, |txs|), txs, Journal(u, txs, height, |txs|), |txs|) == u
      <==> NoOverwrite(u, txs, height, |txs|)
  {
    var journal := Journal(u, txs, height, |txs|);
    JournalIsJournal(u, txs, height, |txs|);
    if NoOverwrite(u, txs, height, |txs|) {
      UndoRestores(u, txs, height, journal, |txs|);
    } else {
      OverwriteIsLost(u, txs, height, journal, |txs|);
    }
  }

  /** Fresh transaction ids rule out overwriting, whatever the transactions spend. */
  lemma FreshNeverOverwrites(u: Utxos, txs: seq<Tx>, height: int)
    requires DistinctIds(txs) && Fresh(u, txs)
    ensures NoOverwrite(u, txs, height, |txs|)
  {
    forall k | 0 <= k < |txs| ensures KeepsCoinsAt(u, txs, height, k) {
      forall o | o in ApplyTxs(u, txs, height, k) && Creates(txs[k], |txs[k].outs|, o) ensures false {
        assert HasId(txs, 0, |txs|, o.hash);
        IdNotBelow(txs, k, k, o.hash);
        OldCoinUntouched(u, txs, height, k, o);
      }
    }
  }

  /** An input that is available names a coin of the old set or an output of an earlier transaction. */
  lemma AvailableIsEarlier(u: Utxos, txs: seq<Tx>, height: int, k: nat, o: OutPoint)
    requires k <= |txs| && DistinctIds(txs) && Fresh(u, txs)
    requires o in ApplyTxs(u, txs, height, k)
    ensures !HasId(txs, k, |txs|, o.hash)
  {
    if HasId(txs, k, |txs|, o.hash) {
      var j :| k <= j < |txs| && txs[j].id == o.hash;
      assert HasId(txs, 0, |txs|, o.hash);
      IdNotBelow(txs, j, k, o.hash);
      OldCoinUntouched(u, txs, height, k, o);
    }
  }

  ghost predicate PositiveHeights(u: Utxos) {
    forall o :: o in u ==> u[o].height > 0
  }

  /** Heights recorded in coins stay positive when a block above the genesis block is applied. */
  lemma {:induction false} HeightsStayPositive(u: Utxos, txs: seq<Tx>, height: int, k: nat)
    requires PositiveHeights(u) && height > 0 && k <= |txs|
    ensures PositiveHeights(ApplyTxs(u, txs, height, k))
  {
    if k > 0 {
      HeightsStayPositive(u, txs, height, k - 1);
      forall o | o in ApplyTxs(u, txs, height, k) ensures ApplyTxs(u, txs, height, k)[o].height > 0 {
        ApplyTxLookup(ApplyTxs(u, txs, height, k - 1), txs[k-1], height, o);
      }
    }
  }

  lemma {:induction false} JournalHeightsPositive(u: Utxos, txs: seq<Tx>, height: int, k: nat)
    requires PositiveHeights(u) && height > 0 && AllSpendable(u, txs, height, k)
    ensures forall i :: 0 <= i < SpendCount(txs, k) ==> Journal(u, txs, height, k)[i].height > 0
  {
    if k > 0 {
      JournalHeightsPositive(u, txs, height, k - 1);
      assert SpendableAt(u, txs, height, k - 1);
      HeightsStayPositive(u, txs, height, k - 1);
      var ins := Spends(txs[k-1]);
      var spent := SpentAt(u, txs, height, k - 1);
      forall m | 0 <= m < |ins| ensures spent[m].height > 0 {
        SpentCoinsAt(ApplyTxs(u, txs, height, k - 1), ins, |ins|, m);
      }
    }
  }

  /**
   Without fresh ids the undo can fail: a block whose only transaction repeats the id of an unspent
   output replaces that output, and undoing the block then loses it.
   */
  lemma OverwriteWitness(cb: Tx, prior: Coin, height: int)
    requires IsCoinBase(cb) && |cb.outs| > 0 && !cb.outs[0].unspendable
    ensures var u := map[OutPoint(cb.id, 0) := prior];
      AllSpendable(u, [cb], height, 1) && !NoOverwrite(u, [cb], height, 1) &&
      UndoTxs(ApplyTxs(u, [cb], height, 1), [cb], Journal(u, [cb], height, 1), 1) != u
  {
    var u := map[OutPoint(cb.id, 0) := prior];
    assert !KeepsCoinsAt(u, [cb], height, 0) by {
      assert Creates(cb, |cb.outs|, OutPoint(cb.id, 0)) && OutPoint(cb.id, 0) in u;
      assert ApplyTxs(u, [cb], height, 0) == u;
    }
    UndoExactIff(u, [cb], height);
  }
}
