/** Where the coins of a chain come from, and when its blocks may spend them. */
module Origin {
  import opened Wire
  import opened Ledger
  import opened Money
  import opened Validate
  import opened Chain

  /** Transaction `k` of block `i` has an output `o` that can be spent, and `c` is what it says, at height `i`. */
  ghost predicate MadeBy(chain: seq<Block>, i: nat, k: nat, o: OutPoint, c: Coin) {
    0 < i < |chain| && k < |chain[i].txs| &&
    var t := chain[i].txs[k];
    t.id == o.hash && o.index < |t.outs| && !t.outs[o.index].unspendable &&
    c.amount == t.outs[o.index].value && c.script == t.outs[o.index].script && c.height == i &&
    (c.coinbase <==> |t.ins| == 1 && t.ins[0].prev == OutPoint(0, 0xFFFF_FFFF))
  }

  /** An input of transaction `k` of block `i`, which is no coinbase, names `o`. */
  ghost predicate NamedBy(chain: seq<Block>, i: nat, k: nat, o: OutPoint) {
    0 < i < |chain| && k < |chain[i].txs| &&
    var t := chain[i].txs[k];
    !(|t.ins| == 1 && t.ins[0].prev == OutPoint(0, 0xFFFF_FFFF)) && exists m :: 0 <= m < |t.ins| && t.ins[m].prev == o
  }

  /** Transaction `k` of block `i` comes before transaction `m` of block `n`. */
  predicate Before(i: nat, k: nat, n: nat, m: nat) {
    i < n || (i == n && k < m)
  }

  /** Made by transaction `k` of block `i`, and named by none between there and transaction `m` of block `n`. */
  ghost predicate UnspentSince(chain: seq<Block>, i: nat, k: nat, n: nat, m: nat, o: OutPoint, c: Coin) {
    MadeBy(chain, i, k, o, c) && Before(i, k, n, m) &&
    forall j: nat, l: nat :: NamedBy(chain, j, l, o) && Before(i, k, j, l) ==> !Before(j, l, n, m)
  }

  ghost predicate HasOrigin(chain: seq<Block>, n: nat, m: nat, o: OutPoint, c: Coin) {
    exists i: nat, k: nat :: UnspentSince(chain, i, k, n, m, o, c)
  }

  /** The unspent set before transaction `m` of block `n`. */
  function SetAt(chain: seq<Block>, n: nat, m: nat): Utxos
    requires 0 < n < |chain| && m <= |chain[n].txs|
  {
    ApplyTxs(UtxosOf(chain, n), chain[n].txs, chain[n].height, m)
  }

  /** What one more transaction does to one output. */
  lemma SetStep(chain: seq<Block>, genesis: Hash, n: nat, m: nat, o: OutPoint)
    requires Linked(chain, genesis) && 0 < n < |chain| && m < |chain[n].txs|
    ensures o in SetAt(chain, n, m + 1) <==>
      (exists c :: MadeBy(chain, n, m, o, c)) || (o in SetAt(chain, n, m) && !NamedBy(chain, n, m, o))
    ensures o in SetAt(chain, n, m + 1) ==>
      MadeBy(chain, n, m, o, SetAt(chain, n, m + 1)[o]) ||
      (o in SetAt(chain, n, m) && !NamedBy(chain, n, m, o) && SetAt(chain, n, m + 1)[o] == SetAt(chain, n, m)[o])
  {
    hide UtxosOf, ApplyTx;
    var t := chain[n].txs[m];
    assert LinkedAt(chain, n);
    ApplyTxLookup(SetAt(chain, n, m), t, chain[n].height, o);
    assert Refers(Spends(t), |Spends(t)|, o) <==> NamedBy(chain, n, m, o);
    if Creates(t, |t.outs|, o) {
      assert MadeBy(chain, n, m, o, OutputCoin(t, chain[n].height, o.index));
    }
  }

  /** The end of a block is the beginning of the next. */
  lemma SameOrigin(chain: seq<Block>, n: nat, o: OutPoint, c: Coin)
    requires 0 < n < |chain|
    ensures HasOrigin(chain, n, |chain[n].txs|, o, c) <==> HasOrigin(chain, n + 1, 0, o, c)
  {
    var l := |chain[n].txs|;
    assert forall i: nat, k: nat :: i < |chain| && k < |chain[i].txs| ==> (Before(i, k, n, l) <==> Before(i, k, n + 1, 0));
    if i: nat, k: nat :| UnspentSince(chain, i, k, n, l, o, c) {
      assert UnspentSince(chain, i, k, n + 1, 0, o, c);
    }
    var next := n + 1;
    if i: nat, k: nat :| UnspentSince(chain, i, k, next, 0, o, c) {
      assert UnspentSince(chain, i, k, n, l, o, c);
    }
  }

  /** One more transaction: what it makes has its origin there, what it names has none, the rest keeps its own. */
  lemma OriginStep(chain: seq<Block>, n: nat, m: nat, o: OutPoint, c: Coin)
    requires 0 < n < |chain| && m < |chain[n].txs|
    ensures MadeBy(chain, n, m, o, c) ==> HasOrigin(chain, n, m + 1, o, c)
    ensures HasOrigin(chain, n, m, o, c) && !NamedBy(chain, n, m, o) ==> HasOrigin(chain, n, m + 1, o, c)
    ensures HasOrigin(chain, n, m + 1, o, c) ==> MadeBy(chain, n, m, o, c) || (HasOrigin(chain, n, m, o, c) && !NamedBy(chain, n, m, o))
  {
    hide MadeBy, NamedBy;
    if MadeBy(chain, n, m, o, c) {
      assert UnspentSince(chain, n, m, n, m + 1, o, c);
    }
    if HasOrigin(chain, n, m, o, c) && !NamedBy(chain, n, m, o) {
      var i: nat, k: nat :| UnspentSince(chain, i, k, n, m, o, c);
      assert UnspentSince(chain, i, k, n, m + 1, o, c);
    }
    if HasOrigin(chain, n, m + 1, o, c) && !MadeBy(chain, n, m, o, c) {
      var i: nat, k: nat :| UnspentSince(chain, i, k, n, m + 1, o, c);
      assert UnspentSince(chain, i, k, n, m, o, c);
    }
  }

  /** Every coin has an origin that says what it is ... */
  lemma {:induction false} CoinHasOrigin(chain: seq<Block>, genesis: Hash, n: nat, m: nat, o: OutPoint)
    requires Linked(chain, genesis) && 0 < n < |chain| && m <= |chain[n].txs| && o in SetAt(chain, n, m)
    ensures HasOrigin(chain, n, m, o, SetAt(chain, n, m)[o])
    decreases n, m
  {
    hide MadeBy, NamedBy, HasOrigin;
    var c := SetAt(chain, n, m)[o];
    if m > 0 {
      SetStep(chain, genesis, n, m - 1, o);
      OriginStep(chain, n, m - 1, o, c);
      if !MadeBy(chain, n, m - 1, o, c) {
        CoinHasOrigin(chain, genesis, n, m - 1, o);
      }
    } else if n > 1 {
      assert SetAt(chain, n, 0) == SetAt(chain, n - 1, |chain[n-1].txs|);
      CoinHasOrigin(chain, genesis, n - 1, |chain[n-1].txs|, o);
      SameOrigin(chain, n - 1, o, c);
    } else {
      NothingMade(chain, o);
    }
  }

  /** ... and what has an origin is there. */
  lemma {:induction false} OriginIsThere(chain: seq<Block>, genesis: Hash, n: nat, m: nat, o: OutPoint, c: Coin)
    requires Linked(chain, genesis) && 0 < n < |chain| && m <= |chain[n].txs| && HasOrigin(chain, n, m, o, c)
    ensures o in SetAt(chain, n, m)
    decreases n, m
  {
    hide MadeBy, NamedBy, HasOrigin;
    if m > 0 {
      SetStep(chain, genesis, n, m - 1, o);
      OriginStep(chain, n, m - 1, o, c);
      if !MadeBy(chain, n, m - 1, o, c) {
        OriginIsThere(chain, genesis, n, m - 1, o, c);
      }
    } else if n > 1 {
      assert SetAt(chain, n, 0) == SetAt(chain, n - 1, |chain[n-1].txs|);
      SameOrigin(chain, n - 1, o, c);
      OriginIsThere(chain, genesis, n - 1, |chain[n-1].txs|, o, c);
    } else {
      NothingMade(chain, o);
    }
  }

  lemma NothingMade(chain: seq<Block>, o: OutPoint)
    requires 1 < |chain|
    ensures SetAt(chain, 1, 0) == map[] && forall c :: !HasOrigin(chain, 1, 0, o, c)
  {
  }

  /**
   The unspent set after the first `n` blocks: an output is in it if and only if some transaction made it and none
   named it since, and then the coin has the amount and script of that output, the height of its block, and the
   coinbase flag exactly when that transaction is a coinbase.
   */
  lemma CoinOrigin(chain: seq<Block>, genesis: Hash, n: nat, o: OutPoint)
    requires Linked(chain, genesis) && 1 < n <= |chain|
    ensures o in UtxosOf(chain, n) <==> exists i: nat, k: nat, c :: UnspentSince(chain, i, k, n, 0, o, c)
    ensures o in UtxosOf(chain, n) ==> exists i: nat, k: nat :: UnspentSince(chain, i, k, n, 0, o, UtxosOf(chain, n)[o])
  {
    hide MadeBy, NamedBy, UnspentSince;
    var l := |chain[n-1].txs|;
    assert UtxosOf(chain, n) == SetAt(chain, n - 1, l);
    if o in UtxosOf(chain, n) {
      CoinHasOrigin(chain, genesis, n - 1, l, o);
      SameOrigin(chain, n - 1, o, UtxosOf(chain, n)[o]);
    }
    if i: nat, k: nat, c :| UnspentSince(chain, i, k, n, 0, o, c) {
      SameOrigin(chain, n - 1, o, c);
      OriginIsThere(chain, genesis, n - 1, l, o, c);
    }
  }

  lemma MoreThanGenesis(chain: seq<Block>, o: OutPoint)
    requires |chain| > 0 && o in UtxosOf(chain, |chain|)
    ensures |chain| > 1
  {
  }

  // ----- maturity -----

  /**
   In a chain whose blocks satisfy the rules, whatever a transaction spends was made before it, was not spent since,
   and was made at least `maturity` blocks earlier if a coinbase made it.
   */
  lemma SpendsMature(chain: seq<Block>, rules: Rules, n: nat, k: nat, o: OutPoint)
    requires ChainOk(chain, rules) && NamedBy(chain, n, k, o)
    ensures exists i: nat, t: nat, c :: UnspentSince(chain, i, t, n, k, o, c) && (c.coinbase ==> n - i >= rules.maturity)
  {
    hide UtxosOf, UnspentSince;
    var tx := chain[n].txs[k];
    assert ConnectableAt(chain, rules, n) && LinkedAt(chain, n);
    assert InputsOkAt(UtxosOf(chain, n), chain[n].txs, chain[n].height, rules.maturity, k);
    assert SetAt(chain, n, k) == ApplyTxs(UtxosOf(chain, n), chain[n].txs, chain[n].height, k);
    var m :| 0 <= m < |tx.ins| && tx.ins[m].prev == o;
    assert InputOk(SetAt(chain, n, k), tx.ins[m].prev, chain[n].height, rules.maturity);
    CoinHasOrigin(chain, rules.genesis, n, k, o);
    var i: nat, t: nat :| UnspentSince(chain, i, t, n, k, o, SetAt(chain, n, k)[o]);
    OriginHeight(chain, i, t, n, k, o, SetAt(chain, n, k)[o]);
  }

  lemma OriginHeight(chain: seq<Block>, i: nat, t: nat, n: nat, k: nat, o: OutPoint, c: Coin)
    requires UnspentSince(chain, i, t, n, k, o, c)
    ensures c.height == i && MadeBy(chain, i, t, o, c)
  {
  }

  /** No two transactions of the chain above genesis have the same id. */
  ghost predicate AllIdsDiffer(chain: seq<Block>) {
    forall i: nat, k: nat, j: nat, m: nat ::
      0 < i < |chain| && k < |chain[i].txs| && 0 < j < |chain| && m < |chain[j].txs| && chain[i].txs[k].id == chain[j].txs[m].id ==>
      i == j && k == m
  }

  /** With distinct ids, no transaction of block `n` spends an output of a coinbase less than `maturity` blocks below. */
  lemma NoImmatureSpend(chain: seq<Block>, rules: Rules, n: nat, k: nat, i: nat, t: nat, m: nat)
    requires ChainOk(chain, rules) && AllIdsDiffer(chain) && 0 < n < |chain| && k < |chain[n].txs|
    requires 0 < i < |chain| && t < |chain[i].txs| && |chain[i].txs[t].ins| == 1 && chain[i].txs[t].ins[0].prev == OutPoint(0, 0xFFFF_FFFF)
    requires m < |chain[n].txs[k].ins| && chain[n].txs[k].ins[m].prev.hash == chain[i].txs[t].id
    ensures n - i >= rules.maturity || (|chain[n].txs[k].ins| == 1 && chain[n].txs[k].ins[0].prev == OutPoint(0, 0xFFFF_FFFF))
  {
    hide ChainOk, UnspentSince;
    var o := chain[n].txs[k].ins[m].prev;
    if NamedBy(chain, n, k, o) {
      SpendsMature(chain, rules, n, k, o);
      var j: nat, s: nat, c :| UnspentSince(chain, j, s, n, k, o, c) && (c.coinbase ==> n - j >= rules.maturity);
      OriginHeight(chain, j, s, n, k, o, c);
    }
  }
}
