/** The mutable overlay of pkg/blockchain/utxoviewpoint.go, proved against the functions of UtxoView. */
module Viewpoint {
  import opened Wire
  import opened Ledger
  import opened UtxoView
  import opened Fetch
  import opened Legacy

  /** `stuck` is the input whose record could not be completed. */
  datatype Disconnected = WrongCount | Finished(stuck: Option<OutPoint>)

  /** Output `i` is the first of the transaction with an entry. */
  ghost predicate IsFirstEntry(v: Entries, h: Hash, i: nat) {
    OutPoint(h, i) in v && v[OutPoint(h, i)].Some? && forall j: nat :: j < i ==> OutPoint(h, j) !in v || v[OutPoint(h, j)].None?
  }

  class UtxoViewpoint {
    var entries: Entries
    var bestHash: Hash

    constructor (best: Hash)
      ensures entries == map[] && bestHash == best
    {
      entries := map[];
      bestHash := best;
    }

    method AddTxOut(o: OutPoint, out: TxOut, isCoinBase: bool, height: int)
      modifies this`entries
      ensures entries == if out.unspendable then old(entries)
        else old(entries)[o := Some(Entry(Coin(out.value, out.script, height, isCoinBase), false, true))]
    {
      if out.unspendable {
        return;
      }
      entries := entries[o := Some(Entry(Coin(out.value, out.script, height, isCoinBase), false, true))];
    }

    method AddTxOuts(tx: Tx, height: int)
      modifies this`entries
      ensures entries == AddEntries(old(entries), tx, height, |tx.outs|)
    {
      var i := 0;
      while i < |tx.outs|
        invariant 0 <= i <= |tx.outs|
        invariant entries == AddEntries(old(entries), tx, height, i)
      {
        AddTxOut(OutPoint(tx.id, i), tx.outs[i], IsCoinBase(tx), height);
        i := i + 1;
      }
    }

    /** Returns the first input the view has no entry for, if any. */
    method ConnectTransaction(tx: Tx, height: int, stxos: seq<Coin>) returns (missing: Option<OutPoint>, out: seq<Coin>)
      modifies this`entries
      ensures missing.None? <==> Present(old(entries), Spends(tx))
      ensures missing.None? ==> entries == ConnectTx(old(entries), tx, height)
      ensures missing.None? ==> out == stxos + EntryCoins(old(entries), Spends(tx), |Spends(tx)|)
      ensures missing.Some? ==>
        exists i: nat :: FirstMissing(old(entries), Spends(tx), i) && missing.value == Spends(tx)[i].prev
          && entries == SpendEntries(old(entries), Spends(tx), i) && out == stxos + EntryCoins(old(entries), Spends(tx), i)
    {
      out := stxos;
      if IsCoinBase(tx) {
        AddTxOuts(tx, height);
        return None, out;
      }
      var i := 0;
      while i < |tx.ins|
        invariant 0 <= i <= |tx.ins|
        invariant forall j :: 0 <= j < i ==> tx.ins[j].prev in old(entries) && old(entries)[tx.ins[j].prev].Some?
        invariant entries == SpendEntries(old(entries), tx.ins, i)
        invariant out == stxos + EntryCoins(old(entries), tx.ins, i)
      {
        var o := tx.ins[i].prev;
        SpendKeepsRecords(old(entries), tx.ins, i, o);
        if o !in entries || entries[o].None? {
          assert FirstMissing(old(entries), tx.ins, i);
          return Some(o), out;
        }
        out := out + [entries[o].value.coin];
        entries := entries[o := Some(entries[o].value.Spend())];
        i := i + 1;
      }
      AddTxOuts(tx, height);
      missing := None;
    }

    method ConnectTransactions(b: Block, stxos: seq<Coin>) returns (missing: Option<OutPoint>, out: seq<Coin>)
      modifies this
      ensures missing.None? <==> AllPresent(old(entries), b.txs, b.height, |b.txs|)
      ensures missing.None? ==> entries == ConnectTxs(old(entries), b.txs, b.height, |b.txs|) && bestHash == b.hash
      ensures missing.None? ==> out == stxos + ConnectCoins(old(entries), b.txs, b.height, |b.txs|)
      ensures missing.Some? ==> bestHash == old(bestHash)
      ensures missing.Some? ==>
        exists k: nat, i: nat :: StopsAt(old(entries), b.txs, b.height, k, i) && missing.value == Spends(b.txs[k])[i].prev
          && entries == SpendEntries(ConnectTxs(old(entries), b.txs, b.height, k), Spends(b.txs[k]), i)
          && out == stxos + ConnectCoins(old(entries), b.txs, b.height, k) + EntryCoins(ConnectTxs(old(entries), b.txs, b.height, k), Spends(b.txs[k]), i)
    {
      out := stxos;
      var k := 0;
      while k < |b.txs|
        invariant 0 <= k <= |b.txs| && bestHash == old(bestHash)
        invariant AllPresent(old(entries), b.txs, b.height, k)
        invariant entries == ConnectTxs(old(entries), b.txs, b.height, k)
        invariant out == stxos + ConnectCoins(old(entries), b.txs, b.height, k)
      {
        missing, out := ConnectTransaction(b.txs[k], b.height, out);
        if missing.Some? {
          ghost var i: nat :| FirstMissing(ConnectTxs(old(entries), b.txs, b.height, k), Spends(b.txs[k]), i)
            && missing.value == Spends(b.txs[k])[i].prev
            && entries == SpendEntries(ConnectTxs(old(entries), b.txs, b.height, k), Spends(b.txs[k]), i)
            && out == stxos + ConnectCoins(old(entries), b.txs, b.height, k) + EntryCoins(ConnectTxs(old(entries), b.txs, b.height, k), Spends(b.txs[k]), i);
          assert StopsAt(old(entries), b.txs, b.height, k, i);
          MissingStays(old(entries), b.txs, b.height, k, |b.txs|);
          return;
        }
        ConnectCoinsStep(old(entries), b.txs, b.height, k, stxos);
        k := k + 1;
      }
      missing := None;
      bestHash := b.hash;
    }

    method RemoveOwnOutputs(tx: Tx, height: int)
      modifies this`entries
      ensures entries == RemoveEntries(old(entries), tx, height, |tx.outs|)
    {
      var i := 0;
      while i < |tx.outs|
        invariant 0 <= i <= |tx.outs|
        invariant entries == RemoveEntries(old(entries), tx, height, i)
      {
        if !tx.outs[i].unspendable {
          var o := OutPoint(tx.id, i);
          entries := entries[o := Some(Created(entries, tx, height, o).Spend())];
        }
        i := i + 1;
      }
    }

    /** The first entry of a transaction in the view, or else what the database has of it. */
    method FetchEntryByHash(db: Utxos, find: Finder, h: Hash) returns (found: Option<Coin>)
      ensures found == ByHash(entries, db, find, h)
      ensures forall i: nat :: i < 111_111 && IsFirstEntry(entries, h, i) ==> found == Some(entries[OutPoint(h, i)].value.coin)
      ensures (forall j: nat :: j < 111_111 ==> OutPoint(h, j) !in entries || entries[OutPoint(h, j)].None?) ==> found == find(db, h)
    {
      var i := 0;
      while i < MAX_OUTPUTS
        invariant 0 <= i <= MAX_OUTPUTS && EntryFrom(entries, h, 0) == EntryFrom(entries, h, i)
        invariant forall j: nat :: j < i ==> OutPoint(h, j) !in entries || entries[OutPoint(h, j)].None?
      {
        var o := OutPoint(h, i);
        if o in entries && entries[o].Some? {
          return Some(entries[o].value.coin);
        }
        i := i + 1;
      }
      found := find(db, h);
    }

    /**
     Puts the records back under the inputs of transaction `id`, walking both backwards.  Returns the input at
     which a record without height could not be completed, if any.
     */
    method RestoreInputs(db: Utxos, find: Finder, id: Hash, ins: seq<TxIn>, coins: seq<Coin>) returns (stuck: Option<OutPoint>)
      requires |ins| == |coins|
      modifies this`entries
      ensures Undoing(entries, stuck) == RestoreFrom(old(entries), db, find, id, ins, coins, 0)
    {
      var i := |ins|;
      while i > 0
        invariant 0 <= i <= |ins|
        invariant Undoing(entries, None) == RestoreFrom(old(entries), db, find, id, ins, coins, i)
      {
        i := i - 1;
        ghost var was := entries;
        var o, c := ins[i].prev, coins[i];
        if o !in entries || entries[o].None? {
          entries := entries[o := Some(Entry(NO_COIN, false, false))];
        }
        assert entries == Touch(was, o);
        if c.height == 0 {
          var found := FetchEntryByHash(db, find, id);
          if found.None? {
            StuckStaysDown(old(entries), db, find, id, ins, coins, i);
            return Some(o);
          }
          c := Coin(c.amount, c.script, found.value.height, found.value.coinbase);
        }
        entries := entries[o := Some(Entry(c, false, true))];
      }
      stuck := None;
    }

    /** Undoes one transaction: its outputs go, and unless it is a coinbase its inputs come back. */
    method DisconnectTransaction(db: Utxos, find: Finder, tx: Tx, height: int, coins: seq<Coin>) returns (stuck: Option<OutPoint>)
      requires |coins| == |Spends(tx)|
      modifies this`entries
      ensures Undoing(entries, stuck) == UndoneTx(old(entries), db, find, tx, height, coins)
    {
      RemoveOwnOutputs(tx, height);
      stuck := None;
      if !IsCoinBase(tx) {
        stuck := RestoreInputs(db, find, tx.id, tx.ins, coins);
      }
    }

    /**
     Undoes a block, unless the number of records does not match it.  A record without a height stops the undo
     when no entry is found to complete it from.
     */
    method DisconnectTransactions(db: Utxos, find: Finder, b: Block, stxos: seq<Coin>) returns (r: Disconnected)
      requires Sane(b.txs)
      modifies this
      ensures r.WrongCount? <==> |stxos| != SpendCount(b.txs, |b.txs|)
      ensures r.WrongCount? ==> entries == old(entries)
      ensures !r.WrongCount? ==> Undoing(entries, r.stuck) == Undone(old(entries), db, find, b.txs, b.height, stxos, |b.txs|)
      ensures bestHash == if r == Finished(None) then b.prev else old(bestHash)
    {
      hide RestoreFrom, RemoveEntries, UndoneTx, DistinctIds;
      var spent := CountSpentOutputs(b);
      if |stxos| != spent {
        return WrongCount;
      }
      var k, idx := |b.txs|, |stxos|;
      while k > 0
        invariant 0 <= k <= |b.txs| && idx == SpendCount(b.txs, k) && idx <= |stxos| && bestHash == old(bestHash)
        invariant Undone(entries, db, find, b.txs, b.height, stxos, k) ==
          Undone(old(entries), db, find, b.txs, b.height, stxos, |b.txs|)
      {
        k := k - 1;
        assert Spends(b.txs[k]) == if k > 0 then b.txs[k].ins else [];
        var records := if k > 0 then |b.txs[k].ins| else 0;
        var stuck := DisconnectTransaction(db, find, b.txs[k], b.height, stxos[idx-records..idx]);
        if stuck.Some? {
          return Finished(stuck);
        }
        idx := idx - records;
      }
      bestHash := b.prev;
      r := Finished(None);
    }

    method Commit()
      modifies this`entries
      ensures entries == CommitEntries(old(entries))
      ensures forall o :: o in entries <==>
        o in old(entries) && old(entries)[o].Some? && !(old(entries)[o].value.modified && old(entries)[o].value.spent)
      ensures forall o :: o in entries ==>
        entries[o].Some? && entries[o].value.coin == old(entries)[o].value.coin && entries[o].value.spent == old(entries)[o].value.spent &&
        entries[o].value.modified == !old(entries)[o].value.modified
    {
      var todo := entries.Keys;
      ghost var all := entries;
      while todo != {}
        invariant todo <= all.Keys && forall o :: o in todo ==> o in entries && entries[o] == all[o]
        invariant forall o :: o in all.Keys - todo ==>
          (o in entries <==> CommitEntry(all[o]).Some?) && (o in entries ==> entries[o] == CommitEntry(all[o]).value)
        invariant entries.Keys <= all.Keys
        decreases |todo|
      {
        var o :| o in todo;
        todo := todo - {o};
        match entries[o] {
          case None => entries := entries - {o};
          case Some(e) =>
            if e.modified && e.spent {
              entries := entries - {o};
            } else {
              entries := entries[o := Some(Entry(e.coin, e.spent, !e.modified))];
            }
        }
      }
      assert entries == CommitEntries(all);
    }

    method FetchUtxosMain(db: Utxos, outpoints: set<OutPoint>)
      modifies this`entries
      ensures entries == old(entries) + map o | o in outpoints :: FetchEntry(db, o)
      ensures forall o :: o in outpoints ==> o in entries && entries[o] == if o in db then Some(Entry(db[o], false, false)) else None
    {
      var todo := outpoints;
      while todo != {}
        invariant todo <= outpoints
        invariant entries == old(entries) + map o | o in outpoints - todo :: FetchEntry(db, o)
        decreases |todo|
      {
        var o :| o in todo;
        todo := todo - {o};
        entries := entries[o := FetchEntry(db, o)];
      }
      assert outpoints - todo == outpoints;
    }

    /**
     Loads what the block's inputs refer to: outputs of earlier transactions of the block are added to
     the view, anything else not yet in the view comes from the database.
     */
    method FetchInputUtxos(db: Utxos, b: Block)
      requires Sane(b.txs)
      modifies this`entries
      ensures Fetched(old(entries), entries, db, b.txs, b.height)
    {
      hide Collected, Sane, Spends;
      FirstSpendsNothing(b.txs);
      var inFlight: map<Hash, nat> := map[];
      var n := 0;
      while n < |b.txs|
        invariant 0 <= n <= |b.txs| && InFlight(b.txs, n, inFlight)
      {
        inFlight := inFlight[b.txs[n].id := n];
        n := n + 1;
      }
      var needed: set<OutPoint> := {};
      ghost var start := entries;
      CollectedStart(start, b.txs, b.height);
      var i := 0;
      while i < |b.txs| - 1
        invariant 0 <= i <= |b.txs| - 1 && Collected(start, entries, b.txs, b.height, needed, i, 0)
      {
        needed := CollectInputs(b, inFlight, i, needed, start);
        CollectNext(start, entries, b.txs, b.height, needed, i);
        i := i + 1;
      }
      FetchDone(start, entries, db, b.txs, b.height, needed);
      FetchUtxosMain(db, needed);
    }

    /** The inner loop over the inputs of transaction `i + 1`. */
    method CollectInputs(b: Block, inFlight: map<Hash, nat>, i: nat, sofar: set<OutPoint>, ghost start: Entries)
      returns (needed: set<OutPoint>)
      requires i + 1 < |b.txs| && Sane(b.txs) && InFlight(b.txs, |b.txs|, inFlight)
      requires Collected(start, entries, b.txs, b.height, sofar, i, 0)
      modifies this`entries
      ensures Collected(start, entries, b.txs, b.height, needed, i, |Spends(b.txs[i+1])|)
    {
      hide Collected, DistinctIds;
      needed := sofar;
      var tx := b.txs[i+1];
      assert Spends(tx) == tx.ins;
      var m := 0;
      while m < |tx.ins|
        invariant 0 <= m <= |tx.ins| && Collected(start, entries, b.txs, b.height, needed, i, m)
      {
        var o := tx.ins[m].prev;
        KnownInFlight(b.txs, inFlight, i + 1, o.hash);
        if o.hash in inFlight && i >= inFlight[o.hash] {
          CollectBack(start, entries, b.txs, b.height, needed, i, m, inFlight[o.hash]);
          AddTxOuts(b.txs[inFlight[o.hash]], b.height);
        } else {
          CollectOther(start, entries, b.txs, b.height, needed, i, m);
          if o !in entries {
            needed := needed + {o};
          }
        }
        m := m + 1;
      }
    }
  }

  /** The map from the ids of the first `n` transactions to their positions. */
  ghost predicate InFlight(txs: seq<Tx>, n: nat, inFlight: map<Hash, nat>) {
    n <= |txs| && (forall h :: h in inFlight ==> inFlight[h] < n && txs[inFlight[h]].id == h) &&
    forall t :: 0 <= t < n ==> txs[t].id in inFlight
  }

  /** The position found says whether an earlier transaction has the id. */
  lemma KnownInFlight(txs: seq<Tx>, inFlight: map<Hash, nat>, k: nat, h: Hash)
    requires k <= |txs| && DistinctIds(txs) && InFlight(txs, |txs|, inFlight)
    ensures HasId(txs, 0, k, h) <==> h in inFlight && inFlight[h] < k
  {
    if HasId(txs, 0, k, h) {
      var t :| 0 <= t < k && txs[t].id == h;
      SameTx(txs, t, inFlight[h]);
    }
  }

  lemma FirstSpendsNothing(txs: seq<Tx>)
    requires Sane(txs)
    ensures |txs| > 0 && |Spends(txs[0])| == 0 && DistinctIds(txs)
  {
  }

  /** The first transaction is a coinbase and no other one is; ids are distinct (checkBlockSanity). */
  predicate Sane(txs: seq<Tx>) {
    |txs| > 0 && IsCoinBase(txs[0]) && (forall k :: 0 < k < |txs| ==> !IsCoinBase(txs[k])) && DistinctIds(txs)
  }

  method CountSpentOutputs(b: Block) returns (n: nat)
    requires Sane(b.txs)
    ensures n == SpendCount(b.txs, |b.txs|)
  {
    n := 0;
    var k := 1;
    assert SpendCount(b.txs, 0) == 0;
    while k < |b.txs|
      invariant 1 <= k <= |b.txs|
      invariant n == SpendCount(b.txs, k)
    {
      n := n + |b.txs[k].ins|;
      k := k + 1;
    }
  }

  lemma ConnectCoinsStep(v: Entries, txs: seq<Tx>, height: int, k: nat, stxos: seq<Coin>)
    requires k < |txs|
    ensures stxos + ConnectCoins(v, txs, height, k + 1) ==
      stxos + ConnectCoins(v, txs, height, k) +
      EntryCoins(ConnectTxs(v, txs, height, k), Spends(txs[k]), |Spends(txs[k])|)
  {
  }
}
