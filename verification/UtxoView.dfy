/**
 The write-back overlay over the database's unspent set (pkg/blockchain/utxoviewpoint.go).

 `Overlay(entries, db)` is the unspent set a view stands for.  The theorems say that connecting and
 disconnecting a block on a view does to that set what `ApplyTxs` and `UndoTxs` do, whatever the view
 already had loaded, and that flushing a view writes exactly the set it stands for.
 */
module UtxoView {
  import opened Wire
  import opened Ledger

  datatype Entry = Entry(coin: Coin, spent: bool, modified: bool) {
    function Spend(): Entry {
      if spent then this else Entry(coin, true, true)
    }
  }

  /** A key bound to None is a nil entry: looked up in the database and not found there. */
  type Entries = map<OutPoint, Option<Entry>>

  function Lookup(v: Entries, db: Utxos, o: OutPoint): Option<Coin> {
    if o in v then
      if v[o].Some? && !v[o].value.spent then Some(v[o].value.coin) else None
    else if o in db then Some(db[o]) else None
  }

  function Overlay(v: Entries, db: Utxos): (u: Utxos)
    ensures forall o :: o in u <==> Lookup(v, db, o).Some?
    ensures forall o :: o in u ==> u[o] == Lookup(v, db, o).value
  {
    map o | o in v.Keys + db.Keys && Lookup(v, db, o).Some? :: Lookup(v, db, o).value
  }

  /** Entries not marked modified agree with the database; in particular none of them is spent. */
  ghost predicate Synced(v: Entries, db: Utxos) {
    forall o :: o in v ==>
      match v[o]
      case None => o !in db
      case Some(e) => !e.modified ==> !e.spent && o in db && db[o] == e.coin
  }

  /** One of the transactions `lo..hi` creates `o`. */
  ghost predicate CreatedBy(txs: seq<Tx>, lo: nat, hi: nat, o: OutPoint) {
    exists i :: lo <= i < hi && i < |txs| && Creates(txs[i], |txs[i].outs|, o)
  }

  ghost predicate Same(a: Utxos, b: Utxos, o: OutPoint) {
    (o in a <==> o in b) && (o in a ==> a[o] == b[o])
  }

  /** The two sets differ at most on outputs of the transactions `lo..hi`. */
  ghost predicate AgreeOutside(a: Utxos, b: Utxos, txs: seq<Tx>, lo: nat, hi: nat) {
    forall o :: CreatedBy(txs, lo, hi, o) || Same(a, b, o)
  }

  /** Every input of transaction `k` that no transaction of the block provides has been looked up. */
  ghost predicate LoadedAt(v: Entries, txs: seq<Tx>, k: nat)
    requires k < |txs|
  {
    forall i :: 0 <= i < |Spends(txs[k])| && !HasId(txs, 0, |txs|, Spends(txs[k])[i].prev.hash) ==>
      Spends(txs[k])[i].prev in v
  }

  ghost predicate Loaded(v: Entries, txs: seq<Tx>) {
    forall k :: 0 <= k < |txs| ==> LoadedAt(v, txs, k)
  }

  // ----- what the view methods do to the entries -----

  /** Adds the first `k` outputs that are not provably unspendable. */
  function AddEntries(v: Entries, tx: Tx, height: int, k: nat): Entries
    requires k <= |tx.outs|
  {
    if k == 0 then v
    else
      var w := AddEntries(v, tx, height, k - 1);
      if tx.outs[k-1].unspendable then w
      else w[OutPoint(tx.id, k - 1) := Some(Entry(OutputCoin(tx, height, k - 1), false, true))]
  }

  predicate Present(v: Entries, ins: seq<TxIn>) {
    forall i :: 0 <= i < |ins| ==> ins[i].prev in v && v[ins[i].prev].Some?
  }

  /** Input `i` is the first one without an entry. */
  ghost predicate FirstMissing(v: Entries, ins: seq<TxIn>, i: nat) {
    i < |ins| && (forall j :: 0 <= j < i ==> ins[j].prev in v && v[ins[j].prev].Some?) &&
    !(ins[i].prev in v && v[ins[i].prev].Some?)
  }

  function SpendEntry(v: Entries, o: OutPoint): Entries {
    if o in v && v[o].Some? then v[o := Some(v[o].value.Spend())] else v
  }

  function SpendEntries(v: Entries, ins: seq<TxIn>, k: nat): Entries
    requires k <= |ins|
  {
    if k == 0 then v else SpendEntry(SpendEntries(v, ins, k - 1), ins[k-1].prev)
  }

  function EntryCoin(v: Entries, o: OutPoint): Coin {
    if o in v && v[o].Some? then v[o].value.coin else NO_COIN
  }

  /** The coins recorded for the first `k` inputs. */
  function EntryCoins(v: Entries, ins: seq<TxIn>, k: nat): (s: seq<Coin>)
    requires k <= |ins|
    ensures |s| == k
  {
    if k == 0 then [] else EntryCoins(v, ins, k - 1) + [EntryCoin(v, ins[k-1].prev)]
  }

  function ConnectTx(v: Entries, tx: Tx, height: int): Entries {
    AddEntries(SpendEntries(v, Spends(tx), |Spends(tx)|), tx, height, |tx.outs|)
  }

  function ConnectTxs(v: Entries, txs: seq<Tx>, height: int, k: nat): Entries
    requires k <= |txs|
  {
    if k == 0 then v else ConnectTx(ConnectTxs(v, txs, height, k - 1), txs[k-1], height)
  }

  predicate AllPresent(v: Entries, txs: seq<Tx>, height: int, k: nat)
    requires k <= |txs|
  {
    k == 0 || (AllPresent(v, txs, height, k - 1) && Present(ConnectTxs(v, txs, height, k - 1), Spends(txs[k-1])))
  }

  /** All transactions before `k` find their inputs, and input `i` of transaction `k` is the first one missing. */
  ghost predicate StopsAt(v: Entries, txs: seq<Tx>, height: int, k: nat, i: nat) {
    k < |txs| && AllPresent(v, txs, height, k) && FirstMissing(ConnectTxs(v, txs, height, k), Spends(txs[k]), i)
  }

  function ConnectCoins(v: Entries, txs: seq<Tx>, height: int, k: nat): seq<Coin>
    requires k <= |txs|
  {
    if k == 0 then []
    else
      ConnectCoins(v, txs, height, k - 1) +
      EntryCoins(ConnectTxs(v, txs, height, k - 1), Spends(txs[k-1]), |Spends(txs[k-1])|)
  }

  /** The entry disconnectTransactions marks spent: the one in the view, or one it creates. */
  function Created(v: Entries, tx: Tx, height: int, o: OutPoint): Entry
    requires o.index < |tx.outs|
  {
    if o in v && v[o].Some? then v[o].value else Entry(OutputCoin(tx, height, o.index), false, false)
  }

  /** Marks the first `k` outputs spent, creating the entries that are not there. */
  function RemoveEntries(v: Entries, tx: Tx, height: int, k: nat): Entries
    requires k <= |tx.outs|
  {
    if k == 0 then v
    else
      var w := RemoveEntries(v, tx, height, k - 1);
      var o := OutPoint(tx.id, k - 1);
      if tx.outs[k-1].unspendable then w else w[o := Some(Created(w, tx, height, o).Spend())]
  }

  function RestoreEntries(v: Entries, ins: seq<TxIn>, coins: seq<Coin>, i: nat): Entries
    requires i <= |ins| == |coins|
    decreases |ins| - i
  {
    if i == |ins| then v
    else RestoreEntries(v, ins, coins, i + 1)[ins[i].prev := Some(Entry(coins[i], false, true))]
  }

  function DisconnectTx(v: Entries, tx: Tx, height: int, coins: seq<Coin>): Entries
    requires |coins| == |Spends(tx)|
  {
    RestoreEntries(RemoveEntries(v, tx, height, |tx.outs|), Spends(tx), coins, 0)
  }

  function DisconnectTxs(v: Entries, txs: seq<Tx>, height: int, journal: seq<Coin>, k: nat): Entries
    requires k <= |txs| && SpendCount(txs, k) <= |journal|
    decreases k
  {
    if k == 0 then v
    else DisconnectTxs(DisconnectTx(v, txs[k-1], height, Records(txs, journal, k - 1)), txs, height, journal, k - 1)
  }

  /** XOR-ing the modified flag marks clean entries as modified and modified ones as clean. */
  function CommitEntry(e: Option<Entry>): Option<Option<Entry>> {
    if e.None? || (e.value.modified && e.value.spent) then None
    else Some(Some(Entry(e.value.coin, e.value.spent, !e.value.modified)))
  }

  function CommitEntries(v: Entries): Entries {
    map o | o in v && CommitEntry(v[o]).Some? :: CommitEntry(v[o]).value
  }

  function FetchEntry(db: Utxos, o: OutPoint): Option<Entry> {
    if o in db then Some(Entry(db[o], false, false)) else None
  }

  // ----- what those operations mean for the set the view stands for -----

  lemma PutMeans(v: Entries, db: Utxos, o: OutPoint, c: Coin)
    requires Synced(v, db)
    ensures Synced(v[o := Some(Entry(c, false, true))], db)
    ensures Overlay(v[o := Some(Entry(c, false, true))], db) == Overlay(v, db)[o := c]
  {
    forall p ensures Lookup(v[o := Some(Entry(c, false, true))], db, p) == if p == o then Some(c) else Lookup(v, db, p) {
    }
  }

  lemma MarkMeans(v: Entries, db: Utxos, o: OutPoint, e: Entry)
    requires Synced(v, db) && (e.spent ==> e.modified)
    ensures Synced(v[o := Some(e.Spend())], db)
    ensures Overlay(v[o := Some(e.Spend())], db) == Overlay(v, db) - {o}
  {
    var w := v[o := Some(e.Spend())];
    forall p ensures Lookup(w, db, p) == if p == o then None else Lookup(v, db, p) {
    }
    assert forall p :: p in Overlay(w, db) <==> p in Overlay(v, db) - {o};
  }

  /** Marking inputs spent removes no entry and changes no recorded coin. */
  lemma {:induction false} SpendKeepsRecords(v: Entries, ins: seq<TxIn>, k: nat, o: OutPoint)
    requires k <= |ins|
    ensures o in SpendEntries(v, ins, k) <==> o in v
    ensures o in v ==> (SpendEntries(v, ins, k)[o].Some? <==> v[o].Some?)
    ensures EntryCoin(SpendEntries(v, ins, k), o) == EntryCoin(v, o)
  {
    if k > 0 {
      SpendKeepsRecords(v, ins, k - 1, o);
    }
  }

  lemma {:induction false} SpendMeans(v: Entries, db: Utxos, ins: seq<TxIn>, k: nat)
    requires k <= |ins| && Synced(v, db) && Present(v, ins)
    ensures Synced(SpendEntries(v, ins, k), db)
    ensures Overlay(SpendEntries(v, ins, k), db) == RemoveInputs(Overlay(v, db), ins, k)
  {
    if k > 0 {
      SpendMeans(v, db, ins, k - 1);
      var w, o := SpendEntries(v, ins, k - 1), ins[k-1].prev;
      SpendKeepsRecords(v, ins, k - 1, o);
      MarkMeans(w, db, o, w[o].value);
    }
  }

  lemma {:induction false} AddMeans(v: Entries, db: Utxos, tx: Tx, height: int, k: nat)
    requires Synced(v, db) && k <= |tx.outs|
    ensures Synced(AddEntries(v, tx, height, k), db)
    ensures Overlay(AddEntries(v, tx, height, k), db) == AddOutputs(Overlay(v, db), tx, height, k)
  {
    if k > 0 {
      AddMeans(v, db, tx, height, k - 1);
      PutMeans(AddEntries(v, tx, height, k - 1), db, OutPoint(tx.id, k - 1), OutputCoin(tx, height, k - 1));
    }
  }

  lemma {:induction false} AddKeys(v: Entries, tx: Tx, height: int, k: nat, o: OutPoint)
    requires k <= |tx.outs|
    ensures o in AddEntries(v, tx, height, k) <==> o in v || Creates(tx, k, o)
  {
    if k > 0 {
      AddKeys(v, tx, height, k - 1, o);
    }
  }

  lemma ConnectTxMeans(v: Entries, db: Utxos, tx: Tx, height: int)
    requires Synced(v, db) && Present(v, Spends(tx))
    ensures Synced(ConnectTx(v, tx, height), db)
    ensures Overlay(ConnectTx(v, tx, height), db) == ApplyTx(Overlay(v, db), tx, height)
  {
    SpendMeans(v, db, Spends(tx), |Spends(tx)|);
    AddMeans(SpendEntries(v, Spends(tx), |Spends(tx)|), db, tx, height, |tx.outs|);
  }

  lemma {:induction false} ConnectKeys(v: Entries, txs: seq<Tx>, height: int, k: nat, o: OutPoint)
    requires k <= |txs| && (o in v || CreatedBy(txs, 0, k, o))
    ensures o in ConnectTxs(v, txs, height, k)
  {
    if k > 0 {
      var w, tx := ConnectTxs(v, txs, height, k - 1), txs[k-1];
      SpendKeepsRecords(w, Spends(tx), |Spends(tx)|, o);
      AddKeys(SpendEntries(w, Spends(tx), |Spends(tx)|), tx, height, |tx.outs|, o);
      if !Creates(tx, |tx.outs|, o) {
        ConnectKeys(v, txs, height, k - 1, o);
      }
    }
  }

  /** An entry that is not nil never becomes nil. */
  lemma {:induction false} EntryStays(v: Entries, txs: seq<Tx>, height: int, k: nat, o: OutPoint)
    requires k <= |txs| && o in v && v[o].Some?
    ensures o in ConnectTxs(v, txs, height, k) && ConnectTxs(v, txs, height, k)[o].Some?
  {
    if k > 0 {
      var w, tx := ConnectTxs(v, txs, height, k - 1), txs[k-1];
      EntryStays(v, txs, height, k - 1, o);
      SpendKeepsRecords(w, Spends(tx), |Spends(tx)|, o);
      AddValue(SpendEntries(w, Spends(tx), |Spends(tx)|), tx, height, |tx.outs|, o);
    }
  }

  /** Connecting makes no other keys. */
  lemma {:induction false} ConnectedKeys(v: Entries, txs: seq<Tx>, height: int, k: nat, o: OutPoint)
    requires k <= |txs| && o in ConnectTxs(v, txs, height, k)
    ensures o in v || CreatedBy(txs, 0, |txs|, o)
  {
    if k > 0 {
      var w, tx := ConnectTxs(v, txs, height, k - 1), txs[k-1];
      SpendKeepsRecords(w, Spends(tx), |Spends(tx)|, o);
      AddKeys(SpendEntries(w, Spends(tx), |Spends(tx)|), tx, height, |tx.outs|, o);
      if !Creates(tx, |tx.outs|, o) {
        ConnectedKeys(v, txs, height, k - 1, o);
      }
    }
  }

  lemma AgreementStep(a: Utxos, s: Utxos, txs: seq<Tx>, height: int, k: nat)
    requires k < |txs| && AgreeOutside(a, s, txs, k, |txs|)
    ensures AgreeOutside(ApplyTx(a, txs[k], height), ApplyTx(s, txs[k], height), txs, k + 1, |txs|)
  {
    forall o ensures CreatedBy(txs, k + 1, |txs|, o) || Same(ApplyTx(a, txs[k], height), ApplyTx(s, txs[k], height), o) {
      ApplyTxLookup(a, txs[k], height, o);
      ApplyTxLookup(s, txs[k], height, o);
      assert CreatedBy(txs, k, |txs|, o) || Same(a, s, o);
    }
  }

  /** A coin of the state after some transactions that was not there before was created by one of them. */
  lemma {:induction false} NewCoinIsCreated(u: Utxos, txs: seq<Tx>, height: int, k: nat, o: OutPoint)
    requires k <= |txs| && o in ApplyTxs(u, txs, height, k) && o !in u
    ensures CreatedBy(txs, 0, k, o)
  {
    if k > 0 {
      ApplyTxLookup(ApplyTxs(u, txs, height, k - 1), txs[k-1], height, o);
      if !Creates(txs[k-1], |txs[k-1].outs|, o) {
        NewCoinIsCreated(u, txs, height, k - 1, o);
      }
    }
  }

  /** The view has an entry for every coin transaction `k` spends, and the entry records that coin. */
  lemma InputAvailable(v: Entries, db: Utxos, u: Utxos, txs: seq<Tx>, height: int, k: nat, o: OutPoint)
    requires k < |txs| && DistinctIds(txs) && Fresh(u, txs)
    requires o in ApplyTxs(u, txs, height, k)
    requires o in v || HasId(txs, 0, |txs|, o.hash)
    requires AgreeOutside(Overlay(ConnectTxs(v, txs, height, k), db), ApplyTxs(u, txs, height, k), txs, k, |txs|)
    ensures var w := ConnectTxs(v, txs, height, k);
      o in w && w[o].Some? && w[o].value.coin == ApplyTxs(u, txs, height, k)[o]
  {
    var w, s := ConnectTxs(v, txs, height, k), ApplyTxs(u, txs, height, k);
    AvailableIsEarlier(u, txs, height, k, o);
    assert !CreatedBy(txs, k, |txs|, o);
    assert Same(Overlay(w, db), s, o);
    if o !in v {
      NewCoinIsCreated(u, txs, height, k, o);
    }
    ConnectKeys(v, txs, height, k, o);
  }

  lemma {:induction false} SameCoins(v: Entries, s: Utxos, ins: seq<TxIn>, k: nat)
    requires k <= |ins|
    requires forall i :: 0 <= i < k ==> SameCoinAt(v, s, ins, i)
    ensures EntryCoins(v, ins, k) == SpentCoins(s, ins, k)
  {
    if k > 0 {
      SameCoins(v, s, ins, k - 1);
      assert SameCoinAt(v, s, ins, k - 1);
    }
  }

  predicate SameCoinAt(v: Entries, s: Utxos, ins: seq<TxIn>, i: nat)
    requires i < |ins|
  {
    EntryCoin(v, ins[i].prev) == CoinAt(s, ins[i].prev)
  }

  /** What the k-th transaction of a valid block finds in the view. */
  lemma InputsAvailable(v: Entries, db: Utxos, u: Utxos, txs: seq<Tx>, height: int, k: nat)
    requires k < |txs| && LoadedAt(v, txs, k) && DistinctIds(txs) && Fresh(u, txs)
    requires SpendableAt(u, txs, height, k)
    requires AgreeOutside(Overlay(ConnectTxs(v, txs, height, k), db), ApplyTxs(u, txs, height, k), txs, k, |txs|)
    ensures Present(ConnectTxs(v, txs, height, k), Spends(txs[k]))
    ensures EntryCoins(ConnectTxs(v, txs, height, k), Spends(txs[k]), |Spends(txs[k])|) == SpentAt(u, txs, height, k)
  {
    var w, s, ins := ConnectTxs(v, txs, height, k), ApplyTxs(u, txs, height, k), Spends(txs[k]);
    forall i | 0 <= i < |ins|
      ensures ins[i].prev in w && w[ins[i].prev].Some? && EntryCoin(w, ins[i].prev) == CoinAt(s, ins[i].prev)
    {
      InputAvailable(v, db, u, txs, height, k, ins[i].prev);
    }
    SameCoins(w, s, ins, |ins|);
  }

  /** The view after the first `k` transactions stands for the state after them, up to later outputs. */
  lemma {:induction false} ConnectStep(v: Entries, db: Utxos, u: Utxos, txs: seq<Tx>, height: int, k: nat)
    requires Synced(v, db) && Loaded(v, txs) && AgreeOutside(Overlay(v, db), u, txs, 0, |txs|)
    requires DistinctIds(txs) && Fresh(u, txs) && AllSpendable(u, txs, height, k)
    ensures AllPresent(v, txs, height, k) && Synced(ConnectTxs(v, txs, height, k), db)
    ensures AgreeOutside(Overlay(ConnectTxs(v, txs, height, k), db), ApplyTxs(u, txs, height, k), txs, k, |txs|)
  {
    hide Overlay, AgreeOutside, Synced, ConnectTx, ApplyTx, Fresh, DistinctIds, SpendableAt, LoadedAt, Present;
    if k > 0 {
      var w, s := ConnectTxs(v, txs, height, k - 1), ApplyTxs(u, txs, height, k - 1);
      ConnectStep(v, db, u, txs, height, k - 1);
      assert SpendableAt(u, txs, height, k - 1) && LoadedAt(v, txs, k - 1);
      InputsAvailable(v, db, u, txs, height, k - 1);
      ConnectTxMeans(w, db, txs[k-1], height);
      AgreementStep(Overlay(w, db), s, txs, height, k - 1);
    }
  }

  lemma {:induction false} ConnectJournal(v: Entries, db: Utxos, u: Utxos, txs: seq<Tx>, height: int, k: nat)
    requires Synced(v, db) && Loaded(v, txs) && AgreeOutside(Overlay(v, db), u, txs, 0, |txs|)
    requires DistinctIds(txs) && Fresh(u, txs) && AllSpendable(u, txs, height, k)
    ensures ConnectCoins(v, txs, height, k) == Journal(u, txs, height, k)
  {
    hide Overlay, AgreeOutside, Synced, ConnectTxs, ApplyTxs, Fresh, DistinctIds, SpendableAt, LoadedAt, Present;
    if k > 0 {
      ConnectStep(v, db, u, txs, height, k - 1);
      assert SpendableAt(u, txs, height, k - 1) && LoadedAt(v, txs, k - 1);
      InputsAvailable(v, db, u, txs, height, k - 1);
      ConnectJournal(v, db, u, txs, height, k - 1);
    }
  }

  lemma AgreeNowhere(a: Utxos, b: Utxos, txs: seq<Tx>, k: nat)
    requires AgreeOutside(a, b, txs, k, k)
    ensures a == b
  {
    forall o ensures (o in a <==> o in b) && (o in a ==> a[o] == b[o]) {
      assert !CreatedBy(txs, k, k, o);
    }
  }

  /**
   Connecting a block on a view that stands for `u`, give or take outputs of the block itself that
   fetchInputUtxos added early: no input is missing, and the view then stands for `u` with the block
   applied and has emitted the block's journal.
   */
  lemma ConnectDenotes(v: Entries, db: Utxos, u: Utxos, txs: seq<Tx>, height: int)
    requires Synced(v, db) && Loaded(v, txs) && AgreeOutside(Overlay(v, db), u, txs, 0, |txs|)
    requires DistinctIds(txs) && Fresh(u, txs) && AllSpendable(u, txs, height, |txs|)
    ensures AllPresent(v, txs, height, |txs|) && Synced(ConnectTxs(v, txs, height, |txs|), db)
    ensures Overlay(ConnectTxs(v, txs, height, |txs|), db) == ApplyTxs(u, txs, height, |txs|)
    ensures ConnectCoins(v, txs, height, |txs|) == Journal(u, txs, height, |txs|)
  {
    ConnectStep(v, db, u, txs, height, |txs|);
    ConnectJournal(v, db, u, txs, height, |txs|);
    AgreeNowhere(Overlay(ConnectTxs(v, txs, height, |txs|), db), ApplyTxs(u, txs, height, |txs|), txs, |txs|);
  }

  lemma {:induction false} MissingStays(v: Entries, txs: seq<Tx>, height: int, k: nat, n: nat)
    requires k < n <= |txs| && !Present(ConnectTxs(v, txs, height, k), Spends(txs[k]))
    ensures !AllPresent(v, txs, height, n)
  {
    if k < n - 1 {
      MissingStays(v, txs, height, k, n - 1);
    }
  }

  /** A nil entry stays nil while the transactions connected do not create the output. */
  lemma {:induction false} NilStays(v: Entries, txs: seq<Tx>, height: int, k: nat, o: OutPoint)
    requires k <= |txs| && o in v && v[o].None? && !CreatedBy(txs, 0, k, o)
    ensures o in ConnectTxs(v, txs, height, k) && ConnectTxs(v, txs, height, k)[o].None?
  {
    if k > 0 {
      var w, tx := ConnectTxs(v, txs, height, k - 1), txs[k-1];
      NilStays(v, txs, height, k - 1, o);
      SpendKeepsRecords(w, Spends(tx), |Spends(tx)|, o);
      AddValue(SpendEntries(w, Spends(tx), |Spends(tx)|), tx, height, |tx.outs|, o);
    }
  }

  lemma {:induction false} AddValue(v: Entries, tx: Tx, height: int, k: nat, o: OutPoint)
    requires k <= |tx.outs|
    ensures var w := AddEntries(v, tx, height, k);
      if Creates(tx, k, o) then o in w && w[o] == Some(Entry(OutputCoin(tx, height, o.index), false, true))
      else (o in w <==> o in v) && (o in w ==> w[o] == v[o])
  {
    if k > 0 {
      AddValue(v, tx, height, k - 1, o);
    }
  }

  lemma {:induction false} RestoredKeys(v: Entries, ins: seq<TxIn>, coins: seq<Coin>, i: nat, o: OutPoint)
    requires i <= |ins| == |coins|
    ensures o in RestoreEntries(v, ins, coins, i) <==> o in v || exists j :: i <= j < |ins| && ins[j].prev == o
    decreases |ins| - i
  {
    if i < |ins| {
      RestoredKeys(v, ins, coins, i + 1, o);
    }
  }

  lemma {:induction false} RemovedKeys(v: Entries, tx: Tx, height: int, k: nat, o: OutPoint)
    requires k <= |tx.outs|
    ensures o in RemoveEntries(v, tx, height, k) <==> o in v || Creates(tx, k, o)
  {
    if k > 0 {
      RemovedKeys(v, tx, height, k - 1, o);
    }
  }

  /** Disconnecting makes keys for what the transactions created and named, and no others. */
  lemma {:induction false} DisconnectedKeys(v: Entries, txs: seq<Tx>, height: int, journal: seq<Coin>, k: nat, o: OutPoint)
    requires k <= |txs| && SpendCount(txs, k) <= |journal|
    ensures CreatedBy(txs, 0, k, o) ==> o in DisconnectTxs(v, txs, height, journal, k)
    ensures o in v ==> o in DisconnectTxs(v, txs, height, journal, k)
    ensures o in DisconnectTxs(v, txs, height, journal, k) ==>
      o in v || CreatedBy(txs, 0, k, o) || exists t :: 0 <= t < k && Refers(Spends(txs[t]), |Spends(txs[t])|, o)
    decreases k
  {
    if k > 0 {
      var tx, coins := txs[k-1], Records(txs, journal, k - 1);
      var w := DisconnectTx(v, tx, height, coins);
      RemovedKeys(v, tx, height, |tx.outs|, o);
      RestoredKeys(RemoveEntries(v, tx, height, |tx.outs|), Spends(tx), coins, 0, o);
      DisconnectedKeys(w, txs, height, journal, k - 1, o);
      if CreatedBy(txs, 0, k, o) && !CreatedBy(txs, 0, k - 1, o) {
        LastCreates(txs, k, o);
      }
      assert o in w && o !in v ==> Creates(tx, |tx.outs|, o) || Refers(Spends(tx), |Spends(tx)|, o);
    }
  }

  lemma {:induction false} NamedRestored(v: Entries, txs: seq<Tx>, height: int, journal: seq<Coin>, k: nat, t: nat, o: OutPoint)
    requires k <= |txs| && SpendCount(txs, k) <= |journal| && t < k && Refers(Spends(txs[t]), |Spends(txs[t])|, o)
    ensures o in DisconnectTxs(v, txs, height, journal, k)
    decreases k
  {
    var tx, coins := txs[k-1], Records(txs, journal, k - 1);
    var w := DisconnectTx(v, tx, height, coins);
    if t == k - 1 {
      RestoredKeys(RemoveEntries(v, tx, height, |tx.outs|), Spends(tx), coins, 0, o);
      DisconnectedKeys(w, txs, height, journal, k - 1, o);
    } else {
      NamedRestored(w, txs, height, journal, k - 1, t, o);
    }
  }

  lemma LastCreates(txs: seq<Tx>, k: nat, o: OutPoint)
    requires 0 < k <= |txs| && CreatedBy(txs, 0, k, o) && !CreatedBy(txs, 0, k - 1, o)
    ensures Creates(txs[k-1], |txs[k-1].outs|, o)
  {
    var i :| 0 <= i < k && i < |txs| && Creates(txs[i], |txs[i].outs|, o);
  }

  lemma {:induction false} RestoreMeans(v: Entries, db: Utxos, ins: seq<TxIn>, coins: seq<Coin>, i: nat)
    requires i <= |ins| == |coins| && Synced(v, db)
    ensures Synced(RestoreEntries(v, ins, coins, i), db)
    ensures Overlay(RestoreEntries(v, ins, coins, i), db) == Restore(Overlay(v, db), ins, coins, i)
    decreases |ins| - i
  {
    if i < |ins| {
      RestoreMeans(v, db, ins, coins, i + 1);
      PutMeans(RestoreEntries(v, ins, coins, i + 1), db, ins[i].prev, coins[i]);
    }
  }

  lemma {:induction false} RemoveMeans(v: Entries, db: Utxos, tx: Tx, height: int, k: nat)
    requires Synced(v, db) && k <= |tx.outs|
    ensures Synced(RemoveEntries(v, tx, height, k), db)
    ensures Overlay(RemoveEntries(v, tx, height, k), db) == RemoveOutputs(Overlay(v, db), tx, k)
  {
    if k > 0 {
      RemoveMeans(v, db, tx, height, k - 1);
      var w, o := RemoveEntries(v, tx, height, k - 1), OutPoint(tx.id, k - 1);
      MarkMeans(w, db, o, Created(w, tx, height, o));
    }
  }

  lemma DisconnectTxMeans(v: Entries, db: Utxos, tx: Tx, height: int, coins: seq<Coin>)
    requires |coins| == |Spends(tx)| && Synced(v, db)
    ensures Synced(DisconnectTx(v, tx, height, coins), db)
    ensures Overlay(DisconnectTx(v, tx, height, coins), db) == UndoTx(Overlay(v, db), tx, coins)
  {
    RemoveMeans(v, db, tx, height, |tx.outs|);
    RestoreMeans(RemoveEntries(v, tx, height, |tx.outs|), db, Spends(tx), coins, 0);
  }

  lemma {:induction false} DisconnectMeans(v: Entries, db: Utxos, txs: seq<Tx>, height: int, journal: seq<Coin>, k: nat)
    requires k <= |txs| && SpendCount(txs, k) <= |journal| && Synced(v, db)
    ensures Synced(DisconnectTxs(v, txs, height, journal, k), db)
    ensures Overlay(DisconnectTxs(v, txs, height, journal, k), db) == UndoTxs(Overlay(v, db), txs, journal, k)
    decreases k
  {
    if k > 0 {
      var coins := Records(txs, journal, k - 1);
      DisconnectTxMeans(v, db, txs[k-1], height, coins);
      DisconnectMeans(DisconnectTx(v, txs[k-1], height, coins), db, txs, height, journal, k - 1);
    }
  }

  lemma {:induction false} RestoreAgrees(a: Utxos, b: Utxos, ins: seq<TxIn>, coins: seq<Coin>, i: nat, o: OutPoint)
    requires i <= |ins| == |coins|
    requires Same(a, b, o) || exists j :: i <= j < |ins| && ins[j].prev == o
    ensures Same(Restore(a, ins, coins, i), Restore(b, ins, coins, i), o)
    decreases |ins| - i
  {
    if i < |ins| && ins[i].prev != o {
      RestoreAgrees(a, b, ins, coins, i + 1, o);
    }
  }

  lemma UndoTxAgrees(a: Utxos, b: Utxos, txs: seq<Tx>, k: nat, coins: seq<Coin>)
    requires k < |txs| && |coins| == |Spends(txs[k])| && AgreeOutside(a, b, txs, 0, k + 1)
    ensures AgreeOutside(UndoTx(a, txs[k], coins), UndoTx(b, txs[k], coins), txs, 0, k)
  {
    var tx := txs[k];
    forall o ensures CreatedBy(txs, 0, k, o) || Same(UndoTx(a, tx, coins), UndoTx(b, tx, coins), o) {
      assert CreatedBy(txs, 0, k + 1, o) || Same(a, b, o);
      if !CreatedBy(txs, 0, k, o) {
        RemoveOutputsLookup(a, tx, |tx.outs|, o);
        RemoveOutputsLookup(b, tx, |tx.outs|, o);
        RestoreAgrees(RemoveOutputs(a, tx, |tx.outs|), RemoveOutputs(b, tx, |tx.outs|), Spends(tx), coins, 0, o);
      }
    }
  }

  /** Undoing a block forgets whatever the starting set said about the block's own outputs. */
  lemma {:induction false} UndoIgnoresOwnOutputs(a: Utxos, b: Utxos, txs: seq<Tx>, journal: seq<Coin>, k: nat)
    requires k <= |txs| && SpendCount(txs, k) <= |journal| && AgreeOutside(a, b, txs, 0, k)
    ensures UndoTxs(a, txs, journal, k) == UndoTxs(b, txs, journal, k)
    decreases k
  {
    if k == 0 {
      AgreeNowhere(a, b, txs, 0);
    } else {
      var coins := Records(txs, journal, k - 1);
      UndoTxAgrees(a, b, txs, k - 1, coins);
      UndoIgnoresOwnOutputs(UndoTx(a, txs[k-1], coins), UndoTx(b, txs[k-1], coins), txs, journal, k - 1);
    }
  }

  /**
   Disconnecting a block with its own journal, on a view standing for the state after the block (give or
   take the block's own outputs), makes the view stand for the state before the block if and only if no
   transaction of the block overwrote a coin that was still unspent.
   */
  lemma DisconnectDenotes(v: Entries, db: Utxos, u: Utxos, txs: seq<Tx>, height: int)
    requires AllSpendable(u, txs, height, |txs|) && DistinctIds(txs)
    requires Synced(v, db) && AgreeOutside(Overlay(v, db), ApplyTxs(u, txs, height, |txs|), txs, 0, |txs|)
    ensures var w := DisconnectTxs(v, txs, height, Journal(u, txs, height, |txs|), |txs|);
      Synced(w, db) && (Overlay(w, db) == u <==> NoOverwrite(u, txs, height, |txs|))
  {
    var j := Journal(u, txs, height, |txs|);
    DisconnectMeans(v, db, txs, height, j, |txs|);
    UndoIgnoresOwnOutputs(Overlay(v, db), ApplyTxs(u, txs, height, |txs|), txs, j, |txs|);
    UndoExactIff(u, txs, height);
  }

  lemma CommittedKey(v: Entries, o: OutPoint)
    ensures o in CommitEntries(v) <==> o in v && CommitEntry(v[o]).Some?
    ensures o in CommitEntries(v) ==> CommitEntries(v)[o] == CommitEntry(v[o]).value
  {
  }

  /** After the flush the key of an output stands for what it stood for, and a clean entry agrees with the database. */
  lemma CommitAt(v: Entries, db: Utxos, o: OutPoint)
    requires Synced(v, db)
    ensures Lookup(CommitEntries(v), Overlay(v, db), o) == Lookup(v, db, o)
    ensures o in CommitEntries(v) && CommitEntries(v)[o].Some? && !CommitEntries(v)[o].value.modified ==>
      !CommitEntries(v)[o].value.spent && Lookup(v, db, o) == Some(CommitEntries(v)[o].value.coin)
    ensures o in CommitEntries(v) ==> CommitEntries(v)[o].Some?
  {
    hide CommitEntries;
    CommittedKey(v, o);
  }

  lemma SameLookups(v: Entries, db: Utxos, w: Entries, d: Utxos)
    requires forall o :: Lookup(v, db, o) == Lookup(w, d, o)
    ensures Overlay(v, db) == Overlay(w, d)
  {
  }

  /** After a flush and a commit the view agrees with the new database everywhere. */
  lemma CommitDenotes(v: Entries, db: Utxos)
    requires Synced(v, db)
    ensures Synced(CommitEntries(v), Overlay(v, db))
    ensures Overlay(CommitEntries(v), Overlay(v, db)) == Overlay(v, db)
  {
    hide CommitEntries, Lookup;
    var w, d := CommitEntries(v), Overlay(v, db);
    forall o ensures Lookup(w, d, o) == Lookup(v, db, o) {
      CommitAt(v, db, o);
    }
    SameLookups(w, d, v, db);
    forall o ensures o in w ==> w[o].Some? && (!w[o].value.modified ==> !w[o].value.spent && o in d && d[o] == w[o].value.coin) {
      CommitAt(v, db, o);
    }
  }
}
