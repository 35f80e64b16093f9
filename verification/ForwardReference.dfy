/**
 A block that refers forward and is accepted all the same, on a view that still has keys from undoing another
 block.  Nothing in the sanity checks looks at the order of the transactions (pkg/blockchain/validate.go:1285-1300).
 */
module ForwardReference {
  import opened Wire
  import opened Ledger
  import opened UtxoView
  import opened Fetch
  import opened Legacy
  import opened Viewpoint
  import opened Money
  import opened Validate
  import BlockChain

  const FUNDING := OutPoint(1, 0)
  const UNSPENT: Utxos := map[FUNDING := Coin(10, [], 1, false)]

  /** Splits ten units into two outputs. */
  const SPLIT := Tx(2, [TxIn(FUNDING, [])], [TxOut(5, [], false), TxOut(5, [], false)])

  /** Spends the second output of the split, the other one spends the first. */
  const SECOND := Tx(3, [TxIn(OutPoint(2, 1), [])], [TxOut(5, [], false)])
  const FIRST := Tx(4, [TxIn(OutPoint(2, 0), [])], [TxOut(5, [], false)])

  function Coinbase(id: Hash): Tx {
    Tx(id, [TxIn(OutPoint(ZERO_HASH, MAX_INDEX), [0, 0])], [TxOut(0, [], true)])
  }

  /** The block that is taken off, and the one put in its place: there the spender comes before the split. */
  const OLD := Block(20, 10, 2, 1, [Coinbase(5), SPLIT])
  const NEW := Block(30, 10, 2, 1, [Coinbase(6), SECOND, SPLIT, FIRST])

  /** Rules that object to nothing in the block and pay a subsidy of at most four units. */
  predicate Lenient(rules: Rules) {
    rules.genesis != 30 && rules.sigOpsOk(NEW) && rules.coinbaseOk(NEW) && rules.scriptsOk(NEW) && rules.Reward(NEW) <= 4 &&
    forall k :: 0 <= k < 4 ==> rules.size(NEW.txs[k]) <= MAX_BLOCK_BASE_SIZE
  }

  lemma NewIsSane(rules: Rules)
    requires Lenient(rules)
    ensures SaneBlock(NEW, rules) && Fresh(UNSPENT, NEW.txs)
  {
    var txs := NEW.txs;
    forall i, j | 0 <= i < j < 4 ensures IdsDiffer(txs, i, j) {
    }
    forall k | 0 <= k < 4 ensures SaneTxAt(txs, rules, k) {
      OutTotals(txs[k]);
    }
  }

  lemma OutTotals(tx: Tx)
    requires |tx.outs| == 1 || |tx.outs| == 2
    ensures Out(tx) == tx.outs[0].value + if |tx.outs| == 2 then tx.outs[1].value else 0
  {
    assert OutSum(tx, 0) == 0 && OutSum(tx, 1) == tx.outs[0].value;
  }

  /** The second output of the split is referred to before it is made, and added because of the first one's spender. */
  lemma SecondIsAhead()
    ensures Ahead(NEW.txs, OutPoint(2, 1))
    ensures Early({OutPoint(2, 1)}, NEW.txs, OutPoint(2, 1)) && Added(NEW.txs, OutPoint(2, 0)) && !ForwardRef(NEW.txs, OutPoint(2, 0))
  {
    var txs, o := NEW.txs, OutPoint(2, 1);
    assert RefAt(txs, 1, 0, o) && HasId(txs, 1, 4, 2) by {
      assert txs[2].id == 2;
    }
    assert PointsBack(txs, 3, 0, 2) && Seen(3, 0, 3, 0);
    assert TriggeredTo(txs, 3, 0, 2);
    assert Creates(txs[2], 2, o) && Creates(txs[2], 2, OutPoint(2, 0));
    forall k: nat, j: nat | RefAt(txs, k, j, OutPoint(2, 0)) ensures !HasId(txs, k, 4, 2) {
      assert k == 3;
    }
  }

  const COIN := Coin(5, [], 2, false)

  /** The set with both outputs of the split in it before the split is made. */
  const EARLY: Utxos := UNSPENT[OutPoint(2, 0) := COIN][OutPoint(2, 1) := COIN]

  lemma OnlySplitIsAdded(o: OutPoint)
    ensures Added(NEW.txs, o) ==> o == OutPoint(2, 0) || o == OutPoint(2, 1)
  {
    var txs := NEW.txs;
    if Added(txs, o) {
      var t: nat :| t < 4 && Creates(txs[t], |txs[t].outs|, o) && TriggeredTo(txs, 3, 0, t);
      var k: nat, j: nat :| PointsBack(txs, k, j, t) && Seen(3, 0, k, j);
      assert k == 3 && t == 2;
    }
  }

  lemma EarlyIs(keys: set<OutPoint>)
    requires OutPoint(2, 1) in keys
    ensures EarlySet(UNSPENT, EARLY, keys, NEW.txs, 2)
  {
    hide AddedTo, ForwardRef;
    var txs := NEW.txs;
    SecondIsAhead();
    forall o ensures EarlyAt(UNSPENT, EARLY, keys, txs, 2, o) {
      OnlySplitIsAdded(o);
      if o == OutPoint(2, 0) || o == OutPoint(2, 1) {
        assert Creates(txs[2], |txs[2].outs|, o) && OutputCoin(txs[2], 2, o.index) == COIN;
        assert MadeHere(txs, 2, o, COIN);
      }
    }
  }

  const AFTER_SECOND: Utxos := map[FUNDING := Coin(10, [], 1, false), OutPoint(2, 0) := COIN, OutPoint(3, 0) := COIN]
  const AFTER_SPLIT: Utxos := map[OutPoint(2, 0) := COIN, OutPoint(2, 1) := COIN, OutPoint(3, 0) := COIN]
  const AFTER_FIRST: Utxos := map[OutPoint(2, 1) := COIN, OutPoint(3, 0) := COIN, OutPoint(4, 0) := COIN]

  lemma OneIn(u: Utxos, tx: Tx, height: int)
    requires |tx.ins| == 1 && !IsCoinBase(tx) && 1 <= |tx.outs| <= 2 && forall i :: 0 <= i < |tx.outs| ==> !tx.outs[i].unspendable
    ensures ApplyTx(u, tx, height) ==
      var w := (u - {tx.ins[0].prev})[OutPoint(tx.id, 0) := OutputCoin(tx, height, 0)];
      if |tx.outs| == 1 then w else w[OutPoint(tx.id, 1) := OutputCoin(tx, height, 1)]
  {
    var ins := Spends(tx);
    assert RemoveInputs(u, ins, 0) == u && RemoveInputs(u, ins, 1) == u - {tx.ins[0].prev};
    var r := u - {tx.ins[0].prev};
    assert AddOutputs(r, tx, height, 0) == r;
    assert AddOutputs(r, tx, height, 1) == r[OutPoint(tx.id, 0) := OutputCoin(tx, height, 0)];
  }

  lemma CoinbaseAddsNothing(u: Utxos)
    ensures ApplyTx(u, NEW.txs[0], 2) == u
  {
    var tx := NEW.txs[0];
    assert RemoveInputs(u, [], 0) == u && AddOutputs(u, tx, 2, 0) == u && AddOutputs(u, tx, 2, 1) == u;
  }

  /** The block applied to the set with early outputs, transaction by transaction. */
  lemma States()
    ensures ApplyTxs(EARLY, NEW.txs, 2, 0) == EARLY && ApplyTxs(EARLY, NEW.txs, 2, 1) == EARLY
    ensures ApplyTxs(EARLY, NEW.txs, 2, 2) == AFTER_SECOND
    ensures ApplyTxs(EARLY, NEW.txs, 2, 3) == AFTER_SPLIT
    ensures ApplyTxs(EARLY, NEW.txs, 2, 4) == AFTER_FIRST
  {
    hide ApplyTx;
    CoinbaseAddsNothing(EARLY);
    OneIn(EARLY, SECOND, 2);
    assert (EARLY - {OutPoint(2, 1)})[OutPoint(3, 0) := COIN] == AFTER_SECOND;
    OneIn(AFTER_SECOND, SPLIT, 2);
    assert (AFTER_SECOND - {FUNDING})[OutPoint(2, 0) := COIN][OutPoint(2, 1) := COIN] == AFTER_SPLIT;
    OneIn(AFTER_SPLIT, FIRST, 2);
    assert (AFTER_SPLIT - {OutPoint(2, 0)})[OutPoint(4, 0) := COIN] == AFTER_FIRST;
  }

  /** Every transaction passes, and no fee is left. */
  lemma Passes(rules: Rules, k: nat)
    requires k < 4
    ensures InputsOkAt(EARLY, NEW.txs, 2, rules.maturity, k) && FeeAt(EARLY, NEW.txs, 2, k) == 0
  {
    hide ApplyTxs;
    States();
    var tx, s := NEW.txs[k], ApplyTxs(EARLY, NEW.txs, 2, k);
    if k > 0 {
      OutTotals(tx);
      assert InSum(s, tx.ins, 0) == 0 && InSum(s, tx.ins, 1) == CoinAt(s, tx.ins[0].prev).amount;
    }
  }

  lemma Fees()
    ensures FeeSum(EARLY, NEW.txs, 2, 4) == 0
  {
    hide FeeAt;
    var rules := Rules(0, 0, (h, v) => 0, b => true, b => true, b => true, t => 0, (db, h) => None);
    forall k: nat | k < 4 ensures FeeAt(EARLY, NEW.txs, 2, k) == 0 {
      Passes(rules, k);
    }
    assert FeeSum(EARLY, NEW.txs, 2, 0) == 0 && FeeSum(EARLY, NEW.txs, 2, 1) == 0 && FeeSum(EARLY, NEW.txs, 2, 2) == 0;
  }

  lemma EarlyAccepts(rules: Rules)
    requires Lenient(rules)
    ensures Accepts(EARLY, NEW, rules)
  {
    hide InputsOkAt, FeeAt, FeeSum, ApplyTxs;
    forall k | 0 <= k < 4 ensures InputsOkAt(EARLY, NEW.txs, 2, rules.maturity, k) {
      Passes(rules, k);
    }
    Fees();
    OutTotals(NEW.txs[0]);
  }

  lemma Totals()
    ensures Total(UNSPENT) == 10 && Total(AFTER_FIRST) == 15
  {
    var a: Utxos := map[OutPoint(2, 1) := COIN];
    var b := a[OutPoint(3, 0) := COIN];
    assert Total(map[]) == 0;
    TotalPut(map[], FUNDING, Coin(10, [], 1, false));
    TotalPut(map[], OutPoint(2, 1), COIN);
    TotalPut(a, OutPoint(3, 0), COIN);
    TotalPut(b, OutPoint(4, 0), COIN);
    assert UNSPENT == map[][FUNDING := Coin(10, [], 1, false)] && a == map[][OutPoint(2, 1) := COIN];
    assert AFTER_FIRST == b[OutPoint(4, 0) := COIN];
  }

  /**
   On any view with a key for the second output, the block passes although it breaks the rules, and five units
   more are unspent afterwards, more than the subsidy.
   */
  lemma AcceptedWrongly(keys: set<OutPoint>, rules: Rules)
    requires OutPoint(2, 1) in keys && Lenient(rules)
    ensures SaneBlock(NEW, rules) && Fresh(UNSPENT, NEW.txs) && Exposed(keys, NEW.txs)
    ensures Accepts(WithEarly(UNSPENT, keys, NEW.txs, 2), NEW, rules) && !Accepts(UNSPENT, NEW, rules)
    ensures Total(ApplyBlock(UNSPENT, NEW)) == Total(UNSPENT) + 5 > Total(UNSPENT) + rules.Reward(NEW)
  {
    hide Accepts, Ahead, Early, EarlySet, ApplyTxs, Fresh, SaneBlock;
    NewIsSane(rules);
    SecondIsAhead();
    EarlyIs(keys);
    ForwardIsDistinct();
    EarlyUnique(UNSPENT, EARLY, keys, NEW.txs, 2);
    EarlyAccepts(rules);
    AheadIsForward();
    ForwardRefused(UNSPENT, NEW, rules, OutPoint(2, 1));
    SameAfter(UNSPENT, EARLY, keys, NEW.txs, 2);
    States();
    Totals();
  }

  lemma ForwardIsDistinct()
    ensures DistinctIds(NEW.txs)
  {
  }

  lemma AheadIsForward()
    ensures ForwardRef(NEW.txs, OutPoint(2, 1))
  {
    SecondIsAhead();
  }

  const SPLIT_STATE: Utxos := map[OutPoint(2, 0) := COIN, OutPoint(2, 1) := COIN]

  /** What the old block did: it spent the ten units and made the two outputs. */
  lemma OldBlock()
    ensures Sane(OLD.txs) && Sane(NEW.txs) && Fresh(UNSPENT, OLD.txs) && AllSpendable(UNSPENT, OLD.txs, 2, 2)
    ensures ApplyTxs(UNSPENT, OLD.txs, 2, 2) == SPLIT_STATE
    ensures Journal(UNSPENT, OLD.txs, 2, 2) == [Coin(10, [], 1, false)] && SpendCount(OLD.txs, 2) == 1
  {
    var txs, u := OLD.txs, UNSPENT;
    assert RemoveInputs(u, [], 0) == u && AddOutputs(u, txs[0], 2, 0) == u && AddOutputs(u, txs[0], 2, 1) == u;
    assert ApplyTxs(u, txs, 2, 0) == u && ApplyTxs(u, txs, 2, 1) == u;
    OneIn(u, SPLIT, 2);
    assert SpendableAt(u, txs, 2, 0) && SpendableAt(u, txs, 2, 1);
    assert IdsDiffer(txs, 0, 1);
    ForwardIsDistinct();
    assert SpentCoins(u, SPLIT.ins, 0) == [] && SpentCoins(u, SPLIT.ins, 1) == [Coin(10, [], 1, false)];
    assert SpentAt(u, txs, 2, 0) == [] && SpentAt(u, txs, 2, 1) == [Coin(10, [], 1, false)];
    assert Journal(u, txs, 2, 0) == [] && Journal(u, txs, 2, 1) == [];
    assert SpendCount(txs, 0) == 0 && SpendCount(txs, 1) == 0;
  }

  /** The search by hash of a database that keeps the outputs of a transaction in order. */
  function FirstOutput(db: Utxos, h: Hash): Option<Coin> {
    if OutPoint(h, 0) in db then Some(db[OutPoint(h, 0)]) else None
  }

  /**
   Had the old block's one record been stored without its height, undoing the block would not give the ten units
   back as they were: the search under the id of the spender finds the wrong height.
   */
  lemma LegacyRecordLost()
    ensures LegacyOf(Journal(UNSPENT, OLD.txs, 2, 2), [Coin(10, [], 0, false)]) && SpendCount(OLD.txs, 2) == 1
    ensures var r := Undone(map[], SPLIT_STATE, FirstOutput, OLD.txs, 2, [Coin(10, [], 0, false)], 2);
      r.stuck.None? && Overlay(r.entries, SPLIT_STATE) != UNSPENT
  {
    hide AgreeOutside, AllSpendable, ApplyTxs, Journal, Fresh, DistinctIds, Undone;
    var stored := [Coin(10, [], 0, false)];
    OldBlock();
    OldSetting();
    NothingLoaded(SPLIT_STATE);
    LegacyExactIff(map[], SPLIT_STATE, FirstOutput, UNSPENT, OLD.txs, 2, stored);
    assert !RecoverableAt(OLD.txs, stored, 1, 0);
    assert !Recoverable(OLD.txs, stored, 1);
    assert Spends(OLD.txs[0]) == [] && !Unfillable(OLD.txs, stored, 0);
    assert !SPLIT.outs[0].unspendable && HasOutput(SPLIT);
  }

  lemma OldSetting()
    ensures Setting(UNSPENT, OLD.txs, 2) && OwnBelow(map[], SPLIT_STATE, OLD.txs, 2, 2)
    ensures AgreeOutside(SPLIT_STATE, SPLIT_STATE, OLD.txs, 0, 2)
    ensures forall t :: 0 <= t < 2 ==> Finds(FirstOutput, SPLIT_STATE, OLD.txs[t].id)
  {
    hide AllSpendable, ApplyTxs, Fresh, DistinctIds;
    OldBlock();
    assert DistinctIds(OLD.txs) by {
      SaneIsDistinct(OLD.txs);
    }
    forall t, o | 0 <= t < 2 ensures OwnAt(map[], SPLIT_STATE, OLD.txs, 2, t, o) {
    }
    forall o ensures Same(SPLIT_STATE, SPLIT_STATE, o) {
    }
    assert FirstOutput(SPLIT_STATE, 2) == Some(SPLIT_STATE[OutPoint(2, 0)]);
  }

  lemma SaneIsDistinct(txs: seq<Tx>)
    requires Sane(txs)
    ensures DistinctIds(txs)
  {
  }

  /** A view that has undone the old block, above the database that still has it. */
  method UndoneView() returns (view: UtxoViewpoint)
    ensures fresh(view) && Synced(view.entries, SPLIT_STATE) && Overlay(view.entries, SPLIT_STATE) == UNSPENT
    ensures OutPoint(2, 1) in view.entries && view.bestHash == NEW.prev
  {
    hide Sane, Fetched, DisconnectTxs, AllSpendable, ApplyTxs, Journal, SpendCount, Fresh;
    OldBlock();
    view := new UtxoViewpoint(OLD.hash);
    ghost var start := view.entries;
    NothingLoaded(SPLIT_STATE);
    view.FetchInputUtxos(SPLIT_STATE, OLD);
    ghost var fetched := view.entries;
    FirstSpendsNothing(OLD.txs);
    FetchMeans(start, fetched, SPLIT_STATE, OLD.txs, 2);
    EarlyAgrees(SPLIT_STATE, Overlay(fetched, SPLIT_STATE), start.Keys, OLD.txs, 2);
    FreshNeverOverwrites(UNSPENT, OLD.txs, 2);
    DisconnectDenotes(fetched, SPLIT_STATE, UNSPENT, OLD.txs, 2);
    UndoneComplete(fetched, SPLIT_STATE, FirstOutput, OLD.txs, 2, [Coin(10, [], 1, false)], 2);
    var r := view.DisconnectTransactions(SPLIT_STATE, FirstOutput, OLD, [Coin(10, [], 1, false)]);
    assert CreatedBy(OLD.txs, 0, 2, OutPoint(2, 1)) by {
      assert Creates(OLD.txs[1], 2, OutPoint(2, 1));
    }
    DisconnectedKeys(fetched, OLD.txs, 2, [Coin(10, [], 1, false)], 2, OutPoint(2, 1));
  }

  lemma NothingLoaded(db: Utxos)
    ensures Synced(map[], db) && Overlay(map[], db) == db
  {
    forall o ensures Lookup(map[], db, o) == if o in db then Some(db[o]) else None {
    }
  }

  /** An output the view does not stand for has no key after a flush. */
  lemma FlushForgets(v: Entries, db: Utxos, o: OutPoint)
    requires Synced(v, db) && o !in Overlay(v, db)
    ensures o !in CommitEntries(v)
  {
  }

  lemma SubsidyFits(rules: Rules)
    requires Lenient(rules)
    ensures rules.Reward(NEW) < 0x8000_0000_0000_0000 && NEW.hash != rules.genesis
  {
  }

  /**
   The dry run of the replacement passes, and the real run of the same two steps then finds an input missing.
   */
  method DryRunDiffers(rules: Rules) returns (dry: Verdict, missing: Option<OutPoint>)
    requires Lenient(rules)
    ensures dry.Pass? && missing.Some?
  {
    hide Sane, Fetched, Accepts, Exposed, Fresh, AllPresent, Ahead, SaneBlock, Overlay, Lenient;
    OldBlock();
    AcceptedWrongly({OutPoint(2, 1)}, rules);
    var view := UndoneView();
    AcceptedWrongly(view.entries.Keys, rules);
    SubsidyFits(rules);
    var journal;
    dry, journal := CheckConnectBlock(view, SPLIT_STATE, NEW, rules, [], UNSPENT);
    var view2 := UndoneView();
    FlushForgets(view2.entries, SPLIT_STATE, OutPoint(2, 1));
    var flushed := BlockChain.PutUtxoView(SPLIT_STATE, view2.entries);
    view2.Commit();
    ghost var start := view2.entries;
    view2.FetchInputUtxos(flushed, NEW);
    ForwardIsDistinct();
    AheadIsForward();
    ForwardNeverConnects(start, view2.entries, flushed, NEW.txs, 2, OutPoint(2, 1));
    var out;
    missing, out := view2.ConnectTransactions(NEW, []);
  }
}
