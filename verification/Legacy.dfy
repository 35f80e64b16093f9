/**
 Undoing a block whose journal has records of the first format, which kept no height and no coinbase flag.
 disconnectTransactions (pkg/blockchain/utxoviewpoint.go) looks the two up, under the id of the transaction that
 spends and not of the one that was spent.  The main result says for which records that is good enough.
 */
module Legacy {
  import opened Wire
  import opened Ledger
  import opened UtxoView
  import opened Fetch

  /** MaxOutputsPerBlock: the weight limit of a block over the weight of the smallest output. */
  const MAX_OUTPUTS: nat := 4000000 / 36

  /** The output of a transaction that the database cursor meets first. */
  type Finder = (Utxos, Hash) -> Option<Coin>

  /** The answer to a search for any output of transaction `h`. */
  ghost predicate Answers(db: Utxos, h: Hash, found: Option<Coin>) {
    match found
    case None => forall o :: o in db ==> o.hash != h
    case Some(c) => exists o :: o in db && o.hash == h && db[o] == c
  }

  ghost predicate Finds(find: Finder, db: Utxos, h: Hash) {
    Answers(db, h, find(db, h))
  }

  /** The first entry of a transaction from index `i` on. */
  function EntryFrom(v: Entries, h: Hash, i: nat): Option<Coin>
    decreases MAX_OUTPUTS - i
  {
    if i >= MAX_OUTPUTS then None
    else if OutPoint(h, i) in v && v[OutPoint(h, i)].Some? then Some(v[OutPoint(h, i)].value.coin)
    else EntryFrom(v, h, i + 1)
  }

  /** What fetchEntryByHash returns. */
  function ByHash(v: Entries, db: Utxos, find: Finder, h: Hash): Option<Coin> {
    if EntryFrom(v, h, 0).Some? then EntryFrom(v, h, 0) else find(db, h)
  }

  /** The record with what it lacks filled in from an entry of transaction `id`. */
  function Filled(v: Entries, db: Utxos, find: Finder, id: Hash, c: Coin): Option<Coin> {
    if c.height != 0 then Some(c)
    else match ByHash(v, db, find, id)
      case None => None
      case Some(e) => Some(Coin(c.amount, c.script, e.height, e.coinbase))
  }

  /** A missing entry is created, empty, before the record is looked at. */
  function Touch(v: Entries, o: OutPoint): Entries {
    if o in v && v[o].Some? then v else v[o := Some(Entry(NO_COIN, false, false))]
  }

  /** `stuck` is the first input, from the end, whose record could not be completed. */
  datatype Undoing = Undoing(entries: Entries, stuck: Option<OutPoint>)

  /** Puts back the inputs from position `i` on, the last one first. */
  function RestoreFrom(v: Entries, db: Utxos, find: Finder, id: Hash, ins: seq<TxIn>, coins: seq<Coin>, i: nat): Undoing
    requires i <= |ins| == |coins|
    decreases |ins| - i
  {
    if i == |ins| then Undoing(v, None)
    else
      var r := RestoreFrom(v, db, find, id, ins, coins, i + 1);
      if r.stuck.Some? then r else RestoreOne(r.entries, db, find, id, ins[i].prev, coins[i])
  }

  function RestoreOne(v: Entries, db: Utxos, find: Finder, id: Hash, o: OutPoint, c: Coin): Undoing {
    var w := Touch(v, o);
    match Filled(w, db, find, id, c)
    case None => Undoing(w, Some(o))
    case Some(full) => Undoing(w[o := Some(Entry(full, false, true))], None)
  }

  /** Once stuck, the earlier inputs are not looked at. */
  lemma {:induction false} StuckStaysDown(v: Entries, db: Utxos, find: Finder, id: Hash, ins: seq<TxIn>, coins: seq<Coin>, i: nat)
    requires i <= |ins| == |coins| && RestoreFrom(v, db, find, id, ins, coins, i).stuck.Some?
    ensures RestoreFrom(v, db, find, id, ins, coins, 0) == RestoreFrom(v, db, find, id, ins, coins, i)
    decreases i
  {
    if i > 0 {
      StuckStaysDown(v, db, find, id, ins, coins, i - 1);
    }
  }

  function UndoneTx(v: Entries, db: Utxos, find: Finder, tx: Tx, height: int, coins: seq<Coin>): Undoing
    requires |coins| == |Spends(tx)|
  {
    RestoreFrom(RemoveEntries(v, tx, height, |tx.outs|), db, find, tx.id, Spends(tx), coins, 0)
  }

  /** The view after undoing the first `k` transactions, the last one first, as far as the records allow. */
  function Undone(v: Entries, db: Utxos, find: Finder, txs: seq<Tx>, height: int, journal: seq<Coin>, k: nat): Undoing
    requires k <= |txs| && SpendCount(txs, k) <= |journal|
    decreases k
  {
    if k == 0 then Undoing(v, None)
    else
      var r := UndoneTx(v, db, find, txs[k-1], height, Records(txs, journal, k - 1));
      if r.stuck.Some? then r else Undone(r.entries, db, find, txs, height, journal, k - 1)
  }

  // ----- records that have their height -----

  predicate WithHeights(coins: seq<Coin>) {
    forall i :: 0 <= i < |coins| ==> coins[i].height != 0
  }

  lemma OneComplete(w: Entries, db: Utxos, find: Finder, id: Hash, o: OutPoint, c: Coin)
    requires c.height != 0
    ensures RestoreOne(w, db, find, id, o, c) == Undoing(w[o := Some(Entry(c, false, true))], None)
  {
    var e := Some(Entry(c, false, true));
    assert Touch(w, o)[o := e] == w[o := e];
  }

  lemma {:induction false} RestoreComplete(v: Entries, db: Utxos, find: Finder, id: Hash, ins: seq<TxIn>, coins: seq<Coin>, i: nat)
    requires i <= |ins| == |coins| && WithHeights(coins)
    ensures RestoreFrom(v, db, find, id, ins, coins, i) == Undoing(RestoreEntries(v, ins, coins, i), None)
    decreases |ins| - i
  {
    if i < |ins| {
      hide RestoreOne;
      RestoreComplete(v, db, find, id, ins, coins, i + 1);
      OneComplete(RestoreFrom(v, db, find, id, ins, coins, i + 1).entries, db, find, id, ins[i].prev, coins[i]);
    }
  }

  /** Without legacy records nothing is looked up, and the undo never gets stuck. */
  lemma {:induction false} UndoneComplete(v: Entries, db: Utxos, find: Finder, txs: seq<Tx>, height: int, journal: seq<Coin>, k: nat)
    requires k <= |txs| && SpendCount(txs, k) <= |journal| && WithHeights(journal)
    ensures Undone(v, db, find, txs, height, journal, k) == Undoing(DisconnectTxs(v, txs, height, journal, k), None)
    decreases k
  {
    if k > 0 {
      var coins := Records(txs, journal, k - 1);
      RestoreComplete(RemoveEntries(v, txs[k-1], height, |txs[k-1].outs|), db, find, txs[k-1].id, Spends(txs[k-1]), coins, 0);
      UndoneComplete(DisconnectTx(v, txs[k-1], height, coins), db, find, txs, height, journal, k - 1);
    }
  }

  // ----- what the lookup finds -----

  /** Entries and coins of the block's transactions are outputs the block made, at the block's height. */
  ghost predicate OwnAt(v: Entries, db: Utxos, txs: seq<Tx>, height: int, k: nat, o: OutPoint)
    requires k < |txs|
  {
    o.hash == txs[k].id ==>
      (o in db ==> Creates(txs[k], |txs[k].outs|, o) && db[o].height == height) &&
      (o in v && v[o].Some? ==> Creates(txs[k], |txs[k].outs|, o) && v[o].value.coin.height == height)
  }

  predicate HasOutput(tx: Tx) {
    exists i :: 0 <= i < |tx.outs| && !tx.outs[i].unspendable
  }

  lemma {:induction false} EntryFromSome(v: Entries, h: Hash, i: nat, j: nat)
    requires i <= j < MAX_OUTPUTS && OutPoint(h, j) in v && v[OutPoint(h, j)].Some?
    ensures EntryFrom(v, h, i).Some?
    decreases j - i
  {
    if i < j {
      EntryFromSome(v, h, i + 1, j);
    }
  }

  lemma {:induction false} EntryFromIs(v: Entries, h: Hash, i: nat) returns (o: OutPoint)
    ensures EntryFrom(v, h, i).Some? ==> o.hash == h && o in v && v[o].Some? && v[o].value.coin == EntryFrom(v, h, i).value
    decreases MAX_OUTPUTS - i
  {
    o := OutPoint(h, i);
    if i < MAX_OUTPUTS && !(o in v && v[o].Some?) {
      o := EntryFromIs(v, h, i + 1);
    }
  }

  /** `o` looks the same in both views. */
  predicate SameKey(v: Entries, w: Entries, o: OutPoint) {
    (o in v <==> o in w) && (o in v ==> v[o] == w[o])
  }

  ghost predicate SameUnder(v: Entries, w: Entries, h: Hash) {
    forall o: OutPoint :: o.hash == h ==> SameKey(v, w, o)
  }

  lemma {:induction false} EntryFromSame(v: Entries, w: Entries, h: Hash, i: nat)
    requires SameUnder(v, w, h)
    ensures EntryFrom(v, h, i) == EntryFrom(w, h, i)
    decreases MAX_OUTPUTS - i
  {
    if i < MAX_OUTPUTS {
      assert SameKey(v, w, OutPoint(h, i));
      EntryFromSame(v, w, h, i + 1);
    }
  }

  function Fill(c: Coin, e: Coin): Coin {
    if c.height != 0 then c else Coin(c.amount, c.script, e.height, e.coinbase)
  }

  function FillAll(coins: seq<Coin>, e: Coin): seq<Coin> {
    seq(|coins|, i requires 0 <= i < |coins| => Fill(coins[i], e))
  }

  ghost predicate HasLegacy(coins: seq<Coin>, i: nat) {
    exists m :: i <= m < |coins| && coins[m].height == 0
  }

  lemma OneKeeps(v: Entries, w: Entries, db: Utxos, find: Finder, id: Hash, o: OutPoint, c: Coin)
    requires SameUnder(v, w, id) && o.hash != id
    ensures SameUnder(v, RestoreOne(w, db, find, id, o, c).entries, id)
    ensures ByHash(Touch(w, o), db, find, id) == ByHash(v, db, find, id)
  {
    forall p: OutPoint | p.hash == id ensures SameKey(v, RestoreOne(w, db, find, id, o, c).entries, p) && SameKey(v, Touch(w, o), p) {
      assert SameKey(v, w, p);
    }
    EntryFromSame(v, Touch(w, o), id, 0);
  }

  predicate OthersOnly(ins: seq<TxIn>, id: Hash) {
    forall m :: 0 <= m < |ins| ==> ins[m].prev.hash != id
  }

  /** Inputs of other transactions leave the entries of this one, and with them the lookup, as they are. */
  lemma {:induction false} RestoreKeeps(v: Entries, db: Utxos, find: Finder, id: Hash, ins: seq<TxIn>, coins: seq<Coin>, i: nat)
    requires i <= |ins| == |coins| && OthersOnly(ins, id)
    ensures SameUnder(v, RestoreFrom(v, db, find, id, ins, coins, i).entries, id)
    decreases |ins| - i
  {
    if i < |ins| {
      RestoreKeeps(v, db, find, id, ins, coins, i + 1);
      OneKeeps(v, RestoreFrom(v, db, find, id, ins, coins, i + 1).entries, db, find, id, ins[i].prev, coins[i]);
    }
  }

  lemma OneFills(w: Entries, db: Utxos, find: Finder, id: Hash, o: OutPoint, c: Coin)
    requires ByHash(Touch(w, o), db, find, id).Some?
    ensures RestoreOne(w, db, find, id, o, c) ==
      Undoing(w[o := Some(Entry(Fill(c, ByHash(Touch(w, o), db, find, id).value), false, true))], None)
  {
    hide ByHash;
    var e := Some(Entry(Fill(c, ByHash(Touch(w, o), db, find, id).value), false, true));
    assert Touch(w, o)[o := e] == w[o := e];
  }

  /** Every record of a transaction is completed by the same entry. */
  lemma {:induction false} RestoreFills(v: Entries, db: Utxos, find: Finder, id: Hash, ins: seq<TxIn>, coins: seq<Coin>, i: nat)
    requires i <= |ins| == |coins| && OthersOnly(ins, id) && ByHash(v, db, find, id).Some?
    ensures RestoreFrom(v, db, find, id, ins, coins, i) ==
      Undoing(RestoreEntries(v, ins, FillAll(coins, ByHash(v, db, find, id).value), i), None)
    decreases |ins| - i
  {
    if i < |ins| {
      RestoreFills(v, db, find, id, ins, coins, i + 1);
      RestoreKeeps(v, db, find, id, ins, coins, i + 1);
      hide ByHash, SameUnder, RestoreOne, Touch, Fill;
      var w := RestoreFrom(v, db, find, id, ins, coins, i + 1).entries;
      OneKeeps(v, w, db, find, id, ins[i].prev, coins[i]);
      OneFills(w, db, find, id, ins[i].prev, coins[i]);
    }
  }

  lemma OneSticks(w: Entries, db: Utxos, find: Finder, id: Hash, o: OutPoint, c: Coin)
    requires c.height == 0 && ByHash(Touch(w, o), db, find, id).None?
    ensures RestoreOne(w, db, find, id, o, c).stuck.Some?
  {
  }

  /** Without such an entry the undo gets stuck at the first legacy record. */
  lemma {:induction false} RestoreSticks(v: Entries, db: Utxos, find: Finder, id: Hash, ins: seq<TxIn>, coins: seq<Coin>, i: nat)
    requires i <= |ins| == |coins| && OthersOnly(ins, id) && ByHash(v, db, find, id).None?
    ensures var r := RestoreFrom(v, db, find, id, ins, coins, i);
      if HasLegacy(coins, i) then r.stuck.Some? else r == Undoing(RestoreEntries(v, ins, coins, i), None)
    decreases |ins| - i
  {
    if i < |ins| {
      RestoreSticks(v, db, find, id, ins, coins, i + 1);
      RestoreKeeps(v, db, find, id, ins, coins, i + 1);
      hide ByHash, SameUnder, RestoreOne, Touch;
      var w := RestoreFrom(v, db, find, id, ins, coins, i + 1).entries;
      OneKeeps(v, w, db, find, id, ins[i].prev, coins[i]);
      if coins[i].height != 0 {
        OneComplete(w, db, find, id, ins[i].prev, coins[i]);
      } else {
        OneSticks(w, db, find, id, ins[i].prev, coins[i]);
      }
      assert HasLegacy(coins, i) <==> coins[i].height == 0 || HasLegacy(coins, i + 1);
    }
  }

  // ----- what one transaction's undo leaves for the earlier ones -----

  lemma {:induction false} RestoredAt(v: Entries, ins: seq<TxIn>, coins: seq<Coin>, i: nat, o: OutPoint) returns (m: nat)
    requires i <= |ins| == |coins|
    ensures SameKey(v, RestoreEntries(v, ins, coins, i), o) ||
      (m < |ins| && ins[m].prev == o && o in RestoreEntries(v, ins, coins, i) &&
       RestoreEntries(v, ins, coins, i)[o] == Some(Entry(coins[m], false, true)))
    decreases |ins| - i
  {
    m := i;
    if i < |ins| && ins[i].prev != o {
      m := RestoredAt(v, ins, coins, i + 1, o);
    }
  }

  /** Marking the outputs of `tx` spent changes no other entry, and leaves one of the block's height for each. */
  lemma {:induction false} RemovedAt(v: Entries, tx: Tx, height: int, k: nat, o: OutPoint)
    requires k <= |tx.outs|
    ensures var w := RemoveEntries(v, tx, height, k);
      if Creates(tx, k, o) then
        o in w && w[o].Some? &&
        ((o in v && v[o].Some? ==> v[o].value.coin.height == height) ==> w[o].value.coin.height == height)
      else SameKey(v, w, o)
    decreases k
  {
    if k > 0 {
      RemovedAt(v, tx, height, k - 1, o);
    }
  }

  ghost predicate OwnBelow(v: Entries, db: Utxos, txs: seq<Tx>, height: int, k: nat) {
    forall t, o :: 0 <= t < k && t < |txs| ==> OwnAt(v, db, txs, height, t, o)
  }

  /** The lookup for the last of the transactions finds an entry exactly when it has an output. */
  lemma LookupFinds(v: Entries, db: Utxos, find: Finder, txs: seq<Tx>, height: int, t: nat)
    requires t < |txs| && |txs[t].outs| <= MAX_OUTPUTS && Finds(find, db, txs[t].id)
    requires forall o :: OwnAt(v, db, txs, height, t, o)
    ensures var e := ByHash(RemoveEntries(v, txs[t], height, |txs[t].outs|), db, find, txs[t].id);
      (e.Some? <==> HasOutput(txs[t])) && (e.Some? ==> e.value.height == height)
  {
    var tx := txs[t];
    var w := RemoveEntries(v, tx, height, |tx.outs|);
    var o := EntryFromIs(w, tx.id, 0);
    RemovedAt(v, tx, height, |tx.outs|, o);
    assert OwnAt(v, db, txs, height, t, o);
    forall p | p in db && p.hash == tx.id ensures HasOutput(tx) {
      assert OwnAt(v, db, txs, height, t, p);
      assert !tx.outs[p.index].unspendable;
    }
    if HasOutput(tx) {
      var i :| 0 <= i < |tx.outs| && !tx.outs[i].unspendable;
      RemovedAt(v, tx, height, |tx.outs|, OutPoint(tx.id, i));
      EntryFromSome(w, tx.id, 0, i);
    }
  }

  /** A coin of the block's own transactions carries the block's height. */
  lemma {:induction false} OwnCoin(u: Utxos, txs: seq<Tx>, height: int, k: nat, o: OutPoint)
    requires k <= |txs| && Fresh(u, txs) && o in ApplyTxs(u, txs, height, k) && HasId(txs, 0, |txs|, o.hash)
    ensures ApplyTxs(u, txs, height, k)[o].height == height
    ensures exists t :: 0 <= t < k && Creates(txs[t], |txs[t].outs|, o)
  {
    assert k > 0;
    ApplyTxLookup(ApplyTxs(u, txs, height, k - 1), txs[k-1], height, o);
    if !Creates(txs[k-1], |txs[k-1].outs|, o) {
      OwnCoin(u, txs, height, k - 1, o);
    }
  }

  /** The block is in order on `u`, whose coins are older than the block. */
  ghost predicate Setting(u: Utxos, txs: seq<Tx>, height: int) {
    height > 0 && AllSpendable(u, txs, height, |txs|) && DistinctIds(txs) && Fresh(u, txs) &&
    (forall o :: o in u ==> 0 < u[o].height < height) &&
    forall t :: 0 <= t < |txs| ==> |txs[t].outs| <= MAX_OUTPUTS
  }

  /** A record as it was written, or without height and flag. */
  predicate LegacyAt(journal: seq<Coin>, stored: seq<Coin>, p: nat)
    requires p < |journal| == |stored|
  {
    stored[p] == journal[p] || stored[p] == Coin(journal[p].amount, journal[p].script, 0, false)
  }

  predicate LegacyOf(journal: seq<Coin>, stored: seq<Coin>) {
    |journal| == |stored| && forall p :: 0 <= p < |journal| ==> LegacyAt(journal, stored, p)
  }

  /** The stored records of transaction `k` are what it spent, some perhaps in the first format. */
  ghost predicate RecordedAt(u: Utxos, txs: seq<Tx>, height: int, stored: seq<Coin>, k: nat)
    requires k < |txs|
  {
    SpendCount(txs, k + 1) <= |stored| && LegacyOf(SpentAt(u, txs, height, k), Records(txs, stored, k))
  }

  lemma RecordedEverywhere(u: Utxos, txs: seq<Tx>, height: int, stored: seq<Coin>)
    requires LegacyOf(Journal(u, txs, height, |txs|), stored)
    ensures forall k :: 0 <= k < |txs| ==> RecordedAt(u, txs, height, stored, k)
  {
    var j := Journal(u, txs, height, |txs|);
    JournalIsJournal(u, txs, height, |txs|);
    forall k | 0 <= k < |txs| ensures RecordedAt(u, txs, height, stored, k) {
      hide Journal, LegacyOf, Records;
      assert RecordsMatch(u, txs, height, j, k);
      RecordedOnce(txs, j, stored, k);
    }
  }

  lemma RecordedOnce(txs: seq<Tx>, journal: seq<Coin>, stored: seq<Coin>, k: nat)
    requires k < |txs| && SpendCount(txs, k + 1) <= |journal| && LegacyOf(journal, stored)
    ensures SpendCount(txs, k + 1) <= |stored| && LegacyOf(Records(txs, journal, k), Records(txs, stored, k))
  {
    forall m | 0 <= m < |Spends(txs[k])| ensures LegacyAt(Records(txs, journal, k), Records(txs, stored, k), m) {
      assert LegacyAt(journal, stored, SpendCount(txs, k) + m);
    }
  }

  predicate FilledCoin(stored: Coin, filled: Coin, height: int) {
    if stored.height != 0 then filled == stored else filled.height == height
  }

  predicate FilledAt(stored: seq<Coin>, filled: seq<Coin>, height: int) {
    |stored| == |filled| && forall m :: 0 <= m < |stored| ==> FilledCoin(stored[m], filled[m], height)
  }

  /** The records of transaction `t` are complete in `filled`, with the block's height where there was none. */
  predicate FilledTx(txs: seq<Tx>, stored: seq<Coin>, filled: seq<Coin>, height: int, t: nat)
    requires t < |txs|
  {
    SpendCount(txs, t + 1) <= |stored| && SpendCount(txs, t + 1) <= |filled| && FilledAt(Records(txs, stored, t), Records(txs, filled, t), height)
  }

  /** What an input of the block names is available and belongs to no later transaction. */
  lemma InputAt(u: Utxos, txs: seq<Tx>, height: int, k: nat, m: nat)
    requires Setting(u, txs, height) && k < |txs| && m < |Spends(txs[k])|
    ensures var o := Spends(txs[k])[m].prev;
      o in ApplyTxs(u, txs, height, k) && SpentAt(u, txs, height, k)[m] == ApplyTxs(u, txs, height, k)[o] &&
      !HasId(txs, k, |txs|, o.hash) && o.hash != txs[k].id
  {
    assert SpendableAt(u, txs, height, k);
    var o := Spends(txs[k])[m].prev;
    SpentCoinsAt(ApplyTxs(u, txs, height, k), Spends(txs[k]), |Spends(txs[k])|, m);
    AvailableIsEarlier(u, txs, height, k, o);
    assert HasId(txs, k, |txs|, txs[k].id);
  }

  /** A completed record of an output of the block has the block's height. */
  lemma OwnRecord(u: Utxos, txs: seq<Tx>, height: int, stored: seq<Coin>, cs: seq<Coin>, k: nat, m: nat)
    requires Setting(u, txs, height) && k < |txs| && m < |Spends(txs[k])| && RecordedAt(u, txs, height, stored, k)
    requires FilledAt(Records(txs, stored, k), cs, height) && HasId(txs, 0, |txs|, Spends(txs[k])[m].prev.hash)
    ensures cs[m].height == height
    ensures exists t :: 0 <= t < k && Creates(txs[t], |txs[t].outs|, Spends(txs[k])[m].prev)
  {
    InputAt(u, txs, height, k, m);
    OwnCoin(u, txs, height, k, Spends(txs[k])[m].prev);
    assert LegacyAt(SpentAt(u, txs, height, k), Records(txs, stored, k), m);
    assert FilledCoin(Records(txs, stored, k)[m], cs[m], height);
  }

  /** Undoing transaction `k` keeps what is known of the entries of the earlier ones. */
  lemma StepKeepsOwn(v: Entries, db: Utxos, u: Utxos, txs: seq<Tx>, height: int, stored: seq<Coin>, cs: seq<Coin>, k: nat)
    requires Setting(u, txs, height) && k < |txs| && RecordedAt(u, txs, height, stored, k)
    requires FilledAt(Records(txs, stored, k), cs, height) && OwnBelow(v, db, txs, height, k + 1)
    ensures OwnBelow(DisconnectTx(v, txs[k], height, cs), db, txs, height, k)
  {
    var tx := txs[k];
    var w := RemoveEntries(v, tx, height, |tx.outs|);
    forall t, o | 0 <= t < k && t < |txs| ensures OwnAt(DisconnectTx(v, tx, height, cs), db, txs, height, t, o) {
      assert OwnAt(v, db, txs, height, t, o) && IdsDiffer(txs, t, k);
      if o.hash == txs[t].id {
        RemovedAt(v, tx, height, |tx.outs|, o);
        var m := RestoredAt(w, Spends(tx), cs, 0, o);
        if !SameKey(w, DisconnectTx(v, tx, height, cs), o) {
          assert HasId(txs, 0, |txs|, o.hash);
          OwnRecord(u, txs, height, stored, cs, k, m);
          var s :| 0 <= s < k && Creates(txs[s], |txs[s].outs|, o);
          assert s < t ==> IdsDiffer(txs, s, t);
          assert t < s ==> IdsDiffer(txs, t, s);
        }
      }
    }
  }

  /** Only the records of the transactions undone matter. */
  lemma {:induction false} UndoReadsPrefix(v: Entries, txs: seq<Tx>, height: int, a: seq<Coin>, b: seq<Coin>, k: nat)
    requires k <= |txs| && SpendCount(txs, k) <= |a| && SpendCount(txs, k) <= |b|
    requires a[..SpendCount(txs, k)] == b[..SpendCount(txs, k)]
    ensures DisconnectTxs(v, txs, height, a, k) == DisconnectTxs(v, txs, height, b, k)
    decreases k
  {
    if k > 0 {
      var n, i := SpendCount(txs, k), SpendCount(txs, k - 1);
      assert Records(txs, a, k - 1) == a[..n][i..] == b[..n][i..] == Records(txs, b, k - 1);
      assert a[..i] == a[..n][..i] == b[..n][..i] == b[..i];
      UndoReadsPrefix(DisconnectTx(v, txs[k-1], height, Records(txs, a, k - 1)), txs, height, a, b, k - 1);
    }
  }

  /** Transaction `t` has a record in the first format and no output to complete it from. */
  ghost predicate Unfillable(txs: seq<Tx>, stored: seq<Coin>, t: nat)
    requires t < |txs|
  {
    SpendCount(txs, t + 1) <= |stored| && !HasOutput(txs[t]) && HasLegacy(Records(txs, stored, t), 0)
  }

  /** Undoing one transaction: stuck, or the same as with complete records. */
  lemma FillsTx(v: Entries, db: Utxos, find: Finder, u: Utxos, txs: seq<Tx>, height: int, stored: seq<Coin>, k: nat) returns (cs: seq<Coin>)
    requires Setting(u, txs, height) && k < |txs| && RecordedAt(u, txs, height, stored, k)
    requires OwnBelow(v, db, txs, height, k + 1) && Finds(find, db, txs[k].id)
    ensures var r := UndoneTx(v, db, find, txs[k], height, Records(txs, stored, k));
      if Unfillable(txs, stored, k) then r.stuck.Some?
      else FilledAt(Records(txs, stored, k), cs, height) && r == Undoing(DisconnectTx(v, txs[k], height, cs), None)
  {
    hide AllSpendable, Fresh, ByHash, RestoreFrom, RestoreEntries, RemoveEntries;
    var tx, coins := txs[k], Records(txs, stored, k);
    var w := RemoveEntries(v, tx, height, |tx.outs|);
    forall o ensures OwnAt(v, db, txs, height, k, o) {
    }
    forall m | 0 <= m < |Spends(tx)| ensures Spends(tx)[m].prev.hash != tx.id {
      InputAt(u, txs, height, k, m);
    }
    LookupFinds(v, db, find, txs, height, k);
    cs := coins;
    if HasOutput(tx) {
      RestoreFills(w, db, find, tx.id, Spends(tx), coins, 0);
      cs := FillAll(coins, ByHash(w, db, find, tx.id).value);
    } else {
      RestoreSticks(w, db, find, tx.id, Spends(tx), coins, 0);
    }
  }

  /** Completed records of one more transaction. */
  lemma OneMore(txs: seq<Tx>, stored: seq<Coin>, lower: seq<Coin>, cs: seq<Coin>, height: int, k: nat)
    requires k < |txs| && SpendCount(txs, k + 1) <= |stored| && |lower| == SpendCount(txs, k)
    requires forall t :: 0 <= t < k ==> FilledTx(txs, stored, lower, height, t)
    requires FilledAt(Records(txs, stored, k), cs, height)
    ensures forall t :: 0 <= t <= k ==> FilledTx(txs, stored, lower + cs, height, t)
  {
    assert Records(txs, lower + cs, k) == cs;
    forall t | 0 <= t <= k ensures FilledTx(txs, stored, lower + cs, height, t) {
      if t < k {
        assert FilledTx(txs, stored, lower, height, t);
        RecordsAppend(txs, lower, cs, t);
      }
    }
  }

  /** One of the first `k` transactions cannot be undone. */
  ghost predicate Stops(txs: seq<Tx>, stored: seq<Coin>, k: nat) {
    exists t :: 0 <= t < k && t < |txs| && Unfillable(txs, stored, t)
  }

  lemma StopsLast(txs: seq<Tx>, stored: seq<Coin>, k: nat)
    requires k < |txs|
    ensures Stops(txs, stored, k + 1) <==> Unfillable(txs, stored, k) || Stops(txs, stored, k)
  {
  }

  /** One transaction undone with completed records, and the rest of the run below it. */
  lemma OneUndone(v: Entries, db: Utxos, find: Finder, txs: seq<Tx>, height: int, stored: seq<Coin>, lower: seq<Coin>, cs: seq<Coin>, k: nat)
    requires k < |txs| && SpendCount(txs, k + 1) <= |stored| && |lower| == SpendCount(txs, k) && |cs| == |Spends(txs[k])|
    requires UndoneTx(v, db, find, txs[k], height, Records(txs, stored, k)) == Undoing(DisconnectTx(v, txs[k], height, cs), None)
    ensures Undone(v, db, find, txs, height, stored, k + 1) == Undone(DisconnectTx(v, txs[k], height, cs), db, find, txs, height, stored, k)
    ensures DisconnectTxs(v, txs, height, lower + cs, k + 1) == DisconnectTxs(DisconnectTx(v, txs[k], height, cs), txs, height, lower, k)
  {
    hide *;
    SpliceRecords(txs, lower, cs, k);
    UndoneStep(v, db, find, txs, height, stored, k);
    OneDisconnected(v, txs, height, lower + cs, k);
    UndoReadsPrefix(DisconnectTx(v, txs[k], height, cs), txs, height, lower, lower + cs, k);
  }

  lemma SpliceRecords(txs: seq<Tx>, lower: seq<Coin>, cs: seq<Coin>, k: nat)
    requires k < |txs| && |lower| == SpendCount(txs, k) && |cs| == |Spends(txs[k])|
    ensures SpendCount(txs, k + 1) == |lower + cs| && Records(txs, lower + cs, k) == cs
    ensures lower[..SpendCount(txs, k)] == (lower + cs)[..SpendCount(txs, k)]
  {
  }

  lemma UndoneStep(v: Entries, db: Utxos, find: Finder, txs: seq<Tx>, height: int, stored: seq<Coin>, k: nat)
    requires k < |txs| && SpendCount(txs, k + 1) <= |stored|
    ensures SpendCount(txs, k) <= |stored|
    ensures var r := UndoneTx(v, db, find, txs[k], height, Records(txs, stored, k));
      Undone(v, db, find, txs, height, stored, k + 1) ==
        if r.stuck.Some? then r else Undone(r.entries, db, find, txs, height, stored, k)
  {
    hide UndoneTx, Records;
  }

  lemma OneDisconnected(v: Entries, txs: seq<Tx>, height: int, journal: seq<Coin>, k: nat)
    requires k < |txs| && SpendCount(txs, k + 1) <= |journal|
    ensures SpendCount(txs, k) <= |journal|
    ensures DisconnectTxs(v, txs, height, journal, k + 1) ==
      DisconnectTxs(DisconnectTx(v, txs[k], height, Records(txs, journal, k)), txs, height, journal, k)
  {
    hide DisconnectTx, Records;
  }

  lemma StuckStays(v: Entries, db: Utxos, find: Finder, txs: seq<Tx>, height: int, stored: seq<Coin>, k: nat)
    requires k < |txs| && SpendCount(txs, k + 1) <= |stored|
    requires UndoneTx(v, db, find, txs[k], height, Records(txs, stored, k)).stuck.Some?
    ensures Undone(v, db, find, txs, height, stored, k + 1).stuck.Some?
  {
    hide UndoneTx;
  }

  /** Undoing the first `k` transactions: stuck, or the same as with a complete journal. */
  lemma {:induction false} Fills(v: Entries, db: Utxos, find: Finder, u: Utxos, txs: seq<Tx>, height: int, stored: seq<Coin>, k: nat)
      returns (filled: seq<Coin>)
    requires Setting(u, txs, height) && k <= |txs| && SpendCount(txs, k) <= |stored| && OwnBelow(v, db, txs, height, k)
    requires forall t :: 0 <= t < k ==> RecordedAt(u, txs, height, stored, t) && Finds(find, db, txs[t].id)
    ensures |filled| == SpendCount(txs, k)
    ensures Stops(txs, stored, k) ==> Undone(v, db, find, txs, height, stored, k).stuck.Some?
    ensures !Stops(txs, stored, k) ==>
      Undone(v, db, find, txs, height, stored, k) == Undoing(DisconnectTxs(v, txs, height, filled, k), None) &&
      forall t :: 0 <= t < k ==> FilledTx(txs, stored, filled, height, t)
    decreases k
  {
    filled := [];
    if k > 0 {
      hide *;
      var n := k - 1;
      LastFits(u, txs, height, stored, n);
      var cs := FillsTx(v, db, find, u, txs, height, stored, n);
      StopsLast(txs, stored, n);
      if Unfillable(txs, stored, n) {
        StuckStays(v, db, find, txs, height, stored, n);
        filled := seq(SpendCount(txs, k), i => NO_COIN);
      } else {
        StepKeepsOwn(v, db, u, txs, height, stored, cs, n);
        SameLength(Records(txs, stored, n), cs, height);
        var lower := Fills(DisconnectTx(v, txs[n], height, cs), db, find, u, txs, height, stored, n);
        filled := lower + cs;
        OneUndone(v, db, find, txs, height, stored, lower, cs, n);
        if !Stops(txs, stored, n) {
          OneMore(txs, stored, lower, cs, height, n);
        }
      }
    }
  }

  lemma LastFits(u: Utxos, txs: seq<Tx>, height: int, stored: seq<Coin>, k: nat)
    requires k < |txs| && RecordedAt(u, txs, height, stored, k)
    ensures SpendCount(txs, k) <= SpendCount(txs, k + 1) == SpendCount(txs, k) + |Spends(txs[k])| <= |stored|
  {
  }

  lemma SameLength(stored: seq<Coin>, filled: seq<Coin>, height: int)
    requires FilledAt(stored, filled, height)
    ensures |filled| == |stored|
  {
  }

  // ----- undoing with records whose height is wrong -----

  /** The record is the coin that was spent, or the coin was made by the block itself. */
  ghost predicate HarmlessAt(u: Utxos, txs: seq<Tx>, height: int, journal: seq<Coin>, t: nat, m: nat)
    requires t < |txs| && m < |Spends(txs[t])| && SpendCount(txs, t + 1) <= |journal|
  {
    Records(txs, journal, t)[m] == SpentAt(u, txs, height, t)[m] || HasId(txs, 0, t, Spends(txs[t])[m].prev.hash)
  }

  ghost predicate HarmlessTx(u: Utxos, txs: seq<Tx>, height: int, journal: seq<Coin>, t: nat)
    requires t < |txs|
  {
    SpendCount(txs, t + 1) <= |journal| && forall m :: 0 <= m < |Spends(txs[t])| ==> HarmlessAt(u, txs, height, journal, t, m)
  }

  lemma HarmlessStep(a: Utxos, u: Utxos, txs: seq<Tx>, height: int, journal: seq<Coin>, k: nat)
    requires Setting(u, txs, height) && k < |txs| && HarmlessTx(u, txs, height, journal, k)
    requires AgreeOutside(a, ApplyTxs(u, txs, height, k + 1), txs, 0, k + 1)
    ensures AgreeOutside(UndoTx(a, txs[k], Records(txs, journal, k)), ApplyTxs(u, txs, height, k), txs, 0, k)
  {
    var tx, s, cs := txs[k], ApplyTxs(u, txs, height, k), Records(txs, journal, k);
    var own := SpentAt(u, txs, height, k);
    FreshNeverOverwrites(u, txs, height);
    assert SpendableAt(u, txs, height, k) && KeepsCoinsAt(u, txs, height, k);
    UndoTxExact(s, tx, height);
    UndoTxAgrees(a, ApplyTxs(u, txs, height, k + 1), txs, k, own);
    forall o ensures CreatedBy(txs, 0, k, o) || Same(UndoTx(a, tx, cs), s, o) {
      assert CreatedBy(txs, 0, k, o) || Same(UndoTx(a, tx, own), s, o);
      if Refers(Spends(tx), |Spends(tx)|, o) {
        var m :| 0 <= m < |Spends(tx)| && Spends(tx)[m].prev == o;
        var w := RemoveOutputs(a, tx, |tx.outs|);
        RestoreOwn(w, Spends(tx), cs, 0, m);
        RestoreOwn(w, Spends(tx), own, 0, m);
        assert HarmlessAt(u, txs, height, journal, k, m);
        if HasId(txs, 0, k, o.hash) {
          InputAt(u, txs, height, k, m);
          WidenId(txs, k, o.hash);
          OwnCoin(u, txs, height, k, o);
        }
      } else {
        UndoTxOther(a, tx, cs, o);
        UndoTxOther(a, tx, own, o);
      }
    }
  }

  lemma WidenId(txs: seq<Tx>, k: nat, h: Hash)
    requires HasId(txs, 0, k, h)
    ensures HasId(txs, 0, |txs|, h)
  {
  }

  lemma OneCounted(txs: seq<Tx>, n: nat)
    requires n < |txs|
    ensures SpendCount(txs, n + 1) == SpendCount(txs, n) + |Spends(txs[n])|
  {
  }

  lemma UndoStep(a: Utxos, txs: seq<Tx>, journal: seq<Coin>, n: nat)
    requires n < |txs| && SpendCount(txs, n + 1) <= |journal| && SpendCount(txs, n) <= |journal|
    ensures UndoTxs(a, txs, journal, n + 1) == UndoTxs(UndoTx(a, txs[n], Records(txs, journal, n)), txs, journal, n)
  {
  }

  /** Wrong records of the block's own outputs do no harm: those outputs go when their transaction is undone. */
  lemma {:induction false} HarmlessUndo(a: Utxos, u: Utxos, txs: seq<Tx>, height: int, journal: seq<Coin>, k: nat)
    requires Setting(u, txs, height) && k <= |txs| && SpendCount(txs, k) <= |journal|
    requires forall t :: 0 <= t < k ==> HarmlessTx(u, txs, height, journal, t)
    requires AgreeOutside(a, ApplyTxs(u, txs, height, k), txs, 0, k)
    ensures UndoTxs(a, txs, journal, k) == u
    decreases k
  {
    if k == 0 {
      AgreeNowhere(a, u, txs, 0);
    } else {
      hide *;
      var n := k - 1;
      assert HarmlessTx(u, txs, height, journal, n);
      OneCounted(txs, n);
      HarmlessStep(a, u, txs, height, journal, n);
      HarmlessUndo(UndoTx(a, txs[n], Records(txs, journal, n)), u, txs, height, journal, n);
      UndoStep(a, txs, journal, n);
    }
  }

  /** A record stays what it is while transactions that have nothing to do with its coin are undone. */
  lemma {:induction false} UndoKeepsCoin(a: Utxos, txs: seq<Tx>, journal: seq<Coin>, k: nat, o: OutPoint)
    requires k <= |txs| && SpendCount(txs, k) <= |journal| && o in a && !HasId(txs, 0, k, o.hash)
    requires forall i :: 0 <= i < k ==> !Refers(Spends(txs[i]), |Spends(txs[i])|, o)
    ensures o in UndoTxs(a, txs, journal, k) && UndoTxs(a, txs, journal, k)[o] == a[o]
    decreases k
  {
    if k > 0 {
      UndoTxOther(a, txs[k-1], Records(txs, journal, k - 1), o);
      assert !HasId(txs, 0, k - 1, o.hash);
      UndoKeepsCoin(UndoTx(a, txs[k-1], Records(txs, journal, k - 1)), txs, journal, k - 1, o);
    }
  }

  /** A wrong record of an older coin is what the undo of its transaction and the earlier ones leaves ... */
  lemma HarmAtEnd(a: Utxos, u: Utxos, txs: seq<Tx>, height: int, journal: seq<Coin>, t: nat, m: nat)
    requires Setting(u, txs, height) && t < |txs| && SpendCount(txs, t + 1) <= |journal|
    requires m < |Spends(txs[t])| && !HarmlessAt(u, txs, height, journal, t, m)
    ensures UndoTxs(a, txs, journal, t + 1) != u
  {
    var b, o := UndoTx(a, txs[t], Records(txs, journal, t)), Spends(txs[t])[m].prev;
    InputAt(u, txs, height, t, m);
    OldCoinUntouched(u, txs, height, t, o);
    assert SpendableAt(u, txs, height, t);
    RestoreOwn(RemoveOutputs(a, txs[t], |txs[t].outs|), Spends(txs[t]), Records(txs, journal, t), 0, m);
    UndoKeepsCoin(b, txs, journal, t, o);
  }

  /** ... whatever the later ones did. */
  lemma {:induction false} HarmLasts(a: Utxos, u: Utxos, txs: seq<Tx>, height: int, journal: seq<Coin>, k: nat, t: nat, m: nat)
    requires Setting(u, txs, height) && t < k <= |txs| && SpendCount(txs, k) <= |journal|
    requires m < |Spends(txs[t])| && SpendCount(txs, t + 1) <= |journal| && !HarmlessAt(u, txs, height, journal, t, m)
    ensures UndoTxs(a, txs, journal, k) != u
    decreases k
  {
    hide Setting, HarmlessAt, UndoTx, UndoTxs, Records, SpendCount;
    if t < k - 1 {
      var n := k - 1;
      OneCounted(txs, n);
      HarmLasts(UndoTx(a, txs[n], Records(txs, journal, n)), u, txs, height, journal, n, t, m);
      UndoStep(a, txs, journal, n);
    } else {
      HarmAtEnd(a, u, txs, height, journal, t, m);
    }
  }

  // ----- the main result -----

  /** The missing height of record `m` of transaction `t` is found, or does not matter. */
  ghost predicate RecoverableAt(txs: seq<Tx>, stored: seq<Coin>, t: nat, m: nat)
    requires t < |txs| && m < |Spends(txs[t])| && SpendCount(txs, t + 1) <= |stored|
  {
    Records(txs, stored, t)[m].height == 0 ==> HasOutput(txs[t]) && HasId(txs, 0, t, Spends(txs[t])[m].prev.hash)
  }

  ghost predicate Recoverable(txs: seq<Tx>, stored: seq<Coin>, t: nat)
    requires t < |txs|
  {
    SpendCount(txs, t + 1) <= |stored| && forall m :: 0 <= m < |Spends(txs[t])| ==> RecoverableAt(txs, stored, t, m)
  }

  /** Completed with the block's height, the records are harmless exactly when those without height are of its own coins. */
  lemma HarmlessIff(u: Utxos, txs: seq<Tx>, height: int, stored: seq<Coin>, filled: seq<Coin>, t: nat)
    requires Setting(u, txs, height) && t < |txs| && RecordedAt(u, txs, height, stored, t) && !Unfillable(txs, stored, t)
    requires FilledTx(txs, stored, filled, height, t)
    ensures HarmlessTx(u, txs, height, filled, t) <==> Recoverable(txs, stored, t)
  {
    forall m | 0 <= m < |Spends(txs[t])|
      ensures HarmlessAt(u, txs, height, filled, t, m) <==> RecoverableAt(txs, stored, t, m)
    {
      var o := Spends(txs[t])[m].prev;
      assert LegacyAt(SpentAt(u, txs, height, t), Records(txs, stored, t), m);
      assert FilledCoin(Records(txs, stored, t)[m], Records(txs, filled, t)[m], height);
      InputAt(u, txs, height, t, m);
      OldOrOwn(u, txs, height, t, o);
    }
  }

  /** The height of an available coin tells whether the block made it; no coin has height zero. */
  lemma OldOrOwn(u: Utxos, txs: seq<Tx>, height: int, k: nat, o: OutPoint)
    requires Setting(u, txs, height) && k <= |txs| && o in ApplyTxs(u, txs, height, k)
    ensures var h := ApplyTxs(u, txs, height, k)[o].height;
      h != 0 && (h == height <==> HasId(txs, 0, k, o.hash))
  {
    if HasId(txs, 0, k, o.hash) {
      WidenId(txs, k, o.hash);
      OwnCoin(u, txs, height, k, o);
    } else {
      OldCoinUntouched(u, txs, height, k, o);
    }
  }

  lemma WrongOrStopped(u: Utxos, txs: seq<Tx>, height: int, stored: seq<Coin>, filled: seq<Coin>)
    requires Setting(u, txs, height) && forall t :: 0 <= t < |txs| ==> RecordedAt(u, txs, height, stored, t)
    ensures Stops(txs, stored, |txs|) ==> exists t :: 0 <= t < |txs| && !Recoverable(txs, stored, t)
    ensures !Stops(txs, stored, |txs|) && (forall t :: 0 <= t < |txs| ==> FilledTx(txs, stored, filled, height, t)) ==>
      forall t :: 0 <= t < |txs| ==> (HarmlessTx(u, txs, height, filled, t) <==> Recoverable(txs, stored, t))
  {
    hide Setting, HarmlessTx, FilledTx, RecordedAt;
    if Stops(txs, stored, |txs|) {
      var t :| 0 <= t < |txs| && Unfillable(txs, stored, t);
      var m :| 0 <= m < |Records(txs, stored, t)| && Records(txs, stored, t)[m].height == 0;
      assert Recoverable(txs, stored, t) ==> RecoverableAt(txs, stored, t, m);
    } else if forall t :: 0 <= t < |txs| ==> FilledTx(txs, stored, filled, height, t) {
      forall t | 0 <= t < |txs| ensures HarmlessTx(u, txs, height, filled, t) <==> Recoverable(txs, stored, t) {
        HarmlessIff(u, txs, height, stored, filled, t);
      }
    }
  }

  /**
   A journal with records in the first format undoes its block if and only if each such record is of a coin that
   the block itself had made, in a transaction with an output that is not provably unspendable.  Any older coin
   comes back with the height of the block being undone, or the undo stops.
   */
  lemma LegacyExactIff(v: Entries, db: Utxos, find: Finder, u: Utxos, txs: seq<Tx>, height: int, stored: seq<Coin>)
    requires Setting(u, txs, height) && LegacyOf(Journal(u, txs, height, |txs|), stored)
    requires Synced(v, db) && AgreeOutside(Overlay(v, db), ApplyTxs(u, txs, height, |txs|), txs, 0, |txs|)
    requires OwnBelow(v, db, txs, height, |txs|) && forall t :: 0 <= t < |txs| ==> Finds(find, db, txs[t].id)
    ensures var r := Undone(v, db, find, txs, height, stored, |txs|);
      (r.stuck.None? && Overlay(r.entries, db) == u) <==> forall t :: 0 <= t < |txs| ==> Recoverable(txs, stored, t)
    ensures Undone(v, db, find, txs, height, stored, |txs|).stuck.Some? <==> Stops(txs, stored, |txs|)
  {
    hide Setting, HarmlessTx, FilledTx, RecordedAt, Undone, Recoverable, Stops, LegacyOf, Unfillable, Finds;
    RecordedEverywhere(u, txs, height, stored);
    assert |stored| == SpendCount(txs, |txs|) by {
      SameCount(Journal(u, txs, height, |txs|), stored);
    }
    var filled := Fills(v, db, find, u, txs, height, stored, |txs|);
    WrongOrStopped(u, txs, height, stored, filled);
    if !Stops(txs, stored, |txs|) {
      DisconnectMeans(v, db, txs, height, filled, |txs|);
      if forall t :: 0 <= t < |txs| ==> HarmlessTx(u, txs, height, filled, t) {
        HarmlessUndo(Overlay(v, db), u, txs, height, filled, |txs|);
      } else {
        var t :| 0 <= t < |txs| && !HarmlessTx(u, txs, height, filled, t);
        AnyHarm(Overlay(v, db), u, txs, height, filled, t);
      }
    }
  }

  lemma SameCount(journal: seq<Coin>, stored: seq<Coin>)
    requires LegacyOf(journal, stored)
    ensures |journal| == |stored|
  {
  }

  lemma AnyHarm(a: Utxos, u: Utxos, txs: seq<Tx>, height: int, journal: seq<Coin>, t: nat)
    requires Setting(u, txs, height) && t < |txs| && |journal| == SpendCount(txs, |txs|) && !HarmlessTx(u, txs, height, journal, t)
    ensures UndoTxs(a, txs, journal, |txs|) != u
  {
    hide Setting;
    SpendCountGrows(txs, t + 1, |txs|);
    var m :| 0 <= m < |Spends(txs[t])| && !HarmlessAt(u, txs, height, journal, t, m);
    HarmLasts(a, u, txs, height, journal, |txs|, t, m);
  }

  /** Fetching a block's inputs brings in no foreign entry of its transactions. */
  lemma FetchKeepsOwn(start: Entries, v: Entries, db: Utxos, txs: seq<Tx>, height: int)
    requires Fetched(start, v, db, txs, height) && DistinctIds(txs) && OwnBelow(start, db, txs, height, |txs|)
    ensures OwnBelow(v, db, txs, height, |txs|)
  {
    hide AddedTo, WantedTo, DistinctIds;
    forall t, o | 0 <= t < |txs| ensures OwnAt(v, db, txs, height, t, o) {
      assert OwnAt(start, db, txs, height, t, o) && FetchedAt(start, v, db, txs, height, o);
      if o.hash == txs[t].id && o in v && v[o].Some? && MadeHere(txs, height, o, v[o].value.coin) {
        var s: nat :| s < |txs| && Creates(txs[s], |txs[s].outs|, o) && v[o].value.coin == OutputCoin(txs[s], height, o.index);
        SameTx(txs, s, t);
      }
    }
  }

  /** The same for the tip of a flushed chain, undone on a new view: what a reorganisation does first. */
  lemma TipUndoneIff(v: Entries, find: Finder, u: Utxos, txs: seq<Tx>, height: int, stored: seq<Coin>)
    requires Setting(u, txs, height) && LegacyOf(Journal(u, txs, height, |txs|), stored)
    requires var db := ApplyTxs(u, txs, height, |txs|);
      Fetched(map[], v, db, txs, height) && forall t :: 0 <= t < |txs| ==> Finds(find, db, txs[t].id)
    ensures var db := ApplyTxs(u, txs, height, |txs|);
      var r := Undone(v, db, find, txs, height, stored, |txs|);
      (r.stuck.None? && Overlay(r.entries, db) == u) <==> forall t :: 0 <= t < |txs| ==> Recoverable(txs, stored, t)
  {
    hide Fetched, LegacyOf, Recoverable, Finds, Undone, Journal, Loaded, KeysFrom;
    var db := ApplyTxs(u, txs, height, |txs|);
    forall o ensures Lookup(map[], db, o) == if o in db then Some(db[o]) else None {
    }
    forall t, o | 0 <= t < |txs| ensures OwnAt(map[], db, txs, height, t, o) {
      if o in db && o.hash == txs[t].id {
        assert HasId(txs, 0, |txs|, o.hash);
        OwnCoin(u, txs, height, |txs|, o);
        var s :| 0 <= s < |txs| && Creates(txs[s], |txs[s].outs|, o);
        SameTx(txs, s, t);
      }
    }
    FetchSuffices(map[], v, db, txs, height);
    FetchKeepsOwn(map[], v, db, txs, height);
    LegacyExactIff(v, db, find, u, txs, height, stored);
  }
}
