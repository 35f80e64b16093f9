/**
 What fetchInputUtxos leaves in a view (pkg/blockchain/utxoviewpoint.go).

 Outputs of a transaction are added as soon as a later transaction of the block refers to it, before the
 transaction itself is connected.  An input that refers forward, to its own or a later transaction, is looked
 up in the database like any other, unless the view already has a key for it.
 */
module Fetch {
  import opened Wire
  import opened Ledger
  import opened UtxoView

  ghost predicate RefAt(txs: seq<Tx>, k: nat, j: nat, o: OutPoint) {
    k < |txs| && j < |Spends(txs[k])| && Spends(txs[k])[j].prev == o
  }

  /** Input `j` of transaction `k` names transaction `t`, which comes before `k`. */
  ghost predicate PointsBack(txs: seq<Tx>, k: nat, j: nat, t: nat) {
    k < |txs| && j < |Spends(txs[k])| && t < k && Spends(txs[k])[j].prev.hash == txs[t].id
  }

  /** The inputs collected once transactions up to `i` and `m` inputs of the next one are done. */
  predicate Seen(i: int, m: nat, k: nat, j: nat) {
    k <= i || (k == i + 1 && j < m)
  }

  /** An input not provided by an earlier transaction and not in the view: it is looked up in the database. */
  ghost predicate WantedTo(keys: set<OutPoint>, txs: seq<Tx>, i: int, m: nat, o: OutPoint) {
    o !in keys && exists k: nat, j: nat :: RefAt(txs, k, j, o) && Seen(i, m, k, j) && !HasId(txs, 0, k, o.hash)
  }

  ghost predicate TriggeredTo(txs: seq<Tx>, i: int, m: nat, t: nat) {
    exists k: nat, j: nat :: PointsBack(txs, k, j, t) && Seen(i, m, k, j)
  }

  /** An output added ahead of its transaction. */
  ghost predicate AddedTo(txs: seq<Tx>, i: int, m: nat, o: OutPoint) {
    exists t: nat :: t < |txs| && Creates(txs[t], |txs[t].outs|, o) && TriggeredTo(txs, i, m, t)
  }

  ghost predicate Wanted(keys: set<OutPoint>, txs: seq<Tx>, o: OutPoint) {
    WantedTo(keys, txs, |txs| - 1, 0, o)
  }

  ghost predicate Added(txs: seq<Tx>, o: OutPoint) {
    AddedTo(txs, |txs| - 1, 0, o)
  }

  /** Some input names `o` although its transaction does not come earlier in the block. */
  ghost predicate ForwardRef(txs: seq<Tx>, o: OutPoint) {
    exists k: nat, j: nat :: RefAt(txs, k, j, o) && HasId(txs, k, |txs|, o.hash)
  }

  /** A forward reference to an output that a still later transaction makes fetchInputUtxos add. */
  ghost predicate Ahead(txs: seq<Tx>, o: OutPoint) {
    ForwardRef(txs, o) && Added(txs, o)
  }

  /** The view has a key for such an output, so the forward reference will find the added output. */
  ghost predicate Exposed(keys: set<OutPoint>, txs: seq<Tx>) {
    exists o :: o in keys && Ahead(txs, o)
  }

  /** `c` is the coin some transaction of the block creates at `o`. */
  ghost predicate MadeHere(txs: seq<Tx>, height: int, o: OutPoint, c: Coin) {
    exists t: nat :: t < |txs| && Creates(txs[t], |txs[t].outs|, o) && c == OutputCoin(txs[t], height, o.index)
  }

  /** The entry at `o` while inputs are collected. */
  ghost predicate CollectedAt(start: Entries, v: Entries, txs: seq<Tx>, height: int, i: int, m: nat, o: OutPoint) {
    if AddedTo(txs, i, m, o) then o in v && v[o].Some? && !v[o].value.spent && v[o].value.modified && MadeHere(txs, height, o, v[o].value.coin)
    else (o in v <==> o in start) && (o in v ==> v[o] == start[o])
  }

  ghost predicate Collected(start: Entries, v: Entries, txs: seq<Tx>, height: int, needed: set<OutPoint>, i: int, m: nat) {
    (forall o :: CollectedAt(start, v, txs, height, i, m, o)) &&
    forall o :: o in needed <==> WantedTo(start.Keys, txs, i, m, o)
  }

  lemma CollectedStart(start: Entries, txs: seq<Tx>, height: int)
    requires |txs| > 0 && |Spends(txs[0])| == 0
    ensures Collected(start, start, txs, height, {}, 0, 0)
  {
    forall o ensures !WantedTo(start.Keys, txs, 0, 0, o) && !AddedTo(txs, 0, 0, o) {
    }
  }

  /** One more input, naming the earlier transaction `t`: its outputs are added. */
  lemma CollectBack(start: Entries, v: Entries, txs: seq<Tx>, height: int, needed: set<OutPoint>, i: nat, m: nat, t: nat)
    requires Collected(start, v, txs, height, needed, i, m) && DistinctIds(txs)
    requires PointsBack(txs, i + 1, m, t)
    ensures Collected(start, AddEntries(v, txs[t], height, |txs[t].outs|), txs, height, needed, i, m + 1)
  {
    var w, r := AddEntries(v, txs[t], height, |txs[t].outs|), Spends(txs[i+1])[m].prev;
    var n := m + 1;
    assert HasId(txs, 0, i + 1, r.hash);
    forall o ensures CollectedAt(start, w, txs, height, i, n, o) {
      AddValue(v, txs[t], height, |txs[t].outs|, o);
      assert CollectedAt(start, v, txs, height, i, m, o);
      AddedMore(txs, i, m, o);
      if Creates(txs[t], |txs[t].outs|, o) {
        assert TriggeredTo(txs, i, m + 1, t);
      } else {
        AddedOnlyHere(txs, i, m, t, o);
      }
    }
    forall o ensures o in needed <==> WantedTo(start.Keys, txs, i, m + 1, o) {
      WantedMore(start.Keys, txs, i, m, o);
      assert RefAt(txs, i + 1, m, r);
      if WantedTo(start.Keys, txs, i, m + 1, o) && !WantedTo(start.Keys, txs, i, m, o) {
        WantedOnlyHere(start.Keys, txs, i, m, o);
      }
    }
  }

  /** Having seen more only adds. */
  lemma AddedMore(txs: seq<Tx>, i: int, m: nat, o: OutPoint)
    ensures AddedTo(txs, i, m, o) ==> AddedTo(txs, i, m + 1, o)
  {
    if AddedTo(txs, i, m, o) {
      var t: nat :| t < |txs| && Creates(txs[t], |txs[t].outs|, o) && TriggeredTo(txs, i, m, t);
      var k: nat, j: nat :| PointsBack(txs, k, j, t) && Seen(i, m, k, j);
      assert Seen(i, m + 1, k, j);
      assert TriggeredTo(txs, i, m + 1, t);
    }
  }

  lemma WantedMore(keys: set<OutPoint>, txs: seq<Tx>, i: int, m: nat, o: OutPoint)
    ensures WantedTo(keys, txs, i, m, o) ==> WantedTo(keys, txs, i, m + 1, o)
  {
    if WantedTo(keys, txs, i, m, o) {
      var k: nat, j: nat :| RefAt(txs, k, j, o) && Seen(i, m, k, j) && !HasId(txs, 0, k, o.hash);
      assert Seen(i, m + 1, k, j);
    }
  }

  lemma AddedOnlyHere(txs: seq<Tx>, i: nat, m: nat, t: nat, o: OutPoint)
    requires DistinctIds(txs) && PointsBack(txs, i + 1, m, t) && !Creates(txs[t], |txs[t].outs|, o)
    ensures AddedTo(txs, i, m + 1, o) ==> AddedTo(txs, i, m, o)
  {
    hide Spends, DistinctIds, Creates;
    if AddedTo(txs, i, m + 1, o) {
      var s: nat :| s < |txs| && Creates(txs[s], |txs[s].outs|, o) && TriggeredTo(txs, i, m + 1, s);
      var k: nat, j: nat :| PointsBack(txs, k, j, s) && Seen(i, m + 1, k, j);
      if !Seen(i, m, k, j) {
        SameTx(txs, s, t);
      }
      assert TriggeredTo(txs, i, m, s);
    }
  }

  lemma SameTx(txs: seq<Tx>, s: nat, t: nat)
    requires DistinctIds(txs) && s < |txs| && t < |txs| && txs[s].id == txs[t].id
    ensures s == t
  {
    assert s < t ==> IdsDiffer(txs, s, t);
    assert t < s ==> IdsDiffer(txs, t, s);
  }

  /** What becomes wanted by one more input is that input. */
  lemma WantedOnlyHere(keys: set<OutPoint>, txs: seq<Tx>, i: nat, m: nat, o: OutPoint)
    requires WantedTo(keys, txs, i, m + 1, o) && !WantedTo(keys, txs, i, m, o)
    ensures RefAt(txs, i + 1, m, o) && !HasId(txs, 0, i + 1, o.hash)
  {
    var k: nat, j: nat :| RefAt(txs, k, j, o) && Seen(i, m + 1, k, j) && !HasId(txs, 0, k, o.hash);
    assert !Seen(i, m, k, j);
  }

  /** One more input that names no earlier transaction: nothing is added, and it is wanted unless it has a key. */
  lemma CollectOther(start: Entries, v: Entries, txs: seq<Tx>, height: int, needed: set<OutPoint>, i: nat, m: nat)
    requires Collected(start, v, txs, height, needed, i, m)
    requires i + 1 < |txs| && m < |Spends(txs[i+1])| && !HasId(txs, 0, i + 1, Spends(txs[i+1])[m].prev.hash)
    ensures var o := Spends(txs[i+1])[m].prev;
      Collected(start, v, txs, height, if o in v then needed else needed + {o}, i, m + 1)
  {
    hide AddedTo, MadeHere, Spends;
    var r := Spends(txs[i+1])[m].prev;
    var n := m + 1;
    AddedHasId(txs, i, m, r);
    assert CollectedAt(start, v, txs, height, i, m, r);
    forall o ensures CollectedAt(start, v, txs, height, i, n, o) {
      assert CollectedAt(start, v, txs, height, i, m, o);
      AddedMore(txs, i, m, o);
      AddedUnless(txs, i, m, o);
    }
    var more := if r in v then needed else needed + {r};
    forall o ensures o in more <==> WantedTo(start.Keys, txs, i, m + 1, o) {
      WantedMore(start.Keys, txs, i, m, o);
      if o == r && r !in v {
        assert RefAt(txs, i + 1, m, r) && Seen(i, m + 1, i + 1, m);
      }
      if WantedTo(start.Keys, txs, i, m + 1, o) && !WantedTo(start.Keys, txs, i, m, o) {
        WantedOnlyHere(start.Keys, txs, i, m, o);
      }
    }
  }

  lemma AddedHasId(txs: seq<Tx>, i: nat, m: nat, o: OutPoint)
    ensures AddedTo(txs, i, m, o) ==> HasId(txs, 0, i + 1, o.hash)
  {
    if AddedTo(txs, i, m, o) {
      var t: nat :| t < |txs| && Creates(txs[t], |txs[t].outs|, o) && TriggeredTo(txs, i, m, t);
      var k: nat, j: nat :| PointsBack(txs, k, j, t) && Seen(i, m, k, j);
      assert t < i + 1;
    }
  }

  lemma AddedUnless(txs: seq<Tx>, i: nat, m: nat, o: OutPoint)
    requires i + 1 < |txs| && m < |Spends(txs[i+1])| && !HasId(txs, 0, i + 1, Spends(txs[i+1])[m].prev.hash)
    ensures AddedTo(txs, i, m + 1, o) ==> AddedTo(txs, i, m, o)
  {
    if AddedTo(txs, i, m + 1, o) {
      var s: nat :| s < |txs| && Creates(txs[s], |txs[s].outs|, o) && TriggeredTo(txs, i, m + 1, s);
      var k: nat, j: nat :| PointsBack(txs, k, j, s) && Seen(i, m + 1, k, j);
      assert Seen(i, m, k, j);
      assert TriggeredTo(txs, i, m, s);
    }
  }

  /** All inputs of a transaction done is the next transaction begun. */
  lemma CollectNext(start: Entries, v: Entries, txs: seq<Tx>, height: int, needed: set<OutPoint>, i: nat)
    requires i + 1 < |txs| && Collected(start, v, txs, height, needed, i, |Spends(txs[i+1])|)
    ensures Collected(start, v, txs, height, needed, i + 1, 0)
  {
    var m, n := |Spends(txs[i+1])|, i + 1;
    forall o ensures CollectedAt(start, v, txs, height, n, 0, o) {
      assert CollectedAt(start, v, txs, height, i, m, o);
      assert AddedTo(txs, i + 1, 0, o) <==> AddedTo(txs, i, m, o) by {
        forall t: nat ensures TriggeredTo(txs, i + 1, 0, t) <==> TriggeredTo(txs, i, m, t) {
          SameSeen(txs, i, t);
        }
      }
    }
    forall o ensures o in needed <==> WantedTo(start.Keys, txs, i + 1, 0, o) {
      if WantedTo(start.Keys, txs, i + 1, 0, o) {
        var k: nat, j: nat :| RefAt(txs, k, j, o) && Seen(i + 1, 0, k, j) && !HasId(txs, 0, k, o.hash);
        assert Seen(i, m, k, j);
      }
      if WantedTo(start.Keys, txs, i, m, o) {
        var k: nat, j: nat :| RefAt(txs, k, j, o) && Seen(i, m, k, j) && !HasId(txs, 0, k, o.hash);
        assert Seen(i + 1, 0, k, j);
      }
    }
  }

  lemma SameSeen(txs: seq<Tx>, i: nat, t: nat)
    requires i + 1 < |txs|
    ensures TriggeredTo(txs, i + 1, 0, t) <==> TriggeredTo(txs, i, |Spends(txs[i+1])|, t)
  {
    var m := |Spends(txs[i+1])|;
    if TriggeredTo(txs, i + 1, 0, t) {
      var k: nat, j: nat :| PointsBack(txs, k, j, t) && Seen(i + 1, 0, k, j);
      assert Seen(i, m, k, j);
    }
    if TriggeredTo(txs, i, m, t) {
      var k: nat, j: nat :| PointsBack(txs, k, j, t) && Seen(i, m, k, j);
      assert Seen(i + 1, 0, k, j);
    }
  }

  // ----- the result -----

  /** The entry at `o` when fetching is done: from the database, an added output, or as it was. */
  ghost predicate FetchedAt(start: Entries, v: Entries, db: Utxos, txs: seq<Tx>, height: int, o: OutPoint) {
    if Wanted(start.Keys, txs, o) then o in v && v[o] == FetchEntry(db, o)
    else CollectedAt(start, v, txs, height, |txs| - 1, 0, o)
  }

  ghost predicate Fetched(start: Entries, v: Entries, db: Utxos, txs: seq<Tx>, height: int) {
    forall o :: FetchedAt(start, v, db, txs, height, o)
  }

  lemma FetchDone(start: Entries, v: Entries, db: Utxos, txs: seq<Tx>, height: int, needed: set<OutPoint>)
    requires Collected(start, v, txs, height, needed, |txs| - 1, 0)
    ensures Fetched(start, v + map o | o in needed :: FetchEntry(db, o), db, txs, height)
  {
    var w := v + map o | o in needed :: FetchEntry(db, o);
    forall o ensures FetchedAt(start, w, db, txs, height, o) {
      assert CollectedAt(start, v, txs, height, |txs| - 1, 0, o);
    }
  }

  /** Every input has an entry in the view, or there is no such coin in the database. */
  ghost predicate CompleteAt(v: Entries, db: Utxos, txs: seq<Tx>, k: nat)
    requires k < |txs|
  {
    forall j :: 0 <= j < |Spends(txs[k])| ==> Spends(txs[k])[j].prev in v || Spends(txs[k])[j].prev !in db
  }

  ghost predicate Complete(v: Entries, db: Utxos, txs: seq<Tx>) {
    forall k :: 0 <= k < |txs| ==> CompleteAt(v, db, txs, k)
  }

  lemma AddedIsMade(txs: seq<Tx>, o: OutPoint)
    requires Added(txs, o)
    ensures CreatedBy(txs, 0, |txs|, o)
  {
  }

  /** An added output is wanted exactly when it is a forward reference without a key. */
  lemma AddedWanted(keys: set<OutPoint>, txs: seq<Tx>, o: OutPoint)
    requires CreatedBy(txs, 0, |txs|, o) && DistinctIds(txs)
    ensures Wanted(keys, txs, o) <==> ForwardRef(txs, o) && o !in keys
  {
    var t :| 0 <= t < |txs| && Creates(txs[t], |txs[t].outs|, o);
    if Wanted(keys, txs, o) {
      var k: nat, j: nat :| RefAt(txs, k, j, o) && Seen(|txs| - 1, 0, k, j) && !HasId(txs, 0, k, o.hash);
      assert t >= k;
      assert HasId(txs, k, |txs|, o.hash);
    }
    if ForwardRef(txs, o) && o !in keys {
      var k: nat, j: nat :| RefAt(txs, k, j, o) && HasId(txs, k, |txs|, o.hash);
      var s :| k <= s < |txs| && txs[s].id == o.hash;
      SameTx(txs, s, t);
      IdNotBelow(txs, t, k, o.hash);
      assert Seen(|txs| - 1, 0, k, j);
    }
  }

  /** Outputs that stay in the view ahead of their transaction. */
  ghost predicate Early(keys: set<OutPoint>, txs: seq<Tx>, o: OutPoint) {
    Added(txs, o) && (ForwardRef(txs, o) ==> o in keys)
  }

  /** `w` is `u` with the early outputs added. */
  ghost predicate EarlySet(u: Utxos, w: Utxos, keys: set<OutPoint>, txs: seq<Tx>, height: int) {
    forall o :: EarlyAt(u, w, keys, txs, height, o)
  }

  ghost predicate EarlyAt(u: Utxos, w: Utxos, keys: set<OutPoint>, txs: seq<Tx>, height: int, o: OutPoint) {
    if Early(keys, txs, o) then o in w && MadeHere(txs, height, o, w[o]) else Same(w, u, o)
  }

  /** The coins of all outputs of the first `k` transactions. */
  function Made(txs: seq<Tx>, height: int, k: nat): Utxos
    requires k <= |txs|
  {
    if k == 0 then map[] else AddOutputs(Made(txs, height, k - 1), txs[k-1], height, |txs[k-1].outs|)
  }

  /** The set `u` with the early outputs added. */
  ghost function WithEarly(u: Utxos, keys: set<OutPoint>, txs: seq<Tx>, height: int): Utxos {
    var made := Made(txs, height, |txs|);
    map o | o in u.Keys + made.Keys && (o in u || Early(keys, txs, o)) ::
      if Early(keys, txs, o) && o in made then made[o] else if o in u then u[o] else NO_COIN
  }

  lemma {:induction false} MadeIsMade(txs: seq<Tx>, height: int, k: nat, o: OutPoint)
    requires k <= |txs|
    ensures o in Made(txs, height, k) <==> CreatedBy(txs, 0, k, o)
    ensures o in Made(txs, height, k) ==> MadeHere(txs, height, o, Made(txs, height, k)[o])
  {
    if k > 0 {
      MadeIsMade(txs, height, k - 1, o);
      AddOutputsLookup(Made(txs, height, k - 1), txs[k-1], height, |txs[k-1].outs|, o);
      assert CreatedBy(txs, 0, k, o) <==> CreatedBy(txs, 0, k - 1, o) || Creates(txs[k-1], |txs[k-1].outs|, o) by {
        if CreatedBy(txs, 0, k, o) {
          var i :| 0 <= i < k && i < |txs| && Creates(txs[i], |txs[i].outs|, o);
          assert i == k - 1 || 0 <= i < k - 1;
        }
      }
    }
  }

  lemma WithEarlyIsEarly(u: Utxos, keys: set<OutPoint>, txs: seq<Tx>, height: int)
    ensures EarlySet(u, WithEarly(u, keys, txs, height), keys, txs, height)
  {
    hide AddedTo, ForwardRef, MadeHere, Made;
    forall o ensures EarlyAt(u, WithEarly(u, keys, txs, height), keys, txs, height, o) {
      MadeIsMade(txs, height, |txs|, o);
      if Added(txs, o) {
        AddedIsMade(txs, o);
      }
    }
  }

  lemma OneMaker(txs: seq<Tx>, height: int, o: OutPoint, c: Coin, d: Coin)
    requires DistinctIds(txs) && MadeHere(txs, height, o, c) && MadeHere(txs, height, o, d)
    ensures c == d
  {
    var s: nat :| s < |txs| && Creates(txs[s], |txs[s].outs|, o) && c == OutputCoin(txs[s], height, o.index);
    var t: nat :| t < |txs| && Creates(txs[t], |txs[t].outs|, o) && d == OutputCoin(txs[t], height, o.index);
    SameTx(txs, s, t);
  }

  /** The set with early outputs is determined. */
  lemma EarlyUnique(u: Utxos, w: Utxos, keys: set<OutPoint>, txs: seq<Tx>, height: int)
    requires DistinctIds(txs) && EarlySet(u, w, keys, txs, height)
    ensures w == WithEarly(u, keys, txs, height)
  {
    hide Early, MadeHere, WithEarly, DistinctIds;
    var x := WithEarly(u, keys, txs, height);
    WithEarlyIsEarly(u, keys, txs, height);
    forall o ensures (o in w <==> o in x) && (o in w ==> w[o] == x[o]) {
      assert EarlyAt(u, w, keys, txs, height, o) && EarlyAt(u, x, keys, txs, height, o);
      if Early(keys, txs, o) {
        OneMaker(txs, height, o, w[o], x[o]);
      }
    }
  }

  /** What the fetched view stands for. */
  lemma FetchMeans(start: Entries, v: Entries, db: Utxos, txs: seq<Tx>, height: int)
    requires Synced(start, db) && Fetched(start, v, db, txs, height) && DistinctIds(txs)
    ensures Synced(v, db) && EarlySet(Overlay(start, db), Overlay(v, db), start.Keys, txs, height)
    ensures Overlay(v, db) == WithEarly(Overlay(start, db), start.Keys, txs, height)
  {
    hide WantedTo, AddedTo, ForwardRef, MadeHere;
    forall o ensures EarlyAt(Overlay(start, db), Overlay(v, db), start.Keys, txs, height, o) {
      assert FetchedAt(start, v, db, txs, height, o);
      if Added(txs, o) {
        AddedIsMade(txs, o);
        AddedWanted(start.Keys, txs, o);
      }
      WantedHasNoKey(start.Keys, txs, o);
    }
    forall o ensures o in v ==> match v[o] { case None => o !in db case Some(e) => !e.modified ==> !e.spent && o in db && db[o] == e.coin } {
      assert FetchedAt(start, v, db, txs, height, o);
    }
    EarlyUnique(Overlay(start, db), Overlay(v, db), start.Keys, txs, height);
  }

  lemma WantedHasNoKey(keys: set<OutPoint>, txs: seq<Tx>, o: OutPoint)
    ensures Wanted(keys, txs, o) ==> o !in keys
  {
  }

  /** With early outputs at most, the two sets differ only on outputs of the block. */
  lemma EarlyAgrees(u: Utxos, w: Utxos, keys: set<OutPoint>, txs: seq<Tx>, height: int)
    requires EarlySet(u, w, keys, txs, height)
    ensures AgreeOutside(w, u, txs, 0, |txs|)
  {
    hide AddedTo, ForwardRef, MadeHere;
    forall o ensures CreatedBy(txs, 0, |txs|, o) || Same(w, u, o) {
      assert EarlyAt(u, w, keys, txs, height, o);
      if Added(txs, o) {
        AddedIsMade(txs, o);
      }
    }
  }

  /** Every input that no earlier transaction provides has a key, and every added output has one. */
  lemma InputsFetched(start: Entries, v: Entries, db: Utxos, txs: seq<Tx>, height: int, k: nat, j: nat)
    requires Fetched(start, v, db, txs, height) && k < |txs| && j < |Spends(txs[k])|
    ensures var o := Spends(txs[k])[j].prev; HasId(txs, 0, k, o.hash) || o in v
  {
    var o := Spends(txs[k])[j].prev;
    assert RefAt(txs, k, j, o) && Seen(|txs| - 1, 0, k, j);
    assert FetchedAt(start, v, db, txs, height, o);
  }

  lemma FetchLoads(start: Entries, v: Entries, db: Utxos, txs: seq<Tx>, height: int)
    requires Fetched(start, v, db, txs, height)
    ensures Loaded(v, txs)
    ensures forall o :: o in start ==> o in v
  {
    hide FetchedAt;
    forall k | 0 <= k < |txs| ensures LoadedAt(v, txs, k) {
      forall j | 0 <= j < |Spends(txs[k])| && !HasId(txs, 0, |txs|, Spends(txs[k])[j].prev.hash) ensures Spends(txs[k])[j].prev in v {
        InputsFetched(start, v, db, txs, height, k, j);
      }
    }
    forall o | o in start ensures o in v {
      KeyStays(start, v, db, txs, height, o);
    }
  }

  lemma KeyStays(start: Entries, v: Entries, db: Utxos, txs: seq<Tx>, height: int, o: OutPoint)
    requires Fetched(start, v, db, txs, height)
    ensures o in start ==> o in v
    ensures o in v ==> o in start || Touches(txs, o)
  {
    assert FetchedAt(start, v, db, txs, height, o);
    if Wanted(start.Keys, txs, o) {
      var k: nat, j: nat :| RefAt(txs, k, j, o) && Seen(|txs| - 1, 0, k, j) && !HasId(txs, 0, k, o.hash);
    } else if Added(txs, o) {
      AddedIsMade(txs, o);
    }
  }

  /** The block names or creates `o`. */
  ghost predicate Touches(txs: seq<Tx>, o: OutPoint) {
    CreatedBy(txs, 0, |txs|, o) || exists k: nat, j: nat :: RefAt(txs, k, j, o)
  }

  lemma NoKeyLooksUp(start: Entries, db: Utxos, o: OutPoint)
    ensures o !in start ==> (o in Overlay(start, db) <==> o in db)
  {
  }

  /** When ids are fresh, what is missing in the view is missing in the database. */
  lemma FetchCompletes(start: Entries, v: Entries, db: Utxos, u: Utxos, txs: seq<Tx>, height: int)
    requires Fetched(start, v, db, txs, height) && Overlay(start, db) == u && Fresh(u, txs)
    ensures Complete(v, db, txs)
  {
    forall k | 0 <= k < |txs| ensures CompleteAt(v, db, txs, k) {
      forall j | 0 <= j < |Spends(txs[k])| ensures Spends(txs[k])[j].prev in v || Spends(txs[k])[j].prev !in db {
        var o := Spends(txs[k])[j].prev;
        InputsFetched(start, v, db, txs, height, k, j);
        KeyStays(start, v, db, txs, height, o);
        NoKeyLooksUp(start, db, o);
        assert HasId(txs, 0, k, o.hash) ==> HasId(txs, 0, |txs|, o.hash);
      }
    }
  }

  // ----- connecting on a complete view, relative to exactly what the view stands for -----

  /** What transaction `k` finds in the view is what the set has. */
  lemma InputFound(v: Entries, db: Utxos, txs: seq<Tx>, height: int, k: nat, j: nat)
    requires Complete(v, db, txs) && k < |txs| && j < |Spends(txs[k])|
    requires Overlay(ConnectTxs(v, txs, height, k), db) == ApplyTxs(Overlay(v, db), txs, height, k)
    ensures var o, w, s := Spends(txs[k])[j].prev, ConnectTxs(v, txs, height, k), ApplyTxs(Overlay(v, db), txs, height, k);
      o in s ==> o in w && w[o].Some? && !w[o].value.spent && w[o].value.coin == s[o]
  {
    var o, w, s := Spends(txs[k])[j].prev, ConnectTxs(v, txs, height, k), ApplyTxs(Overlay(v, db), txs, height, k);
    assert CompleteAt(v, db, txs, k);
    if o in s && o !in v {
      NoKeyLooksUp(v, db, o);
      NewCoinIsCreated(Overlay(v, db), txs, height, k, o);
    }
    if o in s {
      ConnectKeys(v, txs, height, k, o);
    }
  }

  lemma InputsFound(v: Entries, db: Utxos, txs: seq<Tx>, height: int, k: nat)
    requires Complete(v, db, txs) && k < |txs| && SpendableAt(Overlay(v, db), txs, height, k)
    requires Overlay(ConnectTxs(v, txs, height, k), db) == ApplyTxs(Overlay(v, db), txs, height, k)
    ensures Present(ConnectTxs(v, txs, height, k), Spends(txs[k]))
    ensures EntryCoins(ConnectTxs(v, txs, height, k), Spends(txs[k]), |Spends(txs[k])|) == SpentAt(Overlay(v, db), txs, height, k)
  {
    var w, s, ins := ConnectTxs(v, txs, height, k), ApplyTxs(Overlay(v, db), txs, height, k), Spends(txs[k]);
    forall j | 0 <= j < |ins| ensures ins[j].prev in w && w[ins[j].prev].Some? && SameCoinAt(w, s, ins, j) {
      InputFound(v, db, txs, height, k, j);
    }
    SameCoins(w, s, ins, |ins|);
  }

  /** On a complete view the transactions do to the denoted set what they do to a set, whatever the set is. */
  lemma {:induction false} ConnectExact(v: Entries, db: Utxos, txs: seq<Tx>, height: int, k: nat)
    requires Synced(v, db) && Complete(v, db, txs) && AllSpendable(Overlay(v, db), txs, height, k)
    ensures AllPresent(v, txs, height, k) && Synced(ConnectTxs(v, txs, height, k), db)
    ensures Overlay(ConnectTxs(v, txs, height, k), db) == ApplyTxs(Overlay(v, db), txs, height, k)
    ensures ConnectCoins(v, txs, height, k) == Journal(Overlay(v, db), txs, height, k)
  {
    hide Overlay, Synced, ConnectTx, ApplyTx, SpendableAt, Complete, Present;
    if k > 0 {
      ConnectExact(v, db, txs, height, k - 1);
      assert SpendableAt(Overlay(v, db), txs, height, k - 1);
      InputsFound(v, db, txs, height, k - 1);
      ConnectTxMeans(ConnectTxs(v, txs, height, k - 1), db, txs[k-1], height);
    }
  }

  // ----- early outputs and what they change -----

  lemma {:induction false} AgreementHolds(w: Utxos, u: Utxos, txs: seq<Tx>, height: int, k: nat)
    requires k <= |txs| && AgreeOutside(w, u, txs, 0, |txs|)
    ensures AgreeOutside(ApplyTxs(w, txs, height, k), ApplyTxs(u, txs, height, k), txs, k, |txs|)
  {
    if k > 0 {
      AgreementHolds(w, u, txs, height, k - 1);
      AgreementStep(ApplyTxs(w, txs, height, k - 1), ApplyTxs(u, txs, height, k - 1), txs, height, k - 1);
    }
  }

  /** Without exposed outputs, transaction `k` finds the same on both sets. */
  lemma SameInput(u: Utxos, w: Utxos, keys: set<OutPoint>, txs: seq<Tx>, height: int, k: nat, j: nat)
    requires EarlySet(u, w, keys, txs, height) && !Exposed(keys, txs) && Fresh(u, txs) && DistinctIds(txs)
    requires k < |txs| && j < |Spends(txs[k])|
    ensures Same(ApplyTxs(w, txs, height, k), ApplyTxs(u, txs, height, k), Spends(txs[k])[j].prev)
  {
    var o := Spends(txs[k])[j].prev;
    EarlyAgrees(u, w, keys, txs, height);
    AgreementHolds(w, u, txs, height, k);
    if HasId(txs, k, |txs|, o.hash) {
      assert RefAt(txs, k, j, o);
      assert ForwardRef(txs, o);
      NotEarly(u, w, keys, txs, height, o);
      ForwardAbsent(w, txs, height, k, o);
      ForwardAbsent(u, txs, height, k, o);
    } else {
      assert !CreatedBy(txs, k, |txs|, o);
    }
  }

  lemma NotEarly(u: Utxos, w: Utxos, keys: set<OutPoint>, txs: seq<Tx>, height: int, o: OutPoint)
    requires EarlySet(u, w, keys, txs, height) && !Exposed(keys, txs) && Fresh(u, txs)
    requires ForwardRef(txs, o)
    ensures o !in w && o !in u
  {
    assert EarlyAt(u, w, keys, txs, height, o);
    assert o in keys ==> !Ahead(txs, o);
    var k: nat, j: nat :| RefAt(txs, k, j, o) && HasId(txs, k, |txs|, o.hash);
    assert HasId(txs, 0, |txs|, o.hash);
  }

  /** An output of a later transaction that is not there at first is not there before that transaction. */
  lemma ForwardAbsent(u: Utxos, txs: seq<Tx>, height: int, k: nat, o: OutPoint)
    requires k < |txs| && DistinctIds(txs) && o !in u && HasId(txs, k, |txs|, o.hash)
    ensures o !in ApplyTxs(u, txs, height, k)
  {
    var t :| k <= t < |txs| && txs[t].id == o.hash;
    IdNotBelow(txs, t, k, o.hash);
    if o in ApplyTxs(u, txs, height, k) {
      NewCoinIsCreated(u, txs, height, k, o);
    }
  }

  lemma {:induction false} SameSpent(u: Utxos, w: Utxos, ins: seq<TxIn>, k: nat)
    requires k <= |ins| && forall j :: 0 <= j < |ins| ==> Same(w, u, ins[j].prev)
    ensures SpentCoins(w, ins, k) == SpentCoins(u, ins, k)
  {
    if k > 0 {
      SameSpent(u, w, ins, k - 1);
    }
  }

  lemma {:induction false} SameJournal(u: Utxos, w: Utxos, keys: set<OutPoint>, txs: seq<Tx>, height: int, k: nat)
    requires EarlySet(u, w, keys, txs, height) && !Exposed(keys, txs) && Fresh(u, txs) && DistinctIds(txs) && k <= |txs|
    ensures Journal(w, txs, height, k) == Journal(u, txs, height, k)
  {
    hide EarlySet, Exposed, Fresh, DistinctIds, ApplyTxs;
    if k > 0 {
      SameJournal(u, w, keys, txs, height, k - 1);
      var a, b, ins := ApplyTxs(w, txs, height, k - 1), ApplyTxs(u, txs, height, k - 1), Spends(txs[k-1]);
      forall j | 0 <= j < |ins| ensures Same(a, b, ins[j].prev) {
        SameInput(u, w, keys, txs, height, k - 1, j);
      }
      SameSpent(b, a, ins, |ins|);
    }
  }

  /** In the end the early outputs have become outputs of their transactions. */
  lemma SameAfter(u: Utxos, w: Utxos, keys: set<OutPoint>, txs: seq<Tx>, height: int)
    requires EarlySet(u, w, keys, txs, height)
    ensures ApplyTxs(w, txs, height, |txs|) == ApplyTxs(u, txs, height, |txs|)
  {
    EarlyAgrees(u, w, keys, txs, height);
    AgreementHolds(w, u, txs, height, |txs|);
    AgreeNowhere(ApplyTxs(w, txs, height, |txs|), ApplyTxs(u, txs, height, |txs|), txs, |txs|);
  }

  /** A forward reference is answered by the fetched view exactly when it is an exposed output. */
  lemma ForwardAnsweredIff(u: Utxos, keys: set<OutPoint>, txs: seq<Tx>, height: int, o: OutPoint)
    requires Fresh(u, txs) && ForwardRef(txs, o)
    ensures o in WithEarly(u, keys, txs, height) <==> o in keys && Ahead(txs, o)
  {
    hide AddedTo, WithEarly;
    WithEarlyIsEarly(u, keys, txs, height);
    assert EarlyAt(u, WithEarly(u, keys, txs, height), keys, txs, height, o);
    var k: nat, j: nat :| RefAt(txs, k, j, o) && HasId(txs, k, |txs|, o.hash);
    assert HasId(txs, 0, |txs|, o.hash);
  }

  /** A forward reference without a key ends as a nil entry, and the block cannot be connected. */
  lemma ForwardNeverConnects(start: Entries, v: Entries, db: Utxos, txs: seq<Tx>, height: int, o: OutPoint)
    requires Fetched(start, v, db, txs, height) && DistinctIds(txs) && ForwardRef(txs, o) && o !in start && o !in db
    ensures o in v && v[o].None? && !AllPresent(v, txs, height, |txs|)
  {
    hide Fetched, DistinctIds, ConnectTxs, Spends;
    var k: nat, j: nat :| RefAt(txs, k, j, o) && HasId(txs, k, |txs|, o.hash);
    var t :| k <= t < |txs| && txs[t].id == o.hash;
    IdNotBelow(txs, t, k, o.hash);
    assert Seen(|txs| - 1, 0, k, j);
    FetchedEntry(start, v, db, txs, height, o);
    NilStays(v, txs, height, k, o);
    MissingStays(v, txs, height, k, |txs|);
  }

  lemma FetchedEntry(start: Entries, v: Entries, db: Utxos, txs: seq<Tx>, height: int, o: OutPoint)
    requires Fetched(start, v, db, txs, height) && Wanted(start.Keys, txs, o)
    ensures o in v && v[o] == FetchEntry(db, o)
  {
    assert FetchedAt(start, v, db, txs, height, o);
  }

  /** All keys of `v` were keys before, or belong to outputs the block names or creates. */
  ghost predicate KeysFrom(was: Entries, v: Entries, txs: seq<Tx>) {
    forall o :: o in v ==> o in was || Touches(txs, o)
  }

  /** What connecting a valid block, or undoing one, needs of the fetched view. */
  lemma FetchSuffices(start: Entries, v: Entries, db: Utxos, txs: seq<Tx>, height: int)
    requires Synced(start, db) && Fetched(start, v, db, txs, height) && DistinctIds(txs)
    ensures Synced(v, db) && Loaded(v, txs) && AgreeOutside(Overlay(v, db), Overlay(start, db), txs, 0, |txs|)
    ensures KeysFrom(start, v, txs) && forall o :: o in start ==> o in v
  {
    hide Fetched, Touches;
    FetchMeans(start, v, db, txs, height);
    EarlyAgrees(Overlay(start, db), Overlay(v, db), start.Keys, txs, height);
    FetchLoads(start, v, db, txs, height);
    forall o | o in v ensures o in start || Touches(txs, o) {
      KeyStays(start, v, db, txs, height, o);
    }
  }

  /** The keys of `v` are the old ones and those of the outputs the block names or creates. */
  ghost predicate KeysAre(was: Entries, v: Entries, txs: seq<Tx>) {
    forall o :: o in v <==> o in was || Touches(txs, o)
  }

  /** Connecting a block that finds all its inputs. */
  lemma ConnectKeysAre(was: Entries, v: Entries, txs: seq<Tx>, height: int)
    requires KeysFrom(was, v, txs) && (forall o :: o in was ==> o in v) && AllPresent(v, txs, height, |txs|)
    ensures KeysAre(was, ConnectTxs(v, txs, height, |txs|), txs)
  {
    hide ConnectTxs, AllPresent;
    var w := ConnectTxs(v, txs, height, |txs|);
    forall o ensures o in w <==> o in was || Touches(txs, o) {
      if o in w {
        ConnectedKeys(v, txs, height, |txs|, o);
      } else if o in was || CreatedBy(txs, 0, |txs|, o) {
        ConnectKeys(v, txs, height, |txs|, o);
      } else if k: nat, j: nat :| RefAt(txs, k, j, o) {
        NamedHasKey(v, txs, height, |txs|, k, j);
      }
    }
  }

  lemma {:induction false} NamedHasKey(v: Entries, txs: seq<Tx>, height: int, n: nat, k: nat, j: nat)
    requires k < n <= |txs| && j < |Spends(txs[k])| && AllPresent(v, txs, height, n)
    ensures Spends(txs[k])[j].prev in ConnectTxs(v, txs, height, n)
  {
    var w, tx, o := ConnectTxs(v, txs, height, n - 1), txs[n-1], Spends(txs[k])[j].prev;
    if k < n - 1 {
      NamedHasKey(v, txs, height, n - 1, k, j);
    }
    SpendKeepsRecords(w, Spends(tx), |Spends(tx)|, o);
    AddKeys(SpendEntries(w, Spends(tx), |Spends(tx)|), tx, height, |tx.outs|, o);
  }

  lemma DisconnectKeysAre(was: Entries, v: Entries, txs: seq<Tx>, height: int, journal: seq<Coin>)
    requires KeysFrom(was, v, txs) && (forall o :: o in was ==> o in v) && SpendCount(txs, |txs|) <= |journal|
    ensures KeysAre(was, DisconnectTxs(v, txs, height, journal, |txs|), txs)
  {
    hide DisconnectTxs;
    forall o ensures o in DisconnectTxs(v, txs, height, journal, |txs|) <==> o in was || Touches(txs, o) {
      DisconnectedKeys(v, txs, height, journal, |txs|, o);
      if k: nat, j: nat :| RefAt(txs, k, j, o) {
        assert Refers(Spends(txs[k]), |Spends(txs[k])|, o);
        NamedRestored(v, txs, height, journal, |txs|, k, o);
      }
      if t :| 0 <= t < |txs| && Refers(Spends(txs[t]), |Spends(txs[t])|, o) {
        var j :| 0 <= j < |Spends(txs[t])| && Spends(txs[t])[j].prev == o;
        assert RefAt(txs, t, j, o);
      }
    }
  }

  /** Whatever the view has marked spent, transactions that find entries for their inputs do to the denoted set what they do to a set. */
  lemma {:induction false} PresentMeans(v: Entries, db: Utxos, txs: seq<Tx>, height: int, k: nat)
    requires k <= |txs| && Synced(v, db) && AllPresent(v, txs, height, k)
    ensures Synced(ConnectTxs(v, txs, height, k), db)
    ensures Overlay(ConnectTxs(v, txs, height, k), db) == ApplyTxs(Overlay(v, db), txs, height, k)
  {
    hide Overlay, Synced, ConnectTx, ApplyTx;
    if k > 0 {
      PresentMeans(v, db, txs, height, k - 1);
      ConnectTxMeans(ConnectTxs(v, txs, height, k - 1), db, txs[k-1], height);
    }
  }
}
