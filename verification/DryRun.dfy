/**
 What the check phase of a reorganisation lets through, and what its commit phase then makes of it.  The check
 runs on a view that knows the blocks of the reorganisation; the commit works on views that were just flushed.
 */
module DryRun {
  import opened Wire
  import opened Ledger
  import opened UtxoView
  import opened Fetch
  import opened Validate

  /** Some input names an output of its own or a later transaction. */
  ghost predicate HasForward(txs: seq<Tx>) {
    exists o :: ForwardRef(txs, o)
  }

  /** There is a key for every such input. */
  ghost predicate Answered(keys: set<OutPoint>, txs: seq<Tx>) {
    forall o :: ForwardRef(txs, o) ==> o in keys
  }

  /** The block passes the check on some view that stands for `u`. */
  ghost predicate MayPass(u: Utxos, b: Block, rules: Rules) {
    exists keys: set<OutPoint> :: Accepts(WithEarly(u, keys, b.txs, b.height), b, rules)
  }

  /** Keys that answer every forward reference add the same outputs early. */
  lemma SameEarly(u: Utxos, keys: set<OutPoint>, more: set<OutPoint>, txs: seq<Tx>, height: int)
    requires Answered(keys, txs) && Answered(more, txs)
    ensures WithEarly(u, keys, txs, height) == WithEarly(u, more, txs, height)
  {
    hide ForwardRef, AddedTo;
    assert forall o :: Early(keys, txs, o) <==> Early(more, txs, o);
  }

  /** A block that passes has keys for its forward references, and a later input makes each of their outputs added. */
  lemma AcceptedAnswers(u: Utxos, keys: set<OutPoint>, b: Block, rules: Rules, o: OutPoint)
    requires Fresh(u, b.txs) && SaneBlock(b, rules) && Accepts(WithEarly(u, keys, b.txs, b.height), b, rules)
    requires ForwardRef(b.txs, o)
    ensures o in keys && Ahead(b.txs, o)
  {
    hide Fresh, SaneTxAt, ApplyTxs, AddedTo, WithEarly;
    var w := WithEarly(u, keys, b.txs, b.height);
    var k: nat, j: nat :| RefAt(b.txs, k, j, o) && HasId(b.txs, k, |b.txs|, o.hash);
    assert InputsOkAt(w, b.txs, b.height, rules.maturity, k);
    assert InputOk(ApplyTxs(w, b.txs, b.height, k), b.txs[k].ins[j].prev, b.height, rules.maturity);
    if o !in w {
      ForwardAbsent(w, b.txs, b.height, k, o);
    }
    ForwardAnsweredIff(u, keys, b.txs, b.height, o);
  }

  /** Which views a block passes on: exactly those with a key for each of its forward references. */
  lemma PassesIff(u: Utxos, keys: set<OutPoint>, b: Block, rules: Rules)
    requires Fresh(u, b.txs) && SaneBlock(b, rules)
    ensures Accepts(WithEarly(u, keys, b.txs, b.height), b, rules) <==> MayPass(u, b, rules) && Answered(keys, b.txs)
  {
    hide Fresh, SaneBlock, Accepts, ForwardRef, Ahead, WithEarly;
    if MayPass(u, b, rules) && Answered(keys, b.txs) {
      var some: set<OutPoint> :| Accepts(WithEarly(u, some, b.txs, b.height), b, rules);
      forall o | ForwardRef(b.txs, o) ensures o in some {
        AcceptedAnswers(u, some, b, rules, o);
      }
      SameEarly(u, some, keys, b.txs, b.height);
    }
    if Accepts(WithEarly(u, keys, b.txs, b.height), b, rules) {
      forall o | ForwardRef(b.txs, o) ensures o in keys {
        AcceptedAnswers(u, keys, b, rules, o);
      }
    }
  }

  /** By the rules a block is acceptable exactly when it may pass and refers to nothing forward. */
  lemma AcceptsIff(u: Utxos, b: Block, rules: Rules)
    requires Fresh(u, b.txs) && SaneBlock(b, rules)
    ensures Accepts(u, b, rules) <==> MayPass(u, b, rules) && !HasForward(b.txs)
  {
    hide Fresh, SaneBlock, Accepts, ForwardRef, WithEarly;
    var w := WithEarly(u, {}, b.txs, b.height);
    WithEarlyIsEarly(u, {}, b.txs, b.height);
    VerdictRightIff(u, w, {}, b, rules);
    PassesIff(u, {}, b, rules);
  }

  /** Every forward reference of a block that may pass is to an output added ahead of its transaction. */
  lemma ForwardIsAhead(u: Utxos, b: Block, rules: Rules, o: OutPoint)
    requires Fresh(u, b.txs) && SaneBlock(b, rules) && MayPass(u, b, rules) && ForwardRef(b.txs, o)
    ensures Ahead(b.txs, o)
  {
    hide Fresh, SaneBlock, Accepts, WithEarly;
    var keys: set<OutPoint> :| Accepts(WithEarly(u, keys, b.txs, b.height), b, rules);
    AcceptedAnswers(u, keys, b, rules, o);
  }

  // ----- connecting without the check -----

  /** Every entry is an unspent output, as after a flush. */
  predicate Live(v: Entries) {
    forall o :: o in v ==> v[o].Some? && !v[o].value.spent
  }

  lemma CommitIsLive(v: Entries, db: Utxos)
    requires Synced(v, db)
    ensures Live(CommitEntries(v))
  {
  }

  /** A flushed view answers no forward reference. */
  lemma LiveAnswers(start: Entries, db: Utxos, txs: seq<Tx>)
    requires Live(start) && Fresh(Overlay(start, db), txs)
    ensures Answered(start.Keys, txs) <==> !HasForward(txs)
  {
    hide RefAt;
    forall o | ForwardRef(txs, o) ensures o !in start {
      NotOnSet(Overlay(start, db), txs, o);
    }
  }

  /** With fresh ids the set has no output that a forward reference names. */
  lemma NotOnSet(u: Utxos, txs: seq<Tx>, o: OutPoint)
    requires Fresh(u, txs) && ForwardRef(txs, o)
    ensures o !in u
  {
    var k: nat, j: nat :| RefAt(txs, k, j, o) && HasId(txs, k, |txs|, o.hash);
    assert HasId(txs, 0, |txs|, o.hash);
  }

  lemma FetchedWithAnswers(start: Entries, v: Entries, db: Utxos, b: Block, rules: Rules)
    requires Synced(start, db) && Fresh(Overlay(start, db), b.txs) && SaneBlock(b, rules)
    requires MayPass(Overlay(start, db), b, rules) && Fetched(start, v, db, b.txs, b.height) && Answered(start.Keys, b.txs)
    ensures AllPresent(v, b.txs, b.height, |b.txs|)
    ensures !HasForward(b.txs) ==> ConnectCoins(v, b.txs, b.height, |b.txs|) == Journal(Overlay(start, db), b.txs, b.height, |b.txs|)
  {
    hide Fresh, Accepts, WithEarly, Fetched, ForwardRef, Synced, Overlay, EarlySet, Complete, SaneTxAt, Added, AllSpendable;
    var u, w := Overlay(start, db), Overlay(v, db);
    FetchMeans(start, v, db, b.txs, b.height);
    PassesIff(u, start.Keys, b, rules);
    AcceptedIsValid(w, b, rules);
    FetchCompletes(start, v, db, u, b.txs, b.height);
    ConnectExact(v, db, b.txs, b.height, |b.txs|);
    if !HasForward(b.txs) {
      SameJournal(u, w, start.Keys, b.txs, b.height, |b.txs|);
    }
  }

  /**
   A block that may pass, connected without being checked: its inputs are all found exactly when its forward
   references have keys, and then the view stands for the set with the block applied.
   */
  lemma FetchedConnects(start: Entries, v: Entries, db: Utxos, b: Block, rules: Rules)
    requires Synced(start, db) && Fresh(Overlay(start, db), b.txs) && SaneBlock(b, rules)
    requires MayPass(Overlay(start, db), b, rules) && Fetched(start, v, db, b.txs, b.height)
    ensures AllPresent(v, b.txs, b.height, |b.txs|) <==> Answered(start.Keys, b.txs)
    ensures AllPresent(v, b.txs, b.height, |b.txs|) ==>
      Synced(ConnectTxs(v, b.txs, b.height, |b.txs|), db) &&
      Overlay(ConnectTxs(v, b.txs, b.height, |b.txs|), db) == ApplyBlock(Overlay(start, db), b)
    ensures AllPresent(v, b.txs, b.height, |b.txs|) && !HasForward(b.txs) ==>
      ConnectCoins(v, b.txs, b.height, |b.txs|) == Journal(Overlay(start, db), b.txs, b.height, |b.txs|)
  {
    hide Fresh, MayPass, Fetched, ForwardRef, Synced, Overlay, AllPresent, EarlySet, SaneTxAt, ConnectTxs;
    var u := Overlay(start, db);
    if Answered(start.Keys, b.txs) {
      FetchedWithAnswers(start, v, db, b, rules);
      FetchMeans(start, v, db, b.txs, b.height);
      PresentMeans(v, db, b.txs, b.height, |b.txs|);
      SameAfter(u, Overlay(v, db), start.Keys, b.txs, b.height);
    } else {
      var o :| ForwardRef(b.txs, o) && o !in start.Keys;
      NotOnSet(u, b.txs, o);
      NoKeyLooksUp(start, db, o);
      ForwardNeverConnects(start, v, db, b.txs, b.height, o);
    }
  }

  /** What a block that may pass spends without referring forward is there when it is looked for. */
  lemma BackwardIsThere(u: Utxos, w: Utxos, b: Block, rules: Rules, k: nat, i: nat)
    requires Fresh(u, b.txs) && SaneBlock(b, rules) && MayPass(u, b, rules) && AgreeOutside(w, u, b.txs, 0, |b.txs|)
    requires k < |b.txs| && i < |Spends(b.txs[k])| && !ForwardRef(b.txs, Spends(b.txs[k])[i].prev)
    ensures Spends(b.txs[k])[i].prev in ApplyTxs(w, b.txs, b.height, k)
  {
    hide Fresh, SaneTxAt, ApplyTxs, WithEarly, EarlySet;
    var keys: set<OutPoint> :| Accepts(WithEarly(u, keys, b.txs, b.height), b, rules);
    var x, o := WithEarly(u, keys, b.txs, b.height), Spends(b.txs[k])[i].prev;
    assert InputsOkAt(x, b.txs, b.height, rules.maturity, k);
    assert InputOk(ApplyTxs(x, b.txs, b.height, k), b.txs[k].ins[i].prev, b.height, rules.maturity);
    WithEarlyIsEarly(u, keys, b.txs, b.height);
    EarlyAgrees(u, x, keys, b.txs, b.height);
    AgreementHolds(x, u, b.txs, b.height, k);
    AgreementHolds(w, u, b.txs, b.height, k);
    assert RefAt(b.txs, k, i, o);
    assert !CreatedBy(b.txs, k, |b.txs|, o);
    assert Same(ApplyTxs(x, b.txs, b.height, k), ApplyTxs(u, b.txs, b.height, k), o);
    assert Same(ApplyTxs(w, b.txs, b.height, k), ApplyTxs(u, b.txs, b.height, k), o);
  }

  /** The input at which such a block stops is a forward reference without a key. */
  lemma MissingIsForward(start: Entries, v: Entries, db: Utxos, b: Block, rules: Rules, k: nat, i: nat)
    requires Synced(start, db) && Fresh(Overlay(start, db), b.txs) && SaneBlock(b, rules)
    requires MayPass(Overlay(start, db), b, rules) && Fetched(start, v, db, b.txs, b.height)
    requires StopsAt(v, b.txs, b.height, k, i)
    ensures ForwardRef(b.txs, Spends(b.txs[k])[i].prev) && Spends(b.txs[k])[i].prev !in start
  {
    hide Fresh, MayPass, Fetched, ForwardRef, Synced, Overlay, SaneTxAt, ConnectTxs, ApplyTxs, AllPresent, AgreeOutside, Complete, Loaded, Added, KeysFrom;
    var u, o := Overlay(start, db), Spends(b.txs[k])[i].prev;
    FetchSuffices(start, v, db, b.txs, b.height);
    if !ForwardRef(b.txs, o) {
      FetchCompletes(start, v, db, u, b.txs, b.height);
      PresentMeans(v, db, b.txs, b.height, k);
      BackwardIsThere(u, Overlay(v, db), b, rules, k, i);
      InputFound(v, db, b.txs, b.height, k, i);
    } else if o in start {
      ForwardIsAhead(u, b, rules, o);
      AheadEntry(start, v, db, b.txs, b.height, o);
      EntryStays(v, b.txs, b.height, k, o);
    }
  }

  lemma AheadEntry(start: Entries, v: Entries, db: Utxos, txs: seq<Tx>, height: int, o: OutPoint)
    requires Fetched(start, v, db, txs, height) && o in start && Ahead(txs, o)
    ensures o in v && v[o].Some?
  {
    assert FetchedAt(start, v, db, txs, height, o);
  }

  /** On a flushed view no block with a forward reference connects, whatever a check said of it. */
  lemma RealRunMisses(start: Entries, v: Entries, db: Utxos, txs: seq<Tx>, height: int)
    requires Synced(start, db) && Live(start) && Fresh(Overlay(start, db), txs) && DistinctIds(txs)
    requires Fetched(start, v, db, txs, height) && HasForward(txs)
    ensures !AllPresent(v, txs, height, |txs|)
  {
    hide ForwardRef, Fetched, AllPresent, Synced, DistinctIds, Fresh, Live, Overlay;
    var o :| ForwardRef(txs, o);
    NotOnSet(Overlay(start, db), txs, o);
    LiveKey(start, db, o);
    ForwardNeverConnects(start, v, db, txs, height, o);
  }

  lemma LiveKey(start: Entries, db: Utxos, o: OutPoint)
    requires Live(start) && o !in Overlay(start, db)
    ensures o !in start && o !in db
  {
  }

  /** A block that passed a check on a view with the given keys connects on the flushed view exactly when nothing was exposed. */
  lemma DryIsRealIff(keys: set<OutPoint>, start: Entries, v: Entries, db: Utxos, b: Block, rules: Rules)
    requires Synced(start, db) && Live(start) && Fresh(Overlay(start, db), b.txs) && SaneBlock(b, rules)
    requires Accepts(WithEarly(Overlay(start, db), keys, b.txs, b.height), b, rules) && Fetched(start, v, db, b.txs, b.height)
    ensures AllPresent(v, b.txs, b.height, |b.txs|) <==> !Exposed(keys, b.txs)
  {
    hide ForwardRef, Fetched, AllPresent, Synced, Fresh, Live, Overlay, Accepts, SaneTxAt, ConnectTxs, WithEarly, Added;
    var u := Overlay(start, db);
    PassesIff(u, keys, b, rules);
    LiveAnswers(start, db, b.txs);
    FetchedConnects(start, v, db, b, rules);
    forall o | ForwardRef(b.txs, o) ensures o in keys && Ahead(b.txs, o) {
      AcceptedAnswers(u, keys, b, rules, o);
    }
  }
}
