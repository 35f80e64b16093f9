/**
 The chain state machine of pkg/blockchain/chain.go: connecting, disconnecting and reorganising, with the
 database, the best chain, the best-state snapshot and the node statuses as mutable fields.

 `Valid` says that the whole database equals the replay of the best chain; every method keeps it.
 */
module BlockChain {
  import opened Wire
  import opened Ledger
  import opened Money
  import opened UtxoView
  import opened Viewpoint
  import opened Fetch
  import opened Legacy
  import opened Validate
  import opened DryRun
  import opened Chain
  import opened Origin
  import opened BlockTree

  datatype Status = Status(valid: bool, failed: bool, invalidAncestor: bool) {
    predicate KnownInvalid() {
      failed || invalidAncestor
    }

    function With(flags: Status): Status {
      Status(valid || flags.valid, failed || flags.failed, invalidAncestor || flags.invalidAncestor)
    }
  }

  const VALID := Status(true, false, false)
  const VALIDATE_FAILED := Status(false, true, false)
  const INVALID_ANCESTOR := Status(false, false, true)

  /**
   What becomes of a reorganisation: done; refused, because the block at a position breaks a rule; given up in the
   check phase, because a block marked valid earlier does not find an input; stopped halfway, because a block that
   passed does not find an input in the commit phase; or asked for on lists that do not fit.
   */
  datatype Outcome =
    | Done
    | Refused(at: nat, error: RuleError)
    | GivenUp(at: nat, input: OutPoint)
    | Stopped(at: nat, input: OutPoint)
    | Mismatch

  /** What becomes of one block in the check phase, or at the end of the best chain. */
  datatype Step = Passed | Failed(error: RuleError) | Missing(input: OutPoint)

  /** Writes one entry of a view to the unspent set: clean and nil entries are skipped. */
  function PutEntry(u: Utxos, o: OutPoint, e: Option<Entry>): Utxos {
    if e.None? || !e.value.modified then u else if e.value.spent then u - {o} else u[o := e.value.coin]
  }

  /** The keys outside `todo` have been written, the others still hold what the database had. */
  ghost predicate Written(u: Utxos, v: Entries, db: Utxos, todo: set<OutPoint>) {
    forall o :: if o in todo then Same(u, db, o) else Same(u, Overlay(v, db), o)
  }

  lemma WriteStep(u: Utxos, v: Entries, db: Utxos, todo: set<OutPoint>, o: OutPoint)
    requires Synced(v, db) && Written(u, v, db, todo) && o in todo && o in v
    ensures Written(PutEntry(u, o, v[o]), v, db, todo - {o})
  {
    var w := PutEntry(u, o, v[o]);
    assert Same(w, Overlay(v, db), o) by {
      assert Same(u, db, o);
    }
    forall p | p != o ensures if p in todo then Same(w, db, p) else Same(w, Overlay(v, db), p) {
      assert if p in todo then Same(u, db, p) else Same(u, Overlay(v, db), p);
    }
  }

  /** Writes the modified entries of a view to the unspent set: spent ones are deleted, the others stored. */
  method PutUtxoView(db: Utxos, v: Entries) returns (u: Utxos)
    requires Synced(v, db)
    ensures u == Overlay(v, db)
  {
    u := db;
    var todo := v.Keys;
    while todo != {}
      invariant todo <= v.Keys && Written(u, v, db, todo)
      decreases |todo|
    {
      var o :| o in todo;
      WriteStep(u, v, db, todo, o);
      todo := todo - {o};
      u := PutEntry(u, o, v[o]);
    }
    forall o ensures (o in u <==> o in Overlay(v, db)) && (o in u ==> u[o] == Overlay(v, db)[o]) {
      assert Same(u, Overlay(v, db), o);
    }
  }

  /** An entry that was not modified is marked modified by the flush, and the next flush writes the same coin once more. */
  lemma CleanIsRewritten(v: Entries, db: Utxos, o: OutPoint)
    requires Synced(v, db) && o in v && v[o].Some? && !v[o].value.modified
    ensures var w := CommitEntries(v);
      o in w && w[o] == Some(Entry(v[o].value.coin, false, true)) && PutEntry(Overlay(v, db), o, w[o]) == Overlay(v, db)
  {
    assert Lookup(v, db, o) == Some(v[o].value.coin);
  }

  /** A stored block above genesis passed checkBlockSanity. */
  ghost predicate StoredOk(b: Block, rules: Rules) {
    SaneBlock(b, rules) && rules.Reward(b) < 0x8000_0000_0000_0000
  }

  ghost predicate StoredAt(blocks: Blocks, rules: Rules, h: Hash)
    requires h in blocks
  {
    h != rules.genesis ==> StoredOk(blocks[h], rules)
  }

  ghost predicate AllStoredOk(blocks: Blocks, rules: Rules) {
    forall h {:trigger StoredAt(blocks, rules, h)} :: h in blocks ==> StoredAt(blocks, rules, h)
  }

  /** The block may really sit on the chain below it. */
  ghost predicate MarkOk(blocks: Blocks, rules: Rules, h: Hash)
    requires TreeOk(blocks, rules.genesis) && h in blocks && h != rules.genesis && blocks[h].prev in blocks
  {
    Connectable(StateAt(blocks, rules.genesis, blocks[h].prev), blocks[h], rules)
  }

  /** The block passes the check on some view that stands for the chain below it. */
  ghost predicate MayAt(blocks: Blocks, rules: Rules, h: Hash)
    requires TreeOk(blocks, rules.genesis) && h in blocks && h != rules.genesis && blocks[h].prev in blocks
  {
    FreshAt(blocks, rules.genesis, h) && MayPass(StateAt(blocks, rules.genesis, blocks[h].prev), blocks[h], rules)
  }

  /** The reason for which block `h` is refused on a view with the given keys that stands for the chain below it. */
  ghost predicate Breaks(blocks: Blocks, rules: Rules, h: Hash, keys: set<OutPoint>, e: RuleError)
    requires TreeOk(blocks, rules.genesis) && h in blocks && h != rules.genesis && blocks[h].prev in blocks
  {
    var b := blocks[h];
    BlockRefused(WithEarly(StateAt(blocks, rules.genesis, b.prev), keys, b.txs, b.height), b, rules, e)
  }

  ghost predicate ForwardIn(blocks: Blocks, h: Hash) {
    h in blocks && HasForward(blocks[h].txs)
  }

  /** Storing a block leaves what is known of the others as it is. */
  lemma StoreKeepsMarks(blocks: Blocks, status: map<Hash, Status>, rules: Rules, b: Block)
    requires MarksOk(blocks, status, rules) && AllStoredOk(blocks, rules) && StoredOk(b, rules)
    requires b.hash !in blocks && b.prev in blocks && b.height == blocks[b.prev].height + 1
    ensures TreeOk(blocks, rules.genesis) && TreeOk(blocks[b.hash := b], rules.genesis)
    ensures MarksOk(blocks[b.hash := b], status[b.hash := Status(false, false, false)], rules) && AllStoredOk(blocks[b.hash := b], rules)
  {
    hide MayPass, Fresh, StoredOk;
    var more, now := blocks[b.hash := b], status[b.hash := Status(false, false, false)];
    StoreKeepsTree(blocks, rules.genesis, b);
    forall h | h in more ensures ValidOk(more, now, rules, h) && StoredAt(more, rules, h) {
      if h != b.hash && h != rules.genesis {
        assert BlockOk(blocks, rules.genesis, h) && ValidOk(blocks, status, rules, h) && StoredAt(blocks, rules, h);
        PathStable(blocks, rules.genesis, b, blocks[h].prev);
      }
    }
  }

  ghost predicate MarksOk(blocks: Blocks, status: map<Hash, Status>, rules: Rules) {
    TreeOk(blocks, rules.genesis) && status.Keys == blocks.Keys &&
    forall h {:trigger ValidOk(blocks, status, rules, h)} :: h in blocks ==> ValidOk(blocks, status, rules, h)
  }

  /** A node marked valid passes the check on some view; it may still refer forward. */
  ghost predicate ValidOk(blocks: Blocks, status: map<Hash, Status>, rules: Rules, h: Hash)
    requires TreeOk(blocks, rules.genesis) && h in blocks && h in status
  {
    status[h].valid && h != rules.genesis ==> blocks[h].prev in blocks && MayAt(blocks, rules, h)
  }

  /** The transaction ids of block `h` are fresh on the chain below it. */
  ghost predicate FreshAt(blocks: Blocks, genesis: Hash, h: Hash)
    requires TreeOk(blocks, genesis) && h in blocks && h != genesis && blocks[h].prev in blocks
  {
    Fresh(StateAt(blocks, genesis, blocks[h].prev), blocks[h].txs)
  }

  /** The view stands for the state after block `h`. */
  ghost predicate StandsFor(v: Entries, db: Utxos, blocks: Blocks, genesis: Hash, h: Hash)
    requires TreeOk(blocks, genesis) && h in blocks
  {
    Synced(v, db) && Overlay(v, db) == StateAt(blocks, genesis, h)
  }

  class BlockChain {
    const rules: Rules
    var db: Db
    var blocks: Blocks
    var status: map<Hash, Status>
    var best: seq<Hash>
    var totalTxns: int

    ghost predicate TreeValid()
      reads this
    {
      MarksOk(blocks, status, rules) && AllStoredOk(blocks, rules)
    }

    /** The database is the replay of the best chain, and the memory state agrees with it. */
    ghost predicate Valid()
      reads this
    {
      TreeValid() && db.best in blocks &&
      var chain := Path(blocks, rules.genesis, db.best);
      ChainOk(chain, rules) && db == Replay(chain, |chain|) && totalTxns == db.totalTxns &&
      |best| == |chain| && forall i :: 0 <= i < |best| ==> best[i] == chain[i].hash
    }

    ghost function Tip(): Hash
      reads this
    {
      db.best
    }

    constructor (genesis: Block, rules: Rules)
      requires genesis.hash == rules.genesis && genesis.height == 0
      ensures Valid() && this.rules == rules && Tip() == genesis.hash
      ensures db == GenesisDb(genesis) && db.utxos == map[] && best == [genesis.hash]
      ensures blocks == map[genesis.hash := genesis]
    {
      this.rules := rules;
      db := GenesisDb(genesis);
      blocks := map[genesis.hash := genesis];
      status := map[genesis.hash := Status(true, false, false)];
      best := [genesis.hash];
      totalTxns := |genesis.txs|;
      new;
      var chain := Path(blocks, rules.genesis, genesis.hash);
      assert chain == [genesis] && TxCount(chain, 0) == 0;
      PathLinked(blocks, rules.genesis, genesis.hash);
    }

    /** In every reachable state the money in existence is at most the subsidies of the best chain. */
    lemma MoneyBound()
      requires Valid()
      ensures var chain := Path(blocks, rules.genesis, Tip());
        Total(db.utxos) <= Subsidies(chain, rules, |chain|)
    {
      var chain := Path(blocks, rules.genesis, Tip());
      forall i | 0 < i < |chain| ensures PaysAt(chain, rules, i) {
        assert ConnectableAt(chain, rules, i);
        ConnectableIsValid(UtxosOf(chain, i), chain[i], rules);
      }
      SupplyBound(chain, rules, |chain|);
    }

    /** In every reachable state each coin of the database was made by a transaction of the best chain and named by none since. */
    lemma CoinsHaveOrigin(o: OutPoint)
      requires Valid() && o in db.utxos
      ensures var chain := Path(blocks, rules.genesis, Tip());
        HasOrigin(chain, |chain|, 0, o, db.utxos[o])
    {
      hide UnspentSince, AllStoredOk, ValidOk;
      var chain := Path(blocks, rules.genesis, Tip());
      MoreThanGenesis(chain, o);
      CoinOrigin(chain, rules.genesis, |chain|, o);
      var i: nat, k: nat :| UnspentSince(chain, i, k, |chain|, 0, o, UtxosOf(chain, |chain|)[o]);
      assert UnspentSince(chain, i, k, |chain|, 0, o, db.utxos[o]);
    }

    /** ... and nothing on the best chain spends a coinbase before it is mature. */
    lemma SpendsAreMature(n: nat, k: nat, o: OutPoint)
      requires Valid() && NamedBy(Path(blocks, rules.genesis, Tip()), n, k, o)
      ensures var chain := Path(blocks, rules.genesis, Tip());
        exists i: nat, t: nat, c :: UnspentSince(chain, i, t, n, k, o, c) && (c.coinbase ==> n - i >= rules.maturity)
    {
      hide UnspentSince, AllStoredOk, ValidOk, NamedBy, Replay;
      SpendsMature(Path(blocks, rules.genesis, Tip()), rules, n, k, o);
    }

    /** In every reachable state both index buckets list exactly the best chain held in memory. */
    lemma BucketsAgreeWithBest(h: Hash, m: int)
      requires Valid()
      ensures h in db.heights && db.heights[h] == m <==> 0 <= m < |best| && best[m] == h
      ensures m in db.hashes && db.hashes[m] == h <==> 0 <= m < |best| && best[m] == h
    {
      hide UtxosOf, JournalOf, HeightsOf, HashesOf, TxCount, Path, AllStoredOk, Linked;
      var chain := Path(blocks, rules.genesis, Tip());
      IndexBucketsInverse(chain, rules.genesis, h, m);
    }

    /** Adds a sane block whose parent is known; it starts out on a side chain. */
    method StoreBlock(b: Block)
      requires Valid() && StoredOk(b, rules)
      requires b.hash !in blocks && b.prev in blocks && b.height == blocks[b.prev].height + 1
      modifies this`blocks, this`status
      ensures Valid()
      ensures blocks == old(blocks)[b.hash := b] && status == old(status)[b.hash := Status(false, false, false)]
    {
      hide MarksOk, AllStoredOk, ChainOk, Replay;
      StoreKeepsMarks(blocks, status, rules, b);
      PathStable(blocks, rules.genesis, b, db.best);
      blocks := blocks[b.hash := b];
      status := status[b.hash := Status(false, false, false)];
    }

    /** Turns the given status flags of a node on, leaving the others as they are. */
    method SetStatusFlags(h: Hash, flags: Status)
      requires TreeValid() && h in blocks
      requires flags.valid ==> h != rules.genesis && blocks[h].prev in blocks && MayAt(blocks, rules, h)
      modifies this`status
      ensures TreeValid() && status == old(status)[h := old(status)[h].With(flags)]
      ensures forall g :: g in status && g != h ==> status[g] == old(status)[g]
      ensures status[h].valid == (old(status)[h].valid || flags.valid)
      ensures status[h].failed == (old(status)[h].failed || flags.failed)
      ensures status[h].invalidAncestor == (old(status)[h].invalidAncestor || flags.invalidAncestor)
    {
      ghost var was := status;
      status := status[h := status[h].With(flags)];
      forall g | g in blocks ensures ValidOk(blocks, status, rules, g) {
        assert ValidOk(blocks, was, rules, g);
      }
    }

    /**
     Makes block `h` the new end of the best chain; `false` when it does not extend the tip.  The view must
     have the block connected and `stxos` must be the block's journal.
     */
    method ConnectBlock(h: Hash, view: UtxoViewpoint, stxos: seq<Coin>) returns (ok: bool)
      requires Valid() && h in blocks && h != rules.genesis && blocks[h].prev in blocks && MarkOk(blocks, rules, h)
      requires blocks[h].prev == Tip() ==>
        StandsFor(view.entries, db.utxos, blocks, rules.genesis, h) && stxos == BlockJournal(db.utxos, blocks[h])
      modifies this`db, this`best, this`totalTxns, view`entries
      ensures Valid() && (ok <==> blocks[h].prev == old(Tip()))
      ensures ok ==> Tip() == h && db == ConnectDb(old(db), blocks[h]) && best == old(best) + [h]
      ensures ok ==> view.entries == CommitEntries(old(view.entries))
      ensures ok ==> StandsFor(view.entries, db.utxos, blocks, rules.genesis, h)
      ensures !ok ==> db == old(db) && best == old(best) && view.entries == old(view.entries)
    {
      hide UtxosOf, JournalOf, HeightsOf, HashesOf, Path, ChainOk, ValidOk, StoredAt, StoredOk, BlockValid;
      var b := blocks[h];
      if b.prev != best[|best|-1] {
        return false;
      }
      var spent := CountSpentOutputs(b);
      if |stxos| != spent {
        return false;
      }
      assert BlockOk(blocks, rules.genesis, h);
      ChainGrows(blocks, h, rules);
      StateStep(blocks, rules.genesis, h);
      var total := totalTxns + |b.txs|;
      var utxos := PutUtxoView(db.utxos, view.entries);
      CommitDenotes(view.entries, db.utxos);
      db := Db(utxos, db.journal[b.hash := stxos], db.heights[b.hash := b.height], db.hashes[b.height := b.hash], total, b.hash);
      view.Commit();
      best := best + [h];
      totalTxns := total;
      ok := true;
    }

    /**
     Takes the tip off the best chain; `false` when `h` is not the tip.  The view must have the block
     disconnected.
     */
    method DisconnectBlock(h: Hash, view: UtxoViewpoint) returns (ok: bool)
      requires Valid() && h in blocks && h != rules.genesis && blocks[h].prev in blocks
      requires h == Tip() ==> StandsFor(view.entries, db.utxos, blocks, rules.genesis, blocks[h].prev)
      modifies this`db, this`best, this`totalTxns, view`entries
      ensures Valid() && (ok <==> h == old(Tip()))
      ensures ok ==> Tip() == blocks[h].prev && best == old(best)[..|old(best)|-1]
      ensures ok ==> db == DisconnectDb(old(db), blocks[h], StateAt(blocks, rules.genesis, blocks[h].prev))
      ensures ok ==> view.entries == CommitEntries(old(view.entries))
      ensures ok ==> StandsFor(view.entries, db.utxos, blocks, rules.genesis, blocks[h].prev)
      ensures !ok ==> db == old(db) && best == old(best) && view.entries == old(view.entries)
    {
      hide UtxosOf, JournalOf, HeightsOf, HashesOf, Path, ChainOk, ValidOk, StoredAt, StoredOk, SaneBlock;
      var b := blocks[h];
      if h != best[|best|-1] {
        return false;
      }
      ChainShrinks(blocks, h, rules);
      DisconnectStep(blocks, rules.genesis, h);
      StateStep(blocks, rules.genesis, h);
      var total := totalTxns - |b.txs|;
      var utxos := PutUtxoView(db.utxos, view.entries);
      CommitDenotes(view.entries, db.utxos);
      db := Db(utxos, db.journal - {b.hash}, db.heights - {b.hash}, db.hashes - {b.height}, total, b.prev);
      view.Commit();
      best := best[..|best|-1];
      totalTxns := total;
      ok := true;
    }

    /** Undoes block `h` on a view that stands for the state after it. */
    method UndoOnView(h: Hash, view: UtxoViewpoint, stxos: seq<Coin>)
      requires TreeValid() && h in blocks && h != rules.genesis && blocks[h].prev in blocks && MarkOk(blocks, rules, h)
      requires StandsFor(view.entries, db.utxos, blocks, rules.genesis, h)
      requires stxos == BlockJournal(StateAt(blocks, rules.genesis, blocks[h].prev), blocks[h])
      modifies view
      ensures StandsFor(view.entries, db.utxos, blocks, rules.genesis, blocks[h].prev) && view.bestHash == blocks[h].prev
      ensures KeysAre(old(view.entries), view.entries, blocks[h].txs)
    {
      hide Fetched, KeysFrom, KeysAre, Accepts;
      var b := blocks[h];
      ghost var u, start := StateAt(blocks, rules.genesis, b.prev), view.entries;
      StateStep(blocks, rules.genesis, h);
      view.FetchInputUtxos(db.utxos, b);
      FetchSuffices(start, view.entries, db.utxos, b.txs, b.height);
      RecordHeights(blocks, h, rules);
      ConnectableIsValid(u, b, rules);
      FreshNeverOverwrites(u, b.txs, b.height);
      DisconnectDenotes(view.entries, db.utxos, u, b.txs, b.height);
      DisconnectKeysAre(start, view.entries, b.txs, b.height, stxos);
      UndoneComplete(view.entries, db.utxos, rules.find, b.txs, b.height, stxos, |b.txs|);
      var r := view.DisconnectTransactions(db.utxos, rules.find, b, stxos);
      assert r == Finished(None);
    }

    /**
     Connects block `h`, marked valid, on a view that stands for the state below it.  It finds its inputs exactly
     when the view has keys for its forward references.
     */
    method ApplyOnView(h: Hash, view: UtxoViewpoint) returns (missing: Option<OutPoint>, stxos: seq<Coin>)
      requires TreeValid() && h in blocks && h != rules.genesis && blocks[h].prev in blocks && MayAt(blocks, rules, h)
      requires StandsFor(view.entries, db.utxos, blocks, rules.genesis, blocks[h].prev)
      modifies view
      ensures missing.None? <==> Answered(old(view.entries).Keys, blocks[h].txs)
      ensures missing.None? ==> StandsFor(view.entries, db.utxos, blocks, rules.genesis, h) && view.bestHash == h
      ensures missing.None? ==> KeysAre(old(view.entries), view.entries, blocks[h].txs)
      ensures missing.None? && !HasForward(blocks[h].txs) ==>
        stxos == BlockJournal(StateAt(blocks, rules.genesis, blocks[h].prev), blocks[h])
      ensures missing.Some? ==> ForwardRef(blocks[h].txs, missing.value) && missing.value !in old(view.entries)
    {
      hide Fetched, KeysFrom, KeysAre, MayPass, Answered, HasForward, AllPresent, ConnectTxs, ConnectCoins, Overlay, Synced, ForwardRef;
      var b := blocks[h];
      ghost var start := view.entries;
      assert BlockOk(blocks, rules.genesis, h) && StoredAt(blocks, rules, h);
      StateStep(blocks, rules.genesis, h);
      view.FetchInputUtxos(db.utxos, b);
      ghost var fetched := view.entries;
      FetchSuffices(start, fetched, db.utxos, b.txs, b.height);
      FetchedConnects(start, fetched, db.utxos, b, rules);
      missing, stxos := view.ConnectTransactions(b, []);
      if missing.Some? {
        ghost var k: nat, i: nat :| StopsAt(fetched, b.txs, b.height, k, i) && missing.value == Spends(b.txs[k])[i].prev;
        MissingIsForward(start, fetched, db.utxos, b, rules, k, i);
      } else {
        ConnectKeysAre(start, fetched, b.txs, b.height);
      }
    }

    /** The full check of block `h` on a view that stands for the state below it; marks it valid. */
    method CheckOnView(h: Hash, view: UtxoViewpoint) returns (e: Option<RuleError>, stxos: seq<Coin>)
      requires TreeValid() && h in blocks && h != rules.genesis && blocks[h].prev in blocks
      requires FreshAt(blocks, rules.genesis, h)
      requires StandsFor(view.entries, db.utxos, blocks, rules.genesis, blocks[h].prev) && view.bestHash == blocks[h].prev
      modifies this`status, view
      ensures TreeValid()
      ensures e.None? <==> MayAt(blocks, rules, h) && Answered(old(view.entries).Keys, blocks[h].txs)
      ensures e.None? ==> KeysAre(old(view.entries), view.entries, blocks[h].txs)
      ensures e.None? ==> status == old(status)[h := old(status)[h].With(VALID)]
      ensures e.None? ==> StandsFor(view.entries, db.utxos, blocks, rules.genesis, h) && view.bestHash == h
      ensures e.None? && !HasForward(blocks[h].txs) ==>
        stxos == BlockJournal(StateAt(blocks, rules.genesis, blocks[h].prev), blocks[h])
      ensures e.Some? ==> status == old(status)
      ensures e.Some? ==> Breaks(blocks, rules, h, old(view.entries).Keys, e.value)
    {
      hide KeysAre, MayPass, Answered, HasForward, Exposed, Overlay, Synced, Accepts, WithEarly, BlockRefused;
      ghost var u, keys := StateAt(blocks, rules.genesis, blocks[h].prev), view.entries.Keys;
      assert BlockOk(blocks, rules.genesis, h) && StoredAt(blocks, rules, h);
      StateStep(blocks, rules.genesis, h);
      PassesIff(u, keys, blocks[h], rules);
      ForwardFreeHides(keys, blocks[h].txs);
      var r;
      r, stxos := CheckConnectBlock(view, db.utxos, blocks[h], rules, [], u);
      if r.RuleFailure? {
        return Some(r.error), stxos;
      }
      SetStatusFlags(h, VALID);
      e := None;
    }

    /** Check phase, first half: undo the blocks to detach on one view, without touching the database. */
    method CheckDetach(detach: seq<Hash>) returns (view: UtxoViewpoint, stxos: seq<seq<Coin>>)
      requires Valid() && DetachOk(blocks, rules.genesis, Tip(), detach)
      ensures fresh(view) && |stxos| == |detach|
      ensures var fork := TipAfterDetach(blocks, Tip(), detach, |detach|);
        OnPath(blocks, rules.genesis, Tip(), fork) && view.bestHash == fork &&
        StandsFor(view.entries, db.utxos, blocks, rules.genesis, fork)
      ensures forall i :: 0 <= i < |detach| ==> CachedAt(blocks, rules, detach, stxos, i)
      ensures KeysTouched(view.entries, blocks, detach, |detach|, [], 0)
    {
      hide BlockJournal, MarkOk, StoredAt, ValidOk, CachedAt, StandsFor, StateAt, KeysTouched;
      EmptyStandsForTip();
      view := new UtxoViewpoint(best[|best|-1]);
      ghost var tree, utxos, tip, g := blocks, db.utxos, Tip(), rules.genesis;
      TipOnPath(tree, g, tip);
      NoKeysTouched(tree, detach, []);
      stxos := [];
      var i := 0;
      while i < |detach|
        invariant 0 <= i <= |detach| && |stxos| == i && fresh(view)
        invariant OnPath(tree, g, tip, TipAfterDetach(tree, tip, detach, i))
        invariant view.bestHash == TipAfterDetach(tree, tip, detach, i)
        invariant StandsFor(view.entries, utxos, tree, g, view.bestHash)
        invariant forall k :: 0 <= k < i ==> CachedAt(tree, rules, detach, stxos, k)
        invariant KeysTouched(view.entries, tree, detach, i, [], 0)
      {
        assert DetachAt(tree, g, tip, detach, i);
        var h := detach[i];
        BestBlock(h);
        var records := db.journal[h];
        ghost var was := view.entries;
        UndoOnView(h, view, records);
        DetachTouches(was, view.entries, tree, detach, i, []);
        CacheGrows(tree, rules, detach, stxos, records, i);
        stxos := stxos + [records];
        i := i + 1;
      }
    }

    /** An empty view stands for the tip of the best chain. */
    lemma EmptyStandsForTip()
      requires Valid()
      ensures StandsFor(map[], db.utxos, blocks, rules.genesis, Tip())
    {
      EmptyViewStands(db.utxos);
    }

    /** What is known of a block of the best chain. */
    lemma BestBlock(h: Hash)
      requires Valid() && h in blocks && h != rules.genesis && OnPath(blocks, rules.genesis, Tip(), h)
      ensures blocks[h].prev in blocks && OnPath(blocks, rules.genesis, Tip(), blocks[h].prev) && MarkOk(blocks, rules, h)
      ensures h in db.journal
      ensures db.journal[h] == BlockJournal(StateAt(blocks, rules.genesis, blocks[h].prev), blocks[h])
    {
      hide Path, StateAt, UtxosOf, JournalOf, HeightsOf, HashesOf, ChainOk, OnPath, Connectable, BlockJournal;
      OnGoodPath(blocks, Tip(), h, rules);
      ChainShrinks(blocks, h, rules);
      ParentOnPath(blocks, rules.genesis, Tip(), h);
      JournalOnPath(blocks, rules.genesis, Tip(), h);
    }

    /** One attach node: skip the check when it is already marked valid, otherwise check it in full. */
    method AttachOne(h: Hash, view: UtxoViewpoint) returns (r: Step)
      requires TreeValid() && h in blocks && h != rules.genesis && blocks[h].prev in blocks
      requires FreshAt(blocks, rules.genesis, h)
      requires StandsFor(view.entries, db.utxos, blocks, rules.genesis, blocks[h].prev) && view.bestHash == blocks[h].prev
      modifies this`status, view
      ensures TreeValid()
      ensures r.Passed? <==> Passes(blocks, old(status), rules, h) && Answered(old(view.entries).Keys, blocks[h].txs)
      ensures r.Passed? ==> KeysAre(old(view.entries), view.entries, blocks[h].txs)
      ensures r.Passed? ==> MayAt(blocks, rules, h) && status == old(status)[h := old(status)[h].With(VALID)]
      ensures r.Passed? ==> StandsFor(view.entries, db.utxos, blocks, rules.genesis, h) && view.bestHash == h
      ensures !r.Passed? ==> status == old(status) && (r.Missing? <==> status[h].valid)
      ensures r.Missing? ==> ForwardRef(blocks[h].txs, r.input) && r.input !in old(view.entries)
      ensures r.Failed? ==> Breaks(blocks, rules, h, old(view.entries).Keys, r.error)
    {
      hide KeysAre, Answered, MayPass, ForwardRef, StandsFor, StateAt, Fresh, Breaks;
      assert ValidOk(blocks, status, rules, h);
      if status[h].valid {
        var missing, _ := ApplyOnView(h, view);
        assert status == status[h := status[h].With(VALID)];
        return if missing.Some? then Missing(missing.value) else Passed;
      }
      var e, stxos := CheckOnView(h, view);
      r := if e.Some? then Failed(e.value) else Passed;
    }

    /** Check phase, second half: check and connect the blocks to attach on the same view. */
    method CheckAttach(attach: seq<Hash>, view: UtxoViewpoint, ghost fork: Hash, ghost detach: seq<Hash>) returns (r: Outcome)
      requires TreeValid() && fork in blocks && AttachOk(blocks, rules.genesis, fork, attach)
      requires AttachFresh(blocks, rules.genesis, fork, attach)
      requires StandsFor(view.entries, db.utxos, blocks, rules.genesis, fork) && view.bestHash == fork
      requires KeysTouched(view.entries, blocks, detach, |detach|, attach, 0)
      modifies this`status, view
      ensures TreeValid()
      ensures r.Done? || r.Refused? || r.GivenUp?
      ensures r.Done? <==> DryPasses(blocks, old(status), rules, detach, attach, |attach|)
      ensures r.Done? ==> status == Validated(old(status), attach, |attach|) && AllMay(blocks, rules, attach)
      ensures r.Refused? ==> FailsAt(blocks, old(status), rules, detach, attach, r.at) && !old(status)[attach[r.at]].valid
      ensures r.Refused? ==> status == Refusal(Validated(old(status), attach, r.at), attach, r.at)
      ensures r.GivenUp? ==> FailsAt(blocks, old(status), rules, detach, attach, r.at) && old(status)[attach[r.at]].valid
      ensures r.GivenUp? ==> status == Validated(old(status), attach, r.at)
      ensures r.GivenUp? ==> Unanswered(blocks, detach, attach, r.at, r.input)
      ensures r.Refused? ==> r.at < |attach| && RefusedBy(blocks, rules, detach, attach, r.at, r.error)
    {
      hide Breaks, MarkOk, MayAt, FreshAt, Passes, StandsFor, StoredAt, ValidOk, Path, StateAt, Refusal, StoredOk, DistinctIds, KeysTouched,
        KeysAre, MarksOk, AllStoredOk, PassesAt, Validated, AttachOk, AttachFresh, AnsweredAt, Answered, ForwardRef, TouchedBy;
      KnownTree();
      ghost var tree, utxos, was, g := blocks, db.utxos, status, rules.genesis;
      NothingValidated(status, attach);
      var j := 0;
      while j < |attach|
        invariant 0 <= j <= |attach| && TreeValid() && blocks == tree && db.utxos == utxos
        invariant status == Validated(was, attach, j)
        invariant AttachedTo(tree, utxos, rules, fork, attach, j, view.entries, view.bestHash)
        invariant DryPasses(tree, was, rules, detach, attach, j)
        invariant forall k :: 0 <= k < j ==> MayListed(tree, rules, attach, k)
        invariant KeysTouched(view.entries, tree, detach, |detach|, attach, j)
      {
        KnownTree();
        NextAttached(tree, g, fork, attach, j);
        AttachKnown(tree, g, fork, attach);
        ghost var now, keys := status, view.entries;
        TouchedAnswers(keys, tree, detach, attach, j);
        JudgedSame(tree, was, now, rules, fork, attach, j);
        var step := AttachOne(attach[j], view);
        assert step.Passed? <==> DryPassesAt(tree, was, rules, detach, attach, j);
        if step.Failed? {
          BreaksOnLists(tree, rules, keys, detach, attach, j, step.error);
          MarkRefused(attach, j);
          return Refused(j, step.error);
        } else if step.Missing? {
          UntouchedInput(keys, tree, detach, attach, j, step.input);
          return GivenUp(j, step.input);
        }
        assert MayListed(tree, rules, attach, j);
        AttachTouches(keys, view.entries, tree, detach, attach, j);
        j := j + 1;
      }
      r := Done;
    }

    lemma KnownTree()
      requires TreeValid()
      ensures TreeOk(blocks, rules.genesis) && status.Keys == blocks.Keys
    {
    }

    /** Marks the failing node and everything attached after it. */
    method MarkRefused(attach: seq<Hash>, j: nat)
      requires TreeValid() && j < |attach| && forall k :: 0 <= k < |attach| ==> attach[k] in status
      modifies this`status
      ensures TreeValid() && status == Refusal(old(status), attach, j)
    {
      SetStatusFlags(attach[j], VALIDATE_FAILED);
      ghost var start := status;
      var n := j + 1;
      while n < |attach|
        invariant j + 1 <= n <= |attach| && TreeValid() && status.Keys == old(status).Keys
        invariant status == Tainted(start, attach, j + 1, n)
      {
        SetStatusFlags(attach[n], INVALID_ANCESTOR);
        n := n + 1;
      }
    }

    /** Undoes the tip on a flushed view and takes it off the best chain. */
    method DetachTip(h: Hash, view: UtxoViewpoint, stxos: seq<Coin>)
      requires Valid() && h == Tip() && h != rules.genesis && blocks[h].prev in blocks && MarkOk(blocks, rules, h)
      requires StandsFor(view.entries, db.utxos, blocks, rules.genesis, h)
      requires stxos == BlockJournal(StateAt(blocks, rules.genesis, blocks[h].prev), blocks[h])
      modifies this`db, this`best, this`totalTxns, view
      ensures Valid() && Tip() == blocks[h].prev
      ensures StandsFor(view.entries, db.utxos, blocks, rules.genesis, Tip()) && Live(view.entries)
    {
      hide Path, ChainOk, StateAt, StandsFor, MarkOk, ValidOk, StoredAt, BlockJournal, DisconnectDb, KeysAre, Live, CommitEntries;
      UndoOnView(h, view, stxos);
      FlushIsLive(view.entries, db.utxos, blocks, rules.genesis, blocks[h].prev);
      var ok := DisconnectBlock(h, view);
      assert ok;
    }

    /** Commit phase, first half: take the blocks off the best chain one by one. */
    method CommitDetach(detach: seq<Hash>, stxos: seq<seq<Coin>>, view: UtxoViewpoint)
      requires Valid() && DetachOk(blocks, rules.genesis, Tip(), detach)
      requires forall i :: 0 <= i < |detach| ==> CachedAt(blocks, rules, detach, stxos, i)
      requires StandsFor(view.entries, db.utxos, blocks, rules.genesis, Tip()) && Live(view.entries)
      modifies this`db, this`best, this`totalTxns, view
      ensures Valid() && Tip() == TipAfterDetach(blocks, old(Tip()), detach, |detach|)
      ensures StandsFor(view.entries, db.utxos, blocks, rules.genesis, Tip()) && Live(view.entries)
    {
      hide Path, ChainOk, StateAt, StandsFor, MarkOk, ValidOk, StoredAt, BlockJournal, Live;
      ghost var tip := Tip();
      var i := 0;
      while i < |detach|
        invariant 0 <= i <= |detach| && Valid() && Tip() == TipAfterDetach(blocks, tip, detach, i)
        invariant StandsFor(view.entries, db.utxos, blocks, rules.genesis, Tip()) && Live(view.entries)
      {
        assert DetachAt(blocks, rules.genesis, tip, detach, i) && CachedAt(blocks, rules, detach, stxos, i);
        DetachTip(detach[i], view, stxos[i]);
        i := i + 1;
      }
    }

    /**
     Connects a checked block on a flushed view and writes it to the database.  It finds its inputs exactly when it
     refers to nothing forward; otherwise nothing is written.
     */
    method CommitOne(h: Hash, view: UtxoViewpoint) returns (missing: Option<OutPoint>)
      requires Valid() && h in blocks && h != rules.genesis && blocks[h].prev == Tip() && MayAt(blocks, rules, h)
      requires StandsFor(view.entries, db.utxos, blocks, rules.genesis, Tip()) && Live(view.entries)
      modifies this`db, this`best, this`totalTxns, view
      ensures Valid() && (missing.None? <==> !ForwardIn(blocks, h))
      ensures missing.None? ==> Tip() == h && StandsFor(view.entries, db.utxos, blocks, rules.genesis, Tip()) && Live(view.entries)
      ensures missing.Some? ==> db == old(db) && best == old(best) && totalTxns == old(totalTxns)
      ensures missing.Some? ==> ForwardRef(blocks[h].txs, missing.value)
    {
      hide Path, ChainOk, StateAt, StandsFor, MarkOk, MayAt, ValidOk, StoredAt, ConnectDb, BlockJournal, CommitEntries, Answered, HasForward,
        ForwardRef, Live, KeysAre;
      FlushedAnswers(view.entries, db.utxos, h);
      var stxos;
      missing, stxos := ApplyOnView(h, view);
      if missing.Some? {
        return;
      }
      TipState();
      MayIsMark(h);
      FlushIsLive(view.entries, db.utxos, blocks, rules.genesis, h);
      var ok := ConnectBlock(h, view, stxos);
      assert ok;
    }

    /** A flushed view has keys for the forward references of a block exactly when there are none. */
    lemma FlushedAnswers(v: Entries, utxos: Utxos, h: Hash)
      requires TreeValid() && h in blocks && h != rules.genesis && blocks[h].prev in blocks && MayAt(blocks, rules, h)
      requires StandsFor(v, utxos, blocks, rules.genesis, blocks[h].prev) && Live(v)
      ensures Answered(v.Keys, blocks[h].txs) <==> !HasForward(blocks[h].txs)
    {
      LiveAnswers(v, utxos, blocks[h].txs);
    }

    /** A block that may pass and refers to nothing forward may sit on the chain below it. */
    lemma MayIsMark(h: Hash)
      requires TreeValid() && h in blocks && h != rules.genesis && blocks[h].prev in blocks
      requires MayAt(blocks, rules, h) && !HasForward(blocks[h].txs)
      ensures MarkOk(blocks, rules, h)
    {
      hide HasForward, MayPass, Accepts, Path, StateAt, Fresh, SaneBlock;
      var u := StateAt(blocks, rules.genesis, blocks[h].prev);
      assert StoredAt(blocks, rules, h);
      AcceptsIff(u, blocks[h], rules);
      AcceptedIsValid(u, blocks[h], rules);
    }

    /**
     Commit phase, second half: connect the checked blocks one by one, up to the first that refers forward.
     */
    method CommitAttach(attach: seq<Hash>, view: UtxoViewpoint) returns (r: Outcome)
      requires Valid() && AttachOk(blocks, rules.genesis, Tip(), attach)
      requires AllMay(blocks, rules, attach)
      requires StandsFor(view.entries, db.utxos, blocks, rules.genesis, Tip()) && Live(view.entries)
      modifies this`db, this`best, this`totalTxns, view
      ensures Valid() && (r.Done? || r.Stopped?)
      ensures r.Done? <==> ForwardFree(blocks, attach, |attach|)
      ensures r.Done? ==> Tip() == TipAfterAttach(old(Tip()), attach, |attach|)
      ensures r.Stopped? ==> StopsForward(blocks, attach, r.at, r.input) && Tip() == TipAfterAttach(old(Tip()), attach, r.at)
    {
      hide Path, ChainOk, StateAt, StandsFor, MarkOk, MayAt, ValidOk, StoredAt, ConnectDb, ForwardIn, ForwardRef, Live, MarksOk, AllStoredOk,
        Replay, ForwardFree, AllMay, AttachOk;
      ghost var fork := Tip();
      KnownTree();
      NothingForward(blocks, attach);
      var j := 0;
      while j < |attach|
        invariant 0 <= j <= |attach| && Valid() && Tip() == TipAfterAttach(fork, attach, j)
        invariant StandsFor(view.entries, db.utxos, blocks, rules.genesis, Tip()) && Live(view.entries)
        invariant ForwardFree(blocks, attach, j)
      {
        KnownTree();
        NextToCommit(blocks, rules, fork, attach, j);
        OneMoreFree(blocks, attach, j);
        var missing := CommitOne(attach[j], view);
        if missing.Some? {
          return Stopped(j, missing.value);
        }
        j := j + 1;
      }
      r := Done;
    }

    /** The database's unspent set is the state at the tip. */
    lemma TipState()
      requires Valid()
      ensures db.utxos == StateAt(blocks, rules.genesis, Tip())
    {
    }

    /** The two phases, on lists that fit the best chain. */
    method CheckThenCommit(detach: seq<Hash>, attach: seq<Hash>, ghost fork: Hash) returns (r: Outcome)
      requires Valid() && DetachOk(blocks, rules.genesis, Tip(), detach)
      requires fork == TipAfterDetach(blocks, Tip(), detach, |detach|) && fork in blocks
      requires AttachOk(blocks, rules.genesis, fork, attach) && AttachFresh(blocks, rules.genesis, fork, attach)
      modifies this`db, this`best, this`totalTxns, this`status
      ensures Valid() && !r.Mismatch?
      ensures r.Done? || r.Stopped? <==> DryPasses(blocks, old(status), rules, detach, attach, |attach|)
      ensures r.Done? || r.Stopped? ==> status == Validated(old(status), attach, |attach|)
      ensures r.Done? ==> ForwardFree(blocks, attach, |attach|) && Tip() == TipAfterAttach(fork, attach, |attach|)
      ensures r.Stopped? ==> StopsForward(blocks, attach, r.at, r.input) && Tip() == TipAfterAttach(fork, attach, r.at)
      ensures r.Refused? || r.GivenUp? ==> db == old(db) && best == old(best) && totalTxns == old(totalTxns)
      ensures r.Refused? ==> FailsAt(blocks, old(status), rules, detach, attach, r.at) && !old(status)[attach[r.at]].valid
      ensures r.Refused? ==> status == Refusal(Validated(old(status), attach, r.at), attach, r.at)
      ensures r.GivenUp? ==> FailsAt(blocks, old(status), rules, detach, attach, r.at) && old(status)[attach[r.at]].valid
      ensures r.GivenUp? ==> status == Validated(old(status), attach, r.at)
      ensures r.GivenUp? ==> Unanswered(blocks, detach, attach, r.at, r.input)
      ensures r.Refused? ==> r.at < |attach| && RefusedBy(blocks, rules, detach, attach, r.at, r.error)
    {
      hide RefusedBy, Path, ChainOk, StateAt, StandsFor, DryPasses, FailsAt, MarkOk, BlockJournal, Refusal, Validated, ValidOk, StoredAt, OnPath,
        AttachAt, DetachAt, FreshAt, AllMay, AttachOk, DetachOk, KeysTouched, Unanswered, ForwardFree, StopsForward, Live;
      var view, stxos := CheckDetach(detach);
      TouchedSame(view.entries, blocks, detach, attach);
      r := CheckAttach(attach, view, fork, detach);
      if !r.Done? {
        return;
      }
      EmptyStandsForTip();
      EmptyIsLive();
      view := new UtxoViewpoint(best[|best|-1]);
      CommitDetach(detach, stxos, view);
      r := CommitAttach(attach, view);
    }

    /**
     Replaces the blocks of the detach list by the blocks of the attach list.  Everything is checked on a
     scratch view first; a block that fails there leaves database, best chain and snapshot untouched.  What passes
     is committed, up to the first block that refers forward: there the best chain ends.
     */
    method ReorganizeChain(detach: seq<Hash>, attach: seq<Hash>) returns (r: Outcome)
      requires Valid() && ListsOk(blocks, rules.genesis, Tip(), detach, attach)
      requires attach != [] ==> AttachFresh(blocks, rules.genesis, blocks[attach[0]].prev, attach)
      modifies this`db, this`best, this`totalTxns, this`status
      ensures Valid()
      ensures detach == [] && attach == [] ==> r.Done? && db == old(db) && best == old(best) && status == old(status)
      ensures r.Mismatch? <==> !ListsFit(blocks, old(Tip()), detach, attach)
      ensures r.Mismatch? ==> status == old(status)
      ensures !r.Mismatch? ==>
        (r.Done? || r.Stopped? <==> DryPasses(blocks, old(status), rules, detach, attach, |attach|))
      ensures r.Done? || r.Stopped? ==> status == Validated(old(status), attach, |attach|)
      ensures r.Done? ==> ForwardFree(blocks, attach, |attach|)
      ensures r.Done? ==> Tip() == TipAfterAttach(TipAfterDetach(blocks, old(Tip()), detach, |detach|), attach, |attach|)
      ensures r.Stopped? ==> StopsForward(blocks, attach, r.at, r.input)
      ensures r.Stopped? ==> Tip() == TipAfterAttach(TipAfterDetach(blocks, old(Tip()), detach, |detach|), attach, r.at)
      ensures r.Mismatch? || r.Refused? || r.GivenUp? ==> db == old(db) && best == old(best) && totalTxns == old(totalTxns)
      ensures r.Refused? ==> FailsAt(blocks, old(status), rules, detach, attach, r.at) && !old(status)[attach[r.at]].valid
      ensures r.Refused? ==> status == Refusal(Validated(old(status), attach, r.at), attach, r.at)
      ensures r.GivenUp? ==> FailsAt(blocks, old(status), rules, detach, attach, r.at) && old(status)[attach[r.at]].valid
      ensures r.GivenUp? ==> status == Validated(old(status), attach, r.at)
      ensures r.GivenUp? ==> Unanswered(blocks, detach, attach, r.at, r.input)
      ensures r.Refused? ==> r.at < |attach| && RefusedBy(blocks, rules, detach, attach, r.at, r.error)
    {
      hide RefusedBy, Path, ChainOk, StateAt, PassesAt, AnsweredAt, ForwardIn, FailsAt, Refusal, ValidOk, StoredAt, AttachFresh, Unanswered, StopsForward;
      if detach == [] && attach == [] {
        return Done;
      }
      if detach != [] {
        assert DetachAt(blocks, rules.genesis, detach[0], detach, |detach| - 1);
        if detach[0] != best[|best|-1] {
          return Mismatch;
        }
      }
      if attach != [] && detach != [] && blocks[attach[0]].prev != blocks[detach[|detach|-1]].prev {
        return Mismatch;
      }
      ListsMeet(blocks, rules.genesis, Tip(), detach, attach);
      r := CheckThenCommit(detach, attach, TipAfterDetach(blocks, Tip(), detach, |detach|));
    }

    /** The best chain's own nodes lie on the path to the tip. */
    lemma BestOnPath(h: Hash)
      requires Valid() && h in blocks && OnBest(blocks, best, h)
      ensures OnPath(blocks, rules.genesis, Tip(), h)
    {
      var n := blocks[h].height + 1;
      PathPrefix(blocks, rules.genesis, Tip(), n);
    }

    lemma GenesisOnBest()
      requires Valid()
      ensures OnBest(blocks, best, rules.genesis)
    {
      assert BlockOk(blocks, rules.genesis, rules.genesis);
      PathBlocks(blocks, rules.genesis, Tip(), 0);
    }

    /** A node of the best chain above the fork point has its parent there too, no lower than the fork point. */
    lemma OneDown(fork: Hash, n: Hash)
      requires Valid() && fork in blocks && OnBest(blocks, best, fork)
      requires n in blocks && OnPath(blocks, rules.genesis, Tip(), n) && blocks[fork].height <= blocks[n].height && n != fork
      ensures n != rules.genesis && blocks[n].prev in blocks && OnPath(blocks, rules.genesis, Tip(), blocks[n].prev)
      ensures blocks[fork].height <= blocks[blocks[n].prev].height < blocks[n].height
      ensures Above(blocks, rules.genesis, n, fork) == [n] + Above(blocks, rules.genesis, blocks[n].prev, fork)
    {
      hide Path, ChainOk, MarksOk, AllStoredOk, Replay, StateAt, UtxosOf;
      TipIsLast();
      BestOnPath(fork);
      StateOnPath(blocks, rules.genesis, Tip(), n);
      StateOnPath(blocks, rules.genesis, Tip(), fork);
      assert BlockOk(blocks, rules.genesis, n) && BlockOk(blocks, rules.genesis, fork);
      ParentOnPath(blocks, rules.genesis, Tip(), n);
    }

    /** The nodes to detach: from the tip back to the fork point. */
    method NodesToDetach(fork: Hash) returns (detach: seq<Hash>)
      requires Valid() && fork in blocks && OnBest(blocks, best, fork)
      ensures DetachOk(blocks, rules.genesis, Tip(), detach) && TipAfterDetach(blocks, Tip(), detach, |detach|) == fork
      ensures detach == Above(blocks, rules.genesis, Tip(), fork)
    {
      hide Path, ChainOk, MarksOk, AllStoredOk, Replay, StateAt, UtxosOf, OnPath, Above, DetachOk;
      detach := [];
      var n := best[|best|-1];
      TipIsLast();
      NothingAbove(blocks, rules.genesis, Tip(), fork);
      BestOnPath(fork);
      TipOnPath(blocks, rules.genesis, Tip());
      while n != fork
        invariant n in blocks && OnPath(blocks, rules.genesis, Tip(), n) && blocks[fork].height <= blocks[n].height
        invariant DetachOk(blocks, rules.genesis, Tip(), detach) && n == TipAfterDetach(blocks, Tip(), detach, |detach|)
        invariant Above(blocks, rules.genesis, Tip(), fork) == detach + Above(blocks, rules.genesis, n, fork)
        decreases blocks[n].height
      {
        OneDown(fork, n);
        DetachGrows(blocks, rules.genesis, Tip(), detach, n);
        assert detach + ([n] + Above(blocks, rules.genesis, blocks[n].prev, fork)) ==
          (detach + [n]) + Above(blocks, rules.genesis, blocks[n].prev, fork);
        detach := detach + [n];
        n := blocks[n].prev;
      }
    }

    lemma TipIsLast()
      requires Valid()
      ensures |best| > 0 && best[|best|-1] == Tip() && TreeOk(blocks, rules.genesis)
    {
    }

    /**
     The lists that make `node` the end of the best chain.  When a node of the branch is known to be invalid
     the lists are empty and the nodes above it are marked; nothing else changes.
     */
    method GetReorganizeNodes(node: Hash) returns (detach: seq<Hash>, attach: seq<Hash>)
      requires Valid() && node in blocks && node != rules.genesis && blocks[node].prev in blocks
      modifies this`status
      ensures Valid()
      ensures !BranchInvalid(blocks, old(status), best, rules.genesis, node) ==>
        status == old(status) && attach == Branch(blocks, best, rules.genesis, node) &&
        detach == Above(blocks, rules.genesis, Tip(), ForkOf(blocks, best, rules.genesis, node)) &&
        ListsOk(blocks, rules.genesis, Tip(), detach, attach) && ListsFit(blocks, Tip(), detach, attach) &&
        TipAfterDetach(blocks, Tip(), detach, |detach|) == ForkOf(blocks, best, rules.genesis, node) &&
        TipAfterAttach(ForkOf(blocks, best, rules.genesis, node), attach, |attach|) == node
      ensures BranchInvalid(blocks, old(status), best, rules.genesis, node) ==>
        detach == [] && attach == [] &&
        exists k :: 0 <= k <= |Branch(blocks, best, rules.genesis, node)| &&
          TaintedFrom(blocks, old(status), status, best, rules.genesis, node, k)
      ensures forall k :: 0 <= k < |attach| ==>
        attach[k] in status && !old(status)[attach[k]].failed && !old(status)[attach[k]].invalidAncestor
    {
      hide Path, ChainOk, Replay, AllStoredOk, ValidOk, Tainted, OnPath, ListsOk, ListsFit, AttachOk, DetachOk;
      var g := rules.genesis;
      if status[blocks[node].prev].KnownInvalid() {
        assert TaintedFrom(blocks, status, status[node := status[node].With(INVALID_ANCESTOR)], best, g, node, 0);
        SetStatusFlags(node, INVALID_ANCESTOR);
        return [], [];
      }
      GenesisOnBest();
      var fork := ForkOf(blocks, best, g, node);
      var n, invalidChain := node, false;
      attach := [];
      while n != fork
        invariant n in blocks && ForkOf(blocks, best, g, n) == fork
        invariant Branch(blocks, best, g, node) == Branch(blocks, best, g, n) + attach
        invariant forall k :: 0 <= k < |attach| ==> attach[k] in status && !status[attach[k]].KnownInvalid()
        decreases blocks[n].height
      {
        assert BlockOk(blocks, g, n);
        if status[n].KnownInvalid() {
          invalidChain := true;
          break;
        }
        attach := [n] + attach;
        n := blocks[n].prev;
      }
      ghost var whole := Branch(blocks, best, g, node);
      if invalidChain {
        ghost var k := |whole| - |attach|;
        assert whole[k-1] == n && attach == whole[k..];
        ghost var was := status;
        MarkTainted(attach, whole, k);
        assert TaintedFrom(blocks, was, status, best, g, node, k);
        return [], [];
      }
      BranchLinked(blocks, best, g, node);
      assert attach == whole;
      detach := NodesToDetach(fork);
      ListsMade(blocks, g, Tip(), detach, attach, fork);
    }

    /** For a node of the best chain below the tip the lists are not empty: everything above it is to be detached. */
    lemma MainNodeDetaches(h: Hash)
      requires Valid() && h in blocks && OnBest(blocks, best, h) && h != Tip()
      ensures ForkOf(blocks, best, rules.genesis, h) == h && Branch(blocks, best, rules.genesis, h) == []
      ensures Above(blocks, rules.genesis, Tip(), h) != [] && Above(blocks, rules.genesis, Tip(), h)[0] == Tip()
    {
      hide ChainOk, Replay, MarksOk, AllStoredOk;
      TipIsLast();
      assert BlockOk(blocks, rules.genesis, Tip()) && BlockOk(blocks, rules.genesis, h);
    }

    /** Marks every node of an unwound attach list as having an invalid ancestor. */
    method MarkTainted(attach: seq<Hash>, ghost whole: seq<Hash>, ghost k: nat)
      requires Valid() && k <= |whole| && attach == whole[k..]
      requires forall i :: 0 <= i < |attach| ==> attach[i] in status
      modifies this`status
      ensures Valid() && status == Tainted(old(status), whole, k, |whole|)
    {
      hide Path, ChainOk, Replay, AllStoredOk, ValidOk;
      var i := 0;
      while i < |attach|
        invariant 0 <= i <= |attach| && Valid() && status.Keys == old(status).Keys
        invariant status == Tainted(old(status), whole, k, k + i)
      {
        assert attach[i] == whole[k+i];
        SetStatusFlags(attach[i], INVALID_ANCESTOR);
        i := i + 1;
      }
    }

    /**
     Finds the lists that make `node` the tip and reorganises (the side-chain half of connectBestChain).  It is done
     without a change of the best chain when the branch is known to be invalid, and otherwise exactly when every
     block of the branch passes the check phase and none of them refers forward.
     */
    method SwitchTo(node: Hash) returns (r: Outcome)
      requires Valid() && node in blocks && node != rules.genesis && blocks[node].prev in blocks
      requires AllFresh(blocks, rules.genesis)
      modifies this`db, this`best, this`totalTxns, this`status
      ensures Valid() && !r.Mismatch?
      ensures BranchInvalid(blocks, old(status), old(best), rules.genesis, node) ==> r.Done? && db == old(db) && best == old(best)
      ensures !BranchInvalid(blocks, old(status), old(best), rules.genesis, node) ==>
        var branch := Branch(blocks, old(best), rules.genesis, node);
        var fork := ForkOf(blocks, old(best), rules.genesis, node);
        (r.Done? || r.Stopped? <==> DryPasses(blocks, old(status), rules, Above(blocks, rules.genesis, old(Tip()), fork), branch, |branch|)) &&
        (r.Done? ==> ForwardFree(blocks, branch, |branch|) && Tip() == node) &&
        (r.Stopped? ==> StopsForward(blocks, branch, r.at, r.input) && Tip() == TipAfterAttach(fork, branch, r.at))
      ensures r.Refused? || r.GivenUp? ==> db == old(db) && best == old(best)
      ensures r.Refused? ==>
        var branch := Branch(blocks, best, rules.genesis, node);
        r.at < |branch| && status == Refusal(Validated(old(status), branch, r.at), branch, r.at)
    {
      hide Path, ChainOk, Replay, AllStoredOk, ValidOk, StateAt, TaintedFrom, RefusedBy, PassesAt, AnsweredAt, ForwardIn, Tainted, Refusal, FreshAt, Above,
        FailsAt, Unanswered, ForwardFree, StopsForward, DryPasses, ListsOk, ListsFit, AttachFresh, AllFresh, TipAfterDetach, Branch, ForkOf,
        AttachOk, Validated, MarksOk;
      var detach, attach := GetReorganizeNodes(node);
      NothingListed(blocks, rules.genesis, Tip());
      if attach != [] {
        KnownTree();
        ListsAttach(blocks, rules.genesis, Tip(), detach, attach);
        AllFreshAttach(blocks, rules.genesis, blocks[attach[0]].prev, attach);
      }
      r := ReorganizeChain(detach, attach);
    }

    /**
     Extends the best chain by block `h` (connectBestChain without the fast-add flag): a block not yet marked valid
     must pass the full check, and one that is marked must find its inputs.  A block that fails the check is marked
     failed, and nothing else changes.
     */
    method ExtendBestChain(h: Hash) returns (r: Step)
      requires Valid() && h in blocks && h != rules.genesis && blocks[h].prev == Tip()
      requires FreshAt(blocks, rules.genesis, h)
      modifies this`db, this`best, this`totalTxns, this`status
      ensures Valid()
      ensures r.Passed? <==> Accepts(old(db.utxos), blocks[h], rules) || (old(status)[h].valid && !ForwardIn(blocks, h))
      ensures r.Passed? ==> Tip() == h && db == ConnectDb(old(db), blocks[h])
      ensures r.Passed? ==> status == old(status)[h := old(status)[h].With(VALID)]
      ensures !r.Passed? ==> db == old(db) && best == old(best) && (r.Missing? <==> old(status)[h].valid)
      ensures r.Failed? ==> status == old(status)[h := old(status)[h].With(VALIDATE_FAILED)]
      ensures r.Missing? ==> status == old(status) && ForwardRef(blocks[h].txs, r.input)
      ensures r.Failed? ==> BlockRefused(old(db.utxos), blocks[h], rules, r.error)
      ensures r.Failed? ==> status[h].failed && forall g :: g in status && g != h ==> status[g] == old(status)[g]
    {
      hide Path, ChainOk, MarkOk, StandsFor, BlockJournal, ConnectDb, Accepts, StoredAt, StateAt, MayPass, Fresh, Answered, HasForward, KeysAre, Live,
        ForwardRef, Breaks, BlockRefused;
      var view := new UtxoViewpoint(blocks[h].prev);
      EmptyStandsForTip();
      TipState();
      EmptyIsLive();
      assert ValidOk(blocks, status, rules, h);
      AcceptedAtTip(h);
      if MayAt(blocks, rules, h) {
        FlushedAnswers(view.entries, db.utxos, h);
      }
      var stxos;
      ghost var keys := view.entries.Keys;
      assert keys == {};
      if status[h].valid {
        var missing;
        missing, stxos := ApplyOnView(h, view);
        if missing.Some? {
          return Missing(missing.value);
        }
      } else {
        var e;
        e, stxos := CheckOnView(h, view);
        if e.Some? {
          RefusedAtTip(h, keys, e.value);
          SetStatusFlags(h, VALIDATE_FAILED);
          return Failed(e.value);
        }
      }
      assert status == old(status)[h := old(status)[h].With(VALID)];
      MayIsMark(h);
      var ok := ConnectBlock(h, view, stxos);
      assert ok;
      r := Passed;
    }

    /** A view without keys gives the reason for which the rules refuse the block on top of the best chain. */
    lemma RefusedAtTip(h: Hash, keys: set<OutPoint>, e: RuleError)
      requires Valid() && h in blocks && h != rules.genesis && blocks[h].prev == Tip() && FreshAt(blocks, rules.genesis, h)
      requires keys == {} && Breaks(blocks, rules, h, keys, e)
      ensures BlockRefused(db.utxos, blocks[h], rules, e)
    {
      hide Path, BlockRefused, Fresh, SaneBlock, StateAt, EarlySet, WithEarly;
      var b := blocks[h];
      TipState();
      assert StoredAt(blocks, rules, h);
      WithEarlyIsEarly(db.utxos, {}, b.txs, b.height);
      SameRefusal(db.utxos, WithEarly(db.utxos, {}, b.txs, b.height), {}, b, rules, e);
    }

    /** What the rules say of a block on top of the best chain. */
    lemma AcceptedAtTip(h: Hash)
      requires Valid() && h in blocks && h != rules.genesis && blocks[h].prev == Tip() && FreshAt(blocks, rules.genesis, h)
      ensures Accepts(db.utxos, blocks[h], rules) <==> MayAt(blocks, rules, h) && !ForwardIn(blocks, h)
    {
      hide Path, Accepts, MayPass, HasForward, Fresh, SaneBlock;
      TipState();
      assert StoredAt(blocks, rules, h);
      AcceptsIff(db.utxos, blocks[h], rules);
    }
  }

  // ----- finding the lists -----

  predicate OnBest(blocks: Blocks, best: seq<Hash>, h: Hash)
    requires h in blocks
  {
    0 <= blocks[h].height < |best| && best[blocks[h].height] == h
  }

  /** The last node on the way from genesis to `h` that is on the best chain. */
  function ForkOf(blocks: Blocks, best: seq<Hash>, genesis: Hash, h: Hash): (f: Hash)
    requires TreeOk(blocks, genesis) && h in blocks
    ensures f in blocks && (OnBest(blocks, best, genesis) ==> OnBest(blocks, best, f))
    decreases blocks[h].height
  {
    assert BlockOk(blocks, genesis, h);
    if OnBest(blocks, best, h) || h == genesis then h else ForkOf(blocks, best, genesis, blocks[h].prev)
  }

  /** The nodes above `fork` on the way down from `h`, the newest first. */
  ghost function Above(blocks: Blocks, genesis: Hash, h: Hash, fork: Hash): seq<Hash>
    requires TreeOk(blocks, genesis) && h in blocks
    decreases blocks[h].height
  {
    assert BlockOk(blocks, genesis, h);
    if h == fork || h == genesis then [] else [h] + Above(blocks, genesis, blocks[h].prev, fork)
  }

  /** The nodes between the best chain and `h`, the oldest first. */
  ghost function Branch(blocks: Blocks, best: seq<Hash>, genesis: Hash, h: Hash): (p: seq<Hash>)
    requires TreeOk(blocks, genesis) && h in blocks
    ensures forall k :: 0 <= k < |p| ==> p[k] in blocks
    decreases blocks[h].height
  {
    assert BlockOk(blocks, genesis, h);
    if OnBest(blocks, best, h) || h == genesis then [] else Branch(blocks, best, genesis, blocks[h].prev) + [h]
  }

  lemma {:induction false} BranchLinked(blocks: Blocks, best: seq<Hash>, genesis: Hash, h: Hash)
    requires TreeOk(blocks, genesis) && h in blocks && OnBest(blocks, best, genesis)
    ensures var fork, p := ForkOf(blocks, best, genesis, h), Branch(blocks, best, genesis, h);
      AttachOk(blocks, genesis, fork, p) && TipAfterAttach(fork, p, |p|) == h
    decreases blocks[h].height
  {
    assert BlockOk(blocks, genesis, h);
    var fork, p := ForkOf(blocks, best, genesis, h), Branch(blocks, best, genesis, h);
    if !OnBest(blocks, best, h) {
      BranchLinked(blocks, best, genesis, blocks[h].prev);
      var q := Branch(blocks, best, genesis, blocks[h].prev);
      forall j | 0 <= j < |p| ensures AttachAt(blocks, genesis, fork, p, j) {
        if j < |q| {
          assert AttachAt(blocks, genesis, fork, q, j);
        }
      }
    }
  }

  /** The parent, or some node between the best chain and `h`, is known to be invalid. */
  ghost predicate BranchInvalid(blocks: Blocks, status: map<Hash, Status>, best: seq<Hash>, genesis: Hash, h: Hash)
    requires TreeOk(blocks, genesis) && h in blocks && blocks[h].prev in blocks && status.Keys == blocks.Keys
  {
    status[blocks[h].prev].KnownInvalid() ||
    exists k :: 0 <= k < |Branch(blocks, best, genesis, h)| && status[Branch(blocks, best, genesis, h)[k]].KnownInvalid()
  }

  /**
   The nodes of the branch from position `k` on were marked, and the node below position `k` is the last one
   known to be invalid; or the parent is known to be invalid and only `h` was marked.
   */
  ghost predicate TaintedFrom(blocks: Blocks, was: map<Hash, Status>, now: map<Hash, Status>, best: seq<Hash>, genesis: Hash, h: Hash, k: nat)
    requires TreeOk(blocks, genesis) && h in blocks && blocks[h].prev in blocks && was.Keys == blocks.Keys
    requires k <= |Branch(blocks, best, genesis, h)|
  {
    var p := Branch(blocks, best, genesis, h);
    if was[blocks[h].prev].KnownInvalid() then
      now == was[h := was[h].With(INVALID_ANCESTOR)]
    else
      k > 0 && was[p[k-1]].KnownInvalid() && (forall i :: k <= i < |p| ==> !was[p[i]].KnownInvalid()) &&
      now == Tainted(was, p, k, |p|)
  }

  /** A branch is invalid when its parent or one of its nodes has failed or has an invalid ancestor. */
  lemma BranchInvalidMeans(blocks: Blocks, status: map<Hash, Status>, best: seq<Hash>, genesis: Hash, h: Hash)
    requires TreeOk(blocks, genesis) && h in blocks && blocks[h].prev in blocks && status.Keys == blocks.Keys
    ensures BranchInvalid(blocks, status, best, genesis, h) <==>
      (status[blocks[h].prev].failed || status[blocks[h].prev].invalidAncestor ||
       exists k :: 0 <= k < |Branch(blocks, best, genesis, h)| && Flagged(status, Branch(blocks, best, genesis, h)[k]))
  {
    var p := Branch(blocks, best, genesis, h);
    if BranchInvalid(blocks, status, best, genesis, h) && !status[blocks[h].prev].KnownInvalid() {
      var k :| 0 <= k < |p| && status[p[k]].KnownInvalid();
      assert Flagged(status, p[k]);
    }
    if k :| 0 <= k < |p| && Flagged(status, p[k]) {
      assert status[Branch(blocks, best, genesis, h)[k]].KnownInvalid();
    }
  }

  /** The node has failed, or has an ancestor that has. */
  predicate Flagged(status: map<Hash, Status>, h: Hash) {
    h in status && (status[h].failed || status[h].invalidAncestor)
  }

  /** What giving up an invalid branch marks: the node itself, or the nodes above the last one known to be invalid. */
  lemma TaintedFromMarks(blocks: Blocks, was: map<Hash, Status>, now: map<Hash, Status>, best: seq<Hash>, genesis: Hash, h: Hash, k: nat)
    requires TreeOk(blocks, genesis) && h in blocks && blocks[h].prev in blocks && was.Keys == blocks.Keys
    requires k <= |Branch(blocks, best, genesis, h)| && TaintedFrom(blocks, was, now, best, genesis, h, k)
    ensures var p := Branch(blocks, best, genesis, h);
      now.Keys == was.Keys && (forall g :: g in now ==> now[g].valid == was[g].valid && now[g].failed == was[g].failed) &&
      if was[blocks[h].prev].failed || was[blocks[h].prev].invalidAncestor then
        forall g :: g in now ==> (now[g].invalidAncestor <==> was[g].invalidAncestor || g == h)
      else
        k > 0 && (was[p[k-1]].failed || was[p[k-1]].invalidAncestor) &&
        (forall i :: k <= i < |p| ==> !was[p[i]].failed && !was[p[i]].invalidAncestor) &&
        forall g :: g in now ==> (now[g].invalidAncestor <==> was[g].invalidAncestor || exists i :: k <= i < |p| && p[i] == g)
  {
    hide Tainted;
    TaintedMarks(was, Branch(blocks, best, genesis, h), k, |Branch(blocks, best, genesis, h)|);
  }

  /** A branch that was refused is invalid from then on, and so is every branch that goes through the node that failed. */
  lemma RefusedStaysOut(blocks: Blocks, was: map<Hash, Status>, best: seq<Hash>, genesis: Hash, node: Hash, at: nat, h: Hash)
    requires TreeOk(blocks, genesis) && node in blocks && was.Keys == blocks.Keys && at < |Branch(blocks, best, genesis, node)|
    requires h in blocks && blocks[h].prev in blocks && Branch(blocks, best, genesis, node)[at] in Branch(blocks, best, genesis, h)
    ensures var p := Branch(blocks, best, genesis, node);
      var now := Refusal(Validated(was, p, at), p, at);
      now.Keys == blocks.Keys && BranchInvalid(blocks, now, best, genesis, h)
  {
    hide Refusal, Validated, BranchInvalid;
    var p := Branch(blocks, best, genesis, node);
    RefusalMarks(was, p, at);
    var k :| 0 <= k < |Branch(blocks, best, genesis, h)| && Branch(blocks, best, genesis, h)[k] == p[at];
    assert Flagged(Refusal(Validated(was, p, at), p, at), Branch(blocks, best, genesis, h)[k]);
    BranchInvalidMeans(blocks, Refusal(Validated(was, p, at), p, at), best, genesis, h);
  }

  lemma NothingAbove(blocks: Blocks, genesis: Hash, tip: Hash, fork: Hash)
    requires TreeOk(blocks, genesis) && fork in blocks
    ensures Above(blocks, genesis, fork, fork) == [] && DetachOk(blocks, genesis, tip, [])
  {
  }

  lemma DetachGrows(blocks: Blocks, genesis: Hash, tip: Hash, detach: seq<Hash>, n: Hash)
    requires DetachOk(blocks, genesis, tip, detach) && n in blocks && n != genesis
    requires n == TipAfterDetach(blocks, tip, detach, |detach|)
    ensures DetachOk(blocks, genesis, tip, detach + [n])
  {
    var d := detach + [n];
    forall i | 0 <= i < |d| ensures DetachAt(blocks, genesis, tip, d, i) {
      if i < |detach| {
        assert DetachAt(blocks, genesis, tip, detach, i);
      }
    }
  }

  /** Lists built down from the tip and up from the fork point are in order and fit. */
  lemma ListsMade(blocks: Blocks, genesis: Hash, tip: Hash, detach: seq<Hash>, attach: seq<Hash>, fork: Hash)
    requires DetachOk(blocks, genesis, tip, detach) && fork == TipAfterDetach(blocks, tip, detach, |detach|)
    requires AttachOk(blocks, genesis, fork, attach)
    ensures ListsOk(blocks, genesis, tip, detach, attach) && ListsFit(blocks, tip, detach, attach)
  {
    if attach != [] {
      assert AttachAt(blocks, genesis, fork, attach, 0);
    }
    if detach != [] {
      assert DetachAt(blocks, genesis, tip, detach, 0) && DetachAt(blocks, genesis, tip, detach, |detach| - 1);
      forall i | 0 <= i < |detach| ensures DetachAt(blocks, genesis, detach[0], detach, i) {
        assert DetachAt(blocks, genesis, tip, detach, i);
      }
    }
  }

  ghost predicate AllFresh(blocks: Blocks, genesis: Hash)
    requires TreeOk(blocks, genesis)
  {
    forall h {:trigger FreshAt(blocks, genesis, h)} :: h in blocks && h != genesis && blocks[h].prev in blocks ==> FreshAt(blocks, genesis, h)
  }

  lemma AllFreshAttach(blocks: Blocks, genesis: Hash, fork: Hash, attach: seq<Hash>)
    requires TreeOk(blocks, genesis) && AttachOk(blocks, genesis, fork, attach) && AllFresh(blocks, genesis)
    ensures AttachFresh(blocks, genesis, fork, attach)
  {
    forall j | 0 <= j < |attach| ensures AttachAt(blocks, genesis, fork, attach, j) && FreshAt(blocks, genesis, attach[j]) {
      assert AttachAt(blocks, genesis, fork, attach, j);
    }
  }

  // ----- the lists a reorganisation works on -----

  /** The tip once the first `i` nodes of the detach list are gone. */
  function TipAfterDetach(blocks: Blocks, tip: Hash, detach: seq<Hash>, i: nat): Hash
    requires i <= |detach|
  {
    if i == 0 || detach[i-1] !in blocks then tip else blocks[detach[i-1]].prev
  }

  predicate DetachAt(blocks: Blocks, genesis: Hash, tip: Hash, detach: seq<Hash>, i: nat)
    requires i < |detach|
  {
    detach[i] in blocks && detach[i] != genesis && detach[i] == TipAfterDetach(blocks, tip, detach, i)
  }

  /** The nodes to detach, from the tip backwards. */
  predicate DetachOk(blocks: Blocks, genesis: Hash, tip: Hash, detach: seq<Hash>) {
    forall i :: 0 <= i < |detach| ==> DetachAt(blocks, genesis, tip, detach, i)
  }

  function TipAfterAttach(fork: Hash, attach: seq<Hash>, j: nat): Hash
    requires j <= |attach|
  {
    if j == 0 then fork else attach[j-1]
  }

  predicate AttachAt(blocks: Blocks, genesis: Hash, fork: Hash, attach: seq<Hash>, j: nat)
    requires j < |attach|
  {
    attach[j] in blocks && attach[j] != genesis && blocks[attach[j]].prev == TipAfterAttach(fork, attach, j) &&
    blocks[attach[j]].prev in blocks
  }

  /** The nodes to attach, from the fork point on. */
  predicate AttachOk(blocks: Blocks, genesis: Hash, fork: Hash, attach: seq<Hash>) {
    forall j :: 0 <= j < |attach| ==> AttachAt(blocks, genesis, fork, attach, j)
  }

  /** The lists are in order: each is linked, and without nodes to detach the attach list starts at the tip. */
  predicate ListsOk(blocks: Blocks, genesis: Hash, tip: Hash, detach: seq<Hash>, attach: seq<Hash>) {
    (detach != [] ==> DetachOk(blocks, genesis, detach[0], detach)) &&
    (attach != [] ==> attach[0] in blocks && AttachOk(blocks, genesis, blocks[attach[0]].prev, attach)) &&
    (detach == [] && attach != [] ==> blocks[attach[0]].prev == tip)
  }

  /** The lists are for the current best chain and for the same fork point. */
  predicate ListsFit(blocks: Blocks, tip: Hash, detach: seq<Hash>, attach: seq<Hash>) {
    (detach != [] ==> detach[0] == tip) &&
    (detach != [] && attach != [] ==>
      attach[0] in blocks && detach[|detach|-1] in blocks &&
      blocks[attach[0]].prev == blocks[detach[|detach|-1]].prev)
  }

  lemma ListsAttach(blocks: Blocks, genesis: Hash, tip: Hash, detach: seq<Hash>, attach: seq<Hash>)
    requires ListsOk(blocks, genesis, tip, detach, attach) && attach != []
    ensures attach[0] in blocks && AttachOk(blocks, genesis, blocks[attach[0]].prev, attach)
  {
  }

  lemma ListsMeet(blocks: Blocks, genesis: Hash, tip: Hash, detach: seq<Hash>, attach: seq<Hash>)
    requires TreeOk(blocks, genesis) && tip in blocks
    requires ListsOk(blocks, genesis, tip, detach, attach) && ListsFit(blocks, tip, detach, attach)
    requires attach != [] ==> AttachFresh(blocks, genesis, blocks[attach[0]].prev, attach)
    ensures var fork := TipAfterDetach(blocks, tip, detach, |detach|);
      fork in blocks && AttachOk(blocks, genesis, fork, attach) && AttachFresh(blocks, genesis, fork, attach)
  {
    if detach != [] {
      assert DetachAt(blocks, genesis, tip, detach, |detach| - 1);
      assert BlockOk(blocks, genesis, detach[|detach|-1]);
    }
  }

  // ----- what the scratch view of a dry run knows -----

  ghost predicate TouchedBy(blocks: Blocks, list: seq<Hash>, n: nat, o: OutPoint) {
    exists i :: 0 <= i < n && i < |list| && TouchesAt(blocks, list, i, o)
  }

  ghost predicate TouchesAt(blocks: Blocks, list: seq<Hash>, i: nat, o: OutPoint) {
    i < |list| && list[i] in blocks && Touches(blocks[list[i]].txs, o)
  }

  /** The view has keys for exactly what the first nodes of the two lists name or create. */
  ghost predicate KeysTouched(v: Entries, blocks: Blocks, detach: seq<Hash>, i: nat, attach: seq<Hash>, j: nat) {
    forall o :: o in v <==> TouchedBy(blocks, detach, i, o) || TouchedBy(blocks, attach, j, o)
  }

  /**
   No forward reference of node `j` to an output that a later transaction of it makes fetchInputUtxos add is
   known to the dry run: neither the detached blocks nor the earlier attached ones name or create that output.
   */
  ghost predicate ShieldedAt(blocks: Blocks, detach: seq<Hash>, attach: seq<Hash>, j: nat) {
    j < |attach| && (attach[j] in blocks ==> forall o :: Ahead(blocks[attach[j]].txs, o) ==>
      !TouchedBy(blocks, detach, |detach|, o) && !TouchedBy(blocks, attach, j, o))
  }

  ghost predicate AllShielded(blocks: Blocks, detach: seq<Hash>, attach: seq<Hash>) {
    forall j :: 0 <= j < |attach| ==> ShieldedAt(blocks, detach, attach, j)
  }

  lemma NoKeysTouched(blocks: Blocks, detach: seq<Hash>, attach: seq<Hash>)
    ensures KeysTouched(map[], blocks, detach, 0, attach, 0)
  {
  }

  lemma OneMoreTouches(blocks: Blocks, list: seq<Hash>, i: nat, o: OutPoint)
    requires i < |list| && list[i] in blocks
    ensures TouchedBy(blocks, list, i + 1, o) <==> TouchedBy(blocks, list, i, o) || Touches(blocks[list[i]].txs, o)
  {
    hide Touches;
    if TouchedBy(blocks, list, i + 1, o) && !TouchedBy(blocks, list, i, o) {
      var k :| 0 <= k < i + 1 && k < |list| && TouchesAt(blocks, list, k, o);
    }
    if Touches(blocks[list[i]].txs, o) {
      assert TouchesAt(blocks, list, i, o);
    }
  }

  lemma DetachTouches(was: Entries, v: Entries, blocks: Blocks, detach: seq<Hash>, i: nat, attach: seq<Hash>)
    requires KeysTouched(was, blocks, detach, i, attach, 0) && i < |detach| && detach[i] in blocks
    requires KeysAre(was, v, blocks[detach[i]].txs)
    ensures KeysTouched(v, blocks, detach, i + 1, attach, 0)
  {
    hide Touches, TouchedBy;
    forall o ensures o in v <==> TouchedBy(blocks, detach, i + 1, o) || TouchedBy(blocks, attach, 0, o) {
      OneMoreTouches(blocks, detach, i, o);
    }
  }

  lemma AttachTouches(was: Entries, v: Entries, blocks: Blocks, detach: seq<Hash>, attach: seq<Hash>, j: nat)
    requires KeysTouched(was, blocks, detach, |detach|, attach, j) && j < |attach| && attach[j] in blocks
    requires KeysAre(was, v, blocks[attach[j]].txs)
    ensures KeysTouched(v, blocks, detach, |detach|, attach, j + 1)
  {
    hide Touches, TouchedBy;
    forall o ensures o in v <==> TouchedBy(blocks, detach, |detach|, o) || TouchedBy(blocks, attach, j + 1, o) {
      OneMoreTouches(blocks, attach, j, o);
    }
  }

  lemma TouchedSame(v: Entries, blocks: Blocks, detach: seq<Hash>, attach: seq<Hash>)
    requires KeysTouched(v, blocks, detach, |detach|, [], 0)
    ensures KeysTouched(v, blocks, detach, |detach|, attach, 0)
  {
    forall o ensures o in v <==> TouchedBy(blocks, detach, |detach|, o) || TouchedBy(blocks, attach, 0, o) {
      assert !TouchedBy(blocks, [], 0, o) && !TouchedBy(blocks, attach, 0, o);
    }
  }

  /** The dry run has a key for every forward reference of node `j`: some earlier block of the two lists names or creates it. */
  ghost predicate AnsweredAt(blocks: Blocks, detach: seq<Hash>, attach: seq<Hash>, j: nat)
    requires j < |attach|
  {
    attach[j] in blocks ==> forall o :: ForwardRef(blocks[attach[j]].txs, o) ==>
      TouchedBy(blocks, detach, |detach|, o) || TouchedBy(blocks, attach, j, o)
  }

  /** The reason for which node `j` is refused when the earlier blocks of the two lists are known. */
  ghost predicate RefusedBy(blocks: Blocks, rules: Rules, detach: seq<Hash>, attach: seq<Hash>, j: nat, e: RuleError)
    requires TreeOk(blocks, rules.genesis)
  {
    j < |attach| && attach[j] in blocks && attach[j] != rules.genesis && blocks[attach[j]].prev in blocks &&
    exists keys: set<OutPoint> :: KeysListed(keys, blocks, detach, attach, j) && Breaks(blocks, rules, attach[j], keys, e)
  }

  ghost predicate KeysListed(keys: set<OutPoint>, blocks: Blocks, detach: seq<Hash>, attach: seq<Hash>, j: nat) {
    forall o :: o in keys <==> TouchedBy(blocks, detach, |detach|, o) || TouchedBy(blocks, attach, j, o)
  }

  lemma BreaksOnLists(blocks: Blocks, rules: Rules, v: Entries, detach: seq<Hash>, attach: seq<Hash>, j: nat, e: RuleError)
    requires TreeOk(blocks, rules.genesis) && KeysTouched(v, blocks, detach, |detach|, attach, j)
    requires j < |attach| && attach[j] in blocks && attach[j] != rules.genesis && blocks[attach[j]].prev in blocks
    requires Breaks(blocks, rules, attach[j], v.Keys, e)
    ensures RefusedBy(blocks, rules, detach, attach, j, e)
  {
    hide Breaks, TouchedBy;
    assert KeysListed(v.Keys, blocks, detach, attach, j);
  }

  lemma TouchedAnswers(v: Entries, blocks: Blocks, detach: seq<Hash>, attach: seq<Hash>, j: nat)
    requires KeysTouched(v, blocks, detach, |detach|, attach, j) && j < |attach| && attach[j] in blocks
    ensures Answered(v.Keys, blocks[attach[j]].txs) <==> AnsweredAt(blocks, detach, attach, j)
  {
    hide ForwardRef, TouchedBy;
  }

  /** `o` is a forward reference of node `j` that nothing before it names or creates. */
  ghost predicate Unanswered(blocks: Blocks, detach: seq<Hash>, attach: seq<Hash>, j: nat, o: OutPoint) {
    j < |attach| && attach[j] in blocks && ForwardRef(blocks[attach[j]].txs, o) &&
    !TouchedBy(blocks, detach, |detach|, o) && !TouchedBy(blocks, attach, j, o)
  }

  lemma UntouchedInput(v: Entries, blocks: Blocks, detach: seq<Hash>, attach: seq<Hash>, j: nat, o: OutPoint)
    requires KeysTouched(v, blocks, detach, |detach|, attach, j) && j < |attach| && attach[j] in blocks
    requires ForwardRef(blocks[attach[j]].txs, o) && o !in v
    ensures Unanswered(blocks, detach, attach, j, o)
  {
    hide ForwardRef, TouchedBy;
  }

  /** Node `j` passes the check phase. */
  ghost predicate DryPassesAt(blocks: Blocks, status: map<Hash, Status>, rules: Rules, detach: seq<Hash>, attach: seq<Hash>, j: nat)
    requires TreeOk(blocks, rules.genesis) && j < |attach|
  {
    PassesAt(blocks, status, rules, attach, j) && AnsweredAt(blocks, detach, attach, j)
  }

  ghost predicate DryPasses(blocks: Blocks, status: map<Hash, Status>, rules: Rules, detach: seq<Hash>, attach: seq<Hash>, n: nat)
    requires TreeOk(blocks, rules.genesis) && n <= |attach|
  {
    forall j :: 0 <= j < n ==> DryPassesAt(blocks, status, rules, detach, attach, j)
  }

  /** Node `j` is the first that does not pass the check phase. */
  ghost predicate FailsAt(blocks: Blocks, status: map<Hash, Status>, rules: Rules, detach: seq<Hash>, attach: seq<Hash>, j: nat)
    requires TreeOk(blocks, rules.genesis)
  {
    j < |attach| && attach[j] in status && DryPasses(blocks, status, rules, detach, attach, j) &&
    !DryPassesAt(blocks, status, rules, detach, attach, j)
  }

  /** None of the first `n` nodes refers forward. */
  ghost predicate ForwardFree(blocks: Blocks, attach: seq<Hash>, n: nat)
    requires n <= |attach|
  {
    forall j :: 0 <= j < n ==> !ForwardIn(blocks, attach[j])
  }

  /** Node `j` is the first that refers forward, and `o` is what it refers to. */
  ghost predicate StopsForward(blocks: Blocks, attach: seq<Hash>, j: nat, o: OutPoint) {
    j < |attach| && ForwardFree(blocks, attach, j) && attach[j] in blocks && ForwardRef(blocks[attach[j]].txs, o)
  }

  /** A node that passes the check phase refers forward exactly when one of its forward references is known to the dry run. */
  lemma ShieldedIff(blocks: Blocks, status: map<Hash, Status>, rules: Rules, detach: seq<Hash>, attach: seq<Hash>, j: nat)
    requires MarksOk(blocks, status, rules) && AllStoredOk(blocks, rules) && j < |attach|
    requires DryPassesAt(blocks, status, rules, detach, attach, j)
    ensures ShieldedAt(blocks, detach, attach, j) <==> !ForwardIn(blocks, attach[j])
  {
    hide ForwardRef, Added, TouchedBy, MayPass, Fresh, StateAt, Path, SaneBlock;
    var h := attach[j];
    var txs, u := blocks[h].txs, StateAt(blocks, rules.genesis, blocks[h].prev);
    assert ValidOk(blocks, status, rules, h) && StoredAt(blocks, rules, h);
    forall o | ForwardRef(txs, o) ensures Ahead(txs, o) {
      ForwardIsAhead(u, blocks[h], rules, o);
    }
  }

  /**
   When the check phase passes, the commit phase completes if and only if no node has an exposed forward reference;
   otherwise it stops at the first node that has one.
   */
  lemma CompletesIff(blocks: Blocks, status: map<Hash, Status>, rules: Rules, detach: seq<Hash>, attach: seq<Hash>)
    requires MarksOk(blocks, status, rules) && AllStoredOk(blocks, rules)
    requires DryPasses(blocks, status, rules, detach, attach, |attach|)
    ensures ForwardFree(blocks, attach, |attach|) <==> AllShielded(blocks, detach, attach)
    ensures forall j: nat, o :: StopsForward(blocks, attach, j, o) ==>
      !ShieldedAt(blocks, detach, attach, j) && forall k :: 0 <= k < j ==> ShieldedAt(blocks, detach, attach, k)
  {
    hide ForwardIn, ShieldedAt, ValidOk, AllStoredOk, DryPassesAt, ForwardRef;
    forall j | 0 <= j < |attach| ensures ShieldedAt(blocks, detach, attach, j) <==> !ForwardIn(blocks, attach[j]) {
      assert DryPassesAt(blocks, status, rules, detach, attach, j);
      ShieldedIff(blocks, status, rules, detach, attach, j);
    }
    forall j: nat, o | StopsForward(blocks, attach, j, o) ensures ForwardIn(blocks, attach[j]) {
      ReferringIn(blocks, attach[j], o);
    }
  }

  lemma ReferringIn(blocks: Blocks, h: Hash, o: OutPoint)
    requires h in blocks && ForwardRef(blocks[h].txs, o)
    ensures ForwardIn(blocks, h)
  {
  }

  lemma NothingForward(blocks: Blocks, attach: seq<Hash>)
    ensures ForwardFree(blocks, attach, 0)
  {
  }

  lemma OneMoreFree(blocks: Blocks, attach: seq<Hash>, j: nat)
    requires j < |attach|
    ensures ForwardFree(blocks, attach, j + 1) <==> ForwardFree(blocks, attach, j) && !ForwardIn(blocks, attach[j])
    ensures ForwardFree(blocks, attach, |attach|) ==> ForwardFree(blocks, attach, j + 1)
  {
    hide ForwardIn;
  }

  lemma NextToCommit(blocks: Blocks, rules: Rules, fork: Hash, attach: seq<Hash>, j: nat)
    requires TreeOk(blocks, rules.genesis) && AttachOk(blocks, rules.genesis, fork, attach) && AllMay(blocks, rules, attach) && j < |attach|
    ensures AttachAt(blocks, rules.genesis, fork, attach, j) && MayAt(blocks, rules, attach[j])
  {
    hide MayAt;
    assert MayListed(blocks, rules, attach, j);
  }

  lemma NothingListed(blocks: Blocks, genesis: Hash, tip: Hash)
    ensures ListsOk(blocks, genesis, tip, [], [])
  {
  }

  lemma FlushIsLive(v: Entries, utxos: Utxos, blocks: Blocks, genesis: Hash, h: Hash)
    requires TreeOk(blocks, genesis) && h in blocks && StandsFor(v, utxos, blocks, genesis, h)
    ensures Live(CommitEntries(v))
  {
    CommitIsLive(v, utxos);
  }

  lemma EmptyIsLive()
    ensures Live(map[])
  {
  }

  lemma ForwardFreeHides(keys: set<OutPoint>, txs: seq<Tx>)
    ensures !HasForward(txs) ==> !Exposed(keys, txs)
  {
  }

  ghost predicate AttachFresh(blocks: Blocks, genesis: Hash, fork: Hash, attach: seq<Hash>)
    requires TreeOk(blocks, genesis) && AttachOk(blocks, genesis, fork, attach)
  {
    forall j :: 0 <= j < |attach| ==> AttachAt(blocks, genesis, fork, attach, j) && FreshAt(blocks, genesis, attach[j])
  }

  /** The node is already marked valid, or its block passes the check on some view that stands for the chain below it. */
  ghost predicate Passes(blocks: Blocks, status: map<Hash, Status>, rules: Rules, h: Hash)
    requires TreeOk(blocks, rules.genesis) && h in blocks && h in status
  {
    h != rules.genesis && blocks[h].prev in blocks &&
    (status[h].valid || MayAt(blocks, rules, h))
  }

  ghost predicate PassesAt(blocks: Blocks, status: map<Hash, Status>, rules: Rules, attach: seq<Hash>, j: nat)
    requires TreeOk(blocks, rules.genesis) && j < |attach|
  {
    attach[j] in blocks && attach[j] in status && Passes(blocks, status, rules, attach[j])
  }

  ghost predicate MayListed(blocks: Blocks, rules: Rules, attach: seq<Hash>, j: nat)
    requires TreeOk(blocks, rules.genesis) && j < |attach|
  {
    attach[j] in blocks && attach[j] != rules.genesis && blocks[attach[j]].prev in blocks && MayAt(blocks, rules, attach[j])
  }

  ghost predicate AllMay(blocks: Blocks, rules: Rules, attach: seq<Hash>)
    requires TreeOk(blocks, rules.genesis)
  {
    forall j :: 0 <= j < |attach| ==> MayListed(blocks, rules, attach, j)
  }

  /** The view stands for the state after the first `j` attach nodes. */
  ghost predicate AttachedTo(blocks: Blocks, utxos: Utxos, rules: Rules, fork: Hash, attach: seq<Hash>, j: nat, v: Entries, best: Hash)
    requires TreeOk(blocks, rules.genesis) && j <= |attach|
  {
    best == TipAfterAttach(fork, attach, j) && best in blocks && StandsFor(v, utxos, blocks, rules.genesis, best)
  }

  /** The statuses after the first `j` attach nodes passed. */
  function Validated(status: map<Hash, Status>, attach: seq<Hash>, j: nat): map<Hash, Status>
    requires j <= |attach|
  {
    if j == 0 then status
    else
      var s := Validated(status, attach, j - 1);
      if attach[j-1] in s then s[attach[j-1] := s[attach[j-1]].With(VALID)] else s
  }

  /** The statuses a refusal at position `j` leaves: that node failed, the later ones have an invalid ancestor. */
  function Refusal(status: map<Hash, Status>, attach: seq<Hash>, j: nat): map<Hash, Status>
    requires j < |attach|
  {
    if attach[j] in status then Tainted(status[attach[j] := status[attach[j]].With(VALIDATE_FAILED)], attach, j + 1, |attach|)
    else status
  }

  /** Passing adds the valid mark, and nothing else. */
  lemma {:induction false} ValidatedMarks(was: map<Hash, Status>, attach: seq<Hash>, j: nat)
    requires j <= |attach|
    ensures var now := Validated(was, attach, j);
      now.Keys == was.Keys && forall h :: h in now ==>
        (now[h].valid <==> was[h].valid || exists k :: 0 <= k < j && attach[k] == h) &&
        now[h].failed == was[h].failed && now[h].invalidAncestor == was[h].invalidAncestor
  {
    if j > 0 {
      ValidatedMarks(was, attach, j - 1);
    }
  }

  lemma {:induction false} TaintedMarks(was: map<Hash, Status>, attach: seq<Hash>, j: nat, n: nat)
    requires j <= n <= |attach|
    ensures var now := Tainted(was, attach, j, n);
      now.Keys == was.Keys && forall h :: h in now ==>
        now[h].valid == was[h].valid && now[h].failed == was[h].failed &&
        (now[h].invalidAncestor <==> was[h].invalidAncestor || exists k :: j <= k < n && attach[k] == h)
  {
    if n > j {
      TaintedMarks(was, attach, j, n - 1);
    }
  }

  /** The marks a refusal leaves. */
  lemma RefusalMarks(was: map<Hash, Status>, attach: seq<Hash>, at: nat)
    requires at < |attach| && attach[at] in was
    ensures var now := Refusal(Validated(was, attach, at), attach, at);
      now.Keys == was.Keys && forall h :: h in now ==>
        (now[h].valid <==> was[h].valid || exists k :: 0 <= k < at && attach[k] == h) &&
        (now[h].failed <==> was[h].failed || h == attach[at]) &&
        (now[h].invalidAncestor <==> was[h].invalidAncestor || exists k :: at < k < |attach| && attach[k] == h)
  {
    hide Tainted, Validated;
    var mid := Validated(was, attach, at);
    ValidatedMarks(was, attach, at);
    TaintedMarks(mid[attach[at] := mid[attach[at]].With(VALIDATE_FAILED)], attach, at + 1, |attach|);
  }

  /** The cached journal of detach node `i` is what that block spent. */
  ghost predicate CachedAt(blocks: Blocks, rules: Rules, detach: seq<Hash>, stxos: seq<seq<Coin>>, i: nat)
    requires TreeOk(blocks, rules.genesis) && i < |detach|
  {
    i < |stxos| && detach[i] in blocks && detach[i] != rules.genesis && blocks[detach[i]].prev in blocks &&
    MarkOk(blocks, rules, detach[i]) &&
    stxos[i] == BlockJournal(StateAt(blocks, rules.genesis, blocks[detach[i]].prev), blocks[detach[i]])
  }

  lemma CacheGrows(blocks: Blocks, rules: Rules, detach: seq<Hash>, stxos: seq<seq<Coin>>, records: seq<Coin>, i: nat)
    requires TreeOk(blocks, rules.genesis) && i < |detach| && |stxos| == i
    requires detach[i] in blocks && detach[i] != rules.genesis && blocks[detach[i]].prev in blocks && MarkOk(blocks, rules, detach[i])
    requires records == BlockJournal(StateAt(blocks, rules.genesis, blocks[detach[i]].prev), blocks[detach[i]])
    requires forall k :: 0 <= k < i ==> CachedAt(blocks, rules, detach, stxos, k)
    ensures forall k :: 0 <= k <= i ==> CachedAt(blocks, rules, detach, stxos + [records], k)
  {
    forall k | 0 <= k <= i ensures CachedAt(blocks, rules, detach, stxos + [records], k) {
      assert k < i ==> CachedAt(blocks, rules, detach, stxos, k);
    }
  }

  /** Heights grow along the attach list, so its nodes are distinct. */
  lemma {:induction false} AttachHeights(blocks: Blocks, genesis: Hash, fork: Hash, attach: seq<Hash>, j: nat)
    requires TreeOk(blocks, genesis) && fork in blocks && AttachOk(blocks, genesis, fork, attach) && j < |attach|
    ensures attach[j] in blocks && blocks[attach[j]].height == blocks[fork].height + 1 + j
  {
    assert AttachAt(blocks, genesis, fork, attach, j) && BlockOk(blocks, genesis, attach[j]);
    if j > 0 {
      AttachHeights(blocks, genesis, fork, attach, j - 1);
    }
  }

  lemma AttachKnown(blocks: Blocks, genesis: Hash, fork: Hash, attach: seq<Hash>)
    requires AttachOk(blocks, genesis, fork, attach)
    ensures forall k :: 0 <= k < |attach| ==> attach[k] in blocks
  {
    forall k | 0 <= k < |attach| ensures attach[k] in blocks {
      assert AttachAt(blocks, genesis, fork, attach, k);
    }
  }

  /** Marking earlier attach nodes valid leaves node `k` as it was. */
  lemma {:induction false} NotYetValidated(blocks: Blocks, status: map<Hash, Status>, genesis: Hash, fork: Hash, attach: seq<Hash>, j: nat, k: nat)
    requires TreeOk(blocks, genesis) && fork in blocks && AttachOk(blocks, genesis, fork, attach) && j <= k < |attach|
    requires attach[k] in status
    ensures attach[k] in Validated(status, attach, j) && Validated(status, attach, j)[attach[k]] == status[attach[k]]
  {
    if j > 0 {
      NotYetValidated(blocks, status, genesis, fork, attach, j - 1, k);
      AttachHeights(blocks, genesis, fork, attach, j - 1);
      AttachHeights(blocks, genesis, fork, attach, k);
    }
  }

  /** A node is judged by the statuses so far as by the ones before the dry run, and passing adds its mark. */
  lemma JudgedSame(blocks: Blocks, was: map<Hash, Status>, now: map<Hash, Status>, rules: Rules, fork: Hash, attach: seq<Hash>, j: nat)
    requires TreeOk(blocks, rules.genesis) && fork in blocks && AttachOk(blocks, rules.genesis, fork, attach) && j < |attach|
    requires was.Keys == blocks.Keys && now == Validated(was, attach, j)
    ensures attach[j] in blocks && attach[j] in now && now[attach[j]] == was[attach[j]]
    ensures Passes(blocks, now, rules, attach[j]) <==> PassesAt(blocks, was, rules, attach, j)
    ensures now[attach[j] := now[attach[j]].With(VALID)] == Validated(was, attach, j + 1)
  {
    AttachKnown(blocks, rules.genesis, fork, attach);
    NotYetValidated(blocks, was, rules.genesis, fork, attach, j, j);
  }

  lemma NextAttached(blocks: Blocks, genesis: Hash, fork: Hash, attach: seq<Hash>, j: nat)
    requires TreeOk(blocks, genesis) && AttachOk(blocks, genesis, fork, attach) && AttachFresh(blocks, genesis, fork, attach) && j < |attach|
    ensures AttachAt(blocks, genesis, fork, attach, j) && FreshAt(blocks, genesis, attach[j])
  {
    assert AttachAt(blocks, genesis, fork, attach, j) && FreshAt(blocks, genesis, attach[j]);
  }

  lemma NothingValidated(status: map<Hash, Status>, attach: seq<Hash>)
    ensures Validated(status, attach, 0) == status
  {
  }

  /** Marks the attach nodes from `j` on as having an invalid ancestor. */
  function Tainted(status: map<Hash, Status>, attach: seq<Hash>, j: nat, n: nat): map<Hash, Status>
    requires j <= n <= |attach|
  {
    if n == j then status
    else
      var s := Tainted(status, attach, j, n - 1);
      if attach[n-1] in s then s[attach[n-1] := s[attach[n-1]].With(INVALID_ANCESTOR)] else s
  }

  lemma EmptyViewStands(db: Utxos)
    ensures Synced(map[], db) && Overlay(map[], db) == db
  {
    forall o ensures Lookup(map[], db, o) == if o in db then Some(db[o]) else None {
    }
  }

  lemma RecordHeights(blocks: Blocks, h: Hash, rules: Rules)
    requires TreeOk(blocks, rules.genesis) && h in blocks && h != rules.genesis && blocks[h].prev in blocks
    requires MarkOk(blocks, rules, h)
    ensures var j := BlockJournal(StateAt(blocks, rules.genesis, blocks[h].prev), blocks[h]);
      forall i :: 0 <= i < |j| ==> j[i].height != 0
  {
    var b := blocks[h];
    var p := Path(blocks, rules.genesis, b.prev);
    assert BlockOk(blocks, rules.genesis, h);
    ConnectableIsValid(StateAt(blocks, rules.genesis, b.prev), b, rules);
    PathLinked(blocks, rules.genesis, b.prev);
    ReplayHeightsPositive(p, rules.genesis, |p|);
    JournalHeightsPositive(StateAt(blocks, rules.genesis, b.prev), b.txs, b.height, |b.txs|);
  }
}
