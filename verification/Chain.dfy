/**
 The database as a function of the best chain: the unspent set, the spend journal, the two main-chain
 index buckets and the transaction count that replaying the chain from the genesis block produces.
 */
module Chain {
  import opened Wire
  import opened Ledger
  import opened Money
  import opened Validate

  datatype Db = Db(
    utxos: Utxos,
    journal: map<Hash, seq<Coin>>,
    heights: map<Hash, int>,
    hashes: map<int, Hash>,
    totalTxns: int,
    best: Hash)

  function BlockJournal(u: Utxos, b: Block): seq<Coin> {
    Journal(u, b.txs, b.height, |b.txs|)
  }

  /** The genesis coinbase is not spendable, so it never enters the unspent set. */
  function GenesisDb(g: Block): Db {
    Db(map[], map[], map[g.hash := 0], map[0 := g.hash], |g.txs|, g.hash)
  }

  function ConnectDb(d: Db, b: Block): Db {
    Db(ApplyBlock(d.utxos, b), d.journal[b.hash := BlockJournal(d.utxos, b)],
       d.heights[b.hash := b.height], d.hashes[b.height := b.hash], d.totalTxns + |b.txs|, b.hash)
  }

  /** What disconnectBlock leaves when the view has been brought back to `u`. */
  function DisconnectDb(d: Db, b: Block, u: Utxos): Db {
    Db(u, d.journal - {b.hash}, d.heights - {b.hash}, d.hashes - {b.height}, d.totalTxns - |b.txs|, b.prev)
  }

  function UtxosOf(chain: seq<Block>, n: nat): Utxos
    requires 0 < n <= |chain|
  {
    if n == 1 then map[] else ApplyBlock(UtxosOf(chain, n - 1), chain[n-1])
  }

  function JournalOf(chain: seq<Block>, n: nat): map<Hash, seq<Coin>>
    requires 0 < n <= |chain|
  {
    if n == 1 then map[] else JournalOf(chain, n - 1)[chain[n-1].hash := BlockJournal(UtxosOf(chain, n - 1), chain[n-1])]
  }

  function HeightsOf(chain: seq<Block>, n: nat): map<Hash, int>
    requires 0 < n <= |chain|
  {
    if n == 1 then map[chain[0].hash := 0] else HeightsOf(chain, n - 1)[chain[n-1].hash := chain[n-1].height]
  }

  function HashesOf(chain: seq<Block>, n: nat): map<int, Hash>
    requires 0 < n <= |chain|
  {
    if n == 1 then map[0 := chain[0].hash] else HashesOf(chain, n - 1)[chain[n-1].height := chain[n-1].hash]
  }

  function TxCount(chain: seq<Block>, n: nat): nat
    requires n <= |chain|
  {
    if n == 0 then 0 else TxCount(chain, n - 1) + |chain[n-1].txs|
  }

  /** The database after the first `n` blocks of the chain. */
  function Replay(chain: seq<Block>, n: nat): Db
    requires 0 < n <= |chain|
  {
    Db(UtxosOf(chain, n), JournalOf(chain, n), HeightsOf(chain, n), HashesOf(chain, n), TxCount(chain, n), chain[n-1].hash)
  }

  lemma ReplayStep(chain: seq<Block>, n: nat)
    requires 0 < n < |chain|
    ensures Replay(chain, n + 1) == ConnectDb(Replay(chain, n), chain[n])
  {
  }

  /** A block that may sit on top of the unspent set `u`: it satisfies every rule there. */
  ghost predicate Connectable(u: Utxos, b: Block, rules: Rules) {
    SaneBlock(b, rules) && Fresh(u, b.txs) && Accepts(u, b, rules)
  }

  /** Such a block conserves money, and each of its transactions spends distinct coins that are there. */
  lemma ConnectableIsValid(u: Utxos, b: Block, rules: Rules)
    requires Connectable(u, b, rules)
    ensures BlockValid(u, b, rules.Reward(b)) && AllSpendable(u, b.txs, b.height, |b.txs|)
  {
    AcceptedIsValid(u, b, rules);
  }

  ghost predicate ConnectableAt(chain: seq<Block>, rules: Rules, i: nat)
    requires 0 < i < |chain|
  {
    Connectable(UtxosOf(chain, i), chain[i], rules)
  }

  predicate LinkedAt(chain: seq<Block>, i: nat)
    requires i < |chain|
  {
    chain[i].height == i && (i > 0 ==> chain[i].prev == chain[i-1].hash)
  }

  predicate HashesDiffer(chain: seq<Block>, i: nat, j: nat)
    requires i < |chain| && j < |chain|
  {
    chain[i].hash != chain[j].hash
  }

  predicate Linked(chain: seq<Block>, genesis: Hash) {
    |chain| > 0 && chain[0].hash == genesis &&
    (forall i :: 0 <= i < |chain| ==> LinkedAt(chain, i)) &&
    (forall i, j :: 0 <= i < j < |chain| ==> HashesDiffer(chain, i, j))
  }

  /** A chain of blocks from the genesis block on, each one valid on top of the ones before it. */
  ghost predicate ChainOk(chain: seq<Block>, rules: Rules) {
    Linked(chain, rules.genesis) && forall i :: 0 < i < |chain| ==> ConnectableAt(chain, rules, i)
  }

  /** The replay of the first `n` blocks depends on those blocks only. */
  lemma {:induction false} ReplayLocal(a: seq<Block>, b: seq<Block>, n: nat)
    requires 0 < n <= |a| && n <= |b| && forall i :: 0 <= i < n ==> a[i] == b[i]
    ensures Replay(a, n) == Replay(b, n)
  {
    if n == 1 {
      assert TxCount(a, 0) == TxCount(b, 0);
    } else {
      ReplayLocal(a, b, n - 1);
    }
  }

  /** A block whose hash and height are new has no entry in any bucket. */
  lemma {:induction false} NotIndexed(chain: seq<Block>, n: nat, h: Hash, height: int)
    requires 0 < n <= |chain| && height >= n
    requires forall i :: 0 <= i < n ==> chain[i].hash != h && chain[i].height < height
    ensures h !in HeightsOf(chain, n) && h !in JournalOf(chain, n) && height !in HashesOf(chain, n)
  {
    if n > 1 {
      assert forall i :: 0 <= i < n - 1 ==> chain[i].hash != h && chain[i].height < height;
      NotIndexed(chain, n - 1, h, height);
    }
  }

  /** Undoing the last block on the replayed database gives the database of the shorter chain. */
  lemma DisconnectUndoesConnect(chain: seq<Block>, genesis: Hash, n: nat)
    requires Linked(chain, genesis) && 0 < n < |chain|
    ensures DisconnectDb(Replay(chain, n + 1), chain[n], Replay(chain, n).utxos) == Replay(chain, n)
  {
    forall i | 0 <= i < n ensures chain[i].hash != chain[n].hash && chain[i].height < chain[n].height {
      assert HashesDiffer(chain, i, n) && LinkedAt(chain, i) && LinkedAt(chain, n);
    }
    assert LinkedAt(chain, n);
    NotIndexed(chain, n, chain[n].hash, chain[n].height);
    ReplayStep(chain, n);
    RemoveAdded(Replay(chain, n), chain[n]);
  }

  lemma RemoveAdded(d: Db, b: Block)
    requires b.hash !in d.heights && b.hash !in d.journal && b.height !in d.hashes && d.best == b.prev
    ensures DisconnectDb(ConnectDb(d, b), b, d.utxos) == d
  {
    var e := ConnectDb(d, b);
    assert e.journal - {b.hash} == d.journal;
    assert e.heights - {b.hash} == d.heights;
    assert e.hashes - {b.height} == d.hashes;
  }

  /** Block `i` is filed under its hash ... */
  lemma {:induction false} FiledByHash(chain: seq<Block>, genesis: Hash, n: nat, i: nat)
    requires Linked(chain, genesis) && i < n <= |chain|
    ensures chain[i].hash in HeightsOf(chain, n) && HeightsOf(chain, n)[chain[i].hash] == i
  {
    assert LinkedAt(chain, n - 1);
    if i < n - 1 {
      assert HashesDiffer(chain, i, n - 1);
      FiledByHash(chain, genesis, n - 1, i);
    }
  }

  /** ... and under its height. */
  lemma {:induction false} FiledByHeight(chain: seq<Block>, genesis: Hash, n: nat, i: nat)
    requires Linked(chain, genesis) && i < n <= |chain|
    ensures i in HashesOf(chain, n) && HashesOf(chain, n)[i] == chain[i].hash
  {
    assert LinkedAt(chain, n - 1);
    if i < n - 1 {
      FiledByHeight(chain, genesis, n - 1, i);
    }
  }

  lemma {:induction false} FiledOnly(chain: seq<Block>, genesis: Hash, n: nat)
    requires Linked(chain, genesis) && 0 < n <= |chain|
    ensures forall h :: h in HeightsOf(chain, n) ==> exists i :: 0 <= i < n && chain[i].hash == h
    ensures forall m :: m in HashesOf(chain, n) ==> 0 <= m < n
  {
    assert LinkedAt(chain, n - 1);
    if n > 1 {
      FiledOnly(chain, genesis, n - 1);
    }
  }

  /** The hash and height buckets are inverse to each other and list exactly the chain. */
  lemma IndexBucketsInverse(chain: seq<Block>, genesis: Hash, h: Hash, m: int)
    requires Linked(chain, genesis)
    ensures var d := Replay(chain, |chain|);
      (h in d.heights && d.heights[h] == m <==> m in d.hashes && d.hashes[m] == h) &&
      (m in d.hashes <==> 0 <= m < |chain|) && (m in d.hashes ==> d.hashes[m] == chain[m].hash)
  {
    FiledOnly(chain, genesis, |chain|);
    if 0 <= m < |chain| {
      FiledByHash(chain, genesis, |chain|, m);
      FiledByHeight(chain, genesis, |chain|, m);
    }
    if i :| 0 <= i < |chain| && chain[i].hash == h {
      FiledByHash(chain, genesis, |chain|, i);
      FiledByHeight(chain, genesis, |chain|, i);
    }
  }

  /** The journal entry of each block is what that block spent, on the state of the chain below it. */
  lemma {:induction false} JournalHoldsEveryBlock(chain: seq<Block>, genesis: Hash, n: nat, i: nat)
    requires Linked(chain, genesis) && 0 < i < n <= |chain|
    ensures chain[i].hash in JournalOf(chain, n)
    ensures JournalOf(chain, n)[chain[i].hash] == BlockJournal(UtxosOf(chain, i), chain[i])
  {
    if i < n - 1 {
      assert HashesDiffer(chain, i, n - 1);
      JournalHoldsEveryBlock(chain, genesis, n - 1, i);
    }
  }

  /** ... and nothing else is in the journal. */
  lemma {:induction false} JournalHoldsOnlyBlocks(chain: seq<Block>, n: nat, h: Hash)
    requires 0 < n <= |chain| && h in JournalOf(chain, n)
    ensures exists i :: 0 < i < n && chain[i].hash == h
  {
    if n > 1 && chain[n-1].hash != h {
      JournalHoldsOnlyBlocks(chain, n - 1, h);
    }
  }

  /** The subsidies of the first `n` blocks, the genesis block excepted. */
  function Subsidies(chain: seq<Block>, rules: Rules, n: nat): nat
    requires n <= |chain|
  {
    if n <= 1 then 0 else Subsidies(chain, rules, n - 1) + rules.Reward(chain[n-1])
  }

  /** Block `i` spends available coins and pays out no more than its reward and fees. */
  ghost predicate PaysAt(chain: seq<Block>, rules: Rules, i: nat)
    requires 0 < i < |chain|
  {
    BlockValid(UtxosOf(chain, i), chain[i], rules.Reward(chain[i]))
  }

  /** Over any chain of such blocks the money in existence is at most the sum of the subsidies. */
  lemma {:induction false} SupplyBound(chain: seq<Block>, rules: Rules, n: nat)
    requires 0 < n <= |chain| && forall i :: 0 < i < n ==> PaysAt(chain, rules, i)
    ensures NonNegative(UtxosOf(chain, n)) && Total(UtxosOf(chain, n)) <= Subsidies(chain, rules, n)
  {
    if n > 1 {
      SupplyBound(chain, rules, n - 1);
      assert PaysAt(chain, rules, n - 1);
      BlockConservesMoney(UtxosOf(chain, n - 1), chain[n-1], rules.Reward(chain[n-1]));
    }
  }

  /** Coins created by blocks above genesis carry positive heights, so no journal record lacks its height. */
  lemma {:induction false} ReplayHeightsPositive(chain: seq<Block>, genesis: Hash, n: nat)
    requires Linked(chain, genesis) && 0 < n <= |chain|
    ensures PositiveHeights(UtxosOf(chain, n))
  {
    if n > 1 {
      ReplayHeightsPositive(chain, genesis, n - 1);
      assert LinkedAt(chain, n - 1);
      HeightsStayPositive(UtxosOf(chain, n - 1), chain[n-1].txs, chain[n-1].height, |chain[n-1].txs|);
    }
  }

  /** Every prefix of a good chain is a good chain. */
  lemma PrefixOk(chain: seq<Block>, rules: Rules, n: nat)
    requires ChainOk(chain, rules) && 0 < n <= |chain|
    ensures ChainOk(chain[..n], rules) && Replay(chain[..n], n) == Replay(chain, n)
  {
    var p := chain[..n];
    forall i | 0 <= i < n ensures LinkedAt(p, i) {
      assert LinkedAt(chain, i);
    }
    forall i, j | 0 <= i < j < n ensures HashesDiffer(p, i, j) {
      assert HashesDiffer(chain, i, j);
    }
    forall i | 0 < i < n ensures ConnectableAt(p, rules, i) {
      assert ConnectableAt(chain, rules, i);
      ReplayLocal(chain, p, i);
    }
    ReplayLocal(chain, p, n);
  }

  ghost predicate Extends(chain: seq<Block>, b: Block) {
    |chain| > 0 && b.prev == chain[|chain|-1].hash && b.height == |chain| &&
    forall i :: 0 <= i < |chain| ==> chain[i].hash != b.hash
  }

  lemma LinkedAppend(chain: seq<Block>, b: Block, genesis: Hash)
    requires Linked(chain, genesis) && Extends(chain, b)
    ensures Linked(chain + [b], genesis)
  {
    var c := chain + [b];
    forall i | 0 <= i < |c| ensures LinkedAt(c, i) {
      if i < |chain| {
        assert LinkedAt(chain, i);
      }
    }
    forall i, j | 0 <= i < j < |c| ensures HashesDiffer(c, i, j) {
      if j < |chain| {
        assert HashesDiffer(chain, i, j);
      }
    }
  }

  /** Appending a connectable block keeps the chain good and replays as one more connection. */
  lemma AppendOk(chain: seq<Block>, b: Block, rules: Rules)
    requires ChainOk(chain, rules) && Extends(chain, b) && Connectable(UtxosOf(chain, |chain|), b, rules)
    ensures ChainOk(chain + [b], rules)
    ensures Replay(chain + [b], |chain| + 1) == ConnectDb(Replay(chain, |chain|), b)
  {
    var c := chain + [b];
    LinkedAppend(chain, b, rules.genesis);
    ReplayLocal(c, chain, |chain|);
    ReplayStep(c, |chain|);
    forall i | 0 < i < |c| ensures ConnectableAt(c, rules, i) {
      ReplayLocal(c, chain, i);
      if i < |chain| {
        assert ConnectableAt(chain, rules, i);
      }
    }
  }

  // ----- sums over the chain -----

  /** All transactions of the first `n` blocks, one after the other. */
  function AllTxs(chain: seq<Block>, n: nat): seq<Tx>
    requires n <= |chain|
  {
    if n == 0 then [] else AllTxs(chain, n - 1) + chain[n-1].txs
  }

  /** The counter in the database is the number of all transactions, the genesis block's included. */
  lemma {:induction false} CountsAllTxs(chain: seq<Block>, n: nat)
    requires 0 < n <= |chain|
    ensures Replay(chain, n).totalTxns == |AllTxs(chain, n)|
  {
    if n > 1 {
      CountsAllTxs(chain, n - 1);
    } else {
      assert TxCount(chain, 0) == 0 && AllTxs(chain, 0) == [];
    }
  }

  /** With the same subsidy for every block the bound is that subsidy for each block above genesis. */
  lemma {:induction false} ConstantSubsidy(chain: seq<Block>, rules: Rules, n: nat, each: nat)
    requires 0 < n <= |chain| && forall i :: 0 < i < n ==> rules.subsidy(chain[i].height, chain[i].version) == each
    ensures Subsidies(chain, rules, n) == each * (n - 1)
  {
    if n > 1 {
      ConstantSubsidy(chain, rules, n - 1, each);
    }
  }
}
