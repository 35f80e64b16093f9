/** The stored records against the ledger: what a valid chain writes is what is read back. */
module Storage {
  import opened Wire
  import opened Ledger
  import opened Validate
  import opened Chain
  import opened ScriptCodec
  import opened ChainIo
  import Legacy

  predicate SmallAt(chain: seq<Block>, i: nat)
    requires i < |chain|
  {
    forall k :: 0 <= k < |chain[i].txs| ==> SmallScripts(chain[i].txs[k])
  }

  predicate SmallScripts(tx: Tx) {
    forall j :: 0 <= j < |tx.outs| ==> |tx.outs[j].script| < SCRIPT_LIMIT
  }

  /** Heights fit 32 bits, and script lengths a 64-bit size. */
  ghost predicate Small(chain: seq<Block>) {
    |chain| < 0x8000_0000 && forall i :: 0 <= i < |chain| ==> SmallAt(chain, i)
  }

  ghost predicate CoinsFit(u: Utxos) {
    forall o :: o in u ==> Fits(u[o])
  }

  ghost predicate TxOk(tx: Tx) {
    SmallScripts(tx) && forall j :: 0 <= j < |tx.outs| ==> OutputInRange(tx.outs[j])
  }

  lemma NewCoinFits(tx: Tx, height: int, j: nat)
    requires TxOk(tx) && 0 <= height < 0x8000_0000 && j < |tx.outs|
    ensures Fits(OutputCoin(tx, height, j))
  {
    ValidCoinsFit(OutputCoin(tx, height, j));
  }

  lemma {:induction false} CoinsStayFit(u: Utxos, txs: seq<Tx>, height: int, k: nat)
    requires CoinsFit(u) && 0 <= height < 0x8000_0000 && k <= |txs| && forall i :: 0 <= i < |txs| ==> TxOk(txs[i])
    ensures CoinsFit(ApplyTxs(u, txs, height, k))
  {
    hide Fits, TxOk;
    if k > 0 {
      CoinsStayFit(u, txs, height, k - 1);
      forall o | o in ApplyTxs(u, txs, height, k) ensures Fits(ApplyTxs(u, txs, height, k)[o]) {
        ApplyTxLookup(ApplyTxs(u, txs, height, k - 1), txs[k-1], height, o);
        if Creates(txs[k-1], |txs[k-1].outs|, o) {
          NewCoinFits(txs[k-1], height, o.index);
        }
      }
    }
  }

  lemma SpentFits(u: Utxos, ins: seq<TxIn>)
    requires CoinsFit(u) && Available(u, ins)
    ensures AllFit(SpentCoins(u, ins, |ins|))
  {
    hide Fits;
    forall m | 0 <= m < |ins| ensures Fits(SpentCoins(u, ins, |ins|)[m]) {
      SpentCoinsAt(u, ins, |ins|, m);
    }
  }

  lemma {:induction false} JournalFits(u: Utxos, txs: seq<Tx>, height: int, k: nat)
    requires CoinsFit(u) && 0 <= height < 0x8000_0000 && AllSpendable(u, txs, height, k)
    requires k <= |txs| && forall i :: 0 <= i < |txs| ==> TxOk(txs[i])
    ensures AllFit(Journal(u, txs, height, k))
  {
    hide Fits, TxOk, CoinsFit;
    if k > 0 {
      JournalFits(u, txs, height, k - 1);
      assert SpendableAt(u, txs, height, k - 1);
      CoinsStayFit(u, txs, height, k - 1);
      SpentFits(ApplyTxs(u, txs, height, k - 1), Spends(txs[k-1]));
    }
  }

  lemma BlockTxsOk(chain: seq<Block>, rules: Rules, i: nat)
    requires ChainOk(chain, rules) && Small(chain) && 0 < i < |chain|
    ensures chain[i].height == i && forall k :: 0 <= k < |chain[i].txs| ==> TxOk(chain[i].txs[k])
  {
    assert ConnectableAt(chain, rules, i) && LinkedAt(chain, i) && SmallAt(chain, i);
    var txs := chain[i].txs;
    forall k | 0 <= k < |txs| ensures TxOk(txs[k]) {
      assert SaneTxAt(txs, rules, k);
    }
  }

  /** Every coin of the unspent set of a valid chain is one the storage formats keep exactly. */
  lemma {:induction false} ChainCoinsFit(chain: seq<Block>, rules: Rules, n: nat)
    requires ChainOk(chain, rules) && Small(chain) && 0 < n <= |chain|
    ensures CoinsFit(UtxosOf(chain, n))
  {
    hide ChainOk, Small, Fits, TxOk;
    if n > 1 {
      ChainCoinsFit(chain, rules, n - 1);
      BlockTxsOk(chain, rules, n - 1);
      assert |chain| < 0x8000_0000 by {
        ChainIsShort(chain);
      }
      CoinsStayFit(UtxosOf(chain, n - 1), chain[n-1].txs, chain[n-1].height, |chain[n-1].txs|);
    }
  }

  lemma ChainIsShort(chain: seq<Block>)
    requires Small(chain)
    ensures |chain| < 0x8000_0000
  {
  }

  lemma {:induction false} InputsWithoutCoinBase(txs: seq<Tx>, k: nat)
    requires 0 < k <= |txs| && IsCoinBase(txs[0]) && forall i :: 0 < i < |txs| ==> !IsCoinBase(txs[i])
    ensures InputCount(txs[1..], k - 1) == SpendCount(txs, k)
  {
    if k > 1 {
      InputsWithoutCoinBase(txs, k - 1);
      assert txs[1..][k-2] == txs[k-1];
    } else {
      assert SpendCount(txs, 0) == 0;
    }
  }

  lemma FitMeansNonNegative(stxos: seq<Coin>)
    requires AllFit(stxos)
    ensures AllNonNegative(stxos)
  {
  }

  lemma SpendsOnlyCoins(chain: seq<Block>, rules: Rules, i: nat)
    requires ChainOk(chain, rules) && 0 < i < |chain|
    ensures var txs := chain[i].txs;
      |txs| > 0 && IsCoinBase(txs[0]) && (forall k :: 0 < k < |txs| ==> !IsCoinBase(txs[k])) &&
      AllSpendable(UtxosOf(chain, i), txs, chain[i].height, |txs|)
  {
    hide UtxosOf, Linked, Accepts;
    assert ConnectableAt(chain, rules, i);
    ConnectableIsValid(UtxosOf(chain, i), chain[i], rules);
  }

  /**
   For every block of a valid chain the stored journal entry, decoded with the block's transactions after the
   coinbase, is exactly the list of coins the block spent.
   */
  lemma StoredJournalReadsBack(chain: seq<Block>, rules: Rules, curve: Curve, i: nat)
    requires ChainOk(chain, rules) && Small(chain) && CurveOk(curve) && 0 < i < |chain|
    ensures var j := BlockJournal(UtxosOf(chain, i), chain[i]);
      AllNonNegative(j) && |chain[i].txs| > 0 && DecodeJournal(curve, JournalBytes(curve, j, |j|), chain[i].txs[1..]) == Ok(j)
  {
    hide Small, TxOk, CurveOk, JournalBytes, DecodeJournal, ChainOk, CoinsFit, UtxosOf, AllSpendable, Journal, Fits;
    var b, u := chain[i], UtxosOf(chain, i);
    SpendsOnlyCoins(chain, rules, i);
    ChainIsShort(chain);
    BlockTxsOk(chain, rules, i);
    ChainCoinsFit(chain, rules, i);
    JournalFits(u, b.txs, b.height, |b.txs|);
    FitMeansNonNegative(BlockJournal(u, b));
    InputsWithoutCoinBase(b.txs, |b.txs|);
    JournalEntryRoundTrip(curve, BlockJournal(u, b), b.txs[1..]);
  }

  /** Every entry of the unspent set of a valid chain reads back from its stored bytes as the same coin. */
  lemma StoredCoinsReadBack(chain: seq<Block>, rules: Rules, curve: Curve, n: nat, o: OutPoint)
    requires ChainOk(chain, rules) && Small(chain) && CurveOk(curve) && 0 < n <= |chain| && o in UtxosOf(chain, n)
    ensures var c := UtxosOf(chain, n)[o];
      Fits(c) && DecodeEntry(curve, EntryBytes(curve, c, false)) == Ok(c)
  {
    ChainCoinsFit(chain, rules, n);
    EntryRoundTrip(curve, UtxosOf(chain, n)[o]);
  }

  // ----- the search by hash -----

  /** The bytes of a hash. */
  type HashBytes = Hash -> seq<byte>

  ghost predicate BytesOk(bytes: HashBytes) {
    (forall h :: |bytes(h)| == HASH_SIZE) && forall g, h :: bytes(g) == bytes(h) ==> g == h
  }

  function KeyOf(bytes: HashBytes, o: OutPoint): seq<byte> {
    OutpointKey(bytes(o.hash), o.index)
  }

  ghost predicate KeepsAt(curve: Curve, bytes: HashBytes, db: Utxos, bucket: map<seq<byte>, seq<byte>>, o: OutPoint)
    requires o in db
  {
    o.index <= MAX_INDEX && Fits(db[o]) && KeyOf(bytes, o) in bucket && bucket[KeyOf(bytes, o)] == EntryBytes(curve, db[o], false)
  }

  ghost predicate KeyFrom(bytes: HashBytes, db: Utxos, key: seq<byte>) {
    exists o :: o in db && key == KeyOf(bytes, o)
  }

  /** The bucket keeps the coins of the set, each under the key of its output, and nothing else. */
  ghost predicate KeptIn(curve: Curve, bytes: HashBytes, db: Utxos, bucket: map<seq<byte>, seq<byte>>) {
    (forall o :: o in db ==> KeepsAt(curve, bytes, db, bucket, o)) && forall key :: key in bucket ==> KeyFrom(bytes, db, key)
  }

  /** The search of the stored bytes by hash answers the search of the set. */
  method FindStored(curve: Curve, bytes: HashBytes, ghost db: Utxos, bucket: map<seq<byte>, seq<byte>>, h: Hash, cursor: Option<seq<byte>>)
      returns (found: Result<Option<Coin>, CodecError>)
    requires CurveOk(curve) && BytesOk(bytes) && KeptIn(curve, bytes, db, bucket)
    requires IsSeek(bucket.Keys, OutpointKey(bytes(h), 0), cursor)
    ensures found.Ok? && Legacy.Answers(db, h, found.value)
  {
    hide Fits, EntryBytes, DecodeEntry, CurveOk, IsSeek, KeptIn, BytesOk, OutpointKey;
    KeysAreKeys(curve, bytes, db, bucket);
    ghost var index;
    found, index := FetchUtxoEntryByHash(curve, bucket, bytes(h), cursor);
    if found == Ok(None) {
      NoKeyNoCoin(curve, bytes, db, bucket, h);
    } else {
      KeyHasCoin(curve, bytes, db, bucket, h, index);
    }
  }

  lemma KeysAreKeys(curve: Curve, bytes: HashBytes, db: Utxos, bucket: map<seq<byte>, seq<byte>>)
    requires BytesOk(bytes) && KeptIn(curve, bytes, db, bucket)
    ensures (forall h :: |bytes(h)| == HASH_SIZE) && forall key :: key in bucket ==> IsKey(key)
  {
    hide Fits, EntryBytes;
    forall key | key in bucket ensures IsKey(key) {
      assert KeyFrom(bytes, db, key);
    }
  }

  lemma NoKeyNoCoin(curve: Curve, bytes: HashBytes, db: Utxos, bucket: map<seq<byte>, seq<byte>>, h: Hash)
    requires KeptIn(curve, bytes, db, bucket) && forall i: nat :: OutpointKey(bytes(h), i) !in bucket
    ensures Legacy.Answers(db, h, None)
  {
    hide Fits, EntryBytes;
    forall o | o in db ensures o.hash != h {
      assert KeepsAt(curve, bytes, db, bucket, o);
      assert OutpointKey(bytes(h), o.index) !in bucket;
    }
  }

  lemma KeyHasCoin(curve: Curve, bytes: HashBytes, db: Utxos, bucket: map<seq<byte>, seq<byte>>, h: Hash, index: nat)
    requires CurveOk(curve) && BytesOk(bytes) && KeptIn(curve, bytes, db, bucket) && OutpointKey(bytes(h), index) in bucket
    ensures var r := Found(DecodeEntry(curve, bucket[OutpointKey(bytes(h), index)]));
      r.Ok? && Legacy.Answers(db, h, r.value)
  {
    hide Fits, EntryBytes, DecodeEntry, CurveOk;
    assert KeyFrom(bytes, db, OutpointKey(bytes(h), index));
    var o :| o in db && OutpointKey(bytes(h), index) == KeyOf(bytes, o);
    SameHash(bytes(h), index, bytes(o.hash), o.index);
    assert KeepsAt(curve, bytes, db, bucket, o);
    EntryRoundTrip(curve, db[o]);
  }

  lemma SameHash(g: seq<byte>, i: nat, h: seq<byte>, j: nat)
    requires |g| == |h| && OutpointKey(g, i) == OutpointKey(h, j)
    ensures g == h
  {
    assert g == OutpointKey(g, i)[..|g|] && h == OutpointKey(h, j)[..|h|];
  }
}
