/**
 The tree of stored blocks: every block has one path from the genesis block, and the unspent set a block
 sits on is the replay of that path.
 */
module BlockTree {
  import opened Wire
  import opened Ledger
  import opened Validate
  import opened Chain

  type Blocks = map<Hash, Block>

  predicate BlockOk(blocks: Blocks, genesis: Hash, h: Hash)
    requires h in blocks
  {
    var b := blocks[h];
    b.hash == h && b.height >= 0 && (b.height == 0 <==> h == genesis) &&
    (h != genesis ==> b.prev in blocks && blocks[b.prev].height == b.height - 1)
  }

  predicate TreeOk(blocks: Blocks, genesis: Hash) {
    genesis in blocks && forall h {:trigger BlockOk(blocks, genesis, h)} :: h in blocks ==> BlockOk(blocks, genesis, h)
  }

  /** The blocks from the genesis block to `h`. */
  ghost function Path(blocks: Blocks, genesis: Hash, h: Hash): (p: seq<Block>)
    requires TreeOk(blocks, genesis) && h in blocks
    ensures |p| > 0 && |p| == blocks[h].height + 1 && p[|p|-1] == blocks[h]
    decreases blocks[h].height
  {
    assert BlockOk(blocks, genesis, h);
    if h == genesis then [blocks[h]] else Path(blocks, genesis, blocks[h].prev) + [blocks[h]]
  }

  /** The unspent set after block `h`. */
  ghost function StateAt(blocks: Blocks, genesis: Hash, h: Hash): Utxos
    requires TreeOk(blocks, genesis) && h in blocks
  {
    UtxosOf(Path(blocks, genesis, h), blocks[h].height + 1)
  }

  lemma {:induction false} PathBlocks(blocks: Blocks, genesis: Hash, h: Hash, i: nat)
    requires TreeOk(blocks, genesis) && h in blocks && i <= blocks[h].height
    ensures var p := Path(blocks, genesis, h);
      p[i].hash in blocks && blocks[p[i].hash] == p[i] && p[i].height == i && (i == 0 ==> p[i].hash == genesis) &&
      (i > 0 ==> p[i].prev == p[i-1].hash)
    decreases blocks[h].height
  {
    assert BlockOk(blocks, genesis, h);
    if i < blocks[h].height {
      PathBlocks(blocks, genesis, blocks[h].prev, i);
    } else if h != genesis {
      assert BlockOk(blocks, genesis, blocks[h].prev);
    }
  }

  lemma PathLinked(blocks: Blocks, genesis: Hash, h: Hash)
    requires TreeOk(blocks, genesis) && h in blocks
    ensures Linked(Path(blocks, genesis, h), genesis)
  {
    var p := Path(blocks, genesis, h);
    assert BlockOk(blocks, genesis, h);
    PathBlocks(blocks, genesis, h, 0);
    forall i | 0 <= i < |p| ensures LinkedAt(p, i) {
      PathBlocks(blocks, genesis, h, i);
    }
    forall i, j | 0 <= i < j < |p| ensures HashesDiffer(p, i, j) {
      PathBlocks(blocks, genesis, h, i);
      PathBlocks(blocks, genesis, h, j);
    }
  }

  /** Cutting a path short gives the path of the block it then ends in. */
  lemma {:induction false} PathPrefix(blocks: Blocks, genesis: Hash, h: Hash, n: nat)
    requires TreeOk(blocks, genesis) && h in blocks && 0 < n <= blocks[h].height + 1
    ensures var p := Path(blocks, genesis, h);
      p[n-1].hash in blocks && p[..n] == Path(blocks, genesis, p[n-1].hash)
    decreases blocks[h].height
  {
    var p := Path(blocks, genesis, h);
    assert BlockOk(blocks, genesis, h);
    if n == |p| {
      assert p[..n] == p;
    } else {
      PathPrefix(blocks, genesis, blocks[h].prev, n);
      assert p[..n] == Path(blocks, genesis, blocks[h].prev)[..n];
    }
  }

  lemma StateStep(blocks: Blocks, genesis: Hash, h: Hash)
    requires TreeOk(blocks, genesis) && h in blocks && h != genesis
    ensures blocks[h].prev in blocks
    ensures Path(blocks, genesis, h) == Path(blocks, genesis, blocks[h].prev) + [blocks[h]]
    ensures StateAt(blocks, genesis, h) == ApplyBlock(StateAt(blocks, genesis, blocks[h].prev), blocks[h])
  {
    assert BlockOk(blocks, genesis, h);
    var p, q := Path(blocks, genesis, h), Path(blocks, genesis, blocks[h].prev);
    ReplayLocal(p, q, |q|);
  }

  /** Storing another block changes no path. */
  lemma {:induction false} PathStable(blocks: Blocks, genesis: Hash, b: Block, h: Hash)
    requires TreeOk(blocks, genesis) && h in blocks && b.hash !in blocks
    requires TreeOk(blocks[b.hash := b], genesis)
    ensures Path(blocks[b.hash := b], genesis, h) == Path(blocks, genesis, h)
    decreases blocks[h].height
  {
    assert BlockOk(blocks, genesis, h);
    if h != genesis {
      PathStable(blocks, genesis, b, blocks[h].prev);
    }
  }

  lemma StoreKeepsTree(blocks: Blocks, genesis: Hash, b: Block)
    requires TreeOk(blocks, genesis) && b.hash !in blocks && b.prev in blocks
    requires b.height == blocks[b.prev].height + 1
    ensures TreeOk(blocks[b.hash := b], genesis)
  {
    var w := blocks[b.hash := b];
    assert BlockOk(blocks, genesis, b.prev);
    forall h | h in w ensures BlockOk(w, genesis, h) {
      if h != b.hash {
        assert BlockOk(blocks, genesis, h);
      }
    }
  }

  /** The chain that ends in `h` is good when the one below it is and `h` may sit on it. */
  lemma ChainGrows(blocks: Blocks, h: Hash, rules: Rules)
    requires TreeOk(blocks, rules.genesis) && h in blocks && h != rules.genesis && blocks[h].prev in blocks
    requires ChainOk(Path(blocks, rules.genesis, blocks[h].prev), rules)
    requires Connectable(StateAt(blocks, rules.genesis, blocks[h].prev), blocks[h], rules)
    ensures ChainOk(Path(blocks, rules.genesis, h), rules)
    ensures var p, q := Path(blocks, rules.genesis, h), Path(blocks, rules.genesis, blocks[h].prev);
      Replay(p, |p|) == ConnectDb(Replay(q, |q|), blocks[h])
  {
    hide UtxosOf, JournalOf, HeightsOf, HashesOf, TxCount, ConnectableAt, Linked, Connectable, ConnectDb, ApplyBlock;
    var q := Path(blocks, rules.genesis, blocks[h].prev);
    StateStep(blocks, rules.genesis, h);
    assert BlockOk(blocks, rules.genesis, h) && BlockOk(blocks, rules.genesis, blocks[h].prev);
    forall i | 0 <= i < |q| ensures q[i].hash != blocks[h].hash {
      PathBlocks(blocks, rules.genesis, blocks[h].prev, i);
    }
    AppendOk(q, blocks[h], rules);
  }

  /** The chain below the last block of a good chain is good, and the last block may sit on it. */
  lemma ChainShrinks(blocks: Blocks, h: Hash, rules: Rules)
    requires TreeOk(blocks, rules.genesis) && h in blocks && h != rules.genesis
    requires ChainOk(Path(blocks, rules.genesis, h), rules)
    ensures blocks[h].prev in blocks
    ensures ChainOk(Path(blocks, rules.genesis, blocks[h].prev), rules)
    ensures Connectable(StateAt(blocks, rules.genesis, blocks[h].prev), blocks[h], rules)
  {
    StateStep(blocks, rules.genesis, h);
    var p, q := Path(blocks, rules.genesis, h), Path(blocks, rules.genesis, blocks[h].prev);
    assert p[..|q|] == q && p[|q|] == blocks[h];
    PrefixOk(p, rules, |q|);
    assert ConnectableAt(p, rules, |q|);
  }

  /** Undoing the last block of a path gives the database of the path below it. */
  lemma DisconnectStep(blocks: Blocks, genesis: Hash, h: Hash)
    requires TreeOk(blocks, genesis) && h in blocks && h != genesis
    ensures blocks[h].prev in blocks
    ensures var p, q := Path(blocks, genesis, h), Path(blocks, genesis, blocks[h].prev);
      DisconnectDb(Replay(p, |p|), blocks[h], Replay(q, |q|).utxos) == Replay(q, |q|)
  {
    StateStep(blocks, genesis, h);
    var p, q := Path(blocks, genesis, h), Path(blocks, genesis, blocks[h].prev);
    PathLinked(blocks, genesis, h);
    DisconnectUndoesConnect(p, genesis, |q|);
    ReplayLocal(p, q, |q|);
  }

  /** `h` lies on the path to `tip`. */
  ghost predicate OnPath(blocks: Blocks, genesis: Hash, tip: Hash, h: Hash)
    requires TreeOk(blocks, genesis) && tip in blocks
  {
    h in blocks && 0 <= blocks[h].height <= blocks[tip].height &&
    Path(blocks, genesis, tip)[..blocks[h].height + 1] == Path(blocks, genesis, h)
  }

  lemma TipOnPath(blocks: Blocks, genesis: Hash, tip: Hash)
    requires TreeOk(blocks, genesis) && tip in blocks
    ensures OnPath(blocks, genesis, tip, tip)
  {
    assert BlockOk(blocks, genesis, tip);
    var p := Path(blocks, genesis, tip);
    assert p[..|p|] == p;
  }

  lemma ParentOnPath(blocks: Blocks, genesis: Hash, tip: Hash, h: Hash)
    requires TreeOk(blocks, genesis) && tip in blocks && OnPath(blocks, genesis, tip, h) && h != genesis
    ensures blocks[h].prev in blocks && OnPath(blocks, genesis, tip, blocks[h].prev)
  {
    assert BlockOk(blocks, genesis, h);
    StateStep(blocks, genesis, h);
    assert BlockOk(blocks, genesis, blocks[h].prev);
    var p, q := Path(blocks, genesis, tip), Path(blocks, genesis, h);
    var n := blocks[h].height;
    assert p[..n] == q[..n] == Path(blocks, genesis, blocks[h].prev);
  }

  /** On a good chain every block may sit on the chain below it, which is good too. */
  lemma OnGoodPath(blocks: Blocks, tip: Hash, h: Hash, rules: Rules)
    requires TreeOk(blocks, rules.genesis) && tip in blocks && OnPath(blocks, rules.genesis, tip, h)
    requires ChainOk(Path(blocks, rules.genesis, tip), rules)
    ensures ChainOk(Path(blocks, rules.genesis, h), rules)
  {
    PrefixOk(Path(blocks, rules.genesis, tip), rules, blocks[h].height + 1);
  }

  /** The state at a block on the path is the replay of the path up to it. */
  lemma StateOnPath(blocks: Blocks, genesis: Hash, tip: Hash, h: Hash)
    requires TreeOk(blocks, genesis) && tip in blocks && OnPath(blocks, genesis, tip, h)
    ensures UtxosOf(Path(blocks, genesis, tip), blocks[h].height + 1) == StateAt(blocks, genesis, h)
    ensures Path(blocks, genesis, tip)[blocks[h].height] == blocks[h]
  {
    var p, q, n := Path(blocks, genesis, tip), Path(blocks, genesis, h), blocks[h].height + 1;
    assert forall i :: 0 <= i < n ==> p[i] == p[..n][i];
    ReplayLocal(p, q, n);
  }

  /** The replayed journal has, for each block on the path, what that block spent. */
  lemma JournalOnPath(blocks: Blocks, genesis: Hash, tip: Hash, h: Hash)
    requires TreeOk(blocks, genesis) && tip in blocks && OnPath(blocks, genesis, tip, h) && h != genesis
    ensures blocks[h].prev in blocks
    ensures var j := JournalOf(Path(blocks, genesis, tip), blocks[tip].height + 1);
      h in j && j[h] == BlockJournal(StateAt(blocks, genesis, blocks[h].prev), blocks[h])
  {
    var p, n := Path(blocks, genesis, tip), blocks[h].height;
    assert blocks[h].prev in blocks && 0 < n < |p| && blocks[h].hash == h && p[n] == blocks[h] &&
      UtxosOf(p, n) == StateAt(blocks, genesis, blocks[h].prev) by
    {
      assert BlockOk(blocks, genesis, h);
      ParentOnPath(blocks, genesis, tip, h);
      StateOnPath(blocks, genesis, tip, h);
      StateOnPath(blocks, genesis, tip, blocks[h].prev);
    }
    assert Linked(p, genesis) by {
      PathLinked(blocks, genesis, tip);
    }
    JournalHoldsEveryBlock(p, genesis, |p|, n);
  }
}
