/**
 The two forms of the block tree: nodes with parent pointers, which the chain view of chainview.go works on, and
 the map of stored blocks, which the chain state is about.  A view whose tip is the best block shows exactly the
 best chain, and its fork point is the one the reorganisation works with.
 */
module NodeIndex {
  import opened Wire
  import opened BlockTree
  import opened BlockChain
  import opened ChainView

  type Nodes = map<Hash, BlockNode>

  /** The node of a block has its hash and height, and points to the node of the block's parent. */
  predicate NodeFits(nodes: Nodes, blocks: Blocks, genesis: Hash, h: Hash)
    requires h in blocks && h in nodes
  {
    nodes[h].hash == h && nodes[h].height == blocks[h].height && blocks[h].height < 0x8000_0000 &&
    if h == genesis then nodes[h].parent == null
    else blocks[h].prev in nodes && nodes[h].parent == nodes[blocks[h].prev]
  }

  ghost predicate Represents(nodes: Nodes, blocks: Blocks, genesis: Hash) {
    TreeOk(blocks, genesis) && nodes.Keys == blocks.Keys &&
    forall h {:trigger NodeFits(nodes, blocks, genesis, h)} :: h in blocks ==> NodeFits(nodes, blocks, genesis, h)
  }

  lemma {:induction false} FitIsOk(nodes: Nodes, blocks: Blocks, genesis: Hash, h: Hash)
    requires Represents(nodes, blocks, genesis) && h in blocks
    ensures NodeOk(nodes[h])
    decreases blocks[h].height
  {
    assert NodeFits(nodes, blocks, genesis, h) && BlockOk(blocks, genesis, h);
    if h != genesis {
      FitIsOk(nodes, blocks, genesis, blocks[h].prev);
      assert NodeFits(nodes, blocks, genesis, blocks[h].prev);
    }
  }

  /** Walking the parent pointers goes through the blocks of the path. */
  lemma {:induction false} AncestorOnPath(nodes: Nodes, blocks: Blocks, genesis: Hash, h: Hash, i: nat)
    requires Represents(nodes, blocks, genesis) && h in blocks && i <= blocks[h].height
    ensures NodeOk(nodes[h]) && Path(blocks, genesis, h)[i].hash in nodes
    ensures AncestorAt(nodes[h], i) == nodes[Path(blocks, genesis, h)[i].hash]
    decreases blocks[h].height
  {
    FitIsOk(nodes, blocks, genesis, h);
    assert NodeFits(nodes, blocks, genesis, h) && BlockOk(blocks, genesis, h);
    if i < blocks[h].height {
      AncestorOnPath(nodes, blocks, genesis, blocks[h].prev, i);
    }
  }

  /** `best` lists the blocks on the path to the tip, as in every valid chain state. */
  ghost predicate BestIs(blocks: Blocks, genesis: Hash, tip: Hash, best: seq<Hash>)
    requires TreeOk(blocks, genesis) && tip in blocks
  {
    |best| == |Path(blocks, genesis, tip)| && forall i :: 0 <= i < |best| ==> best[i] == Path(blocks, genesis, tip)[i].hash
  }

  lemma ChainListsBest(chain: BlockChain)
    requires chain.Valid()
    ensures chain.Tip() in chain.blocks && TreeOk(chain.blocks, chain.rules.genesis)
    ensures BestIs(chain.blocks, chain.rules.genesis, chain.Tip(), chain.best)
  {
  }

  /** Two nodes of the index are the same exactly when their hashes are. */
  lemma SameNode(nodes: Nodes, blocks: Blocks, genesis: Hash, g: Hash, h: Hash)
    requires Represents(nodes, blocks, genesis) && g in blocks && h in blocks
    ensures nodes[g] == nodes[h] <==> g == h
  {
    assert NodeFits(nodes, blocks, genesis, g) && NodeFits(nodes, blocks, genesis, h);
  }

  /** A view with the best block as its tip holds the best chain slot by slot. */
  lemma SlotsAreBest(view: View, nodes: Nodes, blocks: Blocks, genesis: Hash, tip: Hash, best: seq<Hash>)
    requires view.Valid() && Represents(nodes, blocks, genesis) && tip in blocks && BestIs(blocks, genesis, tip, best)
    requires view.TipOf() == nodes[tip]
    ensures view.len == |best|
    ensures forall i :: 0 <= i < |best| ==> best[i] in nodes && view.backing[i] == nodes[best[i]]
  {
    assert NodeFits(nodes, blocks, genesis, tip);
    forall i | 0 <= i < |best| ensures best[i] in nodes && view.backing[i] == nodes[best[i]] {
      AncestorOnPath(nodes, blocks, genesis, tip, i);
      assert view.SlotOk(nodes[tip], i);
    }
  }

  /** In every valid chain state, a view whose tip is the best block shows the best chain held in memory. */
  lemma ChainIsShown(chain: BlockChain, view: View, nodes: Nodes)
    requires chain.Valid() && view.Valid() && Represents(nodes, chain.blocks, chain.rules.genesis)
    requires chain.Tip() in nodes && view.TipOf() == nodes[chain.Tip()]
    ensures view.len == |chain.best|
    ensures forall i :: 0 <= i < |chain.best| ==> chain.best[i] in nodes && view.backing[i] == nodes[chain.best[i]]
  {
    ChainListsBest(chain);
    SlotsAreBest(view, nodes, chain.blocks, chain.rules.genesis, chain.Tip(), chain.best);
  }

  /** The view shows a node exactly when the chain state has its block on the best chain. */
  lemma ShowsIsOnBest(view: View, nodes: Nodes, blocks: Blocks, genesis: Hash, tip: Hash, best: seq<Hash>, h: Hash)
    requires view.Valid() && Represents(nodes, blocks, genesis) && tip in blocks && BestIs(blocks, genesis, tip, best)
    requires view.TipOf() == nodes[tip] && h in blocks
    ensures view.Shows(nodes[h]) <==> OnBest(blocks, best, h)
  {
    assert NodeFits(nodes, blocks, genesis, h) && BlockOk(blocks, genesis, h) && NodeFits(nodes, blocks, genesis, tip);
    var i := blocks[h].height;
    if i < |best| {
      AncestorOnPath(nodes, blocks, genesis, tip, i);
      SameNode(nodes, blocks, genesis, best[i], h);
    }
  }

  /** The fork point of the chain state is the last block on the way to `h` that is on the best chain. */
  lemma {:induction false} ForkIsHighest(nodes: Nodes, blocks: Blocks, genesis: Hash, best: seq<Hash>, h: Hash)
    requires Represents(nodes, blocks, genesis) && h in blocks
    ensures var f := ForkOf(blocks, best, genesis, h);
      NodeOk(nodes[h]) && IsAncestor(nodes[f], nodes[h]) && nodes[f].height <= nodes[h].height
    ensures forall i :: nodes[ForkOf(blocks, best, genesis, h)].height < i <= nodes[h].height ==> NotBestAt(nodes, blocks, genesis, best, h, i)
    decreases blocks[h].height
  {
    FitIsOk(nodes, blocks, genesis, h);
    assert NodeFits(nodes, blocks, genesis, h) && BlockOk(blocks, genesis, h);
    if !(OnBest(blocks, best, h) || h == genesis) {
      var p := blocks[h].prev;
      ForkIsHighest(nodes, blocks, genesis, best, p);
      assert NodeFits(nodes, blocks, genesis, p);
      forall i | nodes[ForkOf(blocks, best, genesis, h)].height < i <= nodes[h].height
        ensures NotBestAt(nodes, blocks, genesis, best, h, i)
      {
        if i < nodes[h].height {
          assert NotBestAt(nodes, blocks, genesis, best, p, i);
        }
      }
    }
  }

  /** The ancestor at height `i` is the node of a block off the best chain. */
  ghost predicate NotBestAt(nodes: Nodes, blocks: Blocks, genesis: Hash, best: seq<Hash>, h: Hash, i: int)
    requires h in nodes && NodeOk(nodes[h])
  {
    exists g :: g in blocks && g in nodes && nodes[g] == AncestorAt(nodes[h], i) && !OnBest(blocks, best, g)
  }

  /** The fork point found by the view is the fork point of the chain state. */
  method FindForkAgrees(view: View, nodes: Nodes, ghost blocks: Blocks, ghost genesis: Hash, ghost tip: Hash, ghost best: seq<Hash>, h: Hash)
      returns (fork: BlockNode?)
    requires view.Valid() && Represents(nodes, blocks, genesis) && tip in blocks && BestIs(blocks, genesis, tip, best)
    requires view.TipOf() == nodes[tip] && h in blocks && OnBest(blocks, best, genesis)
    ensures fork == nodes[ForkOf(blocks, best, genesis, h)]
  {
    FitIsOk(nodes, blocks, genesis, h);
    fork := view.FindFork(nodes[h]);
    ghost var f := ForkOf(blocks, best, genesis, h);
    ForkIsHighest(nodes, blocks, genesis, best, h);
    ShowsIsOnBest(view, nodes, blocks, genesis, tip, best, f);
    assert AncestorAt(nodes[h], nodes[f].height) == nodes[f];
    if nodes[f].height < fork.height {
      assert NotBestAt(nodes, blocks, genesis, best, h, fork.height);
      var g :| g in blocks && g in nodes && nodes[g] == AncestorAt(nodes[h], fork.height) && !OnBest(blocks, best, g);
      ShowsIsOnBest(view, nodes, blocks, genesis, tip, best, g);
    }
  }
}
