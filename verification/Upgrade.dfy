/** The index migration of pkg/blockchain/upgrade.go: heights by breadth-first search, then the main chain. */
module Upgrade {
  import opened Wire

  datatype Context = Context(parent: Option<Hash>, children: seq<Hash>, height: int, mainChain: bool)

  type Contexts = map<Hash, Context>

  /** The children of `h` are distinct blocks whose parent is `h`, and `h` is a child of its own parent. */
  ghost predicate LinksOk(m: Contexts, h: Hash)
    requires h in m
  {
    (forall c :: c in m[h].children ==> c in m && m[c].parent == Some(h)) &&
    (forall i, j :: 0 <= i < j < |m[h].children| ==> m[h].children[i] != m[h].children[j]) &&
    (m[h].parent.Some? ==> m[h].parent.value in m && h in m[m[h].parent.value].children)
  }

  /** What reading the block rows yields: every block has one parent, and only the zero hash has none. */
  ghost predicate SingleParents(m: Contexts) {
    (forall h {:trigger LinksOk(m, h)} :: h in m ==> LinksOk(m, h)) && (ZERO_HASH in m ==> m[ZERO_HASH].parent.None?)
  }

  /** `h` is `d` blocks above a block whose parent is the zero hash. */
  predicate DepthIs(m: Contexts, h: Hash, d: nat)
    decreases d
  {
    h in m && m[h].parent.Some? &&
    if d == 0 then m[h].parent.value == ZERO_HASH else DepthIs(m, m[h].parent.value, d - 1)
  }

  /** No way down from `h` ends at the zero hash. */
  ghost predicate Unreachable(m: Contexts, h: Hash) {
    forall d: nat :: !DepthIs(m, h, d)
  }

  /** A block has at most one depth. */
  lemma {:induction false} OneDepth(m: Contexts, h: Hash, d: nat, e: nat)
    requires SingleParents(m) && DepthIs(m, h, d) && DepthIs(m, h, e)
    ensures d == e
    decreases d
  {
    if d > 0 && e > 0 {
      OneDepth(m, m[h].parent.value, d - 1, e - 1);
    }
  }

  /** `m` and `n` differ in heights and main-chain marks only. */
  ghost predicate SameLinks(m: Contexts, n: Contexts) {
    m.Keys == n.Keys && forall h :: h in m ==> SameAt(m, n, h)
  }

  predicate SameAt(m: Contexts, n: Contexts, h: Hash)
    requires h in m && h in n
  {
    m[h].parent == n[h].parent && m[h].children == n[h].children
  }

  /** The blocks done and the ones queued: their heights are their depths, all others are untouched. */
  ghost predicate Searched(start: Contexts, now: Contexts, done: set<Hash>, queue: seq<Hash>) {
    SameLinks(start, now) &&
    forall h :: h in start ==> SearchedAt(start, now, h, h in done || h in queue)
  }

  ghost predicate SearchedAt(start: Contexts, now: Contexts, h: Hash, met: bool)
    requires h in start && h in now
  {
    if met then now[h].height >= 0 && DepthIs(start, h, now[h].height) && now[h].mainChain == start[h].mainChain
    else now[h] == start[h]
  }

  /** The queued blocks are new, and the blocks met so far are the children of zero and of the blocks done. */
  ghost predicate Frontier(m: Contexts, done: set<Hash>, queue: seq<Hash>) {
    done <= m.Keys && ZERO_HASH in m && ZERO_HASH !in done && ZERO_HASH !in queue &&
    (forall i :: 0 <= i < |queue| ==> queue[i] in m && queue[i] !in done) &&
    (forall i, j :: 0 <= i < j < |queue| ==> queue[i] != queue[j]) &&
    forall h :: h in m ==> (h in done || h in queue <==> FromDone(m, done, h))
  }

  ghost predicate FromDone(m: Contexts, done: set<Hash>, h: Hash)
    requires h in m
  {
    m[h].parent.Some? && (m[h].parent.value == ZERO_HASH || m[h].parent.value in done)
  }

  /** The state while the first `k` children of `p` have been queued. */
  ghost predicate Partly(m: Contexts, done: set<Hash>, queue: seq<Hash>, p: Hash, k: nat) {
    p in m && k <= |m[p].children| && done <= m.Keys && ZERO_HASH in m && ZERO_HASH !in done && ZERO_HASH !in queue &&
    (forall i :: 0 <= i < |queue| ==> queue[i] in m && queue[i] !in done) &&
    (forall i, j :: 0 <= i < j < |queue| ==> queue[i] != queue[j]) &&
    forall h :: h in m ==>
      (h in done || h in queue <==> (FromDone(m, done, h) && m[h].parent != Some(p)) || h in m[p].children[..k])
  }

  lemma StartChildren(m: Contexts, done: set<Hash>, queue: seq<Hash>, p: Hash)
    requires SingleParents(m) && Frontier(m, done, queue) && |queue| > 0 && queue[0] == p
    ensures Partly(m, done + {p}, queue[1..], p, 0)
  {
    var d, q := done + {p}, queue[1..];
    assert queue == [p] + q;
    forall h | h in m
      ensures h in d || h in q <==> (FromDone(m, d, h) && m[h].parent != Some(p)) || h in m[p].children[..0]
    {
      assert h in done || h in queue <==> FromDone(m, done, h);
      assert p in queue;
    }
  }

  lemma OneMoreChild(m: Contexts, done: set<Hash>, queue: seq<Hash>, p: Hash, k: nat)
    requires SingleParents(m) && Partly(m, done, queue, p, k) && k < |m[p].children| && (p in done || p == ZERO_HASH)
    ensures var c := m[p].children[k];
      c in m && c !in done && c !in queue && m[c].parent == Some(p) && Partly(m, done, queue + [c], p, k + 1)
  {
    var c := m[p].children[k];
    assert LinksOk(m, p);
    assert c in m[p].children;
    forall i | 0 <= i < k ensures m[p].children[i] != c {
    }
    assert c !in m[p].children[..k];
    assert m[p].children[..k+1] == m[p].children[..k] + [c];
  }

  lemma AllChildren(m: Contexts, done: set<Hash>, queue: seq<Hash>, p: Hash)
    requires p in m && SingleParents(m) && Partly(m, done, queue, p, |m[p].children|) && (p in done || p == ZERO_HASH)
    ensures Frontier(m, done, queue)
  {
    assert m[p].children[..|m[p].children|] == m[p].children;
    forall h | h in m ensures h in done || h in queue <==> FromDone(m, done, h) {
      assert LinksOk(m, h) && LinksOk(m, p);
    }
  }

  /** One child gets its height. */
  lemma HeightSet(start: Contexts, now: Contexts, done: set<Hash>, queue: seq<Hash>, c: Hash, d: nat)
    requires Searched(start, now, done, queue) && c in now && DepthIs(start, c, d)
    ensures Searched(start, now[c := now[c].(height := d)], done, queue + [c])
  {
    var next := now[c := now[c].(height := d)];
    forall h | h in start ensures SameAt(start, next, h) {
      assert SameAt(start, now, h);
    }
  }

  /** What a searched map says of a block that was met, and of one that was not. */
  lemma Unmoved(start: Contexts, now: Contexts, done: set<Hash>, queue: seq<Hash>, h: Hash)
    requires Searched(start, now, done, queue) && h in start
    ensures h in now && now[h].parent == start[h].parent && now[h].children == start[h].children
  {
    assert SameAt(start, now, h);
  }

  lemma NothingSearched(start: Contexts)
    ensures Searched(start, start, {}, []) && SameLinks(start, start)
  {
  }

  /** Before genesis: nothing is done, and no child of zero has been queued. */
  lemma NothingQueued(m: Contexts)
    requires SingleParents(m) && ZERO_HASH in m
    ensures Partly(m, {}, [], ZERO_HASH, 0)
  {
    forall h | h in m ensures !(FromDone(m, {}, h) && m[h].parent != Some(ZERO_HASH)) && h !in m[ZERO_HASH].children[..0] {
    }
  }

  /** The first of the queue has its depth as height, and can be expanded. */
  lemma PopQueue(start: Contexts, now: Contexts, done: set<Hash>, queue: seq<Hash>)
    requires SingleParents(start) && Searched(start, now, done, queue) && Frontier(start, done, queue) && |queue| > 0
    ensures var h := queue[0];
      h in now && h in start && h !in done && h != ZERO_HASH && now[h].height >= 0 && DepthIs(start, h, now[h].height) &&
      Searched(start, now, done + {h}, queue[1..]) && Partly(start, done + {h}, queue[1..], h, 0)
  {
    StartChildren(start, done, queue, queue[0]);
    assert queue == [queue[0]] + queue[1..];
  }

  lemma Settled(start: Contexts, now: Contexts, done: set<Hash>, h: Hash, d: nat)
    requires SingleParents(start) && Searched(start, now, done, []) && h in done && DepthIs(start, h, d)
    ensures h in now && now[h].height == d
  {
    OneDepth(start, h, d, now[h].height);
  }

  lemma Others(start: Contexts, now: Contexts, done: set<Hash>)
    requires Searched(start, now, done, [])
    ensures SameLinks(start, now)
    ensures forall h :: h in start && Unreachable(start, h) ==> now[h] == start[h]
    ensures forall h :: h in start ==> now[h].mainChain == start[h].mainChain
  {
  }

  lemma FrontierDone(m: Contexts, done: set<Hash>, queue: seq<Hash>)
    requires Frontier(m, done, queue)
    ensures done <= m.Keys
  {
  }

  lemma {:induction false} NothingLeft(m: Contexts, done: set<Hash>, h: Hash, d: nat)
    requires Frontier(m, done, []) && DepthIs(m, h, d)
    ensures h in done
    decreases d
  {
    if d > 0 {
      NothingLeft(m, done, m[h].parent.value, d - 1);
    }
    assert FromDone(m, done, h);
  }

  class BlocksMap {
    var blocks: Contexts

    constructor (blocks: Contexts)
      ensures this.blocks == blocks
    {
      this.blocks := blocks;
    }

    /** Gives the children of `p` the height `height` and queues them. */
    method QueueChildren(p: Hash, height: nat, queue: seq<Hash>, ghost start: Contexts, ghost done: set<Hash>) returns (q: seq<Hash>)
      requires SingleParents(start) && Searched(start, blocks, done, queue) && Partly(start, done, queue, p, 0)
      requires p in start && (p in done || p == ZERO_HASH)
      requires if p == ZERO_HASH then height == 0 else height > 0 && DepthIs(start, p, height - 1)
      modifies this
      ensures Searched(start, blocks, done, q) && Frontier(start, done, q)
    {
      hide Searched, Partly, Frontier, SingleParents;
      q := queue;
      var k := 0;
      Unmoved(start, blocks, done, queue, p);
      var children := blocks[p].children;
      while k < |children|
        invariant 0 <= k <= |children| && children == start[p].children
        invariant Searched(start, blocks, done, q) && Partly(start, done, q, p, k)
      {
        var c := children[k];
        OneMoreChild(start, done, q, p, k);
        Unmoved(start, blocks, done, q, c);
        HeightSet(start, blocks, done, q, c, height);
        blocks := blocks[c := blocks[c].(height := height)];
        q := q + [c];
        k := k + 1;
      }
      AllChildren(start, done, q, p);
    }

    /**
     Every block with a path down to the zero hash gets its exact depth as height, every other block keeps
     the height it had; `false`, and nothing changes, when no block has the zero hash as its parent.
     */
    method DetermineBlockHeights() returns (ok: bool)
      requires SingleParents(blocks)
      modifies this
      ensures ok <==> ZERO_HASH in old(blocks) && |old(blocks)[ZERO_HASH].children| > 0
      ensures !ok ==> blocks == old(blocks)
      ensures SameLinks(old(blocks), blocks)
      ensures ok ==> forall h, d: nat :: DepthIs(old(blocks), h, d) ==> h in blocks && blocks[h].height == d
      ensures ok ==> forall h :: h in old(blocks) && Unreachable(old(blocks), h) ==> blocks[h] == old(blocks)[h]
      ensures ok ==> forall h :: h in old(blocks) ==> blocks[h].mainChain == old(blocks)[h].mainChain
    {
      hide Searched, Partly, Frontier, SingleParents;
      ghost var start := blocks;
      NothingSearched(start);
      if ZERO_HASH !in blocks || |blocks[ZERO_HASH].children| == 0 {
        return false;
      }
      ghost var done: set<Hash> := {};
      NothingQueued(start);
      var queue := QueueChildren(ZERO_HASH, 0, [], start, {});
      while |queue| > 0
        invariant Searched(start, blocks, done, queue) && Frontier(start, done, queue) && done <= start.Keys
        decreases |start.Keys - done|
      {
        var hash := queue[0];
        PopQueue(start, blocks, done, queue);
        var height := blocks[hash].height;
        done := done + {hash};
        queue := QueueChildren(hash, height + 1, queue[1..], start, done);
        FrontierDone(start, done, queue);
      }
      assert queue == [];
      forall h, d: nat | DepthIs(start, h, d) ensures h in blocks && blocks[h].height == d {
        NothingLeft(start, done, h, d);
        Settled(start, blocks, done, h, d);
      }
      Others(start, blocks, done);
      ok := true;
    }

    /**
     Marks the tip and the blocks below it, and no others, down to the zero hash.  `n` is the length of the way; when it
     ends anywhere else the next step dereferences nil, and the result is `false`.
     */
    method DetermineMainChainBlocks(tip: Hash, ghost n: nat) returns (ok: bool)
      requires EndsAfter(blocks, tip, n)
      modifies this
      ensures ok <==> Down(old(blocks), tip, n) == ZERO_HASH
      ensures SameLinks(old(blocks), blocks)
      ensures forall h :: h in old(blocks) ==> blocks[h].height == old(blocks)[h].height
      ensures forall h :: h in old(blocks) ==>
        (blocks[h].mainChain <==> old(blocks)[h].mainChain || Among(old(blocks), tip, if ok then n else n + 1, h))
    {
      ghost var start := blocks;
      ghost var i: nat := 0;
      var nextHash := tip;
      NoneWalked(start, tip);
      while nextHash != ZERO_HASH
        invariant i <= n && nextHash == Down(start, tip, i) && SameLinks(start, blocks)
        invariant forall h :: h in start ==> blocks[h].height == start[h].height
        invariant forall h :: h in start ==> (blocks[h].mainChain <==> start[h].mainChain || Among(start, tip, i, h))
        decreases n - i
      {
        assert i < n ==> GoesOn(start, Down(start, tip, i));
        if nextHash !in blocks {
          OnlyNew(start, tip, i);
          return false;
        }
        assert SameAt(start, blocks, nextHash);
        ghost var was := blocks;
        blocks := blocks[nextHash := blocks[nextHash].(mainChain := true)];
        MarkOne(start, was, blocks, tip, i);
        if blocks[nextHash].parent.None? {
          return false;
        }
        OneFurther(start, tip, i);
        nextHash := blocks[nextHash].parent.value;
        i := i + 1;
      }
      assert i < n ==> GoesOn(start, Down(start, tip, i));
      ok := true;
    }
  }

  /** The block `i` steps below `h`. */
  function Down(m: Contexts, h: Hash, i: nat): Hash
    decreases i
  {
    if i == 0 then h else if h in m && m[h].parent.Some? then Down(m, m[h].parent.value, i - 1) else ZERO_HASH
  }

  /** `h` is one of the first `n` blocks from the tip down. */
  ghost predicate Among(m: Contexts, tip: Hash, n: nat, h: Hash) {
    exists i :: 0 <= i < n && Down(m, tip, i) == h
  }

  /** The walk goes on below `h`. */
  predicate GoesOn(m: Contexts, h: Hash) {
    h != ZERO_HASH && h in m && m[h].parent.Some?
  }

  /** The walk down from `tip` ends after `n` steps. */
  ghost predicate EndsAfter(m: Contexts, tip: Hash, n: nat) {
    (forall i :: 0 <= i < n ==> GoesOn(m, Down(m, tip, i))) && !GoesOn(m, Down(m, tip, n))
  }

  lemma {:induction false} OneFurther(m: Contexts, h: Hash, i: nat)
    requires GoesOn(m, Down(m, h, i))
    ensures Down(m, h, i + 1) == m[Down(m, h, i)].parent.value
    decreases i
  {
    if i > 0 && h in m && m[h].parent.Some? {
      OneFurther(m, m[h].parent.value, i - 1);
    } else {
      assert Down(m, m[h].parent.value, 0) == m[h].parent.value;
    }
  }

  /** A tip with a depth is on a way that ends at the zero hash, one step below the block at depth zero. */
  lemma {:induction false} DepthEnds(m: Contexts, tip: Hash, d: nat)
    requires SingleParents(m) && DepthIs(m, tip, d)
    ensures EndsAfter(m, tip, d + 1) && Down(m, tip, d + 1) == ZERO_HASH
    decreases d
  {
    assert LinksOk(m, tip) && GoesOn(m, tip);
    var p := m[tip].parent.value;
    assert forall i: nat :: i > 0 ==> Down(m, tip, i) == Down(m, p, i - 1);
    if d > 0 {
      DepthEnds(m, p, d - 1);
      forall i | 0 <= i < d + 1 ensures GoesOn(m, Down(m, tip, i)) {
        assert i > 0 ==> GoesOn(m, Down(m, p, i - 1));
      }
    } else {
      assert Down(m, p, 0) == p == ZERO_HASH;
    }
  }

  lemma OnlyNew(m: Contexts, tip: Hash, i: nat)
    requires Down(m, tip, i) !in m
    ensures forall h :: h in m ==> (Among(m, tip, i + 1, h) <==> Among(m, tip, i, h))
  {
    forall h | h in m ensures Among(m, tip, i + 1, h) <==> Among(m, tip, i, h) {
      if Among(m, tip, i + 1, h) {
        var k :| 0 <= k < i + 1 && Down(m, tip, k) == h;
        assert k < i;
      }
      if Among(m, tip, i, h) {
        var k :| 0 <= k < i && Down(m, tip, k) == h;
        assert 0 <= k < i + 1;
      }
    }
  }

  lemma NoneWalked(m: Contexts, tip: Hash)
    ensures forall h :: !Among(m, tip, 0, h)
  {
  }

  lemma MarkOne(start: Contexts, was: Contexts, now: Contexts, tip: Hash, n: nat)
    requires SameLinks(start, was) && Down(start, tip, n) in was
    requires now == was[Down(start, tip, n) := was[Down(start, tip, n)].(mainChain := true)]
    requires forall h :: h in start ==> (was[h].mainChain <==> start[h].mainChain || Among(start, tip, n, h))
    ensures SameLinks(start, now)
    ensures forall h :: h in start ==> (now[h].mainChain <==> start[h].mainChain || Among(start, tip, n + 1, h))
  {
    var g := Down(start, tip, n);
    forall h | h in start ensures SameAt(start, now, h) {
      assert SameAt(start, was, h);
    }
    forall h | h in start ensures Among(start, tip, n + 1, h) <==> Among(start, tip, n, h) || h == g {
      if Among(start, tip, n, h) {
        var i :| 0 <= i < n && Down(start, tip, i) == h;
      }
      assert h == g ==> 0 <= n < n + 1 && Down(start, tip, n) == h;
    }
  }
}
