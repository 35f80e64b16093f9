/** The flat view of one branch of the block tree, of pkg/blockchain/chainview.go and blockindex.go. */
module ChainView {
  import opened Wire
  import opened Radix
  import opened Logarithm

  /** A node of the block tree; the fields used here never change once the node is made. */
  class BlockNode {
    const parent: BlockNode?
    const height: int
    const hash: Hash
    const version: int
    const bits: nat
    const timestamp: int

    constructor (parent: BlockNode?, hash: Hash, version: int, bits: nat, timestamp: int)
      ensures this.parent == parent && this.hash == hash && height == if parent == null then 0 else parent.height + 1
      ensures this.version == version && this.bits == bits && this.timestamp == timestamp
    {
      this.parent := parent;
      this.hash := hash;
      this.version := version;
      this.bits := bits;
      this.timestamp := timestamp;
      height := if parent == null then 0 else parent.height + 1;
    }

    /** The ancestor at a height, by walking the parents; nil when the height is out of range. */
    method Ancestor(h: int) returns (n: BlockNode?)
      requires NodeOk(this)
      ensures n == AncestorAt(this, h)
    {
      if h < 0 || h > height {
        return null;
      }
      n := this;
      while n != null && n.height != h
        invariant n != null && NodeOk(n) && h <= n.height && AncestorAt(n, h) == AncestorAt(this, h)
        decreases if n == null then 0 else n.height
      {
        n := n.parent;
      }
    }

    method RelativeAncestor(distance: int) returns (n: BlockNode?)
      requires NodeOk(this)
      ensures n == AncestorAt(this, height - distance)
    {
      n := Ancestor(height - distance);
    }
  }

  /** Heights count down to a genesis node that has no parent. */
  predicate OkAt(n: BlockNode, h: nat)
    decreases h
  {
    n.height == h && (h == 0 <==> n.parent == null) && (n.parent != null ==> n.parent.height == h - 1 && OkAt(n.parent, h - 1))
  }

  predicate NodeOk(n: BlockNode) {
    0 <= n.height < 0x8000_0000 && OkAt(n, n.height)
  }

  function AncestorAt(n: BlockNode, h: int): (a: BlockNode?)
    requires NodeOk(n)
    ensures a != null <==> 0 <= h <= n.height
    ensures a != null ==> a.height == h && NodeOk(a)
    decreases n.height
  {
    if h < 0 || h > n.height then null else if n.height == h then n else AncestorAt(n.parent, h)
  }

  /** An ancestor's ancestor is the node's own ancestor at that height. */
  lemma {:induction false} AncestorOfAncestor(n: BlockNode, h: int, k: int)
    requires NodeOk(n) && 0 <= k <= h <= n.height
    ensures AncestorAt(AncestorAt(n, h), k) == AncestorAt(n, k)
    decreases n.height
  {
    if n.height > h {
      AncestorOfAncestor(n.parent, h, k);
    }
  }

  /** `a` is `n` or one of the nodes below it. */
  predicate IsAncestor(a: BlockNode, n: BlockNode)
    requires NodeOk(n)
  {
    AncestorAt(n, a.height) == a
  }

  const APPROX_NODES_PER_WEEK := 7 * 24 * 60 * 60 / 12

  class View {
    var backing: array<BlockNode?>
    var len: nat

    /** Slot `h` holds the tip's ancestor at height `h`. */
    ghost predicate SlotOk(tip: BlockNode, h: int)
      requires NodeOk(tip)
      reads this, backing
    {
      0 <= h < backing.Length && backing[h] == AncestorAt(tip, h)
    }

    ghost predicate Valid()
      reads this, backing
    {
      len <= backing.Length && (len > 0 ==> backing[len-1] != null && HoldsBranch(backing[len-1]))
    }

    ghost predicate HoldsBranch(tip: BlockNode)
      reads this, backing
    {
      NodeOk(tip) && tip.height == len - 1 && forall h :: 0 <= h < len ==> SlotOk(tip, h)
    }

    /** The tip, or nil while the view is not initialised. */
    ghost function TipOf(): (t: BlockNode?)
      requires Valid()
      reads this, backing
      ensures t != null <==> len > 0
      ensures t != null ==> NodeOk(t) && t.height == len - 1
    {
      if len == 0 then null else backing[len-1]
    }

    /** The node is on the branch the view shows. */
    ghost predicate Shows(node: BlockNode)
      requires Valid()
      reads this, backing
    {
      TipOf() != null && IsAncestor(node, TipOf())
    }

    constructor (tip: BlockNode?)
      requires tip != null ==> NodeOk(tip)
      ensures Valid() && TipOf() == tip && fresh(backing)
    {
      backing := new BlockNode?[0];
      len := 0;
      new;
      SetTip(tip);
    }

    method Tip() returns (t: BlockNode?)
      requires Valid()
      ensures t == TipOf()
    {
      if len == 0 {
        return null;
      }
      t := backing[len-1];
    }

    method Height() returns (h: int)
      requires Valid()
      ensures h == if TipOf() == null then -1 else TipOf().height
    {
      h := len - 1;
    }

    /** Resizes to the given length, keeping what was there and clearing what is new. */
    method Resize(needed: nat)
      requires Valid()
      modifies this, backing
      ensures len == needed <= backing.Length && (backing == old(backing) || fresh(backing))
      ensures forall h :: 0 <= h < needed ==> backing[h] == if h < old(len) then old(backing[h]) else null
    {
      if backing.Length < needed {
        var nodes := new BlockNode?[needed+APPROX_NODES_PER_WEEK](_ => null);
        var i := 0;
        while i < len
          invariant 0 <= i <= len && backing == old(backing) && fresh(nodes)
          invariant len == old(len) && forall h :: 0 <= h < len ==> backing[h] == old(backing[h])
          invariant forall h :: 0 <= h < needed ==> nodes[h] == if h < i then backing[h] else null
        {
          nodes[i] := backing[i];
          i := i + 1;
        }
        backing, len := nodes, needed;
      } else {
        var prevLen := len;
        len := needed;
        var i := prevLen;
        while i < needed
          invariant prevLen <= i && (i <= needed || i == prevLen) && len == needed && backing == old(backing)
          invariant forall h :: 0 <= h < needed && h < i ==> backing[h] == if h < prevLen then old(backing[h]) else null
        {
          backing[i] := null;
          i := i + 1;
        }
      }
    }

    /**
     Makes `node` the tip.  The walk stops at the first slot that already holds the right node, whatever the
     slots below hold is then right too; stale slots beyond the old length never survive.
     */
    method SetTip(node: BlockNode?)
      requires Valid() && (node != null ==> NodeOk(node))
      modifies this, backing
      ensures Valid() && TipOf() == node && (backing == old(backing) || fresh(backing))
    {
      if node == null {
        len := 0;
        return;
      }
      ghost var oldTip := TipOf();
      var prevLen := len;
      ghost var was := backing[..];
      forall h | 0 <= h < prevLen ensures was[h] == AncestorAt(oldTip, h) {
        assert SlotOk(oldTip, h);
      }
      Resize(node.height + 1);
      var n: BlockNode := node;
      while backing[n.height] != n
        invariant NodeOk(n) && n == AncestorAt(node, n.height) && n.height <= node.height
        invariant len == node.height + 1 <= backing.Length && (backing == old(backing) || fresh(backing))
        invariant forall h :: n.height < h <= node.height ==> backing[h] == AncestorAt(node, h)
        invariant forall h :: 0 <= h <= n.height ==> backing[h] == if h < prevLen then was[h] else null
        decreases n.height
      {
        backing[n.height] := n;
        if n.parent == null {
          break;
        }
        AncestorOfAncestor(node, n.height, n.height - 1);
        n := n.parent;
      }
      forall h | 0 <= h < len ensures backing[h] == AncestorAt(node, h) {
        if h < n.height {
          assert backing[h] == was[h];
          AncestorOfAncestor(node, n.height, h);
          AncestorOfAncestor(oldTip, n.height, h);
        }
      }
      forall h | 0 <= h < len ensures SlotOk(node, h) {
      }
    }

    method NodeByHeight(h: int) returns (n: BlockNode?)
      requires Valid()
      ensures n == if TipOf() == null then null else AncestorAt(TipOf(), h)
    {
      if h < 0 || h >= len {
        return null;
      }
      assert SlotOk(TipOf(), h);
      n := backing[h];
    }

    /** Whether the view contains a node: it is the tip or an ancestor of the tip. */
    method Contains(node: BlockNode) returns (r: bool)
      requires Valid() && NodeOk(node)
      ensures r <==> Shows(node)
    {
      var n := NodeByHeight(node.height);
      r := n == node;
    }

    /** Two views are the same when they have the same tip, and then they show the same nodes. */
    method Equals(other: View) returns (r: bool)
      requires Valid() && other.Valid()
      ensures r <==> TipOf() == other.TipOf()
      ensures r ==> len == other.len && forall h :: 0 <= h < len ==> backing[h] == other.backing[h]
    {
      var t1 := Tip();
      var t2 := other.Tip();
      r := len == other.len && t1 == t2;
      if r && t1 != null {
        forall h | 0 <= h < len ensures backing[h] == other.backing[h] {
          assert SlotOk(t1, h) && other.SlotOk(t1, h);
        }
      }
    }

    /** The node after the given one on the branch; nil for the tip and for nodes that are not on it. */
    method Next(node: BlockNode?) returns (n: BlockNode?)
      requires Valid() && (node != null ==> NodeOk(node))
      ensures n != null <==> node != null && Shows(node) && node != TipOf()
      ensures n != null ==> NodeOk(n) && Shows(n) && n.parent == node && n.height == node.height + 1
    {
      if node == null {
        return null;
      }
      var c := Contains(node);
      if !c {
        return null;
      }
      n := NodeByHeight(node.height + 1);
      if n != null {
        AncestorOfAncestor(TipOf(), n.height, node.height);
        assert n.parent == AncestorAt(n, node.height);
      }
    }

    /** The highest common ancestor of a node and the view; nil exactly when they have none. */
    method FindFork(node: BlockNode?) returns (fork: BlockNode?)
      requires Valid() && (node != null ==> NodeOk(node))
      ensures fork != null ==> node != null && NodeOk(fork) && Shows(fork) && IsAncestor(fork, node)
      ensures node != null ==> forall h :: 0 <= h <= node.height && Shows(AncestorAt(node, h)) ==> fork != null && h <= fork.height
    {
      if node == null {
        return null;
      }
      fork := node;
      var chainHeight := Height();
      if node.height > chainHeight {
        fork := node.Ancestor(chainHeight);
      }
      while fork != null
        invariant fork != null ==> NodeOk(fork) && IsAncestor(fork, node)
        invariant forall h :: 0 <= h <= node.height && Shows(AncestorAt(node, h)) ==> fork != null && h <= fork.height
        decreases if fork == null then -1 else fork.height
      {
        var c := Contains(fork);
        if c {
          break;
        }
        if fork.parent != null {
          AncestorOfAncestor(node, fork.height, fork.height - 1);
        }
        fork := fork.parent;
      }
    }

    /** The node's ancestor at a height: looked up when the view contains the node, walked to otherwise. */
    method Lower(node: BlockNode, height: int) returns (a: BlockNode?)
      requires Valid() && NodeOk(node) && height <= node.height
      ensures a == AncestorAt(node, height)
    {
      var c := Contains(node);
      if c {
        if height >= 0 {
          AncestorOfAncestor(TipOf(), node.height, height);
        }
        a := NodeByHeight(height);
      } else {
        a := node.Ancestor(height);
      }
    }

    /**
     The hashes a block locator lists: of the node (or of the tip) and of the ancestors at the heights
     LocatorHeights gives, whether the ancestors are looked up in the view or walked to.
     */
    method BlockLocator(node: BlockNode?) returns (locator: seq<Hash>)
      requires Valid() && (node != null ==> NodeOk(node))
      ensures node == null && TipOf() == null ==> locator == []
      ensures node != null || TipOf() != null ==>
        ListsAncestors(if node == null then TipOf() else node, locator, LocatorHeights((if node == null then TipOf() else node).height, 0, 1))
    {
      var n := node;
      if n == null {
        n := Tip();
      }
      if n == null {
        return [];
      }
      var maxEntries := n.height + 1;
      if n.height > 12 {
        var log := FastLog2Floor(n.height - 10);
        maxEntries := 12 + log;
      }
      LocatorLength(n.height);
      locator := ListLocator(n);
      assert |locator| == maxEntries;
    }

    /** The loop: lists the node, then goes down by the current distance until genesis is listed. */
    method ListLocator(start: BlockNode) returns (locator: seq<Hash>)
      requires Valid() && NodeOk(start)
      ensures ListsAncestors(start, locator, LocatorHeights(start.height, 0, 1))
    {
      hide LocatorHeights, ListsAncestors, OkAt, Valid, AncestorAt;
      ghost var all := LocatorHeights(start.height, 0, 1);
      locator := [];
      var n: BlockNode, step := start, 1;
      ghost var done: seq<nat> := [];
      ListsNothing(start);
      SelfAncestor(start);
      while true
        invariant step > 0 && |locator| == |done| && ListsAncestors(start, locator, done)
        invariant NodeOk(n) && IsAncestor(n, start) && all == done + LocatorHeights(n.height, |locator|, step)
        decreases n.height
      {
        HeightsStep(n.height, |locator|, step);
        ListsOneMore(start, locator, done, n);
        locator := locator + [n.hash];
        if n.height == 0 {
          return;
        }
        var height := n.height - step;
        if height < 0 {
          height := 0;
        }
        Regroup(done, n.height, LocatorHeights(height, |locator|, if |locator| > 10 then step * 2 else step));
        done := done + [n.height];
        AncestorOfAncestor(start, n.height, height);
        n := Lower(n, height);
        if |locator| > 10 {
          step := step * 2;
        }
      }
    }

    /**
     The hashes of the ancestors of a known valid block whose height is a positive multiple of the interval, in
     order.  `valid` is what the index says of a node's status.
     */
    method IntervalBlockHashes(index: map<Hash, BlockNode>, valid: Hash -> bool, endHash: Hash, interval: int)
        returns (r: Result<seq<Hash>, IntervalError>)
      requires Valid() && IndexOk(index) && interval > 0
      ensures r == Err(NoHeader) <==> endHash !in index
      ensures r == Err(NotValidated) <==> endHash in index && !valid(endHash)
      ensures r.Ok? ==> endHash in index && EntryOk(index, endHash) && |r.value| == index[endHash].height / interval
      ensures r.Ok? ==> forall i :: 0 <= i < |r.value| ==> IntervalAt(index[endHash], interval, r.value, i)
    {
      if endHash !in index {
        return Err(NoHeader);
      }
      if !valid(endHash) {
        return Err(NotValidated);
      }
      assert EntryOk(index, endHash);
      var hashes := IntervalHashes(index[endHash], interval);
      r := Ok(hashes);
    }

    method IntervalHashes(endNode: BlockNode, interval: int) returns (hashes: seq<Hash>)
      requires Valid() && NodeOk(endNode) && interval > 0
      ensures |hashes| == endNode.height / interval
      ensures forall i :: 0 <= i < |hashes| ==> IntervalAt(endNode, interval, hashes, i)
    {
      hide Times, IntervalAt;
      var count := endNode.height / interval;
      var slots := new Hash[count](_ => 0);
      var node: BlockNode := endNode;
      var index: nat := count;
      SelfAncestor(endNode);
      TimesBelow(endNode.height, interval);
      while index > 0
        invariant 0 <= index <= count && NodeOk(node) && IsAncestor(node, endNode) && Times(index, interval) <= node.height
        invariant fresh(slots) && Valid()
        invariant forall i :: index <= i < count ==> IntervalAt(endNode, interval, slots[..], i)
      {
        ghost var was := slots[..];
        var blockHeight := Times(index, interval);
        TimesStep(index, interval);
        AncestorOfAncestor(endNode, node.height, blockHeight);
        node := Lower(node, blockHeight);
        slots[index-1] := node.hash;
        OneMoreInterval(endNode, interval, was, slots[..], index, node);
        index := index - 1;
      }
      hashes := slots[..];
    }

    /** Entry `k` of a locator is a known block of the branch. */
    ghost predicate KnownAt(index: map<Hash, BlockNode>, locator: seq<Hash>, k: nat)
      requires Valid() && k < |locator| && IndexOk(index)
      reads this, backing
    {
      locator[k] in index && EntryOk(index, locator[k]) && Shows(index[locator[k]])
    }

    /** Entry `k` is the first known one; `k` is the length when none is known. */
    ghost predicate FirstKnown(index: map<Hash, BlockNode>, locator: seq<Hash>, k: nat)
      requires Valid() && IndexOk(index)
      reads this, backing
    {
      k <= |locator| && (forall j :: 0 <= j < k ==> !KnownAt(index, locator, j)) && (k < |locator| ==> KnownAt(index, locator, k))
    }

    /** The last node to send: the stop node when it is on the branch from the start on, otherwise the tip. */
    ghost function StopHeight(index: map<Hash, BlockNode>, start: BlockNode, hashStop: Hash): int
      requires Valid() && TipOf() != null && IndexOk(index)
      reads this, backing
    {
      if hashStop in index && Shows(index[hashStop]) && index[hashStop].height >= start.height then index[hashStop].height
      else TipOf().height
    }

    /** The stop block counts when it is on the branch and not below the start. */
    lemma StopMeans(index: map<Hash, BlockNode>, start: BlockNode, hashStop: Hash)
      requires Valid() && TipOf() != null && IndexOk(index)
      ensures hashStop in index && index[hashStop].height >= start.height && AncestorAt(TipOf(), index[hashStop].height) == index[hashStop] ==>
        StopHeight(index, start, hashStop) == index[hashStop].height
      ensures hashStop !in index || index[hashStop].height < start.height || AncestorAt(TipOf(), index[hashStop].height) != index[hashStop] ==>
        StopHeight(index, start, hashStop) == TipOf().height
    {
      assert hashStop in index ==> EntryOk(index, hashStop);
    }

    /** The node of the first known locator entry, or genesis. */
    method FindKnown(index: map<Hash, BlockNode>, locator: seq<Hash>) returns (base: BlockNode?, ghost k: nat)
      requires Valid() && IndexOk(index)
      ensures FirstKnown(index, locator, k)
      ensures base == if k < |locator| then index[locator[k]] else if TipOf() == null then null else AncestorAt(TipOf(), 0)
    {
      base := NodeByHeight(0);
      var i := 0;
      while i < |locator|
        invariant 0 <= i <= |locator| && forall j :: 0 <= j < i ==> !KnownAt(index, locator, j)
      {
        if locator[i] in index {
          var node: BlockNode := index[locator[i]];
          assert EntryOk(index, locator[i]);
          var c := Contains(node);
          if c {
            return node, i;
          }
        }
        i := i + 1;
      }
      k := i;
    }

    /**
     The first node to send and how many.  Without a locator that is the stop block alone.  Otherwise it is the
     node after the first locator entry on the branch, or after genesis when no entry is on it.
     */
    method LocateInventory(index: map<Hash, BlockNode>, locator: seq<Hash>, hashStop: Hash, maxEntries: nat)
        returns (start: BlockNode?, total: nat, ghost k: nat)
      requires Valid() && IndexOk(index)
      ensures locator == [] ==> if hashStop in index then start == index[hashStop] && total == 1 else start == null && total == 0
      ensures locator != [] ==> FirstKnown(index, locator, k)
      ensures locator != [] && TipOf() != null ==>
        start == AncestorAt(TipOf(), 1 + if k < |locator| then index[locator[k]].height else 0)
      ensures locator != [] && TipOf() != null ==>
        (start == null <==> TipOf().height < 1 + if k < |locator| then index[locator[k]].height else 0)
      ensures locator != [] && start == null ==> total == 0
      ensures locator != [] && start != null ==> TipOf() != null && Shows(start) && start.height > 0
      ensures locator != [] && start != null ==> total == Min(StopHeight(index, start, hashStop) - start.height + 1, maxEntries)
    {
      k := 0;
      if |locator| == 0 {
        if hashStop !in index {
          return null, 0, 0;
        }
        return index[hashStop], 1, 0;
      }
      var base;
      base, k := FindKnown(index, locator);
      start := Next(base);
      if start == null {
        return null, 0, k;
      }
      var tip := Tip();
      var count := tip.height - start.height + 1;
      if hashStop in index {
        var c := Contains(index[hashStop]);
        if c && index[hashStop].height >= start.height {
          count := index[hashStop].height - start.height + 1;
        }
      }
      total := if count > maxEntries then maxEntries else count;
    }

    /** The hashes of consecutive nodes of the branch, from the located one on. */
    method LocateBlocks(index: map<Hash, BlockNode>, locator: seq<Hash>, hashStop: Hash, maxHashes: nat)
        returns (hashes: seq<Hash>, ghost k: nat)
      requires Valid() && IndexOk(index)
      ensures locator == [] ==> hashes == if hashStop in index then [index[hashStop].hash] else []
      ensures locator != [] ==> FirstKnown(index, locator, k)
      ensures locator != [] && TipOf() == null ==> hashes == []
      ensures locator != [] && TipOf() != null ==>
        var h := 1 + if k < |locator| then index[locator[k]].height else 0;
        (h > TipOf().height ==> hashes == []) &&
        (h <= TipOf().height ==> |hashes| == Min(StopHeight(index, AncestorAt(TipOf(), h), hashStop) - h + 1, maxHashes)) &&
        forall i :: 0 <= i < |hashes| ==> SentAt(TipOf(), h, hashes, i)
    {
      hide FirstKnown;
      var node, total;
      node, total, k := LocateInventory(index, locator, hashStop, maxHashes);
      if total == 0 {
        return [], k;
      }
      hashes := [];
      ghost var start: BlockNode := node;
      var i := 0;
      while i < total
        invariant 0 <= i <= total && |hashes| == i
        invariant i < total ==> node != null && NodeOk(node)
        invariant locator == [] ==> if i == 0 then node == start else hashes == [start.hash]
        invariant locator != [] && i < total ==> node == AncestorAt(TipOf(), start.height + i)
        invariant locator != [] ==> forall j :: 0 <= j < i ==> SentAt(TipOf(), start.height, hashes, j)
      {
        ghost var was := hashes;
        hashes := hashes + [node.hash];
        if locator != [] {
          assert SentAt(TipOf(), start.height, hashes, i);
          forall j | 0 <= j <= i ensures SentAt(TipOf(), start.height, hashes, j) {
            assert j < i ==> SentAt(TipOf(), start.height, was, j);
          }
        }
        node := Next(node);
        i := i + 1;
      }
    }
  }

  datatype IntervalError = NoHeader | NotValidated

  predicate IndexOk(index: map<Hash, BlockNode>) {
    forall h :: h in index ==> EntryOk(index, h)
  }

  predicate EntryOk(index: map<Hash, BlockNode>, h: Hash)
    requires h in index
  {
    NodeOk(index[h])
  }

  predicate SentAt(tip: BlockNode, h: int, hashes: seq<Hash>, i: nat)
    requires NodeOk(tip) && i < |hashes|
  {
    0 <= h + i <= tip.height && hashes[i] == AncestorAt(tip, h + i).hash
  }

  function Times(i: int, interval: int): int {
    i * interval
  }

  lemma TimesBelow(h: nat, interval: nat)
    requires interval > 0
    ensures Times(h / interval, interval) <= h
  {
    QuotientRest(h, interval);
  }

  lemma TimesStep(i: nat, interval: nat)
    requires i > 0 && interval > 0
    ensures 0 < Times(i, interval) && 0 <= Times(i - 1, interval) < Times(i, interval)
  {
    MulMonotone(1, i, interval);
    Distribute(i, 1, interval);
  }

  predicate IntervalAt(n: BlockNode, interval: int, hashes: seq<Hash>, i: nat)
    requires NodeOk(n) && i < |hashes|
  {
    var a := AncestorAt(n, Times(i + 1, interval));
    a != null && hashes[i] == a.hash
  }

  /** Entry `i` is the hash of the ancestor at the height `i + 1` times the interval. */
  lemma IntervalMeans(n: BlockNode, interval: int, hashes: seq<Hash>, i: nat)
    requires NodeOk(n) && i < |hashes|
    ensures IntervalAt(n, interval, hashes, i) <==>
      (AncestorAt(n, (i + 1) * interval) != null && hashes[i] == AncestorAt(n, (i + 1) * interval).hash)
  {
  }

  lemma OneMoreInterval(n: BlockNode, interval: int, was: seq<Hash>, now: seq<Hash>, index: nat, node: BlockNode)
    requires NodeOk(n) && 0 < index <= |was| && now == was[index-1 := node.hash] && node == AncestorAt(n, Times(index, interval))
    requires forall i :: index <= i < |was| ==> IntervalAt(n, interval, was, i)
    ensures forall i :: index - 1 <= i < |now| ==> IntervalAt(n, interval, now, i)
  {
    hide Times;
    forall i | index - 1 <= i < |now| ensures IntervalAt(n, interval, now, i) {
      assert i >= index ==> IntervalAt(n, interval, was, i);
    }
  }

  // ----- block locators -----

  /** The heights a locator lists: one by one for the first eleven, then at doubling distances down to zero. */
  function LocatorHeights(h: nat, count: nat, step: nat): (r: seq<nat>)
    requires step > 0
    ensures |r| > 0 && r[0] == h && r[|r|-1] == 0
    decreases h
  {
    if h == 0 then [0]
    else [h] + LocatorHeights(if h - step < 0 then 0 else h - step, count + 1, if count + 1 > 10 then step * 2 else step)
  }

  lemma {:induction false} LocatorDescends(h: nat, count: nat, step: nat, i: nat)
    requires step > 0 && i + 1 < |LocatorHeights(h, count, step)|
    ensures LocatorHeights(h, count, step)[i+1] < LocatorHeights(h, count, step)[i]
    decreases h
  {
    if i > 0 {
      LocatorDescends(if h - step < 0 then 0 else h - step, count + 1, if count + 1 > 10 then step * 2 else step, i - 1);
    }
  }

  ghost predicate ListsAncestors(n: BlockNode, hashes: seq<Hash>, heights: seq<nat>)
    requires NodeOk(n)
  {
    |hashes| == |heights| && forall i :: 0 <= i < |heights| ==> ListedAt(n, hashes, heights, i)
  }

  predicate ListedAt(n: BlockNode, hashes: seq<Hash>, heights: seq<nat>, i: nat)
    requires NodeOk(n) && i < |hashes| && i < |heights|
  {
    heights[i] <= n.height && hashes[i] == AncestorAt(n, heights[i]).hash
  }

  lemma HeightsStep(h: nat, count: nat, step: nat)
    requires step > 0
    ensures LocatorHeights(h, count, step) == if h == 0 then [h] else
      [h] + LocatorHeights(if h - step < 0 then 0 else h - step, count + 1, if count + 1 > 10 then step * 2 else step)
  {
  }

  lemma Regroup(a: seq<nat>, h: nat, b: seq<nat>)
    ensures a + ([h] + b) == (a + [h]) + b
  {
  }

  lemma SelfAncestor(n: BlockNode)
    requires NodeOk(n)
    ensures IsAncestor(n, n)
  {
  }

  lemma ListsNothing(n: BlockNode)
    requires NodeOk(n)
    ensures ListsAncestors(n, [], [])
  {
  }

  lemma ListsOneMore(n: BlockNode, hashes: seq<Hash>, heights: seq<nat>, a: BlockNode)
    requires NodeOk(n) && ListsAncestors(n, hashes, heights) && IsAncestor(a, n)
    ensures ListsAncestors(n, hashes + [a.hash], heights + [a.height])
  {
    forall i | 0 <= i <= |heights| ensures ListedAt(n, hashes + [a.hash], heights + [a.height], i) {
      assert i < |heights| ==> ListedAt(n, hashes, heights, i);
    }
  }

  function CeilDiv(h: nat, s: nat): nat
    requires s > 0
  {
    (h + s - 1) / s
  }

  /** Once the distance doubles at every entry, the length is logarithmic in the height. */
  lemma {:induction false} DoublingLength(h: nat, count: nat, step: nat)
    requires step > 0 && count >= 10
    ensures |LocatorHeights(h, count, step)| == if h == 0 then 1 else 2 + Log2(CeilDiv(h, step))
    decreases h
  {
    if h > step {
      DoublingLength(h - step, count + 1, step * 2);
      DivDiv(h + step - 1, step, 2);
      assert h - step + step * 2 - 1 == h + step - 1;
      AtLeastTwo(h + step - 1, step);
    } else if h > 0 {
      DoublingLength(0, count + 1, step * 2);
      DivUnique(h + step - 1, 1, h - 1, step);
    }
  }

  lemma AtLeastTwo(x: nat, s: nat)
    requires s > 0 && x >= 2 * s
    ensures x / s >= 2
  {
    QuotientRest(x, s);
    if x / s < 2 {
      MulMonotone(x / s, 1, s);
    }
  }

  /** Up to the eleventh entry the heights go down one by one. */
  lemma {:induction false} EarlyLength(h: nat, count: nat)
    requires count <= 10
    ensures |LocatorHeights(h, count, 1)| ==
      if h <= 10 - count then h + 1 else 10 - count + |LocatorHeights(h - (10 - count), 10, 1)|
    decreases 10 - count
  {
    if count < 10 && h > 0 {
      EarlyLength(h - 1, count + 1);
    } else if count == 10 && h > 0 {
    }
  }

  /** The exact length of a locator: the capacity the source reserves for it. */
  lemma LocatorLength(h: nat)
    ensures |LocatorHeights(h, 0, 1)| == if h <= 12 then h + 1 else 12 + Log2(h - 10)
  {
    EarlyLength(h, 0);
    if h > 10 {
      DoublingLength(h - 10, 10, 1);
      assert CeilDiv(h - 10, 1) == h - 10;
    }
  }

  /** How far below the start entry `i` of a locator lies: one by one for the first eleven, then doubling. */
  function Distance(i: nat): nat {
    if i <= 10 then i else PowPositive(2, i - 10); Pow(2, i - 10) + 9
  }

  lemma {:induction false} LateEntries(h: nat, count: nat, step: nat, i: nat)
    requires step > 0 && count >= 10 && i < |LocatorHeights(h, count, step)|
    ensures LocatorHeights(h, count, step)[i] == if h <= step * (Pow(2, i) - 1) then 0 else h - step * (Pow(2, i) - 1)
    decreases h
  {
    PowPositive(2, i);
    if i > 0 {
      var low := if h - step < 0 then 0 else h - step;
      HeightsStep(h, count, step);
      LateEntries(low, count + 1, step * 2, i - 1);
      DoubledStep(step, i);
    } else {
      assert Pow(2, 0) == 1 && step * 0 == 0;
      HeightsStep(h, count, step);
    }
  }

  lemma DoubledStep(step: nat, i: nat)
    requires i > 0
    ensures step * (Pow(2, i) - 1) == step + step * 2 * (Pow(2, i - 1) - 1)
  {
    var p := Pow(2, i - 1);
    MulAssoc(step, 2, p);
    Distribute(2 * p, 1, step);
    Distribute(p, 1, step * 2);
    assert step * (2 * p - 1) == 2 * p * step - step;
  }

  lemma {:induction false} EarlyEntries(h: nat, count: nat, i: nat)
    requires count <= 10 && i < |LocatorHeights(h, count, 1)|
    ensures LocatorHeights(h, count, 1)[i] ==
      if i + count <= 10 then (if h <= i then 0 else h - i)
      else if h <= Distance(i + count) - count then 0 else h - (Distance(i + count) - count)
    decreases 10 - count
  {
    HeightsStep(h, count, 1);
    if count == 10 {
      LateEntries(h, 10, 1, i);
    } else if i > 0 {
      EarlyEntries(h - 1, count + 1, i - 1);
    }
  }

  /** Entry `i` of the locator of a node at height `h` lies that far below it, and never below genesis. */
  lemma LocatorEntry(h: nat, i: nat)
    requires i < |LocatorHeights(h, 0, 1)|
    ensures LocatorHeights(h, 0, 1)[i] ==
      if i <= 10 then (if h <= i then 0 else h - i)
      else if h <= Pow(2, i - 10) + 9 then 0 else h - Pow(2, i - 10) - 9
  {
    EarlyEntries(h, 0, i);
  }
}
