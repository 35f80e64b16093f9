/** The difficulty of the next block before the hard fork, of pkg/blockchain/forkhalcyon.go and blockindex.go. */
module Halcyon {
  import opened Bits
  import opened Difficulty
  import opened ChainView

  const SCRYPT := 514
  const SHA256D := 2

  /** Before the fork any other version counts as the second algorithm. */
  function Sanitised(preFork: bool, version: int): int {
    if preFork && version != SCRYPT && version != SHA256D then SHA256D else version
  }

  /** Whether the block at a node was made with the algorithm. */
  predicate Matches(preFork: int -> bool, n: BlockNode, algo: int) {
    Sanitised(preFork(n.height), n.version) == algo
  }

  /** How many nodes from height `h` up to `n` were made with the algorithm. */
  function CountFrom(preFork: int -> bool, n: BlockNode, algo: int, h: int): nat
    requires NodeOk(n)
    decreases n.height
  {
    if n.height < h then 0
    else (if Matches(preFork, n, algo) then 1 else 0) + if n.parent == null then 0 else CountFrom(preFork, n.parent, algo, h)
  }

  /** Counting down to a height is counting down to an ancestor and from its parent on. */
  lemma {:induction false} CountSplit(preFork: int -> bool, n: BlockNode, algo: int, a: BlockNode, h: int)
    requires NodeOk(n) && IsAncestor(a, n) && 0 <= h <= a.height
    ensures NodeOk(a)
    ensures CountFrom(preFork, n, algo, h) == CountFrom(preFork, n, algo, a.height + 1) + CountFrom(preFork, a, algo, h)
    decreases n.height
  {
    if n.height > a.height {
      CountSplit(preFork, n.parent, algo, a, h);
    }
  }

  lemma {:induction false} CountNone(preFork: int -> bool, n: BlockNode, algo: int, h: int)
    requires NodeOk(n) && n.height < h
    ensures CountFrom(preFork, n, algo, h) == 0
  {
  }

  /** Nothing from height `h` up to `n` was made with the algorithm exactly when no node there has its version, sanitised before the fork. */
  lemma {:induction false} CountZeroMeans(preFork: int -> bool, n: BlockNode, algo: int, h: int)
    requires NodeOk(n) && 0 <= h
    ensures CountFrom(preFork, n, algo, h) == 0 <==> forall g :: h <= g <= n.height ==> OtherAlgo(preFork, n, algo, g)
    decreases n.height
  {
    if n.height >= h {
      assert AncestorAt(n, n.height) == n;
      if n.parent != null {
        CountZeroMeans(preFork, n.parent, algo, h);
        forall g | h <= g < n.height ensures OtherAlgo(preFork, n, algo, g) <==> OtherAlgo(preFork, n.parent, algo, g) {
        }
      }
      assert OtherAlgo(preFork, n, algo, n.height) <==> !Matches(preFork, n, algo);
    }
  }

  /** The ancestor at height `g` was made with another algorithm: 514 is scrypt, 2 is SHA256D and before the fork anything else as well. */
  predicate OtherAlgo(preFork: int -> bool, n: BlockNode, algo: int, g: int)
    requires NodeOk(n)
  {
    var a := AncestorAt(n, g);
    a != null && if preFork(a.height) && a.version != 514 && a.version != 2 then algo != 2 else a.version != algo
  }

  /** The newest node with the algorithm, the given one included; nil when there is none. */
  method GetLastWithAlgo(preFork: int -> bool, node: BlockNode?, algo: int) returns (prev: BlockNode?)
    requires node != null ==> NodeOk(node)
    ensures node == null ==> prev == null
    ensures node != null ==> IsNewest(preFork, node, Sanitised(preFork(node.height + 1), algo), prev)
  {
    if node == null {
      return null;
    }
    var wanted := algo;
    if preFork(node.height + 1) && algo != SCRYPT && algo != SHA256D {
      wanted := SHA256D;
    }
    prev := node;
    SelfAncestor(node);
    CountNone(preFork, node, wanted, node.height + 1);
    while prev != null
      invariant prev != null ==> NodeOk(prev) && IsAncestor(prev, node) && CountFrom(preFork, node, wanted, prev.height + 1) == 0
      invariant prev == null ==> CountFrom(preFork, node, wanted, 0) == 0
      decreases if prev == null then -1 else prev.height
    {
      var prevversion := prev.version;
      if preFork(prev.height) && prev.version != SCRYPT && prev.version != SHA256D {
        prevversion := SHA256D;
      }
      if prevversion == wanted {
        return;
      }
      OneLower(preFork, node, wanted, prev);
      prev := prev.RelativeAncestor(1);
    }
  }

  /** The node matches, and nothing above it does. */
  ghost predicate IsNewest(preFork: int -> bool, node: BlockNode, algo: int, prev: BlockNode?)
    requires NodeOk(node)
  {
    (prev != null ==> NodeOk(prev) && IsAncestor(prev, node) && Matches(preFork, prev, algo) && CountFrom(preFork, node, algo, prev.height + 1) == 0) &&
    (prev == null ==> CountFrom(preFork, node, algo, 0) == 0)
  }

  /** A node that does not match adds nothing to the count; below it the walk goes on at its parent. */
  lemma OneLower(preFork: int -> bool, node: BlockNode, algo: int, prev: BlockNode)
    requires NodeOk(node) && NodeOk(prev) && IsAncestor(prev, node) && !Matches(preFork, prev, algo)
    requires CountFrom(preFork, node, algo, prev.height + 1) == 0
    ensures CountFrom(preFork, node, algo, prev.height) == 0
    ensures AncestorAt(prev, prev.height - 1) == prev.parent
    ensures prev.parent != null ==> IsAncestor(prev.parent, node)
  {
    CountSplit(preFork, node, algo, prev, prev.height);
    if prev.parent != null {
      CountNone(preFork, prev.parent, algo, prev.height);
      AncestorOfAncestor(node, prev.height, prev.height - 1);
    }
  }

  /** `first` is the node with the algorithm that has exactly `k` newer ones up to `node`. */
  ghost predicate IsWindowStart(preFork: int -> bool, node: BlockNode, algo: int, k: nat, first: BlockNode?)
    requires NodeOk(node)
  {
    (first != null ==>
      NodeOk(first) && IsAncestor(first, node) && Matches(preFork, first, algo) && CountFrom(preFork, node, algo, first.height) == k + 1) &&
    (first == null ==> CountFrom(preFork, node, algo, 0) <= k)
  }

  lemma NewestStarts(preFork: int -> bool, node: BlockNode, algo: int, prev: BlockNode?)
    requires NodeOk(node) && IsNewest(preFork, node, algo, prev)
    ensures IsWindowStart(preFork, node, algo, 0, prev)
  {
    if prev != null {
      CountSplit(preFork, node, algo, prev, prev.height);
      if prev.parent != null {
        CountNone(preFork, prev.parent, algo, prev.height);
      }
    }
  }

  /** One step further back: the newest matching node below the current one. */
  lemma WindowStep(preFork: int -> bool, node: BlockNode, algo: int, k: nat, first: BlockNode, next: BlockNode?)
    requires NodeOk(node) && IsWindowStart(preFork, node, algo, k, first)
    requires first.parent == null ==> next == null
    requires first.parent != null ==> NodeOk(first.parent) && IsNewest(preFork, first.parent, algo, next)
    ensures IsWindowStart(preFork, node, algo, k + 1, next)
  {
    if first.parent == null {
      CountSplit(preFork, node, algo, first, 0);
      CountSplit(preFork, node, algo, first, first.height);
    } else {
      var p := first.parent;
      AncestorOfAncestor(node, first.height, p.height);
      CountSplit(preFork, node, algo, first, first.height);
      CountNone(preFork, p, algo, first.height);
      if next == null {
        CountSplit(preFork, node, algo, p, 0);
      } else {
        AncestorOfAncestor(node, p.height, next.height);
        CountSplit(preFork, node, algo, p, next.height);
        NewestStarts(preFork, p, algo, next);
      }
    }
  }

  /** Goes back until the averaging window is full, or runs out of blocks. */
  method FirstOfWindow(preFork: int -> bool, prevNode: BlockNode, algo: int, averagingInterval: nat) returns (first: BlockNode?)
    requires NodeOk(prevNode) && (algo == SCRYPT || algo == SHA256D) && Matches(preFork, prevNode, algo)
    ensures IsWindowStart(preFork, prevNode, algo, if averagingInterval > 0 then averagingInterval - 1 else 0, first)
  {
    hide CountFrom, Matches;
    first := prevNode;
    var i := 0;
    SelfAncestor(prevNode);
    StartsItself(preFork, prevNode, algo);
    while first != null && i < averagingInterval - 1
      invariant 0 <= i && (i <= averagingInterval - 1 || i == 0) && IsWindowStart(preFork, prevNode, algo, i, first)
      decreases averagingInterval - i
    {
      ghost var was := first;
      ParentBelow(first);
      first := first.RelativeAncestor(1);
      first := GetLastWithAlgo(preFork, first, algo);
      WindowStep(preFork, prevNode, algo, i, was, first);
      i := i + 1;
    }
    if first == null {
      MoreIsFine(preFork, prevNode, algo, i, if averagingInterval > 0 then averagingInterval - 1 else 0);
    }
  }

  lemma StartsItself(preFork: int -> bool, node: BlockNode, algo: int)
    requires NodeOk(node) && Matches(preFork, node, algo) && IsAncestor(node, node)
    ensures IsWindowStart(preFork, node, algo, 0, node)
  {
    if node.parent != null {
      CountNone(preFork, node.parent, algo, node.height);
    }
  }

  lemma ParentBelow(n: BlockNode)
    requires NodeOk(n)
    ensures AncestorAt(n, n.height - 1) == n.parent && (n.parent != null ==> NodeOk(n.parent))
  {
  }

  lemma MoreIsFine(preFork: int -> bool, node: BlockNode, algo: int, k: nat, m: nat)
    requires NodeOk(node) && IsWindowStart(preFork, node, algo, k, null) && k <= m
    ensures IsWindowStart(preFork, node, algo, m, null)
  {
  }

  /**
   The whole calculation: the algorithm's easiest bits while the window is not full, otherwise the retarget of
   the newest block's bits by the time from the window's first block to it.
   */
  method NextRequiredDifficulty(p: Params, preFork: int -> bool, lastNode: BlockNode, algo: int, averagingInterval: nat, minBits: nat)
      returns (bits: nat, ghost prev: BlockNode?, ghost first: BlockNode?)
    requires ParamsOk(p) && NodeOk(lastNode) && (algo == SCRYPT || algo == SHA256D) && averagingInterval > 0
    requires CompactToBig(minBits) >= 0 && minBits < 0x1_0000_0000
    requires forall h :: 0 <= h <= lastNode.height ==> ValidBits(lastNode, h)
    ensures IsNewest(preFork, lastNode, algo, prev)
    ensures prev != null ==> IsWindowStart(preFork, prev, algo, averagingInterval - 1, first)
    ensures prev == null || first == null ==> bits == minBits
    ensures prev != null && first != null ==>
      bits == BigToCompact(NewTarget(p, Max0(CompactToBig(prev.bits)), Max0(CompactToBig(minBits)), prev.timestamp - first.timestamp))
    ensures 0 <= CompactToBig(bits) <= CompactToBig(minBits)
    ensures prev != null && first != null ==>
      var actual := prev.timestamp - first.timestamp;
      forall span: int ::
        (actual < p.minTimespan ==> span == p.minTimespan) && (p.minTimespan <= actual <= p.maxTimespan ==> span == actual) &&
        (actual > p.maxTimespan ==> span == p.maxTimespan) ==>
        NearProduct(p, CompactToBig(prev.bits), span, CompactToBig(minBits), CompactToBig(bits))
  {
    hide NearProduct, CompactToBig, BigToCompact, CountFrom, IsWindowStart;
    var prevNode := GetLastWithAlgo(preFork, lastNode, algo);
    prev, first := prevNode, null;
    if prevNode == null {
      return minBits, prev, first;
    }
    var firstNode := FirstOfWindow(preFork, prevNode, algo, averagingInterval);
    first := firstNode;
    if firstNode == null {
      return minBits, prev, first;
    }
    assert ValidBits(lastNode, prevNode.height);
    bits := Retarget(p, prevNode.bits, prevNode.timestamp - firstNode.timestamp, minBits);
  }

  function Max0(x: int): nat {
    if x < 0 then 0 else x
  }

  predicate ValidBits(n: BlockNode, h: int)
    requires NodeOk(n)
  {
    var a := AncestorAt(n, h);
    a != null ==> CompactToBig(a.bits) >= 0
  }
}
