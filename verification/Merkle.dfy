/** The linear-array Merkle tree of pkg/blockchain/merkle.go, for any function that combines two hashes. */
module Merkle {
  import opened Wire
  import opened Radix
  import opened Logarithm

  type Combine = (Hash, Hash) -> Hash

  // ----- the tree, level by level -----

  /** Node `k` of the level above: its two children combined, an odd last child with itself. */
  function ParentAt(h: Combine, s: seq<Hash>, k: nat): Hash
    requires 2 * k < |s|
  {
    h(s[2*k], RightChild(s, k))
  }

  function RightChild(s: seq<Hash>, k: nat): Hash
    requires 2 * k < |s|
  {
    if 2 * k + 1 < |s| then s[2*k+1] else s[2*k]
  }

  function NextLevel(h: Combine, s: seq<Hash>): (r: seq<Hash>)
    ensures |r| == (|s| + 1) / 2 && forall k :: 0 <= k < |r| ==> r[k] == ParentAt(h, s, k)
  {
    seq((|s| + 1) / 2, k requires 0 <= k && 2 * k < |s| => ParentAt(h, s, k))
  }

  function Root(h: Combine, s: seq<Hash>): Hash
    requires |s| > 0
    decreases |s|
  {
    if |s| == 1 then s[0] else Root(h, NextLevel(h, s))
  }

  ghost predicate InjectiveAt(h: Combine, a: Hash, b: Hash, c: Hash, d: Hash) {
    h(a, b) == h(c, d) ==> a == c && b == d
  }

  ghost predicate CollisionFree(h: Combine) {
    forall a, b, c, d :: InjectiveAt(h, a, b, c, d)
  }

  lemma LevelInjective(h: Combine, s: seq<Hash>, t: seq<Hash>)
    requires CollisionFree(h) && |s| == |t| && NextLevel(h, s) == NextLevel(h, t)
    ensures s == t
  {
    forall i | 0 <= i < |s| ensures s[i] == t[i] {
      var k := i / 2;
      assert NextLevel(h, s)[k] == ParentAt(h, s, k) && NextLevel(h, t)[k] == ParentAt(h, t, k);
      assert InjectiveAt(h, s[2*k], RightChild(s, k), t[2*k], RightChild(t, k));
    }
  }

  /** Without collisions the root commits to the transactions: lists of one length with one root are equal. */
  lemma {:induction false} RootCommits(h: Combine, s: seq<Hash>, t: seq<Hash>)
    requires CollisionFree(h) && |s| == |t| > 0 && Root(h, s) == Root(h, t)
    ensures s == t
    decreases |s|
  {
    if |s| > 1 {
      RootCommits(h, NextLevel(h, s), NextLevel(h, t));
      LevelInjective(h, s, t);
    }
  }

  // ----- lists of different length -----

  /** Lists of different length can share a root: an odd last hash is combined with itself. */
  lemma LastHashTwice(h: Combine, a: Hash, b: Hash, c: Hash)
    ensures Root(h, [a, b, c]) == Root(h, [a, b, c, c])
  {
    var s, t := [a, b, c], [a, b, c, c];
    assert NextLevel(h, s)[0] == ParentAt(h, s, 0) && NextLevel(h, s)[1] == ParentAt(h, s, 1);
    assert NextLevel(h, t)[0] == ParentAt(h, t, 0) && NextLevel(h, t)[1] == ParentAt(h, t, 1);
    assert NextLevel(h, s) == NextLevel(h, t);
  }

  /** So does a single hash that is itself a combination. */
  lemma CombinedHash(h: Combine, a: Hash, b: Hash)
    ensures Root(h, [h(a, b)]) == Root(h, [a, b])
  {
    var t := [a, b];
    assert NextLevel(h, t)[0] == ParentAt(h, t, 0);
    assert NextLevel(h, t) == [h(a, b)];
  }

  predicate Differ(s: seq<Hash>, i: nat, j: nat)
    requires i < |s| && j < |s|
  {
    s[i] != s[j]
  }

  /** No hash occurs twice, which checkBlockSanity makes sure of. */
  predicate Distinct(s: seq<Hash>) {
    forall i, j :: 0 <= i < j < |s| ==> Differ(s, i, j)
  }

  /** `x` is on a level above the list. */
  ghost predicate OnLevelAbove(h: Combine, s: seq<Hash>, x: Hash)
    decreases |s|
  {
    |s| > 1 && (x in NextLevel(h, s) || OnLevelAbove(h, NextLevel(h, s), x))
  }

  predicate Combines(h: Combine, a: Hash, b: Hash, x: Hash) {
    h(a, b) == x
  }

  ghost predicate IsCombined(h: Combine, x: Hash) {
    exists a, b :: Combines(h, a, b, x)
  }

  lemma {:induction false} AboveIsCombined(h: Combine, s: seq<Hash>, x: Hash)
    requires OnLevelAbove(h, s, x)
    ensures IsCombined(h, x)
    decreases |s|
  {
    if x in NextLevel(h, s) {
      var k :| 0 <= k < |NextLevel(h, s)| && NextLevel(h, s)[k] == x;
      assert Combines(h, s[2*k], RightChild(s, k), x);
    } else {
      AboveIsCombined(h, NextLevel(h, s), x);
    }
  }

  lemma {:induction false} RootIsAbove(h: Combine, s: seq<Hash>)
    requires |s| > 1
    ensures OnLevelAbove(h, s, Root(h, s))
    decreases |s|
  {
    if |NextLevel(h, s)| > 1 {
      RootIsAbove(h, NextLevel(h, s));
    } else {
      assert Root(h, s) == NextLevel(h, s)[0];
    }
  }

  /** The children of a hash two or more levels up are on a level above as well. */
  lemma {:induction false} ChildrenAbove(h: Combine, s: seq<Hash>, a: Hash, b: Hash)
    requires CollisionFree(h) && OnLevelAbove(h, NextLevel(h, s), h(a, b))
    ensures OnLevelAbove(h, s, a)
    decreases |s|
  {
    var t := NextLevel(h, s);
    if h(a, b) in NextLevel(h, t) {
      var k :| 0 <= k < |NextLevel(h, t)| && NextLevel(h, t)[k] == h(a, b);
      assert NextLevel(h, t)[k] == ParentAt(h, t, k);
      assert InjectiveAt(h, a, b, t[2*k], RightChild(t, k));
      assert a in t;
    } else {
      ChildrenAbove(h, t, a, b);
    }
  }

  /** None of the first list is on a level above the second. */
  ghost predicate Apart(h: Combine, s: seq<Hash>, t: seq<Hash>) {
    forall x :: x in s ==> !OnLevelAbove(h, t, x)
  }

  lemma ApartAbove(h: Combine, s: seq<Hash>, t: seq<Hash>)
    requires CollisionFree(h) && Apart(h, s, t)
    ensures Apart(h, NextLevel(h, s), NextLevel(h, t))
  {
    forall x | x in NextLevel(h, s) ensures !OnLevelAbove(h, NextLevel(h, t), x) {
      var k :| 0 <= k < |NextLevel(h, s)| && NextLevel(h, s)[k] == x;
      assert x == ParentAt(h, s, k);
      if OnLevelAbove(h, NextLevel(h, t), x) {
        ChildrenAbove(h, t, s[2*k], RightChild(s, k));
      }
    }
  }

  lemma DistinctAbove(h: Combine, s: seq<Hash>)
    requires CollisionFree(h) && Distinct(s)
    ensures Distinct(NextLevel(h, s))
  {
    var r := NextLevel(h, s);
    forall i, j | 0 <= i < j < |r| ensures Differ(r, i, j) {
      assert r[i] == ParentAt(h, s, i) && r[j] == ParentAt(h, s, j) && Differ(s, 2 * i, 2 * j);
      assert InjectiveAt(h, s[2*i], RightChild(s, i), s[2*j], RightChild(s, j));
    }
  }

  /** Distinct lists with the same next level have the same length, hence are equal. */
  lemma DistinctLevelInjective(h: Combine, s: seq<Hash>, t: seq<Hash>)
    requires CollisionFree(h) && Distinct(s) && Distinct(t) && NextLevel(h, s) == NextLevel(h, t)
    ensures s == t
  {
    if |s| > |t| {
      NotShorter(h, t, s);
    } else if |t| > |s| {
      NotShorter(h, s, t);
    } else {
      LevelInjective(h, s, t);
    }
  }

  lemma NotShorter(h: Combine, s: seq<Hash>, t: seq<Hash>)
    requires CollisionFree(h) && Distinct(t) && |s| < |t|
    ensures NextLevel(h, s) != NextLevel(h, t)
  {
    if (|s| + 1) / 2 == (|t| + 1) / 2 {
      var k := |s| / 2;
      assert NextLevel(h, s)[k] == ParentAt(h, s, k) && NextLevel(h, t)[k] == ParentAt(h, t, k);
      assert InjectiveAt(h, s[2*k], s[2*k], t[2*k], t[2*k+1]) && Differ(t, 2 * k, 2 * k + 1);
    }
  }

  lemma {:induction false} ListsEqual(h: Combine, s: seq<Hash>, t: seq<Hash>)
    requires CollisionFree(h) && |s| > 0 && |t| > 0 && Root(h, s) == Root(h, t)
    requires Distinct(s) && Distinct(t) && Apart(h, s, t) && Apart(h, t, s)
    ensures s == t
    decreases |s|
  {
    assert s[0] in s && t[0] in t;
    if |s| > 1 && |t| > 1 {
      DistinctAbove(h, s);
      DistinctAbove(h, t);
      ApartAbove(h, s, t);
      ApartAbove(h, t, s);
      ListsEqual(h, NextLevel(h, s), NextLevel(h, t));
      DistinctLevelInjective(h, s, t);
    } else if |t| > 1 {
      RootIsAbove(h, t);
    } else if |s| > 1 {
      RootIsAbove(h, s);
    }
  }

  /**
   Among lists without repetitions whose hashes are not themselves combinations, the root commits to the whole
   list, its length included.
   */
  lemma RootCommitsToList(h: Combine, s: seq<Hash>, t: seq<Hash>)
    requires CollisionFree(h) && |s| > 0 && |t| > 0 && Distinct(s) && Distinct(t)
    requires forall x :: x in s || x in t ==> !IsCombined(h, x)
    ensures Root(h, s) == Root(h, t) <==> s == t
  {
    forall x | x in s ensures !OnLevelAbove(h, t, x) {
      if OnLevelAbove(h, t, x) {
        AboveIsCombined(h, t, x);
      }
    }
    forall x | x in t ensures !OnLevelAbove(h, s, x) {
      if OnLevelAbove(h, s, x) {
        AboveIsCombined(h, s, x);
      }
    }
    if Root(h, s) == Root(h, t) {
      ListsEqual(h, s, t);
    }
  }

  // ----- exactly which lists share a root -----

  /** The tree above a list, its leaves the hashes of the list. */
  datatype Tree = Leaf(hash: Hash) | Node(left: Tree, right: Tree)

  function Value(h: Combine, t: Tree): Hash {
    match t
    case Leaf(x) => x
    case Node(l, r) => h(Value(h, l), Value(h, r))
  }

  function Leaves(t: Tree): (s: seq<Hash>)
    ensures |s| > 0
  {
    match t
    case Leaf(x) => [x]
    case Node(l, r) => Leaves(l) + Leaves(r)
  }

  function Pair(s: seq<Tree>, k: nat): Tree
    requires 2 * k < |s|
  {
    Node(s[2*k], if 2 * k + 1 < |s| then s[2*k+1] else s[2*k])
  }

  function PairUp(s: seq<Tree>): (r: seq<Tree>)
    ensures |r| == (|s| + 1) / 2 && forall k :: 0 <= k < |r| ==> r[k] == Pair(s, k)
  {
    seq((|s| + 1) / 2, k requires 0 <= k && 2 * k < |s| => Pair(s, k))
  }

  function TreeOf(s: seq<Tree>): Tree
    requires |s| > 0
    decreases |s|
  {
    if |s| == 1 then s[0] else TreeOf(PairUp(s))
  }

  function AsLeaves(s: seq<Hash>): (r: seq<Tree>)
    ensures |r| == |s| && forall i :: 0 <= i < |s| ==> r[i] == Leaf(s[i])
  {
    seq(|s|, i requires 0 <= i < |s| => Leaf(s[i]))
  }

  /** The list written out with everything that is combined with itself twice, as long as a power of two. */
  function Expansion(s: seq<Hash>): seq<Hash>
    requires |s| > 0
  {
    Leaves(TreeOf(AsLeaves(s)))
  }

  ghost predicate HasValues(h: Combine, ts: seq<Tree>, s: seq<Hash>) {
    |ts| == |s| && forall i :: 0 <= i < |s| ==> Value(h, ts[i]) == s[i]
  }

  lemma {:induction false} RootIsValue(h: Combine, ts: seq<Tree>, s: seq<Hash>)
    requires |s| > 0 && HasValues(h, ts, s)
    ensures Root(h, s) == Value(h, TreeOf(ts))
    decreases |s|
  {
    if |s| > 1 {
      forall k | 0 <= k < |NextLevel(h, s)| ensures Value(h, PairUp(ts)[k]) == NextLevel(h, s)[k] {
        assert PairUp(ts)[k] == Pair(ts, k) && NextLevel(h, s)[k] == ParentAt(h, s, k);
      }
      RootIsValue(h, PairUp(ts), NextLevel(h, s));
    }
  }

  predicate Perfect(t: Tree, d: nat) {
    match t
    case Leaf(_) => d == 0
    case Node(l, r) => d > 0 && Perfect(l, d - 1) && Perfect(r, d - 1)
  }

  ghost predicate AllPerfect(ts: seq<Tree>, d: nat) {
    forall i :: 0 <= i < |ts| ==> Perfect(ts[i], d)
  }

  lemma {:induction false} TreeIsPerfect(ts: seq<Tree>, d: nat) returns (e: nat)
    requires |ts| > 0 && AllPerfect(ts, d)
    ensures Perfect(TreeOf(ts), e)
    decreases |ts|
  {
    e := d;
    if |ts| > 1 {
      forall k | 0 <= k < |PairUp(ts)| ensures Perfect(PairUp(ts)[k], d + 1) {
        assert PairUp(ts)[k] == Pair(ts, k);
      }
      e := TreeIsPerfect(PairUp(ts), d + 1);
    }
  }

  lemma {:induction false} SameSize(t: Tree, u: Tree, d: nat)
    requires Perfect(t, d) && Perfect(u, d)
    ensures |Leaves(t)| == |Leaves(u)|
  {
    if d > 0 {
      SameSize(t.left, u.left, d - 1);
      SameSize(t.right, u.right, d - 1);
    }
  }

  /** A perfect tree is determined by its leaves. */
  lemma {:induction false} LeavesDecide(t: Tree, u: Tree, d: nat, e: nat)
    requires Perfect(t, d) && Perfect(u, e) && Leaves(t) == Leaves(u)
    ensures t == u
    decreases t
  {
    if t.Node? && u.Node? {
      SameSize(t.left, t.right, d - 1);
      SameSize(u.left, u.right, e - 1);
      var n, s := |Leaves(t.left)|, Leaves(t);
      assert Leaves(t.left) == s[..n] == Leaves(u.left) && Leaves(t.right) == s[n..] == Leaves(u.right);
      LeavesDecide(t.left, u.left, d - 1, e - 1);
      LeavesDecide(t.right, u.right, d - 1, e - 1);
    }
  }

  ghost predicate LeavesPlain(h: Combine, t: Tree) {
    forall x :: x in Leaves(t) ==> !IsCombined(h, x)
  }

  /** Without collisions a tree over uncombined hashes is determined by its value. */
  lemma {:induction false} ValueDecides(h: Combine, t: Tree, u: Tree)
    requires CollisionFree(h) && LeavesPlain(h, t) && LeavesPlain(h, u) && Value(h, t) == Value(h, u)
    ensures t == u
    decreases t
  {
    match (t, u)
    case (Leaf(x), Leaf(y)) =>
    case (Node(l, r), Node(m, n)) =>
      assert InjectiveAt(h, Value(h, l), Value(h, r), Value(h, m), Value(h, n));
      ValueDecides(h, l, m);
      ValueDecides(h, r, n);
    case (Leaf(x), Node(m, n)) =>
      assert x in Leaves(t);
      NodeIsCombined(h, m, n);
    case (Node(l, r), Leaf(y)) =>
      assert y in Leaves(u);
      NodeIsCombined(h, l, r);
  }

  lemma NodeIsCombined(h: Combine, l: Tree, r: Tree)
    ensures IsCombined(h, Value(h, Node(l, r)))
  {
    assert Combines(h, Value(h, l), Value(h, r), Value(h, Node(l, r)));
  }

  ghost predicate AllPlain(h: Combine, ts: seq<Tree>) {
    forall i :: 0 <= i < |ts| ==> LeavesPlain(h, ts[i])
  }

  lemma {:induction false} TreeIsPlain(h: Combine, ts: seq<Tree>)
    requires |ts| > 0 && AllPlain(h, ts)
    ensures LeavesPlain(h, TreeOf(ts))
    decreases |ts|
  {
    if |ts| > 1 {
      forall k | 0 <= k < |PairUp(ts)| ensures LeavesPlain(h, PairUp(ts)[k]) {
        assert PairUp(ts)[k] == Pair(ts, k);
      }
      TreeIsPlain(h, PairUp(ts));
    }
  }

  /** Lists of hashes that are not combinations share a root if and only if their expansions are the same. */
  lemma SameRootIff(h: Combine, s: seq<Hash>, t: seq<Hash>)
    requires CollisionFree(h) && |s| > 0 && |t| > 0 && forall x :: x in s || x in t ==> !IsCombined(h, x)
    ensures Root(h, s) == Root(h, t) <==> Expansion(s) == Expansion(t)
  {
    var a, b := TreeOf(AsLeaves(s)), TreeOf(AsLeaves(t));
    RootIsValue(h, AsLeaves(s), s);
    RootIsValue(h, AsLeaves(t), t);
    var d := TreeIsPerfect(AsLeaves(s), 0);
    var e := TreeIsPerfect(AsLeaves(t), 0);
    TreeIsPlain(h, AsLeaves(s));
    TreeIsPlain(h, AsLeaves(t));
    if Leaves(a) == Leaves(b) {
      LeavesDecide(a, b, d, e);
    }
    if Value(h, a) == Value(h, b) {
      ValueDecides(h, a, b);
    }
  }

  // ----- the linear array -----

  type Slots = seq<Option<Hash>>

  /** What the source puts above two neighbouring slots. */
  function Above(h: Combine, left: Option<Hash>, right: Option<Hash>): Option<Hash> {
    if left.None? then None else if right.None? then Some(h(left.value, left.value)) else Some(h(left.value, right.value))
  }

  /** The `w` slots from `s` on hold the level; the ones it does not fill are nil. */
  ghost predicate LevelAt(m: Slots, s: nat, w: nat, level: seq<Hash>) {
    s + w <= |m| && |level| <= w && forall k :: 0 <= k < w ==> SlotAt(m, s, level, k)
  }

  predicate SlotAt(m: Slots, s: nat, level: seq<Hash>, k: nat)
    requires s + k < |m|
  {
    m[s+k] == if k < |level| then Some(level[k]) else None
  }

  /** From slot `s` on the array holds the level and all levels above it, each half as wide as the one below. */
  ghost predicate HoldsLevels(h: Combine, m: Slots, s: nat, w: nat, level: seq<Hash>)
    decreases w
  {
    LevelAt(m, s, w, level) && (w > 1 ==> HoldsLevels(h, m, s + w, w / 2, NextLevel(h, level)))
  }

  /** Slot p + k was computed from slots 2k and 2k + 1. */
  predicate ParentOk(h: Combine, m: Slots, p: nat, k: nat)
    requires p + k < |m| && 2 * k + 1 < |m|
  {
    m[p+k] == Above(h, m[2*k], m[2*k+1])
  }

  predicate PowerOfTwo(w: nat) {
    w == 1 || (w > 1 && w % 2 == 0 && PowerOfTwo(w / 2))
  }

  /** Slots computed from their children hold the whole tree, with the root last. */
  lemma {:induction false} LevelsFollow(h: Combine, m: Slots, p: nat, s: nat, w: nat, level: seq<Hash>)
    requires p > 0 && |m| == 2 * p - 1 && s + 2 * w == 2 * p && PowerOfTwo(w) && w / 2 < |level|
    requires LevelAt(m, s, w, level) && forall k :: 0 <= k < p - 1 ==> ParentOk(h, m, p, k)
    ensures HoldsLevels(h, m, s, w, level) && m[|m|-1] == Some(Root(h, level))
    decreases w
  {
    if w > 1 {
      var above, next := NextLevel(h, level), s + w;
      forall k | 0 <= k < w / 2 ensures SlotAt(m, next, above, k) {
        assert ParentOk(h, m, p, s / 2 + k) && p + s / 2 + k == s + w + k && 2 * (s / 2 + k) == s + 2 * k;
        assert SlotAt(m, s, level, 2 * k) && SlotAt(m, s, level, 2 * k + 1);
      }
      LevelsFollow(h, m, p, s + w, w / 2, above);
    } else {
      assert SlotAt(m, s, level, 0);
    }
  }

  /** The number itself when it is a power of two, otherwise the next one above it. */
  method NextPowerOfTwo(n: nat) returns (p: nat)
    requires n > 0
    ensures PowerOfTwo(p) && p / 2 < n <= p
  {
    MaskedIff(n);
    if And(n, n - 1) == 0 {
      assert PowerOfTwo(n) && n / 2 < n;
      return n;
    }
    Log2Exact(n);
    PowIsPower(Log2(n));
    var exponent := Log2(n) + 1;
    PowIsPower(exponent);
    p := Pow(2, exponent);
  }

  /** A number and its predecessor share no bit exactly when the number is a power of two. */
  lemma {:induction false} MaskedIff(n: nat)
    requires n > 0
    ensures And(n, n - 1) == 0 <==> PowerOfTwo(n)
  {
    if n % 2 == 0 {
      MaskedIff(n / 2);
      assert (n - 1) / 2 == n / 2 - 1;
    } else {
      AndSelf(n / 2);
    }
  }

  lemma {:induction false} PowIsPower(e: nat)
    ensures PowerOfTwo(Pow(2, e))
  {
    if e > 0 {
      PowIsPower(e - 1);
      PowPositive(2, e - 1);
    }
  }

  /** The array of a Merkle tree: the transaction hashes first, every level after the one below it, the root last. */
  method BuildMerkleTreeStore(h: Combine, transactions: seq<Tx>) returns (m: Slots, ghost p: nat)
    requires |transactions| > 0
    ensures PowerOfTwo(p) && p / 2 < |transactions| <= p && |m| == 2 * p - 1
    ensures HoldsLevels(h, m, 0, p, Ids(transactions)) && m[|m|-1] == Some(Root(h, Ids(transactions)))
  {
    var nextPoT := NextPowerOfTwo(|transactions|);
    p := nextPoT;
    var arraySize := nextPoT * 2 - 1;
    var merkles := new Option<Hash>[arraySize](_ => None);
    var i := 0;
    while i < |transactions|
      invariant 0 <= i <= |transactions|
      invariant forall k :: 0 <= k < arraySize ==> merkles[k] == if k < i then Some(transactions[k].id) else None
    {
      merkles[i] := Some(transactions[i].id);
      i := i + 1;
    }
    ghost var base := merkles[..];
    FillParents(h, merkles, nextPoT);
    m := merkles[..];
    forall k | 0 <= k < p ensures SlotAt(m, 0, Ids(transactions), k) {
      assert m[k] == base[k];
    }
    LevelsFollow(h, m, p, 0, p, Ids(transactions));
  }

  /** The second loop: every pair of slots gives the slot above it. */
  method FillParents(h: Combine, merkles: array<Option<Hash>>, p: nat)
    requires p > 0 && merkles.Length == 2 * p - 1
    modifies merkles
    ensures forall k :: 0 <= k < p ==> merkles[k] == old(merkles[k])
    ensures forall k :: 0 <= k < p - 1 ==> ParentOk(h, merkles[..], p, k)
  {
    var offset, i := p, 0;
    while i < merkles.Length - 1
      invariant 0 <= i <= merkles.Length - 1 && i % 2 == 0 && offset == p + i / 2
      invariant forall k :: 0 <= k < p ==> merkles[k] == old(merkles[k])
      invariant forall k :: 0 <= k < i / 2 ==> ParentOk(h, merkles[..], p, k)
    {
      ghost var was := merkles[..];
      if merkles[i].None? {
        merkles[offset] := None;
      } else if merkles[i+1].None? {
        merkles[offset] := Some(h(merkles[i].value, merkles[i].value));
      } else {
        merkles[offset] := Some(h(merkles[i].value, merkles[i+1].value));
      }
      forall k | 0 <= k < i / 2 + 1 ensures ParentOk(h, merkles[..], p, k) {
        assert k < i / 2 ==> ParentOk(h, was, p, k);
      }
      offset := offset + 1;
      i := i + 2;
    }
  }

  function Ids(transactions: seq<Tx>): (s: seq<Hash>)
    ensures |s| == |transactions| && forall i :: 0 <= i < |s| ==> s[i] == transactions[i].id
  {
    seq(|transactions|, i requires 0 <= i < |transactions| => transactions[i].id)
  }
}
