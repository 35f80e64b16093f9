/** The orphan pool of pkg/blockchain/chain.go and the loop of process.go that drains it. */
module Orphans {
  import opened Wire

  const MAX_ORPHAN_BLOCKS := 100

  /** An orphan block: its hash, its parent's hash, and when it expires. */
  datatype Orphan = Orphan(hash: Hash, prev: Hash, expiration: int)

  predicate HashesDiffer(s: seq<Orphan>, i: nat, j: nat)
    requires i < |s| && j < |s|
  {
    s[i].hash != s[j].hash
  }

  predicate DistinctHashes(s: seq<Orphan>) {
    forall i, j :: 0 <= i < j < |s| ==> HashesDiffer(s, i, j)
  }

  /** The list without the orphan of that hash. */
  function Without(s: seq<Orphan>, h: Hash): seq<Orphan> {
    if |s| == 0 then []
    else if s[|s|-1].hash == h then Without(s[..|s|-1], h)
    else Without(s[..|s|-1], h) + [s[|s|-1]]
  }

  lemma {:induction false} WithoutMembers(s: seq<Orphan>, h: Hash)
    ensures forall o :: o in Without(s, h) <==> o in s && o.hash != h
  {
    if |s| > 0 {
      var t, x := s[..|s|-1], s[|s|-1];
      WithoutMembers(t, h);
      assert s == t + [x];
    }
  }

  /** Taking out the one orphan of that hash leaves the others in their order. */
  lemma {:induction false} WithoutOne(s: seq<Orphan>, i: nat)
    requires i < |s| && forall j :: 0 <= j < |s| && j != i ==> HashesDiffer(s, j, i)
    ensures Without(s, s[i].hash) == s[..i] + s[i+1..]
  {
    var t, x := s[..|s|-1], s[|s|-1];
    if i < |t| {
      forall j | 0 <= j < |t| && j != i ensures HashesDiffer(t, j, i) {
        assert HashesDiffer(s, j, i);
      }
      WithoutOne(t, i);
      assert HashesDiffer(s, |t|, i);
      assert s[..i] + s[i+1..] == (t[..i] + t[i+1..]) + [x];
    } else {
      forall o | o in t ensures o.hash != x.hash {
        var j :| 0 <= j < |t| && t[j] == o;
        assert HashesDiffer(s, j, i);
      }
      WithoutNone(t, x.hash);
      assert s[..i] + s[i+1..] == t;
    }
  }

  lemma {:induction false} WithoutNone(s: seq<Orphan>, h: Hash)
    requires forall o :: o in s ==> o.hash != h
    ensures Without(s, h) == s
  {
    if |s| > 0 {
      WithoutNone(s[..|s|-1], h);
    }
  }

  lemma {:induction false} WithoutDistinct(s: seq<Orphan>, h: Hash)
    requires DistinctHashes(s)
    ensures DistinctHashes(Without(s, h))
  {
    if |s| > 0 {
      var t, x := s[..|s|-1], s[|s|-1];
      forall i, j | 0 <= i < j < |t| ensures HashesDiffer(t, i, j) {
        assert HashesDiffer(s, i, j);
      }
      WithoutDistinct(t, h);
      if x.hash != h {
        var r := Without(t, h);
        WithoutMembers(t, h);
        forall i, j | 0 <= i < j < |r| + 1 ensures HashesDiffer(r + [x], i, j) {
          if j < |r| {
            assert HashesDiffer(r, i, j);
          } else {
            assert r[i] in t;
            var k :| 0 <= k < |t| && t[k] == r[i];
            assert HashesDiffer(s, k, |t|);
          }
        }
      }
    }
  }

  /** The pool's two maps, apart from the object that holds them. */
  datatype Maps = Maps(orphans: map<Hash, Orphan>, prevOrphans: map<Hash, seq<Orphan>>)

  /** An orphan is filed under its hash and once in the list of its parent. */
  ghost predicate FiledOk(m: Maps, parentOf: Hash -> Hash, h: Hash)
    requires h in m.orphans
  {
    var o := m.orphans[h];
    o.hash == h && o.prev == parentOf(h) && o.prev in m.prevOrphans && o in m.prevOrphans[o.prev]
  }

  /** A list is not empty, names an orphan at most once, and has only orphans of that parent. */
  ghost predicate ListOk(m: Maps, p: Hash)
    requires p in m.prevOrphans
  {
    var l := m.prevOrphans[p];
    |l| > 0 && DistinctHashes(l) && forall o :: o in l ==> o.prev == p && o.hash in m.orphans && m.orphans[o.hash] == o
  }

  ghost predicate MapsOk(m: Maps, parentOf: Hash -> Hash) {
    (forall h :: h in m.orphans ==> FiledOk(m, parentOf, h)) && (forall p :: p in m.prevOrphans ==> ListOk(m, p))
  }

  function Removed(m: Maps, h: Hash, p: Hash): Maps {
    var l := if p in m.prevOrphans then Without(m.prevOrphans[p], h) else [];
    Maps(m.orphans - {h}, if |l| == 0 then m.prevOrphans - {p} else m.prevOrphans[p := l])
  }

  /** Removing a block leaves the maps in agreement, even when it is no longer in the pool. */
  lemma RemoveKeeps(m: Maps, parentOf: Hash -> Hash, h: Hash)
    requires MapsOk(m, parentOf)
    ensures MapsOk(Removed(m, h, parentOf(h)), parentOf)
  {
    var p := parentOf(h);
    var r := Removed(m, h, p);
    if p in m.prevOrphans {
      WithoutMembers(m.prevOrphans[p], h);
    }
    forall g | g in r.orphans ensures FiledOk(r, parentOf, g) {
      assert FiledOk(m, parentOf, g);
      if m.orphans[g].prev == p {
        assert m.orphans[g] in Without(m.prevOrphans[p], h);
      }
    }
    forall q | q in r.prevOrphans ensures ListOk(r, q) {
      assert ListOk(m, q);
      if q == p {
        WithoutDistinct(m.prevOrphans[p], h);
      } else {
        forall o | o in m.prevOrphans[q] ensures o.hash != h {
          assert FiledOk(m, parentOf, o.hash);
        }
      }
    }
  }

  function Added(m: Maps, o: Orphan): Maps {
    Maps(m.orphans[o.hash := o], m.prevOrphans[o.prev := (if o.prev in m.prevOrphans then m.prevOrphans[o.prev] else []) + [o]])
  }

  lemma AddKeeps(m: Maps, parentOf: Hash -> Hash, o: Orphan)
    requires MapsOk(m, parentOf) && o.hash !in m.orphans && o.prev == parentOf(o.hash)
    ensures MapsOk(Added(m, o), parentOf)
  {
    var r := Added(m, o);
    forall g | g in r.orphans ensures FiledOk(r, parentOf, g) {
      if g != o.hash {
        assert FiledOk(m, parentOf, g);
      }
    }
    forall q | q in r.prevOrphans ensures ListOk(r, q) {
      assert q in m.prevOrphans ==> ListOk(m, q);
      if q == o.prev {
        var l := r.prevOrphans[q];
        forall i, j | 0 <= i < j < |l| ensures HashesDiffer(l, i, j) {
          if j < |l| - 1 {
            assert HashesDiffer(m.prevOrphans[q], i, j);
          } else {
            assert l[i] in m.prevOrphans[q];
          }
        }
      }
    }
  }

  class OrphanPool {
    const parentOf: Hash -> Hash
    var orphans: map<Hash, Orphan>
    var prevOrphans: map<Hash, seq<Orphan>>
    var oldest: Option<Orphan>

    ghost function Contents(): Maps
      reads this
    {
      Maps(orphans, prevOrphans)
    }

    /** The maps agree; a pool one over the limit has no remembered oldest orphan. */
    ghost predicate Valid()
      reads this
    {
      MapsOk(Contents(), parentOf) &&
      |orphans| <= MAX_ORPHAN_BLOCKS + 1 && (|orphans| == MAX_ORPHAN_BLOCKS + 1 ==> oldest.None?) &&
      (oldest.Some? ==> oldest.value.prev == parentOf(oldest.value.hash))
    }

    constructor (parentOf: Hash -> Hash)
      ensures Valid() && orphans == map[]
    {
      this.parentOf := parentOf;
      orphans, prevOrphans, oldest := map[], map[], None;
    }

    /** Takes a block out of both maps; an emptied list goes with its key. */
    method RemoveOrphanBlock(o: Orphan)
      requires MapsOk(Contents(), parentOf) && o.prev == parentOf(o.hash)
      modifies this`orphans, this`prevOrphans
      ensures MapsOk(Contents(), parentOf) && Contents() == Removed(old(Contents()), o.hash, o.prev)
      ensures orphans == old(orphans) - {o.hash}
      ensures forall p :: p != o.prev ==> (p in prevOrphans <==> p in old(prevOrphans)) && (p in prevOrphans ==> prevOrphans[p] == old(prevOrphans)[p])
    {
      RemoveKeeps(Contents(), parentOf, o.hash);
      orphans := orphans - {o.hash};
      var l := if o.prev in prevOrphans then prevOrphans[o.prev] else [];
      l := Filtered(l, o.hash);
      PutThenDrop(prevOrphans, o.prev, l);
      prevOrphans := prevOrphans[o.prev := l];
      if |prevOrphans[o.prev]| == 0 {
        prevOrphans := prevOrphans - {o.prev};
      }
    }

    /** The indexing loop: closes the gap whenever the entry at the index is the block's. */
    static method Filtered(list: seq<Orphan>, h: Hash) returns (l: seq<Orphan>)
      ensures l == Without(list, h)
    {
      l := list;
      var i := 0;
      while i < |l|
        invariant 0 <= i <= |l| && Without(list, h) == Without(l, h)
        invariant forall k :: 0 <= k < i ==> l[k].hash != h
        decreases |l| - i
      {
        if l[i].hash == h {
          DropOne(l, i, h);
          l := l[..i] + l[i+1..];
        } else {
          i := i + 1;
        }
      }
      NothingDropped(l, h);
    }

    /**
     Adds a block not yet in the pool: expired blocks go first, then the oldest one if the pool is full.  A
     remembered oldest block that has left the pool makes room for nothing, hence the one block over the limit.
     */
    method AddOrphanBlock(o: Orphan, isExpired: Orphan -> bool) returns (ghost evicted: Option<Orphan>)
      requires Valid() && o.hash !in orphans && o.prev == parentOf(o.hash)
      modifies this
      ensures Valid() && o.hash in orphans && orphans[o.hash] == o
      ensures forall h :: h in orphans && h != o.hash ==> h in old(orphans) && orphans[h] == old(orphans)[h]
      ensures forall h :: h in old(orphans) ==>
        (h in orphans <==> !isExpired(old(orphans)[h]) && !(evicted.Some? && evicted.value.hash == h))
      ensures evicted.Some? ==> |orphans| >= MAX_ORPHAN_BLOCKS
      ensures |orphans| <= 101 && (evicted.Some? ==> |orphans| >= 100)
      ensures evicted.Some? ==> forall h :: h in orphans && h != o.hash ==> evicted.value.expiration <= orphans[h].expiration
    {
      hide MapsOk, FiledOk, ListOk;
      ghost var wasNone := oldest.None?;
      DropExpired(isExpired);
      evicted := EvictOldest(wasNone);
      AddKeeps(Contents(), parentOf, o);
      SizeGrows(orphans, o);
      orphans := orphans[o.hash := o];
      prevOrphans := prevOrphans[o.prev := (if o.prev in prevOrphans then prevOrphans[o.prev] else []) + [o]];
    }

    /** Makes room in a full pool by removing the remembered oldest orphan, which a full pool always has. */
    method EvictOldest(ghost wasNone: bool) returns (ghost evicted: Option<Orphan>)
      requires MapsOk(Contents(), parentOf) && OldestOk(wasNone, {})
      requires |orphans| <= MAX_ORPHAN_BLOCKS + 1 && (|orphans| == MAX_ORPHAN_BLOCKS + 1 ==> wasNone)
      modifies this
      ensures MapsOk(Contents(), parentOf) && |orphans| <= MAX_ORPHAN_BLOCKS
      ensures orphans == if evicted.Some? then old(orphans) - {evicted.value.hash} else old(orphans)
      ensures evicted.Some? <==> |old(orphans)| >= MAX_ORPHAN_BLOCKS
      ensures evicted.Some? ==> oldest.None? && |orphans| >= MAX_ORPHAN_BLOCKS - 1
      ensures evicted.Some? ==> forall h :: h in old(orphans) ==> evicted.value.expiration <= old(orphans)[h].expiration
      ensures evicted.None? ==> oldest == old(oldest)
    {
      hide MapsOk;
      evicted := None;
      if |orphans| > 0 {
        NotEmpty(orphans.Keys);
      }
      if |orphans| + 1 > MAX_ORPHAN_BLOCKS {
        evicted := oldest;
        SizeDrops(orphans, oldest.value.hash);
        RemoveOrphanBlock(oldest.value);
        oldest := None;
      }
    }

    /** What the sweep keeps of the remembered oldest orphan. */
    ghost predicate OldestOk(wasNone: bool, todo: set<Hash>)
      reads this
    {
      (oldest.Some? ==> oldest.value.prev == parentOf(oldest.value.hash)) &&
      (forall h :: h in orphans && h !in todo ==> oldest.Some? && oldest.value.expiration <= orphans[h].expiration) &&
      (wasNone && oldest.Some? ==> oldest.value.hash in orphans && oldest.value.hash !in todo)
    }

    /** The range loop: removes expired orphans and remembers the oldest of the others. */
    method DropExpired(isExpired: Orphan -> bool)
      requires Valid()
      modifies this
      ensures MapsOk(Contents(), parentOf) && Swept(old(orphans), orphans, {}, isExpired)
      ensures |orphans| <= |old(orphans)| && OldestOk(old(oldest).None?, {})
    {
      hide MapsOk, FiledOk;
      var todo := orphans.Keys;
      ghost var start, wasNone := orphans, oldest.None?;
      while todo != {}
        invariant todo <= orphans.Keys && MapsOk(Contents(), parentOf) && Swept(start, orphans, todo, isExpired)
        invariant |orphans| <= |start| && OldestOk(wasNone, todo)
        decreases |todo|
      {
        NotEmpty(todo);
        var h :| h in todo;
        var o := orphans[h];
        Filed(h);
        todo := todo - {h};
        if isExpired(o) {
          SizeDrops(orphans, h);
          RemoveOrphanBlock(o);
        } else if oldest.None? || o.expiration < oldest.value.expiration {
          oldest := Some(o);
        }
      }
    }

    lemma Filed(h: Hash)
      requires MapsOk(Contents(), parentOf) && h in orphans
      ensures orphans[h].hash == h && orphans[h].prev == parentOf(h)
    {
      assert FiledOk(Contents(), parentOf, h);
    }

    /** Takes the first orphan of a parent out of the pool. */
    method TakeFirst(p: Hash) returns (o: Orphan)
      requires Valid() && p in prevOrphans
      modifies this`orphans, this`prevOrphans
      ensures Valid() && o.prev == p && o.hash in old(orphans) && old(orphans)[o.hash] == o
      ensures orphans == old(orphans) - {o.hash} && |orphans| < |old(orphans)| && prevOrphans.Keys <= old(prevOrphans).Keys
    {
      assert ListOk(Contents(), p);
      o := prevOrphans[p][0];
      assert o in prevOrphans[p];
      Filed(o.hash);
      SizeDrops(orphans, o.hash);
      RemoveOrphanBlock(o);
    }

    /**
     Accepts every orphan that descends from the block; stops at the first one that is refused.  `accept` is
     the verdict on a block after the blocks accepted so far.
     */
    method ProcessOrphans(hash: Hash, accept: (seq<Hash>, Hash) -> bool) returns (ok: bool, accepted: seq<Hash>)
      requires Valid()
      modifies this`orphans, this`prevOrphans
      ensures Valid() && forall h :: h in orphans ==> h in old(orphans) && orphans[h] == old(orphans)[h]
      ensures forall i :: 0 <= i < |accepted| ==> Linked(old(orphans), hash, accepted, i) && accept(accepted[..i], accepted[i])
      ensures ok ==> forall h :: h in old(orphans) ==> (h in orphans <==> h !in accepted)
      ensures ok ==> forall p :: p == hash || p in accepted ==> p !in prevOrphans
      ensures !ok ==> exists h :: h in old(orphans) && !accept(accepted, h) && (old(orphans)[h].prev == hash || old(orphans)[h].prev in accepted)
    {
      hide MapsOk;
      var processHashes := [hash];
      accepted := [];
      ghost var start, done := orphans, {};
      while |processHashes| > 0
        invariant Draining(start, orphans, hash, accept, accepted) && Valid() && done !! prevOrphans.Keys
        invariant forall p :: p == hash || p in accepted <==> p in done || p in processHashes
        decreases |orphans|, |processHashes|
      {
        var processHash := processHashes[0];
        assert processHashes == [processHash] + processHashes[1..];
        processHashes := processHashes[1..];
        ghost var rest, size := processHashes, |orphans|;
        while processHash in prevOrphans
          invariant Draining(start, orphans, hash, accept, accepted) && Valid() && done !! prevOrphans.Keys
          invariant forall p :: p == hash || p in accepted <==> p in done || p in processHashes || p == processHash
          invariant |orphans| <= size && (|orphans| == size ==> processHashes == rest)
          decreases |orphans|
        {
          ghost var before := orphans;
          var o := TakeFirst(processHash);
          if !accept(accepted, o.hash) {
            return false, accepted;
          }
          AcceptOne(start, before, hash, accept, accepted, o);
          accepted := accepted + [o.hash];
          processHashes := processHashes + [o.hash];
        }
        done := done + {processHash};
      }
      ok := true;
    }
  }

  // ----- removing and counting -----

  lemma {:induction false} WithoutConcat(a: seq<Orphan>, b: seq<Orphan>, h: Hash)
    ensures Without(a + b, h) == Without(a, h) + Without(b, h)
  {
    if |b| == 0 {
      assert a + b == a;
    } else {
      var t, x := b[..|b|-1], b[|b|-1];
      WithoutConcat(a, t, h);
      WithoutSnoc(a + t, x, h);
      assert a + b == (a + t) + [x];
    }
  }

  lemma DropOne(l: seq<Orphan>, i: nat, h: Hash)
    requires i < |l| && l[i].hash == h
    ensures Without(l[..i] + l[i+1..], h) == Without(l, h)
  {
    hide Without;
    var a, x, b := l[..i], l[i], l[i+1..];
    WithoutConcat(a, b, h);
    WithoutConcat(a + [x], b, h);
    WithoutSnoc(a, x, h);
    assert l == (a + [x]) + b;
  }

  lemma WithoutSnoc(t: seq<Orphan>, x: Orphan, h: Hash)
    ensures Without(t + [x], h) == if x.hash == h then Without(t, h) else Without(t, h) + [x]
  {
    assert (t + [x])[..|t|] == t;
  }

  lemma NotEmpty(s: set<Hash>)
    requires |s| > 0
    ensures exists h :: h in s
  {
    if forall h :: h !in s {
      NoMembers(s);
    }
  }

  lemma NoMembers(s: set<Hash>)
    requires forall h :: h !in s
    ensures |s| == 0
  {
    assert forall h :: h in s ==> h in {};
    assert s <= {};
  }

  lemma PutThenDrop(m: map<Hash, seq<Orphan>>, p: Hash, l: seq<Orphan>)
    ensures m[p := l] - {p} == m - {p}
  {
  }

  lemma {:induction false} NothingDropped(l: seq<Orphan>, h: Hash)
    requires forall k :: 0 <= k < |l| ==> l[k].hash != h
    ensures Without(l, h) == l
  {
    if |l| > 0 {
      NothingDropped(l[..|l|-1], h);
    }
  }

  /** Of the orphans already looked at, exactly the expired ones are gone. */
  ghost predicate Swept(start: map<Hash, Orphan>, now: map<Hash, Orphan>, todo: set<Hash>, isExpired: Orphan -> bool) {
    (forall h :: h in now ==> h in start && now[h] == start[h]) &&
    forall h :: h in start ==> (h in now <==> h in todo || !isExpired(start[h]))
  }

  lemma SizeDrops(m: map<Hash, Orphan>, h: Hash)
    ensures |m - {h}| == |m| - if h in m then 1 else 0
  {
    if h in m {
      assert m == (m - {h})[h := m[h]];
    } else {
      assert m - {h} == m;
    }
  }

  lemma SizeGrows(m: map<Hash, Orphan>, o: Orphan)
    requires o.hash !in m
    ensures |m[o.hash := o]| == |m| + 1
  {
    SizeDrops(m[o.hash := o], o.hash);
    assert m[o.hash := o] - {o.hash} == m;
  }

  // ----- descendants -----

  /** The parent of the `i`-th accepted block is the given block or an earlier accepted one. */
  ghost predicate Linked(pool: map<Hash, Orphan>, root: Hash, accepted: seq<Hash>, i: nat)
    requires i < |accepted|
  {
    accepted[i] in pool && (pool[accepted[i]].prev == root || pool[accepted[i]].prev in accepted[..i])
  }

  /** The pool has lost exactly the accepted blocks. */
  ghost predicate Draining(start: map<Hash, Orphan>, now: map<Hash, Orphan>, root: Hash, accept: (seq<Hash>, Hash) -> bool, accepted: seq<Hash>) {
    (forall h :: h in now ==> h in start && now[h] == start[h]) &&
    (forall h :: h in start ==> (h in now <==> h !in accepted)) &&
    forall i :: 0 <= i < |accepted| ==> Linked(start, root, accepted, i) && accept(accepted[..i], accepted[i])
  }

  lemma AcceptOne(start: map<Hash, Orphan>, now: map<Hash, Orphan>, root: Hash, accept: (seq<Hash>, Hash) -> bool, accepted: seq<Hash>, o: Orphan)
    requires Draining(start, now, root, accept, accepted) && o.hash in now && now[o.hash] == o && accept(accepted, o.hash)
    requires o.prev == root || o.prev in accepted
    ensures Draining(start, now - {o.hash}, root, accept, accepted + [o.hash])
  {
    var a := accepted + [o.hash];
    forall i | 0 <= i < |a| ensures Linked(start, root, a, i) && accept(a[..i], a[i]) {
      if i < |accepted| {
        assert Linked(start, root, accepted, i);
        assert a[..i] == accepted[..i];
      } else {
        assert a[..i] == accepted;
      }
    }
  }

  /** `h` descends from `root` through `n` orphans. */
  ghost predicate Descends(pool: map<Hash, Orphan>, h: Hash, root: Hash, n: nat)
    decreases n
  {
    if n == 0 then h == root else h in pool && Descends(pool, pool[h].prev, root, n - 1)
  }

  lemma HasParent(m: Maps, parentOf: Hash -> Hash, h: Hash)
    requires MapsOk(m, parentOf)
    ensures h in m.orphans ==> m.orphans[h].prev in m.prevOrphans
  {
    if h in m.orphans {
      assert FiledOk(m, parentOf, h);
    }
  }

  /**
   After a successful pass the blocks that left the pool are exactly the descendants of the given block: none
   of them is left behind, and nothing else was accepted.
   */
  lemma {:induction false} DescendantsLeave(before: Maps, after: Maps, parentOf: Hash -> Hash, root: Hash, accepted: seq<Hash>, h: Hash, n: nat)
    requires MapsOk(after, parentOf)
    requires forall g :: g in after.orphans ==> g in before.orphans && after.orphans[g] == before.orphans[g]
    requires forall g :: g in before.orphans ==> (g in after.orphans <==> g !in accepted)
    requires forall p :: p == root || p in accepted ==> p !in after.prevOrphans
    requires n > 0 && Descends(before.orphans, h, root, n)
    ensures h in accepted && h !in after.orphans
    decreases n
  {
    var p := before.orphans[h].prev;
    if n > 1 {
      DescendantsLeave(before, after, parentOf, root, accepted, p, n - 1);
    }
    assert p == root || p in accepted;
    HasParent(after, parentOf, h);
  }

  lemma {:induction false} AcceptedDescend(pool: map<Hash, Orphan>, root: Hash, accepted: seq<Hash>, i: nat) returns (n: nat)
    requires i < |accepted| && forall k :: 0 <= k < |accepted| ==> Linked(pool, root, accepted, k)
    ensures n > 0 && Descends(pool, accepted[i], root, n)
    decreases i
  {
    assert Linked(pool, root, accepted, i);
    var p := pool[accepted[i]].prev;
    if p == root {
      n := 1;
      assert Descends(pool, p, root, 0);
    } else {
      var k :| 0 <= k < i && accepted[..i][k] == p;
      var m := AcceptedDescend(pool, root, accepted, k);
      n := m + 1;
    }
  }
}
