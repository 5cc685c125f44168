/** Kernel/Source/Fs/Fat32.c: allocating and freeing clusters in the cached FAT. */
module Fat32Clusters {
  import opened ClusterChains

  const EOC: nat := 0x0FFF_FFF8
  const BAD: nat := 0x0FFF_FFF7
  const UINT32: nat := 0x1_0000_0000

  /** Fat32NextCluster. */
  function NextCluster(fat: Fat, c: nat): nat {
    if !Usable(fat, c) then EOC
    else if fat[c] >= EOC || fat[c] == FREE || fat[c] == BAD then EOC
    else fat[c]
  }

  /** On a chain it leads to the next cluster, and to the end mark from the last one. */
  lemma NextFollowsChain(fat: Fat, path: seq<nat>, i: nat)
    requires Chain(fat, path, EOC) && i < |path| && |fat| <= BAD
    ensures NextCluster(fat, path[i]) == if i + 1 < |path| then path[i + 1] else EOC
  {
    if i + 1 < |path| { assert LinkedAt(fat, path, i + 1); }
  }

  // ---- Freeing from any cluster, whatever the table says ----

  function After(entry: nat): nat {
    if entry < EOC then entry else 0
  }

  /** The table Fat32FreeClusterChain leaves: a free entry stops it, so also a cycle does. */
  function Freed(fat: Fat, c: nat): (r: Fat)
    ensures |r| == |fat|
    decreases |fat| - FreeClusters(fat)
  {
    if !Usable(fat, c) || fat[c] == FREE then fat
    else
      FreeBelowUpdate(fat, c, FREE, |fat|);
      Freed(fat[c := FREE], After(fat[c]))
  }

  /** How often its loop runs. */
  function Steps(fat: Fat, c: nat): nat
    decreases |fat| - FreeClusters(fat)
  {
    if !Usable(fat, c) then 0
    else if fat[c] == FREE then 1
    else
      FreeBelowUpdate(fat, c, FREE, |fat|);
      1 + Steps(fat[c := FREE], After(fat[c]))
  }

  /** A way from c through clusters in use that leaves the table without meeting a free cluster or coming back. */
  ghost predicate Trail(fat: Fat, c: nat, path: seq<nat>) {
    if path == [] then !Usable(fat, c)
    else
      && path[0] == c && Linked(fat, path)
      && fat[path[|path| - 1]] != FREE && !Usable(fat, After(fat[path[|path| - 1]]))
  }

  /** Along a trail, the loop frees exactly the clusters of the trail, each once. */
  lemma {:induction false} FreeingATrail(fat: Fat, c: nat, path: seq<nat>)
    requires Trail(fat, c, path) && |fat| <= BAD
    ensures Freed(fat, c) == Released(fat, path) && Steps(fat, c) == |path|
    ensures FreeClusters(Freed(fat, c)) == FreeClusters(fat) + |path|
    decreases |path|
  {
    if path == [] {
      assert Released(fat, path) == fat;
    } else {
      var fat', rest := fat[c := FREE], path[1..];
      FreeBelowUpdate(fat, c, FREE, |fat|);
      TrailRest(fat, c, path);
      FreeingATrail(fat', After(fat[c]), rest);
      assert Released(fat', rest) == Released(fat, path) by {
        assert forall x :: x in path <==> x == c || x in rest by {
          assert path == [c] + rest;
        }
      }
    }
  }

  lemma TrailRest(fat: Fat, c: nat, path: seq<nat>)
    requires Trail(fat, c, path) && path != [] && |fat| <= BAD
    ensures fat[c] != FREE && Trail(fat[c := FREE], After(fat[c]), path[1..])
  {
    var fat', rest := fat[c := FREE], path[1..];
    if rest != [] {
      assert LinkedAt(fat, path, 1);
      forall i | 0 < i < |rest|
        ensures LinkedAt(fat', rest, i)
      {
        assert LinkedAt(fat, path, i + 1);
      }
    }
  }

  lemma TrailMore(fat: Fat, c: nat, rest: seq<nat>)
    requires Usable(fat, c) && fat[c] != FREE && |fat| <= BAD && Trail(fat[c := FREE], After(fat[c]), rest)
    ensures Trail(fat, c, [c] + rest)
  {
    var fat', path := fat[c := FREE], [c] + rest;
    if rest != [] {
      forall i | 0 <= i < |rest|
        ensures rest[i] != c
      {
        if i + 1 < |rest| { assert LinkedAt(fat', rest, i + 1); }
      }
    }
    forall i | 0 < i < |path|
      ensures LinkedAt(fat, path, i)
    {
      if i > 1 { assert LinkedAt(fat', rest, i - 1); }
    }
  }

  /** The loop counts each cluster it frees exactly once just when it runs along a trail. When it does not, it
      ends by freeing a free cluster again, and counts one too many. */
  lemma {:induction false} CountIsRightIffTrail(fat: Fat, c: nat)
    requires |fat| <= BAD
    ensures var gained := FreeClusters(Freed(fat, c)) - FreeClusters(fat);
      && (Steps(fat, c) == gained <==> exists path :: Trail(fat, c, path))
      && (Steps(fat, c) == gained || Steps(fat, c) == gained + 1)
    decreases |fat| - FreeClusters(fat)
  {
    if !Usable(fat, c) {
      assert Trail(fat, c, []);
    } else if fat[c] != FREE {
      FreeBelowUpdate(fat, c, FREE, |fat|);
      CountIsRightIffTrail(fat[c := FREE], After(fat[c]));
      var fat', next := fat[c := FREE], After(fat[c]);
      if rest :| Trail(fat', next, rest) {
        TrailMore(fat, c, rest);
      }
      if path :| Trail(fat, c, path) {
        TrailRest(fat, c, path);
      }
    } else {
      forall path
        ensures !Trail(fat, c, path)
      {
        assert |path| > 1 && Linked(fat, path) ==> Usable(fat, path[1]) && LinkedAt(fat, path, 1);
      }
    }
  }

  // ---- The allocator ----

  /** The cluster examined in turn i of the search from start. */
  function Turn(start: nat, i: nat, n: nat): nat {
    if start + i >= n then 2 + (start + i - n) else start + i
  }

  /** n - 2 turns examine every cluster. */
  lemma TurnsCover(start: nat, n: nat, c: nat)
    requires 2 <= start < n && 2 <= c < n
    ensures exists i: nat :: i < n - 2 && Turn(start, i, n) == c
  {
    var i: nat := if c >= start then c - start else c - 2 + n - start;
    assert Turn(start, i, n) == c;
  }

  class Fat32 {
    const FatCache: array<nat>
    var FreeCount: nat
    var NextFree: nat
    var Dirty: bool

    /** The table has room for the two reserved entries and no cluster number looks like a mark. */
    ghost predicate Valid()
      reads this, FatCache
    {
      2 <= FatCache.Length <= BAD && FreeCount < UINT32
    }

    /** How far the cached count of free clusters is off, in 32 bits. */
    ghost function Drift(): int
      reads this, FatCache
    {
      (FreeCount - FreeClusters(FatCache[..])) % UINT32
    }

    /** Fat32AllocCluster: the first free cluster from NextFree on, around the end of the table. */
    method AllocCluster() returns (c: nat)
      requires Valid()
      modifies this, FatCache
      ensures Valid() && Drift() == old(Drift())
      ensures c == 0 <==> forall d: nat :: Usable(old(FatCache[..]), d) ==> old(FatCache[d]) != FREE
      ensures c == 0 ==> FatCache[..] == old(FatCache[..]) && FreeClusters(FatCache[..]) == 0
      ensures c == 0 ==> NextFree == old(NextFree) && Dirty == old(Dirty)
      ensures c != 0 ==> Dirty && NextFree == if c + 1 < FatCache.Length then c + 1 else 2
      ensures c != 0 ==>
        && Usable(old(FatCache[..]), c) && old(FatCache[c]) == FREE && FatCache[..] == old(FatCache[..])[c := EOC]
        && FreeClusters(FatCache[..]) == FreeClusters(old(FatCache[..])) - 1
      ensures c != 0 ==>
        var start, n := if 2 <= old(NextFree) < FatCache.Length then old(NextFree) else 2, FatCache.Length;
        exists i: nat :: c == Turn(start, i, n) && forall j: nat :: j < i ==>
          Turn(start, j, n) < n && old(FatCache[..])[Turn(start, j, n)] != FREE
    {
      var start := NextFree;
      if start < 2 || start >= FatCache.Length { start := 2; }
      ghost var fat := FatCache[..];
      var n := FatCache.Length;
      for i := 0 to n - 2
        invariant FatCache[..] == fat && FreeCount == old(FreeCount) && NextFree == old(NextFree) && Dirty == old(Dirty)
        invariant forall j: nat :: j < i ==> Turn(start, j, n) < n && fat[Turn(start, j, n)] != FREE
      {
        c := start + i;
        if c >= n { c := 2 + (c - n); }
        assert c == Turn(start, i, n);
        if FatCache[c] == FREE {
          FreeBelowUpdate(fat, c, EOC, n);
          SomeFree(fat, c, n);
          FatCache[c] := EOC;
          assert FatCache[..] == fat[c := EOC];
          FreeCount := (FreeCount + UINT32 - 1) % UINT32;
          DriftDown(old(FreeCount), FreeClusters(fat));
          NextFree := c + 1;
          if NextFree >= n { NextFree := 2; }
          Dirty := true;
          return c;
        }
      }
      forall d: nat | Usable(fat, d)
        ensures fat[d] != FREE
      {
        TurnsCover(start, n, d);
      }
      NoneFree(fat, n);
      return 0;
    }

    /** Fat32FreeClusterChain, from any cluster of any table: it ends. */
    method FreeClusterChain(first: nat)
      requires Valid()
      modifies this, FatCache
      ensures Valid() && FatCache[..] == Freed(old(FatCache[..]), first)
      ensures FreeCount == (old(FreeCount) + Steps(old(FatCache[..]), first)) % UINT32
      ensures NextFree == old(NextFree) && (Dirty <==> old(Dirty) || Usable(old(FatCache[..]), first))
    {
      var cluster: nat := first;
      ghost var done := 0;
      while 2 <= cluster < FatCache.Length
        invariant Valid() && NextFree == old(NextFree) && (Dirty <==> old(Dirty) || done > 0)
        invariant done == 0 ==> cluster == first
        invariant done > 0 ==> Usable(old(FatCache[..]), first)
        invariant Freed(FatCache[..], cluster) == Freed(old(FatCache[..]), first)
        invariant done + Steps(FatCache[..], cluster) == Steps(old(FatCache[..]), first)
        invariant FreeCount == (old(FreeCount) + done) % UINT32
        decreases Steps(FatCache[..], cluster)
      {
        ghost var fat := FatCache[..];
        FreeBelowUpdate(fat, cluster, FREE, |fat|);
        var next := FatCache[cluster];
        FatCache[cluster] := FREE;
        assert FatCache[..] == fat[cluster := FREE];
        assert next == FREE ==> fat[cluster := FREE] == fat;
        CountUp(old(FreeCount), done);
        FreeCount := (FreeCount + 1) % UINT32;
        done := done + 1;
        cluster := if next < EOC then next else 0;
        Dirty := true;
      }
    }

    /** Freeing the chain of a file releases its clusters, no others, and keeps the count as right as it was. */
    method FreeFile(ghost path: seq<nat>, first: nat)
      requires Valid() && ChainFrom(FatCache[..], first, path, EOC)
      modifies this, FatCache
      ensures Valid() && FatCache[..] == Released(old(FatCache[..]), path) && Drift() == old(Drift())
      ensures FreeClusters(FatCache[..]) == FreeClusters(old(FatCache[..])) + |path|
    {
      FreeingATrail(FatCache[..], first, path);
      DriftUp(FreeCount, FreeClusters(FatCache[..]), |path|);
      FreeClusterChain(first);
    }

    /** Fat32AllocClusters: a chain of count clusters that were free, or, when there are too few, the table as
        it was. A failure leaves the number of a cluster that is free again in first. */
    method AllocClusters(count: nat) returns (r: nat, first: nat, ghost path: seq<nat>)
      requires Valid()
      modifies this, FatCache
      ensures Valid() && Drift() == old(Drift())
      ensures r == (if FreeClusters(old(FatCache[..])) >= count then count else 0)
      ensures FreeClusters(old(FatCache[..])) >= count ==>
        && |path| == count && ChainFrom(FatCache[..], first, path, EOC)
        && (forall i :: 0 <= i < count ==> Usable(old(FatCache[..]), path[i]) && old(FatCache[..])[path[i]] == FREE)
        && old(FatCache[..]) == Released(FatCache[..], path)
      ensures FreeClusters(old(FatCache[..])) < count ==> FatCache[..] == old(FatCache[..])
    {
      first, path := 0, [];
      var prev := 0;
      ghost var fat := FatCache[..];
      assert Released(fat, []) == fat;
      for i := 0 to count
        invariant Valid() && Drift() == old(Drift()) && |path| == i && ChainFrom(FatCache[..], first, path, EOC)
        invariant prev == if path == [] then 0 else path[i - 1]
        invariant fat == Released(FatCache[..], path) && FreeClusters(fat) == FreeClusters(FatCache[..]) + i
      {
        ghost var before := FatCache[..];
        var cluster := AllocCluster();
        if cluster == 0 {
          if first != 0 { FreeFile(path, first); }
          return 0, first, path;
        }
        if first == 0 { first := cluster; }
        if prev != 0 { FatCache[prev] := cluster; }
        LinkedUp(fat, before, FatCache[..], path, cluster);
        prev := cluster;
        path := path + [cluster];
      }
      return count, first, path;
    }
  }

  lemma LinkedUp(fat: Fat, before: Fat, after: Fat, path: seq<nat>, c: nat)
    requires |before| <= BAD && Usable(before, c) && before[c] == FREE && |after| == |before|
    requires path != [] ==> Chain(before, path, EOC)
    requires after == if path == [] then before[c := EOC] else before[c := EOC][path[|path| - 1] := c]
    requires fat == Released(before, path)
    ensures Chain(after, path + [c], EOC) && fat == Released(after, path + [c])
    ensures FreeClusters(after) == FreeClusters(before) - 1
  {
    FreeBelowUpdate(before, c, EOC, |before|);
    if path != [] {
      ChainIsTaken(before, path, EOC);
      var last := path[|path| - 1];
      assert after == before[last := c][c := EOC];
      ChainGrows(before, path, c, EOC, EOC);
      FreeBelowUpdate(before[c := EOC], last, c, |before|);
    }
    assert forall x :: x in path + [c] <==> x in path || x == c;
  }

  lemma CountUp(count: nat, done: nat)
    ensures ((count + done) % UINT32 + 1) % UINT32 == (count + (done + 1)) % UINT32
  {
  }

  lemma DriftUp(count: nat, free: nat, n: nat)
    ensures ((count + n) % UINT32 - (free + n)) % UINT32 == (count - free) % UINT32
  {
  }

  lemma DriftDown(count: nat, free: nat)
    requires count < UINT32
    ensures ((count + UINT32 - 1) % UINT32 - (free - 1)) % UINT32 == (count - free) % UINT32
  {
  }
}
