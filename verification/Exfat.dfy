/** Kernel/Source/Fs/Exfat.c: reading, writing and truncating files over cluster chains. */
module ExfatFiles {
  import opened Arith
  import opened Bytes
  import opened Lists
  import opened ClusterChains

  const END: nat := 0xFFFF_FFFF
  const UINT32: nat := 0x1_0000_0000

  /** ExfatNextCluster. */
  function NextCluster(fat: Fat, c: nat): nat {
    if c >= |fat| then 0 else fat[c]
  }

  lemma NextFollowsChain(fat: Fat, path: seq<nat>, i: nat)
    requires Chain(fat, path, END) && i < |path| && forall c :: 0 <= c < |fat| ==> fat[c] <= END
    ensures NextCluster(fat, path[i]) == if i + 1 < |path| then path[i + 1] else END
  {
    if i + 1 < |path| { assert LinkedAt(fat, path, i + 1); }
  }

  /** The marks at which the loops over a chain stop. */
  predicate Ends(c: nat) {
    c < 2 || c == END
  }

  /** The index of the last cluster of a write. */
  function LastIndex(offset: nat, buf: seq<Byte>, cs: nat): nat
    requires buf != [] && cs > 0
  {
    (offset + |buf| - 1) / cs
  }

  /** The offset lies behind a chain of n clusters, and not in the first cluster. */
  predicate Behind(offset: nat, n: nat, cs: nat)
    requires cs > 0
  {
    offset / cs > 0 && n <= offset / cs
  }

  // ---- Contents ----

  /** Byte o of a file whose clusters are path. */
  function FileByte(data: seq<seq<Byte>>, path: seq<nat>, cs: nat, o: nat): Byte {
    if cs > 0 && o / cs < |path| && path[o / cs] < |data| && o % cs < |data[path[o / cs]]|
    then data[path[o / cs]][o % cs]
    else 0
  }

  lemma SameClusterSameByte(data: seq<seq<Byte>>, data': seq<seq<Byte>>, p: seq<nat>, p': seq<nat>, cs: nat, o: nat)
    requires cs > 0 && o / cs < |p| && o / cs < |p'| && p[o / cs] == p'[o / cs] && |data| == |data'|
    requires p[o / cs] < |data| ==> data'[p[o / cs]] == data[p[o / cs]]
    ensures FileByte(data', p', cs, o) == FileByte(data, p, cs, o)
  {
  }

  /** The buffer of one cluster with a piece copied into it. */
  function Splice(cluster: seq<Byte>, off: nat, piece: seq<Byte>): seq<Byte>
    requires off + |piece| <= |cluster|
  {
    cluster[..off] + piece + cluster[off + |piece|..]
  }

  ghost predicate Clusters(data: seq<seq<Byte>>, cs: nat) {
    cs > 0 && forall c :: 0 <= c < |data| ==> |data[c]| == cs
  }

  /** Bytes [at, at + n) of the file are those of buf from position from on, the others are as in data. */
  ghost predicate Patched(data: seq<seq<Byte>>, data': seq<seq<Byte>>, path: seq<nat>, cs: nat, at: nat,
          buf: seq<Byte>, n: nat)
    requires n <= |buf| && cs > 0
  {
    forall o: nat :: o / cs < |path| ==>
      FileByte(data', path, cs, o) == if at <= o < at + n then buf[o - at] else FileByte(data, path, cs, o)
  }

  /** Only clusters of the path changed. */
  ghost predicate OnlyFile(data: seq<seq<Byte>>, data': seq<seq<Byte>>, path: seq<nat>) {
    |data'| == |data| && forall c: nat :: c < |data| && c !in path ==> data'[c] == data[c]
  }

  /** Writing a piece into one cluster of a file changes exactly those bytes of the file. */
  lemma PatchStep(data0: seq<seq<Byte>>, data: seq<seq<Byte>>, path: seq<nat>, cs: nat, at: nat, buf: seq<Byte>, n: nat,
                  idx: nat, off: nat, w: nat)
    requires Clusters(data, cs) && NoDup(path) && (forall i :: 0 <= i < |path| ==> path[i] < |data|)
    requires idx < |path| && off + w <= cs && n + w <= |buf| && at + n == Times(idx, cs) + off
    requires Patched(data0, data, path, cs, at, buf, n)
    ensures Patched(data0, data[path[idx] := Splice(data[path[idx]], off, buf[n..n + w])], path, cs, at, buf, n + w)
  {
    hide Times, FileByte, Splice;
    var c, piece := path[idx], buf[n..n + w];
    var data' := data[c := Splice(data[c], off, piece)];
    forall o: nat | o / cs < |path|
      ensures FileByte(data', path, cs, o) == if at <= o < at + (n + w) then buf[o - at]
        else FileByte(data0, path, cs, o)
    {
      PatchByte(data, path, cs, idx, off, piece, o);
    }
  }

  /** Byte o of the file after a splice into its cluster idx. */
  lemma PatchByte(data: seq<seq<Byte>>, path: seq<nat>, cs: nat, idx: nat, off: nat, piece: seq<Byte>, o: nat)
    requires Clusters(data, cs) && NoDup(path) && idx < |path| && path[idx] < |data|
    requires off + |piece| <= cs && o / cs < |path|
    ensures var c, start := path[idx], Times(idx, cs) + off;
      FileByte(data[c := Splice(data[c], off, piece)], path, cs, o)
      == if start <= o < start + |piece| then piece[o - start] else FileByte(data, path, cs, o)
  {
    hide Times;
    SameCluster(o, idx, cs);
    var q, c := o / cs, path[idx];
    if q != idx { assert path[q] != c; } else { SpliceByte(data[c], off, piece, o % cs); }
  }

  lemma SpliceByte(cluster: seq<Byte>, off: nat, piece: seq<Byte>, r: nat)
    requires off + |piece| <= |cluster| && r < |cluster|
    ensures Splice(cluster, off, piece)[r] == if off <= r < off + |piece| then piece[r - off] else cluster[r]
    ensures |Splice(cluster, off, piece)| == |cluster|
  {
  }

  /** Byte o lies in cluster idx exactly if it is less than a cluster behind its start. */
  lemma SameCluster(o: nat, idx: nat, cs: nat)
    requires cs > 0
    ensures o % cs < cs && (o / cs == idx <==> Times(idx, cs) <= o < Times(idx, cs) + cs)
    ensures o / cs == idx ==> o % cs == o - Times(idx, cs)
  {
    DivRem(o, cs);
    if Times(idx, cs) <= o < Times(idx, cs) + cs { DivUnique(o, cs, idx, o - Times(idx, cs)); }
  }

  lemma DivRem(o: nat, cs: nat)
    requires cs > 0
    ensures o == o / cs * cs + o % cs && o % cs < cs
  {
  }

  /** [offset, offset + size) starts off into cluster first and ends in cluster last. */
  ghost predicate Spans(offset: nat, size: nat, cs: nat, first: nat, off: nat, last: nat) {
    && cs > 0 && size > 0 && off < cs && first <= last
    && offset == Times(first, cs) + off && Times(last, cs) < offset + size <= Times(last + 1, cs)
  }

  /** The cluster arithmetic of one turn of the data loop. */
  lemma TurnSize(offset: nat, size: nat, cs: nat, first: nat, off: nat, last: nat, i: nat, done: nat)
    requires Spans(offset, size, cs, first, off, last) && first + i <= last
    requires offset + done == Times(first + i, cs) + (if i == 0 then off else 0) && done < size
    ensures var room := cs - (if i == 0 then off else 0);
      if first + i < last then size - done > room && offset + (done + room) == Times(first + i + 1, cs)
        else size - done <= room
  {
    hide Times;
    TimesNext(first + i, cs);
    if first + i < last { TimesMono(first + i + 1, last, cs); }
  }

  lemma ClustersInside(offset: nat, size: nat, cs: nat)
    requires cs > 0 && size > 0
    ensures var first, last := offset / cs, (offset + size - 1) / cs;
      Spans(offset, size, cs, first, offset % cs, last)
  {
    DivRem(offset + size - 1, cs);
    DivRem(offset, cs);
    var first, last := offset / cs, (offset + size - 1) / cs;
    MulSub(last, 1, cs);
    if last < first { MulMono(last + 1, first, cs); }
  }

  /** A byte below the end of n clusters lies in one of them. */
  lemma InsideFile(o: nat, n: nat, cs: nat)
    requires cs > 0
    ensures o < n * cs <==> o / cs < n
  {
    DivRem(o, cs);
    if o / cs < n { MulMono(o / cs + 1, n, cs); MulSub(o / cs, 1, cs); } else { MulMono(n, o / cs, cs); }
  }

  /** What the walk along a chain is at after i links. */
  function AtTurn(path: seq<nat>, i: nat): nat {
    if i < |path| then path[i] else if i == |path| && path != [] then END else 0
  }

  lemma WalkStep(fat: Fat, first: nat, path: seq<nat>, i: nat)
    requires ChainFrom(fat, first, path, END) && (forall c :: 0 <= c < |fat| ==> fat[c] <= END) && |fat| <= END
    requires AtTurn(path, i) >= 2
    ensures i <= |path| && NextCluster(fat, AtTurn(path, i)) == AtTurn(path, i + 1)
    ensures Ends(AtTurn(path, i)) <==> i >= |path|
  {
    if i < |path| { NextFollowsChain(fat, path, i); }
  }

  lemma OnlyEndsAtEnd(fat: Fat, first: nat, path: seq<nat>)
    requires ChainFrom(fat, first, path, END) && |fat| <= END
    ensures forall i :: 0 <= i <= |path| ==> (Ends(AtTurn(path, i)) <==> i == |path|)
  {
  }

  lemma PathFacts(fat: Fat, first: nat, path: seq<nat>)
    requires ChainFrom(fat, first, path, END)
    ensures NoDup(path) && (forall i :: 0 <= i < |path| ==> Usable(fat, path[i]) && AtTurn(path, i) == path[i])
      && AtTurn(path, 0) == first
  {
  }

  class Inode {
    var FirstCluster: nat
    var Size: nat
    const DirCluster: nat
  }

  class Volume {
    const FatCache: array<nat>
    const ClusterSize: nat
    var Data: seq<seq<Byte>>

    ghost predicate Valid()
      reads this, FatCache
    {
      && 2 <= FatCache.Length <= END && |Data| == FatCache.Length && Clusters(Data, ClusterSize)
      && (forall c :: 0 <= c < FatCache.Length ==> FatCache[c] <= END)
    }

    /** The file f occupies the clusters of path, and its directory entry lies elsewhere, in a cluster in use. */
    ghost predicate File(f: Inode, path: seq<nat>)
      reads this, FatCache, f
    {
      && ChainFrom(FatCache[..], f.FirstCluster, path, END) && f.Size <= |path| * ClusterSize
      && Usable(FatCache[..], f.DirCluster) && f.DirCluster !in path && FatCache[f.DirCluster] != FREE
    }

    /** Skipping n clusters of a file. */
    method Skip(first: nat, n: nat, ghost path: seq<nat>) returns (c: nat)
      requires Valid() && ChainFrom(FatCache[..], first, path, END)
      ensures n < |path| ==> c == path[n] >= 2
      ensures n == |path| ==> c == AtTurn(path, n)
      ensures n >= |path| ==> Ends(c)
    {
      hide ChainFrom;
      PathFacts(FatCache[..], first, path);
      c := first;
      var i := 0;
      while i < n && c >= 2
        invariant i <= n && i <= |path| + 1 && c == AtTurn(path, i)
      {
        WalkStep(FatCache[..], first, path, i);
        c := NextCluster(FatCache[..], c);
        i := i + 1;
      }
    }

    /** ExfatRead: the bytes of the file from offset on, as many as asked for and there are. */
    method Read(f: Inode, offset: nat, size: nat, ghost path: seq<nat>) returns (r: int, buf: seq<Byte>)
      requires Valid() && File(f, path)
      ensures r == 0
      ensures |buf| == if offset >= f.Size then 0 else if offset + size > f.Size then f.Size - offset else size
      ensures forall o :: offset <= o < offset + |buf| ==> buf[o - offset] == FileByte(Data, path, ClusterSize, o)
    {
      hide ChainFrom, FileByte, Clusters, AtTurn, Ends, NextCluster;
      r, buf := 0, [];
      if offset >= f.Size { return; }
      var toRead := if offset + size > f.Size then f.Size - offset else size;
      var cs := ClusterSize;
      InsideFile(offset, |path|, cs);
      PathFacts(FatCache[..], f.FirstCluster, path);
      var c := Skip(f.FirstCluster, offset / cs, path);
      if c < 2 { return -1, []; }
      var clusterOffset: nat := offset % cs;
      ghost var idx: nat := offset / cs;
      DivRem(offset, cs);
      OnlyEndsAtEnd(FatCache[..], f.FirstCluster, path);
      while |buf| < toRead && !Ends(c)
        invariant idx <= |path| && c == AtTurn(path, idx) && |buf| <= toRead && clusterOffset < cs
        invariant |buf| < toRead ==> offset + |buf| == idx * cs + clusterOffset
        invariant forall o :: offset <= o < offset + |buf| ==> buf[o - offset] == FileByte(Data, path, cs, o)
        decreases toRead - |buf|
      {
        NextAtTurn(f.FirstCluster, path, idx);
        var chunk := cs - clusterOffset;
        if chunk > toRead - |buf| { chunk := toRead - |buf|; }
        ClusterBytes(path, idx, clusterOffset, chunk);
        buf := buf + Data[c][clusterOffset..clusterOffset + chunk];
        assert (idx + 1) * cs == idx * cs + cs by { MulSub(idx, 1, cs); }
        clusterOffset := 0;
        c := NextCluster(FatCache[..], c);
        idx := idx + 1;
      }
    }

    lemma NextAtTurn(first: nat, path: seq<nat>, i: nat)
      requires Valid() && ChainFrom(FatCache[..], first, path, END) && i < |path|
      ensures path[i] < |Data| && AtTurn(path, i) == path[i] && |Data[path[i]]| == ClusterSize
      ensures NextCluster(FatCache[..], path[i]) == AtTurn(path, i + 1)
    {
      NextFollowsChain(FatCache[..], path, i);
    }

    lemma ClusterBytes(path: seq<nat>, idx: nat, off: nat, n: nat)
      requires Valid() && idx < |path| && path[idx] < |Data| && off + n <= ClusterSize
      ensures forall k :: off <= k < off + n ==>
        FileByte(Data, path, ClusterSize, idx * ClusterSize + k) == Data[path[idx]][k]
    {
      forall k | off <= k < off + n
        ensures FileByte(Data, path, ClusterSize, idx * ClusterSize + k) == Data[path[idx]][k]
      {
        DivUnique(idx * ClusterSize + k, ClusterSize, idx, k);
      }
    }

    /** The search for a free cluster in ExfatAllocCluster and ExfatWrite: the lowest one, 0 if there is none. */
    method FindFree() returns (c: nat)
      requires Valid()
      ensures c == 0 <==> Exhausted(FatCache[..])
      ensures c != 0 ==> Usable(FatCache[..], c) && FatCache[c] == FREE && forall d :: 2 <= d < c ==>
        FatCache[d] != FREE
    {
      for i := 2 to FatCache.Length
        invariant forall d :: 2 <= d < i ==> FatCache[d] != FREE
      {
        if FatCache[i] == FREE { return i; }
      }
      return 0;
    }

    /** A free cluster, linked behind the last one of the file or made its first one. */
    method AddCluster(f: Inode, isFirst: bool, last: nat, ghost fat0: Fat, ghost path0: seq<nat>, ghost path: seq<nat>)
      returns (c: nat)
      requires Valid() && ChainFrom(FatCache[..], f.FirstCluster, path, END) && Grown(fat0, FatCache[..], path0, path)
      requires isFirst == (path == []) && (path != [] ==> last == path[|path| - 1])
      modifies f`FirstCluster, FatCache
      ensures Valid()
      ensures c == 0 ==>
        FatCache[..] == old(FatCache[..]) && f.FirstCluster == old(f.FirstCluster) && Exhausted(FatCache[..])
      ensures c != 0 ==>
        ChainFrom(FatCache[..], f.FirstCluster, path + [c], END) && Grown(fat0, FatCache[..], path0, path + [c])
    {
      hide Chain, Grown;
      PathFacts(FatCache[..], f.FirstCluster, path);
      c := FindFree();
      if c == 0 { return; }
      ghost var before := FatCache[..];
      if isFirst {
        f.FirstCluster := c;
      } else {
        FatCache[last] := c;
      }
      FatCache[c] := END;
      assert FatCache[..] == Link(before, path, c, END);
      GrowStep(fat0, path0, before, path, c, FatCache[..], END);
    }

    /** The clusters are those of the chain path' from index first on, and path' is path with the missing ones added. */
    ghost predicate Gathered(clusters: seq<nat>, first: nat, path: seq<nat>, path': seq<nat>) {
      && |path'| == (if first + |clusters| > |path| then first + |clusters| else |path|)
      && clusters == path'[first..first + |clusters|]
    }

    lemma GatheredNone(first: nat, path: seq<nat>)
      requires first <= |path|
      ensures Gathered([], first, path, path)
    {
    }

    lemma GatheredNext(clusters: seq<nat>, first: nat, path: seq<nat>, path': seq<nat>)
      requires Gathered(clusters, first, path, path') && first + |clusters| < |path'|
      ensures Gathered(clusters + [path'[first + |clusters|]], first, path, path')
    {
    }

    lemma GatheredNew(clusters: seq<nat>, first: nat, path: seq<nat>, path': seq<nat>, added: nat)
      requires Gathered(clusters, first, path, path') && first + |clusters| == |path'|
      ensures Gathered(clusters + [added], first, path, path' + [added])
    {
    }

    lemma GatheredLength(clusters: seq<nat>, first: nat, path: seq<nat>, path': seq<nat>)
      requires Gathered(clusters, first, path, path')
      ensures |path'| == (if first + |clusters| > |path| then first + |clusters| else |path|)
      ensures clusters == path'[first..first + |clusters|]
      ensures clusters != [] && first + |clusters| == |path'| ==> clusters[|clusters| - 1] == path'[|path'| - 1]
    {
    }

    /** The clusters of ExfatWrite: those the file has from index first on, then new ones linked behind. A write that
        starts behind the end of the chain is stray: with a free cluster at hand the code would link it to the number
        in front of the array of clusters. */
    method Collect(f: Inode, first: nat, needed: nat, ghost path: seq<nat>)
      returns (ok: bool, stray: bool, clusters: seq<nat>, ghost path': seq<nat>)
      requires Valid() && ChainFrom(FatCache[..], f.FirstCluster, path, END) && needed > 0
      modifies f`FirstCluster, FatCache
      ensures Valid() && ChainFrom(FatCache[..], f.FirstCluster, path', END)
      ensures Grown(old(FatCache[..]), FatCache[..], path, path')
      ensures ok ==> |clusters| == needed && |path'| == (if first + needed > |path| then first + needed else |path|)
      ensures ok ==> clusters == path'[first..first + needed]
      ensures stray <==> 0 < first && |path| <= first && !Exhausted(old(FatCache[..]))
      ensures stray ==> !ok && path' == path && FatCache[..] == old(FatCache[..])
      ensures !ok ==> |path'| < first + needed && (stray || Exhausted(FatCache[..]))
    {
      hide Chain, ChainFrom, Grown, Gathered, Exhausted;
      ghost var fat := FatCache[..];
      stray, path', clusters := false, path, [];
      GrownNone(fat, path);
      var cluster := Skip(f.FirstCluster, first, path);
      PathFacts(fat, f.FirstCluster, path);
      if first <= |path| { GatheredNone(first, path); }
      while |clusters| < needed
        invariant Valid() && ChainFrom(FatCache[..], f.FirstCluster, path', END)
        invariant Grown(fat, FatCache[..], path, path')
        invariant |clusters| <= needed && (|clusters| > 0 || (path' == path && FatCache[..] == fat))
        invariant |clusters| > 0 ==> first < |path| || first == 0
        invariant if first + |clusters| < |path'| then cluster == path'[first + |clusters|] else Ends(cluster)
        invariant first < |path| || first == 0 ==> Gathered(clusters, first, path, path')
        decreases needed - |clusters|
      {
        ghost var before := FatCache[..];
        PathFacts(before, f.FirstCluster, path');
        if first < |path| || first == 0 { GatheredLength(clusters, first, path, path'); }
        if Ends(cluster) && |clusters| == 0 && first > 0 {
          var spare := FindFree();
          return false, spare != 0, clusters, path';
        } else if Ends(cluster) {
          var last := if |clusters| == 0 then 0 else clusters[|clusters| - 1];
          var added := AddCluster(f, |clusters| == 0 && first == 0, last, fat, path, path');
          if added == 0 { return false, false, clusters, path'; }
          GatheredNew(clusters, first, path, path', added);
          path' := path' + [added];
          clusters := clusters + [added];
        } else {
          NextOnChain(before, f.FirstCluster, path', first + |clusters|);
          GatheredNext(clusters, first, path, path');
          clusters := clusters + [cluster];
          cluster := NextCluster(FatCache[..], cluster);
        }
      }
      GatheredLength(clusters, first, path, path');
      return true, false, clusters, path';
    }

    /** One turn of the data loop of ExfatWrite: a whole cluster is written at once, a part of one is read,
        patched and written back. */
    method WritePiece(c: nat, off: nat, piece: seq<Byte>)
      requires Valid() && Usable(FatCache[..], c) && off + |piece| <= ClusterSize
      modifies `Data
      ensures Valid() && Data == old(Data)[c := Splice(old(Data)[c], off, piece)]
    {
      if |piece| == ClusterSize {
        assert Splice(Data[c], off, piece) == piece;
        Data := Data[c := piece];
      } else {
        var temp := Data[c];
        Data := Data[c := Splice(temp, off, piece)];
      }
    }

    /** The data loop of ExfatWrite. */
    method WriteData(clusters: seq<nat>, offset: nat, startOffset: nat, buf: seq<Byte>, ghost path: seq<nat>,
            ghost first: nat, ghost last: nat)
      returns (done: nat)
      requires Valid() && NoDup(path) && forall i :: 0 <= i < |path| ==> Usable(FatCache[..], path[i])
      requires Spans(offset, |buf|, ClusterSize, first, startOffset, last)
      requires last < |path| && clusters == path[first..last + 1]
      modifies `Data
      ensures Valid() && done == |buf| && OnlyFile(old(Data), Data, path)
      ensures Patched(old(Data), Data, path, ClusterSize, offset, buf, |buf|)
    {
      hide Patched, FileByte, Times;
      var cs := ClusterSize;
      done := 0;
      NothingPatched(path, offset, buf);
      for i := 0 to |clusters|
        invariant done <= |buf| && (i == |clusters| ==> done == |buf|)
        invariant Valid() && OnlyFile(old(Data), Data, path) && Patched(old(Data), Data, path, cs, offset, buf, done)
        invariant i < |clusters| ==>
          done < |buf| && offset + done == Times(first + i, cs) + (if i == 0 then startOffset else 0)
      {
        var c := clusters[i];
        var clusterOffset := if i == 0 then startOffset else 0;
        var size := cs - clusterOffset;
        if size > |buf| - done { size := |buf| - done; }
        TurnSize(offset, |buf|, cs, first, startOffset, last, i, done);
        PatchStep(old(Data), Data, path, cs, offset, buf, done, first + i, clusterOffset, size);
        WritePiece(c, clusterOffset, buf[done..done + size]);
        done := done + size;
      }
    }

    lemma NothingPatched(path: seq<nat>, at: nat, buf: seq<Byte>)
      requires ClusterSize > 0
      ensures Patched(Data, Data, path, ClusterSize, at, buf, 0)
    {
    }

    lemma GrownNone(fat: Fat, path: seq<nat>)
      ensures Grown(fat, fat, path, path)
    {
    }

    lemma NextOnChain(fat: Fat, first: nat, path: seq<nat>, i: nat)
      requires ChainFrom(fat, first, path, END) && (forall c :: 0 <= c < |fat| ==> fat[c] <= END) && |fat| <= END
      requires i < |path|
      ensures NextCluster(fat, path[i]) == if i + 1 < |path| then path[i + 1] else END
      ensures path[i] != END && path[i] >= 2
    {
      NextFollowsChain(fat, path, i);
    }

    lemma DirectoryApart(fat: Fat, path: seq<nat>, path': seq<nat>, dir: nat)
      requires Grown(fat, FatCache[..], path, path') && Usable(fat, dir) && dir !in path && fat[dir] != FREE
      ensures dir !in path' && Usable(FatCache[..], dir) && FatCache[dir] != FREE
    {
      assert forall i :: 0 <= i < |path'| ==> path'[i] in path || i >= |path|;
    }

    /** Reading the directory cluster, changing the file's entry in it and writing it back, when memory and the
        disk allow (entry). What the entry looks like is left open. */
    method UpdateDirectory(dir: nat, entry: bool)
      requires Valid() && Usable(FatCache[..], dir)
      modifies `Data
      ensures Valid() && (!entry ==> Data == old(Data))
      ensures |Data| == |old(Data)| && forall c :: 0 <= c < |Data| && c != dir ==> Data[c] == old(Data)[c]
    {
      if entry {
        var noise := new Byte[ClusterSize];
        Data := Data[dir := noise[..]];
      }
    }

    lemma DirectoryIsNoFile(before: seq<seq<Byte>>, path: seq<nat>, dir: nat, data0: seq<seq<Byte>>, at: nat,
            buf: seq<Byte>)
      requires ClusterSize > 0 && dir !in path && |before| == |Data|
      requires Patched(data0, before, path, ClusterSize, at, buf, |buf|)
      requires forall c :: 0 <= c < |Data| && c != dir ==> Data[c] == before[c]
      ensures Patched(data0, Data, path, ClusterSize, at, buf, |buf|)
    {
      hide FileByte;
      forall o: nat | o / ClusterSize < |path|
        ensures FileByte(Data, path, ClusterSize, o) == FileByte(before, path, ClusterSize, o)
      {
        assert path[o / ClusterSize] in path;
        SameClusterSameByte(before, Data, path, path, ClusterSize, o);
      }
    }

    /** ExfatWrite. memory tells whether the array of cluster numbers can be allocated, entry whether the directory
        entry can be read. path' is the chain afterwards. A stray write is followed up to where it leaves its array. */
    method Write(f: Inode, offset: nat, buf: seq<Byte>, memory: bool, entry: bool, ghost path: seq<nat>)
      returns (r: int, written: nat, stray: bool, ghost path': seq<nat>)
      requires Valid() && File(f, path)
      requires |buf| < UINT32 && (offset + |buf|) / ClusterSize < UINT32
      modifies `Data, f`FirstCluster, f`Size, FatCache
      ensures Valid() && File(f, path') && Grown(old(FatCache[..]), FatCache[..], path, path')
      ensures r == 0 || (r == -1 && written == 0)
      ensures r == 0 ==> written == |buf| && offset + |buf| <= |path'| * ClusterSize + (if buf == [] then offset else 0)
      ensures r == 0 ==> Patched(old(Data), Data, path', ClusterSize, offset, buf, |buf|)
      ensures r == -1 ==> Data == old(Data)
      ensures r == 0 <==>
        || buf == []
        || (memory && !stray && LastIndex(offset, buf, ClusterSize) < |path| + FreeClusters(old(FatCache[..])))
      ensures stray <==>
        buf != [] && memory && Behind(offset, |path|, ClusterSize) && FreeClusters(old(FatCache[..])) > 0
      ensures buf == [] || stray || !memory ==> path' == path && FatCache[..] == old(FatCache[..])
      ensures FreeClusters(FatCache[..]) + |path'| == FreeClusters(old(FatCache[..])) + |path|
      ensures r == -1 && memory && !stray ==> FreeClusters(FatCache[..]) == 0
      ensures r == 0 && buf != [] ==>
        var n := LastIndex(offset, buf, ClusterSize) + 1;
        |path'| == if n > |path| then n else |path|
      ensures f.Size == if r == 0 && entry && buf != []
        && offset + |buf| > old(f.Size) then offset + |buf| else old(f.Size)
      ensures |Data| == |old(Data)| && forall c :: 0 <= c < |Data| && c !in path' && c != f.DirCluster ==>
        Data[c] == old(Data)[c]
    {
      hide Chain, Grown, Patched, FileByte, Clusters;
      r, written, stray, path' := 0, 0, false, path;
      GrownNone(FatCache[..], path);
      SomeSize();
      NothingPatched(path, offset, buf);
      if |buf| == 0 { return; }
      var cs := ClusterSize;
      var first, last := offset / cs, LastIndex(offset, buf, cs);
      ClustersInside(offset, |buf|, cs);
      if !memory { return -1, 0, false, path; }
      var ok, clusters;
      ghost var fat, before := FatCache[..], f.FirstCluster;
      ExhaustedIsNoneFree(fat);
      ok, stray, clusters, path' := Collect(f, first, last - first + 1, path);
      DirectoryApart(fat, path, path', f.DirCluster);
      GrownIsLonger(fat, path, path');
      MulMono(|path|, |path'|, cs);
      GrowingIsCounted(fat, FatCache[..], before, f.FirstCluster, path, path', END);
      ExhaustedIsNoneFree(FatCache[..]);
      if !ok { return -1, 0, stray, path'; }
      PathFacts(FatCache[..], f.FirstCluster, path');
      MulMono(last + 1, |path'|, cs);
      var done := WriteData(clusters, offset, offset % cs, buf, path', first, last);
      ghost var data := Data;
      UpdateDirectory(f.DirCluster, entry);
      if entry && offset + done > f.Size { f.Size := offset + done; }
      DirectoryIsNoFile(data, path', f.DirCluster, old(Data), offset, buf);
      return 0, done, false, path';
    }

    lemma SomeSize()
      requires Valid()
      ensures ClusterSize > 0
    {
    }

    lemma GrownIsLonger(fat: Fat, path: seq<nat>, path': seq<nat>)
      requires Grown(fat, FatCache[..], path, path')
      ensures path <= path'
    {
    }

    /** What was written is read back exactly if the file reaches its end: the new size was recorded or not needed. */
    method WriteThenRead(f: Inode, offset: nat, buf: seq<Byte>, memory: bool, entry: bool, ghost path: seq<nat>)
      returns (r: int, back: seq<Byte>)
      requires Valid() && File(f, path)
      requires |buf| < UINT32 && (offset + |buf|) / ClusterSize < UINT32
      modifies `Data, f`FirstCluster, f`Size, FatCache
      ensures r == 0 ==> (back == buf <==> buf == [] || entry || offset + |buf| <= old(f.Size))
    {
      ghost var path';
      var written, stray, rr;
      r, written, stray, path' := Write(f, offset, buf, memory, entry, path);
      rr, back := Read(f, offset, |buf|, path');
      if r == 0 && buf != [] && (entry || offset + |buf| <= old(f.Size)) {
        forall k | 0 <= k < |buf|
          ensures back[k] == buf[k]
        {
          InsideFile(offset + k, |path'|, ClusterSize);
          assert back[offset + k - offset] == FileByte(Data, path', ClusterSize, offset + k);
        }
      }
    }

    /** The loops of ExfatTruncate that free a chain from its i-th cluster on. */
    method FreeFrom(c: nat, ghost first: nat, ghost path: seq<nat>, ghost i: nat)
      requires Valid() && ChainFrom(FatCache[..], first, path, END) && i <= |path| && c == AtTurn(path, i)
      modifies FatCache
      ensures Valid() && FatCache[..] == Released(old(FatCache[..]), path[i..])
    {
      ghost var fat, k := FatCache[..], i;
      var temp := c;
      PathFacts(fat, first, path);
      OnlyEndsAtEnd(fat, first, path);
      assert Released(fat, path[i..i]) == fat;
      while !Ends(temp)
        invariant i <= k <= |path| && temp == AtTurn(path, k) && Valid()
        invariant FatCache[..] == Released(fat, path[i..k])
        decreases |path| - k
      {
        assert path[k] !in path[i..k];
        var next := NextCluster(FatCache[..], temp);
        NextFollowsChain(fat, path, k);
        FatCache[temp] := FREE;
        ReleasedMore(fat, path, i, k);
        temp := next;
        k := k + 1;
      }
      assert path[i..k] == path[i..];
    }

    lemma ReleasedMore(fat: Fat, path: seq<nat>, i: nat, k: nat)
      requires i <= k < |path| && path[k] < |fat|
      ensures Released(fat, path[i..k])[path[k] := FREE] == Released(fat, path[i..k + 1])
    {
      assert path[i..k + 1] == path[i..k] + [path[k]];
    }

    /** The loop of ExfatTruncate that counts the clusters of a file and finds its last one. */
    method Count(first: nat, ghost path: seq<nat>) returns (n: nat, last: nat)
      requires Valid() && ChainFrom(FatCache[..], first, path, END)
      ensures n == |path| && last == if path == [] then 0 else path[|path| - 1]
    {
      n, last := 0, 0;
      var temp := first;
      PathFacts(FatCache[..], first, path);
      OnlyEndsAtEnd(FatCache[..], first, path);
      while !Ends(temp)
        invariant n <= |path| && temp == AtTurn(path, n) && last == if n == 0 then 0 else path[n - 1]
        decreases |path| - n
      {
        NextFollowsChain(FatCache[..], path, n);
        n, last := n + 1, temp;
        temp := NextCluster(FatCache[..], temp);
      }
    }

    /** The branch of ExfatTruncate that drops clusters: the ones behind the n-th are freed, then the chain is ended. */
    method Cut(first: nat, n: nat, ghost path: seq<nat>)
      requires Valid() && Chain(FatCache[..], path, END) && path[0] == first && 0 < n <= |path|
      modifies FatCache
      ensures Valid() && Chain(FatCache[..], path[..n], END) && Shrunk(old(FatCache[..]), FatCache[..], path, n)
    {
      ghost var fat := FatCache[..];
      var temp, last, i := first, 0, 0;
      OnlyEndsAtEnd(fat, first, path);
      while i < n && temp >= 2
        invariant FatCache[..] == fat && Valid()
        invariant i <= n && temp == AtTurn(path, i) && (i > 0 ==> last == path[i - 1])
      {
        NextFollowsChain(fat, path, i);
        last := temp;
        temp := NextCluster(FatCache[..], temp);
        i := i + 1;
      }
      CutStep(fat, path, n, END);
      FreeFrom(temp, first, path, n);
      FatCache[last] := END;
      assert FatCache[..] == Released(fat, path[n..])[path[n - 1] := END];
    }

    /** ExfatAllocCluster: the lowest free cluster is ended and, when there is memory for that, filled with zeros. */
    method AllocCluster(memory: bool) returns (r: int, c: nat)
      requires Valid()
      modifies `Data, FatCache
      ensures Valid() && (r == 0 || r == -1)
      ensures r == -1 <==> Exhausted(old(FatCache[..]))
      ensures r == -1 ==> FatCache[..] == old(FatCache[..]) && Data == old(Data)
      ensures r == 0 ==>
        Usable(old(FatCache[..]), c) && old(FatCache[..])[c] == FREE && FatCache[..] == old(FatCache[..])[c := END]
      ensures r == 0 ==> forall d :: 2 <= d < c ==> old(FatCache[..])[d] != FREE
      ensures r == 0 ==> Data == if memory then old(Data)[c := Zeros()] else old(Data)
    {
      c := FindFree();
      if c == 0 { return -1, 0; }
      FatCache[c] := END;
      if memory { Data := Data[c := Zeros()]; }
      return 0, c;
    }

    function Zeros(): seq<Byte> {
      seq<Byte>(ClusterSize, _ => 0)
    }

    /** The clusters of the path from the n-th on were filled with zeros where that was granted. */
    ghost predicate Zeroed(data: seq<seq<Byte>>, data': seq<seq<Byte>>, path: seq<nat>, n: nat, grants: nat -> bool) {
      forall k :: n <= k < |path| && path[k] < |data| ==>
        path[k] < |data'| && data'[path[k]] == if grants(k) then Zeros() else data[path[k]]
    }

    lemma NoneZeroed(data: seq<seq<Byte>>, path: seq<nat>, grants: nat -> bool)
      ensures Zeroed(data, data, path, |path|, grants)
    {
    }

    lemma ZeroedMore(data0: seq<seq<Byte>>, data1: seq<seq<Byte>>, data2: seq<seq<Byte>>, path: seq<nat>, n: nat,
            grants: nat -> bool, c: nat)
      requires Zeroed(data0, data1, path, n, grants) && c !in path && n <= |path| && OnlyFile(data0, data1, path[n..])
      requires c < |data1| && data2 == if grants(|path|) then data1[c := Zeros()] else data1
      ensures Zeroed(data0, data2, path + [c], n, grants)
    {
    }

    lemma OnlyFileNone(data: seq<seq<Byte>>)
      ensures OnlyFile(data, data, [])
    {
    }

    lemma OnlyFileMore(data0: seq<seq<Byte>>, data1: seq<seq<Byte>>, data2: seq<seq<Byte>>, q: seq<nat>, c: nat)
      requires OnlyFile(data0, data1, q) && |data2| == |data1|
      requires forall d :: 0 <= d < |data1| && d != c ==> data2[d] == data1[d]
      ensures OnlyFile(data0, data2, q + [c])
    {
    }

    lemma FreeIsNew(fat: Fat, first: nat, path: seq<nat>, c: nat)
      requires ChainFrom(fat, first, path, END) && Usable(fat, c) && fat[c] == FREE
      ensures c !in path
    {
      if path != [] { ChainIsTaken(fat, path, END); }
    }

    /** One turn of that branch: a free cluster is taken and linked behind the last one, or made the first. */
    method GrowOne(f: Inode, have: nat, last: nat, memory: bool, ghost fat0: Fat, ghost path0: seq<nat>,
            ghost path: seq<nat>)
      returns (r: int, c: nat)
      requires Valid() && ChainFrom(FatCache[..], f.FirstCluster, path, END) && have == |path|
      requires Grown(fat0, FatCache[..], path0, path) && last == if path == [] then 0 else path[|path| - 1]
      modifies `Data, f`FirstCluster, FatCache
      ensures Valid() && (r == 0 || r == -1)
      ensures r == 0 ==> c !in path && c < |old(Data)| && Data == if memory then old(Data)[c := Zeros()] else old(Data)
      ensures r == 0 ==> ChainFrom(FatCache[..], f.FirstCluster, path + [c], END)
      ensures r == 0 ==> Grown(fat0, FatCache[..], path0, path + [c])
      ensures r == -1 ==>
        && Exhausted(FatCache[..]) && FatCache[..] == old(FatCache[..]) && Data == old(Data)
        && f.FirstCluster == old(f.FirstCluster)
    {
      hide Chain, Grown, Exhausted, Clusters, Zeros;
      ghost var before := FatCache[..];
      PathFacts(before, f.FirstCluster, path);
      r, c := AllocCluster(memory);
      if r != 0 { return; }
      FreeIsNew(before, f.FirstCluster, path, c);
      if have == 0 {
        f.FirstCluster := c;
      } else {
        FatCache[last] := c;
        FatCache[c] := END;
      }
      assert FatCache[..] == Link(before, path, c, END);
      GrowStep(fat0, path0, before, path, c, FatCache[..], END);
    }

    /** The branch of ExfatTruncate that adds clusters. */
    method Grow(f: Inode, needed: nat, have: nat, last: nat, grants: nat -> bool, ghost path: seq<nat>)
      returns (r: int, ghost path': seq<nat>)
      requires Valid() && ChainFrom(FatCache[..], f.FirstCluster, path, END) && have == |path| < needed
      requires last == if path == [] then 0 else path[|path| - 1]
      modifies `Data, f`FirstCluster, FatCache
      ensures Valid() && ChainFrom(FatCache[..], f.FirstCluster, path', END)
      ensures Grown(old(FatCache[..]), FatCache[..], path, path')
      ensures (r == 0 && |path'| == needed) || (r == -1 && |path'| < needed && Exhausted(FatCache[..]))
      ensures OnlyFile(old(Data), Data, path'[|path|..]) && Zeroed(old(Data), Data, path', |path|, grants)
    {
      hide Chain, ChainFrom, Grown, Exhausted, OnlyFile, Clusters, Zeroed, Zeros;
      ghost var fat := FatCache[..];
      var current, lastCluster := have, last;
      path' := path;
      GrownNone(fat, path);
      assert path[|path|..] == [];
      OnlyFileNone(Data);
      NoneZeroed(Data, path, grants);
      while current < needed
        invariant Valid() && ChainFrom(FatCache[..], f.FirstCluster, path', END)
        invariant Grown(fat, FatCache[..], path, path')
        invariant |path'| == current <= needed && |path| <= current && path <= path'
        invariant lastCluster == if path' == [] then 0 else path'[current - 1]
        invariant OnlyFile(old(Data), Data, path'[|path|..]) && Zeroed(old(Data), Data, path', |path|, grants)
      {
        ghost var data := Data;
        var rc, c := GrowOne(f, current, lastCluster, grants(current), fat, path, path');
        if rc != 0 { return -1, path'; }
        assert (path' + [c])[|path|..] == path'[|path|..] + [c];
        OnlyFileMore(old(Data), data, Data, path'[|path|..], c);
        ZeroedMore(old(Data), data, Data, path', |path|, grants, c);
        lastCluster := c;
        path' := path' + [c];
        current := current + 1;
      }
      return 0, path';
    }

    /** ExfatTruncate to size 0. */
    method Empty(f: Inode, ghost path: seq<nat>)
      requires Valid() && File(f, path)
      modifies f`FirstCluster, f`Size, FatCache
      ensures Valid() && File(f, []) && f.Size == 0 && Shrunk(old(FatCache[..]), FatCache[..], path, 0)
      ensures path == [] ==> Grown(old(FatCache[..]), FatCache[..], path, [])
    {
      FreeFrom(f.FirstCluster, f.FirstCluster, path, 0);
      assert path[0..] == path;
      AllReleased(old(FatCache[..]), path);
      f.FirstCluster, f.Size := 0, 0;
    }

    /** The directory cluster is none of the path. */
    lemma StillZeroed(data0: seq<seq<Byte>>, data1: seq<seq<Byte>>, data2: seq<seq<Byte>>, path: seq<nat>, n: nat,
            grants: nat -> bool, dir: nat)
      requires Zeroed(data0, data1, path, n, grants) && dir !in path && |data2| == |data1|
      requires forall c :: 0 <= c < |data1| && c != dir ==> data2[c] == data1[c]
      ensures Zeroed(data0, data2, path, n, grants)
    {
    }

    /** ExfatTruncate: on success the file has exactly the clusters its new size needs. */
    method Truncate(f: Inode, newSize: nat, grants: nat -> bool, entry: bool, ghost path: seq<nat>)
      returns (r: int, ghost path': seq<nat>)
      requires Valid() && File(f, path) && (newSize + ClusterSize - 1) / ClusterSize < UINT32
      modifies `Data, f`FirstCluster, f`Size, FatCache
      ensures Valid() && File(f, path') && (r == 0 || r == -1)
      ensures r == 0 ==> |path'| == (newSize + ClusterSize - 1) / ClusterSize && f.Size == newSize
      ensures r == -1 ==> f.Size == old(f.Size) && |path| <= |path'| < (newSize + ClusterSize - 1) / ClusterSize
      ensures r == 0 <==> (newSize + ClusterSize - 1) / ClusterSize <= |path| + FreeClusters(old(FatCache[..]))
      ensures FreeClusters(FatCache[..]) + |path'| == FreeClusters(old(FatCache[..])) + |path|
      ensures r == -1 ==> FreeClusters(FatCache[..]) == 0
      ensures |path'| >= |path| ==> Grown(old(FatCache[..]), FatCache[..], path, path')
      ensures |path'| < |path| ==> path' == path[..|path'|] && Shrunk(old(FatCache[..]), FatCache[..], path, |path'|)
      ensures |Data| == |old(Data)| && Zeroed(old(Data), Data, path', |path|, grants)
      ensures forall c :: 0 <= c < |Data| && c != f.DirCluster && (c !in path' || c in path) ==> Data[c] == old(Data)[c]
    {
      hide Chain, Grown, Shrunk, Clusters;
      ghost var fat := FatCache[..];
      SomeSize();
      var cs := ClusterSize;
      var needed := (newSize + cs - 1) / cs;
      RoundedUp(newSize, cs);
      ghost var before := f.FirstCluster;
      path' := path;
      PathFacts(fat, f.FirstCluster, path);
      GrownNone(fat, path);
      if newSize == 0 {
        Empty(f, path);
        CuttingIsCounted(fat, FatCache[..], before, 0, path, 0, END);
        return 0, [];
      }
      var current, last := Count(f.FirstCluster, path);
      if current > needed {
        Cut(f.FirstCluster, needed, path);
        path' := path[..needed];
        CutFacts(fat, path, needed, f.DirCluster);
        CuttingIsCounted(fat, FatCache[..], before, before, path, needed, END);
      }
      if current < needed {
        r, path' := Grow(f, needed, current, last, grants, path);
        DirectoryApart(fat, path, path', f.DirCluster);
        GrownIsLonger(fat, path, path');
        MulMono(|path|, |path'|, cs);
        NewOnesAreNew(fat, path, path');
        GrowingIsCounted(fat, FatCache[..], before, f.FirstCluster, path, path', END);
        ExhaustedIsNoneFree(FatCache[..]);
        if r != 0 { return; }
      }
      f.Size := newSize;
      ghost var data := Data;
      UpdateDirectory(f.DirCluster, entry);
      StillZeroed(old(Data), data, Data, path', |path|, grants, f.DirCluster);
      return 0, path';
    }

    lemma RoundedUp(n: nat, cs: nat)
      requires cs > 0
      ensures n <= (n + cs - 1) / cs * cs && (n == 0 <==> (n + cs - 1) / cs == 0)
    {
      DivRem(n + cs - 1, cs);
      InsideFile(n + cs - 1, 1, cs);
    }

    lemma AllReleased(fat: Fat, path: seq<nat>)
      requires FatCache[..] == Released(fat, path)
      ensures Shrunk(fat, FatCache[..], path, 0)
      ensures path == [] ==> Grown(fat, FatCache[..], path, [])
    {
    }

    lemma CutFacts(fat: Fat, path: seq<nat>, n: nat, dir: nat)
      requires 0 < n < |path| && Shrunk(fat, FatCache[..], path, n) && Chain(FatCache[..], path[..n], END)
      requires Usable(fat, dir) && dir !in path && fat[dir] != FREE
      ensures FatCache[dir] != FREE && dir !in path[..n] && Usable(FatCache[..], dir)
      ensures path[..n][0] == path[0]
      ensures forall c :: c in path[..n] ==> c in path
    {
    }

    lemma NewOnesAreNew(fat: Fat, path: seq<nat>, path': seq<nat>)
      requires Grown(fat, FatCache[..], path, path') && (path != [] ==> Chain(fat, path, END))
      ensures forall c :: c in path'[|path|..] ==> c in path' && c !in path
    {
      if path != [] { ChainIsTaken(fat, path, END); }
      forall c | c in path'[|path|..]
        ensures c in path' && c !in path
      {
        var i :| |path| <= i < |path'| && path'[i] == c;
      }
    }
  }
}
