/** Runs of writes and truncations over many files of one exFAT volume. */
module ExfatRuns {
  import opened Bytes
  import opened ClusterChains
  import opened ExfatFiles

  /** What the volume knows of one file. */
  datatype Entry = Entry(first: nat, size: nat, dir: nat, path: seq<nat>)

  ghost predicate Sound(fat: Fat, cs: nat, e: Entry) {
    && ChainFrom(fat, e.first, e.path, END) && e.size <= |e.path| * cs
    && Usable(fat, e.dir) && fat[e.dir] != FREE
  }

  /** Every file has its chain, the chains share no cluster, and no file lies on a directory cluster. */
  ghost predicate Separate(fat: Fat, cs: nat, es: seq<Entry>) {
    && (forall i :: 0 <= i < |es| ==> Sound(fat, cs, es[i]))
    && (forall i, j :: 0 <= i < |es| && 0 <= j < |es| && i != j ==> Apart(es[i].path, es[j].path))
    && (forall i, j :: 0 <= i < |es| && 0 <= j < |es| ==> es[i].dir !in es[j].path)
  }

  /** What a step of one file does to the table and to its chain. */
  ghost predicate Moved(fat: Fat, fat': Fat, p: seq<nat>, p': seq<nat>) {
    if |p'| >= |p| then Grown(fat, fat', p, p') else p' == p[..|p'|] && Shrunk(fat, fat', p, |p'|)
  }

  lemma OthersStay(fat: Fat, fat': Fat, p: seq<nat>, p': seq<nat>, cs: nat, e: Entry)
    requires Moved(fat, fat', p, p') && Sound(fat, cs, e) && Apart(p, e.path)
    requires e.dir !in p
    ensures Sound(fat', cs, e) && Apart(p', e.path) && e.dir !in p'
  {
    if |p'| >= |p| {
      if e.path != [] { OthersStayWhenGrown(fat, fat', p, p', e.path, END); }
      assert forall i :: 0 <= i < |p'| ==> p'[i] in p || i >= |p|;
    } else {
      if e.path != [] { OthersStayWhenShrunk(fat, fat', p, |p'|, e.path, END); }
    }
  }

  /** A step of one file keeps all files separate. */
  lemma StepKeepsSeparate(fat: Fat, fat': Fat, cs: nat, es: seq<Entry>, k: nat, e: Entry)
    requires Separate(fat, cs, es) && k < |es| && Moved(fat, fat', es[k].path, e.path) && e.dir == es[k].dir
    requires ChainFrom(fat', e.first, e.path, END) && e.size <= |e.path| * cs
    ensures Separate(fat', cs, es[k := e])
  {
    hide Moved, Sound, Apart;
    DirStays(fat, fat', cs, es, k, e);
    forall i | 0 <= i < |es| && i != k
      ensures Sound(fat', cs, es[i]) && Apart(e.path, es[i].path) && Apart(es[i].path, e.path) && es[i].dir !in e.path
    {
      OthersStay(fat, fat', es[k].path, e.path, cs, es[i]);
      ApartBothWays(e.path, es[i].path);
    }
  }

  lemma ApartBothWays(p: seq<nat>, q: seq<nat>)
    ensures Apart(p, q) <==> Apart(q, p)
  {
  }

  lemma DirStays(fat: Fat, fat': Fat, cs: nat, es: seq<Entry>, k: nat, e: Entry)
    requires Separate(fat, cs, es) && k < |es| && Moved(fat, fat', es[k].path, e.path) && e.dir == es[k].dir
    requires ChainFrom(fat', e.first, e.path, END) && e.size <= |e.path| * cs
    ensures Sound(fat', cs, e) && e.dir !in e.path
  {
    OthersStay(fat, fat', es[k].path, e.path, cs, Entry(0, 0, e.dir, []));
  }

  // ---- A file as a flat sequence of bytes ----

  function Contents(data: seq<seq<Byte>>, path: seq<nat>, cs: nat, size: nat): (c: seq<Byte>)
    ensures |c| == size
  {
    seq(size, (o: nat) => FileByte(data, path, cs, o))
  }

  /** memory tells whether a write gets its array of cluster numbers, entry whether the directory entry can be read,
      grants whether the k-th cluster of a growing file gets its buffer of zeros. */
  datatype Change =
    | WriteAt(file: nat, offset: nat, buf: seq<Byte>, memory: bool, entry: bool)
    | Resize(file: nat, size: nat, grants: nat -> bool, entry: bool)

  datatype Outcome = Done | NoMemory | DiskFull | LeftOut

  /** What a successful change does to the flat file. The new size of a write is recorded in the directory entry. Bytes
      that come in below the new size from behind the old one are whatever was in the clusters. */
  ghost predicate Changed(c: seq<Byte>, change: Change, c': seq<Byte>) {
    match change
    case WriteAt(_, offset, buf, _, entry) =>
      && |c'| == (if entry && buf != [] && offset + |buf| > |c| then offset + |buf| else |c|)
      && forall o :: 0 <= o < |c'| ==>
        if offset <= o < offset + |buf| then c'[o] == buf[o - offset] else (o < |c| ==> c'[o] == c[o])
    case Resize(_, size, _, _) => |c'| == size && forall o :: 0 <= o < |c'| && o < |c| ==> c'[o] == c[o]
  }

  lemma WrittenContents(data: seq<seq<Byte>>, data': seq<seq<Byte>>, p: seq<nat>, p': seq<nat>, cs: nat, size: nat,
          size': nat, change: Change)
    requires cs > 0 && p <= p' && size <= |p| * cs && size' <= |p'| * cs && change.WriteAt?
    requires Patched(data, data', p', cs, change.offset, change.buf, |change.buf|)
    requires var end := change.offset + |change.buf|;
      size' == if change.entry && change.buf != [] && end > size then end else size
    ensures Changed(Contents(data, p, cs, size), change, Contents(data', p', cs, size'))
  {
    hide FileByte;
    var offset, buf := change.offset, change.buf;
    forall o: nat | o < size'
      ensures FileByte(data', p', cs, o) == if offset <= o < offset + |buf| then buf[o - offset]
        else FileByte(data, p', cs, o)
    {
      InsideFile(o, |p'|, cs);
    }
    forall o: nat | o < size
      ensures FileByte(data, p', cs, o) == FileByte(data, p, cs, o)
    {
      InsideFile(o, |p|, cs);
      SameClusterSameByte(data, data, p, p', cs, o);
    }
  }

  /** A file whose clusters keep their bytes keeps its own, up to the smaller size. */
  lemma KeptContents(data: seq<seq<Byte>>, data': seq<seq<Byte>>, p: seq<nat>, p': seq<nat>, cs: nat, size: nat,
          size': nat)
    requires cs > 0 && (p <= p' || p' <= p) && size <= |p| * cs && size' <= |p'| * cs && |data| == |data'|
    requires forall i :: 0 <= i < |p| && i < |p'| && p[i] < |data| ==> data'[p[i]] == data[p[i]]
    ensures forall o :: 0 <= o < size && o < size' ==>
      Contents(data', p', cs, size')[o] == Contents(data, p, cs, size)[o]
  {
    hide FileByte;
    forall o: nat | o < size && o < size'
      ensures FileByte(data', p', cs, o) == FileByte(data, p, cs, o)
    {
      InsideFile(o, |p|, cs);
      InsideFile(o, |p'|, cs);
      SameClusterSameByte(data, data', p, p', cs, o);
    }
  }

  // ---- On the volume ----

  ghost function Entries(files: seq<Inode>, chains: seq<seq<nat>>): (es: seq<Entry>)
    requires |chains| == |files|
    reads files
    ensures |es| == |files|
  {
    seq(|files|, i requires 0 <= i < |files| reads files =>
      Entry(files[i].FirstCluster, files[i].Size, files[i].DirCluster, chains[i]))
  }

  ghost predicate FileSystem(v: Volume, files: seq<Inode>, chains: seq<seq<nat>>)
    reads v, v.FatCache, files
  {
    && v.Valid() && |chains| == |files|
    && (forall i, j :: 0 <= i < j < |files| ==> files[i] != files[j])
    && Separate(v.FatCache[..], v.ClusterSize, Entries(files, chains))
  }

  /** No byte of the file changed. */
  ghost predicate SameBytes(data: seq<seq<Byte>>, data': seq<seq<Byte>>, path: seq<nat>, cs: nat) {
    forall o: nat :: FileByte(data', path, cs, o) == FileByte(data, path, cs, o)
  }

  /** The other files keep their chains and all their bytes. */
  ghost predicate OthersSame(data: seq<seq<Byte>>, data': seq<seq<Byte>>, chains: seq<seq<nat>>,
          chains': seq<seq<nat>>, k: nat, cs: nat) {
    && |chains'| == |chains|
    && forall i :: 0 <= i < |chains| && i != k ==> chains'[i] == chains[i] && SameBytes(data, data', chains[i], cs)
  }

  lemma FileIsSound(v: Volume, files: seq<Inode>, chains: seq<seq<nat>>, k: nat)
    requires FileSystem(v, files, chains) && k < |files|
    ensures v.File(files[k], chains[k])
  {
    assert Sound(v.FatCache[..], v.ClusterSize, Entries(files, chains)[k]);
    assert Entries(files, chains)[k].dir !in Entries(files, chains)[k].path;
  }

  lemma OthersKeepBytes(fat: Fat, fat': Fat, cs: nat, es: seq<Entry>, k: nat, p': seq<nat>, data: seq<seq<Byte>>,
          data': seq<seq<Byte>>)
    requires Separate(fat, cs, es) && k < |es| && Moved(fat, fat', es[k].path, p') && |data'| == |data|
    requires forall c :: 0 <= c < |data| && c != es[k].dir && (c !in p' || c in es[k].path) && c !in p' ==>
      data'[c] == data[c]
    ensures forall i :: 0 <= i < |es| && i != k ==> SameBytes(data, data', es[i].path, cs)
  {
    forall i | 0 <= i < |es| && i != k
      ensures SameBytes(data, data', es[i].path, cs)
    {
      OthersStay(fat, fat', es[k].path, p', cs, es[i]);
      forall j | 0 <= j < |es[i].path| && es[i].path[j] < |data|
        ensures data'[es[i].path[j]] == data[es[i].path[j]]
      {
        assert es[k].dir !in es[i].path && es[i].path[j] in es[i].path;
      }
      BytesStay(data, data', es[i].path, cs);
    }
  }

  lemma BytesStay(data: seq<seq<Byte>>, data': seq<seq<Byte>>, q: seq<nat>, cs: nat)
    requires |data'| == |data| && forall i :: 0 <= i < |q| && q[i] < |data| ==> data'[q[i]] == data[q[i]]
    ensures SameBytes(data, data', q, cs)
  {
  }

  ghost predicate Spent(fat: Fat, fat': Fat, n: nat, n': nat) {
    FreeClusters(fat') + n' == FreeClusters(fat) + n
  }

  /** ExfatWrite to file k. */
  method WriteOne(v: Volume, files: seq<Inode>, f: Inode, ghost k: nat, offset: nat, buf: seq<Byte>, memory: bool,
          entry: bool, ghost chains: seq<seq<nat>>)
    returns (r: int, stray: bool, ghost chains': seq<seq<nat>>)
    requires FileSystem(v, files, chains) && k < |files| && files[k] == f
    requires |buf| < UINT32 && (offset + |buf|) / v.ClusterSize < UINT32
    modifies v`Data, f`FirstCluster, f`Size, v.FatCache
    ensures FileSystem(v, files, chains') && OthersSame(old(v.Data), v.Data, chains, chains', k, v.ClusterSize)
    ensures var was := old(Contents(v.Data, chains[k], v.ClusterSize, f.Size));
      var now := Contents(v.Data, chains'[k], v.ClusterSize, f.Size);
      if r == 0 then Changed(was, WriteAt(k, offset, buf, memory, entry), now) else now == was
    ensures r == 0 <==>
      || buf == []
      || (memory && !stray && LastIndex(offset, buf, v.ClusterSize) < |chains[k]| + FreeClusters(old(v.FatCache[..])))
    ensures stray <==>
      buf != [] && memory && Behind(offset, |chains[k]|, v.ClusterSize) && FreeClusters(old(v.FatCache[..])) > 0
    ensures Spent(old(v.FatCache[..]), v.FatCache[..], |chains[k]|, |chains'[k]|)
    ensures r == 0 && buf != [] ==>
      |chains'[k]| == Needed(WriteAt(k, offset, buf, memory, entry), |chains[k]|, v.ClusterSize)
    ensures buf == [] || !memory || stray ==> |chains'[k]| == |chains[k]|
    ensures r != 0 && memory && !stray ==> FreeClusters(v.FatCache[..]) == 0
  {
    hide Separate, Grown, Patched, SameBytes, Chain, Clusters, FileByte, Moved, Usable, LastIndex, Behind, Contents,
      Changed;
    ghost var es, fat, data, size := Entries(files, chains), v.FatCache[..], v.Data, f.Size;
    FileIsSound(v, files, chains, k);
    v.SomeSize();
    var written;
    ghost var p';
    r, written, stray, p' := v.Write(f, offset, buf, memory, entry, chains[k]);
    ghost var e := Entry(f.FirstCluster, f.Size, f.DirCluster, p');
    GrownIsMoved(fat, v.FatCache[..], chains[k], p');
    v.GrownIsLonger(fat, chains[k], p');
    StepKeepsSeparate(fat, v.FatCache[..], v.ClusterSize, es, k, e);
    OthersKeepBytes(fat, v.FatCache[..], v.ClusterSize, es, k, p', data, v.Data);
    chains' := chains[k := p'];
    assert Entries(files, chains') == es[k := e];
    assert forall i :: 0 <= i < |chains| ==> es[i].path == chains[i];
    if r == 0 {
      WrittenContents(data, v.Data, chains[k], p', v.ClusterSize, size, f.Size,
        WriteAt(k, offset, buf, memory, entry));
    } else {
      KeptContents(data, v.Data, chains[k], p', v.ClusterSize, size, f.Size);
    }
  }

  lemma GrownIsMoved(fat: Fat, fat': Fat, p: seq<nat>, p': seq<nat>)
    requires Grown(fat, fat', p, p')
    ensures Moved(fat, fat', p, p')
  {
  }

  /** ExfatTruncate of file k. */
  method TruncateOne(v: Volume, files: seq<Inode>, f: Inode, ghost k: nat, newSize: nat, grants: nat -> bool,
          entry: bool, ghost chains: seq<seq<nat>>)
    returns (r: int, ghost chains': seq<seq<nat>>)
    requires FileSystem(v, files, chains) && k < |files| && files[k] == f
    requires (newSize + v.ClusterSize - 1) / v.ClusterSize < UINT32
    modifies v`Data, f`FirstCluster, f`Size, v.FatCache
    ensures FileSystem(v, files, chains') && OthersSame(old(v.Data), v.Data, chains, chains', k, v.ClusterSize)
    ensures r == 0 || r == -1
    ensures r == 0 ==> f.Size == newSize && |chains'[k]| == (newSize + v.ClusterSize - 1) / v.ClusterSize
    ensures chains'[k] <= chains[k] || chains[k] <= chains'[k]
    ensures var was := old(Contents(v.Data, chains[k], v.ClusterSize, f.Size));
      var now := Contents(v.Data, chains'[k], v.ClusterSize, f.Size);
      if r == 0 then Changed(was, Resize(k, newSize, grants, entry), now) else now == was
    ensures r == 0 ==>
      ZerosFrom(Contents(v.Data, chains'[k], v.ClusterSize, f.Size), |chains[k]|, v.ClusterSize, grants)
    ensures r == 0 <==>
      (newSize + v.ClusterSize - 1) / v.ClusterSize <= |chains[k]| + FreeClusters(old(v.FatCache[..]))
    ensures Spent(old(v.FatCache[..]), v.FatCache[..], |chains[k]|, |chains'[k]|)
    ensures r != 0 ==> FreeClusters(v.FatCache[..]) == 0
  {
    hide Separate, SameBytes, Chain, Clusters, FileByte, Volume.Zeroed, ZerosFrom, Contents, Changed, Grown, Shrunk;
    ghost var es, fat, data, size := Entries(files, chains), v.FatCache[..], v.Data, f.Size;
    FileIsSound(v, files, chains, k);
    v.SomeSize();
    ghost var p';
    r, p' := v.Truncate(f, newSize, grants, entry, chains[k]);
    ghost var e := Entry(f.FirstCluster, f.Size, f.DirCluster, p');
    StepKeepsSeparate(fat, v.FatCache[..], v.ClusterSize, es, k, e);
    OthersKeepBytes(fat, v.FatCache[..], v.ClusterSize, es, k, p', data, v.Data);
    chains' := chains[k := p'];
    assert Entries(files, chains') == es[k := e];
    assert forall i :: 0 <= i < |chains| ==> es[i].path == chains[i];
    if |p'| >= |chains[k]| { v.GrownIsLonger(fat, chains[k], p'); }
    KeptContents(data, v.Data, chains[k], p', v.ClusterSize, size, f.Size);
    ResizedContents(Contents(data, chains[k], v.ClusterSize, size),
      Contents(v.Data, p', v.ClusterSize, f.Size), Resize(k, newSize, grants, entry));
    PathFacts(v.FatCache[..], f.FirstCluster, p');
    ZeroContents(v, data, p', |chains[k]|, f.Size, grants);
  }

  lemma ResizedContents(c: seq<Byte>, c': seq<Byte>, change: Change)
    requires change.Resize? && forall o :: 0 <= o < |c| && o < |c'| ==> c'[o] == c[o]
    ensures |c'| == change.size ==> Changed(c, change, c')
    ensures |c'| == |c| ==> c' == c
  {
  }

  /** From the n-th cluster on the bytes are 0 where that was granted. */
  ghost predicate ZerosFrom(c: seq<Byte>, n: nat, cs: nat, grants: nat -> bool)
    requires cs > 0
  {
    forall o :: 0 <= o < |c| && o / cs >= n && grants(o / cs) ==> c[o] == 0
  }

  lemma ZeroContents(v: Volume, data: seq<seq<Byte>>, path: seq<nat>, n: nat, size: nat, grants: nat -> bool)
    requires v.Valid() && v.Zeroed(data, v.Data, path, n, grants) && |data| == |v.Data|
    requires forall i :: 0 <= i < |path| ==> path[i] < |data|
    ensures v.ClusterSize > 0 && ZerosFrom(Contents(v.Data, path, v.ClusterSize, size), n, v.ClusterSize, grants)
  {
    v.SomeSize();
    forall o | 0 <= o < size && o / v.ClusterSize >= n && grants(o / v.ClusterSize)
      ensures FileByte(v.Data, path, v.ClusterSize, o) == 0
    {
    }
  }

  // ---- The file system on flat files and a number of free clusters ----

  datatype FlatFile = FlatFile(bytes: seq<Byte>, clusters: nat)

  datatype FlatDisk = FlatDisk(files: seq<FlatFile>, free: nat)

  /** What a client sees of a volume. */
  ghost function Flat(v: Volume, files: seq<Inode>, chains: seq<seq<nat>>): (d: FlatDisk)
    requires |chains| == |files|
    reads v, v.FatCache, files
    ensures |d.files| == |files|
  {
    FlatDisk(seq(|files|, i requires 0 <= i < |files| reads v, files =>
      FlatFile(Contents(v.Data, chains[i], v.ClusterSize, files[i].Size), |chains[i]|)),
      FreeClusters(v.FatCache[..]))
  }

  /** The clusters a file needs for the change. */
  function Needed(change: Change, have: nat, cs: nat): nat
    requires cs > 0
  {
    match change
    case WriteAt(_, offset, buf, _, _) =>
      if buf == [] || LastIndex(offset, buf, cs) < have then have else LastIndex(offset, buf, cs) + 1
    case Resize(_, size, _, _) => (size + cs - 1) / cs
  }

  /** Whether the sizes and cluster indices of the change fit in 32 bits. */
  predicate Fits32(change: Change, cs: nat)
    requires cs > 0
  {
    match change
    case WriteAt(_, offset, buf, _, _) => |buf| < UINT32 && (offset + |buf|) / cs < UINT32
    case Resize(_, size, _, _) => (size + cs - 1) / cs < UINT32
  }

  /** Whether the code would write outside its array of cluster numbers. */
  predicate Stray(d: FlatDisk, change: Change, cs: nat)
    requires cs > 0 && change.file < |d.files|
  {
    && change.WriteAt? && change.buf != [] && change.memory
    && Behind(change.offset, d.files[change.file].clusters, cs) && d.free > 0
  }

  /** How the change ends, by counting clusters. */
  function Verdict(d: FlatDisk, change: Change, cs: nat): Outcome
    requires cs > 0
  {
    if change.file >= |d.files| || !Fits32(change, cs) || Stray(d, change, cs) then
      LeftOut
    else if change.WriteAt? && change.buf != [] && !change.memory then
      NoMemory
    else
      var have := d.files[change.file].clusters;
      if Needed(change, have, cs) <= have + d.free then Done else DiskFull
  }

  /** A change ends as the count of clusters says. A successful one does to the flat file it names what it says, a
      failing one changes no byte, though on a full disk the file keeps the clusters it got. */
  ghost predicate FlatStep(d: FlatDisk, change: Change, outcome: Outcome, cs: nat, d': FlatDisk)
    requires cs > 0
  {
    && |d'.files| == |d.files|
    && (forall i :: 0 <= i < |d.files| && i != change.file ==> d'.files[i] == d.files[i])
    && outcome == Verdict(d, change, cs)
    && match outcome
       case NoMemory => d' == d
       case LeftOut => d' == d
       case Done =>
         var f, f' := d.files[change.file], d'.files[change.file];
         && (change.Resize? ==> ZerosFrom(f'.bytes, f.clusters, cs, change.grants))
         && Changed(f.bytes, change, f'.bytes) && f'.clusters == Needed(change, f.clusters, cs)
         && d'.free + f'.clusters == d.free + f.clusters
       case DiskFull =>
         var f := d.files[change.file];
         d'.files[change.file] == FlatFile(f.bytes, f.clusters + d.free) && d'.free == 0
  }

  function Held(files: seq<FlatFile>): nat {
    if files == [] then 0 else Held(files[..|files| - 1]) + files[|files| - 1].clusters
  }

  /** The clusters of all files and the free ones. */
  function Total(d: FlatDisk): nat {
    Held(d.files) + d.free
  }

  lemma {:induction false} HeldDiffers(a: seq<FlatFile>, b: seq<FlatFile>, k: nat)
    requires |a| == |b| && k < |a| && forall i :: 0 <= i < |a| && i != k ==> a[i] == b[i]
    ensures Held(a) + b[k].clusters == Held(b) + a[k].clusters
  {
    var n := |a| - 1;
    if k == n {
      assert a[..n] == b[..n];
    } else {
      HeldDiffers(a[..n], b[..n], k);
    }
  }

  /** No change loses a cluster or counts one twice. */
  lemma StepConservesClusters(d: FlatDisk, change: Change, outcome: Outcome, cs: nat, d': FlatDisk)
    requires cs > 0 && FlatStep(d, change, outcome, cs, d')
    ensures Total(d') == Total(d)
  {
    if change.file < |d.files| { HeldDiffers(d.files, d'.files, change.file); }
  }

  /** Any run of writes and truncations keeps all chains acyclic and disjoint, and does to the volume what the same
      changes do to flat byte sequences and a count of free clusters, one after the other; history has what the client
      sees after each change. Changes that would leave the array of cluster numbers are left out. */
  method Run(v: Volume, files: seq<Inode>, changes: seq<Change>, ghost chains: seq<seq<nat>>)
    returns (outcomes: seq<Outcome>, ghost chains': seq<seq<nat>>, ghost history: seq<FlatDisk>)
    requires FileSystem(v, files, chains)
    modifies v`Data, files`FirstCluster, files`Size, v.FatCache
    ensures FileSystem(v, files, chains') && |outcomes| == |changes| && |history| == |changes| + 1
    ensures history[0] == old(Flat(v, files, chains)) && history[|changes|] == Flat(v, files, chains')
    ensures forall n :: 0 <= n < |changes| ==>
      FlatStep(history[n], changes[n], outcomes[n], v.ClusterSize, history[n + 1])
    ensures Total(history[|changes|]) == Total(history[0])
  {
    hide Separate, Clusters, Contents, Chain, FlatStep, Flat, Total;
    v.SomeSize();
    outcomes, chains', history := [], chains, [Flat(v, files, chains)];
    for n := 0 to |changes|
      invariant FileSystem(v, files, chains') && |outcomes| == n && |history| == n + 1
      invariant history[0] == old(Flat(v, files, chains)) && history[n] == Flat(v, files, chains')
      invariant forall m :: 0 <= m < n ==>
        FlatStep(history[m], changes[m], outcomes[m], v.ClusterSize, history[m + 1])
      invariant Total(history[n]) == Total(history[0])
    {
      var outcome;
      outcome, chains' := Apply(v, files, changes[n], chains');
      outcomes, history := outcomes + [outcome], history + [Flat(v, files, chains')];
      StepConservesClusters(history[n], changes[n], outcome, v.ClusterSize, history[n + 1]);
    }
  }

  lemma SameContents(data: seq<seq<Byte>>, data': seq<seq<Byte>>, path: seq<nat>, cs: nat, size: nat)
    requires SameBytes(data, data', path, cs)
    ensures Contents(data', path, cs, size) == Contents(data, path, cs, size)
  {
  }

  /** With the other files as they were, the contents change only at file k. */
  lemma OnlyThatFile(data: seq<seq<Byte>>, data': seq<seq<Byte>>, chains: seq<seq<nat>>, chains': seq<seq<nat>>,
          k: nat, cs: nat)
    requires OthersSame(data, data', chains, chains', k, cs)
    ensures forall i, size: nat :: 0 <= i < |chains| && i != k ==>
      Contents(data', chains'[i], cs, size) == Contents(data, chains[i], cs, size)
  {
    hide SameBytes, Contents;
    forall i, size: nat | 0 <= i < |chains| && i != k
      ensures Contents(data', chains'[i], cs, size) == Contents(data, chains[i], cs, size)
    {
      SameContents(data, data', chains[i], cs, size);
    }
  }

  method Apply(v: Volume, files: seq<Inode>, change: Change, ghost chains: seq<seq<nat>>)
    returns (outcome: Outcome, ghost chains': seq<seq<nat>>)
    requires FileSystem(v, files, chains)
    modifies v`Data, files`FirstCluster, files`Size, v.FatCache
    ensures FileSystem(v, files, chains')
    ensures FlatStep(old(Flat(v, files, chains)), change, outcome, v.ClusterSize, Flat(v, files, chains'))
  {
    hide Separate, SameBytes, Clusters, Grown, Patched, FileByte, Chain, Contents, Changed, LastIndex, Behind;
    hide ZerosFrom;
    outcome, chains' := LeftOut, chains;
    v.SomeSize();
    if change.file >= |files| || !Fits32(change, v.ClusterSize) { return; }
    var f := files[change.file];
    ghost var data := v.Data;
    var r, stray := 0, false;
    match change {
      case WriteAt(k, offset, buf, memory, entry) =>
        r, stray, chains' := WriteOne(v, files, f, k, offset, buf, memory, entry, chains);
      case Resize(k, size, grants, entry) =>
        r, chains' := TruncateOne(v, files, f, k, size, grants, entry, chains);
    }
    OnlyThatFile(data, v.Data, chains, chains', change.file, v.ClusterSize);
    outcome := if stray then LeftOut else if r == 0 then Done
      else if change.WriteAt? && !change.memory then NoMemory else DiskFull;
  }
}
