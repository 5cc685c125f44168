/** What whole runs of page-cache calls guarantee. */
module PageCacheRuns {
  import opened Lists
  import opened Bytes
  import opened Disks
  import opened LruPolicy
  import opened PageCache

  datatype Op =
    | Read(d: Disk, lba: nat, count: nat)
    | Write(d: Disk, lba: nat, count: nat, data: seq<Byte>)
    | Flush(disk: Disk?)
    | Writeback
    | SetSize(pages: nat)
    | Invalidate(d: Disk, lba: nat, count: nat)
    | InvalidateDisk(d: Disk)

  /** The bytes of all disks, as an uncached system would hold them. */
  type Plain = (Disk, int) -> Byte

  ghost predicate Fits(op: Op, disks: set<Disk>) {
    match op
    case Read(d, _, count) => d in disks && count * d.SectorSize < 0x1_0000_0000
    case Write(d, _, count, data) => d in disks && |data| == count * d.SectorSize < 0x1_0000_0000
    case _ => true
  }

  /** The call throws away bytes that only the cache holds: a dirty idle page it invalidates. */
  ghost predicate Loses(c: PCache, op: Op)
    reads c, c.Pages
  {
    match op
    case Invalidate(d, lba, count) =>
      c.Initialized && exists p :: p in c.IdleIn(d, PCache.PageStart(d, lba), lba + count) && p.FlagDirty
    case InvalidateDisk(d) => c.Initialized && exists p :: p in c.IdleOf(d) && p.FlagDirty
    case _ => false
  }

  ghost function Store(v: Plain, d: Disk, at: int, data: seq<Byte>, x: Disk, i: int): Byte {
    if x == d && at <= i < at + |data| then data[i - at] else v(x, i)
  }

  /** What one call does on plain disks. */
  ghost function After(v: Plain, op: Op): Plain {
    match op
    case Write(d, lba, _, data) => (x: Disk, i: int) => Store(v, d, lba * d.SectorSize, data, x, i)
    case _ => v
  }

  /** What one call returns on plain disks. */
  ghost function Answer(v: Plain, op: Op): seq<Byte> {
    match op
    case Read(d, lba, count) => seq(count * d.SectorSize, k => v(d, lba * d.SectorSize + k))
    case _ => []
  }

  ghost function PlainState(v: Plain, ops: seq<Op>): Plain {
    if ops == [] then v else After(PlainState(v, ops[..|ops| - 1]), ops[|ops| - 1])
  }

  ghost function PlainAnswers(v: Plain, ops: seq<Op>): seq<seq<Byte>> {
    if ops == [] then []
    else PlainAnswers(v, ops[..|ops| - 1]) + [Answer(PlainState(v, ops[..|ops| - 1]), ops[|ops| - 1])]
  }

  /** The cache is in step with the disks, and clients see exactly v. */
  ghost predicate Shows(c: PCache, v: Plain)
    requires c.Valid()
    reads c, c.Pages, c.Disks
  {
    c.Coherent() && forall d, i :: d in c.Disks ==> c.View(d, i) == v(d, i)
  }

  /** What a call does to the cache itself when no write fails. */
  twostate predicate Did(c: PCache, op: Op)
    reads c, c.Pages
  {
    match op
    case Flush(d) => forall p :: p in c.Pages && c.Chosen(p, d) ==> !p.FlagDirty
    case Writeback => c.DirtyCount + Least(WRITEBACK_BATCH, |old(c.IdleDirty(null))|) == old(c.DirtyCount)
    case SetSize(pages) => c.MaxPages == if pages < MIN_PAGES then MIN_PAGES else pages
    case Invalidate(d, lba, count) => c.IdleIn(d, PCache.PageStart(d, lba), lba + count) == {}
    case InvalidateDisk(d) => c.IdleOf(d) == {}
    case _ => true
  }

  method Perform(c: PCache, op: Op, ghost v: Plain) returns (answer: seq<Byte>)
    requires c.Valid() && c.Ready() && c.Initialized && Fits(op, c.Disks)
    modifies c, c.Pages, c.Disks
    ensures c.Valid() && c.Ready() && c.Initialized && fresh(c.Pages - old(c.Pages))
    ensures c.IoFaults >= old(c.IoFaults) && c.Refusals == old(c.Refusals)
    ensures c.WriteFaults == old(c.WriteFaults) ==> Did(c, op)
    ensures c.IoFaults == old(c.IoFaults) && !old(Loses(c, op)) && old(Shows(c, v)) ==>
      answer == Answer(v, op) && Shows(c, After(v, op))
  {
    hide PCache.Valid, PCache.View, PCache.Coherent, PCache.IdleIn, PCache.IdleOf, PCache.PageStart;
    answer := [];
    match op {
      case Read(d, lba, count) =>
        var status;
        status, answer := c.PCacheRead(d, lba, count);
        assert c.IoFaults == old(c.IoFaults) && old(Shows(c, v)) ==> answer == Answer(v, op);
      case Write(d, lba, count, data) =>
        var status := c.PCacheWrite(d, lba, count, data);
      case Flush(d) =>
        var n := c.PCacheFlush(d);
      case Writeback =>
        var n := c.WritebackRound();
      case SetSize(pages) =>
        c.PCacheSetSize(pages);
      case Invalidate(d, lba, count) =>
        InvalidateSome(c, d, lba, count, v);
      case InvalidateDisk(d) =>
        InvalidateAll(c, d, v);
    }
  }

  /** Invalidation is not seen unless it throws away dirty bytes. */
  method InvalidateSome(c: PCache, d: Disk, lba: nat, count: nat, ghost v: Plain)
    requires c.Valid() && c.Ready() && c.Initialized
    modifies c, c.Pages
    ensures c.Valid() && c.Ready() && c.Initialized && c.Pages <= old(c.Pages)
    ensures c.IoFaults == old(c.IoFaults) && c.Refusals == old(c.Refusals)
    ensures c.IdleIn(d, PCache.PageStart(d, lba), lba + count) == {}
    ensures !old(Loses(c, Invalidate(d, lba, count))) && old(Shows(c, v)) ==> Shows(c, v)
  {
    hide Filed, Linked, PCache.View, PCache.IdleIn, PCache.PageStart;
    ghost var gone := c.IdleIn(d, PCache.PageStart(d, lba), lba + count);
    IdleArePages(c, d, PCache.PageStart(d, lba), lba + count);
    if !Loses(c, Invalidate(d, lba, count)) && Shows(c, v) { CleanPagesShow(c, gone); }
    c.PCacheInvalidate(d, lba, count);
  }

  method InvalidateAll(c: PCache, d: Disk, ghost v: Plain)
    requires c.Valid() && c.Ready() && c.Initialized
    modifies c, c.Pages
    ensures c.Valid() && c.Ready() && c.Initialized && c.Pages <= old(c.Pages)
    ensures c.IoFaults == old(c.IoFaults) && c.Refusals == old(c.Refusals)
    ensures c.IdleOf(d) == {}
    ensures !old(Loses(c, InvalidateDisk(d))) && old(Shows(c, v)) ==> Shows(c, v)
  {
    hide Filed, Linked, PCache.View;
    ghost var gone := c.IdleOf(d);
    if !Loses(c, InvalidateDisk(d)) && Shows(c, v) { CleanPagesShow(c, gone); }
    c.PCacheInvalidateDisk(d);
    assert c.IdleOf(d) <= old(c.IdleOf(d)) && c.IdleOf(d) !! old(c.IdleOf(d));
  }

  lemma IdleArePages(c: PCache, d: Disk, start: nat, end: nat)
    ensures c.IdleIn(d, start, end) <= c.Pages
  {
  }

  /** Under a clean page the disk holds what is seen. */
  lemma CleanPagesShow(c: PCache, gone: set<PCachePage>)
    requires c.Valid() && c.Coherent() && gone <= c.Pages && forall p :: p in gone ==> !p.FlagDirty
    ensures forall p, x, i :: p in gone && x in c.Disks && p.Covers(x, i) ==> x.Content(i) == c.View(x, i)
  {
    forall p, x, i | p in gone && x in c.Disks && p.Covers(x, i)
      ensures x.Content(i) == c.View(x, i)
    {
      assert p.MatchesDisk();
      assert i == p.Number * PAGE_SIZE + i % PAGE_SIZE;
    }
  }

  /** Any run of reads, writes, flushes, writeback rounds, resizes and invalidations answers every read as if there
      were no cache, unless a load, an evicting write or an allocation fails or an invalidation throws away dirty
      bytes (lost). Failed write-outs of flushes and of the writeback thread are not seen. */
  method Run(c: PCache, ops: seq<Op>, ghost v: Plain) returns (answers: seq<seq<Byte>>, ghost lost: bool)
    requires c.Valid() && Shows(c, v) && c.Ready() && c.Initialized
    requires forall k :: 0 <= k < |ops| ==> Fits(ops[k], c.Disks)
    modifies c, c.Pages, c.Disks
    ensures c.Valid() && c.Ready() && c.Initialized && c.IoFaults >= old(c.IoFaults) && fresh(c.Pages - old(c.Pages))
    ensures c.IoFaults == old(c.IoFaults) && !lost ==> answers == PlainAnswers(v, ops) && Shows(c, PlainState(v, ops))
    ensures (forall k :: 0 <= k < |ops| ==> !ops[k].Invalidate? && !ops[k].InvalidateDisk?) ==> !lost
  {
    hide PCache.Valid, Shows, PCache.Ready, After, Answer, PCache.IdleIn, PCache.IdleOf;
    answers, lost := [], false;
    for k := 0 to |ops|
      invariant c.Valid() && c.Ready() && c.Initialized && fresh(c.Pages - old(c.Pages))
      invariant c.IoFaults >= old(c.IoFaults)
      invariant c.IoFaults == old(c.IoFaults) && !lost ==>
        answers == PlainAnswers(v, ops[..k]) && Shows(c, PlainState(v, ops[..k]))
      invariant lost ==> exists j :: 0 <= j < k && (ops[j].Invalidate? || ops[j].InvalidateDisk?)
    {
      lost := lost || Loses(c, ops[k]);
      var answer := Perform(c, ops[k], PlainState(v, ops[..k]));
      answers := answers + [answer];
      assert ops[..k + 1][..k] == ops[..k];
    }
    assert ops[..|ops|] == ops;
  }

  /** The same run followed by a flush: with no dirty page left, every disk holds what plain disks would hold. That is
      so whenever no write of this last flush fails. */
  method RunThenFlush(c: PCache, ops: seq<Op>, ghost v: Plain)
    returns (answers: seq<seq<Byte>>, ghost lost: bool, ghost failed: nat)
    requires c.Valid() && Shows(c, v) && c.Ready() && c.Initialized
    requires forall k :: 0 <= k < |ops| ==> Fits(ops[k], c.Disks)
    modifies c, c.Pages, c.Disks
    ensures failed == 0 ==> c.DirtyCount == 0
    ensures c.IoFaults == old(c.IoFaults) && !lost ==> answers == PlainAnswers(v, ops)
    ensures c.IoFaults == old(c.IoFaults) && !lost && c.DirtyCount == 0 ==>
      forall d, i :: d in c.Disks ==> d.Content(i) == PlainState(v, ops)(d, i)
  {
    hide Filed, Linked, PCache.View, Loses;
    answers, lost := Run(c, ops, v);
    failed := c.WriteFaults;
    var n := c.PCacheFlush(null);
    failed := c.WriteFaults - failed;
    NoDirtyPage(c);
    if c.IoFaults == old(c.IoFaults) && !lost && c.DirtyCount == 0 {
      ShownAndClean(c, PlainState(v, ops));
    }
  }

  lemma NoDirtyPage(c: PCache)
    requires c.Valid()
    ensures c.DirtyCount == 0 <==> forall p :: p in c.Pages ==> !p.FlagDirty
  {
    hide Filed;
    if c.DirtyCount != 0 { assert c.DirtyList[0] in c.DirtyList; }
  }

  lemma ShownAndClean(c: PCache, v: Plain)
    requires c.Valid() && Shows(c, v)
    requires forall p :: p in c.Pages ==> !p.FlagDirty
    ensures forall d, i :: d in c.Disks ==> d.Content(i) == v(d, i)
  {
    forall d, i | d in c.Disks
      ensures d.Content(i) == v(d, i)
    {
      c.CleanCacheIsOnDisk(d, i);
    }
  }

  type Key = (Disk, nat)

  /** The keys of the LRU list, newest first. */
  ghost function Keys(lru: seq<PCachePage>): seq<Key> {
    seq(|lru|, k requires 0 <= k < |lru| => (lru[k].Device, lru[k].Number))
  }

  lemma KeysOfWithout(lru: seq<PCachePage>, p: PCachePage)
    requires p in lru
    requires forall i, j :: 0 <= i < j < |lru| ==> Keys(lru)[i] != Keys(lru)[j]
    ensures var key := (p.Device, p.Number);
      key in Keys(lru) && Keys(Without(lru, p)) == Without(Keys(lru), key)
  {
    var k := IndexOf(lru, p);
    assert Keys(lru)[k] == (p.Device, p.Number);
    IndexUnique(Keys(lru), (p.Device, p.Number), k);
  }

  lemma KeysDistinct(c: PCache)
    requires c.Valid()
    ensures NoDup(Keys(c.Lru))
    ensures forall d, n :: (d, n) in Keys(c.Lru) <==> exists p :: p in c.Pages && p.Device == d && p.Number == n
  {
    forall i, j | 0 <= i < j < |c.Lru|
      ensures Keys(c.Lru)[i] != Keys(c.Lru)[j]
    {
      assert c.Lru[i] in c.Pages && c.Lru[j] in c.Pages;
    }
    forall d, n | exists p :: p in c.Pages && p.Device == d && p.Number == n
      ensures (d, n) in Keys(c.Lru)
    {
      var p :| p in c.Pages && p.Device == d && p.Number == n;
      var k := IndexOf(c.Lru, p);
      assert Keys(c.Lru)[k] == (d, n);
    }
    forall d, n | (d, n) in Keys(c.Lru)
      ensures exists p :: p in c.Pages && p.Device == d && p.Number == n
    {
      var k :| 0 <= k < |c.Lru| && Keys(c.Lru)[k] == (d, n);
      assert c.Lru[k] in c.Pages;
    }
  }

  /** One access on keys: exactly the policy's step. */
  method Access(c: PCache, d: Disk, n: nat) returns (page: PCachePage?)
    requires c.Valid() && c.Ready() && d in c.Disks
    modifies c, c.Pages, c.Disks
    ensures c.Valid() && c.Ready() && fresh(c.Pages - old(c.Pages)) && c.MaxPages == old(c.MaxPages)
    ensures c.IoFaults >= old(c.IoFaults)
    ensures c.IoFaults == old(c.IoFaults) ==> page != null
    ensures page != null ==> Keys(c.Lru) == Step(old(Keys(c.Lru)), (d, n), c.MaxPages)
  {
    hide Filed, Linked, PCache.View, PCache.Coherent, PCache.PagesShaped, NoDup, IndexOf, Without, Step;
    KeysDistinct(c);
    c.LruFacts();
    page := c.GetPage(d, n * d.SectorsPerPage(), n);
    if page != null {
      if page in old(c.Pages) {
        StepOnHit(old(c.Lru), page, c.MaxPages);
      } else {
        StepOnMiss(old(c.Lru), page, c.MaxPages);
      }
      c.Release(page);
    }
  }

  lemma StepOnHit(was: seq<PCachePage>, p: PCachePage, max: nat)
    requires NoDup(Keys(was)) && p in was
    ensures Keys([p] + Without(was, p)) == Step(Keys(was), (p.Device, p.Number), max)
  {
    hide IndexOf;
    KeysOfWithout(was, p);
    var r := Without(was, p);
    assert Keys([p] + r) == [(p.Device, p.Number)] + Keys(r);
  }

  lemma StepOnMiss(was: seq<PCachePage>, p: PCachePage, max: nat)
    requires (p.Device, p.Number) !in Keys(was)
    ensures Keys([p] + was[..Kept(|was|, max)]) == Step(Keys(was), (p.Device, p.Number), max)
  {
    hide Without, IndexOf;
    var left := was[..Kept(|was|, max)];
    assert Keys([p] + left) == [(p.Device, p.Number)] + Keys(left);
    assert Keys(left) == Keys(was)[..Kept(|was|, max)];
  }

  /** The cache after any trace of accesses holds exactly the most recently used pages that fit, newest first. */
  method Trace(c: PCache, trace: seq<Key>)
    requires c.Valid() && c.Ready() && c.Pages == {}
    requires forall k :: 0 <= k < |trace| ==> trace[k].0 in c.Disks
    modifies c, c.Pages, c.Disks
    ensures c.Valid() && c.Ready()
    ensures c.IoFaults == old(c.IoFaults) ==> Keys(c.Lru) == Recent(trace)[..Fitting(|Recent(trace)|, c.MaxPages)]
  {
    hide Filed, PCache.View, PCache.Coherent, Without, Step;
    c.LruFacts();
    SubsetNoLonger(c.Lru, []);
    for k := 0 to |trace|
      invariant c.Valid() && c.Ready() && fresh(c.Pages - old(c.Pages)) && c.MaxPages == old(c.MaxPages)
      invariant c.IoFaults >= old(c.IoFaults)
      invariant c.IoFaults == old(c.IoFaults) ==> Keys(c.Lru) == Replay(trace[..k], c.MaxPages)
    {
      var page := Access(c, trace[k].0, trace[k].1);
      assert trace[..k + 1][..k] == trace[..k];
    }
    assert trace[..|trace|] == trace;
    CacheHoldsMostRecent(trace, c.MaxPages);
  }
}
