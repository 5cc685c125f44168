/** Kernel/Source/Mem/PageCache.c: the write-back page cache. */
module PageCache {
  import opened Lists
  import opened Arith
  import opened Bytes
  import opened Disks
  import opened LruPolicy

  const HASH_SIZE: nat := 4096
  const MIN_PAGES: nat := 64
  const DEFAULT_PAGES: nat := 16 * 1024
  const WRITEBACK_BATCH: nat := 64

  type Bucket = h: nat | h < 4096

  datatype Status = Success | IncorrectValue | IoError

  /** A conversion to UINT32. */
  function Low32(x: nat): nat {
    x % 0x1_0000_0000
  }

  /** The bytes one turn of the transfer loop moves, at byte cur of a transfer that ends at byte end. */
  function ChunkSize(cur: nat, end: nat): nat
    requires cur < end
  {
    var chunk := PAGE_SIZE - cur % PAGE_SIZE;
    if chunk > Low32(end - cur) then Low32(end - cur) else chunk
  }

  function Least(a: nat, b: nat): nat {
    if a < b then a else b
  }

  /** A turn moves whole sectors: up to the end of the page or of the transfer. */
  lemma ChunkSectors(c: nat, e: nat, size: SectorBytes)
    requires c * size < e * size && e * size - c * size < 0x1_0000_0000
    ensures var m := Least(4096 / size - c % (4096 / size), e - c);
      c < e && 0 < m && ChunkSize(c * size, e * size) == m * size
  {
    SectorInPage(c, size);
    MulReflects(c, e, size);
    MulSub(e, c, size);
    var a := 4096 / size - c % (4096 / size);
    if a <= e - c {
      MulMono(a, e - c, size);
    } else {
      MulMono(e - c, a, size);
      if (e - c) * size == a * size { DivOfMul(a, size); DivOfMul(e - c, size); }
    }
  }

  lemma SectorsLeft(c: nat, e: nat, size: SectorBytes)
    requires c * size < e * size
    ensures c < e && (e * size - c * size) / size == e - c
  {
    MulReflects(c, e, size);
    MulSub(e, c, size);
    DivOfMul(e - c, size);
  }

  lemma SectorOf(c: nat, size: SectorBytes)
    ensures c * size / size == c
  {
    DivOfMul(c, size);
  }

  /** How far n turns of the loop get. */
  function Advance(cur: nat, end: nat, n: nat): nat
    decreases n
  {
    if n == 0 || cur >= end then cur else Advance(cur + ChunkSize(cur, end), end, n - 1)
  }

  /** The loop reaches its end exactly when the transfer is shorter than 2^32 bytes:
      a longer one comes to a distance that is a multiple of 2^32, where the chunk is 0. */
  lemma {:induction false} LongTransferNeverEnds(cur: nat, end: nat, n: nat)
    requires end - cur >= 0x1_0000_0000
    ensures end - Advance(cur, end, n) >= 0x1_0000_0000
    decreases n
  {
    if n > 0 {
      LongTransferNeverEnds(cur + ChunkSize(cur, end), end, n - 1);
    }
  }

  lemma {:induction false} ShortTransferEnds(cur: nat, end: nat)
    requires cur <= end && end - cur < 0x1_0000_0000
    ensures Advance(cur, end, end - cur) == end
  {
    ShortTransferEndsWithin(cur, end, end - cur);
  }

  lemma {:induction false} ShortTransferEndsWithin(cur: nat, end: nat, n: nat)
    requires cur <= end && end - cur <= n && n < 0x1_0000_0000
    ensures Advance(cur, end, n) == end
    decreases n
  {
    if cur < end {
      ShortTransferEndsWithin(cur + ChunkSize(cur, end), end, n - 1);
    }
  }

  /** PCacheRead and PCacheWrite finish their loop if and only if the transfer is shorter than 2^32 bytes. */
  lemma TransferEndsIffShort(cur: nat, end: nat)
    requires cur <= end
    ensures (exists n: nat :: Advance(cur, end, n) == end) <==> end - cur < 0x1_0000_0000
  {
    if end - cur < 0x1_0000_0000 {
      ShortTransferEnds(cur, end);
    } else {
      forall n: nat
        ensures Advance(cur, end, n) != end
      {
        LongTransferNeverEnds(cur, end, n);
      }
    }
  }

  class PCachePage {
    const Device: Disk
    const Lba: nat
    const SectorCount: nat
    ghost const Number: nat  // which page of the device this is

    var Data: seq<Byte>
    var RefCount: nat
    var FlagValid: bool
    var FlagDirty: bool
    var FlagWriteback: bool

    constructor (device: Disk, lba: nat, data: seq<Byte>, ghost number: nat)
      ensures Device == device && Lba == lba && SectorCount == device.SectorsPerPage() && Number == number
      ensures Data == data && RefCount == 0
      ensures !FlagValid && !FlagDirty && !FlagWriteback
    {
      Device, Lba, SectorCount, Number := device, lba, device.SectorsPerPage(), number;
      Data, RefCount := data, 0;
      FlagValid, FlagDirty, FlagWriteback := false, false, false;
    }

    ghost predicate Covers(d: Disk, i: int) {
      Device == d && i / PAGE_SIZE == Number
    }

    ghost predicate Shaped()
      reads this
    {
      Lba == Number * Device.SectorsPerPage() && SectorCount == Device.SectorsPerPage() && |Data| == PAGE_SIZE
    }

    ghost predicate MatchesDisk()
      requires |Data| == PAGE_SIZE
      reads this, Device
    {
      forall k :: 0 <= k < PAGE_SIZE ==> Data[k] == Device.Content(Number * PAGE_SIZE + k)
    }

    /** What PCacheFindVictim skips. */
    predicate Busy()
      reads this
    {
      RefCount > 0 || FlagWriteback
    }
  }

  /** Every page of the set is in the bucket of its own hash, once, the buckets hold nothing else,
      and no two pages have the same key. */
  ghost predicate Filed(hash: seq<seq<PCachePage>>, pages: set<PCachePage>, f: (Disk, nat) -> Bucket) {
    && |hash| == HASH_SIZE
    && (forall h :: 0 <= h < HASH_SIZE ==> NoDup(hash[h]))
    && (forall p :: p in pages ==> p in hash[f(p.Device, p.Lba)])
    && (forall h, p :: 0 <= h < HASH_SIZE && p in hash[h] ==> p in pages && f(p.Device, p.Lba) == h)
    && (forall p, q :: p in pages && q in pages && p.Device == q.Device && p.Lba == q.Lba ==> p == q)
  }

  /** The LRU list holds all pages and the dirty list the dirty ones, with their cached lengths. */
  ghost predicate Linked(lru: seq<PCachePage>, pages: set<PCachePage>, n: nat,
                         dirtyList: seq<PCachePage>, dirty: set<PCachePage>, m: nat) {
    Enumerates(lru, pages, n) && Enumerates(dirtyList, dirty, m) && dirty <= pages
  }

  lemma FiledLess(hash: seq<seq<PCachePage>>, pages: set<PCachePage>, f: (Disk, nat) -> Bucket, p: PCachePage)
    requires Filed(hash, pages, f) && p in pages
    ensures var h := f(p.Device, p.Lba);
      Filed(hash[h := Without(hash[h], p)], pages - {p}, f)
  {
    WithoutKeepsTheRest(hash[f(p.Device, p.Lba)], p);
  }

  lemma FiledMore(hash: seq<seq<PCachePage>>, pages: set<PCachePage>, f: (Disk, nat) -> Bucket, p: PCachePage)
    requires Filed(hash, pages, f) && p !in pages
    requires forall q :: q in pages && q.Device == p.Device ==> q.Lba != p.Lba
    ensures var h := f(p.Device, p.Lba);
      Filed(hash[h := [p] + hash[h]], pages + {p}, f)
  {
    var h := f(p.Device, p.Lba);
    EnumerateMore(hash[h], set q | q in hash[h], |hash[h]|, p);
  }

  /** The first k buckets, one after the other. */
  ghost function Chained(hash: seq<seq<PCachePage>>, k: nat): seq<PCachePage>
    requires k <= |hash|
  {
    if k == 0 then [] else Chained(hash, k - 1) + hash[k - 1]
  }

  ghost function TotalLength(hash: seq<seq<PCachePage>>, k: nat): nat
    requires k <= |hash|
  {
    if k == 0 then 0 else TotalLength(hash, k - 1) + |hash[k - 1]|
  }

  lemma {:induction false} ChainedEnumerates(hash: seq<seq<PCachePage>>, pages: set<PCachePage>, f: (Disk,
          nat) -> Bucket, k: nat)
    requires Filed(hash, pages, f) && k <= HASH_SIZE
    ensures Enumerates(Chained(hash, k), (set p | p in pages && f(p.Device, p.Lba) < k), TotalLength(hash, k))
  {
    if k > 0 {
      ChainedEnumerates(hash, pages, f, k - 1);
      NoDupConcat(Chained(hash, k - 1), hash[k - 1]);
    }
  }

  /** The sum of the bucket lengths is the cached page count. */
  lemma BucketLengthsSum(hash: seq<seq<PCachePage>>, pages: set<PCachePage>, f: (Disk, nat) -> Bucket,
          lru: seq<PCachePage>, n: nat)
    requires Filed(hash, pages, f) && Enumerates(lru, pages, n)
    ensures TotalLength(hash, HASH_SIZE) == n
  {
    ChainedEnumerates(hash, pages, f, HASH_SIZE);
    SubsetNoLonger(lru, Chained(hash, HASH_SIZE));
    SubsetNoLonger(Chained(hash, HASH_SIZE), lru);
  }

  class PCache {
    const HashOf: (Disk, nat) -> Bucket
    ghost const Disks: set<Disk>

    var Hash: seq<seq<PCachePage>>
    var Lru: seq<PCachePage>
    var DirtyList: seq<PCachePage>
    var PageCount: nat
    var MaxPages: nat
    var DirtyCount: nat
    var Initialized: bool

    ghost var Pages: set<PCachePage>
    ghost var DirtyPages: set<PCachePage>
    ghost var IoFaults: nat  // loads, evicting writes, direct transfers and allocations that failed so far
    ghost var WriteFaults: nat  // write-outs of a flush or of the writeback thread that failed so far
    ghost var DirectFaults: nat  // direct transfers that failed so far
    ghost var Refusals: nat  // times no room could be made so far

    ghost predicate PagesShaped()
      reads this, Pages
    {
      forall p :: p in Pages ==> p.Shaped() && p.Device in Disks
    }

    ghost predicate ListsAgree()
      reads this
    {
      && Filed(Hash, Pages, HashOf)
      && Linked(Lru, Pages, PageCount, DirtyList, DirtyPages, DirtyCount)
    }

    ghost predicate FlagsAgree()
      reads this, Pages
    {
      forall p :: p in Pages ==> (p.FlagDirty <==> p in DirtyPages)
    }

    ghost predicate Valid()
      reads this, Pages
    {
      PagesShaped() && ListsAgree() && FlagsAgree()
    }

    /** A page without the DIRTY flag equals its part of the disk. */
    ghost predicate Coherent()
      requires PagesShaped()
      reads this, Pages, Disks
    {
      forall p :: p in Pages && !p.FlagDirty ==> p.MatchesDisk()
    }

    /** No page is in use: the state between two calls that do not overlap. */
    ghost predicate Quiet()
      reads this, Pages
    {
      forall p :: p in Pages ==> !p.Busy()
    }

    ghost predicate Bounded()
      reads this
    {
      PageCount <= MaxPages
    }

    /** Byte i of disk d as a client sees it: the cached copy when there is one, else the disk. */
    ghost function View(d: Disk, i: int): (b: Byte)
      requires PagesShaped() && ListsAgree()
      reads this, Pages, d
      ensures forall p :: p in Pages && p.Covers(d, i) ==> b == p.Data[i % PAGE_SIZE]
    {
      if exists p :: p in Pages && p.Covers(d, i) then
        var p :| p in Pages && p.Covers(d, i);
        p.Data[i % PAGE_SIZE]
      else d.Content(i)
    }

    /** ListDel on the page's three nodes, with the counters. */
    method Unlink(p: PCachePage)
      requires |Hash| == HASH_SIZE && PageCount > 0 && (p.FlagDirty ==> DirtyCount > 0)
      modifies this
      ensures var h := HashOf(p.Device, p.Lba); Hash == old(Hash)[h := Without(old(Hash)[h], p)]
      ensures Lru == Without(old(Lru), p) && PageCount == old(PageCount) - 1 && Pages == old(Pages) - {p}
      ensures DirtyList == if p.FlagDirty then Without(old(DirtyList), p) else old(DirtyList)
      ensures DirtyPages == if p.FlagDirty then old(DirtyPages) - {p} else old(DirtyPages)
      ensures DirtyCount == if p.FlagDirty then old(DirtyCount) - 1 else old(DirtyCount)
      ensures SameConfig() && IoFaults == old(IoFaults)
    {
      hide Without;
      var h := HashOf(p.Device, p.Lba);
      Hash := Hash[h := Without(Hash[h], p)];
      Lru := Without(Lru, p);
      if p.FlagDirty {
        DirtyList := Without(DirtyList, p);
        DirtyCount := DirtyCount - 1;
        DirtyPages := DirtyPages - {p};
      }
      PageCount := PageCount - 1;
      Pages := Pages - {p};
    }

    twostate predicate SameConfig()
      reads this
    {
      && MaxPages == old(MaxPages) && Initialized == old(Initialized)
      && Refusals == old(Refusals) && DirectFaults == old(DirectFaults)
    }

    lemma Present(p: PCachePage)
      requires Valid() && p in Pages
      ensures p in Lru && |Hash| == HASH_SIZE && PageCount > 0
      ensures p.FlagDirty ==> p in DirtyPages && DirtyCount > 0
    {
    }

    method Drop(p: PCachePage)
      requires Valid() && p in Pages
      modifies this
      ensures Valid() && Pages == old(Pages) - {p} && Lru == Without(old(Lru), p) && PageCount == old(PageCount) - 1
      ensures DirtyCount == if p.FlagDirty then old(DirtyCount) - 1 else old(DirtyCount)
      ensures SameConfig() && IoFaults == old(IoFaults)
    {
      hide Filed, Enumerates, Without, IndexOf, NoDup;
      Present(p);
      FiledLess(Hash, Pages, HashOf, p);
      EnumerateLess(Lru, Pages, PageCount, p);
      if p.FlagDirty {
        EnumerateLess(DirtyList, DirtyPages, DirtyCount, p);
      }
      Unlink(p);
    }

    /** The page eviction must take: the last one of the LRU list that nobody uses. */
    ghost predicate IsVictim(p: PCachePage)
      reads this, Pages, Lru
    {
      && p in Lru && !p.Busy()
      && forall j :: IndexOf(Lru, p) < j < |Lru| ==> Lru[j].Busy()
    }

    method FindVictim() returns (victim: PCachePage?)
      requires Valid()
      ensures victim != null ==> victim in Pages && IsVictim(victim)
      ensures victim == null ==> forall p :: p in Pages ==> p.Busy()
    {
      var pos, scanned := |Lru|, 0;
      while pos != 0 && scanned < PageCount + 1
        invariant 0 <= pos <= |Lru| && scanned == |Lru| - pos
        invariant forall j :: pos <= j < |Lru| ==> Lru[j].Busy()
      {
        var page := Lru[pos - 1];
        pos := pos - 1;
        scanned := scanned + 1;
        if page.RefCount > 0 { continue; }
        if page.FlagWriteback { continue; }
        return page;
      }
      return null;
    }

    /** PCacheWriteDirect of a page: its own bytes of the disk become the page's, or anything if the write fails. */
    method WriteOut(v: PCachePage) returns (ok: bool)
      requires v.Shaped()
      modifies v.Device`Content
      ensures forall i :: !v.Covers(v.Device, i) ==> v.Device.Content(i) == old(v.Device.Content(i))
      ensures ok ==> v.MatchesDisk()
    {
      PageBytes(v.Number, v.Device.SectorSize);
      ok := v.Device.Write(v.Lba, v.SectorCount, v.Data);
    }

    /** Unlinks v and, if it is dirty, writes it to its disk. */
    method Retire(v: PCachePage)
      requires Valid() && v in Pages
      modifies this, v, Disks
      ensures Valid() && Pages == old(Pages) - {v} && Lru == Without(old(Lru), v) && PageCount == old(PageCount) - 1
      ensures DirtyCount == if v.FlagDirty then old(DirtyCount) - 1 else old(DirtyCount)
      ensures v.FlagDirty == old(v.FlagDirty) && v.Data == old(v.Data) && SameConfig() && IoFaults >= old(IoFaults)
      ensures forall d, i :: d in Disks && !v.Covers(d, i) ==> d.Content(i) == old(d.Content(i))
      ensures v.FlagDirty && IoFaults == old(IoFaults) ==> v.MatchesDisk()
      ensures !v.FlagDirty ==> forall d :: d in Disks ==> d.Content == old(d.Content)
    {
      hide Filed, Enumerates, Without, IndexOf, NoDup;
      v.RefCount := 1;
      v.FlagWriteback := true;
      Drop(v);
      if v.FlagDirty {
        var written := WriteOut(v);
        if !written { IoFaults := IoFaults + 1; }
      }
    }

    /** The state after page v left the cache, its dirty bytes perhaps written on the way. */
    twostate predicate Retired(v: PCachePage)
      reads this, Pages, Disks, v
    {
      && old(Valid()) && Valid() && v in old(Pages) && Pages == old(Pages) - {v}
      && (forall p :: p in Pages ==> p.Data == old(p.Data) && p.FlagDirty == old(p.FlagDirty))
      && (forall d, i :: d in Disks && !v.Covers(d, i) ==> d.Content(i) == old(d.Content(i)))
    }

    /** Once page v is gone, its bytes are seen on the disk and all others as before. */
    twostate lemma ViewWithout(v: PCachePage)
      requires Retired(v)
      ensures forall d, i :: d in Disks ==> View(d, i) == if v.Covers(d, i) then d.Content(i) else old(View(d, i))
    {
    }

    twostate lemma SavedPageKeepsView(v: PCachePage)
      requires Retired(v) && v.Data == old(v.Data) && |v.Data| == PAGE_SIZE && v.MatchesDisk()
      ensures forall d, i :: d in Disks ==> View(d, i) == old(View(d, i))
    {
      ViewWithout(v);
      forall d, i | d in Disks && v.Covers(d, i)
        ensures d.Content(i) == v.Data[i % PAGE_SIZE]
      {
        assert i == v.Number * PAGE_SIZE + i % PAGE_SIZE;
      }
    }

    twostate lemma CoherentWithout(v: PCachePage)
      requires Retired(v) && old(Coherent())
      ensures Coherent()
    {
      forall p | p in Pages && !p.FlagDirty
        ensures p.MatchesDisk()
      {
        forall k | 0 <= k < PAGE_SIZE
          ensures p.Data[k] == p.Device.Content(p.Number * PAGE_SIZE + k)
        {
          assert !v.Covers(p.Device, p.Number * PAGE_SIZE + k);
        }
      }
    }

    /** With no page in use the victim is the tail of the LRU list. */
    lemma QuietVictim(v: PCachePage)
      requires Valid() && Quiet() && v in Pages && IsVictim(v)
      ensures |Lru| > 0 && Without(Lru, v) == Lru[..|Lru| - 1]
    {
      assert |Lru| == 0 || Lru[|Lru| - 1] in Pages;
    }

    lemma QuietHasVictim()
      requires Valid() && Quiet() && PageCount > 0
      ensures exists p :: p in Pages && !p.Busy()
    {
      assert Lru[0] in Pages;
    }

    lemma CachedLengths()
      requires Valid()
      ensures |Lru| == PageCount && |DirtyList| == DirtyCount
    {
    }

    method EvictOne() returns (ok: bool, ghost victim: PCachePage?)
      requires Valid()
      modifies this, Pages, Disks
      ensures Valid()
      ensures ok <==> victim != null
      ensures victim == null ==>
        && old(forall p :: p in Pages ==> p.Busy())
        && Pages == old(Pages) && Lru == old(Lru) && PageCount == old(PageCount)
      ensures victim != null ==> old(victim in Pages && IsVictim(victim))
      ensures victim != null ==> Pages == old(Pages) - {victim} && Lru == Without<PCachePage>(old(Lru), victim)
      ensures victim != null ==> PageCount == old(PageCount) - 1
      ensures DirtyCount == if victim != null && old(victim.FlagDirty) then old(DirtyCount) - 1 else old(DirtyCount)
      ensures victim != null && old(Quiet()) ==> Lru == old(Lru)[..PageCount]
      ensures old(Quiet()) && old(PageCount) > 0 ==> ok
      ensures SameConfig() && forall p :: p in Pages ==> unchanged(p)
      ensures old(Coherent()) ==> Coherent()
      ensures forall d, i :: d in Disks && (victim == null || !victim.Covers(d, i)) ==> View(d, i) == old(View(d, i))
      ensures IoFaults >= old(IoFaults)
      ensures old(Coherent()) && IoFaults == old(IoFaults) ==> forall d, i :: d in Disks ==>
        View(d, i) == old(View(d, i))
    {
      hide Filed, Linked, Enumerates, IndexOf, Without, NoDup, IsVictim, View, FlagsAgree;
      victim := null;
      var v := FindVictim();
      if v == null {
        if Quiet() && PageCount > 0 { QuietHasVictim(); }
        ok := false;
        return;
      }
      CachedLengths();
      if Quiet() { QuietVictim(v); }
      Retire(v);
      assert Retired(v);
      ViewWithout(v);
      if old(Coherent()) {
        CoherentWithout(v);
        if IoFaults == old(IoFaults) {
          SavedPageKeepsView(v);
        }
      }
      ok, victim := true, v;
    }

    /** Why no room can be made, with n pages before: the cache has no size, every page is in use, or it was made so
        much smaller that the evictions are too many. */
    ghost predicate NoRoom(n: nat)
      reads this, Pages
    {
      MaxPages == 0 || (forall p :: p in Pages ==> p.Busy()) || n > PageCount + 2 * MaxPages
    }

    method EnsureRoom() returns (ok: bool)
      requires Valid()
      modifies this, Pages, Disks
      ensures Valid() && Pages <= old(Pages) && SameConfig()
      ensures forall p :: p in Pages ==> unchanged(p)
      ensures ok ==> PageCount < MaxPages && PageCount == Kept(old(PageCount), MaxPages)
      ensures !ok ==> NoRoom(old(PageCount))
      ensures PageCount <= old(PageCount) && DirtyCount <= old(DirtyCount)
      ensures old(Coherent()) ==> Coherent()
      ensures IoFaults >= old(IoFaults)
      ensures old(Coherent()) && IoFaults == old(IoFaults) ==> forall d, i :: d in Disks ==>
        View(d, i) == old(View(d, i))
      ensures old(Quiet() && Bounded()) && MaxPages > 0 ==> ok
      ensures ok && old(Quiet() && Bounded()) ==> Lru == old(Lru)[..Kept(|old(Lru)|, MaxPages)]
    {
      hide Filed, Linked, Enumerates, IndexOf, Without, NoDup, IsVictim, View, Coherent, FlagsAgree;
      CachedLengths();
      if MaxPages == 0 {
        return false;
      }
      var attempts := 0;
      var maxAttempts := MaxPages * 2;
      while PageCount >= MaxPages
        invariant Valid() && Pages <= old(Pages) && SameConfig()
        invariant forall p :: p in Pages ==> unchanged(p)
        invariant PageCount + attempts == old(PageCount) && (attempts > 0 ==> PageCount + 1 >= MaxPages)
        invariant DirtyCount <= old(DirtyCount)
        invariant old(Coherent()) ==> Coherent()
        invariant IoFaults >= old(IoFaults)
        invariant old(Coherent()) && IoFaults == old(IoFaults) ==> forall d, i :: d in Disks ==>
          View(d, i) == old(View(d, i))
        invariant old(Quiet() && Bounded()) ==> Lru == old(Lru)[..PageCount]
        decreases PageCount
      {
        var evicted, v := EvictOne();
        if !evicted {
          return false;
        }
        attempts := attempts + 1;
        if attempts > maxAttempts {
          return false;
        }
      }
      return true;
    }

    /** The walk through the bucket of (d, lba). */
    method Lookup(d: Disk, lba: nat) returns (page: PCachePage?)
      requires Valid()
      ensures page != null ==> page in Pages && page.Device == d && page.Lba == lba
      ensures page == null ==> forall p :: p in Pages ==> !(p.Device == d && p.Lba == lba)
    {
      var bucket := Hash[HashOf(d, lba)];
      for i := 0 to |bucket|
        invariant forall j :: 0 <= j < i ==> !(bucket[j].Device == d && bucket[j].Lba == lba)
      {
        if bucket[i].Device == d && bucket[i].Lba == lba {
          return bucket[i];
        }
      }
      return null;
    }

    /** PCacheLruTouch: the page becomes the head of the LRU list. */
    method LruTouch(p: PCachePage)
      requires Valid() && p in Pages
      modifies this
      ensures Valid() && Lru == [p] + Without(old(Lru), p) && DirtyCount == old(DirtyCount)
      ensures Pages == old(Pages) && PageCount == old(PageCount) && SameConfig() && IoFaults == old(IoFaults)
    {
      hide Filed, Enumerates, Without, IndexOf, NoDup;
      EnumerateLess(Lru, Pages, PageCount, p);
      EnumerateMore(Without(Lru, p), Pages - {p}, PageCount - 1, p);
      assert Pages - {p} + {p} == Pages;
      Lru := Without(Lru, p);
      Lru := [p] + Lru;
    }

    /** ListAdd of a new page to its bucket and to the LRU list. */
    method Link(p: PCachePage)
      requires |Hash| == HASH_SIZE
      modifies this
      ensures var h := HashOf(p.Device, p.Lba); Hash == old(Hash)[h := [p] + old(Hash)[h]]
      ensures Lru == [p] + old(Lru) && PageCount == old(PageCount) + 1 && Pages == old(Pages) + {p}
      ensures DirtyList == old(DirtyList) && DirtyPages == old(DirtyPages) && DirtyCount == old(DirtyCount)
      ensures SameConfig() && IoFaults == old(IoFaults)
    {
      var h := HashOf(p.Device, p.Lba);
      Hash := Hash[h := [p] + Hash[h]];
      Lru := [p] + Lru;
      PageCount := PageCount + 1;
      Pages := Pages + {p};
    }

    method Insert(p: PCachePage)
      requires Valid() && p !in Pages && p.Shaped() && p.Device in Disks && !p.FlagDirty
      requires forall q :: q in Pages && q.Device == p.Device ==> q.Lba != p.Lba
      modifies this
      ensures Valid() && Pages == old(Pages) + {p} && Lru == [p] + old(Lru) && PageCount == old(PageCount) + 1
      ensures DirtyCount == old(DirtyCount)
      ensures SameConfig() && IoFaults == old(IoFaults)
    {
      hide Enumerates, NoDup;
      FiledMore(Hash, Pages, HashOf, p);
      EnumerateMore(Lru, Pages, PageCount, p);
      Link(p);
    }

    twostate lemma SameDataSameView()
      requires old(Valid()) && Valid() && Pages == old(Pages)
      requires forall p :: p in Pages ==> p.Data == old(p.Data) && p.FlagDirty == old(p.FlagDirty)
      requires forall d :: d in Disks ==> d.Content == old(d.Content)
      ensures forall d, i :: d in Disks ==> View(d, i) == old(View(d, i))
      ensures old(Coherent()) ==> Coherent()
    {
      if old(Coherent()) {
        forall p | p in Pages && !p.FlagDirty
          ensures p.MatchesDisk()
        {
          assert old(p.MatchesDisk());
        }
      }
    }

    /** A page loaded from the disk shows the bytes the disk showed. */
    twostate lemma LoadedPageKeepsView(new n: PCachePage)
      requires old(Valid()) && Valid() && n !in old(Pages) && Pages == old(Pages) + {n} && n.MatchesDisk()
      requires forall p :: p in old(Pages) ==> p.Data == old(p.Data) && p.FlagDirty == old(p.FlagDirty)
      requires forall d :: d in Disks ==> d.Content == old(d.Content)
      ensures forall d, i :: d in Disks ==> View(d, i) == old(View(d, i))
      ensures old(Coherent()) ==> Coherent()
    {
      forall d, i | d in Disks
        ensures View(d, i) == old(View(d, i))
      {
        if n.Covers(d, i) {
          assert i == n.Number * PAGE_SIZE + i % PAGE_SIZE;
          assert forall p :: p in old(Pages) ==> !p.Covers(d, i);
        }
      }
      if old(Coherent()) {
        forall p | p in Pages && !p.FlagDirty
          ensures p.MatchesDisk()
        {
          if p != n { assert old(p.MatchesDisk()); }
        }
      }
    }

    method Hit(p: PCachePage)
      requires Valid() && p in Pages
      modifies this, p
      ensures Valid() && Pages == old(Pages) && PageCount == old(PageCount) && Lru == [p] + Without(old(Lru), p)
      ensures DirtyCount == old(DirtyCount)
      ensures p.RefCount == old(p.RefCount) + 1 && p.Data == old(p.Data) && p.FlagDirty == old(p.FlagDirty)
      ensures p.FlagWriteback == old(p.FlagWriteback) && SameConfig() && IoFaults == old(IoFaults)
      ensures old(Coherent()) ==> Coherent()
      ensures forall d, i :: d in Disks ==> View(d, i) == old(View(d, i))
    {
      hide Filed, Linked, Enumerates, Without, IndexOf, NoDup, View;
      p.RefCount := p.RefCount + 1;
      LruTouch(p);
      SameDataSameView();
    }

    /** Steps 3 to 5: allocate, read from the disk, insert. */
    method Load(d: Disk, lba: nat, ghost n: nat) returns (page: PCachePage?)
      requires Valid() && d in Disks && lba == n * d.SectorsPerPage()
      requires forall p :: p in Pages ==> !(p.Device == d && p.Lba == lba)
      modifies this
      ensures Valid() && SameConfig()
      ensures page == null ==>
        IoFaults > old(IoFaults) && Pages == old(Pages) && PageCount == old(PageCount) && Lru == old(Lru)
      ensures page != null ==> fresh(page) && Pages == old(Pages) + {page} && Lru == [page] + old(Lru)
      ensures page != null ==> PageCount == old(PageCount) + 1 && IoFaults == old(IoFaults)
      ensures page != null ==> page.Device == d && page.Number == n && page.RefCount == 1 && !page.FlagWriteback
      ensures DirtyCount == old(DirtyCount)
      ensures old(Coherent()) ==> Coherent()
      ensures forall e, i :: e in Disks ==> View(e, i) == old(View(e, i))
    {
      hide Filed, Enumerates, NoDup, View;
      var memory: bool := *;
      if !memory {
        IoFaults := IoFaults + 1;
        SameDataSameView();
        return null;
      }
      PageBytes(n, d.SectorSize);
      var ok, data := d.Read(lba, d.SectorsPerPage());
      if !ok {
        IoFaults := IoFaults + 1;
        SameDataSameView();
        return null;
      }
      var fill := new PCachePage(d, lba, data, n);
      fill.RefCount := 1;
      fill.FlagValid := true;
      Insert(fill);
      LoadedPageKeepsView(fill);
      return fill;
    }

    lemma SameLbaSameNumber(p: PCachePage, d: Disk, n: nat)
      requires p.Shaped() && p.Device == d && p.Lba == n * d.SectorsPerPage()
      ensures p.Number == n
    {
      PageBytes(n, d.SectorSize);
      PageBytes(p.Number, d.SectorSize);
    }

    ghost method NoteRefusal()
      requires Valid()
      modifies `Refusals
      ensures Valid() && Refusals == old(Refusals) + 1 && (forall n :: old(NoRoom(n)) ==> NoRoom(n))
      ensures old(Coherent()) ==> Coherent()
      ensures forall d, i :: d in Disks ==> View(d, i) == old(View(d, i))
    {
      hide Filed, Linked, View;
      Refusals := Refusals + 1;
      SameDataSameView();
    }

    method GetPage(d: Disk, lba: nat, ghost n: nat) returns (page: PCachePage?)
      requires Valid() && d in Disks && lba == n * d.SectorsPerPage()
      modifies this, Pages, Disks
      ensures Valid() && MaxPages == old(MaxPages) && Initialized == old(Initialized)
      ensures IoFaults >= old(IoFaults) && Refusals >= old(Refusals) && DirectFaults == old(DirectFaults)
      ensures page == null && IoFaults == old(IoFaults) ==> NoRoom(old(PageCount))
      ensures DirtyCount <= old(DirtyCount)
      ensures page != null ==> page in Pages && page.Device == d && page.Number == n
      ensures page != null ==> page.RefCount == if page in old(Pages) then old(page.RefCount) + 1 else 1
      ensures page != null ==> !page.FlagWriteback || (page in old(Pages) && old(page.FlagWriteback))
      ensures forall p :: p in Pages && p != page ==> p in old(Pages) && unchanged(p)
      ensures fresh(Pages - old(Pages))
      ensures old(Bounded()) ==> Bounded()
      ensures page == null ==> IoFaults > old(IoFaults) || Refusals > old(Refusals)
      ensures old(Quiet() && Bounded()) && MaxPages > 0 ==> Refusals == old(Refusals)
      ensures old(Coherent()) ==> Coherent()
      ensures old(Coherent()) && IoFaults == old(IoFaults) ==> forall e, i :: e in Disks ==>
        View(e, i) == old(View(e, i))
      ensures page != null && old(exists p :: p in Pages && p.Device == d && p.Number == n) ==> page in old(Pages)
      ensures page != null && page in old(Pages) ==> Lru == [page] + Without<PCachePage>(old(Lru), page)
      ensures page != null && page !in old(Pages) && old(Quiet() && Bounded()) ==>
        Lru == [page] + old(Lru)[..Kept(|old(Lru)|, MaxPages)]
    {
      hide Filed, Linked, Enumerates, IndexOf, Without, NoDup, View, Coherent, FlagsAgree;
      var hit := Lookup(d, lba);
      if hit != null {
        SameLbaSameNumber(hit, d, n);
        Hit(hit);
        return hit;
      }
      var room := EnsureRoom();
      if !room {
        NoteRefusal();
        return null;
      }
      page := Load(d, lba, n);
    }

    method Release(p: PCachePage)
      requires Valid() && p in Pages
      modifies p`RefCount
      ensures Valid() && p.RefCount == if old(p.RefCount) > 0 then old(p.RefCount) - 1 else 0
      ensures old(Coherent()) ==> Coherent()
      ensures forall d, i :: d in Disks ==> View(d, i) == old(View(d, i))
    {
      hide Filed, Linked, View;
      if p.RefCount > 0 {
        p.RefCount := p.RefCount - 1;
      }
      SameDataSameView();
    }

    ghost predicate Ready()
      reads this, Pages
    {
      Quiet() && Bounded() && MaxPages > 0
    }

    /** The page path of one turn: pin, copy out, unpin. */
    method CopyOut(page: PCachePage, cur: nat, end: nat) returns (bytes: seq<Byte>)
      requires Valid() && page in Pages && page.Number == cur / PAGE_SIZE && cur < end && end - cur < 0x1_0000_0000
      modifies page`RefCount
      ensures Valid() && page.RefCount == if old(page.RefCount) > 0 then old(page.RefCount) - 1 else 0
      ensures old(Coherent()) ==> Coherent()
      ensures forall d, i :: d in Disks ==> View(d, i) == old(View(d, i))
      ensures |bytes| == ChunkSize(cur, end)
      ensures forall k :: 0 <= k < |bytes| ==> bytes[k] == old(View(page.Device, cur + k))
    {
      hide Filed, Linked;
      var offset := cur % PAGE_SIZE;
      var chunk := ChunkSize(cur, end);
      bytes := page.Data[offset..offset + chunk];
      forall k | 0 <= k < chunk
        ensures bytes[k] == View(page.Device, cur + k)
      {
        assert (cur + k) / PAGE_SIZE == cur / PAGE_SIZE && (cur + k) % PAGE_SIZE == offset + k;
        assert page.Covers(page.Device, cur + k);
      }
      Release(page);
    }

    ghost method NoteFault()
      requires Valid()
      modifies `IoFaults, `DirectFaults
      ensures Valid() && IoFaults == old(IoFaults) + 1 && DirectFaults == old(DirectFaults) + 1
      ensures (old(Quiet()) ==> Quiet()) && (old(Bounded()) ==> Bounded())
      ensures old(Coherent()) ==> Coherent()
      ensures forall d, i :: d in Disks ==> View(d, i) == old(View(d, i))
    {
      hide Filed, Linked, View;
      IoFaults, DirectFaults := IoFaults + 1, DirectFaults + 1;
      SameDataSameView();
    }

    /** Nothing failed and nothing was refused since the old state, which was coherent. */
    twostate predicate Clean()
      requires old(PagesShaped())
      reads this
    {
      old(Coherent()) && IoFaults == old(IoFaults) && Refusals == old(Refusals)
    }

    /** Without a page, a turn of PCacheRead goes to the disk, for at most 128 sectors. */
    method ReadDirect(d: Disk, cur: nat, end: nat, ghost c: nat, ghost e: nat)
      returns (status: Status, bytes: seq<Byte>, ghost m: nat)
      requires Valid() && cur < end && cur == c * d.SectorSize && end == e * d.SectorSize
      modifies `IoFaults, `DirectFaults
      ensures Valid() && status != IncorrectValue
      ensures var failed := if status == IoError then 1 else 0;
        IoFaults == old(IoFaults) + failed && DirectFaults == old(DirectFaults) + failed
      ensures status == Success ==> 0 < m <= e - c && |bytes| == m * d.SectorSize
      ensures status == Success ==> forall k :: 0 <= k < |bytes| ==> bytes[k] == d.Content(cur + k)
      ensures (old(Quiet()) ==> Quiet()) && (old(Bounded()) ==> Bounded())
      ensures old(Coherent()) ==> Coherent()
      ensures forall x, i :: x in Disks ==> View(x, i) == old(View(x, i))
    {
      hide Filed, Linked, View;
      status, bytes, m := Success, [], 0;
      var left := (end - cur) / d.SectorSize;
      var this_ := if left > 128 then 128 else left;
      SectorsLeft(c, e, d.SectorSize);
      SectorOf(c, d.SectorSize);
      var ok, direct := d.Read(cur / d.SectorSize, this_);
      if !ok {
        NoteFault();
        status := IoError;
        return;
      }
      bytes, m := direct, this_;
      SameDataSameView();
    }

    /** Without a page, a turn of PCacheWrite goes to the disk. */
    method WriteDirect(d: Disk, cur: nat, end: nat, data: seq<Byte>, ghost c: nat, ghost e: nat)
      returns (status: Status, moved: nat, ghost m: nat)
      requires Valid() && cur < end && cur == c * d.SectorSize && end == e * d.SectorSize && |data| == end - cur
      modifies `IoFaults, `DirectFaults, d`Content
      ensures Valid() && status != IncorrectValue
      ensures var failed := if status == IoError then 1 else 0;
        IoFaults == old(IoFaults) + failed && DirectFaults == old(DirectFaults) + failed
      ensures status == Success ==> 0 < m <= e - c && moved == m * d.SectorSize <= |data|
      ensures status == Success ==> forall i :: cur <= i < cur + moved ==> d.Content(i) == data[i - cur]
      ensures (old(Quiet()) ==> Quiet()) && (old(Bounded()) ==> Bounded())
    {
      hide Filed, Linked, View;
      status, moved, m := Success, 0, 0;
      var left := (end - cur) / d.SectorSize;
      var this_ := if left > 128 then 128 else left;
      SectorsLeft(c, e, d.SectorSize);
      SectorOf(c, d.SectorSize);
      MulMono(this_, e - c, d.SectorSize);
      MulSub(e, c, d.SectorSize);
      var ok := d.Write(cur / d.SectorSize, this_, data[..this_ * d.SectorSize]);
      if !ok {
        IoFaults, DirectFaults := IoFaults + 1, DirectFaults + 1;
        status := IoError;
        return;
      }
      m, moved := this_, this_ * d.SectorSize;
      forall i | cur <= i < cur + moved
        ensures d.Content(i) == data[i - cur]
      {
        assert d.Content(cur / d.SectorSize * d.SectorSize + (i - cur)) == data[..moved][i - cur];
      }
    }

    /** One turn of the loop of PCacheRead, from sector c of the transfer's sectors [.., e). */
    method ReadTurn(d: Disk, cur: nat, end: nat, ghost c: nat, ghost e: nat)
      returns (status: Status, bytes: seq<Byte>, ghost m: nat)
      requires Valid() && d in Disks && cur < end && end - cur < 0x1_0000_0000
      requires cur == c * d.SectorSize && end == e * d.SectorSize
      modifies this, Pages, Disks
      ensures Valid() && fresh(Pages - old(Pages)) && MaxPages == old(MaxPages) && Initialized == old(Initialized)
      ensures IoFaults >= old(IoFaults) && Refusals >= old(Refusals)
      ensures status != IncorrectValue && IoFaults - old(IoFaults) >= DirectFaults - old(DirectFaults) >= 0
      ensures status == IoError <==> DirectFaults > old(DirectFaults)
      ensures status == Success ==> 0 < m <= e - c && |bytes| == m * d.SectorSize
      ensures old(Coherent()) ==> Coherent()
      ensures old(Quiet()) ==> Quiet()
      ensures old(Bounded()) ==> Bounded()
      ensures old(Ready()) ==> Refusals == old(Refusals)
      ensures Clean() ==> forall x, i :: x in Disks ==> View(x, i) == old(View(x, i))
      ensures Clean() && status == Success ==> forall k :: 0 <= k < |bytes| ==> bytes[k] == old(View(d, cur + k))
      ensures status == Success ==>
        || (forall k :: 0 <= k < |bytes| ==> bytes[k] == View(d, cur + k))
        || (forall k :: 0 <= k < |bytes| ==> bytes[k] == d.Content(cur + k))
      ensures DirtyCount <= old(DirtyCount)
    {
      hide Filed, Linked, View, PCachePage.MatchesDisk, Without;
      status, bytes, m := Success, [], 0;
      var page := GetPage(d, cur / PAGE_SIZE * d.SectorsPerPage(), cur / PAGE_SIZE);
      if page == null {
        status, bytes, m := ReadDirect(d, cur, end, c, e);
      } else {
        ChunkSectors(c, e, d.SectorSize);
        bytes := CopyOut(page, cur, end);
        m := Least(4096 / d.SectorSize - c % (4096 / d.SectorSize), e - c);
      }
    }

    method PCacheRead(d: Disk, lba: nat, count: nat) returns (status: Status, buf: seq<Byte>)
      requires Valid() && d in Disks && count * d.SectorSize < 0x1_0000_0000
      modifies this, Pages, Disks
      ensures Valid() && fresh(Pages - old(Pages)) && MaxPages == old(MaxPages) && Initialized == old(Initialized)
      ensures IoFaults >= old(IoFaults) && Refusals >= old(Refusals)
      ensures old(Coherent()) ==> Coherent()
      ensures old(Quiet()) ==> Quiet()
      ensures old(Bounded()) ==> Bounded()
      ensures old(Ready()) ==> Refusals == old(Refusals)
      ensures (status == IncorrectValue <==> count == 0) && (count == 0 ==> buf == [])
      ensures Clean() ==> forall x, i :: x in Disks ==> View(x, i) == old(View(x, i))
      ensures Initialized ==> (status == IoError <==> DirectFaults > old(DirectFaults))
      ensures IoFaults - old(IoFaults) >= DirectFaults - old(DirectFaults) >= 0 && DirtyCount <= old(DirtyCount)
      ensures !Initialized ==> Pages == old(Pages)
      ensures !Initialized && status == Success ==>
        |buf| == count * d.SectorSize && forall k :: 0 <= k < |buf| ==> buf[k] == d.Content(lba * d.SectorSize + k)
      ensures !Initialized && count > 0 ==> (status == Success <==> DirectFaults == old(DirectFaults))
      ensures Clean() && Initialized && status == Success ==>
        |buf| == count * d.SectorSize && forall k :: 0 <= k < |buf| ==> buf[k] == old(View(d, lba * d.SectorSize + k))
    {
      hide Filed, Linked, View, Coherent, Quiet, ListsAgree, FlagsAgree, Bounded;
      status, buf := Success, [];
      if count == 0 {
        status := IncorrectValue;
        return;
      }
      if !Initialized {
        var ok, direct := d.Read(lba, count);
        if !ok { NoteFault(); }
        status, buf := if ok then Success else IoError, direct;
        return;
      }
      var size := d.SectorSize;
      var cur := lba * size;
      var end := cur + count * size;
      ghost var c, e := lba, lba + count;
      MulSub(lba, count, size);
      while cur < end
        invariant Valid() && fresh(Pages - old(Pages)) && MaxPages == old(MaxPages) && Initialized && status == Success
        invariant IoFaults >= old(IoFaults) && Refusals >= old(Refusals) && DirectFaults == old(DirectFaults)
        invariant DirtyCount <= old(DirtyCount)
        invariant old(Coherent()) ==> Coherent()
        invariant old(Quiet()) ==> Quiet()
        invariant old(Bounded()) ==> Bounded()
        invariant old(Ready()) ==> Refusals == old(Refusals)
        invariant c <= e && cur == c * size && end == e * size && cur == lba * size + |buf| <= end
        invariant Clean() ==> forall x, i :: x in Disks ==> View(x, i) == old(View(x, i))
        invariant Clean() ==> forall k :: 0 <= k < |buf| ==> buf[k] == old(View(d, lba * size + k))
        decreases e - c
      {
        ghost var m;
        var bytes;
        status, bytes, m := ReadTurn(d, cur, end, c, e);
        if status != Success {
          return;
        }
        MulSub(c, m, size);
        MulMono(c + m, e, size);
        buf := buf + bytes;
        cur := cur + |bytes|;
        c := c + m;
      }
    }

    method MarkDirty(p: PCachePage)
      requires Valid() && p in Pages
      modifies this, p`FlagDirty
      ensures Valid() && p.FlagDirty && Pages == old(Pages) && Lru == old(Lru) && PageCount == old(PageCount)
      ensures SameConfig() && IoFaults == old(IoFaults)
    {
      hide Filed, Enumerates, NoDup;
      if !p.FlagDirty {
        EnumerateMore(DirtyList, DirtyPages, DirtyCount, p);
        p.FlagDirty := true;
        DirtyList := [p] + DirtyList;
        DirtyCount := DirtyCount + 1;
        DirtyPages := DirtyPages + {p};
      }
    }

    /** After a store into page w: its bytes are the new ones, all others as before. */
    twostate lemma ViewAfterStore(w: PCachePage)
      requires old(Valid()) && Valid() && w in Pages && Pages == old(Pages) && w.FlagDirty
      requires forall p :: p in Pages && p != w ==> p.Data == old(p.Data) && p.FlagDirty == old(p.FlagDirty)
      requires forall d :: d in Disks ==> d.Content == old(d.Content)
      ensures forall d, i :: d in Disks ==>
        View(d, i) == if w.Covers(d, i) then w.Data[i % PAGE_SIZE] else old(View(d, i))
      ensures old(Coherent()) ==> Coherent()
    {
      if old(Coherent()) {
        forall p | p in Pages && !p.FlagDirty
          ensures p.MatchesDisk()
        {
          assert old(p.MatchesDisk());
        }
      }
    }

    /** The page path of one turn of PCacheWrite: store, mark dirty, unpin. */
    method CopyIn(page: PCachePage, cur: nat, end: nat, bytes: seq<Byte>)
      requires Valid() && page in Pages && page.Number == cur / PAGE_SIZE && cur < end && end - cur < 0x1_0000_0000
      requires |bytes| == ChunkSize(cur, end)
      modifies this, page
      ensures Valid() && Pages == old(Pages) && PageCount == old(PageCount) && SameConfig() && IoFaults == old(IoFaults)
      ensures page.RefCount == if old(page.RefCount) > 0 then old(page.RefCount) - 1 else 0
      ensures page.FlagWriteback == old(page.FlagWriteback)
      ensures old(Coherent()) ==> Coherent()
      ensures forall d, i :: d in Disks ==>
        View(d, i) == if d == page.Device && cur <= i < cur + |bytes| then bytes[i - cur] else old(View(d, i))
    {
      hide Filed, Linked;
      var offset := cur % PAGE_SIZE;
      page.Data := page.Data[..offset] + bytes + page.Data[offset + |bytes|..];
      MarkDirty(page);
      ViewAfterStore(page);
      forall d, i | d in Disks
        ensures View(d, i) == if d == page.Device && cur <= i < cur + |bytes| then bytes[i - cur] else old(View(d, i))
      {
        if page.Covers(d, i) {
          assert i % PAGE_SIZE == i - cur + offset;
        }
      }
      Release(page);
    }

    /** One turn of the loop of PCacheWrite. */
    method WriteTurn(d: Disk, cur: nat, end: nat, data: seq<Byte>, ghost c: nat, ghost e: nat)
      returns (status: Status, moved: nat, ghost m: nat)
      requires Valid() && d in Disks && cur < end && end - cur < 0x1_0000_0000 && |data| == end - cur
      requires cur == c * d.SectorSize && end == e * d.SectorSize
      modifies this, Pages, Disks
      ensures Valid() && fresh(Pages - old(Pages)) && MaxPages == old(MaxPages) && Initialized == old(Initialized)
      ensures IoFaults >= old(IoFaults) && Refusals >= old(Refusals)
      ensures status != IncorrectValue && IoFaults - old(IoFaults) >= DirectFaults - old(DirectFaults) >= 0
      ensures status == IoError <==> DirectFaults > old(DirectFaults)
      ensures status == Success ==> 0 < m <= e - c && moved == m * d.SectorSize
      ensures old(Quiet()) ==> Quiet()
      ensures old(Bounded()) ==> Bounded()
      ensures old(Ready()) ==> Refusals == old(Refusals)
      ensures Clean() ==> Coherent() && status == Success && moved <= |data|
      ensures Clean() ==> forall x, i :: x in Disks ==>
        View(x, i) == if x == d && cur <= i < cur + moved then data[i - cur] else old(View(x, i))
      ensures status == Success ==> moved <= |data|
      ensures status == Success ==>
        || (forall i :: cur <= i < cur + moved ==> View(d, i) == data[i - cur])
        || (forall i :: cur <= i < cur + moved ==> d.Content(i) == data[i - cur])
    {
      hide Filed, Linked, View, PCachePage.MatchesDisk, Without;
      status, moved, m := Success, 0, 0;
      var page := GetPage(d, cur / PAGE_SIZE * d.SectorsPerPage(), cur / PAGE_SIZE);
      if page == null {
        status, moved, m := WriteDirect(d, cur, end, data, c, e);
      } else {
        ChunkSectors(c, e, d.SectorSize);
        m := Least(4096 / d.SectorSize - c % (4096 / d.SectorSize), e - c);
        moved := ChunkSize(cur, end);
        CopyIn(page, cur, end, data[..moved]);
      }
    }

    method PCacheWrite(d: Disk, lba: nat, count: nat, buf: seq<Byte>) returns (status: Status)
      requires Valid() && d in Disks && |buf| == count * d.SectorSize < 0x1_0000_0000
      modifies this, Pages, Disks
      ensures Valid() && fresh(Pages - old(Pages)) && MaxPages == old(MaxPages) && Initialized == old(Initialized)
      ensures IoFaults >= old(IoFaults) && Refusals >= old(Refusals)
      ensures old(Quiet()) ==> Quiet()
      ensures old(Bounded()) ==> Bounded()
      ensures old(Ready()) ==> Refusals == old(Refusals)
      ensures status == IncorrectValue <==> count == 0
      ensures Initialized ==> (status == IoError <==> DirectFaults > old(DirectFaults))
      ensures IoFaults - old(IoFaults) >= DirectFaults - old(DirectFaults) >= 0
      ensures !Initialized && count > 0 ==>
        Pages == old(Pages) && (status == Success <==> DirectFaults == old(DirectFaults))
      ensures !Initialized && status == Success ==>
        forall k :: 0 <= k < |buf| ==> d.Content(lba * d.SectorSize + k) == buf[k]
      ensures Clean() && Initialized ==> Coherent()
      ensures Clean() && Initialized ==> forall x, i :: x in Disks ==>
        View(x, i) == if x == d && lba * d.SectorSize <= i < lba * d.SectorSize + |buf| then buf[i - lba * d.SectorSize]
                      else old(View(x, i))
    {
      hide Filed, Linked, View, Coherent, Quiet, Bounded;
      status := Success;
      if count == 0 {
        status := IncorrectValue;
        return;
      }
      if !Initialized {
        var ok := d.Write(lba, count, buf);
        if !ok { NoteFault(); }
        status := if ok then Success else IoError;
        return;
      }
      var size := d.SectorSize;
      var cur := lba * size;
      var end := cur + count * size;
      ghost var c, e := lba, lba + count;
      MulSub(lba, count, size);
      while cur < end
        invariant Valid() && fresh(Pages - old(Pages)) && MaxPages == old(MaxPages) && Initialized && status == Success
        invariant IoFaults >= old(IoFaults) && Refusals >= old(Refusals) && DirectFaults == old(DirectFaults)
        invariant old(Quiet()) ==> Quiet()
        invariant old(Bounded()) ==> Bounded()
        invariant old(Ready()) ==> Refusals == old(Refusals)
        invariant c <= e && cur == c * size && end == e * size && lba * size <= cur <= end
        invariant Clean() ==> Coherent() && forall x, i :: x in Disks ==>
          View(x, i) == if x == d && lba * size <= i < cur then buf[i - lba * size] else old(View(x, i))
        decreases e - c
      {
        ghost var m;
        var moved;
        status, moved, m := WriteTurn(d, cur, end, buf[cur - lba * size..], c, e);
        if status != Success {
          return;
        }
        MulSub(c, m, size);
        MulMono(c + m, e, size);
        cur := cur + moved;
        c := c + m;
      }
    }

    /** After a page was written out and perhaps marked clean, the same bytes are seen everywhere. */
    twostate lemma ViewAfterWriteOut(w: PCachePage)
      requires old(Valid()) && Valid() && w in Pages && Pages == old(Pages)
      requires forall p :: p in Pages ==> p.Data == old(p.Data)
      requires forall p :: p in Pages && p != w ==> p.FlagDirty == old(p.FlagDirty)
      requires forall d, i :: d in Disks && !w.Covers(d, i) ==> d.Content(i) == old(d.Content(i))
      requires w.FlagDirty || w.MatchesDisk()
      ensures forall d, i :: d in Disks ==> View(d, i) == old(View(d, i))
      ensures old(Coherent()) ==> Coherent()
    {
      if old(Coherent()) {
        forall p | p in Pages && !p.FlagDirty && p != w
          ensures p.MatchesDisk()
        {
          forall k | 0 <= k < PAGE_SIZE
            ensures p.Data[k] == p.Device.Content(p.Number * PAGE_SIZE + k)
          {
            assert !w.Covers(p.Device, p.Number * PAGE_SIZE + k);
          }
        }
      }
    }

    /** The ListDel and the counter of a page that reached its disk. */
    method MarkClean(p: PCachePage)
      requires Valid() && p in Pages && p.FlagDirty
      modifies this, p
      ensures Valid() && !p.FlagDirty && !p.FlagWriteback && p.Data == old(p.Data) && p.RefCount == old(p.RefCount)
      ensures DirtyPages == old(DirtyPages) - {p} && DirtyCount == old(DirtyCount) - 1
      ensures Pages == old(Pages) && Lru == old(Lru) && PageCount == old(PageCount)
      ensures SameConfig() && IoFaults == old(IoFaults) && WriteFaults == old(WriteFaults)
    {
      hide Filed, Enumerates, NoDup, Without;
      Present(p);
      EnumerateLess(DirtyList, DirtyPages, DirtyCount, p);
      p.FlagDirty := false;
      p.FlagWriteback := false;
      DirtyList := Without(DirtyList, p);
      DirtyCount := DirtyCount - 1;
      DirtyPages := DirtyPages - {p};
    }

    /** The body of the flush and writeback loops for one idle dirty page. */
    method CleanPage(p: PCachePage) returns (ok: bool)
      requires Valid() && p in Pages && p.FlagDirty && !p.Busy()
      modifies this, p, Disks
      ensures Valid() && Pages == old(Pages) && Lru == old(Lru) && PageCount == old(PageCount) && SameConfig()
      ensures p.Data == old(p.Data) && !p.Busy() && (ok <==> !p.FlagDirty)
      ensures DirtyCount == if ok then old(DirtyCount) - 1 else old(DirtyCount)
      ensures IoFaults == old(IoFaults) && WriteFaults == if ok then old(WriteFaults) else old(WriteFaults) + 1
      ensures old(Coherent()) ==> Coherent()
      ensures forall d, i :: d in Disks ==> View(d, i) == old(View(d, i))
    {
      hide Filed, Linked, View;
      p.RefCount := 1;
      p.FlagWriteback := true;
      ok := WriteOut(p);
      if ok {
        MarkClean(p);
      } else {
        p.FlagWriteback := false;
        WriteFaults := WriteFaults + 1;
      }
      p.RefCount := 0;
      ViewAfterWriteOut(p);
    }

    predicate Chosen(p: PCachePage, d: Disk?) {
      d == null || p.Device == d
    }

    /** Only write-outs happened: dirty pages of d became clean, nothing else about a page changed. */
    twostate predicate OnlyCleaned(d: Disk?)
      reads this, Pages
    {
      && Pages == old(Pages) && Lru == old(Lru) && PageCount == old(PageCount) && SameConfig()
      && forall p :: p in Pages ==>
        && p.Data == old(p.Data) && p.RefCount == old(p.RefCount) && p.FlagWriteback == old(p.FlagWriteback)
        && (p.FlagDirty != old(p.FlagDirty) ==> old(p.FlagDirty) && Chosen(p, d) && !p.Busy())
    }

    lemma DirtyListFacts()
      requires Valid()
      ensures NoDup(DirtyList) && forall p :: p in DirtyList <==> p in Pages && p.FlagDirty
    {
    }

    /** The dirty pages of d (of every disk when d is null) that nobody uses. */
    ghost function IdleDirty(d: Disk?): set<PCachePage>
      reads this, Pages
    {
      set p | p in Pages && p.FlagDirty && Chosen(p, d) && !p.Busy()
    }

    lemma IdleFacts(d: Disk?)
      requires Valid()
      ensures forall p :: p in IdleDirty(d) <==> p in DirtyList && Chosen(p, d) && !p.Busy()
      ensures IdleDirty(d) <= Members(DirtyList)
    {
      hide Filed;
      DirtyListFacts();
    }

    /** One turn of the walk: the page is skipped or tried. */
    method CleanTurn(p: PCachePage, d: Disk?) returns (ok: bool)
      requires Valid() && p in Pages && p.FlagDirty
      modifies this, p, Disks
      ensures Valid() && OnlyCleaned(d) && IoFaults == old(IoFaults)
      ensures DirtyCount == if ok then old(DirtyCount) - 1 else old(DirtyCount)
      ensures ok <==> !p.FlagDirty
      ensures var tried := Chosen(p, d) && !p.Busy();
        (ok ==> tried) && WriteFaults == if tried && !ok then old(WriteFaults) + 1 else old(WriteFaults)
      ensures |IdleDirty(d)| == if ok then |old(IdleDirty(d))| - 1 else |old(IdleDirty(d))|
      ensures old(Coherent()) ==> Coherent()
      ensures forall x, i :: x in Disks ==> View(x, i) == old(View(x, i))
    {
      hide Filed, Linked, View, Coherent, ListsAgree, FlagsAgree;
      ok := false;
      if d != null && p.Device != d { return; }
      if p.RefCount > 0 { return; }
      if p.FlagWriteback { return; }
      ghost var was := IdleDirty(d);
      ok := CleanPage(p);
      assert IdleDirty(d) == if ok then was - {p} else was;
    }

    /** One walk of the dirty list, trying to write out each idle page of d until batch of them are written. */
    method CleanPass(d: Disk?, batch: nat) returns (flushed: nat)
      requires Valid()
      modifies this, Pages, Disks
      ensures Valid() && OnlyCleaned(d) && IoFaults == old(IoFaults) && WriteFaults >= old(WriteFaults)
      ensures DirtyCount + flushed == old(DirtyCount) && flushed <= batch
      ensures flushed + (WriteFaults - old(WriteFaults)) <= |old(IdleDirty(d))|
      ensures flushed < batch ==> flushed + (WriteFaults - old(WriteFaults)) == |old(IdleDirty(d))|
      ensures |IdleDirty(d)| + flushed == |old(IdleDirty(d))|
      ensures WriteFaults == old(WriteFaults) ==> FrontFirst(old(DirtyList), old(IdleDirty(d)))
      ensures WriteFaults == old(WriteFaults) && flushed < batch ==>
        forall p :: p in Pages && Chosen(p, d) && !p.Busy() ==> !p.FlagDirty
      ensures old(Coherent()) ==> Coherent()
      ensures forall x, i :: x in Disks ==> View(x, i) == old(View(x, i))
    {
      hide Filed, Linked, View, Coherent, ListsAgree, FlagsAgree, IdleDirty, NoDup, Members;
      DirtyListFacts();
      IdleFacts(d);
      var walk := DirtyList;
      flushed := 0;
      ghost var n, idle := 0, IdleDirty(d);
      NoneTried(walk, idle);
      for j := 0 to |walk|
        invariant n == j && Valid() && OnlyCleaned(d) && IoFaults == old(IoFaults) && WriteFaults >= old(WriteFaults)
        invariant DirtyCount + flushed == old(DirtyCount) && flushed <= batch
        invariant |IdleDirty(d)| + flushed == |idle|
        invariant |Tried(walk, idle, j)| == flushed + (WriteFaults - old(WriteFaults))
        invariant forall k :: j <= k < |walk| ==> walk[k].FlagDirty
        invariant WriteFaults == old(WriteFaults) ==>
          forall k :: 0 <= k < j && walk[k] in idle ==> !walk[k].FlagDirty
        invariant old(Coherent()) ==> Coherent()
        invariant forall x, i :: x in Disks ==> View(x, i) == old(View(x, i))
      {
        if flushed >= batch { break; }
        OneTried(walk, idle, j);
        var ok := CleanTurn(walk[j], d);
        if ok { flushed := flushed + 1; }
        n := n + 1;
      }
      AllTried(walk, idle, n);
    }

    /** The idle pages among the first n of the walk. */
    static ghost function Tried(walk: seq<PCachePage>, idle: set<PCachePage>, n: nat): set<PCachePage>
      requires n <= |walk|
    {
      set k | 0 <= k < n && walk[k] in idle :: walk[k]
    }

    /** Of the idle pages in the list, the ones in front are clean if one behind is. */
    ghost predicate FrontFirst(walk: seq<PCachePage>, idle: set<PCachePage>)
      reads idle
    {
      forall i, j :: 0 <= i < j < |walk| && walk[i] in idle && walk[j] in idle && !walk[j].FlagDirty ==>
        !walk[i].FlagDirty
    }

    static ghost function Members(walk: seq<PCachePage>): set<PCachePage> {
      set p | p in walk
    }

    lemma NoneTried(walk: seq<PCachePage>, idle: set<PCachePage>)
      ensures Tried(walk, idle, 0) == {}
    {
    }

    lemma OneTried(walk: seq<PCachePage>, idle: set<PCachePage>, n: nat)
      requires NoDup(walk) && n < |walk|
      ensures |Tried(walk, idle, n + 1)| == |Tried(walk, idle, n)| + if walk[n] in idle then 1 else 0
    {
      assert walk[n] !in Tried(walk, idle, n);
      assert Tried(walk, idle, n + 1) == Tried(walk, idle, n) + if walk[n] in idle then {walk[n]} else {};
    }

    lemma AllTried(walk: seq<PCachePage>, idle: set<PCachePage>, n: nat)
      requires n <= |walk| && idle <= Members(walk)
      ensures |Tried(walk, idle, n)| <= |idle| && (n == |walk| ==> Tried(walk, idle, n) == idle)
    {
      SubsetIsSmaller(Tried(walk, idle, n), idle);
    }

    /** PCacheFlushInternal: two walks over the dirty list. */
    method PCacheFlush(d: Disk?) returns (flushed: nat)
      requires Valid()
      modifies this, Pages, Disks
      ensures Valid() && OnlyCleaned(d) && IoFaults == old(IoFaults) && WriteFaults >= old(WriteFaults)
      ensures flushed + DirtyCount == if Initialized then old(DirtyCount) else DirtyCount
      ensures Initialized ==> flushed + |IdleDirty(d)| == |old(IdleDirty(d))|
      ensures Initialized ==> 2 * |IdleDirty(d)| <= WriteFaults - old(WriteFaults)
      ensures WriteFaults == old(WriteFaults) && Initialized ==>
        forall p :: p in Pages && Chosen(p, d) && !p.Busy() ==> !p.FlagDirty
      ensures old(Coherent()) ==> Coherent()
      ensures forall x, i :: x in Disks ==> View(x, i) == old(View(x, i))
    {
      hide Filed, Linked, View, Coherent, ListsAgree, FlagsAgree;
      flushed := 0;
      if !Initialized {
        return;
      }
      for pass := 0 to 2
        invariant Valid() && OnlyCleaned(d) && IoFaults == old(IoFaults) && WriteFaults >= old(WriteFaults)
        invariant DirtyCount + flushed == old(DirtyCount)
        invariant flushed + |IdleDirty(d)| == |old(IdleDirty(d))|
        invariant pass * |IdleDirty(d)| <= WriteFaults - old(WriteFaults)
        invariant WriteFaults == old(WriteFaults) && pass > 0 ==>
          forall p :: p in Pages && Chosen(p, d) && !p.Busy() ==> !p.FlagDirty
        invariant old(Coherent()) ==> Coherent()
        invariant forall x, i :: x in Disks ==> View(x, i) == old(View(x, i))
      {
        var n := CleanPass(d, DirtyCount + 1);
        flushed := flushed + n;
        if DirtyCount == 0 {
          NoneDirty(d);
          break;
        }
      }
    }

    lemma NoneDirty(d: Disk?)
      requires Valid() && DirtyCount == 0
      ensures IdleDirty(d) == {}
    {
      hide Filed;
      CachedLengths();
      IdleFacts(d);
    }

    /** One round of the writeback thread: it tries the idle dirty pages of all disks, in the order of the list, until a
        batch of them is written. */
    method WritebackRound() returns (flushed: nat)
      requires Valid()
      modifies this, Pages, Disks
      ensures Valid() && OnlyCleaned(null) && IoFaults == old(IoFaults) && WriteFaults >= old(WriteFaults)
      ensures DirtyCount + flushed == old(DirtyCount)
      ensures WriteFaults == old(WriteFaults) ==> flushed == Least(WRITEBACK_BATCH, |old(IdleDirty(null))|)
      ensures flushed <= WRITEBACK_BATCH
      ensures flushed < WRITEBACK_BATCH ==> flushed + (WriteFaults - old(WriteFaults)) == |old(IdleDirty(null))|
      ensures |IdleDirty(null)| + flushed == |old(IdleDirty(null))|
      ensures WriteFaults == old(WriteFaults) ==> FrontFirst(old(DirtyList), old(IdleDirty(null)))
      ensures old(Coherent()) ==> Coherent()
      ensures forall x, i :: x in Disks ==> View(x, i) == old(View(x, i))
    {
      hide Filed, Linked, View, Coherent, ListsAgree, FlagsAgree;
      flushed := CleanPass(null, WRITEBACK_BATCH);
    }

    /** With no dirty page left, the disks alone hold what the clients see. */
    lemma CleanCacheIsOnDisk(d: Disk, i: int)
      requires Valid() && Coherent() && d in Disks
      requires forall p :: p in Pages && p.Device == d ==> !p.FlagDirty
      ensures View(d, i) == d.Content(i)
    {
      if p :| p in Pages && p.Covers(d, i) {
        assert p.MatchesDisk();
        assert i == p.Number * PAGE_SIZE + i % PAGE_SIZE;
      }
    }

    /** The pages of `gone` left without being written; every other page kept all but perhaps its VALID flag. */
    twostate predicate Discarded(new gone: set<PCachePage>)
      reads this, Pages
    {
      && gone <= old(Pages) && Pages == old(Pages) - gone && SameConfig() && IoFaults == old(IoFaults)
      && forall p :: p in Pages ==>
        p.Data == old(p.Data) && p.RefCount == old(p.RefCount) && p.FlagWriteback == old(p.FlagWriteback)
          && p.FlagDirty == old(p.FlagDirty)
    }

    twostate lemma NoMorePages(gone: set<PCachePage>)
      requires old(Valid()) && Valid() && Discarded(gone)
      ensures PageCount <= old(PageCount)
    {
      SubsetNoLonger(Lru, old(Lru));
    }

    /** Where a page was discarded its disk shows through; elsewhere nothing changed. */
    twostate lemma ViewAfterDiscard(gone: set<PCachePage>)
      requires old(Valid()) && Valid() && Discarded(gone)
      requires forall d :: d in Disks ==> d.Content == old(d.Content)
      ensures forall d, i :: d in Disks ==>
        View(d, i) == if exists p :: p in gone && p.Covers(d, i) then d.Content(i) else old(View(d, i))
      ensures old(Coherent()) ==> Coherent()
      ensures PageCount <= old(PageCount) && (old(Quiet()) ==> Quiet()) && (old(Bounded()) ==> Bounded())
    {
      NoMorePages(gone);
      if old(Coherent()) {
        forall p | p in Pages && !p.FlagDirty
          ensures p.MatchesDisk()
        {
          assert old(p.MatchesDisk());
        }
      }
    }

    method PCacheInvalidateDisk(d: Disk)
      requires Valid()
      modifies this, Pages
      ensures Valid()
      ensures var gone := if Initialized then old(IdleOf(d)) else {};
        Discarded(gone) && forall x, i :: x in Disks ==>
          View(x, i) == if exists p :: p in gone && p.Covers(x, i) then x.Content(i) else old(View(x, i))
      ensures old(Coherent()) ==> Coherent()
      ensures (old(Quiet()) ==> Quiet()) && (old(Bounded()) ==> Bounded())
    {
      hide Filed, Linked, Without, View, Coherent;
      ghost var doomed := if Initialized then IdleOf(d) else {};
      if !Initialized {
        ViewAfterDiscard(doomed);
        return;
      }
      LruFacts();
      var walk := Lru;
      ghost var gone: set<PCachePage> := {};
      for j := 0 to |walk|
        invariant Valid() && Discarded(gone)
        invariant gone == set k | 0 <= k < j && walk[k].Device == d && old(walk[k].RefCount) == 0 :: walk[k]
      {
        var page := walk[j];
        if page.Device != d { continue; }
        if page.RefCount > 0 {
          page.FlagValid := false;
          continue;
        }
        Drop(page);
        gone := gone + {page};
      }
      assert gone == doomed;
      ViewAfterDiscard(doomed);
    }

    /** The idle pages of disk d. */
    ghost function IdleOf(d: Disk): set<PCachePage>
      reads this, Pages
    {
      set p | p in Pages && p.Device == d && p.RefCount == 0
    }

    lemma LruFacts()
      requires Valid()
      ensures NoDup(Lru) && forall p :: p in Lru <==> p in Pages
    {
    }

    /** The idle pages of d whose first sector is in [start, end). */
    ghost function IdleIn(d: Disk, start: nat, end: nat): set<PCachePage>
      reads this, Pages
    {
      set p | p in Pages && p.Device == d && start <= p.Lba < end && p.RefCount == 0
    }

    /** A page that starts within one stride of page number t is page t. */
    lemma StrideHitsOnePage(p: PCachePage, d: Disk, t: nat)
      requires p.Shaped() && p.Device == d
      requires t * d.SectorsPerPage() <= p.Lba < t * d.SectorsPerPage() + d.SectorsPerPage()
      ensures p.Lba == t * d.SectorsPerPage()
    {
      var n := d.SectorsPerPage();
      MulSub(t, 1, n);
      MulReflects(p.Number, t + 1, n);
      if p.Number < t { MulMono(p.Number + 1, t, n); MulSub(p.Number, 1, n); }
    }

    /** At most the one page at (d, t) is idle in its stride. */
    lemma OneIdlePage(d: Disk, t: nat)
      requires Valid()
      ensures d.SectorsPerPage() > 0
      ensures var cur := Times(t, d.SectorsPerPage());
        forall p :: p in IdleIn(d, cur, cur + d.SectorsPerPage()) <==>
          p in Pages && p.Device == d && p.Lba == cur && p.RefCount == 0
    {
      hide Filed, Linked;
      var cur := t * d.SectorsPerPage();
      SectorInPage(0, d.SectorSize);
      forall p | p in IdleIn(d, cur, cur + d.SectorsPerPage())
        ensures p.Lba == cur
      {
        StrideHitsOnePage(p, d, t);
      }
    }

    method InvalidateAt(d: Disk, cur: nat, ghost t: nat)
      requires Valid() && cur == Times(t, d.SectorsPerPage())
      modifies this, Pages
      ensures Valid() && Discarded(old(IdleIn(d, cur, cur + d.SectorsPerPage())))
    {
      hide Linked, Without, Enumerates, NoDup;
      OneIdlePage(d, t);
      var page := Lookup(d, cur);
      if page != null {
        if page.RefCount > 0 {
          page.FlagValid := false;
        } else {
          Drop(page);
        }
      }
    }

    /** The loop of PCacheInvalidate. */
    method InvalidateRange(d: Disk, start: nat, end: nat, ghost first: nat)
      requires Valid() && start == Times(first, d.SectorsPerPage()) && start <= end
      modifies this, Pages
      ensures Valid() && Discarded(old(IdleIn(d, start, end))) && IdleIn(d, start, end) == {}
    {
      hide Filed, Linked, View, Coherent, Times, Disk.SectorsPerPage;
      var n := d.SectorsPerPage();
      ghost var t := first;
      OneIdlePage(d, t);
      var cur := start;
      while cur < end
        invariant Valid() && Discarded(old(IdleIn(d, start, cur))) && start <= cur == Times(t, n)
        invariant forall p :: p in old(IdleIn(d, start, cur)) ==> p.Lba < end
        decreases end - cur
      {
        OneIdlePage(d, t);
        ghost var past := IdleIn(d, cur, cur + n);
        InvalidateAt(d, cur, t);
        assert old(IdleIn(d, start, cur + n)) == old(IdleIn(d, start, cur)) + past;
        TimesNext(t, n);
        cur := cur + n;
        t := t + 1;
      }
      assert old(IdleIn(d, start, cur)) == old(IdleIn(d, start, end));
      assert IdleIn(d, start, end) <= old(IdleIn(d, start, end)) && IdleIn(d, start, end) !! old(IdleIn(d, start, end));
    }

    method PCacheInvalidate(d: Disk, lba: nat, count: nat)
      requires Valid()
      modifies this, Pages
      ensures Valid()
      ensures Initialized ==> IdleIn(d, PageStart(d, lba), lba + count) == {}
      ensures var gone := if Initialized then old(IdleIn(d, PageStart(d, lba), lba + count)) else {};
        Discarded(gone) && forall x, i :: x in Disks ==>
          View(x, i) == if exists p :: p in gone && p.Covers(x, i) then x.Content(i) else old(View(x, i))
      ensures old(Coherent()) ==> Coherent()
      ensures (old(Quiet()) ==> Quiet()) && (old(Bounded()) ==> Bounded())
    {
      hide Filed, Linked, View, Coherent, IdleIn, Disk.SectorsPerPage, Times, PageStart;
      if !Initialized {
        ViewAfterDiscard({});
        return;
      }
      PageStartFacts(d, lba);
      var start := PageStart(d, lba);
      InvalidateRange(d, start, lba + count, lba / d.SectorsPerPage());
      ViewAfterDiscard(old(IdleIn(d, start, lba + count)));
    }

    /** The first sector of the page that holds a sector. */
    static function PageStart(d: Disk, lba: nat): nat {
      if d.SectorsPerPage() > 0 then lba / d.SectorsPerPage() * d.SectorsPerPage() else lba
    }

    lemma PageStartFacts(d: Disk, lba: nat)
      ensures d.SectorsPerPage() > 0 && PageStart(d, lba) <= lba
      ensures PageStart(d, lba) == Times(lba / d.SectorsPerPage(), d.SectorsPerPage())
    {
      SectorInPage(0, d.SectorSize);
    }

    method PCacheSetSize(maxPages: nat)
      requires Valid()
      modifies this, Pages, Disks
      ensures Valid() && MaxPages == (if maxPages < MIN_PAGES then MIN_PAGES else maxPages)
      ensures Initialized == old(Initialized)
      ensures Pages <= old(Pages) && forall p :: p in Pages ==> unchanged(p)
      ensures IoFaults >= old(IoFaults) && Refusals == old(Refusals)
      ensures PageCount >= Fitting(old(PageCount), MaxPages)
      ensures PageCount == Fitting(old(PageCount), MaxPages) || forall p :: p in Pages ==> p.Busy()
      ensures old(Quiet()) ==> Quiet() && Bounded() && Lru == old(Lru)[..Fitting(|old(Lru)|, MaxPages)]
      ensures old(Coherent()) ==> Coherent()
      ensures Clean() ==> forall d, i :: d in Disks ==> View(d, i) == old(View(d, i))
    {
      hide Filed, Linked, View, Without, IsVictim;
      var max := if maxPages < MIN_PAGES then MIN_PAGES else maxPages;
      Resize(max);
      CachedLengths();
      while PageCount > max
        invariant Valid() && MaxPages == max && Initialized == old(Initialized) && Refusals == old(Refusals)
        invariant Pages <= old(Pages) && forall p :: p in Pages ==> unchanged(p)
        invariant IoFaults >= old(IoFaults)
        invariant PageCount <= |old(Lru)| && (|old(Lru)| <= max ==> PageCount == |old(Lru)|)
          && (|old(Lru)| > max ==> PageCount >= max)
        invariant old(Quiet()) ==> Lru == old(Lru)[..PageCount]
        invariant old(Coherent()) ==> Coherent()
        invariant Clean() ==> forall d, i :: d in Disks ==> View(d, i) == old(View(d, i))
        decreases PageCount
      {
        var evicted, v := EvictOne();
        if !evicted { break; }
      }
    }

    method Resize(max: nat)
      requires Valid()
      modifies `MaxPages
      ensures Valid() && MaxPages == max
      ensures old(Coherent()) ==> Coherent()
      ensures forall d, i :: d in Disks ==> View(d, i) == old(View(d, i))
    {
      hide Filed, Linked, View;
      MaxPages := max;
      SameDataSameView();
    }

    /** PCacheInit. */
    constructor (hash: (Disk, nat) -> Bucket, ghost disks: set<Disk>)
      ensures HashOf == hash && Disks == disks
      ensures Valid() && Coherent() && Ready() && Initialized && Pages == {} && MaxPages == DEFAULT_PAGES
      ensures forall d, i :: d in Disks ==> View(d, i) == d.Content(i)
    {
      HashOf, Disks := hash, disks;
      Hash := seq(HASH_SIZE, _ => []);
      Lru, DirtyList := [], [];
      PageCount, DirtyCount, MaxPages := 0, 0, DEFAULT_PAGES;
      Initialized := true;
      Pages, DirtyPages, IoFaults, WriteFaults, DirectFaults, Refusals := {}, {}, 0, 0, 0, 0;
    }
  }
}
