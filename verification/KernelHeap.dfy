/** Kernel/Source/Mem/Allocator.c: the kernel heap, its headers linked in memory. */
module KernelHeap {
  import opened Bytes
  import opened HeapBlocks

  const MAGIC: nat := 0xB16B_00B5
  const HEAP_INITIAL_SIZE: nat := 16 * 1024 * 1024
  const HEAP_MAX_SIZE: nat := 512 * 1024 * 1024

  /** BlockHeader. Links are addresses, 0 for none. */
  datatype Header = Header(magic: nat, canary: nat, size: nat, free: bool, prev: nat, next: nat)

  type Headers = map<nat, Header>

  function HeaderOf(bs: seq<Block>, k: nat, canary: nat): Header
    requires k < |bs|
  {
    Header(MAGIC, canary, bs[k].size, bs[k].free,
           if k > 0 then bs[k - 1].addr else 0, if k + 1 < |bs| then bs[k + 1].addr else 0)
  }

  /** The headers in memory spell the blocks in list order, doubly linked. */
  ghost predicate Spells(h: Headers, bs: seq<Block>, canary: nat) {
    forall k :: 0 <= k < |bs| ==> SpellsAt(h, bs, k, canary)
  }

  ghost predicate SpellsAt(h: Headers, bs: seq<Block>, k: nat, canary: nat)
    requires k < |bs|
  {
    bs[k].addr in h && h[bs[k].addr] == HeaderOf(bs, k, canary)
  }

  /** The payloads of these blocks hold the same bytes. */
  ghost predicate Kept(live: set<Block>, before: int -> Byte, after: int -> Byte) {
    forall b, i :: b in live && b.Payload() <= i < b.Limit() ==> after(i) == before(i)
  }

  /** The region HeapExpandLocked adds for a request. */
  function Region(virt: nat, size: nat): (b: Block)
    ensures b.free && b.size >= size && b.addr == virt
  {
    var need := AlignUp(size + HEADER);
    var pages := (need + PAGE_SIZE - 1) / PAGE_SIZE;
    Block(virt, pages * PAGE_SIZE - HEADER, true)
  }

  /** A heap of this many bytes may not grow by a region for size bytes. */
  predicate OverLimit(current: nat, size: nat) {
    current + Region(0, size).size + HEADER > HEAP_MAX_SIZE
  }

  /** The n bytes at q now are the n bytes that were at p. */
  ghost predicate Copied(was: int -> Byte, now: int -> Byte, p: nat, q: nat, n: nat) {
    forall i :: q <= i < q + n ==> now(i) == was(p + (i - q))
  }

  ghost function All(bs: seq<Block>): set<Block> {
    set b | b in bs
  }

  /** No two blocks have the same address. */
  ghost predicate Distinct(bs: seq<Block>) {
    forall i, j :: 0 <= i < j < |bs| ==> bs[i].addr != bs[j].addr
  }

  lemma ApartIsDistinct(bs: seq<Block>)
    requires Apart(bs)
    ensures Distinct(bs)
  {
    forall i, j | 0 <= i < j < |bs|
      ensures bs[i].addr != bs[j].addr
    {
      assert bs[i].Misses(bs[j]);
    }
  }

  /** Writing the header of a block touches no payload. */
  lemma HeaderWrite(bs: seq<Block>, k: nat, live: set<Block>, before: int -> Byte, middle: int -> Byte,
          after: int -> Byte)
    requires Apart(bs) && k < |bs| && (forall b :: b in live ==> b in bs)
    requires Kept(live, before, middle)
    requires forall i :: !(bs[k].addr <= i < bs[k].addr + HEADER) ==> after(i) == middle(i)
    ensures Kept(live, before, after)
  {
    forall b, i | b in live && b.Payload() <= i < b.Limit()
      ensures after(i) == before(i)
    {
      if b != bs[k] { TwoOfThem(bs, b, bs[k]); }
    }
  }

  lemma TwoOfThem(bs: seq<Block>, a: Block, b: Block)
    requires Apart(bs) && a in bs && b in bs && a != b
    ensures a.Misses(b)
  {
    var i :| 0 <= i < |bs| && bs[i] == a;
    var j :| 0 <= j < |bs| && bs[j] == b;
    assert if i < j then bs[i].Misses(bs[j]) else bs[j].Misses(bs[i]);
  }

  function Relinked(h: Headers, a: nat, prev: nat): Headers {
    if a in h then h[a := h[a].(prev := prev)] else h
  }

  /** The headers after block k was split: a new header behind it, linked both ways. */
  function SplitHeaders(h: Headers, b: Block, hd: Header, size: nat): Headers
    requires hd.size >= size + HEADER
  {
    var n := b.addr + HEADER + size;
    var h1 := h[n := Header(MAGIC, hd.canary, hd.size - size - HEADER, true, b.addr, hd.next)];
    var h2 := if hd.next != 0 then Relinked(h1, hd.next, n) else h1;
    h2[b.addr := hd.(next := n, size := size)]
  }

  lemma SplitSpellsAt(h: Headers, bs: seq<Block>, canary: nat, k: nat, size: nat, j: nat)
    requires j < |bs| && k < |bs| && j != k && Fits(bs[k], size)
    requires SpellsAt(h, bs, j, canary) && SpellsAt(h, bs, k, canary)
    requires bs[j].addr != bs[k].addr && bs[j].addr != bs[k].addr + HEADER + size
    requires k + 1 < |bs| ==> 0 < bs[k + 1].addr != bs[k].addr && (j != k + 1 ==> bs[k + 1].addr != bs[j].addr)
    ensures var h' := SplitHeaders(h, bs[k], HeaderOf(bs, k, canary), size);
      SpellsAt(h', SplitAt(bs, k, size), if j < k then j else j + 1, canary)
  {
  }

  lemma NewHeaderIsNew(bs: seq<Block>, k: nat, size: nat)
    requires Apart(bs) && k < |bs| && Fits(bs[k], size)
    ensures forall j :: 0 <= j < |bs| ==> bs[j].addr != bs[k].addr + HEADER + size
  {
    forall j | 0 <= j < |bs|
      ensures bs[j].addr != bs[k].addr + HEADER + size
    {
      if j < k { assert bs[j].Misses(bs[k]); }
      if k < j { assert bs[k].Misses(bs[j]); }
    }
  }

  lemma SplitSpells(h: Headers, bs: seq<Block>, canary: nat, k: nat, size: nat)
    requires Apart(bs) && Positive(bs) && Spells(h, bs, canary) && k < |bs| && Fits(bs[k], size)
    ensures var hd := HeaderOf(bs, k, canary);
      && (hd.next != 0 ==> hd.next in h)
      && Spells(SplitHeaders(h, bs[k], hd, size), SplitAt(bs, k, size), canary)
  {
    hide Apart, SplitHeaders, SplitAt, SpellsAt;
    var h', t := SplitHeaders(h, bs[k], HeaderOf(bs, k, canary), size), SplitAt(bs, k, size);
    ApartIsDistinct(bs);
    NewHeaderIsNew(bs, k, size);
    assert SpellsAt(h, bs, k, canary);
    NextIsThere(h, bs, canary, k);
    SplitSpellsHere(h, bs, canary, k, size);
    forall j | 0 <= j < |t|
      ensures SpellsAt(h', t, j, canary)
    {
      if j < k {
        assert SpellsAt(h, bs, j, canary);
        SplitSpellsAt(h, bs, canary, k, size, j);
      } else if j > k + 1 {
        assert SpellsAt(h, bs, j - 1, canary);
        SplitSpellsAt(h, bs, canary, k, size, j - 1);
      }
    }
  }

  lemma NextIsThere(h: Headers, bs: seq<Block>, canary: nat, k: nat)
    requires Spells(h, bs, canary) && k < |bs|
    ensures var hd := HeaderOf(bs, k, canary); hd.next != 0 ==> hd.next in h
  {
    assert k + 1 < |bs| ==> SpellsAt(h, bs, k + 1, canary);
  }

  lemma SplitSpellsHere(h: Headers, bs: seq<Block>, canary: nat, k: nat, size: nat)
    requires k < |bs| && Fits(bs[k], size) && SpellsAt(h, bs, k, canary)
    requires k + 1 < |bs| ==> 0 < bs[k + 1].addr != bs[k].addr && bs[k + 1].addr != bs[k].addr + HEADER + size
    ensures var h', t := SplitHeaders(h, bs[k], HeaderOf(bs, k, canary), size), SplitAt(bs, k, size);
      |t| == |bs| + 1 && SpellsAt(h', t, k, canary) && SpellsAt(h', t, k + 1, canary)
  {
  }

  /** Where a split puts its new header on that of another block, the list spells the blocks no more: the other block's
      header becomes a free one that is linked into a loop or past the blocks behind it. */
  lemma SplitOverwrites(h: Headers, bs: seq<Block>, canary: nat, k: nat, size: nat, j: nat)
    requires Spells(h, bs, canary) && k < |bs| && Fits(bs[k], size) && j < |bs| && j != k
    requires bs[j].addr == bs[k].addr + HEADER + size && !bs[j].free
    ensures var h' := SplitHeaders(h, bs[k], HeaderOf(bs, k, canary), size);
      && bs[j].addr in h' && h'[bs[j].addr].free && h'[bs[j].addr].next == HeaderOf(bs, k, canary).next
      && !Spells(h', SplitAt(bs, k, size), canary)
  {
    var h', t := SplitHeaders(h, bs[k], HeaderOf(bs, k, canary), size), SplitAt(bs, k, size);
    var j' := if j < k then j else j + 1;
    assert SpellsAt(h, bs, k, canary) && t[j'] == bs[j];
    assert !SpellsAt(h', t, j', canary);
  }

  /** The headers after block k took in the next one. */
  function MergedHeaders(h: Headers, b: Block, hd: Header, nx: Header): Headers {
    var h1 := h[b.addr := hd.(size := hd.size + HEADER + nx.size, next := nx.next)];
    if nx.next != 0 then Relinked(h1, nx.next, b.addr) else h1
  }

  lemma MergeSpellsAt(h: Headers, bs: seq<Block>, canary: nat, k: nat, j: nat)
    requires Distinct(bs) && Positive(bs) && Spells(h, bs, canary) && k + 1 < |bs| && j < |bs| && j != k + 1
    ensures var h' := MergedHeaders(h, bs[k], HeaderOf(bs, k, canary), HeaderOf(bs, k + 1, canary));
      SpellsAt(h', Merge(bs, k), if j <= k then j else j - 1, canary)
  {
    assert SpellsAt(h, bs, j, canary);
    assert k + 2 < |bs| ==> SpellsAt(h, bs, k + 2, canary);
  }

  /** Merging keeps the headers spelling the blocks, wherever the two lie. */
  lemma MergeSpells(h: Headers, bs: seq<Block>, canary: nat, k: nat)
    requires Distinct(bs) && Positive(bs) && Spells(h, bs, canary) && k + 1 < |bs|
    ensures var hd, nx := HeaderOf(bs, k, canary), HeaderOf(bs, k + 1, canary);
      && (nx.next != 0 ==> nx.next in h && nx.next != bs[k].addr)
      && Spells(MergedHeaders(h, bs[k], hd, nx), Merge(bs, k), canary)
  {
    hide Merge, MergedHeaders, Positive, SpellsAt;
    MergeLength(bs, k);
    NextButOne(h, bs, canary, k);
    var h', t := MergedHeaders(h, bs[k], HeaderOf(bs, k, canary), HeaderOf(bs, k + 1, canary)), Merge(bs, k);
    forall j | 0 <= j < |t|
      ensures SpellsAt(h', t, j, canary)
    {
      MergeSpellsAt(h, bs, canary, k, if j <= k then j else j + 1);
    }
  }

  lemma NextButOne(h: Headers, bs: seq<Block>, canary: nat, k: nat)
    requires Distinct(bs) && Spells(h, bs, canary) && k + 1 < |bs|
    ensures var nx := HeaderOf(bs, k + 1, canary); nx.next != 0 ==> nx.next in h && nx.next != bs[k].addr
  {
    assert k + 2 < |bs| ==> SpellsAt(h, bs, k + 2, canary);
  }

  lemma MergeDistinct(bs: seq<Block>, k: nat)
    requires Distinct(bs) && Positive(bs) && k + 1 < |bs|
    ensures Distinct(Merge(bs, k)) && Positive(Merge(bs, k))
  {
    var t := Merge(bs, k);
    assert forall j :: 0 <= j < |t| ==> t[j].addr == bs[if j <= k then j else j + 1].addr;
  }

  lemma MarkSpells(h: Headers, bs: seq<Block>, canary: nat, k: nat, free: bool)
    requires Distinct(bs) && Spells(h, bs, canary) && k < |bs|
    ensures Spells(h[bs[k].addr := HeaderOf(bs, k, canary).(free := free)], Marked(bs, k, free), canary)
    ensures Distinct(Marked(bs, k, free))
  {
    var h', t := h[bs[k].addr := HeaderOf(bs, k, canary).(free := free)], Marked(bs, k, free);
    forall j | 0 <= j < |bs|
      ensures SpellsAt(h', t, j, canary)
    {
      assert SpellsAt(h, bs, j, canary);
    }
  }

  lemma AppendSpells(h: Headers, bs: seq<Block>, canary: nat, b: Block)
    requires Distinct(bs + [b]) && |bs| > 0 && Spells(h, bs, canary)
    ensures var last := bs[|bs| - 1].addr;
      var h1 := h[b.addr := Header(MAGIC, canary, b.size, b.free, last, 0)];
      last in h1 && last != b.addr && Spells(h1[last := h1[last].(next := b.addr)], bs + [b], canary)
  {
    var last := bs[|bs| - 1].addr;
    var h1 := h[b.addr := Header(MAGIC, canary, b.size, b.free, last, 0)];
    assert SpellsAt(h, bs, |bs| - 1, canary);
    var h2, t := h1[last := h1[last].(next := b.addr)], bs + [b];
    assert t[|bs|] == b && forall j :: 0 <= j < |bs| ==> t[j] == bs[j];
    forall j | 0 <= j <= |bs|
      ensures SpellsAt(h2, t, j, canary)
    {
      assert j < |bs| ==> SpellsAt(h, bs, j, canary);
    }
  }

  /** Every block starts where one of was does. */
  ghost predicate Headed(bs: seq<Block>, was: seq<Block>) {
    forall k :: 0 <= k < |bs| ==> StartsAt(was, bs[k].addr)
  }

  predicate StartsAt(was: seq<Block>, a: nat) {
    exists i :: 0 <= i < |was| && was[i].addr == a
  }

  lemma HeadedBySelf(bs: seq<Block>)
    ensures Headed(bs, bs)
  {
  }

  lemma MergeHeaded(bs: seq<Block>, was: seq<Block>, k: nat)
    requires Headed(bs, was) && k + 1 < |bs|
    ensures Headed(Merge(bs, k), was)
  {
    var t := Merge(bs, k);
    forall j | 0 <= j < |t|
      ensures StartsAt(was, t[j].addr)
    {
      assert StartsAt(was, bs[if j <= k then j else j + 1].addr);
    }
  }

  lemma OneBlock(b: Block)
    requires b.addr > 0 && b.addr % ALIGN == 0 && b.size % ALIGN == 0
    ensures Laid([b], iset i | Held([b], i)) && AllFollow([b]) && Total([b]) == HEADER + b.size
  {
    assert [b][..0] == [];
  }

  class Heap {
    var Hdr: Headers
    var Ram: int -> Byte
    var Head: nat
    var Tail: nat
    var Start: nat
    var End: nat
    var CurrentSize: nat
    var Regions: seq<Block>  // what the physical allocator gave the heap
    const Canary: nat
    ghost var Blocks: seq<Block>
    ghost var AtEnd: bool    // every region so far started at End
    ghost var Refusals: nat  // regions the physical allocator refused so far

    /** The headers spell the blocks, doubly linked, and their sizes add up. */
    ghost predicate Linked()
      reads this
    {
      && |Blocks| > 0 && Distinct(Blocks) && Positive(Blocks) && Spells(Hdr, Blocks, Canary)
      && Head == Blocks[0].addr == Start && Tail == Blocks[|Blocks| - 1].addr
      && Total(Blocks) == CurrentSize && End == Start + CurrentSize
    }

    /** The bytes of the regions. */
    ghost function Owned(): iset<int>
      reads this
    {
      iset i | Held(Regions, i)
    }

    /** Also, the blocks share out the bytes of the regions, side by side exactly if every region started at End. */
    ghost predicate Valid()
      reads this
    {
      Linked() && Laid(Blocks, Owned()) && (AtEnd <==> AllFollow(Blocks))
    }

    /** MemoryAllocatorInit with the region it was given. */
    constructor (virt: nat, canary: nat, ram: int -> Byte)
      requires virt > 0 && virt % PAGE_SIZE == 0
      ensures Valid() && AtEnd && Blocks == [Block(virt, HEAP_INITIAL_SIZE - HEADER, true)]
      ensures Live(Blocks) == {} && CurrentSize == HEAP_INITIAL_SIZE
    {
      var b := Block(virt, HEAP_INITIAL_SIZE - HEADER, true);
      Start, End, CurrentSize := virt, virt + HEAP_INITIAL_SIZE, HEAP_INITIAL_SIZE;
      Canary := canary;
      Hdr := map[virt := Header(MAGIC, canary, HEAP_INITIAL_SIZE - HEADER, true, 0, 0)];
      Ram := ram;
      Head, Tail := virt, virt;
      Regions, Blocks, AtEnd, Refusals := [b], [b], true, 0;
      OneBlock(b);
    }

    /** Stores the header of a block. What its 48 bytes become is left open; no payload is touched. */
    method Store(a: nat, h: Header, ghost bs: seq<Block>, ghost k: nat, ghost live: set<Block>,
            ghost before: int -> Byte)
      requires Apart(bs) && k < |bs| && bs[k].addr == a && (forall b :: b in live ==> b in bs)
      requires Kept(live, before, Ram)
      modifies `Hdr, `Ram
      ensures Hdr == old(Hdr)[a := h]
      ensures Kept(live, before, Ram)
    {
      hide Apart, Kept;
      Hdr := Hdr[a := h];
      var c, noise := Ram, new Byte[HEADER];
      var bytes := noise[..];
      Ram := i => Overwritten(c, a, bytes, i);
      HeaderWrite(bs, k, live, before, c, Ram);
    }

    lemma BlockFacts(k: nat)
      requires Linked() && k < |Blocks|
      ensures Blocks[k].addr > 0 && Blocks[k].addr in Hdr && Hdr[Blocks[k].addr] == HeaderOf(Blocks, k, Canary)
      ensures Head == Blocks[0].addr && Tail == Blocks[|Blocks| - 1].addr
      ensures k + 1 < |Blocks| ==>
        var a := Blocks[k + 1].addr; a > 0 && a in Hdr && Hdr[a] == HeaderOf(Blocks, k + 1, Canary)
      ensures forall j :: 0 <= j < |Blocks| && Blocks[j].addr == Blocks[k].addr ==> j == k
    {
      assert SpellsAt(Hdr, Blocks, k, Canary);
      assert k + 1 < |Blocks| ==> SpellsAt(Hdr, Blocks, k + 1, Canary);
    }

    lemma LaidFacts()
      requires Valid()
      ensures Apart(Blocks) && |Blocks| > 0
    {
    }

    lemma ValidIsLinked()
      requires Valid()
      ensures Linked()
    {
    }

    /** With every block given back and all seams held, every region started at End. */
    lemma GivenBack()
      requires Valid()
      ensures SeamsHeld(Blocks) && Live(Blocks) == {} ==> AtEnd
    {
      if SeamsHeld(Blocks) && Live(Blocks) == {} { NoSeamsLeft(Blocks); }
    }

    lemma LiveAreBlocks(bs: seq<Block>)
      ensures forall b :: b in Live(bs) ==> b in bs
    {
    }

    lemma NothingWritten(live: set<Block>)
      ensures Kept(live, Ram, Ram)
    {
    }

    lemma SplitFacts(k: nat, size: nat)
      requires Valid() && k < |Blocks| && Fits(Blocks[k], size) && size % ALIGN == 0
      ensures var hd, t := HeaderOf(Blocks, k, Canary), SplitAt(Blocks, k, size);
        && (hd.next != 0 ==>
          hd.next in Hdr && hd.next == t[k + 2].addr && k + 2 < |t| && hd.next != Blocks[k].addr + HEADER + size)
        && (hd.next == 0 ==> k == |Blocks| - 1)
        && Spells(SplitHeaders(Hdr, Blocks[k], hd, size), t, Canary) && Distinct(t) && Positive(t)
        && Laid(t, Owned()) && Apart(t) && (AllFollow(t) <==> AllFollow(Blocks)) && t[0].addr == Blocks[0].addr
        && t[|t| - 1].addr == if k == |Blocks| - 1 then Blocks[k].addr + HEADER + size else Blocks[|Blocks| - 1].addr
    {
      hide AllFollow, Covers, Aligned, Spells, Total;
      NewHeaderIsNew(Blocks, k, size);
      SplitSpells(Hdr, Blocks, Canary, k, size);
      SplitLaid(Blocks, k, size, Owned());
      ApartIsDistinct(SplitAt(Blocks, k, size));
      SplitFollows(Blocks, k, size);
    }

    /** SplitBlockLocked. */
    method SplitBlock(h: nat, size: nat, ghost k: nat)
      requires Valid() && k < |Blocks| && h == Blocks[k].addr && size % ALIGN == 0
      modifies `Hdr, `Ram, `Tail, `Blocks
      ensures Valid() && Blocks == SplitAt(old(Blocks), k, size)
      ensures Kept(Live(Blocks), old(Ram), Ram)
    {
      hide Laid, Apart, Spells, Live, Kept, Distinct, Positive, Total, AllFollow, Held;
      BlockFacts(k);
      NothingWritten(Live(SplitAt(Blocks, k, size)));
      SplitTotal(Blocks, k, size);
      var b := Hdr[h];
      if b.size < size + MIN_SPLIT_SIZE { return; }
      SplitFacts(k, size);
      var n := h + HEADER + size;
      ghost var t, before := SplitAt(Blocks, k, size), Ram;
      LiveAreBlocks(t);
      Store(n, Header(MAGIC, Canary, b.size - size - HEADER, true, h, b.next), t, k + 1, Live(t), before);
      if b.next != 0 {
        Store(b.next, Hdr[b.next].(prev := n), t, k + 2, Live(t), before);
      }
      Store(h, b.(next := n, size := size), t, k, Live(t), before);
      if Tail == h { Tail := n; }
      Blocks := t;
    }

    lemma MergeFacts(k: nat)
      requires Linked() && k + 1 < |Blocks|
      ensures var hd, nx, t := HeaderOf(Blocks, k, Canary), HeaderOf(Blocks, k + 1, Canary), Merge(Blocks, k);
        && (nx.next != 0 ==>
          nx.next in Hdr && k + 2 < |Blocks| && nx.next == Blocks[k + 2].addr && nx.next != Blocks[k].addr)
        && (nx.next == 0 ==> k + 1 == |Blocks| - 1)
        && Spells(MergedHeaders(Hdr, Blocks[k], hd, nx), t, Canary) && Distinct(t) && Positive(t)
        && t[0].addr == Blocks[0].addr && |t| > 0 && Total(t) == Total(Blocks)
        && t[|t| - 1].addr == if k + 1 == |Blocks| - 1 then Blocks[k].addr else Blocks[|Blocks| - 1].addr
    {
      BlockFacts(k + 1);
      MergeSpells(Hdr, Blocks, Canary, k);
      MergeDistinct(Blocks, k);
      MergeTotal(Blocks, k);
    }

    /** Either half of CoalesceLocked: the block at h takes in the block after it in the list, wherever that lies; gap
        says whether it lies elsewhere than behind h. Only headers are written, each where one of was is. */
    method TakeInNext(h: nat, ghost k: nat, ghost was: seq<Block>) returns (gap: bool)
      requires Linked() && k + 1 < |Blocks| && h == Blocks[k].addr && Blocks[k].free && Blocks[k + 1].free
      requires Apart(was) && Headed(Blocks, was)
      modifies `Hdr, `Ram, `Tail, `Blocks
      ensures Linked() && Blocks == Merge(old(Blocks), k) && Live(Blocks) == old(Live(Blocks))
      ensures Headed(Blocks, was) && Kept(All(was), old(Ram), Ram) && (gap <==> !Follows(old(Blocks), k + 1))
    {
      hide Apart, Spells, Live, Kept, Distinct, Positive, Total, Headed;
      BlockFacts(k);
      BlockFacts(|Blocks| - 1);
      MergeFacts(k);
      MergeKeepsLive(Blocks, k);
      MergeHeaded(Blocks, was, k);
      ghost var bs, before := Blocks, Ram;
      NothingWritten(All(was));
      var n := Hdr[h].next;
      var next := Hdr[n];
      gap := n != h + HEADER + Hdr[h].size;
      StoreAt(h, Hdr[h].(size := Hdr[h].size + HEADER + next.size, next := next.next), bs, k, was, before);
      if next.next != 0 {
        StoreAt(next.next, Hdr[next.next].(prev := h), bs, k + 2, was, before);
      }
      if Tail == n { Tail := h; }
      Blocks := Merge(bs, k);
    }

    /** Stores a header where one of was is. */
    method StoreAt(a: nat, h: Header, ghost bs: seq<Block>, ghost k: nat, ghost was: seq<Block>,
            ghost before: int -> Byte)
      requires Apart(was) && Headed(bs, was) && k < |bs| && bs[k].addr == a && Kept(All(was), before, Ram)
      modifies `Hdr, `Ram
      ensures Hdr == old(Hdr)[a := h] && Kept(All(was), before, Ram)
    {
      hide Apart, Kept;
      ghost var i :| 0 <= i < |was| && was[i].addr == a;
      Store(a, h, was, i, All(was), before);
    }

    /** CoalesceLocked. gap says whether a merge joined blocks that are no neighbours in memory. */
    method Coalesce(h: nat, ghost k: nat) returns (gap: bool)
      requires Linked() && Apart(Blocks) && k < |Blocks| && h == Blocks[k].addr && Blocks[k].free
      modifies `Hdr, `Ram, `Tail, `Blocks
      ensures Linked() && Blocks == Coalesced(old(Blocks), k) && Live(Blocks) == old(Live(Blocks))
      ensures Kept(All(old(Blocks)), old(Ram), Ram) && (gap <==> !Joins(old(Blocks), k))
    {
      hide Apart, Spells, Live, Kept, Distinct, Positive, Total, Headed;
      gap := false;
      BlockFacts(k);
      NothingWritten(All(Blocks));
      HeadedBySelf(Blocks);
      ghost var was := Blocks;
      var n := Hdr[h].next;
      if n != 0 && Hdr[n].free {
        gap := TakeInNext(h, k, was);
      }
      ghost var middle := Ram;
      BlockFacts(k);
      var p := Hdr[h].prev;
      if k > 0 { BlockFacts(k - 1); }
      if p != 0 && Hdr[p].free {
        var jump := TakeInNext(p, k - 1, was);
        gap := gap || jump;
        KeptOnwards(All(was), old(Ram), middle, Ram);
      }
    }

    /** FindFitLocked: the first free block that is big enough, 0 when there is none. */
    method FindFit(size: nat) returns (fit: nat)
      requires Linked()
      ensures var k := FirstFit(Blocks, size); fit == if k < |Blocks| then Blocks[k].addr else 0
    {
      hide Distinct, Spells, Total;
      var cur := Head;
      ghost var k := 0;
      while cur != 0
        invariant k <= |Blocks| && cur == if k < |Blocks| then Blocks[k].addr else 0
        invariant k <= FirstFit(Blocks, size)
        decreases |Blocks| - k
      {
        BlockFacts(k);
        if Hdr[cur].free && Hdr[cur].size >= size { return cur; }
        cur := Hdr[cur].next;
        k := k + 1;
      }
      return 0;
    }

    /** PhysAllocAllocateRange for the heap: refused, or any whole pages that the heap does not have. */
    method AllocateRange(pages: nat) returns (virt: nat)
      requires pages > 0
      modifies `Refusals
      ensures Refusals == if virt == 0 then old(Refusals) + 1 else old(Refusals)
      ensures virt % PAGE_SIZE == 0 && (virt != 0 ==> NotOwned(Block(virt, pages * PAGE_SIZE - HEADER, true)))
    {
      virt := *;
      if virt % PAGE_SIZE != 0 || !NotOwned(Block(virt, pages * PAGE_SIZE - HEADER, true)) { virt := 0; }
      if virt == 0 { Refusals := Refusals + 1; }
    }

    predicate NotOwned(b: Block)
      reads this
    {
      forall k :: 0 <= k < |Regions| ==> Regions[k].Misses(b)
    }

    lemma NewBytes(b: Block)
      requires NotOwned(b)
      ensures BytesOf(b) !! Owned()
      ensures (iset i | Held(Regions + [b], i)) == Owned() + BytesOf(b)
    {
      var t := Regions + [b];
      forall i
        ensures Held(t, i) <==> Held(Regions, i) || b.Holds(i)
      {
        if j :| 0 <= j < |Regions| && Regions[j].Holds(i) { assert t[j].Holds(i); }
        if b.Holds(i) { assert t[|Regions|].Holds(i); }
      }
    }

    lemma AppendFacts(b: Block)
      requires Valid() && NotOwned(b) && b.addr > 0 && b.addr % ALIGN == 0 && b.free && b.size % ALIGN == 0
      ensures |Blocks| > 0
      ensures var t, last := Blocks + [b], Blocks[|Blocks| - 1].addr;
        var h1 := Hdr[b.addr := Header(MAGIC, Canary, b.size, true, last, 0)];
        && last in h1 && last != b.addr && last > 0 && Spells(h1[last := h1[last].(next := b.addr)], t, Canary)
        && Laid(t, iset i | Held(Regions + [b], i)) && Apart(t) && Distinct(t) && Positive(t)
        && Live(t) == Live(Blocks) && Total(t) == Total(Blocks) + HEADER + b.size
        && (AllFollow(t) <==> AtEnd && b.addr == End)
    {
      hide Total, Covers, Live, Held, Spells, AllFollow, Aligned;
      NewBytes(b);
      AppendLaid(Blocks, b, Owned());
      ApartIsDistinct(Blocks + [b]);
      AppendSpells(Hdr, Blocks, Canary, b);
      AppendTotal(Blocks, b);
      EndOfBlocks();
      BlockFacts(|Blocks| - 1);
    }

    /** Blocks side by side end at End. */
    lemma EndOfBlocks()
      requires Valid()
      ensures AtEnd ==> Tiles(Blocks, Start, End) && Blocks[|Blocks| - 1].Limit() == End
    {
      if AtEnd { TilesMeansTotal(Blocks, Start, Blocks[|Blocks| - 1].Limit()); }
    }

    /** The heap may not grow by a region for size bytes any more. */
    predicate AtLimit(size: nat)
      reads this
    {
      OverLimit(CurrentSize, size)
    }

    /** HeapExpandLocked: the heap grows by whole pages in one free block that is big enough; virt is where, 0 if it
        does not grow, which it does unless it is at its limit or the physical allocator refuses. */
    method Expand(size: nat) returns (ok: bool, ghost virt: nat)
      requires Valid()
      modifies `Hdr, `Ram, `Tail, `Blocks, `End, `CurrentSize, `Regions, `AtEnd, `Refusals
      ensures Valid() && Live(Blocks) == old(Live(Blocks)) && Kept(Live(Blocks), old(Ram), Ram)
      ensures ok <==> !old(AtLimit(size)) && Refusals == old(Refusals)
      ensures Refusals >= old(Refusals)
      ensures CurrentSize == if ok then old(CurrentSize) + Region(virt, size).size + HEADER else old(CurrentSize)
      ensures ok ==>
        Blocks == old(Blocks) + [Region(virt, size)] && Regions == old(Regions) + [Region(virt, size)] && virt != 0
      ensures ok ==> CurrentSize <= HEAP_MAX_SIZE && (AtEnd <==> old(AtEnd) && virt == old(End))
      ensures !ok ==> virt == 0 && Blocks == old(Blocks) && Hdr == old(Hdr) && Ram == old(Ram) && AtEnd == old(AtEnd)
    {
      hide Laid, Apart, Spells, Live, Kept, Distinct, Positive, Total, AllFollow, Held, NotOwned;
      NothingWritten(Live(Blocks));
      var need := AlignUp(size + HEADER);
      var pages := (need + PAGE_SIZE - 1) / PAGE_SIZE;
      var grow := pages * PAGE_SIZE;
      if CurrentSize + grow > HEAP_MAX_SIZE { return false, 0; }
      var at := AllocateRange(pages);
      if at == 0 { return false, 0; }
      WholePages(pages, at);
      Append(at, grow);
      return true, at;
    }

    /** The end of HeapExpandLocked: a header for the new region, linked behind the tail. */
    method Append(at: nat, grow: nat)
      requires Valid() && grow > HEADER && at > 0 && at % ALIGN == 0 && (grow - HEADER) % ALIGN == 0
      requires NotOwned(Block(at, grow - HEADER, true))
      modifies `Hdr, `Ram, `Tail, `Blocks, `End, `CurrentSize, `Regions, `AtEnd
      ensures Valid() && Live(Blocks) == old(Live(Blocks)) && Kept(Live(Blocks), old(Ram), Ram)
      ensures var b := Block(at, grow - HEADER, true); Blocks == old(Blocks) + [b] && Regions == old(Regions) + [b]
      ensures CurrentSize == old(CurrentSize) + grow && (AtEnd <==> old(AtEnd) && at == old(End))
    {
      hide Laid, Apart, Spells, Live, Kept, Distinct, Positive, Total, AllFollow, Held, NotOwned;
      ghost var b := Block(at, grow - HEADER, true);
      AppendFacts(b);
      LinkLast(at, grow);
      Tail := at;
      AtEnd := AtEnd && at == End;
      End := End + grow;
      CurrentSize := CurrentSize + grow;
      Blocks, Regions := Blocks + [b], Regions + [Block(at, grow - HEADER, true)];
    }

    /** The new header and the link to it. */
    method LinkLast(at: nat, grow: nat)
      requires Valid() && grow > HEADER && at > 0 && at % ALIGN == 0 && (grow - HEADER) % ALIGN == 0
      requires NotOwned(Block(at, grow - HEADER, true))
      modifies `Hdr, `Ram
      ensures Spells(Hdr, Blocks + [Block(at, grow - HEADER, true)], Canary) && Kept(Live(Blocks), old(Ram), Ram)
    {
      hide Laid, Apart, Spells, Live, Kept, Distinct, Positive, Total, AllFollow, Held, NotOwned, HeaderOf;
      ghost var b, before := Block(at, grow - HEADER, true), Ram;
      NothingWritten(Live(Blocks));
      AppendFacts(b);
      LiveAreBlocks(Blocks + [b]);
      BlockFacts(|Blocks| - 1);
      Store(at, Header(MAGIC, Canary, grow - HEADER, true, Tail, 0), Blocks + [b], |Blocks|, Live(Blocks), before);
      Store(Tail, Hdr[Tail].(next := at), Blocks + [b], |Blocks| - 1, Live(Blocks), before);
    }

    lemma WholePages(pages: nat, virt: nat)
      ensures pages >= 1 ==> (pages * PAGE_SIZE - HEADER) % ALIGN == 0
      ensures virt % PAGE_SIZE == 0 ==> virt % ALIGN == 0
    {
      EightTimes(512 * pages - 6);
      EightTimes(512 * (virt / PAGE_SIZE));
    }

    lemma EightTimes(n: int)
      ensures (8 * n) % 8 == 0
    {
    }

    lemma MarkFacts(k: nat, free: bool)
      requires Valid() && k < |Blocks|
      ensures var t := Marked(Blocks, k, free);
        && Spells(Hdr[Blocks[k].addr := HeaderOf(Blocks, k, Canary).(free := free)], t, Canary)
        && Laid(t, Owned()) && Apart(t) && Distinct(t) && Positive(t) && (AllFollow(t) <==> AllFollow(Blocks))
        && Total(t) == Total(Blocks) && t[0].addr == Blocks[0].addr && t[|t| - 1].addr == Blocks[|Blocks| - 1].addr
        && Blocks[k].addr % ALIGN == 0
    {
      hide Covers, Total, AllFollow, Spells;
      MarkSpells(Hdr, Blocks, Canary, k, free);
      MarkLaid(Blocks, k, free, Owned());
      MarkTotal(Blocks, k, free);
    }

    lemma MarkedLive(k: nat)
      requires Valid() && k < |Blocks|
      ensures var t := Marked(Blocks, k, !Blocks[k].free);
        if Blocks[k].free then Live(t) == Live(Blocks) + {t[k]} && t[k] !in Live(Blocks)
          else Live(t) == Live(Blocks) - {Blocks[k]}
    {
      MarkLive(Blocks, k, !Blocks[k].free);
    }

    /** The end of MemoryAllocateLocked: the block found is cut to size and marked as taken. */
    method Take(fit: nat, size: nat, ghost k: nat) returns (ghost b: Block)
      requires Valid() && k < |Blocks| && Blocks[k].addr == fit && Blocks[k].free && Blocks[k].size >= size
      requires size % ALIGN == 0
      modifies `Hdr, `Ram, `Tail, `Blocks
      ensures Valid() && b !in old(Live(Blocks)) && Live(Blocks) == old(Live(Blocks)) + {b}
      ensures k < |SplitAt(old(Blocks), k, size)| && Blocks == Marked(SplitAt(old(Blocks), k, size), k, false)
      ensures b.addr == fit && !b.free && size <= b.size < size + MIN_SPLIT_SIZE && b.addr % ALIGN == 0
      ensures Kept(old(Live(Blocks)), old(Ram), Ram)
    {
      hide Laid, Apart, Spells, Live, Kept, Distinct, Positive, Total, AllFollow, Held;
      SplitKeepsLive(Blocks, k, size);
      SplitBlock(fit, size, k);
      MarkFacts(k, false);
      MarkedLive(k);
      BlockFacts(k);
      LiveAreBlocks(Blocks);
      LaidFacts();
      Store(fit, Hdr[fit].(free := false, canary := Canary), Blocks, k, Live(Blocks), old(Ram));
      Blocks := Marked(Blocks, k, false);
      return Blocks[k];
    }

    /** The loop of MemoryAllocateLocked: the first block that fits, after growing the heap when there is none. */
    method FindRoom(s: nat) returns (fit: nat, ghost virt: nat)
      requires Valid() && s % ALIGN == 0
      modifies `Hdr, `Ram, `Tail, `Blocks, `End, `CurrentSize, `Regions, `AtEnd, `Refusals
      ensures Valid() && Live(Blocks) == old(Live(Blocks)) && Kept(Live(Blocks), old(Ram), Ram)
      ensures Refusals >= old(Refusals) && CurrentSize >= old(CurrentSize)
      ensures fit == 0 <==> old(FirstFit(Blocks, s) == |Blocks|) && (old(AtLimit(s)) || Refusals > old(Refusals))
      ensures virt != 0 <==> old(FirstFit(Blocks, s) == |Blocks|) && fit != 0
      ensures Blocks == old(Blocks) + if virt != 0 then [Region(virt, s)] else []
      ensures fit == 0 ==> virt == 0 && FirstFit(Blocks, s) == |Blocks|
      ensures fit != 0 ==> FirstFit(Blocks, s) < |Blocks| && fit == Blocks[FirstFit(Blocks, s)].addr
      ensures virt != 0 ==> FirstFit(Blocks, s) == |old(Blocks)|
      ensures AtEnd <==> old(AtEnd) && (virt == 0 || virt == old(End))
    {
      hide Laid, Apart, Spells, Live, Kept, Distinct, Positive, Total, AllFollow, Held;
      NothingWritten(Live(Blocks));
      virt := 0;
      fit := FindFit(s);
      PositiveAt(FirstFit(Blocks, s));
      while fit == 0
        invariant Valid() && Live(Blocks) == old(Live(Blocks)) && Kept(Live(Blocks), old(Ram), Ram)
        invariant Blocks == old(Blocks) + if virt != 0 then [Region(virt, s)] else []
        invariant fit == 0 ==> virt == 0 && End == old(End) && Ram == old(Ram) && FirstFit(Blocks, s) == |Blocks|
        invariant Refusals == old(Refusals) && CurrentSize >= old(CurrentSize)
        invariant fit == 0 ==> CurrentSize == old(CurrentSize)
        invariant virt == 0 <==> fit == 0 || old(FirstFit(Blocks, s)) < |old(Blocks)|
        invariant fit != 0 && old(FirstFit(Blocks, s) == |Blocks|) ==> !old(AtLimit(s))
        invariant fit != 0 ==> FirstFit(Blocks, s) < |Blocks| && fit == Blocks[FirstFit(Blocks, s)].addr
        invariant virt != 0 ==> FirstFit(Blocks, s) == |old(Blocks)|
        invariant AtEnd <==> old(AtEnd) && (virt == 0 || virt == old(End))
        decreases fit == 0
      {
        var ok;
        ok, virt := Expand(s);
        if !ok { return; }
        FirstFitGrows(old(Blocks), Region(virt, s), s);
        fit := FindFit(s);
        PositiveAt(FirstFit(Blocks, s));
      }
    }

    lemma PositiveAt(k: nat)
      requires Linked()
      ensures k < |Blocks| ==> Blocks[k].addr > 0
    {
    }

    lemma KeptOnwards(live: set<Block>, a: int -> Byte, b: int -> Byte, c: int -> Byte)
      requires Kept(live, a, b) && Kept(live, b, c)
      ensures Kept(live, a, c)
    {
    }

    /** No free block is big enough. */
    ghost predicate NothingFits(size: nat)
      reads this
    {
      FirstFit(Blocks, AlignUp(size)) == |Blocks|
    }

    /** MemoryAllocateLocked. b is the block handed out; the heap grows, at virt, exactly when no block fits and it can,
        and the call fails only when it cannot. */
    method Allocate(size: nat) returns (p: nat, ghost b: Block, ghost virt: nat)
      requires Valid()
      modifies `Hdr, `Ram, `Tail, `Blocks, `End, `CurrentSize, `Regions, `AtEnd, `Refusals
      ensures Valid() && Kept(old(Live(Blocks)), old(Ram), Ram)
      ensures p == 0 <==>
        size == 0 || (old(NothingFits(size)) && (old(AtLimit(AlignUp(size))) || Refusals > old(Refusals)))
      ensures virt != 0 <==> p != 0 && old(NothingFits(size))
      ensures Refusals >= old(Refusals) && CurrentSize >= old(CurrentSize)
      ensures p == 0 ==>
        virt == 0 && Blocks == old(Blocks) && (size == 0 || FirstFit(Blocks, AlignUp(size)) == |Blocks|)
      ensures p != 0 ==>
        && b !in old(Live(Blocks)) && Live(Blocks) == old(Live(Blocks)) + {b} && p == b.Payload() && p % ALIGN == 0
        && !b.free && AlignUp(size) <= b.size < AlignUp(size) + MIN_SPLIT_SIZE
      ensures p != 0 ==>
        var found := old(Blocks) + if virt != 0 then [Region(virt, AlignUp(size))] else [];
        var k := FirstFit(found, AlignUp(size));
        k < |found| && b.addr == found[k].addr && (virt != 0 ==> k == |old(Blocks)|)
      ensures AtEnd <==> old(AtEnd) && (virt == 0 || virt == old(End))
      ensures old(SeamsHeld(Blocks)) ==> SeamsHeld(Blocks)
    {
      hide Laid, Apart, Spells, Live, Kept, Distinct, Positive, Total, AllFollow, Held, FirstFit, SeamsHeld;
      p, b, virt := 0, Block(0, 0, false), 0;
      NothingWritten(Live(Blocks));
      if size == 0 { return; }
      var s := AlignUp(size);
      var fit;
      fit, virt := FindRoom(s);
      if fit == 0 { return; }
      ghost var middle, bs, k := Ram, Blocks, FirstFit(Blocks, s);
      SeamsOfGrown(old(Blocks), bs, k);
      b := Take(fit, s, k);
      if old(SeamsHeld(Blocks)) { TakeHoldsSeams(bs, k, s); }
      KeptOnwards(old(Live(Blocks)), old(Ram), middle, Ram);
      return fit + HEADER, b, virt;
    }

    lemma SeamsOfGrown(was: seq<Block>, bs: seq<Block>, k: nat)
      requires bs == was || (|bs| == |was| + 1 && bs[..|was|] == was && k == |was|)
      ensures SeamsHeld(was) ==> forall j :: 0 < j < |bs| && j != k ==> SeamHeld(bs, j)
    {
      if SeamsHeld(was) {
        forall j | 0 < j < |bs| && j != k
          ensures SeamHeld(bs, j)
        {
          assert SeamHeld(was, j);
          assert bs[..|was|][j] == bs[j] && bs[..|was|][j - 1] == bs[j - 1];
        }
      }
    }

    lemma FirstFitGrows(bs: seq<Block>, b: Block, size: nat)
      requires b.free && b.size >= size
      ensures FirstFit(bs + [b], size) == FirstFit(bs, size)
    {
      assert (bs + [b])[..|bs|] == bs;
    }

    ghost predicate Wiped(b: Block)
      reads this
    {
      forall i :: b.Payload() <= i < b.Limit() ==> Ram(i) == 0
    }

    lemma StaysWiped(b: Block, zeroed: int -> Byte)
      requires forall i :: b.Payload() <= i < b.Limit() ==> zeroed(i) == 0
      requires Kept({b.(free := true)}, zeroed, Ram)
      ensures Wiped(b)
    {
      assert b.(free := true) in {b.(free := true)};
    }

    lemma KeptLess(more: set<Block>, less: set<Block>, x: int -> Byte, y: int -> Byte)
      requires Kept(more, x, y) && less <= more
      ensures Kept(less, x, y)
    {
    }

    lemma CoalesceFacts(bs: seq<Block>, k: nat)
      requires Laid(bs, Owned()) && k < |bs| && bs[k].free
      ensures var t := Coalesced(bs, k);
        && (Laid(t, Owned()) <==> Joins(bs, k) || Swapped(bs, k))
        && (Joins(bs, k) ==> (AllFollow(t) <==> AllFollow(bs)))
        && Live(t) == Live(bs) && (AllFollow(bs) ==> Joins(bs, k))
        && (Joins(bs, k) ==> exists c :: c in t && c.free && c.addr <= bs[k].addr && bs[k].Limit() <= c.Limit())
    {
      CoalescedIsExact(bs, k, Owned());
      CoalescedLive(bs, k);
    }

    /** MemoryFreeLocked of block b, the k-th of the list: it is wiped and merged with its free list neighbours. gap
        says whether one of those is no neighbour in memory. If not, the blocks share out the regions as before; if
        so they do not, unless two jumps undo each other. A pointer to a free block, or a null pointer, does
        nothing. */
    method Free(p: nat, ghost b: Block) returns (gap: bool, ghost k: nat)
      requires Valid() && (p != 0 ==> b in Blocks && p == b.Payload())
      modifies `Hdr, `Ram, `Tail, `Blocks
      ensures Linked() && (!gap ==> Valid()) && (AtEnd ==> !gap) && AtEnd == old(AtEnd)
        && Kept(Live(Blocks), old(Ram), Ram)
      ensures p == 0 || b.free ==> Blocks == old(Blocks) && Ram == old(Ram) && Hdr == old(Hdr) && !gap
      ensures p != 0 && !b.free ==>
        k < |old(Blocks)| && old(Blocks)[k] == b && Live(Blocks) == old(Live(Blocks)) - {b} && Wiped(b)
      ensures p != 0 && !b.free ==>
        var t := Marked(old(Blocks), k, true);
        && Blocks == Coalesced(t, k) && (gap <==> !Joins(t, k)) && (Laid(Blocks, Owned()) <==> !gap || Swapped(t, k))
        && (!gap ==> exists c :: c in Blocks && c.free && c.addr <= b.addr && b.Limit() <= c.Limit())
      ensures old(SeamsHeld(Blocks)) && !gap ==> SeamsHeld(Blocks)
    {
      hide Laid, Apart, Spells, Live, Kept, Distinct, Positive, Total, AllFollow, Held, Coalesced, SeamsHeld, Joins;
      gap, k := false, 0;
      NothingWritten(Live(Blocks));
      if p == 0 { return; }
      k :| 0 <= k < |Blocks| && Blocks[k] == b;
      BlockFacts(k);
      var h := p - HEADER;
      if Hdr[h].magic != MAGIC { return; }
      if Hdr[h].canary != Canary { return; }
      if Hdr[h].free { return; }
      ghost var bs, c, t := Blocks, Ram, Marked(Blocks, k, true);
      MarkedLive(k);
      if SeamsHeld(bs) && Joins(t, k) { FreeHoldsSeams(bs, k); }
      GiveBack(h, k);
      ghost var zeroed := Ram;
      LaidFacts();
      CoalesceFacts(t, k);
      gap := Coalesce(h, k);
      KeptLess(All(t), {b.(free := true)}, zeroed, Ram);
      StaysWiped(b, zeroed);
      KeptLess(All(t), Live(Blocks), zeroed, Ram);
      KeptOnwards(Live(Blocks), c, zeroed, Ram);
    }

    /** The first half of MemoryFreeLocked: the payload is wiped and the header marked. */
    method GiveBack(h: nat, ghost k: nat)
      requires Valid() && k < |Blocks| && h == Blocks[k].addr && !Blocks[k].free
      modifies `Hdr, `Ram, `Blocks
      ensures Valid() && Blocks == Marked(old(Blocks), k, true) && Kept(Live(Blocks), old(Ram), Ram)
      ensures var b := old(Blocks)[k];
        && Live(Blocks) == old(Live(Blocks)) - {b} && b.(free := true) in All(Blocks) && Live(Blocks) <= All(Blocks)
        && forall i :: b.Payload() <= i < b.Limit() ==> Ram(i) == 0
    {
      hide Laid, Apart, Spells, Live, Kept, Distinct, Positive, Total, AllFollow, Held;
      BlockFacts(k);
      LaidFacts();
      MarkFacts(k, true);
      MarkedLive(k);
      ghost var b, t := Blocks[k], Marked(Blocks, k, true);
      var c, zeros := Ram, seq<Byte>(Hdr[h].size, _ => 0);
      Ram := i => Overwritten(c, h + HEADER, zeros, i);
      ghost var zeroed := Ram;
      WipeKeepsOthers(k, zeros, c);
      MarkedAll(k);
      NothingWritten(All(t));
      AllAreBlocks(t);
      LiveAreBlocks(t);
      Store(h, Hdr[h].(free := true), t, k, All(t), zeroed);
      Blocks := t;
      KeptLess(All(t), {b.(free := true)}, zeroed, Ram);
      StaysWiped(b, zeroed);
      KeptLess(All(t), Live(t), zeroed, Ram);
      KeptOnwards(Live(t), c, zeroed, Ram);
    }

    lemma AllAreBlocks(bs: seq<Block>)
      ensures forall b :: b in All(bs) <==> b in bs
    {
    }

    /** Overwriting one block's payload leaves the others'. */
    lemma WipeKeepsOthers(k: nat, zeros: seq<Byte>, was: int -> Byte)
      requires Valid() && k < |Blocks| && |zeros| == Blocks[k].size
      requires forall i :: Ram(i) == Overwritten(was, Blocks[k].Payload(), zeros, i)
      ensures Kept(Live(Blocks) - {Blocks[k]}, was, Ram)
    {
      forall b, i | b in Live(Blocks) && b != Blocks[k] && b.Payload() <= i < b.Limit()
        ensures Ram(i) == was(i)
      {
        TwoOfThem(Blocks, b, Blocks[k]);
      }
    }

    lemma MarkedAll(k: nat)
      requires k < |Blocks|
      ensures Blocks[k].(free := true) in All(Marked(Blocks, k, true))
    {
      assert Marked(Blocks, k, true)[k] == Blocks[k].(free := true);
    }

    lemma AlignTwice(n: nat)
      ensures AlignUp(AlignUp(n)) == AlignUp(n) >= n && AlignUp(n) % ALIGN == 0
    {
    }

    lemma ShrinkFacts(k: nat, size: nat)
      requires Valid() && k < |Blocks| && !Blocks[k].free && size % ALIGN == 0
      ensures var t := SplitAt(Blocks, k, size);
        && k < |t| && t[k].addr == Blocks[k].addr && !t[k].free && t[k] in Live(t)
        && Live(t) == Live(Blocks) - {Blocks[k]} + {t[k]} && Live(Blocks) - {Blocks[k]} <= Live(t)
        && t[k].size <= Blocks[k].size && (size <= Blocks[k].size ==> size <= t[k].size < size + MIN_SPLIT_SIZE)
        && t[k] !in Live(Blocks) - {Blocks[k]}
    {
      SplitKeepsLive(Blocks, k, size);
    }

    lemma KeptIsCopied(live: set<Block>, b: Block, was: int -> Byte)
      requires b in live && Kept(live, was, Ram)
      ensures Copied(was, Ram, b.Payload(), b.Payload(), b.size)
    {
    }

    /** MemoryReallocateLocked with a live block or a null pointer: c is the block that holds the contents
        afterwards, when there is one. gap is that of the free of the old block. */
    method Reallocate(p: nat, newSize: nat, ghost b: Block) returns (q: nat, gap: bool, ghost c: Block)
      requires Valid() && (p != 0 ==> b in Live(Blocks) && p == b.Payload())
      modifies `Hdr, `Ram, `Tail, `Blocks, `End, `CurrentSize, `Regions, `AtEnd, `Refusals
      ensures q == 0 <==>
        || newSize == 0
        || ((p == 0 || AlignUp(newSize) > b.size) && old(NothingFits(newSize))
            && (old(AtLimit(AlignUp(newSize))) || Refusals > old(Refusals)))
      ensures Refusals >= old(Refusals) && CurrentSize >= old(CurrentSize)
      ensures p != 0 && q != 0 ==> (q == p <==> AlignUp(newSize) <= b.size)
      ensures q != 0 ==> AlignUp(newSize) <= c.size < AlignUp(newSize) + MIN_SPLIT_SIZE
      ensures Linked() && (!gap ==> Valid()) && (AtEnd ==> !gap)
      ensures Kept(if p == 0 then old(Live(Blocks)) else old(Live(Blocks)) - {b}, old(Ram), Ram)
      ensures q == 0 ==>
        && (p != 0 && newSize == 0 ==> Live(Blocks) == old(Live(Blocks)) - {b} && Wiped(b))
        && (p == 0 || newSize != 0 ==> Live(Blocks) == old(Live(Blocks)) && Kept(old(Live(Blocks)), old(Ram), Ram))
      ensures q != 0 ==>
        && newSize > 0 && q == c.Payload() && !c.free && c.size >= newSize
        && Live(Blocks) == (if p == 0 then old(Live(Blocks)) else old(Live(Blocks)) - {b}) + {c}
        && c !in (if p == 0 then old(Live(Blocks)) else old(Live(Blocks)) - {b})
        && (p != 0 ==> Copied(old(Ram), Ram, p, q, if b.size < c.size then b.size else c.size))
        && (p != 0 && q != p ==> Wiped(b))
    {
      hide Laid, Apart, Spells, Live, Kept, Distinct, Positive, Total, AllFollow, Held, Copied, SeamsHeld, Joins;
      hide FirstFit, AlignUp;
      gap := false;
      ghost var k, virt;
      AlignTwice(newSize);
      if p == 0 {
        q, c, virt := Allocate(newSize);
        return;
      }
      q, c := 0, b;
      LiveAreBlocks(Blocks);
      if newSize == 0 {
        LiveIsTaken(b);
        gap, k := Free(p, b);
        return;
      }
      k :| 0 <= k < |Blocks| && Blocks[k] == b;
      BlockFacts(k);
      LiveIsTaken(b);
      var h := p - HEADER;
      if Hdr[h].magic != MAGIC { return; }
      var size := AlignUp(newSize);
      if size <= Hdr[h].size {
        ShrinkFacts(k, size);
        SplitBlock(h, size, k);
        KeptLess(Live(Blocks), old(Live(Blocks)) - {b}, old(Ram), Ram);
        KeptIsCopied(Live(Blocks), Blocks[k], old(Ram));
        CopiedLess(old(Ram), p, p, Blocks[k].size);
        return p, false, Blocks[k];
      }
      q, gap, c := Relocate(p, size, b);
      if q == 0 { KeptLess(old(Live(Blocks)), old(Live(Blocks)) - {b}, old(Ram), Ram); }
    }

    /** The branch of MemoryReallocateLocked for a block that is too small. */
    method Relocate(p: nat, size: nat, ghost b: Block) returns (q: nat, gap: bool, ghost c: Block)
      requires Valid() && b in Live(Blocks) && p == b.Payload() && size % ALIGN == 0 && size > b.size
      modifies `Hdr, `Ram, `Tail, `Blocks, `End, `CurrentSize, `Regions, `AtEnd, `Refusals
      ensures Linked() && (!gap ==> Valid()) && (AtEnd ==> !gap)
      ensures q == 0 <==> old(NothingFits(size)) && (old(AtLimit(size)) || Refusals > old(Refusals))
      ensures Refusals >= old(Refusals) && CurrentSize >= old(CurrentSize)
      ensures q == 0 ==> Live(Blocks) == old(Live(Blocks)) && Kept(old(Live(Blocks)), old(Ram), Ram) && !gap
      ensures q != 0 ==>
        && q != p && q == c.Payload() && !c.free && size <= c.size < size + MIN_SPLIT_SIZE
        && c !in old(Live(Blocks)) && Live(Blocks) == old(Live(Blocks)) - {b} + {c}
        && Kept(old(Live(Blocks)) - {b}, old(Ram), Ram) && Copied(old(Ram), Ram, p, q, b.size) && Wiped(b)
    {
      hide Laid, Apart, Spells, Live, Kept, Distinct, Positive, Total, AllFollow, Held, Copied, SeamsHeld, Joins;
      hide FirstFit, AlignUp;
      gap := false;
      ghost var virt;
      AlignedAlready(size);
      q, c, virt := Allocate(size);
      if q == 0 { return; }
      LiveAreBlocks(Blocks);
      DifferentAddress(b, c);
      gap := MoveContents(p, q, b, c, old(Ram), old(Live(Blocks)));
    }

    lemma AlignedAlready(n: nat)
      requires n % ALIGN == 0
      ensures AlignUp(n) == n
    {
    }

    lemma DifferentAddress(b: Block, c: Block)
      requires Linked() && b in Blocks && c in Blocks && b != c
      ensures b.addr != c.addr
    {
    }

    lemma CopiedLess(was: int -> Byte, p: nat, q: nat, n: nat)
      requires Copied(was, Ram, p, q, n)
      ensures forall m: nat :: m <= n ==> Copied(was, Ram, p, q, m)
    {
    }

    lemma LiveIsTaken(b: Block)
      requires b in Live(Blocks)
      ensures !b.free && b in Blocks
    {
    }

    lemma MoveFacts(b: Block, c: Block, was: int -> Byte, now: int -> Byte, live: set<Block>, bytes: seq<Byte>)
      requires Valid() && b in Blocks && c in Blocks && b in live && c !in live
      requires (forall d :: d in live ==> d in Blocks)
      requires Kept(live, was, now) && |bytes| == b.size <= c.size
      requires forall i :: 0 <= i < |bytes| ==> bytes[i] == now(b.Payload() + i)
      requires forall i :: Ram(i) == Overwritten(now, c.Payload(), bytes, i)
      ensures Kept(live, was, Ram)
      ensures Copied(was, Ram, b.Payload(), c.Payload(), b.size)
    {
      forall d, i | d in live && d.Payload() <= i < d.Limit()
        ensures Ram(i) == was(i)
      {
        TwoOfThem(Blocks, d, c);
      }
      forall i | c.Payload() <= i < c.Payload() + b.size
        ensures Ram(i) == was(b.Payload() + (i - c.Payload()))
      {
        assert b.Payload() <= b.Payload() + (i - c.Payload()) < b.Limit();
      }
    }

    /** The end of MemoryReallocateLocked: the old contents are copied and the old block is freed. */
    method MoveContents(p: nat, q: nat, ghost b: Block, ghost c: Block, ghost was: int -> Byte, ghost live: set<Block>)
      returns (gap: bool)
      requires Valid() && b in live && c !in live && Live(Blocks) == live + {c} && b.size <= c.size && !c.free
      requires p == b.Payload() && q == c.Payload() && p > 0 && Kept(live, was, Ram)
      modifies `Hdr, `Ram, `Tail, `Blocks
      ensures Linked() && (!gap ==> Valid()) && (AtEnd ==> !gap) && Live(Blocks) == live - {b} + {c}
      ensures Kept(live - {b}, was, Ram) && Copied(was, Ram, p, q, b.size) && Wiped(b)
    {
      hide Laid, Apart, Spells, Live, Kept, Distinct, Positive, Total, AllFollow, Held, Copied, SeamsHeld, Joins;
      hide Coalesced;
      LiveAreBlocks(Blocks);
      LiveIsTaken(b);
      ghost var k :| 0 <= k < |Blocks| && Blocks[k] == b;
      BlockFacts(k);
      var ram := Ram;
      var bytes := seq<Byte>(Hdr[p - HEADER].size, (i: nat) => ram(p + i));
      Ram := i => Overwritten(ram, q, bytes, i);
      MoveFacts(b, c, was, ram, live, bytes);
      ghost var copied := Ram;
      gap, k := Free(p, b);
      KeptLess(live, live - {b}, was, copied);
      KeptLess(Live(Blocks), live - {b}, copied, Ram);
      KeptOnwards(live - {b}, was, copied, Ram);
      StillCopied(c, was, p, copied, b.size);
    }

    lemma StillCopied(c: Block, was: int -> Byte, p: nat, copied: int -> Byte, n: nat)
      requires c in Live(Blocks) && Kept(Live(Blocks), copied, Ram) && n <= c.size
      requires Copied(was, copied, p, c.Payload(), n)
      ensures Copied(was, Ram, p, c.Payload(), n)
    {
    }

    /** GetKMemoryStats: the totals over the list. */
    method Stats() returns (r: MemoryStats)
      requires Linked()
      ensures r.managed == CurrentSize && r.blocks == |Blocks|
      ensures r.managed == r.used + r.free + HEADER * r.blocks
      ensures r.used == PayloadOf(Blocks, false) && r.free == PayloadOf(Blocks, true)
      ensures r.usedBlocks == CountOf(Blocks, false) && r.freeBlocks == CountOf(Blocks, true)
      ensures r.usedBlocks + r.freeBlocks == r.blocks
      ensures forall size :: 0 < size ==> (size <= r.largest <==> FirstFit(Blocks, size) < |Blocks|)
    {
      hide Spells, Distinct, FirstFit, Total, PayloadOf, CountOf, Largest;
      var managed, used, free, blocks, usedBlocks, freeBlocks, largest := 0, 0, 0, 0, 0, 0, 0;
      var cur := Head;
      NoBlockYet(Blocks);
      while cur != 0
        invariant blocks <= |Blocks| && cur == if blocks < |Blocks| then Blocks[blocks].addr else 0
        invariant managed == Total(Blocks[..blocks]) == used + free + HEADER * blocks
        invariant used == PayloadOf(Blocks[..blocks], false) && free == PayloadOf(Blocks[..blocks], true)
        invariant usedBlocks == CountOf(Blocks[..blocks], false) && freeBlocks == CountOf(Blocks[..blocks], true)
        invariant usedBlocks + freeBlocks == blocks && Largest(Blocks[..blocks], largest)
        decreases |Blocks| - blocks
      {
        BlockFacts(blocks);
        OneMoreBlock(Blocks, blocks, largest);
        blocks, managed := blocks + 1, managed + HEADER + Hdr[cur].size;
        if Hdr[cur].free {
          free, freeBlocks := free + Hdr[cur].size, freeBlocks + 1;
          if Hdr[cur].size > largest { largest := Hdr[cur].size; }
        } else {
          used, usedBlocks := used + Hdr[cur].size, usedBlocks + 1;
        }
        cur := Hdr[cur].next;
      }
      assert Blocks[..|Blocks|] == Blocks;
      LargestFits(Blocks, largest);
      return MemoryStats(managed, used, free, largest, blocks, usedBlocks, freeBlocks);
    }

  }

  lemma NoBlockYet(bs: seq<Block>)
    ensures Total(bs[..0]) == 0 && Largest(bs[..0], 0)
    ensures forall free :: PayloadOf(bs[..0], free) == 0 && CountOf(bs[..0], free) == 0
  {
  }

  lemma OneMoreBlock(bs: seq<Block>, k: nat, largest: nat)
    requires k < |bs|
    ensures Total(bs[..k + 1]) == Total(bs[..k]) + HEADER + bs[k].size
    ensures forall free ::
      PayloadOf(bs[..k + 1], free) == PayloadOf(bs[..k], free) + if bs[k].free == free then bs[k].size else 0
    ensures forall free :: CountOf(bs[..k + 1], free) == CountOf(bs[..k], free) + if bs[k].free == free then 1 else 0
    ensures Largest(bs[..k], largest) ==>
      Largest(bs[..k + 1], if bs[k].free && bs[k].size > largest then bs[k].size else largest)
  {
    assert bs[..k + 1][..k] == bs[..k];
    if Largest(bs[..k], largest) {
      var n := if bs[k].free && bs[k].size > largest then bs[k].size else largest;
      if n != 0 && n == largest {
        var j :| 0 <= j < k && bs[..k][j].free && bs[..k][j].size == n;
        assert bs[..k + 1][j] == bs[j];
      } else if n != 0 {
        assert bs[..k + 1][k] == bs[k];
      }
    }
  }

  datatype MemoryStats = MemoryStats(managed: nat, used: nat, free: nat, largest: nat, blocks: nat, usedBlocks: nat,
    freeBlocks: nat)

  /** The payload bytes of the free or of the other blocks. */
  function PayloadOf(bs: seq<Block>, free: bool): nat {
    if bs == [] then 0
    else PayloadOf(bs[..|bs| - 1], free) + if bs[|bs| - 1].free == free then bs[|bs| - 1].size else 0
  }

  function CountOf(bs: seq<Block>, free: bool): nat {
    if bs == [] then 0 else CountOf(bs[..|bs| - 1], free) + if bs[|bs| - 1].free == free then 1 else 0
  }

  /** n is the size of the largest free block, 0 if there is none. */
  ghost predicate Largest(bs: seq<Block>, n: nat) {
    && (forall k :: 0 <= k < |bs| && bs[k].free ==> bs[k].size <= n)
    && (n == 0 || exists k :: 0 <= k < |bs| && bs[k].free && bs[k].size == n)
  }

  /** Requests up to the largest free block, and no others, are met without growing the heap. */
  lemma LargestFits(bs: seq<Block>, n: nat)
    requires Largest(bs, n)
    ensures forall size :: 0 < size ==> (size <= n <==> FirstFit(bs, size) < |bs|)
  {
  }
}
