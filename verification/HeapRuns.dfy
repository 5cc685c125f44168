/** Whole runs of clients against the kernel heap. */
module HeapRuns {
  import opened Bytes
  import opened HeapBlocks
  import opened KernelHeap

  datatype Request = Get(size: nat) | Drop(slot: nat) | Resize(slot: nat, size: nat) | Fill(slot: nat, data: seq<Byte>)

  /** What a client believes about one allocation: its pointer (0 for none), the size it asked for and the bytes it
      stored last. */
  datatype Grant = Grant(p: nat, size: nat, data: seq<Byte>)

  const NOTHING: Grant := Grant(0, 0, [])

  function Resized(g: Grant, q: nat, size: nat): Grant {
    Grant(q, size, if |g.data| <= size then g.data else g.data[..size])
  }

  /** The client's own books after a request that the heap answered with q. */
  function After(books: seq<Grant>, r: Request, q: nat): seq<Grant> {
    match r
    case Get(size) => books + [Grant(q, size, [])]
    case Drop(i) => if i < |books| then books[i := NOTHING] else books
    case Resize(i, size) =>
      if i >= |books| || books[i].p == 0 then books
      else if q != 0 then books[i := Resized(books[i], q, size)]
      else if size == 0 then books[i := NOTHING]
      else books
    case Fill(i, data) =>
      if i < |books| && books[i].p != 0 && |data| <= books[i].size then books[i := books[i].(data := data)] else books
  }

  function BooksAfter(requests: seq<Request>, answers: seq<nat>): seq<Grant>
    requires |answers| == |requests|
  {
    if requests == [] then []
    else
      var n := |requests| - 1;
      After(BooksAfter(requests[..n], answers[..n]), requests[n], answers[n])
  }

  lemma BooksStep(requests: seq<Request>, n: nat, answers: seq<nat>, q: nat)
    requires n < |requests| && |answers| == n
    ensures BooksAfter(requests[..n + 1], answers + [q]) == After(BooksAfter(requests[..n], answers), requests[n], q)
  {
    assert requests[..n + 1][..n] == requests[..n] && (answers + [q])[..n] == answers;
  }

  /** Block b carries grant g: it is allocated, big enough and holds the bytes. */
  ghost predicate Honoured(ram: int -> Byte, live: set<Block>, g: Grant, b: Block) {
    g.p != 0 ==>
      && b in live && g.p == b.Payload() && |g.data| <= g.size <= b.size
      && forall i :: g.p <= i < g.p + |g.data| ==> ram(i) == g.data[i - g.p]
  }

  /** Every grant of the books is carried by a block of its own. */
  ghost predicate Honours(ram: int -> Byte, live: set<Block>, books: seq<Grant>, blocks: seq<Block>) {
    && |blocks| == |books|
    && (forall i :: 0 <= i < |books| ==> Honoured(ram, live, books[i], blocks[i]))
    && (forall i, j :: 0 <= i < j < |books| && books[i].p != 0 && books[j].p != 0 ==> blocks[i] != blocks[j])
  }

  /** Memory that keeps the bytes of a set of blocks keeps honouring grants on other blocks than the one at slot k. */
  lemma StillHonours(ram: int -> Byte, ram': int -> Byte, live: set<Block>, live': set<Block>, books: seq<Grant>,
          blocks: seq<Block>,
                     k: nat, g: Grant, b: Block, kept: set<Block>)
    requires Honours(ram, live, books, blocks) && k <= |books| && Kept(kept, ram, ram') && kept <= live'
    requires kept == if k < |books| && books[k].p != 0 then live - {blocks[k]} else live
    requires Honoured(ram', live', g, b) && (g.p != 0 ==> b !in kept)
    ensures k < |books| ==> Honours(ram', live', books[k := g], blocks[k := b])
    ensures k == |books| ==> Honours(ram', live', books + [g], blocks + [b])
  {
    forall i | 0 <= i < |books| && i != k && books[i].p != 0
      ensures blocks[i] in kept && Honoured(ram', live', books[i], blocks[i])
    {
      assert k < |books| && books[k].p != 0 ==> (if i < k then blocks[i] != blocks[k] else blocks[k] != blocks[i]);
      assert Honoured(ram, live, books[i], blocks[i]);
    }
  }

  /** The blocks that carry the grants. */
  ghost function Carriers(books: seq<Grant>, blocks: seq<Block>): set<Block>
    requires |blocks| == |books|
  {
    set i | 0 <= i < |books| && books[i].p != 0 :: blocks[i]
  }

  /** Beyond the blocks that were allocated before, exactly the granted ones are: none leaked. */
  ghost predicate NoLeak(live: set<Block>, base: set<Block>, books: seq<Grant>, blocks: seq<Block>) {
    |blocks| == |books| && live == base + Carriers(books, blocks) && base !! Carriers(books, blocks)
  }

  lemma NoLeakAfter(ram: int -> Byte, live: set<Block>, live': set<Block>, base: set<Block>, books: seq<Grant>,
          blocks: seq<Block>, k: nat, g: Grant, b: Block)
    requires Honours(ram, live, books, blocks) && NoLeak(live, base, books, blocks) && k <= |books|
    requires var kept := if k < |books| && books[k].p != 0 then live - {blocks[k]} else live;
      live' == (if g.p != 0 then kept + {b} else kept) && (g.p != 0 ==> b !in kept && b !in base)
    ensures k < |books| ==> NoLeak(live', base, books[k := g], blocks[k := b])
    ensures k == |books| ==> NoLeak(live', base, books + [g], blocks + [b])
  {
    var books', blocks' := if k < |books| then books[k := g] else books + [g], if k < |books| then blocks[k := b]
      else blocks + [b];
    forall i | 0 <= i < |books'| && i != k && books'[i].p != 0
      ensures blocks'[i] in Carriers(books, blocks) && (k < |books| && books[k].p != 0 ==> blocks'[i] != blocks[k])
    {
      assert k < |books| && books[k].p != 0 ==> (if i < k then blocks[i] != blocks[k] else blocks[k] != blocks[i]);
    }
    forall c | c in Carriers(books, blocks) && (k < |books| && books[k].p != 0 ==> c != blocks[k])
      ensures c in Carriers(books', blocks')
    {
      var i :| 0 <= i < |books| && books[i].p != 0 && blocks[i] == c;
      assert books'[i].p != 0 && blocks'[i] == c;
    }
    assert g.p != 0 ==> books'[k].p != 0 && blocks'[k] == b;
  }

  /** The request asks for memory. */
  predicate Asks(r: Request, books: seq<Grant>) {
    match r
    case Get(size) => size > 0
    case Resize(i, size) => i < |books| && books[i].p != 0 && size > 0
    case _ => false
  }

  /** A heap of this many bytes is too big to grow for this request. */
  predicate TooBig(current: nat, r: Request) {
    match r
    case Get(size) => OverLimit(current, AlignUp(size))
    case Resize(_, size) => OverLimit(current, AlignUp(size))
    case _ => false
  }

  method ServeGet(h: Heap, size: nat, ghost books: seq<Grant>, ghost blocks: seq<Block>, ghost base: set<Block>)
    returns (q: nat, ghost b: Block)
    requires h.Valid() && Honours(h.Ram, Live(h.Blocks), books, blocks)
    requires NoLeak(Live(h.Blocks), base, books, blocks)
    modifies h
    ensures NoLeak(Live(h.Blocks), base, books + [Grant(q, size, [])], blocks + [b])
    ensures h.CurrentSize >= old(h.CurrentSize) && h.Refusals >= old(h.Refusals)
    ensures q == 0 ==> size == 0 || OverLimit(h.CurrentSize, AlignUp(size)) || h.Refusals > old(h.Refusals)
    ensures h.Valid() && Honours(h.Ram, Live(h.Blocks), books + [Grant(q, size, [])], blocks + [b])
    ensures (h.AtEnd ==> old(h.AtEnd)) && (old(SeamsHeld(h.Blocks)) ==> SeamsHeld(h.Blocks))
  {
    hide Heap.Valid, Live, Kept, Honours, SeamsHeld, FirstFit, AlignUp, OverLimit;
    ghost var ram, live := h.Ram, Live(h.Blocks);
    ghost var virt;
    ghost var current := h.CurrentSize;
    q, b, virt := h.Allocate(size);
    StillOver(current, h.CurrentSize, AlignUp(size));
    NoLeakAfter(ram, live, Live(h.Blocks), base, books, blocks, |books|, Grant(q, size, []), b);
    StillHonours(ram, h.Ram, live, Live(h.Blocks), books, blocks, |books|, Grant(q, size, []), b, live);
  }

  method ServeDrop(h: Heap, g: Grant, ghost k: nat, ghost books: seq<Grant>, ghost blocks: seq<Block>,
          ghost base: set<Block>)
    returns (gap: bool)
    requires h.Valid() && Honours(h.Ram, Live(h.Blocks), books, blocks) && k < |books| && g == books[k]
    requires NoLeak(Live(h.Blocks), base, books, blocks)
    modifies h
    ensures NoLeak(Live(h.Blocks), base, books[k := NOTHING], blocks)
    ensures h.CurrentSize == old(h.CurrentSize) && h.Refusals == old(h.Refusals)
    ensures h.Linked() && (!gap ==> h.Valid()) && (h.AtEnd ==> !gap) && h.AtEnd == old(h.AtEnd)
    ensures Honours(h.Ram, Live(h.Blocks), books[k := NOTHING], blocks)
    ensures old(SeamsHeld(h.Blocks)) && !gap ==> SeamsHeld(h.Blocks)
  {
    hide Heap.Valid, Heap.Linked, Live, Kept, Honours, SeamsHeld, Coalesced, Marked, Joins, Laid;
    GrantFacts(h, books, blocks, k);
    ghost var ram, live, b := h.Ram, Live(h.Blocks), blocks[k];
    h.NothingWritten(live);
    ghost var at;
    gap, at := h.Free(g.p, b);
    NoLeakAfter(ram, live, Live(h.Blocks), base, books, blocks, k, NOTHING, b);
    if g.p == 0 {
      StillHonours(ram, h.Ram, live, Live(h.Blocks), books, blocks, k, NOTHING, b, live);
    } else {
      StillHonours(ram, h.Ram, live, Live(h.Blocks), books, blocks, k, NOTHING, b, live - {b});
    }
    assert blocks[k := b] == blocks;
  }

  lemma GrantFacts(h: Heap, books: seq<Grant>, blocks: seq<Block>, k: nat)
    requires Honours(h.Ram, Live(h.Blocks), books, blocks) && k < |books|
    ensures |blocks| == |books| && Honoured(h.Ram, Live(h.Blocks), books[k], blocks[k])
    ensures books[k].p != 0 ==>
      blocks[k] in Live(h.Blocks) && blocks[k] in h.Blocks && !blocks[k].free && books[k].p == blocks[k].Payload()
  {
  }

  method ServeResize(h: Heap, g: Grant, size: nat, ghost k: nat, ghost books: seq<Grant>, ghost blocks: seq<Block>,
          ghost base: set<Block>)
    returns (q: nat, gap: bool, ghost b: Block)
    requires h.Valid() && Honours(h.Ram, Live(h.Blocks), books, blocks) && k < |books| && g == books[k] && g.p != 0
    requires NoLeak(Live(h.Blocks), base, books, blocks)
    modifies h
    ensures NoLeak(Live(h.Blocks), base, After(books, Resize(k, size), q), blocks[k := b])
    ensures h.CurrentSize >= old(h.CurrentSize) && h.Refusals >= old(h.Refusals)
    ensures q == 0 ==> size == 0 || OverLimit(h.CurrentSize, AlignUp(size)) || h.Refusals > old(h.Refusals)
    ensures h.Linked() && (!gap ==> h.Valid()) && (h.AtEnd ==> !gap)
    ensures Honours(h.Ram, Live(h.Blocks), After(books, Resize(k, size), q), blocks[k := b])
  {
    hide Heap.Valid, Heap.Linked, Live, Kept, Honours, NoLeak, AlignUp, FirstFit, OverLimit;
    GrantFacts(h, books, blocks, k);
    ghost var ram, live := h.Ram, Live(h.Blocks);
    BaseIsLive(live, base, books, blocks, k);
    ghost var current := h.CurrentSize;
    q, gap, b := h.Reallocate(g.p, size, blocks[k]);
    StillOver(current, h.CurrentSize, AlignUp(size));
    if q != 0 {
      NoLeakAfter(ram, live, Live(h.Blocks), base, books, blocks, k, Resized(g, q, size), b);
      StillHonours(ram, h.Ram, live, Live(h.Blocks), books, blocks, k, Resized(g, q, size), b, live - {blocks[k]});
    } else if size == 0 {
      NoLeakAfter(ram, live, Live(h.Blocks), base, books, blocks, k, NOTHING, b);
      StillHonours(ram, h.Ram, live, Live(h.Blocks), books, blocks, k, NOTHING, b, live - {blocks[k]});
    } else {
      b := blocks[k];
      SameHonours(ram, h.Ram, live, Live(h.Blocks), books, blocks);
      assert blocks[k := b] == blocks;
    }
  }

  lemma BaseIsLive(live: set<Block>, base: set<Block>, books: seq<Grant>, blocks: seq<Block>, k: nat)
    requires NoLeak(live, base, books, blocks) && k < |books| && books[k].p != 0
    ensures base <= live - {blocks[k]}
  {
  }

  lemma SameHonours(ram: int -> Byte, ram': int -> Byte, live: set<Block>, live': set<Block>, books: seq<Grant>,
          blocks: seq<Block>)
    requires Honours(ram, live, books, blocks) && Kept(live, ram, ram') && live' == live
    ensures Honours(ram', live', books, blocks)
  {
    forall i | 0 <= i < |books|
      ensures Honoured(ram', live', books[i], blocks[i])
    {
      assert Honoured(ram, live, books[i], blocks[i]);
    }
  }

  /** A client stores bytes at a pointer it holds. */
  method ServeFill(h: Heap, g: Grant, data: seq<Byte>, ghost k: nat, ghost books: seq<Grant>, ghost blocks: seq<Block>,
          ghost base: set<Block>)
    requires h.Valid() && Honours(h.Ram, Live(h.Blocks), books, blocks) && k < |books| && g == books[k]
    requires g.p != 0 && |data| <= g.size && NoLeak(Live(h.Blocks), base, books, blocks)
    modifies h`Ram
    ensures NoLeak(Live(h.Blocks), base, books[k := g.(data := data)], blocks)
    ensures h.Valid() && Honours(h.Ram, Live(h.Blocks), books[k := g.(data := data)], blocks)
  {
    hide Live, Kept, Honours, Laid, Spells, AllFollow, Total, NoLeak;
    GrantFacts(h, books, blocks, k);
    ghost var ram, live := h.Ram, Live(h.Blocks);
    var c := h.Ram;
    h.Ram := i => Overwritten(c, g.p, data, i);
    StoreKeepsOthers(h, blocks[k], data, ram);
    BaseIsLive(live, base, books, blocks, k);
    NoLeakAfter(ram, live, live, base, books, blocks, k, g.(data := data), blocks[k]);
    StillHonours(ram, h.Ram, live, Live(h.Blocks), books, blocks, k, g.(data := data), blocks[k], live - {blocks[k]});
    assert blocks[k := blocks[k]] == blocks;
  }

  lemma StoreKeepsOthers(h: Heap, b: Block, data: seq<Byte>, was: int -> Byte)
    requires h.Valid() && b in h.Blocks && |data| <= b.size
    requires forall i :: h.Ram(i) == Overwritten(was, b.Payload(), data, i)
    ensures Kept(Live(h.Blocks) - {b}, was, h.Ram)
  {
    forall d, i | d in Live(h.Blocks) && d != b && d.Payload() <= i < d.Limit()
      ensures h.Ram(i) == was(i)
    {
      TwoOfThem(h.Blocks, d, b);
    }
  }

  /** One request; gap says whether a merge jumped. */
  method ServeOne(h: Heap, r: Request, books: seq<Grant>, ghost blocks: seq<Block>, ghost base: set<Block>)
    returns (q: nat, gap: bool, ghost blocks': seq<Block>)
    requires h.Valid() && Honours(h.Ram, Live(h.Blocks), books, blocks)
    requires NoLeak(Live(h.Blocks), base, books, blocks)
    modifies h
    ensures NoLeak(Live(h.Blocks), base, After(books, r, q), blocks')
    ensures h.CurrentSize >= old(h.CurrentSize) && h.Refusals >= old(h.Refusals)
    ensures Asks(r, books) && q == 0 ==> TooBig(h.CurrentSize, r) || h.Refusals > old(h.Refusals)
    ensures h.Linked() && (!gap ==> h.Valid()) && (h.AtEnd ==> !gap)
    ensures Honours(h.Ram, Live(h.Blocks), After(books, r, q), blocks')
    ensures !r.Resize? && old(SeamsHeld(h.Blocks)) && !gap ==> SeamsHeld(h.Blocks)
  {
    hide Heap.Valid, Heap.Linked, Live, Kept, Honours, SeamsHeld, NoLeak, AlignUp, OverLimit;
    q, gap, blocks' := 0, false, blocks;
    h.ValidIsLinked();
    match r {
      case Get(size) =>
        ghost var b;
        q, b := ServeGet(h, size, books, blocks, base);
        blocks' := blocks + [b];
        h.ValidIsLinked();
      case Drop(i) =>
        if i < |books| { gap := ServeDrop(h, books[i], i, books, blocks, base); }
      case Resize(i, size) =>
        if i < |books| && books[i].p != 0 {
          GrantFacts(h, books, blocks, i);
          ghost var b;
          q, gap, b := ServeResize(h, books[i], size, i, books, blocks, base);
          blocks' := blocks[i := b];
        }
      case Fill(i, data) =>
        if i < |books| && books[i].p != 0 && |data| <= books[i].size {
          ServeFill(h, books[i], data, i, books, blocks, base);
          h.ValidIsLinked();
        }
    }
  }

  /** A run of requests until all are served or a merge jumps over a gap: whatever the heap answers and wherever its
      regions lie, memory holds what the clients' books say, every grant in a block of its own. While every region
      starts at End no merge jumps; and a run without Resize in which every block was given back and no merge jumped
      shows that every region did. */
  method Serve(h: Heap, requests: seq<Request>)
    returns (answers: seq<nat>, books: seq<Grant>, gap: bool, ghost blocks: seq<Block>)
    requires h.Valid() && SeamsHeld(h.Blocks)
    modifies h
    ensures |answers| <= |requests| && books == BooksAfter(requests[..|answers|], answers)
    ensures Honours(h.Ram, Live(h.Blocks), books, blocks)
    ensures NoLeak(Live(h.Blocks), old(Live(h.Blocks)), books, blocks)
    ensures h.Refusals >= old(h.Refusals)
    ensures forall n :: 0 <= n < |answers| && answers[n] == 0 && AsksAt(requests, answers, n) ==>
      TooBig(h.CurrentSize, requests[n]) || h.Refusals > old(h.Refusals)
    ensures h.Linked() && (!gap ==> h.Valid() && |answers| == |requests|) && (h.AtEnd ==> !gap)
    ensures !gap && NoResize(requests) && Live(h.Blocks) == {} ==> h.AtEnd
  {
    hide Heap.Valid, Heap.Linked, Live, Kept, Honours, SeamsHeld, After, Asks, TooBig, AlignUp, NoLeak;
    ghost var base := Live(h.Blocks);
    answers, books, gap, blocks := [], [], false, [];
    NobodyIsHonoured(h, base);
    h.ValidIsLinked();
    for n := 0 to |requests|
      invariant h.Valid() && h.Linked() && |answers| == n && books == BooksAfter(requests[..n], answers)
      invariant Honours(h.Ram, Live(h.Blocks), books, blocks)
      invariant NoLeak(Live(h.Blocks), base, books, blocks) && h.Refusals >= old(h.Refusals)
      invariant forall m :: 0 <= m < n && answers[m] == 0 && AsksAt(requests, answers, m) ==>
        TooBig(h.CurrentSize, requests[m]) || h.Refusals > old(h.Refusals)
      invariant NoResize(requests) ==> SeamsHeld(h.Blocks)
    {
      var q;
      ghost var was, size := answers, h.CurrentSize;
      q, gap, blocks := ServeOne(h, requests[n], books, blocks, base);
      StillTooBig(size, h.CurrentSize);
      AsksEarlier(requests, was, q);
      books := After(books, requests[n], q);
      BooksStep(requests, n, answers, q);
      answers := answers + [q];
      if gap { return; }
    }
    assert requests[..|requests|] == requests;
    h.GivenBack();
  }

  /** The n-th request asks for memory, as the books stand then. */
  predicate AsksAt(requests: seq<Request>, answers: seq<nat>, n: nat)
    requires n < |requests| && n < |answers|
  {
    Asks(requests[n], BooksAfter(requests[..n], answers[..n]))
  }

  lemma AsksEarlier(requests: seq<Request>, answers: seq<nat>, q: nat)
    requires |answers| < |requests|
    ensures forall m :: 0 <= m < |answers| ==>
      (AsksAt(requests, answers + [q], m) <==> AsksAt(requests, answers, m))
    ensures var n := |answers|;
      AsksAt(requests, answers + [q], n) <==> Asks(requests[n], BooksAfter(requests[..n], answers))
  {
    hide Asks;
    forall m | 0 <= m <= |answers|
      ensures (answers + [q])[..m] == answers[..m]
    {
    }
    assert answers[..|answers|] == answers;
  }

  /** A heap that is too big for a request stays so while it does not shrink. */
  lemma StillTooBig(was: nat, now: nat)
    requires was <= now
    ensures forall r :: TooBig(was, r) ==> TooBig(now, r)
  {
    hide OverLimit, AlignUp;
    forall r | TooBig(was, r)
      ensures TooBig(now, r)
    {
      StillOver(was, now, AlignUp(r.size));
    }
  }

  lemma StillOver(was: nat, now: nat, size: nat)
    requires was <= now
    ensures OverLimit(was, size) ==> OverLimit(now, size)
  {
    hide Region;
  }

  predicate NoResize(requests: seq<Request>) {
    forall n :: 0 <= n < |requests| ==> !requests[n].Resize?
  }

  lemma NobodyIsHonoured(h: Heap, base: set<Block>)
    ensures Honours(h.Ram, Live(h.Blocks), [], []) && NoLeak(base, base, [], [])
  {
  }

  /** Two grants never share a byte. */
  lemma GrantsAreDisjoint(h: Heap, books: seq<Grant>, blocks: seq<Block>, i: nat, j: nat)
    requires h.Valid() && Honours(h.Ram, Live(h.Blocks), books, blocks)
    requires i < j < |books| && books[i].p != 0 && books[j].p != 0
    ensures books[i].p + books[i].size <= books[j].p || books[j].p + books[j].size <= books[i].p
  {
    GrantFacts(h, books, blocks, i);
    GrantFacts(h, books, blocks, j);
    h.LaidFacts();
    TwoOfThem(h.Blocks, blocks[i], blocks[j]);
  }

  // ---- A run that loses a live block ----

  const INITIAL: nat := HEAP_INITIAL_SIZE
  const LARGE: nat := 33 * 1024 * 1024

  function First(v: nat): Block { Block(v, INITIAL - HEADER, true) }

  /** 16 MiB were taken from a region at far. */
  function FarTaken(v: nat, far: nat): seq<Block> {
    [First(v), Block(far, INITIAL, false), Block(far + HEADER + INITIAL, PAGE_SIZE - 2 * HEADER, true)]
  }

  /** They were given back: one block over both regions. */
  function OverGap(v: nat): Block { Block(v, 2 * INITIAL + PAGE_SIZE - HEADER, true) }

  /** 33 MiB were taken from a region inside the gap. */
  function InGapTaken(v: nat): seq<Block> {
    [OverGap(v), Block(v + INITIAL, LARGE, false), Block(v + INITIAL + HEADER + LARGE, PAGE_SIZE - 2 * HEADER, true)]
  }

  /** A request that the one block does not fit takes its part of a new region of whole mebibytes and a page. */
  lemma TakeFromRegion(a: Block, virt: nat, size: nat)
    requires size % PAGE_SIZE == 0 && a.size < size
    ensures Region(virt, size) == Block(virt, size + PAGE_SIZE - HEADER, true)
    ensures FirstFit([a], size) == 1 && FirstFit([a] + [Region(virt, size)], size) == 1
    ensures Marked(SplitAt([a] + [Region(virt, size)], 1, size), 1, false)
      == [a, Block(virt, size, false), Block(virt + HEADER + size, PAGE_SIZE - 2 * HEADER, true)]
  {
    var r := Region(virt, size);
    WholePagesAndOne(size);
    assert [a][..0] == [] && [a] + [r] == [a, r] && [a, r][..1] == [a];
  }

  lemma WholePagesAndOne(size: nat)
    requires size % PAGE_SIZE == 0
    ensures (AlignUp(size + HEADER) + PAGE_SIZE - 1) / PAGE_SIZE * PAGE_SIZE == size + PAGE_SIZE
  {
    hide AlignUp;
    var k := size / PAGE_SIZE;
    assert size == 4096 * k;
    AlignedPages(k);
    PagesForHeader(k);
  }

  lemma AlignedPages(k: nat)
    ensures AlignUp(4096 * k + HEADER) == 4096 * k + HEADER
  {
    assert (4096 * k + 55) / 8 == 512 * k + 6;
  }

  lemma PagesForHeader(k: nat)
    ensures (4096 * k + HEADER + PAGE_SIZE - 1) / PAGE_SIZE == k + 1
  {
  }

  lemma MergeOverGap(v: nat, far: nat)
    requires v + INITIAL != far
    ensures var t := Marked(FarTaken(v, far), 1, true); !Joins(t, 1) && Coalesced(t, 1) == [OverGap(v)]
  {
    var t := Marked(FarTaken(v, far), 1, true);
    assert Merge(t, 1) == [First(v), Block(far, INITIAL + PAGE_SIZE - HEADER, true)];
  }

  /** The heap starts with 16 MiB at v. A request of 16 MiB gets a region at far, and freeing it merges the two regions
      over the gap between them. A request of 33 MiB gets a region inside the gap. A request of 16 MiB less a header
      then splits the merged block right on the header of that live block: it becomes a free one that is linked to
      itself, and the headers spell the blocks no more. */
  lemma MergeOverGapLosesBlock(v: nat, far: nat, canary: nat, h: Headers)
    requires v + INITIAL + LARGE + PAGE_SIZE <= far
    ensures FirstFit([First(v)], INITIAL) == 1
      && Marked(SplitAt([First(v)] + [Region(far, INITIAL)], 1, INITIAL), 1, false) == FarTaken(v, far)
    ensures var t := Marked(FarTaken(v, far), 1, true); !Joins(t, 1) && Coalesced(t, 1) == [OverGap(v)]
    ensures FirstFit([OverGap(v)], LARGE) == 1
      && Marked(SplitAt([OverGap(v)] + [Region(v + INITIAL, LARGE)], 1, LARGE), 1, false) == InGapTaken(v)
    ensures Region(v + INITIAL, LARGE).Misses(First(v)) && Region(v + INITIAL, LARGE).Misses(Region(far, INITIAL))
    ensures FirstFit(InGapTaken(v), INITIAL - HEADER) == 0 && Fits(OverGap(v), INITIAL - HEADER)
    ensures Spells(h, InGapTaken(v), canary) ==>
      var h' := SplitHeaders(h, OverGap(v), HeaderOf(InGapTaken(v), 0, canary), INITIAL - HEADER);
      && v + INITIAL in h' && h'[v + INITIAL].free && h'[v + INITIAL].next == v + INITIAL
      && !Spells(h', SplitAt(InGapTaken(v), 0, INITIAL - HEADER), canary)
  {
    hide Region, SplitAt, Marked, Coalesced, Joins, SplitHeaders, Spells;
    TakeFromRegion(First(v), far, INITIAL);
    MergeOverGap(v, far);
    TakeFromRegion(OverGap(v), v + INITIAL, LARGE);
    FitsFirst(InGapTaken(v), INITIAL - HEADER);
    if Spells(h, InGapTaken(v), canary) { SplitOverwrites(h, InGapTaken(v), canary, 0, INITIAL - HEADER, 1); }
  }

  lemma {:induction false} FitsFirst(bs: seq<Block>, size: nat)
    requires |bs| > 0 && bs[0].free && bs[0].size >= size
    ensures FirstFit(bs, size) == 0
    decreases |bs|
  {
    if |bs| > 1 { FitsFirst(bs[..|bs| - 1], size); }
  }
}
