/** The kernel heap as a sequence of blocks: what its operations do to the blocks, and what they keep. */
module HeapBlocks {
  const ALIGN: nat := 8
  const HEADER: nat := 48
  const MIN_SPLIT_SIZE: nat := HEADER + ALIGN

  function AlignUp(n: nat): (r: nat)
    ensures r % ALIGN == 0 && n <= r < n + ALIGN
  {
    (n + (ALIGN - 1)) / ALIGN * ALIGN
  }

  /** A header at addr, followed by size bytes of payload. */
  datatype Block = Block(addr: nat, size: nat, free: bool) {
    function Payload(): nat { addr + HEADER }
    function Limit(): nat { addr + HEADER + size }
    predicate Holds(i: int) { addr <= i < Limit() }
    predicate Misses(b: Block) { Limit() <= b.addr || b.Limit() <= addr }
  }

  /** The header of block k starts where block k - 1 ends. */
  predicate Follows(bs: seq<Block>, k: nat)
    requires 0 < k < |bs|
  {
    bs[k].addr == bs[k - 1].Limit()
  }

  /** The blocks lie side by side, in list order. */
  ghost predicate AllFollow(bs: seq<Block>) {
    forall k :: 0 < k < |bs| ==> Follows(bs, k)
  }

  /** The blocks lie side by side from start to end. */
  ghost predicate Tiles(bs: seq<Block>, start: nat, end: nat) {
    |bs| > 0 && bs[0].addr == start && bs[|bs| - 1].Limit() == end && AllFollow(bs)
  }

  /** No two blocks share a byte, header or payload. */
  ghost predicate Apart(bs: seq<Block>) {
    forall i, j :: 0 <= i < j < |bs| ==> bs[i].Misses(bs[j])
  }

  ghost predicate Positive(bs: seq<Block>) {
    forall k :: 0 <= k < |bs| ==> bs[k].addr > 0
  }

  ghost predicate Aligned(bs: seq<Block>) {
    forall k :: 0 <= k < |bs| ==> bs[k].addr % ALIGN == 0 && bs[k].size % ALIGN == 0
  }

  /** The blocks have exactly these bytes. */
  ghost predicate Covers(bs: seq<Block>, owned: iset<int>) {
    forall i :: i in owned <==> Held(bs, i)
  }

  predicate Held(bs: seq<Block>, i: int) {
    exists k :: 0 <= k < |bs| && bs[k].Holds(i)
  }

  /** The blocks share out the bytes of the heap's regions: all of them, each byte to one block. */
  ghost predicate Laid(bs: seq<Block>, owned: iset<int>) {
    |bs| > 0 && Apart(bs) && Positive(bs) && Aligned(bs) && Covers(bs, owned)
  }

  function Total(bs: seq<Block>): nat {
    if bs == [] then 0 else Total(bs[..|bs| - 1]) + HEADER + bs[|bs| - 1].size
  }

  /** The allocated blocks. */
  ghost function Live(bs: seq<Block>): set<Block> {
    set k | 0 <= k < |bs| && !bs[k].free :: bs[k]
  }

  // ---- Blocks side by side ----

  lemma {:induction false} InOrder(bs: seq<Block>, i: nat, j: nat)
    requires AllFollow(bs) && i < j < |bs|
    ensures bs[i].Limit() <= bs[j].addr
    decreases j
  {
    assert Follows(bs, j);
    if i < j - 1 { InOrder(bs, i, j - 1); }
  }

  /** Blocks side by side share no byte. */
  lemma BlocksAreDisjoint(bs: seq<Block>)
    requires AllFollow(bs)
    ensures Apart(bs)
  {
    forall i, j | 0 <= i < j < |bs|
      ensures bs[i].Misses(bs[j])
    {
      InOrder(bs, i, j);
    }
  }

  lemma AllFollowLess(bs: seq<Block>, n: nat)
    requires AllFollow(bs) && n <= |bs|
    ensures AllFollow(bs[..n])
  {
    forall k | 0 < k < n
      ensures Follows(bs[..n], k)
    {
      assert Follows(bs, k);
    }
  }

  lemma {:induction false} TilesMeansTotal(bs: seq<Block>, start: nat, end: nat)
    requires Tiles(bs, start, end)
    ensures Total(bs) == end - start && start < end
  {
    var n := |bs| - 1;
    if n > 0 {
      assert Follows(bs, n);
      AllFollowLess(bs, n);
      TilesMeansTotal(bs[..n], start, bs[n].addr);
    } else {
      assert bs[..n] == [];
    }
  }

  // ---- First fit ----

  /** The index of the first free block of at least that size, or the length. */
  function FirstFit(bs: seq<Block>, size: nat): (k: nat)
    ensures k <= |bs|
    ensures k < |bs| ==> bs[k].free && bs[k].size >= size
    ensures forall i :: 0 <= i < k ==> !(bs[i].free && bs[i].size >= size)
  {
    if bs == [] then 0
    else
      var k := FirstFit(bs[..|bs| - 1], size);
      if k < |bs| - 1 then k
      else if bs[|bs| - 1].free && bs[|bs| - 1].size >= size then |bs| - 1
      else |bs|
  }

  // ---- Splitting and merging ----

  function Fits(b: Block, size: nat): bool {
    b.size >= size + MIN_SPLIT_SIZE
  }

  /** SplitBlockLocked: the tail of block k becomes a free block of its own when it is big enough. */
  function SplitAt(bs: seq<Block>, k: nat, size: nat): seq<Block>
    requires k < |bs|
  {
    var b := bs[k];
    if b.size < size + MIN_SPLIT_SIZE then bs
    else
      var tail := Block(b.addr + HEADER + size, b.size - size - HEADER, true);
      bs[..k] + [Block(b.addr, size, b.free), tail] + bs[k + 1..]
  }

  /** Block k takes in block k + 1. */
  function Merge(bs: seq<Block>, k: nat): seq<Block>
    requires k + 1 < |bs|
  {
    bs[..k] + [Block(bs[k].addr, bs[k].size + HEADER + bs[k + 1].size, bs[k].free)] + bs[k + 2..]
  }

  /** CoalesceLocked: first the next block, then the previous one. */
  function Coalesced(bs: seq<Block>, k: nat): seq<Block>
    requires k < |bs|
  {
    var c := if k + 1 < |bs| && bs[k + 1].free then Merge(bs, k) else bs;
    if k > 0 && c[k - 1].free then Merge(c, k - 1) else c
  }

  function Marked(bs: seq<Block>, k: nat, free: bool): seq<Block>
    requires k < |bs|
  {
    bs[k := bs[k].(free := free)]
  }

  /** Splitting changes nothing about which blocks are followed by their neighbours. */
  lemma SplitFollows(bs: seq<Block>, k: nat, size: nat)
    requires k < |bs|
    ensures AllFollow(SplitAt(bs, k, size)) <==> AllFollow(bs)
  {
    var b, t := bs[k], SplitAt(bs, k, size);
    if Fits(b, size) {
      forall i | 0 < i < |bs|
        ensures Follows(bs, i) <==> Follows(t, if i <= k then i else i + 1)
      {
      }
      forall i | 0 < i < |t| && i != k + 1
        ensures Follows(t, i) <==> Follows(bs, if i <= k then i else i - 1)
      {
      }
    }
  }

  /** Blocks that stay inside blocks that are apart are apart. */
  lemma InsideApart(a: Block, b: Block, a': Block, b': Block)
    requires a.Misses(b) && a.addr <= a'.addr && a'.Limit() <= a.Limit() && b.addr <= b'.addr && b'.Limit() <= b.Limit()
    ensures a'.Misses(b')
  {
  }

  /** A split shares out the same bytes. */
  lemma SplitLaid(bs: seq<Block>, k: nat, size: nat, owned: iset<int>)
    requires Laid(bs, owned) && k < |bs| && size % ALIGN == 0
    ensures Laid(SplitAt(bs, k, size), owned)
  {
    if Fits(bs[k], size) {
      SplitAligned(bs, k, size);
      SplitApart(bs, k, size);
      SplitCovers(bs, k, size, owned);
    }
  }

  lemma SplitApart(bs: seq<Block>, k: nat, size: nat)
    requires Apart(bs) && Positive(bs) && k < |bs| && Fits(bs[k], size)
    ensures Apart(SplitAt(bs, k, size)) && Positive(SplitAt(bs, k, size))
  {
    hide SplitAt;
    var t := SplitAt(bs, k, size);
    forall i, j | 0 <= i < j < |t|
      ensures t[i].Misses(t[j])
    {
      SplitInside(bs, k, size, i);
      SplitInside(bs, k, size, j);
      var i', j' := if i <= k then i else i - 1, if j <= k then j else j - 1;
      if i' != j' { InsideApart(bs[i'], bs[j'], t[i], t[j]); }
    }
    forall i | 0 <= i < |t|
      ensures t[i].addr > 0
    {
      SplitInside(bs, k, size, i);
    }
  }

  /** Each block of a split lies in one of the blocks before; the two halves lie side by side. */
  lemma SplitInside(bs: seq<Block>, k: nat, size: nat, i: nat)
    requires k < |bs| && Fits(bs[k], size) && i < |SplitAt(bs, k, size)|
    ensures var t, i' := SplitAt(bs, k, size), if i <= k then i else i - 1;
      && i' < |bs| && bs[i'].addr <= t[i].addr && t[i].Limit() <= bs[i'].Limit()
      && (i == k + 1 ==> t[k].Misses(t[i]))
  {
  }

  lemma SplitCovers(bs: seq<Block>, k: nat, size: nat, owned: iset<int>)
    requires Covers(bs, owned) && k < |bs| && Fits(bs[k], size)
    ensures Covers(SplitAt(bs, k, size), owned)
  {
    var t := SplitAt(bs, k, size);
    forall i
      ensures Held(bs, i) <==> Held(t, i)
    {
      if j :| 0 <= j < |bs| && bs[j].Holds(i) {
        assert t[if j < k || (j == k && i < t[k].Limit()) then j else j + 1].Holds(i);
      }
      if j :| 0 <= j < |t| && t[j].Holds(i) {
        assert bs[if j <= k then j else j - 1].Holds(i);
      }
    }
  }

  lemma SplitAligned(bs: seq<Block>, k: nat, size: nat)
    requires Aligned(bs) && k < |bs| && size % ALIGN == 0
    ensures Aligned(SplitAt(bs, k, size))
  {
    assert bs[k].addr % ALIGN == 0 && bs[k].size % ALIGN == 0;
  }

  /** The free tail of a split is nobody's; the block itself keeps its place and its owner. */
  lemma SplitKeepsLive(bs: seq<Block>, k: nat, size: nat)
    requires k < |bs|
    ensures var t := SplitAt(bs, k, size);
      && k < |t| && t[k].addr == bs[k].addr && t[k].free == bs[k].free
      && t[k].size == (if Fits(bs[k], size) then size else bs[k].size)
      && Live(t) == if bs[k].free then Live(bs) else LiveExcept(bs, k) + {t[k]}
  {
    var b, t := bs[k], SplitAt(bs, k, size);
    if Fits(b, size) {
      assert forall i :: 0 <= i < k ==> t[i] == bs[i];
      assert forall i :: k + 1 <= i < |bs| ==> t[i + 1] == bs[i];
      assert forall i :: k + 2 <= i < |t| ==> t[i] == bs[i - 1];
      assert t[k] == Block(b.addr, size, b.free) && t[k + 1].free;
    }
  }

  /** The allocated blocks other than block k. */
  ghost function LiveExcept(bs: seq<Block>, k: nat): set<Block> {
    set i | 0 <= i < |bs| && i != k && !bs[i].free :: bs[i]
  }

  lemma MergeKeepsLive(bs: seq<Block>, k: nat)
    requires k + 1 < |bs| && bs[k].free && bs[k + 1].free
    ensures Live(Merge(bs, k)) == Live(bs)
  {
    var t := Merge(bs, k);
    assert forall i :: 0 <= i < k ==> t[i] == bs[i];
    assert forall i :: k + 2 <= i < |bs| ==> t[i - 1] == bs[i];
    assert forall i :: k + 1 <= i < |t| ==> t[i] == bs[i + 1];
    assert t[k].free;
  }

  // ---- Merging list neighbours ----

  /** A byte of a block is a byte of no other. */
  lemma OneHolder(bs: seq<Block>, j: nat, i: int)
    requires Apart(bs) && j < |bs| && bs[j].Holds(i)
    ensures forall k :: 0 <= k < |bs| && bs[k].Holds(i) ==> k == j
  {
    forall k | 0 <= k < |bs| && k != j
      ensures !bs[k].Holds(i)
    {
      assert if k < j then bs[k].Misses(bs[j]) else bs[j].Misses(bs[k]);
    }
  }

  /** A block that has exactly the bytes of the blocks from lo to hi can take their place. */
  lemma ReplaceLaid(bs: seq<Block>, lo: nat, hi: nat, m: Block, owned: iset<int>)
    requires Laid(bs, owned) && lo < hi <= |bs| && m.addr > 0 && m.addr % ALIGN == 0 && m.size % ALIGN == 0
    requires forall i :: m.Holds(i) <==> Held(bs[lo..hi], i)
    ensures Laid(bs[..lo] + [m] + bs[hi..], owned)
  {
    hide Block.Holds, Covers;
    forall j | 0 <= j < |bs| && !(lo <= j < hi)
      ensures bs[j].Misses(m) && m.Misses(bs[j])
    {
      ReplacementMisses(bs, lo, hi, m, j);
    }
    ReplaceCovers(bs, lo, hi, m, owned);
  }

  lemma ReplaceCovers(bs: seq<Block>, lo: nat, hi: nat, m: Block, owned: iset<int>)
    requires Covers(bs, owned) && lo < hi <= |bs|
    requires forall i :: m.Holds(i) <==> Held(bs[lo..hi], i)
    ensures Covers(bs[..lo] + [m] + bs[hi..], owned)
  {
    hide Block.Holds;
    var t := bs[..lo] + [m] + bs[hi..];
    forall i
      ensures Held(bs, i) <==> Held(t, i)
    {
      if j :| 0 <= j < |bs| && bs[j].Holds(i) {
        if lo <= j < hi { assert bs[lo..hi][j - lo].Holds(i); }
        assert t[if j < lo then j else if j < hi then lo else j - (hi - lo) + 1].Holds(i);
      }
      if j :| 0 <= j < |t| && t[j].Holds(i) {
        if j == lo {
          var j' :| 0 <= j' < hi - lo && bs[lo..hi][j'].Holds(i);
          assert bs[lo + j'].Holds(i);
        } else {
          assert bs[if j < lo then j else j + (hi - lo) - 1].Holds(i);
        }
      }
    }
  }

  lemma ReplacementMisses(bs: seq<Block>, lo: nat, hi: nat, m: Block, j: nat)
    requires Apart(bs) && lo < hi <= |bs| && j < |bs| && !(lo <= j < hi)
    requires forall i :: m.Holds(i) <==> Held(bs[lo..hi], i)
    ensures bs[j].Misses(m)
  {
    var i := if bs[j].addr < m.addr then m.addr else bs[j].addr;
    if bs[j].Holds(i) {
      OneHolder(bs, j, i);
      assert forall x :: 0 <= x < hi - lo ==> bs[lo..hi][x] == bs[lo + x];
      assert !Held(bs[lo..hi], i);
    }
  }

  /** In a list that shares out the heap, the bytes of a block replaced by others are those of no remaining block. */
  lemma TakenUp(bs: seq<Block>, lo: nat, hi: nat, m: Block, owned: iset<int>, j: nat)
    requires Laid(bs, owned) && lo < hi <= |bs| && lo <= j < hi && Covers(bs[..lo] + [m] + bs[hi..], owned)
    ensures m.addr <= bs[j].addr && bs[j].Limit() <= m.Limit()
  {
    InNewBlock(bs, lo, hi, m, owned, j, bs[j].addr);
    InNewBlock(bs, lo, hi, m, owned, j, bs[j].Limit() - 1);
  }

  lemma InNewBlock(bs: seq<Block>, lo: nat, hi: nat, m: Block, owned: iset<int>, j: nat, i: int)
    requires Laid(bs, owned) && lo < hi <= |bs| && lo <= j < hi && Covers(bs[..lo] + [m] + bs[hi..], owned)
      && bs[j].Holds(i)
    ensures m.Holds(i)
  {
    var t := bs[..lo] + [m] + bs[hi..];
    assert Held(bs, i) && Held(t, i);
    OneHolder(bs, j, i);
    forall x | 0 <= x < |t| && x != lo
      ensures !t[x].Holds(i)
    {
      assert t[x] == bs[if x < lo then x else x + (hi - lo) - 1];
    }
  }

  /** What a merge claims is what the two blocks had exactly when they are neighbours in memory. */
  lemma MergeIsExact(bs: seq<Block>, k: nat, owned: iset<int>)
    requires Laid(bs, owned) && k + 1 < |bs|
    ensures Laid(Merge(bs, k), owned) <==> Follows(bs, k + 1)
  {
    var m := Merge(bs, k)[k];
    assert Merge(bs, k) == bs[..k] + [m] + bs[k + 2..] && bs[k].Misses(bs[k + 1]);
    if Follows(bs, k + 1) {
      assert bs[k..k + 2] == [bs[k], bs[k + 1]];
      forall i
        ensures m.Holds(i) <==> Held(bs[k..k + 2], i)
      {
        assert m.Holds(i) <==> bs[k..k + 2][0].Holds(i) || bs[k..k + 2][1].Holds(i);
      }
      assert bs[k].addr % ALIGN == 0 && bs[k].size % ALIGN == 0 && bs[k + 1].size % ALIGN == 0;
      ReplaceLaid(bs, k, k + 2, m, owned);
    } else if Laid(Merge(bs, k), owned) {
      TakenUp(bs, k, k + 2, m, owned, k + 1);
    }
  }

  lemma MergeFollows(bs: seq<Block>, k: nat)
    requires k + 1 < |bs| && Follows(bs, k + 1)
    ensures AllFollow(Merge(bs, k)) <==> AllFollow(bs)
  {
    var t := Merge(bs, k);
    forall i | 0 < i < |t|
      ensures Follows(t, i) <==> Follows(bs, if i <= k then i else i + 1)
    {
    }
    forall i | 0 < i < |bs| && i != k + 1
      ensures Follows(bs, i) <==> Follows(t, if i <= k then i else i - 1)
    {
    }
  }

  /** Every merge of CoalesceLocked joins blocks that are neighbours in memory. */
  predicate Joins(bs: seq<Block>, k: nat)
    requires k < |bs|
  {
    && (k + 1 < |bs| && bs[k + 1].free ==> Follows(bs, k + 1))
    && (k > 0 && bs[k - 1].free ==> Follows(bs, k))
  }

  /** Both merges jump, but the second one lands where the first one started. */
  predicate Swapped(bs: seq<Block>, k: nat)
    requires k < |bs|
  {
    && 0 < k < |bs| - 1 && bs[k - 1].free && bs[k + 1].free
    && bs[k + 1].addr == bs[k - 1].Limit() && bs[k].addr == bs[k + 1].Limit()
  }

  /** Coalescing claims exactly the bytes of the blocks it joins if and only if they are neighbours in memory. */
  lemma CoalescedIsExact(bs: seq<Block>, k: nat, owned: iset<int>)
    requires Laid(bs, owned) && k < |bs|
    ensures Laid(Coalesced(bs, k), owned) <==> Joins(bs, k) || Swapped(bs, k)
    ensures Joins(bs, k) ==> (AllFollow(Coalesced(bs, k)) <==> AllFollow(bs))
  {
    hide Laid, AllFollow;
    if 0 < k < |bs| - 1 && bs[k - 1].free && bs[k + 1].free {
      BothMerges(bs, k, owned);
      if Joins(bs, k) {
        MergeFollows(bs, k);
        MergeFollows(Merge(bs, k), k - 1);
      }
    } else if k + 1 < |bs| && bs[k + 1].free {
      MergeIsExact(bs, k, owned);
      if Joins(bs, k) { MergeFollows(bs, k); }
    } else if k > 0 && bs[k - 1].free {
      MergeIsExact(bs, k - 1, owned);
      if Joins(bs, k) { MergeFollows(bs, k - 1); }
    }
  }

  /** Three blocks side by side in memory, in either of the two orders that start with p. */
  predicate Side(p: Block, a: Block, n: Block) {
    (a.addr == p.Limit() && n.addr == a.Limit()) || (n.addr == p.Limit() && a.addr == n.Limit())
  }

  lemma BothMerges(bs: seq<Block>, k: nat, owned: iset<int>)
    requires Laid(bs, owned) && 0 < k < |bs| - 1
    ensures Laid(Merge(Merge(bs, k), k - 1), owned) <==> Side(bs[k - 1], bs[k], bs[k + 1])
  {
    hide Laid, Side, Merge;
    MergedTwice(bs, k);
    var t := Merge(Merge(bs, k), k - 1);
    if Side(bs[k - 1], bs[k], bs[k + 1]) {
      ThreeInOne(bs, k, t[k - 1], owned);
    } else if Laid(t, owned) {
      OneForThree(bs, k, t[k - 1], owned);
    }
  }

  lemma MergedTwice(bs: seq<Block>, k: nat)
    requires 0 < k < |bs| - 1
    ensures |Merge(bs, k)| == |bs| - 1 && |Merge(Merge(bs, k), k - 1)| == |bs| - 2
    ensures var t, p, a, n := Merge(Merge(bs, k), k - 1), bs[k - 1], bs[k], bs[k + 1];
      && t == bs[..k - 1] + [t[k - 1]] + bs[k + 2..]
      && t[k - 1].addr == p.addr && t[k - 1].size == p.size + HEADER + a.size + HEADER + n.size
  {
  }

  lemma ThreeInOne(bs: seq<Block>, k: nat, m: Block, owned: iset<int>)
    requires Laid(bs, owned) && 0 < k < |bs| - 1 && Side(bs[k - 1], bs[k], bs[k + 1])
    requires m.addr == bs[k - 1].addr
    requires m.size == bs[k - 1].size + HEADER + bs[k].size + HEADER + bs[k + 1].size
    ensures Laid(bs[..k - 1] + [m] + bs[k + 2..], owned)
  {
    hide Laid, Side, Held, Block.Holds;
    var p, a, n := bs[k - 1], bs[k], bs[k + 1];
    LaidIsAligned(bs, owned);
    SizesAligned(bs, k);
    SideBySide(p, a, n, m);
    forall i
      ensures m.Holds(i) <==> Held(bs[k - 1..k + 2], i)
    {
      HeldByThree(bs[k - 1..k + 2], i);
    }
    ReplaceLaid(bs, k - 1, k + 2, m, owned);
  }

  lemma LaidIsAligned(bs: seq<Block>, owned: iset<int>)
    requires Laid(bs, owned)
    ensures Positive(bs) && Aligned(bs)
  {
  }

  lemma SizesAligned(bs: seq<Block>, k: nat)
    requires Positive(bs) && Aligned(bs) && 0 < k < |bs| - 1
    ensures bs[k - 1].addr > 0 && bs[k - 1].addr % ALIGN == 0
    ensures (bs[k - 1].size + HEADER + bs[k].size + HEADER + bs[k + 1].size) % ALIGN == 0
  {
  }

  lemma SideBySide(p: Block, a: Block, n: Block, m: Block)
    requires Side(p, a, n) && m.addr == p.addr && m.size == p.size + HEADER + a.size + HEADER + n.size
    ensures forall i :: m.Holds(i) <==> p.Holds(i) || a.Holds(i) || n.Holds(i)
  {
  }

  lemma HeldByThree(three: seq<Block>, i: int)
    requires |three| == 3
    ensures Held(three, i) <==> three[0].Holds(i) || three[1].Holds(i) || three[2].Holds(i)
  {
  }

  lemma OneForThree(bs: seq<Block>, k: nat, m: Block, owned: iset<int>)
    requires Laid(bs, owned) && 0 < k < |bs| - 1 && Laid(bs[..k - 1] + [m] + bs[k + 2..], owned)
    requires m.addr == bs[k - 1].addr
    requires m.size == bs[k - 1].size + HEADER + bs[k].size + HEADER + bs[k + 1].size
    ensures Side(bs[k - 1], bs[k], bs[k + 1])
  {
    var p, a, n := bs[k - 1], bs[k], bs[k + 1];
    assert p.Misses(a) && p.Misses(n) && a.Misses(n);
    TakenUp(bs, k - 1, k + 2, m, owned, k);
    TakenUp(bs, k - 1, k + 2, m, owned, k + 1);
  }

  lemma CoalescedLive(bs: seq<Block>, k: nat)
    requires k < |bs| && bs[k].free
    ensures Live(Coalesced(bs, k)) == Live(bs)
    ensures Joins(bs, k) ==>
      exists b :: b in Coalesced(bs, k) && b.free && b.addr <= bs[k].addr && bs[k].Limit() <= b.Limit()
  {
    hide Live;
    var c := if k + 1 < |bs| && bs[k + 1].free then Merge(bs, k) else bs;
    if k + 1 < |bs| && bs[k + 1].free { MergeKeepsLive(bs, k); }
    assert c[k].free && c[k].addr == bs[k].addr && bs[k].Limit() <= c[k].Limit();
    if k > 0 && c[k - 1].free {
      MergeKeepsLive(c, k - 1);
      assert Merge(c, k - 1)[k - 1] in Coalesced(bs, k);
    } else {
      assert c[k] in Coalesced(bs, k);
    }
  }

  lemma MarkLaid(bs: seq<Block>, k: nat, free: bool, owned: iset<int>)
    requires Laid(bs, owned) && k < |bs|
    ensures Laid(Marked(bs, k, free), owned) && (AllFollow(Marked(bs, k, free)) <==> AllFollow(bs))
  {
    var t := Marked(bs, k, free);
    forall i
      ensures Held(bs, i) <==> Held(t, i)
    {
      assert forall j :: 0 <= j < |bs| ==> (bs[j].Holds(i) <==> t[j].Holds(i));
    }
    forall i | 0 < i < |t|
      ensures Follows(t, i) <==> Follows(bs, i)
    {
    }
  }

  lemma MarkLive(bs: seq<Block>, k: nat, free: bool)
    requires k < |bs|
    ensures Live(Marked(bs, k, free)) == LiveExcept(bs, k) + if free then {} else {bs[k].(free := false)}
  {
    var t := Marked(bs, k, free);
    assert t[k] == bs[k].(free := free);
    assert forall i :: 0 <= i < |bs| && i != k ==> t[i] == bs[i];
  }

  /** The bytes of a region. */
  ghost function BytesOf(b: Block): iset<int> {
    iset i | b.Holds(i)
  }

  /** A region of new bytes becomes one more block, wherever it lies; it leaves the blocks side by side exactly when it
      starts where they end. */
  lemma AppendLaid(bs: seq<Block>, b: Block, owned: iset<int>)
    requires Laid(bs, owned) && BytesOf(b) !! owned && b.addr > 0 && b.addr % ALIGN == 0 && b.size % ALIGN == 0
    ensures Laid(bs + [b], owned + BytesOf(b))
    ensures AllFollow(bs + [b]) <==> AllFollow(bs) && b.addr == bs[|bs| - 1].Limit()
    ensures b.free ==> Live(bs + [b]) == Live(bs)
  {
    var t := bs + [b];
    forall i | 0 <= i < |bs|
      ensures bs[i].Misses(b)
    {
      var x := if bs[i].addr < b.addr then b.addr else bs[i].addr;
      assert bs[i].Holds(x) ==> Held(bs, x) && x !in BytesOf(b);
    }
    forall i
      ensures Held(t, i) <==> Held(bs, i) || b.Holds(i)
    {
      if j :| 0 <= j < |bs| && bs[j].Holds(i) { assert t[j].Holds(i); }
      if b.Holds(i) { assert t[|bs|].Holds(i); }
    }
    AppendFollows(bs, b);
    assert forall i :: 0 <= i < |bs| ==> t[i] == bs[i];
  }

  lemma AppendFollows(bs: seq<Block>, b: Block)
    requires |bs| > 0
    ensures AllFollow(bs + [b]) <==> AllFollow(bs) && b.addr == bs[|bs| - 1].Limit()
  {
    var t := bs + [b];
    forall i | 0 < i < |bs|
      ensures Follows(t, i) <==> Follows(bs, i)
    {
    }
    assert AllFollow(t) ==> Follows(t, |bs|);
  }

  // ---- Seams: where a region ends and the next one does not start ----

  /** Of two list neighbours that are no neighbours in memory one is allocated. */
  ghost predicate SeamsHeld(bs: seq<Block>) {
    forall k :: 0 < k < |bs| ==> SeamHeld(bs, k)
  }

  predicate SeamHeld(bs: seq<Block>, k: nat)
    requires 0 < k < |bs|
  {
    Follows(bs, k) || !bs[k - 1].free || !bs[k].free
  }

  /** Taking a block holds its seams. */
  lemma TakeHoldsSeams(bs: seq<Block>, k: nat, size: nat)
    requires k < |bs| && bs[k].free && forall j :: 0 < j < |bs| && j != k ==> SeamHeld(bs, j)
    ensures k < |SplitAt(bs, k, size)| && SeamsHeld(Marked(SplitAt(bs, k, size), k, false))
  {
    var t := Marked(SplitAt(bs, k, size), k, false);
    if Fits(bs[k], size) {
      forall j | 0 < j < |t|
        ensures SeamHeld(t, j)
      {
        assert j < k ==> SeamHeld(bs, j);
        assert j > k + 1 ==> SeamHeld(bs, j - 1);
      }
    } else {
      forall j | 0 < j < |t|
        ensures SeamHeld(t, j)
      {
        assert j != k ==> SeamHeld(bs, j);
      }
    }
  }

  /** So does giving one back, unless a merge jumps. */
  lemma FreeHoldsSeams(bs: seq<Block>, k: nat)
    requires k < |bs| && SeamsHeld(bs) && Joins(Marked(bs, k, true), k)
    ensures SeamsHeld(Coalesced(Marked(bs, k, true), k))
  {
    var t := Marked(bs, k, true);
    assert forall j :: 0 < j < |t| && j != k && j != k + 1 ==> SeamHeld(bs, j) && (SeamHeld(bs, j) <==> SeamHeld(t, j));
    forall j | 0 < j < |t|
      ensures SeamHeld(t, j)
    {
    }
    var c := if k + 1 < |t| && t[k + 1].free then Merge(t, k) else t;
    if k + 1 < |t| && t[k + 1].free { MergeHoldsSeams(t, k); }
    if k > 0 && c[k - 1].free { MergeHoldsSeams(c, k - 1); }
  }

  lemma MergeHoldsSeams(bs: seq<Block>, k: nat)
    requires k + 1 < |bs| && SeamsHeld(bs) && Follows(bs, k + 1) && bs[k].free && bs[k + 1].free
    ensures SeamsHeld(Merge(bs, k))
  {
    var t := Merge(bs, k);
    forall j | 0 < j < |t|
      ensures SeamHeld(t, j)
    {
      assert SeamHeld(bs, if j <= k then j else j + 1);
    }
  }

  /** With everything given back and all seams held there is no seam. */
  lemma NoSeamsLeft(bs: seq<Block>)
    requires SeamsHeld(bs) && Live(bs) == {}
    ensures AllFollow(bs)
  {
    assert forall k :: 0 <= k < |bs| && !bs[k].free ==> bs[k] in Live(bs);
    forall k | 0 < k < |bs|
      ensures Follows(bs, k)
    {
      assert SeamHeld(bs, k);
    }
  }

  // ---- Sizes ----

  lemma {:induction false} TotalConcat(a: seq<Block>, b: seq<Block>)
    ensures Total(a + b) == Total(a) + Total(b)
    decreases |b|
  {
    if b == [] {
      assert a + b == a;
    } else {
      var n := |b| - 1;
      assert (a + b)[..|a + b| - 1] == a + b[..n];
      TotalConcat(a, b[..n]);
    }
  }

  lemma TotalReplace(bs: seq<Block>, i: nat, j: nat, middle: seq<Block>)
    requires i <= j <= |bs|
    ensures Total(bs[..i] + middle + bs[j..]) == Total(bs) - Total(bs[i..j]) + Total(middle)
  {
    hide Total;
    assert bs == bs[..i] + bs[i..j] + bs[j..];
    TotalConcat(bs[..i] + bs[i..j], bs[j..]);
    TotalConcat(bs[..i], bs[i..j]);
    TotalConcat(bs[..i] + middle, bs[j..]);
    TotalConcat(bs[..i], middle);
  }

  lemma TotalOfFew(a: Block, b: Block)
    ensures Total([a]) == HEADER + a.size && Total([a, b]) == 2 * HEADER + a.size + b.size
  {
    assert [a][..0] == [] && [a, b][..1] == [a];
  }

  lemma SplitParts(bs: seq<Block>, k: nat, size: nat) returns (head: Block, tail: Block)
    requires k < |bs| && Fits(bs[k], size)
    ensures SplitAt(bs, k, size) == bs[..k] + [head, tail] + bs[k + 1..]
    ensures head.size + HEADER + tail.size == bs[k].size
  {
    var b := bs[k];
    head, tail := Block(b.addr, size, b.free), Block(b.addr + HEADER + size, b.size - size - HEADER, true);
  }

  lemma SplitTotal(bs: seq<Block>, k: nat, size: nat)
    requires k < |bs|
    ensures Total(SplitAt(bs, k, size)) == Total(bs)
  {
    if Fits(bs[k], size) { SplitFitTotal(bs, k, size); }
  }

  lemma SplitFitTotal(bs: seq<Block>, k: nat, size: nat)
    requires k < |bs| && Fits(bs[k], size)
    ensures Total(SplitAt(bs, k, size)) == Total(bs)
  {
    hide Total, SplitAt;
    var head, tail := SplitParts(bs, k, size);
    TotalReplace(bs, k, k + 1, [head, tail]);
    assert bs[k..k + 1] == [bs[k]];
    TotalOfFew(bs[k], tail);
    TotalOfFew(head, tail);
  }

  lemma MergeTotal(bs: seq<Block>, k: nat)
    requires k + 1 < |bs|
    ensures Total(Merge(bs, k)) == Total(bs)
  {
    hide Total;
    var m := Block(bs[k].addr, bs[k].size + HEADER + bs[k + 1].size, bs[k].free);
    TotalReplace(bs, k, k + 2, [m]);
    assert bs[k..k + 2] == [bs[k], bs[k + 1]];
    TotalOfFew(bs[k], bs[k + 1]);
    TotalOfFew(m, m);
  }

  lemma MarkTotal(bs: seq<Block>, k: nat, free: bool)
    requires k < |bs|
    ensures Total(Marked(bs, k, free)) == Total(bs)
  {
    hide Total;
    var b := bs[k].(free := free);
    TotalReplace(bs, k, k + 1, [b]);
    assert bs[k..k + 1] == [bs[k]] && Marked(bs, k, free) == bs[..k] + [b] + bs[k + 1..];
    TotalOfFew(bs[k], b);
    TotalOfFew(b, b);
  }

  lemma AppendTotal(bs: seq<Block>, b: Block)
    ensures Total(bs + [b]) == Total(bs) + HEADER + b.size
  {
    assert (bs + [b])[..|bs|] == bs;
  }

  lemma MergeLength(bs: seq<Block>, k: nat)
    ensures k + 1 < |bs| ==> |Merge(bs, k)| == |bs| - 1
  {
  }
}
