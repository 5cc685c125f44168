/** Kernel/Source/Elf.c: building the address space of a new task from an ELF file. */
module ElfLoader {
  import opened Bytes
  import opened PageTree
  import opened Paging
  import opened UserCopy
  import opened ElfFormat

  datatype LoadStatus = Loaded | Incorrect | OutOfMemory | IoError

  /** The byte at v of an address space, if there is one, with the permissions of its page. */
  function Sees(t: Tables, ram: int -> Byte, root: nat, v: nat): Option<Cell> {
    match Translate(t, root, v)
    case None => None
    case Some(p) => Some(Cell(ram(p), LeafEntry(t, root, v).writable, LeafEntry(t, root, v).noExec))
  }

  /** The user gets through to everything mapped in the user half. */
  ghost predicate UserOpen(t: Tables, root: nat) {
    forall v: nat :: v < USER_END && Translate(t, root, v).Some? ==>
      LeafEntry(t, root, v).user && UserTables(t, root, 4, v)
  }

  /** An address space under construction. */
  ghost predicate Building(m: Memory, root: nat)
    reads m
  {
    && m.Valid() && IsRoot(m.T, m.W, root) && root != m.KernelRoot && Owned(m.T, m.W, root)
    && UserOpen(m.T, root)
  }

  lemma PageOfFrame(t: Tables, root: nat, va: nat, frame: nat)
    requires va % PAGE_SIZE == 0 && Translate(t, root, va) == Some(frame * PAGE_SIZE + va % PAGE_SIZE)
    ensures forall b: nat :: va <= b < va + PAGE_SIZE ==> Translate(t, root, b) == Some(frame * PAGE_SIZE + (b - va))
  {
    forall b: nat | va <= b < va + PAGE_SIZE
      ensures Translate(t, root, b) == Some(frame * PAGE_SIZE + (b - va))
    {
      PageIsContiguous(t, root, 4, va, b - va);
    }
  }

  /** What the address space under construction may still use or give back. A page mapped over is lost to it. */
  twostate predicate PoolKept(m: Memory, root: nat)
    reads m
  {
    m.Pool(root) <= old(m.Pool(root)) && m.OthersKept(root) && m.RamKept(old(m.Pool(root)))
  }

  /** The user sees nothing in [lo, hi). */
  ghost predicate Unseen(t: Tables, ram: int -> Byte, root: nat, lo: nat, hi: nat) {
    forall v: nat :: lo <= v < hi ==> Sees(t, ram, root, v) == None
  }

  /** ElfAllocPage: a zeroed page at va. A page that was mapped there is lost. */
  method AllocPage(m: Memory, root: nat, va: nat, flags: Flags) returns (ok: bool, frame: nat)
    requires Building(m, root) && va % PAGE_SIZE == 0 && va + PAGE_SIZE <= USER_END
    modifies m`T, m`Free, m`W, m`Ram, m`Refusals
    ensures Building(m, root) && PoolKept(m, root)
    ensures m.Pool(root) == old(m.Pool(root)) <==> !ok || old(Sees(m.T, m.Ram, root, va)) == None
    ensures ok ==> frame in m.Pool(root)
    ensures ok <==> m.Refusals == old(m.Refusals)
    ensures m.Refusals >= old(m.Refusals)
    ensures forall b: nat :: b < USER_END ==>
      Sees(m.T, m.Ram, root, b) ==
        if ok && va <= b < va + PAGE_SIZE then Some(Cell(0, flags.writable, flags.noExec))
        else old(Sees(m.T, m.Ram, root, b))
    ensures ok ==> forall b: nat :: va <= b < va + PAGE_SIZE ==>
      Translate(m.T, root, b) == Some(frame * PAGE_SIZE + (b - va))
    ensures ok ==> forall b: nat :: b < USER_END && !(va <= b < va + PAGE_SIZE) && Translate(m.T, root, b).Some? ==>
      Translate(m.T, root, b).value / PAGE_SIZE != frame
  {
    hide WellFormed, Homed, Owned, Walk, SamePage, Frames, SameAccess, Leaf, LeafEntry, UserTables;
    m.MappedAreNotFree(root);
    MappedHaveTables(m, root);
    PageMembers(va);
    var status;
    ghost var t := m.T;
    status, frame := m.MapFreshPage(root, va, flags);
    ok := status == Success;
    AccessKept(t, m.T, root);
    if ok {
      PageOfFrame(m.T, root, va, frame);
      m.MappedAreOwned(root);
    }
  }

  /** Mapped user addresses of an owned root have level-1 tables. */
  lemma MappedHaveTables(m: Memory, root: nat)
    requires m.Valid() && Owned(m.T, m.W, root)
    ensures forall b: nat :: b < USER_END && Translate(m.T, root, b).Some? ==> Leaf(m.T, root, 4, b).Some?
  {
    hide Walk, Leaf;
    forall b: nat | b < USER_END && Translate(m.T, root, b).Some?
      ensures Leaf(m.T, root, 4, b).Some?
    {
      UserIndex(b);
      OwnedTranslation(m.T, m.W, m.Free, m.KernelRoot, root, b);
    }
  }

  lemma AccessKept(t: Tables, t': Tables, root: nat)
    ensures forall b: nat :: SameAccess(t, t', root, b) && Leaf(t, root, 4, b).Some? ==>
      LeafEntry(t', root, b) == LeafEntry(t, root, b)
      && (UserTables(t, root, 4, b) ==> UserTables(t', root, 4, b))
  {
    hide Leaf, LeafEntry, UserTables;
  }

  /** The part of a zeroed page that comes from the file. */
  method CopyIn(m: Memory, root: nat, va: nat, frame: nat, off: nat, piece: seq<Byte>)
    requires Building(m, root) && va % PAGE_SIZE == 0 && va + PAGE_SIZE <= USER_END && off + |piece| <= PAGE_SIZE
    requires frame in m.Pool(root)
    requires forall b: nat :: va <= b < va + PAGE_SIZE ==> Translate(m.T, root, b) == Some(frame * PAGE_SIZE + (b - va))
    requires forall b: nat :: b < USER_END && !(va <= b < va + PAGE_SIZE) && Translate(m.T, root, b).Some? ==>
      Translate(m.T, root, b).value / PAGE_SIZE != frame
    modifies m`Ram
    ensures Building(m, root) && m.RamKept(m.Pool(root))
    ensures forall b: nat :: b < USER_END ==>
      Sees(m.T, m.Ram, root, b) ==
        if va <= b < va + PAGE_SIZE && off <= b - va < off + |piece|
          then Stored(old(Sees(m.T, m.Ram, root, b)), piece[b - va - off])
          else old(Sees(m.T, m.Ram, root, b))
  {
    hide WellFormed, Homed, Owned, Walk, Frames, LeafEntry, UserTables;
    var c, dst := m.Ram, frame * PAGE_SIZE + off;
    m.Ram := i => Overwritten(c, dst, piece, i);
    FrameOfByte(frame, off + |piece|);
    forall b: nat | b < USER_END
      ensures Sees(m.T, m.Ram, root, b) ==
        if va <= b < va + PAGE_SIZE && off <= b - va < off + |piece|
          then Stored(Sees(m.T, c, root, b), piece[b - va - off])
          else Sees(m.T, c, root, b)
    {
    }
  }

  /** Addresses in other frames are outside the part of this one that is written. */
  lemma FrameOfByte(frame: nat, n: nat)
    requires n <= PAGE_SIZE
    ensures forall p :: p / PAGE_SIZE != frame ==> !(frame * PAGE_SIZE <= p < frame * PAGE_SIZE + n)
  {
  }

  function SegFlags(ph: Phdr): Flags {
    var writable, exec := ph.pFlags / 2 % 2 == 1, ph.pFlags % 2 == 1;
    Flags(writable, true, !exec)
  }

  /** Nothing is mapped yet at the user pages of the segment. */
  ghost predicate Fresh(m: Memory, root: nat, ph: Phdr)
    reads m
  {
    forall v: nat :: v < USER_END && InSeg(ph, v) ==> Sees(m.T, m.Ram, root, v) == None
  }

  lemma SegPages(ph: Phdr)
    requires Loads(ph)
    ensures SegStart(ph) % PAGE_SIZE == 0 && SegEnd(ph) % PAGE_SIZE == 0
    ensures forall v: nat :: InSeg(ph, v) <==> SegStart(ph) <= v < SegEnd(ph)
  {
    hide Low64;
  }

  /** One turn of the loop of ElfMapSegment. */
  method MapSegmentPage(m: Memory, root: nat, va: nat, ph: Phdr, image: Source) returns (ok: bool)
    requires Building(m, root) && va % PAGE_SIZE == 0 && va + PAGE_SIZE <= USER_END
    modifies m`T, m`Free, m`W, m`Ram, m`Refusals
    ensures (ok <==> m.Refusals == old(m.Refusals)) && m.Refusals >= old(m.Refusals)
    ensures Building(m, root) && PoolKept(m, root)
    ensures m.Pool(root) == old(m.Pool(root)) <==> !ok || old(Sees(m.T, m.Ram, root, va)) == None
    ensures ok ==> forall v: nat :: v < USER_END ==>
      Sees(m.T, m.Ram, root, v) == if va <= v < va + PAGE_SIZE then Some(SegCell(image, ph, v))
        else old(Sees(m.T, m.Ram, root, v))
  {
    hide WellFormed, Homed, Owned, Sees, Frames, SegByte, CopyStart, CopyEnd;
    PageImage(image, ph, va);
    var dst;
    ok, dst := AllocPage(m, root, va, SegFlags(ph));
    if !ok { return; }
    var copyStart, copyEnd := CopyStart(ph, va), CopyEnd(ph, va);
    if copyStart < copyEnd {
      var src: nat := ph.pOffset + (copyStart - ph.pVaddr);
      var piece := seq<Byte>(copyEnd - copyStart, (k: nat) => image.At(src + k));
      CopyIn(m, root, va, dst, copyStart - va, piece);
    }
  }

  /** ElfMapSegment: on success the pages of the segment hold its image. Nothing is lost exactly if nothing was mapped
      there. */
  method MapSegment(m: Memory, root: nat, ph: Phdr, image: Source) returns (status: LoadStatus)
    requires Building(m, root)
    modifies m`T, m`Free, m`W, m`Ram, m`Refusals
    ensures Building(m, root) && PoolKept(m, root)
    ensures status == Loaded || status == Incorrect || status == OutOfMemory
    ensures (status == OutOfMemory <==> m.Refusals > old(m.Refusals)) && m.Refusals >= old(m.Refusals)
    ensures status == Incorrect <==> Loads(ph) && !GoodInImage(ph, |image.bytes|)
    ensures old(Fresh(m, root, ph)) ==> m.Pool(root) == old(m.Pool(root))
    ensures status == Loaded ==> (m.Pool(root) == old(m.Pool(root)) <==> old(Fresh(m, root, ph)))
    ensures status == Loaded ==> forall v: nat :: v < USER_END ==>
      Sees(m.T, m.Ram, root, v) == if InSeg(ph, v) then Some(SegCell(image, ph, v)) else old(Sees(m.T, m.Ram, root, v))
  {
    hide WellFormed, Homed, Owned, Sees, Frames, SegByte, SegStart, SegEnd, InSeg, Unseen, GoodInImage, Low64;
    hide SameAccess;
    AccessOfSame(m.T);
    GoodIsBelow(ph, |image.bytes|);
    OnlyLoadedHavePages(ph);
    if ph.pType != PT_LOAD { return Loaded; }
    if ph.pMemsz == 0 { return Loaded; }
    SegPages(ph);
    if ph.pFilesz > ph.pMemsz { return Incorrect; }
    if Low64(ph.pOffset + ph.pFilesz) > |image.bytes| { return Incorrect; }
    if ph.pVaddr < USER_CODE_VADDR { return Incorrect; }
    if Low64(ph.pVaddr + ph.pMemsz) >= USER_STACK_TOP { return Incorrect; }
    if Low64(ph.pVaddr + ph.pMemsz) < ph.pVaddr { return Incorrect; }
    var segStart, segEnd := SegStart(ph), SegEnd(ph);
    if segEnd <= segStart { return Incorrect; }
    FreshIsUnseen(m, root, ph);
    var va := segStart;
    while va < segEnd
      invariant segStart <= va <= segEnd && va % PAGE_SIZE == 0 && m.Refusals == old(m.Refusals)
      invariant Building(m, root) && PoolKept(m, root)
      invariant m.Pool(root) == old(m.Pool(root)) <==> old(Unseen(m.T, m.Ram, root, segStart, va))
      invariant forall v: nat :: v < USER_END ==>
        Sees(m.T, m.Ram, root, v) == if segStart <= v < va then Some(SegCell(image, ph, v))
          else old(Sees(m.T, m.Ram, root, v))
      decreases segEnd - va
    {
      NextPage(va, segEnd);
      UnseenNext(old(m.T), old(m.Ram), root, segStart, va);
      UnseenLess(old(m.T), old(m.Ram), root, segStart, va + PAGE_SIZE, segEnd);
      ghost var t := m.T;
      var ok := MapSegmentPage(m, root, va, ph, image);
      AccessChain(old(m.T), t, m.T);
      if !ok { return OutOfMemory; }
      va := va + PAGE_SIZE;
    }
    return Loaded;
  }

  lemma GoodIsBelow(ph: Phdr, size: nat)
    ensures GoodInImage(ph, size) <==>
      && ph.pFilesz <= ph.pMemsz && Low64(ph.pOffset + ph.pFilesz) <= size
      && USER_CODE_VADDR <= ph.pVaddr <= Low64(ph.pVaddr + ph.pMemsz) < USER_STACK_TOP
    ensures Loads(ph) && GoodInImage(ph, size) ==> SegStart(ph) < SegEnd(ph)
    ensures Low64(ph.pVaddr + ph.pMemsz) < USER_STACK_TOP ==> SegEnd(ph) <= USER_STACK_TOP
    ensures GoodInImage(ph, size) || GoodInFile(ph, size) ==> SegEnd(ph) <= USER_STACK_TOP
  {
    hide Low64;
    Wraps(ph.pVaddr, ph.pMemsz);
    var end := Low64(ph.pVaddr + ph.pMemsz);
    if end < USER_STACK_TOP {
      Wraps(end, PAGE_SIZE - 1);
      UpToPage(end);
    }
  }

  lemma UpToPage(end: nat)
    requires end < USER_STACK_TOP
    ensures end <= AlignDown(end + PAGE_SIZE - 1, PAGE_SIZE) <= USER_STACK_TOP
  {
  }

  lemma UnseenNext(t: Tables, ram: int -> Byte, root: nat, lo: nat, va: nat)
    requires lo <= va && va % PAGE_SIZE == 0
    ensures Unseen(t, ram, root, lo, va + PAGE_SIZE) <==> Unseen(t, ram, root, lo, va) && Sees(t, ram, root, va) == None
  {
    hide Walk;
    forall v: nat | va <= v < va + PAGE_SIZE
      ensures Sees(t, ram, root, v) == None <==> Sees(t, ram, root, va) == None
    {
      PageIsContiguous(t, root, 4, va, v - va);
    }
  }

  lemma UnseenLess(t: Tables, ram: int -> Byte, root: nat, lo: nat, mid: nat, hi: nat)
    requires mid <= hi
    ensures Unseen(t, ram, root, lo, hi) ==> Unseen(t, ram, root, lo, mid)
  {
  }

  lemma FreshIsUnseen(m: Memory, root: nat, ph: Phdr)
    requires Loads(ph) && SegEnd(ph) <= USER_END
    ensures Fresh(m, root, ph) <==> Unseen(m.T, m.Ram, root, SegStart(ph), SegEnd(ph))
    ensures Unseen(m.T, m.Ram, root, SegStart(ph), SegStart(ph))
  {
    hide Sees;
  }

  lemma OnlyLoadedHavePages(ph: Phdr)
    ensures !Loads(ph) ==> forall v: nat :: !InSeg(ph, v)
  {
  }

  lemma NextPage(va: nat, end: nat)
    requires va % PAGE_SIZE == 0 && end % PAGE_SIZE == 0 && va < end
    ensures va + PAGE_SIZE <= end && (va + PAGE_SIZE) % PAGE_SIZE == 0
  {
  }

  // ---- The stack of the new task ----

  /** Some address from lo up to the stack top is not mapped, or to physical address 0. */
  ghost predicate NotAllMapped(t: Tables, root: nat, lo: nat) {
    exists v: nat :: lo <= v < USER_STACK_TOP && Place(t, root, v) == 0
  }

  lemma NotAllMappedBelow(t: Tables, root: nat, lo: nat, hi: nat)
    requires lo <= hi
    ensures NotAllMapped(t, root, hi) ==> NotAllMapped(t, root, lo)
  {
  }

  /** A store into mapped user memory, seen by the user. */
  method Push(m: Memory, root: nat, at: nat, bytes: seq<Byte>, ghost base: nat -> Option<Cell>, ghost ws: seq<Store>)
    returns (ok: bool)
    requires Building(m, root) && at + |bytes| <= USER_STACK_TOP && bytes != []
    requires forall v: nat :: v < USER_END ==> Sees(m.T, m.Ram, root, v) == Overlay(base, ws, v)
    modifies m`Ram
    ensures Building(m, root) && m.RamKept(m.Pool(root))
    ensures !ok ==> NotAllMapped(m.T, root, at)
    ensures ok ==> forall v: nat :: v < USER_END ==>
      Sees(m.T, m.Ram, root, v) == Overlay(base, ws + [Store(at, bytes)], v)
  {
    hide WellFormed, Homed, Owned, Walk, Place, Injective, Reachable;
    ghost var before := m.Ram;
    m.MappedAreOwned(root);
    var status, done := CopyToUser(m, root, at, bytes);
    WrittenInPool(m, root, at, bytes, done, before);
    ok := status == Success;
    assert !ok ==> Place(m.T, root, at + done) == 0;
    if ok {
      OwnedIsInjective(m, root, at, |bytes|);
      assert (ws + [Store(at, bytes)])[..|ws|] == ws;
      forall v: nat | v < USER_END
        ensures Sees(m.T, m.Ram, root, v) ==
          if at <= v < at + |bytes| then Stored(Sees(m.T, before, root, v), bytes[v - at])
          else Sees(m.T, before, root, v)
      {
        SeenAfterCopy(m, root, at, bytes, before, v);
      }
    }
  }

  lemma WrittenInPool(m: Memory, root: nat, at: nat, bytes: seq<Byte>, done: nat, before: int -> Byte)
    requires at + |bytes| <= USER_STACK_TOP && done <= |bytes| && Written(m.T, root, at, bytes, done, before, m.Ram)
    requires Reachable(m.T, root, at, done)
    requires forall b: nat :: b < USER_END && Translate(m.T, root, b).Some? ==>
      Translate(m.T, root, b).value / PAGE_SIZE in m.Pool(root)
    ensures forall i :: i / PAGE_SIZE !in m.Pool(root) ==> m.Ram(i) == before(i)
  {
    hide Translate;
    forall i | i / PAGE_SIZE !in m.Pool(root)
      ensures m.Ram(i) == before(i)
    {
      assert Outside(m.T, root, at, done, i);
    }
  }

  lemma SeenAfterCopy(m: Memory, root: nat, at: nat, bytes: seq<Byte>, before: int -> Byte, v: nat)
    requires Building(m, root) && at + |bytes| <= USER_STACK_TOP && v < USER_END
    requires Reachable(m.T, root, at, |bytes|) && Injective(m.T, root, at, |bytes|)
    requires Written(m.T, root, at, bytes, |bytes|, before, m.Ram)
    ensures Sees(m.T, m.Ram, root, v) ==
      if at <= v < at + |bytes| then Stored(Sees(m.T, before, root, v), bytes[v - at]) else Sees(m.T, before, root, v)
  {
    hide WellFormed, Homed, Owned, Walk, Injective;
    if at <= v < at + |bytes| {
      assert Place(m.T, root, v) != 0 && m.Ram(Place(m.T, root, v)) == bytes[v - at];
    } else if Translate(m.T, root, v).Some? {
      forall a | at <= a < at + |bytes|
        ensures Place(m.T, root, a) != Translate(m.T, root, v).value
      {
        if Place(m.T, root, a) == Translate(m.T, root, v).value {
          SamePlaceSameByte(m, root, v, a);
        }
      }
      assert Outside(m.T, root, at, |bytes|, Translate(m.T, root, v).value);
    }
  }

  /** The argument vector after the limits on its length. */
  function Limited(args: seq<seq<Byte>>, argc: int): seq<seq<Byte>>
    requires argc <= |args|
  {
    if argc < 0 then [] else if argc > 32 then args[..32] else args[..argc]
  }

  /** The mapped stack, all zero, over the memory below. */
  function StackOver(below: nat -> Option<Cell>): nat -> Option<Cell> {
    (v: nat) => if STACK_BASE <= v < USER_STACK_TOP then Some(Cell(0, true, true)) else below(v)
  }

  /** The strings of ElfSetupStack, copied from the last one down. */
  method PushStrings(m: Memory, root: nat, argv: seq<seq<Byte>>, ghost base: nat -> Option<Cell>)
    returns (ok: bool, sp: nat, ptrs: seq<nat>)
    requires Building(m, root) && StackFits(argv) && forall v: nat :: v < USER_END ==>
      Sees(m.T, m.Ram, root, v) == base(v)
    modifies m`Ram
    ensures Building(m, root) && m.RamKept(m.Pool(root))
    ensures !ok ==> StackPointer(argv) >= 0 && NotAllMapped(m.T, root, StackPointer(argv))
    ensures ok ==> sp == PtrAt(argv, 0) && |ptrs| == |argv| && (forall i :: 0 <= i < |argv| ==> ptrs[i] == Ptr(argv, i))
    ensures ok ==> forall v: nat :: v < USER_END ==>
      Sees(m.T, m.Ram, root, v) == Overlay(base, StringStores(argv, 0), v)
  {
    hide WellFormed, Homed, Owned, Sees;
    sp, ptrs := USER_STACK_TOP, [];
    var i := |argv|;
    while i > 0
      invariant 0 <= i <= |argv| && Building(m, root) && m.RamKept(m.Pool(root)) && sp == PtrAt(argv, i)
      invariant |ptrs| == |argv| - i && forall k :: i <= k < |argv| ==> ptrs[k - i] == Ptr(argv, k)
      invariant forall v: nat :: v < USER_END ==> Sees(m.T, m.Ram, root, v) == Overlay(base, StringStores(argv, i), v)
    {
      i := i - 1;
      var len := |argv[i]| + 1;
      PtrsFit(argv, i);
      PtrsFit(argv, i + 1);
      sp := (sp - len) - (sp - len) % 16;
      ok := Push(m, root, sp, argv[i] + [0], base, StringStores(argv, i + 1));
      if !ok {
        PtrsFit(argv, 0);
        NotAllMappedBelow(m.T, root, StackPointer(argv), sp);
        return false, sp, ptrs;
      }
      ptrs := [sp] + ptrs;
    }
    ok := true;
  }

  /** The pointers of ElfSetupStack, NULL first. */
  method PushPointers(m: Memory, root: nat, argv: seq<seq<Byte>>, top: nat, ptrs: seq<nat>,
          ghost base: nat -> Option<Cell>)
    returns (ok: bool, sp: nat)
    requires Building(m, root) && StackFits(argv) && top == PtrAt(argv, 0)
    requires |ptrs| == |argv| && forall i :: 0 <= i < |argv| ==> ptrs[i] == Ptr(argv, i)
    requires forall v: nat :: v < USER_END ==> Sees(m.T, m.Ram, root, v) == Overlay(base, StringStores(argv, 0), v)
    modifies m`Ram
    ensures Building(m, root) && m.RamKept(m.Pool(root))
    ensures !ok ==> StackPointer(argv) >= 0 && NotAllMapped(m.T, root, StackPointer(argv))
    ensures ok ==> sp == PtrPlace(argv, 0)
    ensures ok ==> forall v: nat :: v < USER_END ==>
      Sees(m.T, m.Ram, root, v) == Overlay(base, StringStores(argv, 0) + PointerStores(argv, 0), v)
  {
    hide WellFormed, Homed, Owned, Sees, PtrAt, StringStores, Overlay, ToLe, NotAllMapped;
    var n := |argv|;
    PtrsFit(argv, 0);
    sp := top - 8;
    ok := Push(m, root, sp, ToLe(0, 8), base, StringStores(argv, 0));
    if !ok {
      NotAllMappedBelow(m.T, root, StackPointer(argv), sp);
      return;
    }
    assert PointerStores(argv, n) == [PointerStore(argv, n)];
    var i := n;
    while i > 0
      invariant 0 <= i <= n && Building(m, root) && m.RamKept(m.Pool(root)) && sp == PtrPlace(argv, i)
      invariant forall v: nat :: v < USER_END ==>
        Sees(m.T, m.Ram, root, v) == Overlay(base, StringStores(argv, 0) + PointerStores(argv, i), v)
    {
      i := i - 1;
      PtrsFit(argv, i);
      sp := sp - 8;
      ok := Push(m, root, sp, ToLe(ptrs[i], 8), base, StringStores(argv, 0) + PointerStores(argv, i + 1));
      if !ok {
        NotAllMappedBelow(m.T, root, StackPointer(argv), sp);
        return;
      }
      assert StringStores(argv, 0) + PointerStores(argv, i + 1) + [PointerStore(argv, i)]
        == StringStores(argv, 0) + PointerStores(argv, i);
    }
    ok := true;
  }

  lemma StackPages()
    ensures UserRange(STACK_BASE, USER_STACK_DEFAULT) && RoundUp(USER_STACK_DEFAULT) == USER_STACK_DEFAULT
    ensures STACK_BASE % PAGE_SIZE == 0
  {
  }

  lemma FramesSeen(t: Tables, ram: int -> Byte, root: nat, lo: nat, hi: nat)
    ensures FramesIn(t, root, lo, hi) == {} <==> Unseen(t, ram, root, lo, hi)
  {
    hide Walk;
    if v: nat :| lo <= v < hi && Translate(t, root, v).Some? {
      assert Translate(t, root, v).value / PAGE_SIZE in FramesIn(t, root, lo, hi);
      assert Sees(t, ram, root, v) != None;
    }
  }

  /** PagingMapAnonUser for the stack. */
  method MapStack(m: Memory, root: nat) returns (ok: bool)
    requires Building(m, root)
    modifies m`T, m`Free, m`W, m`Ram, m`Refusals
    ensures Building(m, root) && PoolKept(m, root)
    ensures (ok <==> m.Refusals == old(m.Refusals)) && m.Refusals >= old(m.Refusals)
    ensures old(Unseen(m.T, m.Ram, root, STACK_BASE, USER_STACK_TOP)) ==> m.Pool(root) == old(m.Pool(root))
    ensures ok ==> (m.Pool(root) == old(m.Pool(root)) <==> old(Unseen(m.T, m.Ram, root, STACK_BASE, USER_STACK_TOP)))
    ensures ok ==> forall v: nat :: v < USER_END ==>
      Sees(m.T, m.Ram, root, v) ==
        if STACK_BASE <= v < USER_STACK_TOP then Some(Cell(0, true, true)) else old(Sees(m.T, m.Ram, root, v))
  {
    hide WellFormed, Homed, Owned, Walk, Frames, Unseen, FramesIn, UserRange, RoundUp, SameAccess, Leaf, LeafEntry;
    hide UserTables;
    StackPages();
    m.MappedAreNotFree(root);
    MappedHaveTables(m, root);
    var status, done := m.MapAnonUser(root, STACK_BASE, USER_STACK_DEFAULT, Flags(true, true, true));
    AccessKept(old(m.T), m.T, root);
    forall v: nat | v < USER_END
      ensures Translate(m.T, root, v).Some? ==> LeafEntry(m.T, root, v).user && UserTables(m.T, root, 4, v)
      ensures status == Success ==>
        Sees(m.T, m.Ram, root, v) ==
          if STACK_BASE <= v < USER_STACK_TOP then Some(Cell(0, true, true)) else Sees(old(m.T), old(m.Ram), root, v)
    {
      if STACK_BASE <= v < STACK_BASE + done {
        assert Granted(m.T, root, v, true, true);
      } else {
        assert SameAccess(old(m.T), m.T, root, v);
      }
    }
    FramesSeen(old(m.T), old(m.Ram), root, STACK_BASE, STACK_BASE + done);
    UnseenLess(old(m.T), old(m.Ram), root, STACK_BASE, STACK_BASE + done, USER_STACK_TOP);
    ok := status == Success;
  }

  /** ElfSetupStack. 0 stands for failure. */
  method SetupStack(m: Memory, root: nat, argc: int, args: seq<seq<Byte>>, ghost below: nat -> Option<Cell>)
    returns (sp: nat)
    requires Building(m, root) && argc <= |args| && StackFits(Limited(args, argc))
    requires forall v: nat :: v < USER_END ==> Sees(m.T, m.Ram, root, v) == below(v)
    modifies m`T, m`Free, m`W, m`Ram, m`Refusals
    ensures Building(m, root) && PoolKept(m, root)
    ensures m.Refusals >= old(m.Refusals) && (m.Refusals > old(m.Refusals) ==> sp == 0)
    ensures sp == 0 && m.Refusals == old(m.Refusals) ==> !BlockFits(Limited(args, argc), old(m.Pool(root)))
    ensures old(Unseen(m.T, m.Ram, root, STACK_BASE, USER_STACK_TOP)) ==> m.Pool(root) == old(m.Pool(root))
    ensures sp != 0 ==>
      (m.Pool(root) == old(m.Pool(root)) <==> old(Unseen(m.T, m.Ram, root, STACK_BASE, USER_STACK_TOP)))
    ensures sp != 0 ==> sp == StackPointer(Limited(args, argc))
    ensures sp != 0 ==> forall v: nat :: v < USER_END ==>
      Sees(m.T, m.Ram, root, v) == Overlay(StackOver(below), StackStores(Limited(args, argc)), v)
  {
    hide WellFormed, Homed, Owned, Sees, PtrAt, StringStores, PointerStores, ToLe, Frames, Unseen, NotAllMapped;
    hide BlockFits;
    ghost var pool := m.Pool(root);
    var ok := MapStack(m, root);
    if !ok { return 0; }
    StackIsMapped(m, root, pool, Limited(args, argc));
    var n := argc;
    if n < 0 { n := 0; }
    if n > 32 { n := 32; }
    var argv := args[..n];
    assert argv == Limited(args, argc);
    ghost var base := StackOver(below);
    var top, ptrs;
    ok, top, ptrs := PushStrings(m, root, argv, base);
    if !ok { return 0; }
    ok, sp := PushPointers(m, root, argv, top, ptrs, base);
    if !ok { return 0; }
    PtrsFit(argv, 0);
    sp := sp - 8;
    ok := Push(m, root, sp, ToLe(n, 8), base, StringStores(argv, 0) + PointerStores(argv, 0));
    if !ok { return 0; }
  }

  /** The argument block fits in the stack, and no page of it can be at physical address 0. */
  predicate BlockFits(argv: seq<seq<Byte>>, pool: set<nat>) {
    STACK_BASE <= StackPointer(argv) && 0 !in pool
  }

  /** With the stack mapped, a block that fits is mapped. */
  lemma StackIsMapped(m: Memory, root: nat, pool: set<nat>, argv: seq<seq<Byte>>)
    requires Building(m, root) && m.Pool(root) <= pool && StackPointer(argv) >= 0
    requires forall v: nat :: STACK_BASE <= v < USER_STACK_TOP ==> Sees(m.T, m.Ram, root, v) != None
    ensures BlockFits(argv, pool) ==> !NotAllMapped(m.T, root, StackPointer(argv))
  {
    hide WellFormed, Homed, Owned, Walk, Frames;
    m.MappedAreOwned(root);
    if BlockFits(argv, pool) {
      forall v: nat | StackPointer(argv) <= v < USER_STACK_TOP
        ensures Place(m.T, root, v) != 0
      {
        assert Sees(m.T, m.Ram, root, v) != None;
        assert Translate(m.T, root, v).value / PAGE_SIZE in m.Pool(root);
      }
    }
  }

  // ---- The two loaders ----

  /** What a loaded file looks like from v: its segments, and the stack with the arguments. */
  ghost function TaskByte(file: Source, argv: seq<seq<Byte>>, v: nat): Option<Cell>
    requires IsValid(file.bytes, |file.bytes|) && StackFits(argv)
  {
    Overlay(StackOver(SegmentsOf(file)), StackStores(argv), v)
  }

  function SegmentsOf(file: Source): nat -> Option<Cell>
    requires IsValid(file.bytes, |file.bytes|)
  {
    var phs := Phdrs(file);
    (v: nat) => Image(file, phs, |phs|, v)
  }

  /** A finished load. */
  ghost predicate Ready(m: Memory, root: nat, file: Source, argv: seq<seq<Byte>>, entry: nat, sp: nat,
          heapStart: nat)
    reads m
  {
    && Building(m, root) && IsValid(file.bytes, |file.bytes|) && StackFits(argv)
    && entry == EEntry(file.bytes) && USER_CODE_VADDR <= entry < USER_STACK_TOP
    && heapStart == MaxEnd(Phdrs(file), |Phdrs(file)|) && sp == StackPointer(argv)
    && forall v: nat :: v < USER_END ==> Sees(m.T, m.Ram, root, v) == TaskByte(file, argv, v)
  }

  /** The user half of an address space as one function. */
  function UserView(t: Tables, ram: int -> Byte, root: nat): nat -> Option<Byte> {
    (v: nat) => if v < USER_END then ByteOf(Sees(t, ram, root, v)) else None
  }

  /** A loaded task finds its arguments: argc at the stack pointer, the pointers behind it, and an intact string
      with its NUL behind every pointer. */
  lemma ReadyTaskFindsItsArguments(m: Memory, root: nat, file: Source, argv: seq<seq<Byte>>, entry: nat, sp: nat,
          heapStart: nat)
    requires Ready(m, root, file, argv, entry, sp, heapStart)
    ensures StackBlock(UserView(m.T, m.Ram, root), sp, argv)
  {
    hide Building, IsValid, Overlay, StackStores, Sees;
    StoresMakeBlock(StackOver(SegmentsOf(file)), argv, UserView(m.T, m.Ram, root));
  }

  /** A loaded task sees its segments: where the last one on a page has file bytes those, zeros on the rest of its
      pages, and nothing anywhere else below the stack. */
  lemma ReadyTaskSeesItsSegments(m: Memory, root: nat, file: Source, argv: seq<seq<Byte>>, entry: nat, sp: nat,
          heapStart: nat, v: nat)
    requires Ready(m, root, file, argv, entry, sp, heapStart)
    requires v < STACK_BASE && v < sp
    ensures forall i :: 0 <= i < |Phdrs(file)| && LastOn(Phdrs(file), i, v) ==>
      Sees(m.T, m.Ram, root, v) == Some(SegCell(file, Phdrs(file)[i], v))
    ensures (forall i :: 0 <= i < |Phdrs(file)| ==> !InSeg(Phdrs(file)[i], v)) ==> Sees(m.T, m.Ram, root, v) == None
  {
    hide Building, IsValid, Sees, InSeg, Image, SegByte;
    ImageNone(file, Phdrs(file), |Phdrs(file)|, v);
    forall i | 0 <= i < |Phdrs(file)| && LastOn(Phdrs(file), i, v)
      ensures Image(file, Phdrs(file), |Phdrs(file)|, v) == Some(SegCell(file, Phdrs(file)[i], v))
    {
      ImageMeaning(file, Phdrs(file), |Phdrs(file)|, i, v);
    }
    StackStoresAreAbove(argv);
    BelowTheStores(StackOver(SegmentsOf(file)), StackStores(argv), sp, v);
  }

  /** Segment i is the last one on the page of v. */
  ghost predicate LastOn(phs: seq<Phdr>, i: nat, v: nat)
    requires i < |phs|
  {
    InSeg(phs[i], v) && forall j :: i < j < |phs| ==> !InSeg(phs[j], v)
  }

  lemma StackStoresAreAbove(argv: seq<seq<Byte>>)
    requires StackFits(argv)
    ensures Descending(StackStores(argv), StackPointer(argv))
  {
    PtrsFit(argv, 0);
    PointersDescend(argv, 0);
    DescendingMore(StringStores(argv, 0) + PointerStores(argv, 0), PtrPlace(argv, 0),
      Store(StackPointer(argv), ToLe(|argv|, 8)));
  }

  lemma {:induction false} BelowTheStores(base: nat -> Option<Cell>, ws: seq<Store>, x: int, v: nat)
    requires Descending(ws, x) && v < x
    ensures Overlay(base, ws, v) == base(v)
  {
    if ws != [] { BelowTheStores(base, ws[..|ws| - 1], x, v); }
  }

  /** The stack is clear of segments exactly where the image has nothing there. */
  lemma StackIsUnseen(m: Memory, root: nat, file: Source, phs: seq<Phdr>)
    requires forall v: nat :: v < USER_END ==> Sees(m.T, m.Ram, root, v) == Image(file, phs, |phs|, v)
    ensures Unseen(m.T, m.Ram, root, STACK_BASE, USER_STACK_TOP) <==> ClearOfStack(phs)
  {
    hide Sees, Image, InSeg;
    forall v: nat | STACK_BASE <= v < USER_STACK_TOP
      ensures Sees(m.T, m.Ram, root, v) == None <==> forall i :: 0 <= i < |phs| ==> !InSeg(phs[i], v)
    {
      assert v < USER_END;
      ImageNone(file, phs, |phs|, v);
    }
    if ClearOfStack(phs) {
      forall v: nat | STACK_BASE <= v < USER_STACK_TOP
        ensures Sees(m.T, m.Ram, root, v) == None
      {
        assert forall i :: 0 <= i < |phs| ==> !InSeg(phs[i], v);
      }
    }
    if Unseen(m.T, m.Ram, root, STACK_BASE, USER_STACK_TOP) {
      forall i, v: nat | 0 <= i < |phs| && STACK_BASE <= v < USER_STACK_TOP
        ensures !InSeg(phs[i], v)
      {
        assert Sees(m.T, m.Ram, root, v) == None;
      }
    }
  }

  /** Segments that end below the stack are clear of it. */
  lemma BelowIsClear(phs: seq<Phdr>)
    requires MaxEnd(phs, |phs|) <= STACK_BASE
    ensures ClearOfStack(phs)
  {
    hide InSeg;
    MaxEndBounds(phs, |phs|);
  }

  /** The next segment finds its pages free exactly if it shares none with the segments before it. */
  lemma FreshByImage(m: Memory, root: nat, file: Source, phs: seq<Phdr>, n: nat)
    requires n < |phs| && forall v: nat :: v < USER_END ==> Sees(m.T, m.Ram, root, v) == Image(file, phs, n, v)
    ensures PageDisjoint(phs[..n + 1]) ==> Fresh(m, root, phs[n]) && PageDisjoint(phs[..n])
    ensures Fresh(m, root, phs[n]) && PageDisjoint(phs[..n]) && (Loads(phs[n]) ==> SegEnd(phs[n]) <= USER_STACK_TOP) ==>
      PageDisjoint(phs[..n + 1])
  {
    hide PageDisjoint, Image, Sees, SegEnd, SegStart;
    OneMoreDisjoint(file, phs, n);
  }

  lemma DisjointPrefix(phs: seq<Phdr>, n: nat)
    requires n <= |phs|
    ensures PageDisjoint(phs) ==> PageDisjoint(phs[..n])
  {
    hide InSeg;
  }

  lemma ImageNext(file: Source, phs: seq<Phdr>, n: nat)
    requires n < |phs|
    ensures forall v: nat :: Image(file, phs, n + 1, v) == if InSeg(phs[n], v) then Some(SegCell(file, phs[n], v))
      else Image(file, phs, n, v)
  {
  }

  /** The address range ElfLoad computes before it builds anything. */
  method Range(phs: seq<Phdr>) returns (minVaddr: int, maxVaddr: nat, hasLoad: bool)
    ensures maxVaddr == MaxEnd(phs, |phs|)
    ensures hasLoad <==> exists i :: 0 <= i < |phs| && Loads(phs[i])
    ensures forall i :: 0 <= i < |phs| && Loads(phs[i]) ==> minVaddr <= SegStart(phs[i])
    ensures minVaddr < USER_CODE_VADDR ==> exists i :: 0 <= i < |phs| && Loads(phs[i]) && minVaddr == SegStart(phs[i])
  {
    minVaddr, maxVaddr, hasLoad := 0xFFFF_FFFF_FFFF_FFFF, 0, false;
    for i := 0 to |phs|
      invariant maxVaddr == MaxEnd(phs, i)
      invariant hasLoad <==> exists k :: 0 <= k < i && Loads(phs[k])
      invariant forall k :: 0 <= k < i && Loads(phs[k]) ==> minVaddr <= SegStart(phs[k])
      invariant minVaddr < USER_CODE_VADDR ==> exists k :: 0 <= k < i && Loads(phs[k]) && minVaddr == SegStart(phs[k])
    {
      var ph := phs[i];
      if ph.pType != PT_LOAD { continue; }
      if ph.pMemsz == 0 { continue; }
      hasLoad := true;
      var start, end := SegStart(ph), SegEnd(ph);
      if start < minVaddr { minVaddr := start; }
      if end > maxVaddr { maxVaddr := end; }
    }
  }

  /** The new address space shows nothing to the user. */
  method NewSpace(m: Memory) returns (root: Option<nat>)
    requires m.Valid()
    modifies m`T, m`Free, m`W, m`Refusals
    ensures m.Valid()
    ensures (root.None? <==> m.Refusals > old(m.Refusals)) && m.Refusals >= old(m.Refusals)
    ensures root.None? ==> m.Free == old(m.Free) && m.RootsKept()
    ensures root.Some? ==>
      && Building(m, root.value) && m.Pool(root.value) == old(m.Free) && m.OthersKept(root.value)
        && root.value !in old(m.W)
      && forall v: nat :: v < USER_END ==> Sees(m.T, m.Ram, root.value, v) == None
  {
    hide WellFormed, Homed, Owned, Walk, Frames;
    root := m.CreateUserAddressSpace();
    if root.Some? { m.EmptyUserHalf(root.value); }
  }

  /** Giving up: everything taken goes back. */
  method GiveUp(m: Memory, root: nat)
    requires Building(m, root)
    modifies m`T, m`Free, m`W
    ensures m.Valid() && m.Free == old(m.Pool(root)) && m.OthersKept(root)
  {
    m.DestroyUserAddressSpace(root);
  }

  /** All segments of ElfLoad. Nothing is lost exactly if no two share a page. */
  method MapSegments(m: Memory, root: nat, image: Source, phs: seq<Phdr>) returns (status: LoadStatus)
    requires Building(m, root) && forall v: nat :: v < USER_END ==> Sees(m.T, m.Ram, root, v) == None
    modifies m`T, m`Free, m`W, m`Ram, m`Refusals
    ensures Building(m, root) && PoolKept(m, root) && (PageDisjoint(phs) ==> m.Pool(root) == old(m.Pool(root)))
    ensures status == Loaded || status == OutOfMemory || (status == Incorrect && !AllGoodInImage(phs, |image.bytes|))
    ensures (status == OutOfMemory <==> m.Refusals > old(m.Refusals)) && m.Refusals >= old(m.Refusals)
    ensures status == Loaded ==>
      AllGoodInImage(phs, |image.bytes|) && (m.Pool(root) == old(m.Pool(root)) <==> PageDisjoint(phs))
    ensures status == Loaded ==> forall v: nat :: v < USER_END ==>
      Sees(m.T, m.Ram, root, v) == Image(image, phs, |phs|, v)
  {
    hide WellFormed, Homed, Owned, Sees, Frames, SegByte, PageDisjoint, InSeg, Image, GoodInImage, Fresh, SegEnd;
    hide SameAccess;
    AccessOfSame(m.T);
    NoImage(image, phs);
    for i := 0 to |phs|
      invariant Building(m, root) && PoolKept(m, root) && m.Refusals == old(m.Refusals)
      invariant m.Pool(root) == old(m.Pool(root)) <==> PageDisjoint(phs[..i])
      invariant forall k :: 0 <= k < i && Loads(phs[k]) ==> GoodInImage(phs[k], |image.bytes|)
      invariant forall v: nat :: v < USER_END ==> Sees(m.T, m.Ram, root, v) == Image(image, phs, i, v)
    {
      FreshByImage(m, root, image, phs, i);
      DisjointPrefix(phs, i + 1);
      ImageNext(image, phs, i);
      GoodIsBelow(phs[i], |image.bytes|);
      ghost var t := m.T;
      status := MapSegment(m, root, phs[i], image);
      AccessChain(old(m.T), t, m.T);
      if status != Loaded { return; }
    }
    assert phs[..|phs|] == phs;
    status := Loaded;
  }

  lemma NoImage(file: Source, phs: seq<Phdr>)
    ensures forall v: nat :: Image(file, phs, 0, v) == None
    ensures PageDisjoint(phs[..0])
  {
  }

  /** The checks of ElfLoad before it builds anything. */
  method CheckImage(image: Source) returns (ok: bool, entry: nat, maxVaddr: nat)
    ensures ok <==> IsValid(image.bytes, |image.bytes|) && GoodEntry(image.bytes) && GoodRange(Phdrs(image))
    ensures ok ==> entry == EEntry(image.bytes) && maxVaddr == MaxEnd(Phdrs(image), |Phdrs(image)|)
  {
    hide IsValid, MaxEnd, Phdrs, Loads, SegStart;
    ok, entry, maxVaddr := false, 0, 0;
    if !IsValid(image.bytes, |image.bytes|) { return; }
    EntryIsThere(image.bytes);
    entry := EEntry(image.bytes);
    if entry < USER_CODE_VADDR || entry >= USER_STACK_TOP { return; }
    var minVaddr, hasLoad;
    minVaddr, maxVaddr, hasLoad := Range(Phdrs(image));
    if !hasLoad { return; }
    if minVaddr < USER_CODE_VADDR { return; }
    if maxVaddr >= STACK_BASE { return; }
    ok := true;
  }

  /** ElfLoad, with the memory around the image. Only accepted images are loaded, and they are unless memory runs out.
      Every frame taken is in the new address space or back with the allocator exactly if no two segments share a page:
      a page mapped over is lost. */
  method Load(m: Memory, image: Source, argc: int, args: seq<seq<Byte>>)
    returns (status: LoadStatus, root: nat, entry: nat, sp: nat, heapStart: nat)
    requires m.Valid() && argc <= |args| && StackFits(Limited(args, argc))
    modifies m`T, m`Free, m`W, m`Ram, m`Refusals
    ensures m.Valid() && m.RootsKept() && m.RamKept(old(m.Free))
    ensures m.Refusals >= old(m.Refusals) && (m.Refusals > old(m.Refusals) ==> status == OutOfMemory)
    ensures m.Refusals == old(m.Refusals) && BlockFits(Limited(args, argc), old(m.Free)) ==>
      status == if AcceptsImage(image) then Loaded else Incorrect
    ensures if AcceptsImage(image) then status == Loaded || status == OutOfMemory
      else status == Incorrect || (status == OutOfMemory && m.Refusals > old(m.Refusals))
    ensures status != Loaded ==> m.Free <= old(m.Free)
    ensures status != Loaded && (IsValid(image.bytes, |image.bytes|) ==> PageDisjoint(Phdrs(image))) ==>
      m.Free == old(m.Free)
    ensures status == Loaded ==>
      && Ready(m, root, image, Limited(args, argc), entry, sp, heapStart)
      && root !in old(m.W) && ClearOfStack(Phdrs(image)) && m.Pool(root) <= old(m.Free)
      && (m.Pool(root) == old(m.Free) <==> PageDisjoint(Phdrs(image)))
  {
    hide WellFormed, Homed, Owned, Walk, Frames, PageDisjoint, Image, MaxEnd, StackStores, StackPointer, Overlay;
    hide IsValid, Sees, Phdrs, GoodInImage, ClearOfStack, TaskByte, SameAccess, BlockFits;
    AccessOfSame(m.T);
    m.OwnedArePlaced();
    status, root, sp, heapStart := Incorrect, 0, 0, 0;
    var ok, maxVaddr;
    ok, entry, maxVaddr := CheckImage(image);
    if !ok { return; }
    var space := NewSpace(m);
    if space.None? { status := OutOfMemory; return; }
    root := space.value;
    BelowIsClear(Phdrs(image));
    ghost var t := m.T;
    status, sp := FillFromImage(m, root, image, argc, args);
    AccessChain(old(m.T), t, m.T);
    if status == Loaded { heapStart := maxVaddr; }
  }

  /** What ElfLoad does with the new address space. */
  method FillFromImage(m: Memory, root: nat, image: Source, argc: int, args: seq<seq<Byte>>)
    returns (status: LoadStatus, sp: nat)
    requires Building(m, root) && forall v: nat :: v < USER_END ==> Sees(m.T, m.Ram, root, v) == None
    requires argc <= |args| && StackFits(Limited(args, argc))
    requires IsValid(image.bytes, |image.bytes|) && ClearOfStack(Phdrs(image))
    modifies m`T, m`Free, m`W, m`Ram, m`Refusals
    ensures m.Valid() && m.OthersKept(root) && m.RamKept(old(m.Pool(root)))
    ensures m.Refusals >= old(m.Refusals) && (m.Refusals > old(m.Refusals) ==> status == OutOfMemory)
    ensures status == OutOfMemory && m.Refusals == old(m.Refusals) ==>
      !BlockFits(Limited(args, argc), old(m.Pool(root))) && AllGoodInImage(Phdrs(image), |image.bytes|)
    ensures if AllGoodInImage(Phdrs(image), |image.bytes|) then status == Loaded || status == OutOfMemory
      else status == Incorrect || status == OutOfMemory
    ensures status != Loaded ==>
      m.Free <= old(m.Pool(root)) && (PageDisjoint(Phdrs(image)) ==> m.Free == old(m.Pool(root)))
    ensures status == Loaded ==>
      && Building(m, root) && m.Pool(root) <= old(m.Pool(root)) && sp == StackPointer(Limited(args, argc))
      && (m.Pool(root) == old(m.Pool(root)) <==> PageDisjoint(Phdrs(image)))
      && forall v: nat :: v < USER_END ==> Sees(m.T, m.Ram, root, v) == TaskByte(image, Limited(args, argc), v)
  {
    hide WellFormed, Homed, Owned, Walk, Frames, PageDisjoint, Image, MaxEnd, StackStores, StackPointer, Overlay;
    hide IsValid, Sees, Phdrs, GoodInImage, ClearOfStack, TaskByte, SameAccess;
    sp := 0;
    status := MapSegments(m, root, image, Phdrs(image));
    ghost var t := m.T;
    if status != Loaded {
      GiveUp(m, root);
      AccessChain(old(m.T), t, m.T);
      return;
    }
    sp := StackOrGiveUp(m, root, image, argc, args);
    AccessChain(old(m.T), t, m.T);
    if sp == 0 { status := OutOfMemory; }
  }

  /** How both loaders end. */
  method StackOrGiveUp(m: Memory, root: nat, file: Source, argc: int, args: seq<seq<Byte>>) returns (sp: nat)
    requires Building(m, root) && argc <= |args| && StackFits(Limited(args, argc))
    requires IsValid(file.bytes, |file.bytes|)
    requires forall v: nat :: v < USER_END ==> Sees(m.T, m.Ram, root, v) == Image(file, Phdrs(file), |Phdrs(file)|, v)
    modifies m`T, m`Free, m`W, m`Ram, m`Refusals
    ensures m.Valid() && m.OthersKept(root) && m.RamKept(old(m.Pool(root)))
    ensures m.Refusals >= old(m.Refusals) && (m.Refusals > old(m.Refusals) ==> sp == 0)
    ensures sp == 0 && m.Refusals == old(m.Refusals) ==> !BlockFits(Limited(args, argc), old(m.Pool(root)))
    ensures sp == 0 ==> m.Free <= old(m.Pool(root)) && (ClearOfStack(Phdrs(file)) ==> m.Free == old(m.Pool(root)))
    ensures sp != 0 ==>
      && Building(m, root) && m.Pool(root) <= old(m.Pool(root)) && sp == StackPointer(Limited(args, argc))
      && (m.Pool(root) == old(m.Pool(root)) <==> ClearOfStack(Phdrs(file)))
      && forall v: nat :: v < USER_END ==> Sees(m.T, m.Ram, root, v) == TaskByte(file, Limited(args, argc), v)
  {
    hide WellFormed, Homed, Owned, Frames, Image, MaxEnd, StackStores, StackPointer, Overlay, IsValid, ClearOfStack;
    hide Sees, Phdrs, Loads, SegEnd, SameAccess, BlockFits;
    StackIsUnseen(m, root, file, Phdrs(file));
    sp := SetupStack(m, root, argc, args, SegmentsOf(file));
    ghost var t := m.T;
    if sp == 0 {
      GiveUp(m, root);
      AccessChain(old(m.T), t, m.T);
    }
  }

  lemma EntryIsThere(image: seq<Byte>)
    requires IsValid(image, |image|)
    ensures |image| >= EHDR_SIZE
  {
  }

  /** The file system, which may fail at any read. */
  class Vfs {
    ghost var Faults: nat  // reads that failed so far

    /** VfsSeek and VfsRead: what the file has there, up to len bytes. */
    method ReadAt(file: File, off: Word, len: nat) returns (ok: bool, got: seq<Byte>)
      modifies `Faults
      ensures Faults == if ok then old(Faults) else old(Faults) + 1
      ensures ok ==>
        got == if off + len <= |file| then file[off..off + len] else if off <= |file| then file[off..] else []
    {
      ok := *;
      got := [];
      if ok {
        got := if off + len <= |file| then file[off..off + len] else if off <= |file| then file[off..] else [];
      } else {
        Faults := Faults + 1;
      }
    }
  }

  /** A read of exactly len bytes at the cut offset. */
  method ReadPiece(fs: Vfs, file: File, off: nat, len: nat) returns (ok: bool, got: seq<Byte>)
    requires len > 0
    modifies fs`Faults
    ensures fs.Faults >= old(fs.Faults)
    ensures ok <==> fs.Faults == old(fs.Faults) && Low64(off) + len <= |file|
    ensures ok ==>
      Low64(off) + len <= |file| && got == seq<Byte>(len, (k: nat) => OfFile(file).At(off + k)) && |got| == len
  {
    hide Low64, Source.At;
    ok, got := fs.ReadAt(file, Low64(off), len);
    if !ok || |got| != len { return false, got; }
    BytesOfFile(file, off, len);
  }

  /** Memory ran out exactly if the status says so, and a fault of the file system makes it an I/O error. */
  twostate predicate Told(m: Memory, fs: Vfs, status: LoadStatus)
    reads m, fs
  {
    && m.Refusals >= old(m.Refusals) && (status == OutOfMemory <==> m.Refusals > old(m.Refusals))
    && fs.Faults >= old(fs.Faults) && (fs.Faults > old(fs.Faults) ==> status == IoError)
  }

  /** One turn of the page loop of ElfLoadFromFile. */
  method ReadSegmentPage(m: Memory, fs: Vfs, root: nat, va: nat, ph: Phdr, file: File) returns (status: LoadStatus)
    requires Building(m, root) && va % PAGE_SIZE == 0 && va + PAGE_SIZE <= USER_END
    requires InFile(ph, va, |file|)
    modifies m`T, m`Free, m`W, m`Ram, m`Refusals, fs`Faults
    ensures Told(m, fs, status)
    ensures status == IoError && fs.Faults == old(fs.Faults) ==> !InFile(ph, va + PAGE_SIZE, |file|)
    ensures Building(m, root) && PoolKept(m, root) && status != Incorrect
    ensures old(Sees(m.T, m.Ram, root, va)) == None ==> m.Pool(root) == old(m.Pool(root))
    ensures status == Loaded ==> (m.Pool(root) == old(m.Pool(root)) <==> old(Sees(m.T, m.Ram, root, va)) == None)
    ensures status == Loaded ==> InFile(ph, va + PAGE_SIZE, |file|)
    ensures status == Loaded ==> forall v: nat :: v < USER_END ==>
      Sees(m.T, m.Ram, root, v) == if va <= v < va + PAGE_SIZE then Some(SegCell(OfFile(file), ph, v))
        else old(Sees(m.T, m.Ram, root, v))
  {
    hide WellFormed, Homed, Owned, Sees, Frames, SegByte, CopyStart, CopyEnd, InFile, Low64, Source.At, FileEnd;
    PageImage(OfFile(file), ph, va);
    InFileNext(ph, va, |file|);
    var ok, dst := AllocPage(m, root, va, SegFlags(ph));
    if !ok { return OutOfMemory; }
    var copyStart, copyEnd := CopyStart(ph, va), CopyEnd(ph, va);
    if copyStart < copyEnd {
      var read, got := ReadPiece(fs, file, ph.pOffset + (copyStart - ph.pVaddr), copyEnd - copyStart);
      if !read { return IoError; }
      CopyIn(m, root, va, dst, copyStart - va, got);
    }
    return Loaded;
  }

  /** A read inside the file gives the bytes at the cut offset. */
  lemma BytesOfFile(file: File, off: nat, len: nat)
    requires Low64(off) + len <= |file|
    ensures file[Low64(off)..Low64(off) + len] == seq<Byte>(len, (k: nat) => OfFile(file).At(off + k))
  {
    hide Low64;
    var b, at := file[Low64(off)..Low64(off) + len], seq<Byte>(len, (k: nat) => OfFile(file).At(off + k));
    forall k | 0 <= k < len
      ensures b[k] == at[k]
    {
      CutOnce(off, k);
      assert OfFile(file).At(off + k) == file[Low64(off) + k];
    }
  }

  lemma CutOnce(off: nat, k: nat)
    requires Low64(off) + k < TWO_64
    ensures Low64(off + k) == Low64(off) + k
  {
  }

  /** The part of the segment's file bytes below va is in the file. */
  predicate InFile(ph: Phdr, va: nat, size: nat) {
    var e := if va < FileEnd(ph) then va else FileEnd(ph);
    ph.pVaddr < e ==> ph.pOffset + (e - ph.pVaddr) <= size
  }

  /** A read for the next page that succeeds is of the file's next bytes. */
  lemma InFileNext(ph: Phdr, va: nat, size: nat)
    requires InFile(ph, va, size) && size < TWO_64
    ensures CopyStart(ph, va) >= ph.pVaddr && CopyStart(ph, va) >= va
    ensures var s, e := CopyStart(ph, va), CopyEnd(ph, va);
      && (s < e ==> (Low64(ph.pOffset + (s - ph.pVaddr)) + (e - s) <= size <==> InFile(ph, va + PAGE_SIZE, size)))
      && (s >= e ==> InFile(ph, va + PAGE_SIZE, size))
  {
    hide Low64;
    var s := CopyStart(ph, va);
    if s < CopyEnd(ph, va) { Wraps(ph.pOffset, if s == ph.pVaddr then 0 else s - ph.pVaddr); }
  }

  lemma InFileBefore(ph: Phdr, lo: nat, hi: nat, size: nat)
    requires lo <= hi
    ensures InFile(ph, hi, size) ==> InFile(ph, lo, size)
  {
  }

  lemma InFileEnds(ph: Phdr, size: nat)
    requires Loads(ph)
    ensures InFile(ph, SegStart(ph), size)
    ensures InFile(ph, SegEnd(ph), size) <==> (ReadLength(ph) > 0 ==> ph.pOffset + ReadLength(ph) <= size)
    ensures SegEnd(ph) <= SegStart(ph) ==> ReadLength(ph) == 0
  {
    hide Low64;
  }

  /** The checks and the loop over the pages of one segment in ElfLoadFromFile. */
  method ReadSegment(m: Memory, fs: Vfs, root: nat, ph: Phdr, file: File) returns (status: LoadStatus)
    requires Building(m, root) && Loads(ph)
    modifies m`T, m`Free, m`W, m`Ram, m`Refusals, fs`Faults
    ensures Told(m, fs, status)
    ensures status == IoError && fs.Faults == old(fs.Faults) ==> !GoodInFile(ph, |file|)
    ensures Building(m, root) && PoolKept(m, root)
    ensures GoodInFile(ph, |file|) ==> status != Incorrect
    ensures status == Loaded ==> GoodInFile(ph, |file|)
    ensures old(Fresh(m, root, ph)) ==> m.Pool(root) == old(m.Pool(root))
    ensures status == Loaded ==> (m.Pool(root) == old(m.Pool(root)) <==> old(Fresh(m, root, ph)))
    ensures status == Loaded ==> forall v: nat :: v < USER_END ==>
      Sees(m.T, m.Ram, root, v) ==
        if InSeg(ph, v) then Some(SegCell(OfFile(file), ph, v)) else old(Sees(m.T, m.Ram, root, v))
  {
    hide WellFormed, Homed, Owned, Sees, Frames, SegByte, SegStart, SegEnd, InSeg, Unseen, InFile, Low64, ReadLength;
    hide SameAccess;
    AccessOfSame(m.T);
    GoodIsBelow(ph, |file|);
    SegPages(ph);
    InFileEnds(ph, |file|);
    if ph.pFilesz > ph.pMemsz { return Incorrect; }
    if ph.pVaddr < USER_CODE_VADDR_MIN || Low64(ph.pVaddr + ph.pMemsz) >= USER_STACK_TOP { return Incorrect; }
    var segStart, segEnd := SegStart(ph), SegEnd(ph);
    FreshIsUnseen(m, root, ph);
    var va := segStart;
    while va < segEnd
      invariant segStart <= va && (va <= segEnd || va == segStart) && va % PAGE_SIZE == 0
      invariant m.Refusals == old(m.Refusals) && fs.Faults == old(fs.Faults)
      invariant Building(m, root) && PoolKept(m, root) && InFile(ph, va, |file|)
      invariant m.Pool(root) == old(m.Pool(root)) <==> old(Unseen(m.T, m.Ram, root, segStart, va))
      invariant forall v: nat :: v < USER_END ==>
        Sees(m.T, m.Ram, root, v) == if segStart <= v < va then Some(SegCell(OfFile(file), ph, v))
          else old(Sees(m.T, m.Ram, root, v))
      decreases segEnd - va
    {
      NextPage(va, segEnd);
      UnseenNext(old(m.T), old(m.Ram), root, segStart, va);
      UnseenLess(old(m.T), old(m.Ram), root, segStart, va + PAGE_SIZE, segEnd);
      ghost var t := m.T;
      InFileBefore(ph, va + PAGE_SIZE, segEnd, |file|);
      status := ReadSegmentPage(m, fs, root, va, ph, file);
      AccessChain(old(m.T), t, m.T);
      if status != Loaded { return; }
      va := va + PAGE_SIZE;
    }
    return Loaded;
  }

  /** The segment loop of ElfLoadFromFile; it finds the heap start on the way. */
  method ReadSegments(m: Memory, fs: Vfs, root: nat, file: File, phs: seq<Phdr>)
    returns (status: LoadStatus, maxVaddr: nat)
    requires Building(m, root) && forall v: nat :: v < USER_END ==> Sees(m.T, m.Ram, root, v) == None
    modifies m`T, m`Free, m`W, m`Ram, m`Refusals, fs`Faults
    ensures Told(m, fs, status)
    ensures status == IoError && fs.Faults == old(fs.Faults) ==> !AllGoodInFile(phs, |file|)
    ensures Building(m, root) && PoolKept(m, root) && (PageDisjoint(phs) ==> m.Pool(root) == old(m.Pool(root)))
    ensures AllGoodInFile(phs, |file|) ==> status != Incorrect
    ensures status == Loaded ==>
      AllGoodInFile(phs, |file|) && (m.Pool(root) == old(m.Pool(root)) <==> PageDisjoint(phs))
    ensures status == Loaded ==> maxVaddr == MaxEnd(phs, |phs|)
    ensures status == Loaded ==> forall v: nat :: v < USER_END ==>
      Sees(m.T, m.Ram, root, v) == Image(OfFile(file), phs, |phs|, v)
  {
    hide WellFormed, Homed, Owned, Sees, Frames, SegByte, PageDisjoint, Image, GoodInFile, Fresh, SegEnd, InSeg;
    hide SameAccess;
    AccessOfSame(m.T);
    NoImage(OfFile(file), phs);
    maxVaddr := 0;
    for i := 0 to |phs|
      invariant Building(m, root) && PoolKept(m, root)
      invariant m.Refusals == old(m.Refusals) && fs.Faults == old(fs.Faults)
      invariant m.Pool(root) == old(m.Pool(root)) <==> PageDisjoint(phs[..i])
      invariant forall k :: 0 <= k < i && Loads(phs[k]) ==> GoodInFile(phs[k], |file|)
      invariant maxVaddr == MaxEnd(phs, i)
      invariant forall v: nat :: v < USER_END ==> Sees(m.T, m.Ram, root, v) == Image(OfFile(file), phs, i, v)
    {
      FreshByImage(m, root, OfFile(file), phs, i);
      DisjointPrefix(phs, i + 1);
      ImageNext(OfFile(file), phs, i);
      GoodIsBelow(phs[i], |file|);
      OnlyLoadedHavePages(phs[i]);
      NothingToMap(m, root, phs[i]);
      if phs[i].pType != PT_LOAD { continue; }
      if phs[i].pMemsz == 0 { continue; }
      ghost var t := m.T;
      status := ReadSegment(m, fs, root, phs[i], file);
      AccessChain(old(m.T), t, m.T);
      if status != Loaded { return; }
      if SegEnd(phs[i]) > maxVaddr { maxVaddr := SegEnd(phs[i]); }
    }
    assert phs[..|phs|] == phs;
    status := Loaded;
  }

  lemma NothingToMap(m: Memory, root: nat, ph: Phdr)
    ensures !Loads(ph) ==> Fresh(m, root, ph)
  {
  }

  /** An entry of the table read from the file is the program header in the file. */
  lemma TableEntry(file: File, table: seq<Byte>, i: nat)
    requires IsValid(file, |file|) && |file| >= EHDR_SIZE && TableInFile(file) && i < EPhNum(file)
    requires table == file[EPhOff(file)..EPhOff(file) + EPhNum(file) * PHDR_SIZE]
    ensures (i + 1) * PHDR_SIZE <= |table| && PhdrAt(table, i * PHDR_SIZE) == Phdrs(OfFile(file))[i]
  {
    hide IsValid, Le, PhdrAt, PhdrFrom;
    PhdrOfSlice(file, EPhOff(file), EPhOff(file) + EPhNum(file) * PHDR_SIZE, i * PHDR_SIZE);
    PhdrInFile(OfFile(file), EPhOff(file) + i * PHDR_SIZE);
  }

  /** The header and the program headers as ElfLoadFromFile reads them. */
  method ReadHeaders(fs: Vfs, file: File) returns (status: LoadStatus, entry: nat, phs: seq<Phdr>)
    modifies fs`Faults
    ensures fs.Faults >= old(fs.Faults) && status != OutOfMemory
    ensures fs.Faults > old(fs.Faults) ==> status == IoError
    ensures fs.Faults == old(fs.Faults) && IsValid(file, |file|) && TableInFile(file) ==> status == Loaded
    ensures status == Loaded ==>
      IsValid(file, |file|) && TableInFile(file) && entry == EEntry(file) && phs == Phdrs(OfFile(file))
    ensures status == Incorrect ==> !IsValid(file, |file|)
  {
    hide IsValid, Le, PhdrAt, PhdrFrom, Phdrs, LeWord;
    entry, phs := 0, [];
    if IsValid(file, |file|) { ValidIsLong(file); }
    var ok, head := fs.ReadAt(file, 0, EHDR_SIZE);
    if !ok || |head| != EHDR_SIZE { return IoError, entry, phs; }
    if |file| == 0 { return IoError, entry, phs; }
    ValidByHeader(file);
    if !IsValid(head, |file|) { return Incorrect, entry, phs; }
    var phSize := EPhNum(head) * PHDR_SIZE;
    var table;
    ok, table := fs.ReadAt(file, EPhOff(head), phSize);
    if !ok || |table| != phSize { return IoError, entry, phs; }
    entry := EEntry(head);
    phs := TableEntries(file, table, EPhNum(head));
    status := Loaded;
  }

  method TableEntries(file: File, table: seq<Byte>, n: nat) returns (phs: seq<Phdr>)
    requires IsValid(file, |file|) && |file| >= EHDR_SIZE && TableInFile(file) && n == EPhNum(file)
    requires table == file[EPhOff(file)..EPhOff(file) + EPhNum(file) * PHDR_SIZE]
    ensures phs == Phdrs(OfFile(file))
  {
    hide IsValid, Le, PhdrAt, PhdrFrom, Phdrs, LeWord;
    phs := [];
    for i := 0 to n
      invariant |phs| == i && forall k :: 0 <= k < i ==> phs[k] == Phdrs(OfFile(file))[k]
    {
      TableEntry(file, table, i);
      phs := phs + [PhdrAt(table, i * PHDR_SIZE)];
    }
  }

  /** ElfLoadFromFile. It does not check that the segments end below the stack: then the stack takes their pages, and
      those are lost like the pages of segments that share one. */
  method LoadFromFile(m: Memory, fs: Vfs, file: File, argc: int, args: seq<seq<Byte>>)
    returns (status: LoadStatus, root: nat, entry: nat, sp: nat, heapStart: nat)
    requires m.Valid() && argc <= |args| && StackFits(Limited(args, argc))
    modifies m`T, m`Free, m`W, m`Ram, m`Refusals, fs`Faults
    ensures m.Refusals >= old(m.Refusals) && (m.Refusals > old(m.Refusals) ==> status == OutOfMemory)
    ensures fs.Faults >= old(fs.Faults) && (fs.Faults > old(fs.Faults) ==> status == IoError)
    ensures
      && m.Refusals == old(m.Refusals) && fs.Faults == old(fs.Faults)
      && BlockFits(Limited(args, argc), old(m.Free)) ==>
      (status == Loaded <==> AcceptsFile(file)) && status != OutOfMemory
    ensures m.Valid() && m.RootsKept() && m.RamKept(old(m.Free))
    ensures if AcceptsFile(file) then status != Incorrect else status != Loaded
    ensures status != Loaded ==> m.Free <= old(m.Free)
    ensures
      && status != Loaded
      && (IsValid(file, |file|) ==> PageDisjoint(Phdrs(OfFile(file))) && ClearOfStack(Phdrs(OfFile(file)))) ==>
      m.Free == old(m.Free)
    ensures status == Loaded ==>
      && Ready(m, root, OfFile(file), Limited(args, argc), entry, sp, heapStart)
      && root !in old(m.W) && m.Pool(root) <= old(m.Free)
      && (m.Pool(root) == old(m.Free) <==> PageDisjoint(Phdrs(OfFile(file))) && ClearOfStack(Phdrs(OfFile(file))))
  {
    hide WellFormed, Homed, Owned, Walk, Frames, PageDisjoint, Image, MaxEnd, StackStores, StackPointer, Overlay;
    hide IsValid, Sees, Phdrs, GoodInFile, ClearOfStack, TaskByte, SameAccess, BlockFits;
    AccessOfSame(m.T);
    m.OwnedArePlaced();
    root, sp, heapStart := 0, 0, 0;
    var phs;
    status, entry, phs := ReadHeaders(fs, file);
    if status != Loaded { return; }
    EntryIsThere(file);
    if entry < USER_CODE_VADDR || entry >= USER_STACK_TOP { status := Incorrect; return; }
    var space := NewSpace(m);
    if space.None? { status := OutOfMemory; return; }
    root := space.value;
    ghost var t := m.T;
    status, sp, heapStart := FillFromFile(m, fs, root, file, phs, argc, args);
    AccessChain(old(m.T), t, m.T);
  }

  /** What ElfLoadFromFile does with the new address space. */
  method FillFromFile(m: Memory, fs: Vfs, root: nat, file: File, phs: seq<Phdr>, argc: int, args: seq<seq<Byte>>)
    returns (status: LoadStatus, sp: nat, heapStart: nat)
    requires Building(m, root) && forall v: nat :: v < USER_END ==> Sees(m.T, m.Ram, root, v) == None
    requires argc <= |args| && StackFits(Limited(args, argc))
    requires IsValid(file, |file|) && phs == Phdrs(OfFile(file))
    modifies m`T, m`Free, m`W, m`Ram, m`Refusals, fs`Faults
    ensures m.Refusals >= old(m.Refusals) && (m.Refusals > old(m.Refusals) ==> status == OutOfMemory)
    ensures fs.Faults >= old(fs.Faults) && (fs.Faults > old(fs.Faults) ==> status == IoError)
    ensures
      && m.Refusals == old(m.Refusals) && fs.Faults == old(fs.Faults)
      && BlockFits(Limited(args, argc), old(m.Pool(root))) ==>
      (status == Loaded <==> AllGoodInFile(phs, |file|)) && status != OutOfMemory
    ensures m.Valid() && m.OthersKept(root) && m.RamKept(old(m.Pool(root)))
    ensures if AllGoodInFile(phs, |file|) then status != Incorrect else status != Loaded
    ensures status != Loaded ==> m.Free <= old(m.Pool(root))
    ensures status != Loaded && PageDisjoint(phs) && ClearOfStack(phs) ==> m.Free == old(m.Pool(root))
    ensures status == Loaded ==>
      && Building(m, root) && m.Pool(root) <= old(m.Pool(root)) && sp == StackPointer(Limited(args, argc))
      && (m.Pool(root) == old(m.Pool(root)) <==> PageDisjoint(phs) && ClearOfStack(phs))
      && heapStart == MaxEnd(phs, |phs|)
      && forall v: nat :: v < USER_END ==> Sees(m.T, m.Ram, root, v) == TaskByte(OfFile(file), Limited(args, argc), v)
  {
    hide WellFormed, Homed, Owned, Walk, Frames, PageDisjoint, Image, MaxEnd, StackStores, StackPointer, Overlay;
    hide IsValid, Sees, Phdrs, GoodInFile, ClearOfStack, TaskByte, SameAccess;
    sp := 0;
    status, heapStart := ReadSegments(m, fs, root, file, phs);
    ghost var t := m.T;
    if status != Loaded {
      GiveUp(m, root);
      AccessChain(old(m.T), t, m.T);
      return;
    }
    sp := StackOrGiveUp(m, root, OfFile(file), argc, args);
    AccessChain(old(m.T), t, m.T);
    if sp == 0 { status := OutOfMemory; }
  }

  /** The same file and arguments given to both loaders, whatever lies around the image. When both succeed, the two
      tasks have the same entry point, stack pointer and heap start and see the same user memory; the second load leaves
      what the first task sees alone. */
  method LoadBothWays(m: Memory, fs: Vfs, file: File, around: nat -> Byte, argc: int, args: seq<seq<Byte>>)
    returns (both: bool, a: nat, b: nat, entries: (nat, nat), sps: (nat, nat), heaps: (nat, nat))
    requires m.Valid() && argc <= |args| && StackFits(Limited(args, argc))
    modifies m`T, m`Free, m`W, m`Ram, m`Refusals, fs`Faults
    ensures both ==> AcceptsFile(file) && AcceptsImage(Source(file, around))
    ensures
      && AcceptsFile(file) && AcceptsImage(Source(file, around)) && BlockFits(Limited(args, argc), old(m.Free))
      && m.Refusals == old(m.Refusals) && fs.Faults == old(fs.Faults) ==>
      both
    ensures both ==> a != b && entries.0 == entries.1 && sps.0 == sps.1 && heaps.0 == heaps.1
    ensures both ==> forall v: nat :: v < USER_END ==> Sees(m.T, m.Ram, a, v) == Sees(m.T, m.Ram, b, v)
    ensures both ==> StackBlock(UserView(m.T, m.Ram, a), sps.0, Limited(args, argc))
  {
    hide WellFormed, Homed, Owned, Walk, Frames, PageDisjoint, Image, MaxEnd, StackStores, StackPointer, Overlay;
    hide IsValid, Phdrs, AcceptsFile, AcceptsImage, TaskByte, ClearOfStack, Sees, SameAccess, UserOpen, Leaf;
    both, a, b, entries, sps, heaps := false, 0, 0, (0, 0), (0, 0), (0, 0);
    var status, e, sp, h := Incorrect, 0, 0, 0;
    status, a, e, sp, h := Load(m, Source(file, around), argc, args);
    if status != Loaded { return; }
    m.MappedAreNotFree(a);
    MappedHaveTables(m, a);
    ghost var t, ram, free := m.T, m.Ram, m.Free;
    var status', e', sp', h' := Incorrect, 0, 0, 0;
    status', b, e', sp', h' := LoadFromFile(m, fs, file, argc, args);
    SeesKept(t, m.T, ram, m.Ram, free, a);
    if status' != Loaded { return; }
    both, entries, sps, heaps := true, (e, e'), (sp, sp'), (h, h');
    SameTask(file, around, Limited(args, argc));
    ReadyTaskFindsItsArguments(m, a, Source(file, around), Limited(args, argc), e, sp, h);
  }

  /** An address space that was not touched shows what it showed. */
  lemma SeesKept(t: Tables, t': Tables, ram: int -> Byte, ram': int -> Byte, free: set<nat>, root: nat)
    requires forall b: nat :: Translate(t', root, b) == Translate(t, root, b)
    requires forall b: nat :: SameAccess(t, t', root, b)
    requires forall b: nat :: b < USER_END && Translate(t, root, b).Some? ==>
      Leaf(t, root, 4, b).Some? && Translate(t, root, b).value / PAGE_SIZE !in free
    requires forall i :: i / PAGE_SIZE !in free ==> ram'(i) == ram(i)
    ensures forall b: nat :: b < USER_END ==> Sees(t', ram', root, b) == Sees(t, ram, root, b)
    ensures UserOpen(t, root) ==> UserOpen(t', root)
  {
    hide Walk, Leaf, LeafEntry, UserTables;
    AccessKept(t, t', root);
    forall b: nat | b < USER_END
      ensures Sees(t', ram', root, b) == Sees(t, ram, root, b)
    {
      assert SameAccess(t, t', root, b);
    }
  }

  /** What a task loaded from an accepted file sees does not depend on what is around the file. */
  lemma SameTask(file: File, around: nat -> Byte, argv: seq<seq<Byte>>)
    requires AcceptsFile(file) && StackFits(argv)
    ensures Phdrs(Source(file, around)) == Phdrs(OfFile(file))
    ensures forall v: nat :: TaskByte(Source(file, around), argv, v) == TaskByte(OfFile(file), argv, v)
  {
    hide IsValid, Phdrs, StackStores, Image, Loads, InSeg, GoodInFile;
    TableIsTheFiles(file, around);
    var phs := Phdrs(OfFile(file));
    forall v: nat
      ensures TaskByte(Source(file, around), argv, v) == TaskByte(OfFile(file), argv, v)
    {
      forall u: nat
        ensures SegmentsOf(Source(file, around))(u) == SegmentsOf(OfFile(file))(u)
      {
        SameImage(file, around, phs, |phs|, u);
      }
      SameBase(StackOver(SegmentsOf(Source(file, around))), StackOver(SegmentsOf(OfFile(file))), StackStores(argv), v);
    }
  }

  lemma {:induction false} SameBase(x: nat -> Option<Cell>, y: nat -> Option<Cell>, ws: seq<Store>, v: nat)
    requires x(v) == y(v)
    ensures Overlay(x, ws, v) == Overlay(y, ws, v)
  {
    if ws != [] { SameBase(x, y, ws[..|ws| - 1], v); }
  }

  lemma {:induction false} SameImage(file: File, around: nat -> Byte, phs: seq<Phdr>, n: nat, v: nat)
    requires n <= |phs| && AllGoodInFile(phs, |file|)
    ensures Image(Source(file, around), phs, n, v) == Image(OfFile(file), phs, n, v)
  {
    hide InSeg, SegByte, GoodInFile, Loads;
    if n > 0 {
      if InSeg(phs[n - 1], v) {
        OnlyLoadedHavePages(phs[n - 1]);
        SameSegByte(file, around, phs[n - 1], v);
      }
      SameImage(file, around, phs, n - 1, v);
    }
  }

  /** The bytes of a segment that ElfLoadFromFile accepts are all in the file. */
  lemma SameSegByte(file: File, around: nat -> Byte, ph: Phdr, v: nat)
    requires GoodInFile(ph, |file|) && InSeg(ph, v)
    ensures SegByte(Source(file, around), ph, v) == SegByte(OfFile(file), ph, v)
  {
    hide Low64;
    if ph.pVaddr <= v < FileEnd(ph) { Wraps(0, ph.pOffset + (v - ph.pVaddr)); }
  }
}
