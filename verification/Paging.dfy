/** Kernel/Source/Mem/Paging.c: mapping, unmapping, address spaces and user copies over physical memory. */
module Paging {
  import opened Bytes
  import opened PageTree
  import opened Teardown

  datatype Status = Success | NoObject | NoMemory | IncorrectValue

  /** The flag bits a caller passes; PTE_PRESENT is added by the code and PTE_HUGE is never passed. */
  datatype Flags = Flags(writable: bool, user: bool, noExec: bool)

  /** The end of the half of the address space under the first 256 slots of a root. */
  const USER_END: nat := 0x8000_0000_0000

  lemma UserIndex(va: nat)
    requires va < USER_END
    ensures Index(4, va) < 256
  {
    assert va / 0x80_0000_0000 < 256;
  }

  lemma SamePageAsItself(va: nat)
    ensures SamePage(va, va)
  {
  }

  /** Below USER_END two addresses are in the same page just when they have the same page number. */
  lemma UserPages(a: nat)
    requires a < USER_END
    ensures forall b :: 0 <= b < USER_END ==> (SamePage(b, a) <==> b / PAGE_SIZE == a / PAGE_SIZE)
  {
    hide SamePage;
    UserPageNumber(a);
    forall b | 0 <= b < USER_END
      ensures SamePage(b, a) <==> b / PAGE_SIZE == a / PAGE_SIZE
    {
      SamePageIffSameNumber(b, a);
      UserPageNumber(b);
    }
  }

  lemma UserPageNumber(a: nat)
    requires a < USER_END
    ensures (a / PAGE_SIZE) % 0x10_0000_0000 == a / PAGE_SIZE
  {
    assert a / PAGE_SIZE < 0x8_0000_0000;
  }

  function RoundUp(size: nat): nat {
    (size + PAGE_SIZE - 1) / PAGE_SIZE * PAGE_SIZE
  }

  /** [va, va + size), rounded up to pages, is user memory. */
  predicate UserRange(va: nat, size: nat) {
    size > 0 && va % PAGE_SIZE == 0 ==> va + RoundUp(size) <= USER_END
  }

  /** A piece of memory a process asks for. */
  datatype Piece = Piece(va: nat, size: nat, flags: Flags)

  /** The part of a piece that was mapped. */
  datatype Extent = Extent(va: nat, length: nat) {
    predicate Holds(b: nat) { va <= b < va + length }

    predicate Meets(other: Extent) {
      va < other.va + other.length && other.va < va + length && 0 < length && 0 < other.length
    }
  }

  /** What PagingMapAnonUser refuses. */
  predicate Bad(p: Piece) {
    p.size == 0 || p.va % PAGE_SIZE != 0
  }

  /** The extent that mapping the piece gives: the whole piece if nothing was refused. */
  predicate Given(p: Piece, x: Extent, all: bool) {
    x.va == p.va && x.length <= RoundUp(p.size) && (all ==> x.length == if Bad(p) then 0 else RoundUp(p.size))
  }

  lemma GivenLess()
    ensures forall p, x, all :: Given(p, x, all) ==> Given(p, x, false)
  {
  }

  predicate Covered(done: seq<Extent>, b: nat) {
    exists k :: 0 <= k < |done| && done[k].Holds(b)
  }

  /** No address was mapped for two pieces. */
  ghost predicate NoneTwice(done: seq<Extent>) {
    forall j, k :: 0 <= j < k < |done| ==> !done[j].Meets(done[k])
  }

  /** Mapping one more extent loses frames exactly if it meets an earlier one. */
  lemma NextExtent(t: Tables, root: nat, done: seq<Extent>, x: Extent)
    requires forall b: nat :: b < USER_END ==> (Translate(t, root, b).Some? <==> Covered(done, b))
    requires x.length == 0 || x.va + x.length <= USER_END
    ensures FramesIn(t, root, x.va, x.va + x.length) == {} && NoneTwice(done) <==> NoneTwice(done + [x])
    ensures forall b: nat :: Covered(done + [x], b) <==> Covered(done, b) || x.Holds(b)
  {
    hide Translate, NoneTwice;
    CoveredMore(done, x);
    NoneTwiceMore(done, x);
    var frames := FramesIn(t, root, x.va, x.va + x.length);
    if j :| 0 <= j < |done| && done[j].Meets(x) {
      var b := if done[j].va < x.va then x.va else done[j].va;
      assert done[j].Holds(b) && x.Holds(b);
      assert Translate(t, root, b).value / PAGE_SIZE in frames;
    } else {
      forall b: nat | x.Holds(b)
        ensures !Covered(done, b)
      {
        assert forall j :: 0 <= j < |done| ==> !done[j].Meets(x);
      }
    }
  }

  lemma NoneTwiceMore(done: seq<Extent>, x: Extent)
    ensures NoneTwice(done + [x]) <==> NoneTwice(done) && forall j :: 0 <= j < |done| ==> !done[j].Meets(x)
  {
    var all := done + [x];
    if NoneTwice(all) {
      assert forall j, k :: 0 <= j < k < |done| ==> done[j] == all[j] && done[k] == all[k];
      assert forall j :: 0 <= j < |done| ==> !all[j].Meets(all[|done|]);
    }
  }

  lemma CoveredMore(done: seq<Extent>, x: Extent)
    ensures forall b: nat :: Covered(done + [x], b) <==> Covered(done, b) || x.Holds(b)
  {
    var all := done + [x];
    forall b: nat
      ensures Covered(all, b) <==> Covered(done, b) || x.Holds(b)
    {
      if k :| 0 <= k < |done| && done[k].Holds(b) { assert all[k].Holds(b); }
      if x.Holds(b) { assert all[|done|].Holds(b); }
    }
  }

  lemma BelowFacts(w: Places, r: nat, f: nat, i: nat)
    requires f in w
    ensures f !in Below(w, r, f, i) && Below(w, r, f, i) <= Subtree(w, r, f)
  {
  }

  /** The user addresses of one page are those with its page number. */
  lemma PageMembers(va: nat)
    requires va % PAGE_SIZE == 0 && va + PAGE_SIZE <= USER_END
    ensures forall b: nat :: b < USER_END ==> (SamePage(b, va) <==> va <= b < va + PAGE_SIZE)
  {
    UserPages(va);
  }

  lemma RoundUpRoom(size: nat, mapped: nat)
    requires mapped % PAGE_SIZE == 0 && mapped < size
    ensures mapped + PAGE_SIZE <= RoundUp(size) && (mapped + PAGE_SIZE) % PAGE_SIZE == 0
  {
  }

  lemma CoveredByRoundUp(size: nat)
    ensures forall mapped: nat :: mapped % PAGE_SIZE == 0 && size <= mapped <= RoundUp(size) ==> mapped == RoundUp(size)
  {
  }

  lemma AlignedSum(a: nat, b: nat)
    requires a % PAGE_SIZE == 0 && b % PAGE_SIZE == 0
    ensures (a + b) % PAGE_SIZE == 0
  {
  }

  /** The frame mapped at va. */
  function FrameAt(t: Tables, root: nat, va: nat): set<nat> {
    match Translate(t, root, va)
    case None => {}
    case Some(p) => {p / PAGE_SIZE}
  }

  lemma FrameAtLeaf(t: Tables, root: nat, va: nat)
    requires Leaf(t, root, 4, va).Some?
    ensures var pt := Leaf(t, root, 4, va).value;
      && pt in t && |t[pt]| == SLOTS
      && FrameAt(t, root, va) == if t[pt][Index(1, va)].present then {t[pt][Index(1, va)].frame} else {}
  {
    hide Walk, Leaf;
    LeafDecides(t, root, 4, va);
  }

  lemma NothingDone()
    ensures NoneTwice([]) && forall b: nat :: !Covered([], b)
  {
  }

  /** The frames mapped in [lo, hi). */
  ghost function FramesIn(t: Tables, root: nat, lo: nat, hi: nat): set<nat> {
    set b: nat | lo <= b < hi && Translate(t, root, b).Some? :: Translate(t, root, b).value / PAGE_SIZE
  }

  lemma NoFrames(t: Tables, root: nat, va: nat)
    ensures FramesIn(t, root, va, va) == {}
  {
  }

  /** The frames of a range and one more page. */
  lemma NextFrame(t: Tables, root: nat, lo: nat, hi: nat)
    requires lo <= hi && hi % PAGE_SIZE == 0 && hi + PAGE_SIZE <= USER_END
    ensures FramesIn(t, root, lo, hi + PAGE_SIZE) == FramesIn(t, root, lo, hi) + FrameAt(t, root, hi)
  {
    hide Walk;
    forall b: nat | hi <= b < hi + PAGE_SIZE
      ensures FrameAt(t, root, b) == FrameAt(t, root, hi)
    {
      SameFrameInPage(t, root, hi, b - hi);
    }
    forall f
      ensures f in FramesIn(t, root, lo, hi + PAGE_SIZE) <==> f in FramesIn(t, root, lo, hi) + FrameAt(t, root, hi)
    {
      FramesInHas(t, root, lo, hi + PAGE_SIZE, f);
      FramesInHas(t, root, lo, hi, f);
      if f in FrameAt(t, root, hi) { assert lo <= hi < hi + PAGE_SIZE && f in FrameAt(t, root, hi); }
    }
  }

  /** Where the byte of address b lies when its page is frame f. */
  function PlaceIn(f: nat, b: nat): nat {
    f * PAGE_SIZE + b % PAGE_SIZE
  }

  predicate OnPage(p: nat) {
    p % PAGE_SIZE == 0
  }

  /** Page boundaries go to page boundaries. */
  lemma {:induction false} MappedToPages(t: Tables, f: nat, level: nat, va: nat)
    requires OnPage(va) && 1 <= level <= 4
    ensures Walk(t, f, level, va).Some? ==> OnPage(Walk(t, f, level, va).value)
    decreases level
  {
    hide Index, HugeFrame, OnPage;
    if f in t && |t[f]| == SLOTS {
      var e := t[f][Index(level, va)];
      if level > 1 { MappedToPages(t, e.frame, level - 1, va); }
      PlacesOnPages(e.frame, va);
    }
  }

  lemma PlacesOnPages(frame: nat, va: nat)
    requires OnPage(va)
    ensures OnPage(frame * PAGE_SIZE + va % PAGE_SIZE)
    ensures OnPage(HugeFrame(frame) * PAGE_SIZE + va % (PAGE_SIZE * SLOTS))
  {
    hide Index, HugeFrame;
    OffsetInHugePage(va);
    MultipleOnPage(frame);
    MultipleOnPage(HugeFrame(frame) + Index(1, va));
  }

  lemma MultipleOnPage(n: nat)
    ensures OnPage(n * PAGE_SIZE)
  {
  }

  lemma FramesInHas(t: Tables, root: nat, lo: nat, hi: nat, f: nat)
    ensures f in FramesIn(t, root, lo, hi) <==> exists b: nat :: lo <= b < hi && f in FrameAt(t, root, b)
  {
    hide Walk;
    if f in FramesIn(t, root, lo, hi) {
      var b: nat :| lo <= b < hi && Translate(t, root, b).Some? && f == Translate(t, root, b).value / PAGE_SIZE;
      assert f in FrameAt(t, root, b);
    }
    if b: nat :| lo <= b < hi && f in FrameAt(t, root, b) { assert f == Translate(t, root, b).value / PAGE_SIZE; }
  }

  lemma SameFrameInPage(t: Tables, root: nat, va: nat, k: nat)
    requires va % PAGE_SIZE == 0 && k < PAGE_SIZE
    ensures FrameAt(t, root, va + k) == FrameAt(t, root, va)
  {
    hide Walk;
    PageIsContiguous(t, root, 4, va, k);
    MappedToPages(t, root, 4, va);
  }

  lemma SameFrame(t: Tables, root: nat, va: nat)
    ensures forall t' :: Translate(t', root, va) == Translate(t, root, va) ==>
      FrameAt(t', root, va) == FrameAt(t, root, va)
  {
  }

  ghost predicate IsRoot(t: Tables, w: Places, r: nat) {
    r in t && r in w && w[r].level == 4
  }

  /** The user may read the page of b, and write to it or run it as these say. */
  predicate Granted(t: Tables, root: nat, b: nat, writable: bool, noExec: bool) {
    var e := LeafEntry(t, root, b);
    e.user && UserTables(t, root, 4, b) && e.writable == writable && e.noExec == noExec
  }

  class Memory {
    var T: Tables         // the pages used as tables
    var Free: set<nat>    // the frames the physical allocator may hand out
    var Ram: int -> Byte  // the bytes of the frames that are not tables
    const KernelRoot: nat
    ghost var W: Places
    ghost var Refusals: nat  // requests for a frame when there was none

    ghost predicate Valid()
      reads this
    {
      WellFormed(T, W, Free, KernelRoot) && Homed(W, KernelRoot)
    }

    /** Everything placed before is placed as before, and every root translates as before. */
    twostate predicate OnlyAdded()
      reads this
    {
      && (forall f :: f in old(W) ==> f in W && W[f] == old(W)[f])
      && (forall f :: f in old(T) ==> f in T)
      && (forall r, va: nat :: IsRoot(old(T), old(W), r) ==> Translate(T, r, va) == old(Translate(T, r, va)))
      && (forall r, va: nat :: IsRoot(old(T), old(W), r) ==> SameAccess(old(T), T, r, va))
      && Free <= old(Free) && (forall f :: f in W && f !in old(W) ==> f in old(Free))
    }

    /** Every owned tree is still one, and the frames taken from the allocator went to home. */
    twostate predicate OwnershipKept(home: nat)
      reads this
    {
      && (forall r :: r != KernelRoot && old(Owned(T, W, r)) ==> Owned(T, W, r))
      && (forall r :: Frames(W, r) == old(Frames(W, r)) + if r == home then old(Free) - Free else {})
    }

    /** PhysAllocAllocatePage: some free frame, while there is one. */
    method AllocPage() returns (f: Option<nat>)
      modifies `Free, `Refusals
      ensures f.None? <==> old(Free) == {}
      ensures Refusals == if f.None? then old(Refusals) + 1 else old(Refusals)
      ensures f.None? ==> Free == old(Free)
      ensures f.Some? ==> f.value in old(Free) && Free == old(Free) - {f.value}
    {
      if Free == {} {
        Refusals := Refusals + 1;
        return None;
      }
      var x :| x in Free;
      Free := Free - {x};
      return Some(x);
    }

    /** PhysAllocFreePage of an allocated frame. */
    method FreePage(f: nat)
      requires f !in Free
      modifies `Free
      ensures Free == old(Free) + {f}
    {
      Free := Free + {f};
    }

    /** The loop that fills the table replacing a 2 MiB entry. */
    method FillSplit(e: Entry) returns (pt: seq<Entry>)
      ensures pt == SplitTable(e)
    {
      pt := ZeroTable();
      for i := 0 to SLOTS
        invariant |pt| == SLOTS && forall k :: 0 <= k < i ==> pt[k] == SplitTable(e)[k]
      {
        pt := pt[i := Entry(HugeFrame(e.frame) + i, true, true, e.user, false, e.noExec)];
      }
    }

    /** Links a new table with contents sub under slot index of a table. */
    method Hang(table: nat, index: nat, f: nat, e: Entry, sub: seq<Entry>, ghost free: set<nat>)
      requires WellFormed(T, W, free, KernelRoot) && Homed(W, KernelRoot) && table in T && W[table].level >= 2
      requires index < SLOTS
      requires f in free && Free == free - {f}
      requires SameMeaning(T[table][index], sub) && |sub| == SLOTS && e.frame == f && e.present && !e.huge
      modifies `T, `W
      ensures Valid()
      ensures T == Put(old(T), table, index, e)[f := sub]
      ensures W == old(W)[f := Spot(old(W)[table].level - 1, table, index, HomeAt(old(W), KernelRoot, table, index))]
      ensures forall r, va: nat :: IsRoot(old(T), old(W), r) ==> Translate(T, r, va) == old(Translate(T, r, va))
      ensures forall r, va: nat :: IsRoot(old(T), old(W), r) ==> SameAccess(old(T), T, r, va)
      ensures forall r :: r != KernelRoot && old(Owned(T, W, r)) ==> Owned(T, W, r)
    {
      hide WellFormed, Homed, Owned, Walk, SameAccess;
      HangFacts(T, W, free, KernelRoot, table, index, f, e, sub);
      ghost var home := HomeAt(W, KernelRoot, table, index);
      HomeIsPlaced(W, KernelRoot, table, index);
      HomedMore(W, KernelRoot, f, Spot(W[table].level - 1, table, index, home));
      W := W[f := Spot(W[table].level - 1, table, index, home)];
      T := T[f := sub];
      T := Put(T, table, index, e);
      assert T == Put(old(T), table, index, e)[f := sub];
    }

    /** A request was refused because no frame was free, or none was refused. */
    twostate predicate Refused(no: bool)
      reads this
    {
      if no then Refusals == old(Refusals) + 1 && Free == {} else Refusals == old(Refusals)
    }

    /** No table was made, and every way down leads where it led. */
    twostate predicate Untouched()
      reads this
    {
      W == old(W) && Free == old(Free) && forall r, va: nat :: Leaf(T, r, 4, va) == old(Leaf(T, r, 4, va))
    }

    /** A table for an absent or huge slot. */
    method MakeTable(table: nat, index: nat, user: bool) returns (next: Option<nat>)
      requires Valid() && table in T && W[table].level >= 2 && index < SLOTS && |T[table]| == SLOTS
      requires T[table][index].huge || !T[table][index].present
      modifies `T, `Free, `W, `Refusals
      ensures Valid() && OnlyAdded() && OwnershipKept(HomeAt(old(W), KernelRoot, table, index))
      ensures next.None? <==> old(Free) == {}
      ensures Refusals == if next.None? then old(Refusals) + 1 else old(Refusals)
      ensures next.Some? ==>
        && next.value in T && next.value in W && next.value !in old(T) && W[next.value].level == old(W)[table].level - 1
        && W[next.value].home == HomeAt(old(W), KernelRoot, table, index)
        && T[table][index].present && !T[table][index].huge && T[table][index].frame == next.value
        && T[table][index].user == if old(T)[table][index].huge then old(T)[table][index].user else user
      ensures forall g :: g in old(T) && g != table ==> T[g] == old(T)[g]
      ensures |T[table]| == SLOTS && forall k :: 0 <= k < SLOTS && k != index ==> T[table][k] == old(T)[table][k]
      ensures next.None? ==> T == old(T) && W == old(W) && Free == old(Free)
    {
      hide WellFormed, Homed, Owned, Walk, SameAccess;
      TableFacts(table, index);
      AccessOfSame(T);
      var e := T[table][index];
      ghost var free := Free;
      var f := AllocPage();
      if f.None? { return None; }
      if e.huge {
        var pt := FillSplit(e);
        Hang(table, index, f.value, Entry(f.value, true, true, e.user, false, e.noExec), pt, free);
      } else {
        Hang(table, index, f.value, Entry(f.value, true, true, user, false, false), ZeroTable(), free);
      }
      return f;
    }

    /** The table that slot index of a table leads to; on request one is made where there is none,
        and a 2 MiB entry is split into 512 small ones. */
    method GetNextLevel(table: nat, index: nat, user: bool, allocate: bool) returns (next: Option<nat>)
      requires Valid() && table in T && W[table].level >= 2 && index < SLOTS
      modifies `T, `Free, `W, `Refusals
      ensures Valid() && OnlyAdded() && OwnershipKept(HomeAt(old(W), KernelRoot, table, index))
      ensures Refused(allocate && next.None?)
      ensures old(T[table][index].present && !T[table][index].huge) ==>
        next == Some(old(T)[table][index].frame) && Untouched()
      ensures next.Some? ==>
        && next.value in T && next.value in W && W[next.value].level == old(W)[table].level - 1
        && T[table][index].present && !T[table][index].huge && T[table][index].frame == next.value
      ensures next.Some? && user && !old(T)[table][index].huge ==> T[table][index].user
      ensures next.Some? && old(T)[table][index].huge ==> T[table][index].user == old(T)[table][index].user
      ensures forall g :: g in old(T) && g != table ==> T[g] == old(T)[g]
      ensures forall k :: 0 <= k < SLOTS && k != index ==> T[table][k] == old(T)[table][k]
      ensures !allocate ==> Free == old(Free) && W == old(W) && (!user ==> T == old(T))
      ensures next.None? ==> T == old(T) && W == old(W) && Free == old(Free)
      ensures !allocate && next.None? ==> !T[table][index].present || (T[table][index].huge && W[table].level == 2)
      ensures index < old(Width(W, table)) && next.Some? ==>
        forall r :: r != KernelRoot && old(Owned(T, W, r)) && old(W)[table].home == r ==> W[next.value].home == r
    {
      hide WellFormed, Homed, Owned, Walk, SameAccess;
      TableFacts(table, index);
      AccessOfSame(T);
      var e := T[table][index];
      if e.huge || !e.present {
        if !allocate { return None; }
        next := MakeTable(table, index, user);
        return;
      }
      if user && !e.user {
        PointerFacts(T, W, Free, KernelRoot, table, index, e.(user := true));
        T := Put(T, table, index, e.(user := true));
      }
      return Some(e.frame);
    }

    /** The first table step, from the root. */
    method RootStep(root: nat, va: nat, user: bool, allocate: bool) returns (pdpt: Option<nat>)
      requires Valid() && IsRoot(T, W, root)
      modifies `T, `Free, `W, `Refusals
      ensures Valid() && OnlyAdded() && Refused(allocate && pdpt.None?)
      ensures old(Leaf(T, root, 4, va)).Some? ==> pdpt.Some? && Untouched()
      ensures forall r :: r != KernelRoot && old(Owned(T, W, r)) ==> Owned(T, W, r)
      ensures |T[root]| == SLOTS
      ensures pdpt.Some? ==>
        && pdpt.value in T && pdpt.value in W && W[pdpt.value].level == 3
        && T[root][Index(4, va)].present && T[root][Index(4, va)].frame == pdpt.value
        && (user ==> T[root][Index(4, va)].user)
      ensures root != KernelRoot && old(Owned(T, W, root)) && Index(4, va) < 256 ==>
        (pdpt.Some? ==> W[pdpt.value].home == root) && OwnershipKept(root)
      ensures !allocate && !user ==> T == old(T) && W == old(W) && Free == old(Free)
      ensures !allocate && pdpt.None? ==> Leaf(T, root, 4, va) == None
    {
      hide WellFormed, Homed, Owned, Walk, Leaf, Frames, SameAccess;
      RootFacts(root);
      HugeOnlyInDirectories(root, Index(4, va));
      LeafStops(T, root, va);
      pdpt := GetNextLevel(root, Index(4, va), user, allocate);
      RootFacts(root);
      LeafStops(T, root, va);
    }

    /** The second table step, from the table of level 3 on the way of va. */
    method DirectoryStep(root: nat, va: nat, user: bool, allocate: bool, pdpt: nat) returns (pdir: Option<nat>)
      requires Valid() && IsRoot(T, W, root) && |T[root]| == SLOTS && pdpt in T && pdpt in W && W[pdpt].level == 3
      requires T[root][Index(4, va)].present && T[root][Index(4, va)].frame == pdpt
      modifies `T, `Free, `W, `Refusals
      ensures Valid() && OnlyAdded() && Refused(allocate && pdir.None?)
      ensures OwnershipKept(HomeAt(old(W), KernelRoot, pdpt, Index(3, va))) && T[root] == old(T)[root]
      ensures old(Leaf(T, root, 4, va)).Some? ==> pdir.Some? && Untouched()
      ensures pdir.Some? ==>
        && pdir.value in T && pdir.value in W && W[pdir.value].level == 2
        && pdpt in T && |T[pdpt]| == SLOTS && T[pdpt][Index(3, va)].present && !T[pdpt][Index(3, va)].huge
        && T[pdpt][Index(3, va)].frame == pdir.value && (user ==> T[pdpt][Index(3, va)].user)
      ensures root != KernelRoot && old(Owned(T, W, root) && W[pdpt].home == root) && pdir.Some? ==>
        W[pdir.value].home == root
      ensures !allocate && !user ==> T == old(T) && W == old(W) && Free == old(Free)
      ensures !allocate && pdir.None? ==> Leaf(T, root, 4, va) == None
    {
      hide WellFormed, Homed, Owned, Walk, Leaf, Frames, OwnershipKept, SameAccess;
      RootFacts(root);
      HugeOnlyInDirectories(pdpt, Index(3, va));
      LeafStops(T, root, va);
      pdir := GetNextLevel(pdpt, Index(3, va), user, allocate);
      RootFacts(root);
      LeafStops(T, root, va);
    }

    /** The first two table steps of PagingMapPageLocked and PagingUnmapPageLocked. */
    method DescendToDirectory(root: nat, va: nat, user: bool, allocate: bool)
      returns (pdir: Option<nat>, ghost pdpt: nat)
      requires Valid() && IsRoot(T, W, root)
      modifies `T, `Free, `W, `Refusals
      ensures Valid() && OnlyAdded() && Refused(allocate && pdir.None?)
      ensures old(Leaf(T, root, 4, va)).Some? ==> pdir.Some? && Untouched()
      ensures forall r :: r != KernelRoot && old(Owned(T, W, r)) ==> Owned(T, W, r)
      ensures pdir.Some? ==>
        && pdir.value in T && pdir.value in W && W[pdir.value].level == 2
        && T[root][Index(4, va)].present && T[root][Index(4, va)].frame == pdpt
        && pdpt in T && T[pdpt][Index(3, va)].present && !T[pdpt][Index(3, va)].huge
          && T[pdpt][Index(3, va)].frame == pdir.value
        && pdpt != pdir.value && root != pdir.value
        && (user ==> T[root][Index(4, va)].user && T[pdpt][Index(3, va)].user)
      ensures root != KernelRoot && old(Owned(T, W, root)) && Index(4, va) < 256 ==>
        (pdir.Some? ==> W[pdir.value].home == root) && OwnershipKept(root)
      ensures !allocate && !user ==> T == old(T) && W == old(W) && Free == old(Free)
      ensures !allocate && pdir.None? ==> Leaf(T, root, 4, va) == None
    {
      hide WellFormed, Homed, Owned, Walk, Leaf, Frames, SameAccess;
      pdpt, pdir := 0, None;
      var first := RootStep(root, va, user, allocate);
      if first.None? { return; }
      pdpt := first.value;
      ghost var t := T;
      pdir := DirectoryStep(root, va, user, allocate, first.value);
      AccessChain(old(T), t, T);
    }

    /** The last table step, from the directory on the way of va. */
    method DirectoryToTable(root: nat, va: nat, user: bool, allocate: bool, pdir: nat, ghost pdpt: nat)
      returns (pt: Option<nat>)
      requires Valid() && IsRoot(T, W, root) && pdir in T && pdir in W && W[pdir].level == 2
      requires T[root][Index(4, va)].present && T[root][Index(4, va)].frame == pdpt && pdpt != pdir && root != pdir
      requires pdpt in T && T[pdpt][Index(3, va)].present && !T[pdpt][Index(3, va)].huge
        && T[pdpt][Index(3, va)].frame == pdir
      requires user ==> T[root][Index(4, va)].user && T[pdpt][Index(3, va)].user
      modifies `T, `Free, `W, `Refusals
      ensures Valid() && OnlyAdded() && OwnershipKept(HomeAt(old(W), KernelRoot, pdir, Index(2, va)))
      ensures Refused(allocate && pt.None?)
      ensures old(Leaf(T, root, 4, va)).Some? ==> pt == old(Leaf(T, root, 4, va)) && Free == old(Free)
      ensures pt.Some? ==> pt.value in T && pt.value in W && W[pt.value].level == 1 && Leaf(T, root, 4, va) == pt
      ensures pt.Some? && user && old((Owned(T, W, root) && W[pdir].home == root) || Translate(T, root, va) == None) ==>
        UserTables(T, root, 4, va)
      ensures root != KernelRoot && old(Owned(T, W, root) && W[pdir].home == root) && pt.Some? ==>
        W[pt.value].home == root
      ensures !allocate && !user ==> T == old(T) && W == old(W) && Free == old(Free)
      ensures !allocate && pt.None? ==> Leaf(T, root, 4, va) == None
    {
      hide WellFormed, Homed, Owned, Walk, Leaf, Frames, UserTables, SameAccess;
      RootFacts(root);
      HugeIsMapped(T, root, pdpt, pdir, va);
      HugeOnlyInDirectories(pdir, Index(2, va));
      LeafStops(T, root, va);
      if Owned(T, W, root) && W[pdir].home == root { OwnedIsSmall(root, pdir, Index(2, va)); }
      pt := GetNextLevel(pdir, Index(2, va), user, allocate);
      RootFacts(root);
      LeafStops(T, root, va);
      if pt.Some? {
        LeafReached(T, root, pdpt, pdir, pt.value, va);
        UserReached(T, root, pdpt, pdir, pt.value, va);
      }
    }

    /** All three table steps. */
    method Descend(root: nat, va: nat, user: bool, allocate: bool) returns (pt: Option<nat>)
      requires Valid() && IsRoot(T, W, root)
      modifies `T, `Free, `W, `Refusals
      ensures Valid() && OnlyAdded() && Refused(allocate && pt.None?)
      ensures old(Leaf(T, root, 4, va)).Some? ==> pt == old(Leaf(T, root, 4, va)) && Free == old(Free)
      ensures forall r :: r != KernelRoot && old(Owned(T, W, r)) ==> Owned(T, W, r)
      ensures pt.Some? ==> pt.value in T && pt.value in W && W[pt.value].level == 1 && Leaf(T, root, 4, va) == pt
      ensures pt.Some? && user && old(Translate(T, root, va)) == None ==> UserTables(T, root, 4, va)
      ensures pt.Some? && user && root != KernelRoot && old(Owned(T, W, root)) && Index(4, va) < 256 ==>
        UserTables(T, root, 4, va)
      ensures root != KernelRoot && old(Owned(T, W, root)) && Index(4, va) < 256 ==>
        (pt.Some? ==> W[pt.value].home == root) && OwnershipKept(root)
      ensures !allocate && !user ==> T == old(T) && W == old(W) && Free == old(Free)
      ensures !allocate && pt.None? ==> Leaf(T, root, 4, va) == None
    {
      hide WellFormed, Homed, Owned, Walk, Leaf, Frames, UserTables, Translate, SameAccess;
      var pdir, pdpt := DescendToDirectory(root, va, user, allocate);
      if pdir.None? { return None; }
      ghost var t := T;
      pt := DirectoryToTable(root, va, user, allocate, pdir.value, pdpt);
      AccessChain(old(T), t, T);
    }

    /** PagingMapPageLocked. With own, the frame is a fresh one that becomes part of root's tree. */
    method MapPage(root: nat, va: nat, phys: nat, flags: Flags, ghost own: bool) returns (status: Status)
      requires Valid() && IsRoot(T, W, root)
      requires own ==> root != KernelRoot && Owned(T, W, root) && Index(4, va) < 256
      requires own ==> phys !in W && phys !in Free
      modifies `T, `Free, `W, `Refusals
      ensures Valid() && (status == Success || status == NoObject)
      ensures Refused(status == NoObject)
      ensures old(Leaf(T, root, 4, va)).Some? ==> status == Success && Free == old(Free)
      ensures forall r :: IsRoot(old(T), old(W), r) ==> IsRoot(T, W, r)
      ensures status == Success ==> forall b: nat ::
        Translate(T, root, b) == if SamePage(b, va) then Some(phys * PAGE_SIZE + b % PAGE_SIZE)
          else old(Translate(T, root, b))
      ensures status == Success && Index(4, va) < 256 ==>
        forall r, b: nat :: r != root && IsRoot(old(T), old(W), r) ==> Translate(T, r, b) == old(Translate(T, r, b))
      ensures status != Success ==>
        forall r, b: nat :: IsRoot(old(T), old(W), r) ==> Translate(T, r, b) == old(Translate(T, r, b))
      ensures status == Success ==> forall b: nat :: SamePage(b, va) ==>
        LeafEntry(T, root, b) == Entry(phys, true, flags.writable, flags.user, false, flags.noExec)
      ensures status == Success && flags.user && own ==> forall b: nat :: SamePage(b, va) ==> UserTables(T, root, 4, b)
      ensures forall b: nat :: status != Success || !SamePage(b, va) ==> SameAccess(old(T), T, root, b)
      ensures status != Success || Index(4, va) < 256 ==>
        forall r, b: nat :: r != root && IsRoot(old(T), old(W), r) ==> SameAccess(old(T), T, r, b)
      ensures status == Success && flags.user && (own || old(Translate(T, root, va)) == None) ==>
        UserTables(T, root, 4, va)
      ensures Free <= old(Free)
      ensures own ==> Owned(T, W, root)
      ensures own && status == Success ==>
        Frames(W, root) == old(Frames(W, root)) - old(FrameAt(T, root, va)) + (old(Free) - Free) + {phys}
      ensures own && status != Success ==> Frames(W, root) == old(Frames(W, root)) + (old(Free) - Free)
      ensures own ==> old(FrameAt(T, root, va)) <= old(Frames(W, root)) && old(FrameAt(T, root, va)) !! old(Free)
      ensures own && status != Success ==> phys !in W
      ensures own ==> forall r :: r != root && r != KernelRoot && old(Owned(T, W, r)) ==> Owned(T, W, r)
      ensures own ==> forall r :: r != root ==> Frames(W, r) == old(Frames(W, r))
    {
      hide WellFormed, Homed, Owned, Walk, Leaf, Frames, SamePage, FrameAt, SameAccess, LeafEntry, UserTables;
      if own { MappedIsOwned(root, va); }
      SamePageAsItself(va);
      SameFrame(old(T), root, va);
      var pt := Descend(root, va, flags.user, true);
      if pt.None? { return NoObject; }
      var e := Entry(phys, true, flags.writable, flags.user, false, flags.noExec);
      RootFacts(root);
      FrameAtLeaf(T, root, va);
      PageWrite(T, W, Free, KernelRoot, root, va, pt.value, e);
      PageWriteAccess(T, W, Free, KernelRoot, root, va, pt.value, e);
      AccessChain(old(T), T, Put(T, pt.value, Index(1, va), e));
      if own {
        PageReplaced(T, W, Free, KernelRoot, pt.value, Index(1, va), e, root);
        OthersFacts(pt.value, Index(1, va), e, root);
        W := Replaced(T, W, pt.value, Index(1, va), phys, root);
      } else {
        LeafWriteKeepsShape(T, W, Free, KernelRoot, pt.value, Index(1, va), e, Spot(0, 0, 0, 0), false);
      }
      T := Put(T, pt.value, Index(1, va), e);
      return Success;
    }

    /** PagingUnmapPageLocked: exactly one small page goes; inside a 2 MiB mapping nothing happens. */
    method UnmapPage(root: nat, va: nat)
      requires Valid() && IsRoot(T, W, root)
      modifies `T, `Free, `W, `Refusals
      ensures Valid() && W == old(W) && Free == old(Free) && Refusals == old(Refusals)
      ensures forall b: nat ::
        Translate(T, root, b) == if SamePage(b, va) && !old(HugeMapped(T, root, va)) then None
          else old(Translate(T, root, b))
      ensures Index(4, va) < 256 ==>
        forall r, b: nat :: r != root && IsRoot(T, W, r) ==> Translate(T, r, b) == old(Translate(T, r, b))
    {
      hide WellFormed, Homed, Walk, Leaf, SamePage;
      RootFacts(root);
      var pt := Descend(root, va, false, false);
      if pt.None? {
        forall b: nat | SamePage(b, va)
          ensures Translate(T, root, b).Some? <==> Translate(T, root, va).Some?
        {
          SamePageSameFate(T, root, 4, b, va);
        }
        return;
      }
      PageWrite(T, W, Free, KernelRoot, root, va, pt.value, EMPTY);
      LeafWriteKeepsShape(T, W, Free, KernelRoot, pt.value, Index(1, va), EMPTY, Spot(0, 0, 0, 0), false);
      T := Put(T, pt.value, Index(1, va), EMPTY);
    }

    /** The byte a user of this root sees at va. */
    function UserByte(root: nat, va: nat): Byte
      requires Translate(T, root, va).Some?
      reads this
    {
      Ram(Translate(T, root, va).value)
    }

    /** MemSet of a frame to zero. */
    method ZeroFrame(f: nat)
      modifies `Ram
      ensures forall i :: Ram(i) == if i / PAGE_SIZE == f then 0 else old(Ram)(i)
    {
      var c, zeros := Ram, seq<Byte>(PAGE_SIZE, _ => 0);
      Ram := i => Overwritten(c, f * PAGE_SIZE, zeros, i);
      assert forall i :: f * PAGE_SIZE <= i < f * PAGE_SIZE + PAGE_SIZE <==> i / PAGE_SIZE == f;
    }

    /** The frames the allocator can hand out together with those of root: what the user half of root
        can neither gain nor lose. */
    ghost function Pool(root: nat): set<nat>
      reads this
    {
      Free + Frames(W, root)
    }

    /** The other roots translate as before and own what they owned. */
    twostate predicate OthersKept(root: nat)
      reads this
    {
      && (forall r :: r != root && IsRoot(old(T), old(W), r) ==> IsRoot(T, W, r))
      && (forall r, b: nat :: r != root && IsRoot(old(T), old(W), r) ==> Translate(T, r, b) == old(Translate(T, r, b)))
      && (forall r, b: nat :: r != root && IsRoot(old(T), old(W), r) ==> SameAccess(old(T), T, r, b))
      && (forall r :: r != root && r != KernelRoot && old(Owned(T, W, r)) ==>
        Owned(T, W, r) && Frames(W, r) == old(Frames(W, r)))
    }

    /** All roots translate as before and own what they owned. */
    twostate predicate RootsKept()
      reads this
    {
      && (forall r :: IsRoot(old(T), old(W), r) ==> IsRoot(T, W, r))
      && (forall r, b: nat :: IsRoot(old(T), old(W), r) ==> Translate(T, r, b) == old(Translate(T, r, b)))
      && (forall r, b: nat :: IsRoot(old(T), old(W), r) ==> SameAccess(old(T), T, r, b))
      && (forall r :: r != KernelRoot && old(Owned(T, W, r)) ==> Owned(T, W, r) && Frames(W, r) == old(Frames(W, r)))
    }

    /** Only bytes of these frames changed. */
    twostate predicate RamKept(frames: set<nat>)
      reads this
    {
      forall i :: i / PAGE_SIZE !in frames ==> Ram(i) == old(Ram)(i)
    }

    /** A request was refused when at most the frame for the page itself was free, or none was refused. */
    twostate predicate OutOfFrames(no: bool)
      reads this
    {
      if no then Refusals == old(Refusals) + 1 && |Free| <= 1 else Refusals == old(Refusals)
    }

    /** A frame from the allocator, filled with zeros; it is in no tree yet. */
    method ZeroedPage(root: nat) returns (page: Option<nat>)
      requires Valid()
      modifies `Free, `Ram, `Refusals
      ensures Valid() && OutOfFrames(page.None?)
      ensures page.Some? ==> page.value in old(Free) && page.value !in W && Free == old(Free) - {page.value}
      ensures page.None? ==> Free == old(Free)
      ensures Pool(root) == old(Pool(root)) - (old(Free) - Free) && old(Free) <= old(Pool(root))
      ensures forall i :: Ram(i) == if page.Some? && i / PAGE_SIZE == page.value then 0 else old(Ram)(i)
    {
      hide WellFormed, Homed, Frames, Pool;
      FreeFacts();
      page := AllocPage();
      if page.Some? { ZeroFrame(page.value); }
      PoolAfter(root);
      StillValid(old(Free));
    }

    /** One turn of the loop of PagingMapAnonUserLocked. A page that was mapped there is lost to the pool. */
    method MapFreshPage(root: nat, va: nat, flags: Flags) returns (status: Status, frame: nat)
      requires Valid() && IsRoot(T, W, root) && root != KernelRoot && Owned(T, W, root)
      requires va < USER_END
      modifies `T, `Free, `W, `Ram, `Refusals
      ensures Valid() && IsRoot(T, W, root) && Owned(T, W, root) && OthersKept(root)
      ensures status == Success || status == NoMemory
      ensures OutOfFrames(status == NoMemory)
      ensures Pool(root) == old(Pool(root)) - if status == Success then old(FrameAt(T, root, va)) else {}
      ensures old(FrameAt(T, root, va)) <= old(Pool(root))
      ensures forall b: nat :: (status == Success ==> !SamePage(b, va)) ==>
        Translate(T, root, b) == old(Translate(T, root, b))
      ensures status == Success ==> forall b: nat :: SamePage(b, va) ==>
        Translate(T, root, b).Some? && UserByte(root, b) == 0
      ensures status == Success ==>
        Translate(T, root, va) == Some(PlaceIn(frame, va)) && frame in old(Free)
      ensures status == Success ==> forall b: nat :: SamePage(b, va) ==>
        Granted(T, root, b, flags.writable, flags.noExec)
      ensures forall b: nat :: status != Success || !SamePage(b, va) ==> SameAccess(old(T), T, root, b)
      ensures Free <= old(Free) && forall i :: Ram(i) == old(Ram)(i) || i / PAGE_SIZE in old(Free)
    {
      hide WellFormed, Homed, Owned, Walk, SamePage, Frames, FrameAt, LeafEntry, UserTables, Pool, SameAccess, Granted;
      hide PlaceIn, IsRoot, Valid;
      AccessOfSame(T);
      UserIndex(va);
      MappedIsOwned(root, va);
      SamePageAsItself(va);
      var page := ZeroedPage(root);
      if page.None? { return NoMemory, 0; }
      frame := page.value;
      status := MapZeroed(root, va, frame, flags);
      if status == Success { ZeroesAreSeen(root, va, frame); }
    }

    /** A page that shows a frame of zeros shows zeros. */
    lemma ZeroesAreSeen(root: nat, va: nat, f: nat)
      requires forall i :: i / PAGE_SIZE == f ==> Ram(i) == 0
      requires forall b: nat :: SamePage(b, va) ==> Translate(T, root, b) == Some(PlaceIn(f, b))
      ensures forall b: nat :: SamePage(b, va) ==> UserByte(root, b) == 0
    {
      hide SamePage, Walk;
    }

    /** A frame taken from the allocator leaves the pool. */
    twostate lemma PoolAfter(root: nat)
      requires W == old(W) && Free <= old(Free) && forall f :: f in old(Free) ==> f !in W
      ensures Pool(root) == old(Pool(root)) - (old(Free) - Free) && old(Free) <= old(Pool(root))
    {
    }

    /** A zeroed page that is in no tree becomes part of root's tree, or goes back to the allocator. */
    method MapZeroed(root: nat, va: nat, f: nat, flags: Flags) returns (status: Status)
      requires Valid() && IsRoot(T, W, root) && root != KernelRoot && Owned(T, W, root)
      requires va < USER_END && f !in W && f !in Free
      modifies `T, `Free, `W, `Refusals
      ensures Valid() && IsRoot(T, W, root) && Owned(T, W, root) && OthersKept(root)
      ensures status == Success || status == NoMemory
      ensures OutOfFrames(status == NoMemory)
      ensures Pool(root) == old(Pool(root)) - (if status == Success then old(FrameAt(T, root, va)) else {}) + {f}
      ensures status == Success ==> forall b: nat :: SamePage(b, va) ==>
        Translate(T, root, b) == Some(PlaceIn(f, b))
      ensures forall b: nat :: (status == Success ==> !SamePage(b, va)) ==>
        Translate(T, root, b) == old(Translate(T, root, b))
      ensures status == Success ==> forall b: nat :: SamePage(b, va) ==>
        Granted(T, root, b, flags.writable, flags.noExec)
      ensures forall b: nat :: status != Success || !SamePage(b, va) ==> SameAccess(old(T), T, root, b)
      ensures Free <= old(Free) + {f}
    {
      hide WellFormed, Homed, Owned, Walk, SamePage, Frames, FrameAt, LeafEntry, UserTables, SameAccess;
      UserIndex(va);
      MappedIsOwned(root, va);
      var rc := MapPage(root, va, f, flags.(user := true), true);
      if rc != Success {
        GiveBack(f);
        return NoMemory;
      }
      return Success;
    }

    /** The page goes back when the last table for it could not be made. */
    method GiveBack(f: nat)
      requires Valid() && f !in W && f !in Free && Free == {}
      modifies `Free
      ensures Valid() && Free == {f} && |Free| <= 1
    {
      hide WellFormed, Homed;
      StillValidWith(f);
      FreePage(f);
      assert Free == {f};
    }

    lemma OthersFacts(pt: nat, i: nat, e: Entry, root: nat)
      requires Valid() && Owned(T, W, root)
      requires pt in T && W[pt].home == root && W[pt].level == 1 && i < SLOTS && e.frame !in W
      ensures |T[pt]| == SLOTS
      ensures forall r :: r != root && Owned(T, W, r) ==>
        Owned(Put(T, pt, i, e), Replaced(T, W, pt, i, e.frame, root), r)
      ensures forall r :: r != root ==> Frames(Replaced(T, W, pt, i, e.frame, root), r) == Frames(W, r)
    {
      hide Owned, Frames, Homed;
      forall r | r != root
        ensures Owned(T, W, r) ==> Owned(Put(T, pt, i, e), Replaced(T, W, pt, i, e.frame, root), r)
        ensures Frames(Replaced(T, W, pt, i, e.frame, root), r) == Frames(W, r)
      {
        PageReplacedKeepsOthers(T, W, Free, KernelRoot, pt, i, e, root, r);
      }
    }

    lemma StillValidWith(f: nat)
      requires Valid() && f !in W
      ensures WellFormed(T, W, Free + {f}, KernelRoot)
    {
      forall g, i | g in T && 0 <= i < SLOTS
        ensures ChildFits(T, W, KernelRoot, g, i)
      {
      }
    }

    lemma FreeFacts()
      requires Valid()
      ensures forall f :: f in Free ==> f !in W
    {
    }

    lemma StillValid(was: set<nat>)
      requires WellFormed(T, W, was, KernelRoot) && Homed(W, KernelRoot) && Free <= was
      ensures Valid()
    {
      forall f, i | f in T && 0 <= i < SLOTS
        ensures ChildFits(T, W, KernelRoot, f, i)
      {
      }
    }

    lemma StillGranted(t: Tables, t': Tables, root: nat, writable: bool, noExec: bool)
      ensures forall b: nat :: Granted(t, root, b, writable, noExec) && SameAccess(t, t', root, b) ==>
        Granted(t', root, b, writable, noExec)
    {
      forall b: nat | Granted(t, root, b, writable, noExec) && SameAccess(t, t', root, b)
        ensures Granted(t', root, b, writable, noExec)
      {
        assert Leaf(t, root, 4, b).Some?;
      }
    }

    /** The turn for one page of a range, by addresses. */
    method MapNextPage(root: nat, va: nat, flags: Flags) returns (status: Status)
      requires Valid() && IsRoot(T, W, root) && root != KernelRoot && Owned(T, W, root)
      requires va % PAGE_SIZE == 0 && va + PAGE_SIZE <= USER_END
      modifies `T, `Free, `W, `Ram, `Refusals
      ensures Valid() && IsRoot(T, W, root) && Owned(T, W, root) && OthersKept(root)
      ensures status == Success || status == NoMemory
      ensures OutOfFrames(status == NoMemory)
      ensures Pool(root) == old(Pool(root)) - if status == Success then old(FrameAt(T, root, va)) else {}
      ensures old(FrameAt(T, root, va)) <= old(Pool(root))
      ensures forall b: nat :: b < USER_END && !(status == Success && va <= b < va + PAGE_SIZE) ==>
        Translate(T, root, b) == old(Translate(T, root, b))
      ensures forall b: nat :: b < USER_END && !(status == Success && va <= b < va + PAGE_SIZE) ==>
        Translate(T, root, b).Some? ==> UserByte(root, b) == old(Ram)(Translate(T, root, b).value)
      ensures status == Success ==>
        forall b :: va <= b < va + PAGE_SIZE ==> Translate(T, root, b).Some? && UserByte(root, b) == 0
      ensures status == Success ==>
        forall b :: va <= b < va + PAGE_SIZE ==> Granted(T, root, b, flags.writable, flags.noExec)
      ensures forall b: nat :: b < USER_END && !(status == Success && va <= b < va + PAGE_SIZE) ==>
        SameAccess(old(T), T, root, b)
      ensures Free <= old(Free) && forall i :: Ram(i) == old(Ram)(i) || i / PAGE_SIZE in old(Free)
    {
      hide WellFormed, Homed, Owned, Walk, SamePage, Frames, Pool, FrameAt, SameAccess, Granted;
      MappedAreNotFree(root);
      PageMembers(va);
      var frame;
      status, frame := MapFreshPage(root, va, flags);
    }

    /** PagingMapAnonUserLocked: zeroed frames under every page of [va, va + size). A failure leaves the pages
        mapped so far, [va, va + done), in place. Frames that were mapped there before are lost: they are neither
        given back nor part of the tree any more. */
    method MapAnonUser(root: nat, va: nat, size: nat, flags: Flags) returns (status: Status, ghost done: nat)
      requires Valid() && IsRoot(T, W, root) && root != KernelRoot && Owned(T, W, root)
      requires UserRange(va, size)
      modifies `T, `Free, `W, `Ram, `Refusals
      ensures Valid() && IsRoot(T, W, root) && Owned(T, W, root) && OthersKept(root)
      ensures OutOfFrames(status == NoMemory)
      ensures status == IncorrectValue <==> size == 0 || va % PAGE_SIZE != 0
      ensures status == Success || status == NoMemory || status == IncorrectValue
      ensures va + done <= USER_END || done == 0
      ensures done <= RoundUp(size) && (status == Success ==> done == RoundUp(size))
        && (status == IncorrectValue ==> done == 0)
      ensures Pool(root) == old(Pool(root)) - old(FramesIn(T, root, va, va + done))
      ensures old(FramesIn(T, root, va, va + done)) <= old(Pool(root))
      ensures forall b :: va <= b < va + done ==> Translate(T, root, b).Some? && UserByte(root, b) == 0
      ensures forall b :: va <= b < va + done ==> Granted(T, root, b, flags.writable, flags.noExec)
      ensures forall b: nat :: b < USER_END && !(va <= b < va + done) ==> SameAccess(old(T), T, root, b)
      ensures forall b: nat :: b < USER_END && !(va <= b < va + done) ==>
        Translate(T, root, b) == old(Translate(T, root, b))
      ensures Free <= old(Free) && forall i :: Ram(i) == old(Ram)(i) || i / PAGE_SIZE in old(Free)
    {
      hide WellFormed, Homed, Owned, Walk, SamePage, Frames, Pool, RoundUp, FrameAt, FramesIn, SameAccess, Granted;
      hide Valid;
      done := 0;
      AccessOfSame(T);
      NoFrames(T, root, va);
      if size == 0 { return IncorrectValue, 0; }
      if va % PAGE_SIZE != 0 { return IncorrectValue, 0; }
      CoveredByRoundUp(size);
      var mapped := 0;
      while mapped < size
        invariant mapped % PAGE_SIZE == 0 && mapped <= RoundUp(size) && done == mapped
        invariant Valid() && IsRoot(T, W, root) && Owned(T, W, root)
        invariant Pool(root) == old(Pool(root)) - old(FramesIn(T, root, va, va + done))
        invariant old(FramesIn(T, root, va, va + done)) <= old(Pool(root))
        invariant OthersKept(root) && Refusals == old(Refusals)
        invariant forall b: nat :: b < USER_END && !(va <= b < va + mapped) ==>
          Translate(T, root, b) == old(Translate(T, root, b))
        invariant forall b :: va <= b < va + mapped ==> Translate(T, root, b).Some? && UserByte(root, b) == 0
        invariant forall b :: va <= b < va + mapped ==> Granted(T, root, b, flags.writable, flags.noExec)
        invariant forall b: nat :: b < USER_END && !(va <= b < va + mapped) ==> SameAccess(old(T), T, root, b)
        invariant Free <= old(Free) && forall i :: Ram(i) == old(Ram)(i) || i / PAGE_SIZE in old(Free)
        decreases RoundUp(size) - mapped
      {
        RoundUpRoom(size, mapped);
        AlignedSum(va, mapped);
        SameFrame(old(T), root, va + mapped);
        NextFrame(old(T), root, va, va + mapped);
        ghost var t := T;
        var rc := MapNextPage(root, va + mapped, flags);
        AccessChain(old(T), t, T);
        StillGranted(t, T, root, flags.writable, flags.noExec);
        if rc != Success { return NoMemory, mapped; }
        mapped := mapped + PAGE_SIZE;
        done := mapped;
      }
      return Success, mapped;
    }

    /** PagingCreateUserAddressSpace. */
    method CreateUserAddressSpace() returns (root: Option<nat>)
      requires Valid()
      modifies `T, `Free, `W, `Refusals
      ensures Valid() && Refused(root.None?) && (root.None? <==> old(Free) == {})
      ensures root.None? ==> T == old(T) && W == old(W) && Free == old(Free)
      ensures root.Some? ==>
        && root.value in old(Free) && Pool(root.value) == old(Free) && root.value !in old(W)
        && root.value != KernelRoot && IsRoot(T, W, root.value) && Owned(T, W, root.value) && OthersKept(root.value)
        && (forall va: nat :: Translate(T, root.value, va) == if Index(4, va) < 256 then None
          else old(Translate(T, KernelRoot, va)))
        && |T[root.value]| == SLOTS && forall k :: 0 <= k < SLOTS ==> !T[root.value][k].user
    {
      hide WellFormed, Homed, Owned, Walk, Frames, SameAccess;
      var page := AllocPage();
      if page.None? { return None; }
      var r := page.value;
      NewRootFacts(old(Free), r);
      var table := ZeroTable();
      for i := 256 to SLOTS
        invariant |table| == SLOTS
        invariant forall k :: 0 <= k < SLOTS ==> table[k] == if k < i then UserRoot(T[KernelRoot])[k] else EMPTY
      {
        table := table[i := T[KernelRoot][i].(user := false)];
      }
      assert table == UserRoot(T[KernelRoot]);
      T := T[r := table];
      W := W[r := Spot(4, r, 0, r)];
      return Some(r);
    }

    lemma NewRootFacts(free: set<nat>, r: nat)
      requires WellFormed(T, W, free, KernelRoot) && Homed(W, KernelRoot) && r in free
      ensures KernelRoot in T && |T[KernelRoot]| == SLOTS && r !in W && r != KernelRoot
      ensures var t', w' := T[r := UserRoot(T[KernelRoot])], W[r := Spot(4, r, 0, r)];
        && WellFormed(t', w', free - {r}, KernelRoot) && Homed(w', KernelRoot) && Owned(t', w', r)
          && Frames(w', r) == {r}
        && (forall s, va: nat :: IsRoot(T, W, s) ==> Translate(t', s, va) == Translate(T, s, va))
        && (forall s, va: nat :: IsRoot(T, W, s) ==> SameAccess(T, t', s, va))
        && (forall s :: Owned(T, W, s) ==> Owned(t', w', s) && Frames(w', s) == Frames(W, s))
        && (forall va: nat :: Translate(t', r, va) == if Index(4, va) < 256 then None else Translate(T, KernelRoot, va))
    {
      NewRootIsWellFormed(T, W, free, KernelRoot, r);
      var t', w' := T[r := UserRoot(T[KernelRoot])], W[r := Spot(4, r, 0, r)];
      forall s | IsRoot(T, W, s)
        ensures forall va: nat :: Translate(t', s, va) == Translate(T, s, va)
        ensures forall va: nat :: SameAccess(T, t', s, va)
        ensures Owned(T, W, s) ==> Owned(t', w', s) && Frames(w', s) == Frames(W, s)
      {
        NewRootChangesNothing(T, W, free, KernelRoot, r, s);
      }
      forall va: nat
        ensures Translate(t', r, va) == if Index(4, va) < 256 then None else Translate(T, KernelRoot, va)
      {
        NewRootMaps(T, W, free, KernelRoot, r, va);
      }
    }

    /** The loops of PagingDestroyUserAddressSpace, one level per call: what hangs below f is given back,
        then f itself. Each frame is given back once, and no table is read after it was given back. */
    method FreeTree(f: nat, level: nat, ghost t: Tables, ghost root: nat)
      requires Owned(t, W, root) && f in W && W[f].home == root && level == W[f].level <= 4
      requires (level >= 1 ==> f in t && |t[f]| == SLOTS)
      requires forall g :: g in t && g in W ==> |t[g]| == SLOTS
      requires forall g :: g in W && W[g].level >= 1 ==> g in t
      requires Subtree(W, root, f) !! Free
      requires forall g :: g in Subtree(W, root, f) && g in t ==> g in T && T[g] == t[g]
      modifies `T, `Free
      ensures Free == old(Free) + Subtree(W, root, f) && T == old(T) - Subtree(W, root, f)
      decreases level
    {
      hide Owned, Subtree, Below;
      WholeSubtree(t, W, root, f);
      if level > 0 {
        for i := 0 to if level == 4 then 256 else SLOTS
          invariant Free == old(Free) + Below(W, root, f, i) && T == old(T) - Below(W, root, f, i)
        {
          SlotByCase(t, W, root, f, i);
          BelowFacts(W, root, f, i);
          var e := T[f][i];
          if e.present {
            FreeTree(e.frame, level - 1, t, root);
          }
        }
      }
      BelowFacts(W, root, f, if level == 4 then 256 else SLOTS);
      T := T - {f};
      FreePage(f);
    }

    /** PagingDestroyUserAddressSpace. */
    method DestroyUserAddressSpace(root: nat)
      requires Valid() && IsRoot(T, W, root) && root != KernelRoot && Owned(T, W, root)
      modifies `T, `Free, `W
      ensures Valid() && Free == old(Pool(root)) && OthersKept(root) && root !in T && root !in W
    {
      hide WellFormed, Homed, Owned, Walk, Frames, Subtree, SameAccess;
      DestroyFacts(root);
      FreeTree(root, 4, T, root);
      W := W - Frames(W, root);
    }

    lemma DestroyFacts(root: nat)
      requires Valid() && IsRoot(T, W, root) && root != KernelRoot && Owned(T, W, root)
      ensures W[root].home == root && Subtree(W, root, root) == Frames(W, root) && root in Frames(W, root)
      ensures Frames(W, root) !! Free
      ensures forall g :: g in T ==> |T[g]| == SLOTS
      ensures forall g :: g in W && W[g].level >= 1 ==> g in T
      ensures var gone := Frames(W, root);
        && WellFormed(T - gone, W - gone, Free + gone, KernelRoot) && Homed(W - gone, KernelRoot)
        && (forall s :: s != root && IsRoot(T, W, s) ==> IsRoot(T - gone, W - gone, s))
        && (forall s, va: nat :: s != root && IsRoot(T, W, s) ==> Translate(T - gone, s, va) == Translate(T, s, va))
        && (forall s, va: nat :: s != root && IsRoot(T, W, s) ==> SameAccess(T, T - gone, s, va))
        && (forall s :: s != root && Owned(T, W, s) ==>
          Owned(T - gone, W - gone, s) && Frames(W - gone, s) == Frames(W, s))
    {
      var gone := Frames(W, root);
      WholeSubtree(T, W, root, root);
      RestIsWellFormed(T, W, Free, KernelRoot, root);
      forall s | s != root && IsRoot(T, W, s)
        ensures IsRoot(T - gone, W - gone, s)
        ensures forall va: nat :: Translate(T - gone, s, va) == Translate(T, s, va)
        ensures forall va: nat :: SameAccess(T, T - gone, s, va)
        ensures Owned(T, W, s) ==> Owned(T - gone, W - gone, s) && Frames(W - gone, s) == Frames(W, s)
      {
        RestIsUnchanged(T, W, Free, KernelRoot, root, s);
      }
    }

    /** One piece of memory for an address space that has the extents done. */
    method MapPiece(r: nat, p: Piece, ghost done: seq<Extent>) returns (ghost x: Extent)
      requires Valid() && IsRoot(T, W, r) && r != KernelRoot && Owned(T, W, r) && UserRange(p.va, p.size)
      requires forall b: nat :: b < USER_END ==> (Translate(T, r, b).Some? <==> Covered(done, b))
      modifies `T, `Free, `W, `Ram, `Refusals
      ensures Valid() && IsRoot(T, W, r) && Owned(T, W, r) && OthersKept(r)
      ensures Refusals >= old(Refusals) && Given(p, x, Refusals == old(Refusals))
      ensures forall b: nat :: b < USER_END ==> (Translate(T, r, b).Some? <==> Covered(done + [x], b))
      ensures var lost := old(FramesIn(T, r, x.va, x.va + x.length));
        && Pool(r) == old(Pool(r)) - lost && lost <= old(Pool(r))
        && (NoneTwice(done + [x]) <==> NoneTwice(done) && lost == {})
    {
      hide WellFormed, Homed, Owned, Walk, Frames, Pool, RoundUp, FramesIn, NoneTwice, Covered, SameAccess, Granted;
      ghost var t := T;
      var status, n := MapAnonUser(r, p.va, p.size, p.flags);
      x := Extent(p.va, n);
      NextExtent(t, r, done, x);
    }

    /** The life of an address space: created, given memory in any number of pieces, some of which may run
        out of memory midway, and destroyed. The allocator ends exactly as it began if and only if no address was
        mapped twice; otherwise the frames mapped over are lost for good. done says what was mapped of each piece: all
        of it, unless a frame was asked for when none was free. */
    method Live(pieces: seq<Piece>) returns (ghost lost: set<nat>, ghost done: seq<Extent>)
      requires Valid() && forall k :: 0 <= k < |pieces| ==> UserRange(pieces[k].va, pieces[k].size)
      modifies `T, `Free, `W, `Ram, `Refusals
      ensures Valid() && RootsKept() && |done| == if old(Free) == {} then 0 else |pieces|
      ensures Refusals >= old(Refusals)
      ensures forall k :: 0 <= k < |done| ==> Given(pieces[k], done[k], Refusals == old(Refusals))
      ensures Free == old(Free) - lost && lost <= old(Free)
      ensures lost == {} <==> NoneTwice(done)
    {
      hide WellFormed, Homed, Owned, Walk, Frames, Pool, RoundUp, FramesIn, NoneTwice, Covered, SameAccess, Given;
      AccessOfSame(T);
      OwnedArePlaced();
      lost, done := {}, [];
      NothingDone();
      var root := CreateUserAddressSpace();
      if root.None? { return; }
      var r := root.value;
      EmptyUserHalf(r);
      for i := 0 to |pieces|
        invariant Valid() && IsRoot(T, W, r) && Owned(T, W, r) && OthersKept(r)
        invariant Pool(r) == old(Free) - lost && lost <= old(Free)
        invariant |done| == i && Refusals >= old(Refusals)
        invariant forall k :: 0 <= k < i ==> Given(pieces[k], done[k], Refusals == old(Refusals))
        invariant forall b: nat :: b < USER_END ==> (Translate(T, r, b).Some? <==> Covered(done, b))
        invariant lost == {} <==> NoneTwice(done)
      {
        ghost var t, pool := T, Pool(r);
        ghost var x := MapPiece(r, pieces[i], done);
        AccessChain(old(T), t, T);
        GivenLess();
        lost := lost + (pool - Pool(r));
        done := done + [x];
      }
      ghost var t := T;
      DestroyUserAddressSpace(r);
      AccessChain(old(T), t, T);
    }

    lemma OwnedArePlaced()
      ensures forall s :: Owned(T, W, s) ==> s in W
    {
    }

    lemma EmptyUserHalf(r: nat)
      requires forall va: nat :: Index(4, va) < 256 ==> Translate(T, r, va) == None
      ensures forall va: nat :: va < USER_END ==> Translate(T, r, va) == None
    {
      forall va: nat | va < USER_END
        ensures Translate(T, r, va) == None
      {
        UserIndex(va);
      }
    }

    lemma MappedIsOwned(root: nat, va: nat)
      requires Valid() && Owned(T, W, root) && Index(4, va) < 256
      ensures FrameAt(T, root, va) <= Frames(W, root) && FrameAt(T, root, va) !! Free
      ensures FrameAt(T, root, va) <= Pool(root)
    {
      if Translate(T, root, va).Some? { OwnedTranslation(T, W, Free, KernelRoot, root, va); }
    }

    /** No mapped user page of an owned root lies in a free frame. */
    lemma MappedAreNotFree(root: nat)
      requires Valid() && IsRoot(T, W, root) && Owned(T, W, root)
      ensures forall b: nat :: b < USER_END && Translate(T, root, b).Some? ==>
        Translate(T, root, b).value / PAGE_SIZE !in Free
    {
      forall b: nat | b < USER_END && Translate(T, root, b).Some?
        ensures Translate(T, root, b).value / PAGE_SIZE !in Free
      {
        UserIndex(b);
        OwnedTranslation(T, W, Free, KernelRoot, root, b);
      }
    }

    /** Every mapped user page of an owned root is one of its frames. */
    lemma MappedAreOwned(root: nat)
      requires Valid() && IsRoot(T, W, root) && Owned(T, W, root)
      ensures forall b: nat :: b < USER_END && Translate(T, root, b).Some? ==>
        Translate(T, root, b).value / PAGE_SIZE in Pool(root)
    {
      forall b: nat | b < USER_END && Translate(T, root, b).Some?
        ensures Translate(T, root, b).value / PAGE_SIZE in Pool(root)
      {
        UserIndex(b);
        OwnedTranslation(T, W, Free, KernelRoot, root, b);
      }
    }

    lemma RootFacts(root: nat)
      requires Valid() && IsRoot(T, W, root)
      ensures forall f :: f in T ==> f in W && |T[f]| == SLOTS
      ensures Owned(T, W, root) ==> W[root].home == root
    {
    }

    lemma HugeOnlyInDirectories(table: nat, index: nat)
      requires Valid() && table in T && W[table].level >= 2 && index < SLOTS
      ensures |T[table]| == SLOTS && (T[table][index].huge ==> T[table][index].present && W[table].level == 2)
    {
      assert ChildFits(T, W, KernelRoot, table, index);
    }

    /** The user half of an owned root has no huge entry. */
    lemma OwnedIsSmall(root: nat, table: nat, index: nat)
      requires Valid() && Owned(T, W, root) && table in T && W[table].home == root && W[table].level == 2
        && index < SLOTS
      ensures |T[table]| == SLOTS && !T[table][index].huge
    {
      assert ChildFits(T, W, KernelRoot, table, index);
      assert Recorded(T, W, root, table, index);
    }

    lemma TableFacts(table: nat, index: nat)
      requires Valid() && table in T && W[table].level >= 2 && index < SLOTS
      ensures |T[table]| == SLOTS && table in W
      ensures var e := T[table][index];
        && (e.huge ==> e.present && W[table].level == 2)
        && (forall r :: Owned(T, W, r) && W[table].home == r && index < Width(W, table) && e.present ==>
          e.frame in W && W[e.frame].home == r)
        && (e.present && !e.huge ==> e.frame in T && e.frame in W && W[e.frame].level == W[table].level - 1)
      ensures forall f :: f in T ==> f in W
      ensures forall f :: f in Free ==> f !in W && f !in T
    {
      assert ChildFits(T, W, KernelRoot, table, index);
      forall r | Owned(T, W, r) && W[table].home == r && index < Width(W, table) && T[table][index].present
        ensures T[table][index].frame in W && W[T[table][index].frame].home == r
      {
        assert Recorded(T, W, r, table, index);
      }
    }
  }

  lemma LeafReached(t: Tables, a: nat, b: nat, c: nat, d: nat, va: nat)
    requires a in t && b in t && c in t && d in t
    requires |t[a]| == |t[b]| == |t[c]| == |t[d]| == SLOTS
    requires var e := t[a][Index(4, va)]; e.present && e.frame == b
    requires var e := t[b][Index(3, va)]; e.present && !e.huge && e.frame == c
    requires var e := t[c][Index(2, va)]; e.present && !e.huge && e.frame == d
    ensures Leaf(t, a, 4, va) == Some(d)
  {
    assert Leaf(t, d, 1, va) == Some(d);
    assert Leaf(t, c, 2, va) == Some(d);
    assert Leaf(t, b, 3, va) == Some(d);
  }

  lemma UserReached(t: Tables, a: nat, b: nat, c: nat, d: nat, va: nat)
    requires a in t && b in t && c in t && |t[a]| == |t[b]| == |t[c]| == SLOTS
    requires var e := t[a][Index(4, va)]; e.present && e.frame == b
    requires var e := t[b][Index(3, va)]; e.present && !e.huge && e.frame == c
    requires var e := t[c][Index(2, va)]; e.present && !e.huge && e.frame == d
    ensures t[a][Index(4, va)].user && t[b][Index(3, va)].user && t[c][Index(2, va)].user ==> UserTables(t, a, 4, va)
  {
    assert UserTables(t, d, 1, va);
    assert t[c][Index(2, va)].user ==> UserTables(t, c, 2, va);
    assert t[b][Index(3, va)].user && t[c][Index(2, va)].user ==> UserTables(t, b, 3, va);
  }

  lemma HugeIsMapped(t: Tables, a: nat, b: nat, c: nat, va: nat)
    requires a in t && b in t && c in t && |t[a]| == |t[b]| == |t[c]| == SLOTS
    requires var e := t[a][Index(4, va)]; e.present && e.frame == b
    requires var e := t[b][Index(3, va)]; e.present && !e.huge && e.frame == c
    ensures t[c][Index(2, va)].present && t[c][Index(2, va)].huge ==> Translate(t, a, va).Some?
  {
    assert t[c][Index(2, va)].present && t[c][Index(2, va)].huge ==> Walk(t, c, 2, va).Some?;
    assert Walk(t, b, 3, va) == Walk(t, c, 2, va);
  }

  /** The first slot on the way that is absent or huge ends the walk without a level-1 table. */
  lemma LeafStops(t: Tables, a: nat, va: nat)
    requires a in t && |t[a]| == SLOTS
    ensures !t[a][Index(4, va)].present ==> Leaf(t, a, 4, va) == None
    ensures var b := t[a][Index(4, va)].frame;
      b in t && |t[b]| == SLOTS ==>
        var e := t[b][Index(3, va)];
        && (!e.present || e.huge ==> Leaf(t, a, 4, va) == None)
        && (e.frame in t && |t[e.frame]| == SLOTS ==>
              var e' := t[e.frame][Index(2, va)];
              !e'.present || e'.huge ==> Leaf(t, a, 4, va) == None)
  {
    var b := t[a][Index(4, va)].frame;
    if b in t && |t[b]| == SLOTS {
      var e := t[b][Index(3, va)];
      assert !e.present || e.huge ==> Leaf(t, b, 3, va) == None;
      if e.frame in t && |t[e.frame]| == SLOTS {
        var e' := t[e.frame][Index(2, va)];
        assert !e'.present || e'.huge ==> Leaf(t, e.frame, 2, va) == None;
        assert !e'.present || e'.huge ==> Leaf(t, b, 3, va) == None;
      }
    }
  }

  lemma PointerFacts(t: Tables, w: Places, free: set<nat>, kernel: nat, f: nat, i: nat, e: Entry)
    requires WellFormed(t, w, free, kernel) && f in t && |t[f]| == SLOTS && i < SLOTS
    requires e.frame == t[f][i].frame && e.present == t[f][i].present && e.huge == t[f][i].huge
    requires w[f].level >= 2 && (t[f][i].user ==> e.user)
    ensures WellFormed(Put(t, f, i, e), w, free, kernel)
    ensures forall r, va: nat :: IsRoot(t, w, r) ==> SameAccess(t, Put(t, f, i, e), r, va)
    ensures forall r, va: nat :: Translate(Put(t, f, i, e), r, va) == Translate(t, r, va)
    ensures forall r, va: nat :: Leaf(Put(t, f, i, e), r, 4, va) == Leaf(t, r, 4, va)
    ensures forall r :: Owned(t, w, r) ==> Owned(Put(t, f, i, e), w, r)
  {
    SamePointerKeepsShape(t, w, free, kernel, f, i, e);
    forall r, va: nat
      ensures Translate(Put(t, f, i, e), r, va) == Translate(t, r, va)
      ensures Leaf(Put(t, f, i, e), r, 4, va) == Leaf(t, r, 4, va)
    {
      SamePointerKeepsWay(t, f, i, e, r, 4, va);
      SamePointerIsNeutral(t, w, free, kernel, f, i, e, r, 4, va);
    }
    forall r, va: nat | IsRoot(t, w, r)
      ensures SameAccess(t, Put(t, f, i, e), r, va)
    {
      SamePointerKeepsAccess(t, w, free, kernel, f, i, e, r, va);
    }
    forall r | Owned(t, w, r)
      ensures Owned(Put(t, f, i, e), w, r)
    {
      SamePointerKeepsOwnership(t, w, free, kernel, f, i, e, r);
    }
  }

  lemma HangFacts(t: Tables, w: Places, free: set<nat>, kernel: nat, f: nat, i: nat, added: nat, e: Entry,
          sub: seq<Entry>)
    requires WellFormed(t, w, free, kernel)
    requires f in t && w[f].level >= 2 && i < SLOTS && added in free
    requires SameMeaning(t[f][i], sub) && |sub| == SLOTS && e.frame == added && e.present && !e.huge
    ensures var t' := Put(t, f, i, e)[added := sub];
      var w' := w[added := Spot(w[f].level - 1, f, i, HomeAt(w, kernel, f, i))];
      && added !in t && f in w && |t[f]| == SLOTS && added !in w
      && WellFormed(t', w', free - {added}, kernel)
      && (forall r, va: nat :: IsRoot(t, w, r) ==> Translate(t', r, va) == Translate(t, r, va))
      && (forall r, va: nat :: IsRoot(t, w, r) ==> SameAccess(t, t', r, va))
      && (forall r :: r != kernel && Owned(t, w, r) ==> Owned(t', w', r))
  {
    hide SameAccess, Walk, Owned;
    NewTableKeepsShape(t, w, free, kernel, f, i, added, e, sub);
    forall r, va: nat | IsRoot(t, w, r)
      ensures Translate(Put(t, f, i, e)[added := sub], r, va) == Translate(t, r, va)
    {
      NewTableIsNeutral(t, w, free, kernel, f, i, added, e, sub, r, 4, va);
    }
    var t' := Put(t, f, i, e)[added := sub];
    forall r, va: nat | IsRoot(t, w, r)
      ensures SameAccess(t, t', r, va)
    {
      NewTableKeepsAccess(t, w, free, kernel, f, i, added, e, sub, r, va);
    }
    forall r | r != kernel && Owned(t, w, r)
      ensures Owned(Put(t, f, i, e)[added := sub], w[added := Spot(w[f].level - 1, f, i, HomeAt(w, kernel, f, i))], r)
    {
      NewTableKeepsOwnership(t, w, free, kernel, f, i, added, e, sub, r);
    }
  }
}
