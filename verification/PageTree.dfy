/** Four-level page tables as memory: what they translate, and when they form trees. */
module PageTree {
  import opened Bytes

  datatype Option<T> = None | Some(value: T)

  const SLOTS: nat := 512

  /** A table entry: the frame bits and the flag bits the kernel looks at. */
  datatype Entry = Entry(frame: nat, present: bool, writable: bool, user: bool, huge: bool, noExec: bool)

  const EMPTY: Entry := Entry(0, false, false, false, false, false)

  /** The table pages of physical memory, by frame number. */
  type Tables = map<nat, seq<Entry>>

  /** PML4_INDEX_4, PDPT_INDEX_4, PD_INDEX_4 and PT_INDEX_4 for levels 4, 3, 2 and 1. */
  function Index(level: nat, va: nat): (i: nat)
    requires 1 <= level <= 4
    ensures i < SLOTS
  {
    match level
    case 4 => (va / 0x80_0000_0000) % SLOTS
    case 3 => (va / 0x4000_0000) % SLOTS
    case 2 => (va / 0x20_0000) % SLOTS
    case _ => (va / 0x1000) % SLOTS
  }

  /** The frame number under HUGE_PAGE_MASK. */
  function HugeFrame(frame: nat): nat {
    frame - frame % SLOTS
  }

  /** The walk of PagingLookupVirt from a table of the given level. */
  function Walk(t: Tables, f: nat, level: nat, va: nat): Option<nat>
    requires 1 <= level <= 4
    decreases level
  {
    if f !in t || |t[f]| != SLOTS then None
    else
      var e := t[f][Index(level, va)];
      if !e.present then None
      else if level == 1 then Some(e.frame * PAGE_SIZE + va % PAGE_SIZE)
      else if e.huge && level < 4 then Some(HugeFrame(e.frame) * PAGE_SIZE + va % (PAGE_SIZE * SLOTS))
      else Walk(t, e.frame, level - 1, va)
  }

  function Translate(t: Tables, root: nat, va: nat): Option<nat> {
    Walk(t, root, 4, va)
  }

  lemma SameNumberSameSlots(a: nat, b: nat, level: nat)
    requires a / PAGE_SIZE == b / PAGE_SIZE && 1 <= level <= 4
    ensures Index(level, a) == Index(level, b)
  {
    var n := a / PAGE_SIZE;
    assert a / 0x20_0000 == n / 512 && b / 0x20_0000 == n / 512;
    assert a / 0x4000_0000 == n / 512 / 512 && b / 0x4000_0000 == n / 512 / 512;
    assert a / 0x80_0000_0000 == n / 512 / 512 / 512 && b / 0x80_0000_0000 == n / 512 / 512 / 512;
  }

  lemma AdvanceInPage(va: nat, k: nat)
    requires k < PAGE_SIZE - va % PAGE_SIZE
    ensures (va + k) % PAGE_SIZE == va % PAGE_SIZE + k
    ensures (va + k) % (PAGE_SIZE * SLOTS) == va % (PAGE_SIZE * SLOTS) + k
    ensures (va + k) / PAGE_SIZE == va / PAGE_SIZE
  {
    SameNumberSameSlots(va, va + k, 1);
    OffsetInHugePage(va);
    OffsetInHugePage(va + k);
  }

  /** Inside one page, physical addresses advance with virtual ones. */
  lemma {:induction false} PageIsContiguous(t: Tables, f: nat, level: nat, va: nat, k: nat)
    requires 1 <= level <= 4 && k < PAGE_SIZE - va % PAGE_SIZE
    ensures Walk(t, f, level, va + k) ==
      match Walk(t, f, level, va) case None => None case Some(p) => Some(p + k)
    decreases level
  {
    hide Index, HugeFrame;
    SameNumberSameSlots(va, va + k, level);
    AdvanceInPage(va, k);
    if level > 1 && f in t && |t[f]| == SLOTS {
      PageIsContiguous(t, t[f][Index(level, va)].frame, level - 1, va, k);
    }
  }

  /** Addresses of one page are translated together or not at all. */
  lemma {:induction false} SamePageSameFate(t: Tables, f: nat, level: nat, a: nat, b: nat)
    requires SamePage(a, b) && 1 <= level <= 4
    ensures Walk(t, f, level, a).Some? <==> Walk(t, f, level, b).Some?
    decreases level
  {
    assert Index(level, a) == Index(level, b);
    if level > 1 && f in t && |t[f]| == SLOTS {
      SamePageSameFate(t, t[f][Index(level, a)].frame, level - 1, a, b);
    }
  }

  /** Where a table or an owned page hangs: its level (0 for a page), the table and slot that point to it,
      and the root whose user half it belongs to. */
  datatype Spot = Spot(level: nat, parent: nat, index: nat, home: nat)

  type Places = map<nat, Spot>

  ghost predicate ChildFits(t: Tables, w: Places, kernel: nat, f: nat, i: nat)
    requires f in t && f in w && i < |t[f]|
  {
    var e, level := t[f][i], w[f].level;
    level >= 2 ==>
      && (e.huge ==> e.present && level == 2 && e.frame % SLOTS == 0)
      && (e.present && !e.huge ==>
            && e.frame in t && e.frame in w && w[e.frame].level == level - 1 && w[e.frame].index == i
            && (w[e.frame].parent == f || (level == 4 && i >= 256 && w[e.frame].parent == kernel)))
  }

  /** The tables form trees that share nothing except the kernel half. */
  ghost predicate WellFormed(t: Tables, w: Places, free: set<nat>, kernel: nat) {
    && (forall f :: f in t ==> |t[f]| == SLOTS && f in w && 1 <= w[f].level <= 4)
    && (forall f :: f in w ==> f !in free && (w[f].level == 0 <==> f !in t))
    && (forall f, i :: f in t && 0 <= i < SLOTS ==> ChildFits(t, w, kernel, f, i))
    && kernel in t && w[kernel].level == 4
  }

  /** Every frame belongs to a live root. */
  ghost predicate Homed(w: Places, kernel: nat) {
    && (forall f :: f in w ==> w[f].home in w && w[w[f].home].home == w[f].home)
    && kernel in w && w[kernel].home == kernel
  }

  lemma HomedMore(w: Places, kernel: nat, f: nat, spot: Spot)
    requires Homed(w, kernel) && f !in w && (spot.home == f || (spot.home in w && w[spot.home].home == spot.home))
    ensures Homed(w[f := spot], kernel)
  {
  }

  lemma HomeIsPlaced(w: Places, kernel: nat, f: nat, i: nat)
    requires Homed(w, kernel) && f in w
    ensures var h := HomeAt(w, kernel, f, i); h in w && w[h].home == h
  {
  }

  /** One entry of one table changes. */
  function Put(t: Tables, f: nat, i: nat, e: Entry): Tables
    requires f in t && i < |t[f]|
  {
    t[f := t[f][i := e]]
  }

  function ZeroTable(): (s: seq<Entry>)
    ensures |s| == SLOTS && forall i :: 0 <= i < SLOTS ==> s[i] == EMPTY
  {
    seq(SLOTS, _ => EMPTY)
  }

  /** The table a 2 MiB entry is split into. */
  function SplitTable(e: Entry): (s: seq<Entry>)
    ensures |s| == SLOTS
    ensures forall i :: 0 <= i < SLOTS ==> s[i] == Entry(HugeFrame(e.frame) + i, true, true, e.user, false, e.noExec)
  {
    seq(SLOTS, (i: nat) => Entry(HugeFrame(e.frame) + i, true, true, e.user, false, e.noExec))
  }

  lemma OffsetInHugePage(va: nat)
    ensures va % (PAGE_SIZE * SLOTS) == Index(1, va) * PAGE_SIZE + va % PAGE_SIZE
  {
  }

  /** Hanging a new table under an absent or huge entry changes no translation, when the new table
      says what the entry said. */
  ghost predicate SameMeaning(e: Entry, sub: seq<Entry>) {
    if !e.present then sub == ZeroTable()
    else e.huge && sub == SplitTable(e)
  }

  lemma {:induction false} NewTableIsNeutral(t: Tables, w: Places, free: set<nat>, kernel: nat,
                                             f: nat, i: nat, added: nat, e: Entry, sub: seq<Entry>,
                                             g: nat, level: nat, va: nat)
    requires WellFormed(t, w, free, kernel)
    requires f in t && w[f].level >= 2 && i < SLOTS && added !in t
    requires SameMeaning(t[f][i], sub) && |sub| == SLOTS && e.frame == added && e.present && !e.huge
    requires 1 <= level <= 4 && g in t && w[g].level == level
    ensures Walk(Put(t, f, i, e)[added := sub], g, level, va) == Walk(t, g, level, va)
    decreases level
  {
    var t' := Put(t, f, i, e)[added := sub];
    var k := Index(level, va);
    assert ChildFits(t, w, kernel, g, k) && |t[g]| == SLOTS;
    if g == f && k == i {
      assert t'[g][k] == e;
      if t[f][i].present { OffsetInHugePage(va); }
    } else {
      assert t'[g][k] == t[g][k];
      if level > 1 && t[g][k].present && !t[g][k].huge {
        NewTableIsNeutral(t, w, free, kernel, f, i, added, e, sub, t[g][k].frame, level - 1, va);
      }
    }
  }

  /** The level-1 table at the end of a walk. */
  function Leaf(t: Tables, f: nat, level: nat, va: nat): Option<nat>
    requires 1 <= level <= 4
    decreases level
  {
    if f !in t || |t[f]| != SLOTS then None
    else if level == 1 then Some(f)
    else
      var e := t[f][Index(level, va)];
      if e.present && !(e.huge && level < 4) then Leaf(t, e.frame, level - 1, va) else None
  }

  /** The small entry that maps va. */
  function LeafEntry(t: Tables, root: nat, va: nat): Entry {
    match Leaf(t, root, 4, va)
    case None => EMPTY
    case Some(pt) => if pt in t && |t[pt]| == SLOTS then t[pt][Index(1, va)] else EMPTY
  }

  /** The pointers to all tables on the way let the user through. */
  predicate UserTables(t: Tables, f: nat, level: nat, va: nat)
    requires 1 <= level <= 4
    decreases level
  {
    level == 1
    || (f in t && |t[f]| == SLOTS && t[f][Index(level, va)].user
        && UserTables(t, t[f][Index(level, va)].frame, level - 1, va))
  }

  /** A walk that ends in a level-1 table means what that table's entry says. */
  lemma {:induction false} LeafDecides(t: Tables, f: nat, level: nat, va: nat)
    requires 1 <= level <= 4 && Leaf(t, f, level, va).Some?
    ensures var pt := Leaf(t, f, level, va).value;
      pt in t && |t[pt]| == SLOTS &&
      var e := t[pt][Index(1, va)];
      Walk(t, f, level, va) == if e.present then Some(e.frame * PAGE_SIZE + va % PAGE_SIZE) else None
    decreases level
  {
    if level > 1 {
      LeafDecides(t, t[f][Index(level, va)].frame, level - 1, va);
    }
  }

  /** Writing one entry of a level-1 table redirects exactly the walks that end in it at that slot. */
  lemma {:induction false} LeafWrite(t: Tables, w: Places, free: set<nat>, kernel: nat, pt: nat, i: nat, e: Entry,
          g: nat, level: nat, va: nat)
    requires WellFormed(t, w, free, kernel) && pt in t && w[pt].level == 1 && i < SLOTS
    requires 1 <= level <= 4 && g in t && w[g].level == level
    ensures Walk(Put(t, pt, i, e), g, level, va) ==
      if Leaf(t, g, level, va) == Some(pt) && Index(1, va) == i then
        if e.present then Some(e.frame * PAGE_SIZE + va % PAGE_SIZE) else None
      else Walk(t, g, level, va)
    decreases level
  {
    var k := Index(level, va);
    assert ChildFits(t, w, kernel, g, k) && |t[g]| == SLOTS;
    if level > 1 {
      assert g != pt;
      if t[g][k].present && !t[g][k].huge {
        LeafWrite(t, w, free, kernel, pt, i, e, t[g][k].frame, level - 1, va);
      }
    }
  }

  /** Writing one entry of a level-1 table changes no way to a level-1 table. */
  lemma {:induction false} LeafWriteKeepsWay(t: Tables, w: Places, free: set<nat>, kernel: nat, pt: nat, i: nat,
          e: Entry, g: nat, level: nat, va: nat)
    requires WellFormed(t, w, free, kernel) && pt in t && w[pt].level == 1 && i < SLOTS
    requires 1 <= level <= 4 && g in t && w[g].level == level
    ensures Leaf(Put(t, pt, i, e), g, level, va) == Leaf(t, g, level, va)
    ensures UserTables(t, g, level, va) && Leaf(t, g, level, va).Some? ==> UserTables(Put(t, pt, i, e), g, level, va)
    decreases level
  {
    var k := Index(level, va);
    assert ChildFits(t, w, kernel, g, k) && |t[g]| == SLOTS;
    if level > 1 {
      assert g != pt;
      if t[g][k].present && !t[g][k].huge {
        LeafWriteKeepsWay(t, w, free, kernel, pt, i, e, t[g][k].frame, level - 1, va);
      }
    }
  }

  /** The table of level k above the level-1 table pt. */
  function Above(w: Places, pt: nat, k: nat): nat
    requires k >= 1
    decreases k
  {
    if k == 1 then pt
    else
      var c := Above(w, pt, k - 1);
      if c in w then w[c].parent else c
  }

  /** The walks that end in a table all used the slots recorded for it and for the tables above it. */
  lemma {:induction false} WalkUsesRecordedSlots(t: Tables, w: Places, free: set<nat>, kernel: nat, pt: nat, g: nat,
          level: nat, va: nat)
    requires WellFormed(t, w, free, kernel)
    requires 1 <= level <= 4 && g in t && w[g].level == level && Leaf(t, g, level, va) == Some(pt)
    ensures level <= 3 ==> g == Above(w, pt, level)
    ensures level == 4 ==>
      && Above(w, pt, 3) in w
      && (w[Above(w, pt, 3)].parent == g || (Index(4, va) >= 256 && w[Above(w, pt, 3)].parent == kernel))
    ensures forall k :: 2 <= k <= level ==> Above(w, pt, k - 1) in w && Index(k, va) == w[Above(w, pt, k - 1)].index
    decreases level
  {
    if level > 1 {
      var k := Index(level, va);
      assert ChildFits(t, w, kernel, g, k) && |t[g]| == SLOTS;
      WalkUsesRecordedSlots(t, w, free, kernel, pt, t[g][k].frame, level - 1, va);
    }
  }

  /** The same 4 KiB page of the 48-bit address space. */
  predicate SamePage(a: nat, b: nat) {
    && Index(4, a) == Index(4, b) && Index(3, a) == Index(3, b)
    && Index(2, a) == Index(2, b) && Index(1, a) == Index(1, b)
  }

  lemma SamePageIffSameNumber(a: nat, b: nat)
    ensures SamePage(a, b) <==> (a / PAGE_SIZE) % 0x10_0000_0000 == (b / PAGE_SIZE) % 0x10_0000_0000
  {
    hide Index;
    SplitNumber(a);
    SplitNumber(b);
    var a3, b3 := Index(4, a) * SLOTS + Index(3, a), Index(4, b) * SLOTS + Index(3, b);
    var a2, b2 := a3 * SLOTS + Index(2, a), b3 * SLOTS + Index(2, b);
    LastDigit(Index(4, a), Index(3, a), Index(4, b), Index(3, b));
    LastDigit(a3, Index(2, a), b3, Index(2, b));
    LastDigit(a2, Index(1, a), b2, Index(1, b));
  }

  lemma LastDigit(a: nat, i: nat, b: nat, j: nat)
    requires i < SLOTS && j < SLOTS
    ensures a * SLOTS + i == b * SLOTS + j <==> a == b && i == j
  {
  }

  lemma SplitNumber(a: nat)
    ensures (a / PAGE_SIZE) % 0x10_0000_0000
      == ((Index(4, a) * SLOTS + Index(3, a)) * SLOTS + Index(2, a)) * SLOTS + Index(1, a)
  {
    var n1 := a / 0x1000;
    var n2 := n1 / 512;
    var n3 := n2 / 512;
    var n4 := n3 / 512;
    IndicesOfNumber(a);
    LastOfNumber(n1);
    LastOfNumber(n2);
    LastOfNumber(n3);
    LastOfNumber(n4);
    CutNumber(n4 / 512, ((n4 % 512 * 512 + n3 % 512) * 512 + n2 % 512) * 512 + n1 % 512);
  }

  lemma IndicesOfNumber(a: nat)
    ensures var n := a / 0x1000;
      && Index(1, a) == n % 512 && Index(2, a) == n / 512 % 512 && Index(3, a) == n / 512 / 512 % 512
      && Index(4, a) == n / 512 / 512 / 512 % 512
  {
    var n := a / 0x1000;
    assert a / 0x20_0000 == n / 512;
    assert a / 0x4000_0000 == n / 512 / 512;
    assert a / 0x80_0000_0000 == n / 512 / 512 / 512;
  }

  lemma LastOfNumber(n: nat)
    ensures n == n / 512 * 512 + n % 512 && n % 512 < 512
  {
  }

  lemma CutNumber(q: nat, r: nat)
    requires r < 0x10_0000_0000
    ensures (q * 0x10_0000_0000 + r) % 0x10_0000_0000 == r
  {
  }

  /** The walk ends at a huge entry. */
  predicate HugeMapped(t: Tables, root: nat, va: nat) {
    Translate(t, root, va).Some? && Leaf(t, root, 4, va).None?
  }

  /** A well-formed write of one page: it redirects that page of the root it was made for and nothing else of it,
      and, in the user half, nothing of any other root. */
  lemma PageWrite(t: Tables, w: Places, free: set<nat>, kernel: nat, root: nat, va: nat, pt: nat, e: Entry)
    requires WellFormed(t, w, free, kernel) && root in t && w[root].level == 4
    requires Leaf(t, root, 4, va) == Some(pt) && pt in t && w[pt].level == 1
    ensures var t' := Put(t, pt, Index(1, va), e);
      && (forall b: nat :: Translate(t', root, b) ==
            if SamePage(b, va) then (if e.present then Some(e.frame * PAGE_SIZE + b % PAGE_SIZE) else None)
            else Translate(t, root, b))
      && (Index(4, va) < 256 ==> forall r, b: nat :: r != root && r in t && w[r].level == 4 ==>
        Translate(t', r, b) == Translate(t, r, b))
  {
    var i := Index(1, va);
    WalkUsesRecordedSlots(t, w, free, kernel, pt, root, 4, va);
    forall b: nat
      ensures Translate(Put(t, pt, i, e), root, b) ==
        if SamePage(b, va) then (if e.present then Some(e.frame * PAGE_SIZE + b % PAGE_SIZE) else None)
        else Translate(t, root, b)
    {
      LeafWrite(t, w, free, kernel, pt, i, e, root, 4, b);
      if Leaf(t, root, 4, b) == Some(pt) {
        WalkUsesRecordedSlots(t, w, free, kernel, pt, root, 4, b);
      }
      if SamePage(b, va) { SameSlotsSameLeaf(t, root, 4, b, va); }
    }
    if Index(4, va) < 256 {
      forall r, b: nat | r != root && r in t && w[r].level == 4
        ensures Translate(Put(t, pt, i, e), r, b) == Translate(t, r, b)
      {
        LeafWrite(t, w, free, kernel, pt, i, e, r, 4, b);
        if Leaf(t, r, 4, b) == Some(pt) {
          WalkUsesRecordedSlots(t, w, free, kernel, pt, r, 4, b);
        }
      }
    }
  }

  lemma {:induction false} SameSlotsSameLeaf(t: Tables, f: nat, level: nat, a: nat, b: nat)
    requires SamePage(a, b) && 1 <= level <= 4
    ensures Leaf(t, f, level, a) == Leaf(t, f, level, b)
    decreases level
  {
    if level > 1 && f in t && |t[f]| == SLOTS {
      assert Index(level, a) == Index(level, b);
      SameSlotsSameLeaf(t, t[f][Index(level, a)].frame, level - 1, a, b);
    }
  }

  // ---- What a page may be used for ----

  /** If va had a level-1 table it still has it, with the same entry, and where the user got through the user does. */
  ghost predicate SameAccess(t: Tables, t': Tables, r: nat, va: nat) {
    Leaf(t, r, 4, va).Some? ==>
      && Leaf(t', r, 4, va) == Leaf(t, r, 4, va) && LeafEntry(t', r, va) == LeafEntry(t, r, va)
      && (UserTables(t, r, 4, va) ==> UserTables(t', r, 4, va))
  }

  lemma AccessChain(t0: Tables, t1: Tables, t2: Tables)
    ensures forall r, va: nat :: SameAccess(t0, t1, r, va) && SameAccess(t1, t2, r, va) ==> SameAccess(t0, t2, r, va)
  {
    hide Leaf, LeafEntry, UserTables;
  }

  lemma AccessOfSame(t: Tables)
    ensures forall r, va: nat :: SameAccess(t, t, r, va)
  {
  }

  lemma {:induction false} LeafIsLast(t: Tables, w: Places, free: set<nat>, kernel: nat, g: nat, level: nat, va: nat)
    requires WellFormed(t, w, free, kernel) && 1 <= level <= 4 && g in t && w[g].level == level
    ensures Leaf(t, g, level, va).Some? ==>
      var pt := Leaf(t, g, level, va).value; pt in t && w[pt].level == 1 && |t[pt]| == SLOTS
    decreases level
  {
    if level > 1 {
      var k := Index(level, va);
      assert ChildFits(t, w, kernel, g, k) && |t[g]| == SLOTS;
      if t[g][k].present && !t[g][k].huge { LeafIsLast(t, w, free, kernel, t[g][k].frame, level - 1, va); }
    }
  }

  /** A new table under an absent or huge slot is in the way of no walk that ended in a level-1 table. */
  lemma {:induction false} NewTableKeepsWay(t: Tables, w: Places, free: set<nat>, kernel: nat, f: nat, i: nat,
          added: nat, e: Entry, sub: seq<Entry>, g: nat, level: nat, va: nat)
    requires WellFormed(t, w, free, kernel)
    requires f in t && w[f].level >= 2 && i < SLOTS && added !in t
    requires SameMeaning(t[f][i], sub) && |sub| == SLOTS && e.frame == added && e.present && !e.huge
    requires 1 <= level <= 4 && g in t && w[g].level == level && Leaf(t, g, level, va).Some?
    ensures var t' := Put(t, f, i, e)[added := sub];
      && Leaf(t', g, level, va) == Leaf(t, g, level, va)
      && (UserTables(t, g, level, va) ==> UserTables(t', g, level, va))
    decreases level
  {
    var t' := Put(t, f, i, e)[added := sub];
    var k := Index(level, va);
    assert ChildFits(t, w, kernel, g, k) && |t[g]| == SLOTS;
    if level > 1 {
      assert t'[g][k] == t[g][k];
      NewTableKeepsWay(t, w, free, kernel, f, i, added, e, sub, t[g][k].frame, level - 1, va);
    }
  }

  lemma NewTableKeepsAccess(t: Tables, w: Places, free: set<nat>, kernel: nat, f: nat, i: nat, added: nat, e: Entry,
          sub: seq<Entry>, r: nat, va: nat)
    requires WellFormed(t, w, free, kernel)
    requires f in t && w[f].level >= 2 && i < SLOTS && added !in t
    requires SameMeaning(t[f][i], sub) && |sub| == SLOTS && e.frame == added && e.present && !e.huge
    requires r in t && w[r].level == 4
    ensures SameAccess(t, Put(t, f, i, e)[added := sub], r, va)
  {
    LeafIsLast(t, w, free, kernel, r, 4, va);
    if Leaf(t, r, 4, va).Some? { NewTableKeepsWay(t, w, free, kernel, f, i, added, e, sub, r, 4, va); }
  }

  /** A pointer that lets the user through as before, or now, closes no way. */
  lemma {:induction false} SamePointerKeepsWay(t: Tables, f: nat, i: nat, e: Entry, g: nat, level: nat, va: nat)
    requires f in t && |t[f]| == SLOTS && i < SLOTS && 1 <= level <= 4
    requires e.frame == t[f][i].frame && e.present == t[f][i].present && e.huge == t[f][i].huge
    ensures Leaf(Put(t, f, i, e), g, level, va) == Leaf(t, g, level, va)
    ensures (t[f][i].user ==> e.user) && UserTables(t, g, level, va) ==> UserTables(Put(t, f, i, e), g, level, va)
    decreases level
  {
    if level > 1 && g in t && |t[g]| == SLOTS {
      SamePointerKeepsWay(t, f, i, e, t[g][Index(level, va)].frame, level - 1, va);
    }
  }

  lemma SamePointerKeepsAccess(t: Tables, w: Places, free: set<nat>, kernel: nat, f: nat, i: nat, e: Entry, r: nat,
          va: nat)
    requires WellFormed(t, w, free, kernel) && f in t && w[f].level >= 2 && i < SLOTS
    requires e.frame == t[f][i].frame && e.present == t[f][i].present && e.huge == t[f][i].huge
    requires (t[f][i].user ==> e.user) && r in t && w[r].level == 4
    ensures SameAccess(t, Put(t, f, i, e), r, va)
  {
    LeafIsLast(t, w, free, kernel, r, 4, va);
    SamePointerKeepsWay(t, f, i, e, r, 4, va);
  }

  /** A page write gives the page its entry and changes the entry of no other page of the root, nor, in the user half,
      of any other root. */
  lemma PageWriteAccess(t: Tables, w: Places, free: set<nat>, kernel: nat, root: nat, va: nat, pt: nat, e: Entry)
    requires WellFormed(t, w, free, kernel) && root in t && w[root].level == 4
    requires Leaf(t, root, 4, va) == Some(pt) && pt in t && w[pt].level == 1
    ensures var t' := Put(t, pt, Index(1, va), e);
      && (forall b: nat :: !SamePage(b, va) ==> SameAccess(t, t', root, b))
      && (forall b: nat :: SamePage(b, va) ==>
            && LeafEntry(t', root, b) == e
            && (UserTables(t, root, 4, va) ==> UserTables(t', root, 4, b)))
      && (Index(4, va) < 256 ==> forall r, b: nat :: r != root && r in t && w[r].level == 4 ==>
        SameAccess(t, t', r, b))
  {
    hide ChildFits, Leaf, UserTables, SamePage, LeafEntry, SameAccess, Index;
    forall r, b: nat | r in t && w[r].level == 4
      && ((r == root && !SamePage(b, va)) || (r != root && Index(4, va) < 256))
      ensures SameAccess(t, Put(t, pt, Index(1, va), e), r, b)
    {
      OtherPageAccess(t, w, free, kernel, root, va, pt, e, r, b);
    }
    forall b: nat | SamePage(b, va)
      ensures var t' := Put(t, pt, Index(1, va), e);
        LeafEntry(t', root, b) == e && (UserTables(t, root, 4, va) ==> UserTables(t', root, 4, b))
    {
      SamePageAccess(t, w, free, kernel, root, va, pt, e, b);
    }
  }

  lemma OtherPageAccess(t: Tables, w: Places, free: set<nat>, kernel: nat, root: nat, va: nat, pt: nat, e: Entry,
          r: nat, b: nat)
    requires WellFormed(t, w, free, kernel) && root in t && w[root].level == 4
    requires Leaf(t, root, 4, va) == Some(pt) && pt in t && w[pt].level == 1
    requires r in t && w[r].level == 4 && ((r == root && !SamePage(b, va)) || (r != root && Index(4, va) < 256))
    ensures SameAccess(t, Put(t, pt, Index(1, va), e), r, b)
  {
    WalkUsesRecordedSlots(t, w, free, kernel, pt, root, 4, va);
    LeafWriteKeepsWay(t, w, free, kernel, pt, Index(1, va), e, r, 4, b);
    if Leaf(t, r, 4, b) == Some(pt) { WalkUsesRecordedSlots(t, w, free, kernel, pt, r, 4, b); }
  }

  lemma SamePageAccess(t: Tables, w: Places, free: set<nat>, kernel: nat, root: nat, va: nat, pt: nat, e: Entry,
          b: nat)
    requires WellFormed(t, w, free, kernel) && root in t && w[root].level == 4 && SamePage(b, va)
    requires Leaf(t, root, 4, va) == Some(pt) && pt in t && w[pt].level == 1
    ensures var t' := Put(t, pt, Index(1, va), e);
      LeafEntry(t', root, b) == e && (UserTables(t, root, 4, va) ==> UserTables(t', root, 4, b))
  {
    SameSlotsSameLeaf(t, root, 4, b, va);
    SameSlotsSameUser(t, root, 4, b, va);
    LeafWriteKeepsWay(t, w, free, kernel, pt, Index(1, va), e, root, 4, b);
    assert |t[pt]| == SLOTS;
  }

  lemma {:induction false} SameSlotsSameUser(t: Tables, f: nat, level: nat, a: nat, b: nat)
    requires SamePage(a, b) && 1 <= level <= 4
    ensures UserTables(t, f, level, a) == UserTables(t, f, level, b)
    decreases level
  {
    if level > 1 && f in t && |t[f]| == SLOTS {
      assert Index(level, a) == Index(level, b);
      SameSlotsSameUser(t, t[f][Index(level, a)].frame, level - 1, a, b);
    }
  }

  // ---- Ownership: the user half of a root as a tree of frames ----

  /** The slots of a table that belong to the user half. */
  function Width(w: Places, f: nat): nat
    requires f in w
  {
    if w[f].level == 4 then 256 else SLOTS
  }

  /** f hangs in the user half of r exactly where w says. */
  ghost predicate Attached(t: Tables, w: Places, r: nat, f: nat)
    requires f in w
  {
    var s := w[f];
    && s.level <= 3 && s.parent in t && s.parent in w
    && w[s.parent].home == r && w[s.parent].level == s.level + 1
    && s.index < Width(w, s.parent) && |t[s.parent]| == SLOTS
    && t[s.parent][s.index].present && t[s.parent][s.index].frame == f && !t[s.parent][s.index].huge
  }

  /** What slot i of table p points to is recorded as hanging there. */
  ghost predicate Recorded(t: Tables, w: Places, r: nat, p: nat, i: nat)
    requires p in t && p in w && i < |t[p]|
  {
    var e := t[p][i];
    e.present ==>
      w[p].level >= 1 && e.frame in w && w[e.frame] == Spot(w[p].level - 1, p, i, r) && !e.huge
  }

  /** The frames w assigns to r are exactly those reachable in r's user half, each once. */
  ghost predicate Owned(t: Tables, w: Places, r: nat) {
    && r in t && r in w && w[r].level == 4 && w[r].home == r
    && (forall f :: f in w && w[f].home == r && f != r ==> Attached(t, w, r, f))
    && (forall p, i :: p in t && p in w && w[p].home == r && 0 <= i < Width(w, p) && i < |t[p]| ==>
      Recorded(t, w, r, p, i))
  }

  /** The frames of the user half of r, its tables, its pages and r itself. */
  ghost function Frames(w: Places, r: nat): set<nat> {
    set f | f in w && w[f].home == r
  }

  /** The home of a table hung at slot i of table f. */
  function HomeAt(w: Places, kernel: nat, f: nat, i: nat): nat
    requires f in w
  {
    if w[f].level == 4 && i >= 256 then kernel else w[f].home
  }

  lemma NewTableKeepsShape(t: Tables, w: Places, free: set<nat>, kernel: nat, f: nat, i: nat, added: nat, e: Entry,
          sub: seq<Entry>)
    requires WellFormed(t, w, free, kernel)
    requires f in t && w[f].level >= 2 && i < SLOTS && added in free
    requires SameMeaning(t[f][i], sub) && |sub| == SLOTS && e.frame == added && e.present && !e.huge
    ensures var spot := Spot(w[f].level - 1, f, i, HomeAt(w, kernel, f, i));
      WellFormed(Put(t, f, i, e)[added := sub], w[added := spot], free - {added}, kernel)
  {
    var t', w' := Put(t, f, i, e)[added := sub], w[added := Spot(w[f].level - 1, f, i, HomeAt(w, kernel, f, i))];
    assert added !in w && added !in t;
    forall g, k | g in t' && 0 <= k < SLOTS
      ensures ChildFits(t', w', kernel, g, k)
    {
      assert g != added ==> ChildFits(t, w, kernel, g, k);
      assert ChildFits(t, w, kernel, f, i);
    }
  }

  lemma NewTableKeepsOwnership(t: Tables, w: Places, free: set<nat>, kernel: nat, f: nat, i: nat, added: nat,
          e: Entry, sub: seq<Entry>, r: nat)
    requires WellFormed(t, w, free, kernel) && Owned(t, w, r) && r != kernel
    requires f in t && w[f].level >= 2 && i < SLOTS && added in free
    requires SameMeaning(t[f][i], sub) && |sub| == SLOTS && e.frame == added && e.present && !e.huge
    ensures Owned(Put(t, f, i, e)[added := sub], w[added := Spot(w[f].level - 1, f, i, HomeAt(w, kernel, f, i))], r)
  {
    var spot := Spot(w[f].level - 1, f, i, HomeAt(w, kernel, f, i));
    var t', w' := Put(t, f, i, e)[added := sub], w[added := spot];
    assert added !in w && added !in t;
    forall g | g in w' && w'[g].home == r && g != r
      ensures Attached(t', w', r, g)
    {
      if g != added {
        assert Attached(t, w, r, g);
      }
    }
    forall p, k | p in t' && p in w' && w'[p].home == r && 0 <= k < Width(w', p) && k < |t'[p]|
      ensures Recorded(t', w', r, p, k)
    {
      if p != added {
        assert Recorded(t, w, r, p, k);
      } else {
        assert Recorded(t, w, r, f, i);
      }
    }
  }

  /** An entry whose pointer part stays the same changes no translation, no shape and no ownership. */
  lemma {:induction false} SamePointerIsNeutral(t: Tables, w: Places, free: set<nat>, kernel: nat, f: nat, i: nat,
          e: Entry, g: nat, level: nat, va: nat)
    requires WellFormed(t, w, free, kernel) && f in t && i < SLOTS
    requires e.frame == t[f][i].frame && e.present == t[f][i].present && e.huge == t[f][i].huge
    requires 1 <= level <= 4
    ensures Walk(Put(t, f, i, e), g, level, va) == Walk(t, g, level, va)
    decreases level
  {
    if g in t && |t[g]| == SLOTS {
      var k := Index(level, va);
      if level > 1 && t[g][k].present && !(t[g][k].huge && level < 4) {
        SamePointerIsNeutral(t, w, free, kernel, f, i, e, t[g][k].frame, level - 1, va);
      }
    }
  }

  lemma SamePointerKeepsShape(t: Tables, w: Places, free: set<nat>, kernel: nat, f: nat, i: nat, e: Entry)
    requires WellFormed(t, w, free, kernel) && f in t && i < SLOTS
    requires e.frame == t[f][i].frame && e.present == t[f][i].present && e.huge == t[f][i].huge
    ensures WellFormed(Put(t, f, i, e), w, free, kernel)
  {
    forall g, k | g in t && 0 <= k < SLOTS
      ensures ChildFits(Put(t, f, i, e), w, kernel, g, k)
    {
      assert ChildFits(t, w, kernel, g, k);
    }
  }

  lemma SamePointerKeepsOwnership(t: Tables, w: Places, free: set<nat>, kernel: nat, f: nat, i: nat, e: Entry, r: nat)
    requires WellFormed(t, w, free, kernel) && f in t && i < SLOTS && Owned(t, w, r)
    requires e.frame == t[f][i].frame && e.present == t[f][i].present && e.huge == t[f][i].huge
    ensures Owned(Put(t, f, i, e), w, r)
  {
    var t' := Put(t, f, i, e);
    forall g | g in w && w[g].home == r && g != r
      ensures Attached(t', w, r, g)
    {
      assert Attached(t, w, r, g);
    }
    forall p, k | p in t' && p in w && w[p].home == r && 0 <= k < Width(w, p) && k < |t'[p]|
      ensures Recorded(t', w, r, p, k)
    {
      assert Recorded(t, w, r, p, k);
    }
  }

  /** A fresh page mapped at an absent slot of an owned level-1 table becomes part of the tree. */
  lemma OwnedPageWrite(t: Tables, w: Places, free: set<nat>, kernel: nat, pt: nat, i: nat, e: Entry, r: nat)
    requires WellFormed(t, w, free, kernel) && Owned(t, w, r)
    requires pt in t && w[pt].level == 1 && w[pt].home == r && i < SLOTS && !t[pt][i].present
    requires e.present && !e.huge && e.frame !in w && e.frame !in free
    ensures Owned(Put(t, pt, i, e), w[e.frame := Spot(0, pt, i, r)], r)
    ensures Frames(w[e.frame := Spot(0, pt, i, r)], r) == Frames(w, r) + {e.frame}
  {
    hide Attached, Recorded, ChildFits;
    var t', w' := Put(t, pt, i, e), w[e.frame := Spot(0, pt, i, r)];
    forall g | g in w' && w'[g].home == r && g != r
      ensures Attached(t', w', r, g)
    {
      assert g != e.frame ==> Attached(t, w, r, g);
      AttachedWithPage(t, w, pt, i, e, r, g);
    }
    forall p, k | p in t' && p in w' && w'[p].home == r && 0 <= k < Width(w', p) && k < |t'[p]|
      ensures Recorded(t', w', r, p, k)
    {
      assert Recorded(t, w, r, p, k);
      RecordedWithPage(t, w, pt, i, e, r, p, k);
    }
  }

  lemma AttachedWithPage(t: Tables, w: Places, pt: nat, i: nat, e: Entry, r: nat, g: nat)
    requires pt in t && pt in w && w[pt].level == 1 && w[pt].home == r && |t[pt]| == SLOTS && i < SLOTS
    requires !t[pt][i].present && e.present && !e.huge && e.frame !in w
    requires g == e.frame || (g in w && Attached(t, w, r, g))
    ensures Attached(Put(t, pt, i, e), w[e.frame := Spot(0, pt, i, r)], r, g)
  {
  }

  lemma RecordedWithPage(t: Tables, w: Places, pt: nat, i: nat, e: Entry, r: nat, p: nat, k: nat)
    requires pt in t && pt in w && w[pt].level == 1 && w[pt].home == r && |t[pt]| == SLOTS && i < SLOTS
    requires e.present && !e.huge && e.frame !in w
    requires p in t && p in w && w[p].home == r && k < |t[p]| && Recorded(t, w, r, p, k)
    ensures Recorded(Put(t, pt, i, e), w[e.frame := Spot(0, pt, i, r)], r, p, k)
  {
  }

  /** Writing an entry of a level-1 table keeps the shape, also when its frame is recorded as an owned page. */
  lemma LeafWriteKeepsShape(t: Tables, w: Places, free: set<nat>, kernel: nat, pt: nat, i: nat, e: Entry, spot: Spot,
          record: bool)
    requires WellFormed(t, w, free, kernel) && pt in t && w[pt].level == 1 && i < SLOTS
    requires record ==> e.frame !in w && e.frame !in free && spot.level == 0
    ensures WellFormed(Put(t, pt, i, e), if record then w[e.frame := spot] else w, free, kernel)
  {
    var t', w' := Put(t, pt, i, e), if record then w[e.frame := spot] else w;
    forall g, k | g in t' && 0 <= k < SLOTS
      ensures ChildFits(t', w', kernel, g, k)
    {
      assert ChildFits(t, w, kernel, g, k);
    }
  }

  /** The walk of a user address stays in the root's own tables. */
  lemma {:induction false} OwnedWalk(t: Tables, w: Places, free: set<nat>, kernel: nat, r: nat, g: nat, level: nat,
          va: nat)
    requires WellFormed(t, w, free, kernel) && Owned(t, w, r) && Index(4, va) < 256
    requires 1 <= level <= 4 && g in t && w[g].level == level && w[g].home == r
    ensures Leaf(t, g, level, va).Some? ==>
      var pt := Leaf(t, g, level, va).value; pt in t && w[pt].level == 1 && w[pt].home == r
    decreases level
  {
    if level > 1 {
      var k := Index(level, va);
      assert ChildFits(t, w, kernel, g, k) && |t[g]| == SLOTS && Recorded(t, w, r, g, k);
      if t[g][k].present {
        OwnedWalk(t, w, free, kernel, r, t[g][k].frame, level - 1, va);
      }
    }
  }

  /** Two user addresses of an owned root that reach the same frame are in the same page. */
  lemma OwnedPagesAreDistinct(t: Tables, w: Places, free: set<nat>, kernel: nat, r: nat, a: nat, b: nat)
    requires WellFormed(t, w, free, kernel) && Owned(t, w, r) && Index(4, a) < 256 && Index(4, b) < 256
    requires Translate(t, r, a).Some? && Translate(t, r, b).Some?
    requires Translate(t, r, a).value / PAGE_SIZE == Translate(t, r, b).value / PAGE_SIZE
    ensures SamePage(a, b)
  {
    OwnedTranslation(t, w, free, kernel, r, a);
    OwnedTranslation(t, w, free, kernel, r, b);
    var pt := Leaf(t, r, 4, a).value;
    WalkUsesRecordedSlots(t, w, free, kernel, pt, r, 4, a);
    WalkUsesRecordedSlots(t, w, free, kernel, pt, r, 4, b);
  }

  /** A translated user address of an owned root lies in a page recorded under its level-1 table. */
  lemma OwnedTranslation(t: Tables, w: Places, free: set<nat>, kernel: nat, r: nat, a: nat)
    requires WellFormed(t, w, free, kernel) && Owned(t, w, r) && Index(4, a) < 256
    requires Translate(t, r, a).Some?
    ensures Leaf(t, r, 4, a).Some?
    ensures var pt, f := Leaf(t, r, 4, a).value, Translate(t, r, a).value / PAGE_SIZE;
      f in w && w[f] == Spot(0, pt, Index(1, a), r) && Translate(t, r, a).value == f * PAGE_SIZE + a % PAGE_SIZE
  {
    OwnedHasNoHuge(t, w, free, kernel, r, r, 4, a);
    OwnedWalk(t, w, free, kernel, r, r, 4, a);
    LeafDecides(t, r, 4, a);
    var pt := Leaf(t, r, 4, a).value;
    assert Recorded(t, w, r, pt, Index(1, a));
  }

  lemma {:induction false} OwnedHasNoHuge(t: Tables, w: Places, free: set<nat>, kernel: nat, r: nat, g: nat,
          level: nat, va: nat)
    requires WellFormed(t, w, free, kernel) && Owned(t, w, r) && Index(4, va) < 256
    requires 1 <= level <= 4 && g in t && w[g].level == level && w[g].home == r
    ensures Walk(t, g, level, va).Some? ==> Leaf(t, g, level, va).Some?
    decreases level
  {
    if level > 1 {
      var k := Index(level, va);
      assert ChildFits(t, w, kernel, g, k) && |t[g]| == SLOTS && Recorded(t, w, r, g, k);
      if t[g][k].present {
        OwnedHasNoHuge(t, w, free, kernel, r, t[g][k].frame, level - 1, va);
      }
    }
  }
}
