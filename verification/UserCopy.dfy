/** Kernel/Source/Mem/Paging.c: copying between kernel buffers and the memory of an address space. */
module UserCopy {
  import opened Bytes
  import opened PageTree
  import opened Paging

  /** The address arithmetic of the copy loops does not wrap. */
  const ADDRESS_END: nat := 0x1_0000_0000_0000_0000

  /** Where a byte of an address space lives; 0 also stands for "nowhere", as the callers of the lookup read it. */
  function Place(t: Tables, root: nat, va: nat): nat {
    match Translate(t, root, va)
    case None => 0
    case Some(p) => p
  }

  /** Different bytes of [va, va + n) live in different places. */
  ghost predicate Injective(t: Tables, root: nat, va: nat, n: nat) {
    forall a, b :: va <= a < va + n && va <= b < va + n && Place(t, root, a) == Place(t, root, b) ==> a == b
  }

  /** PagingLookupVirt, level by level, on trees that have huge entries in directories only. */
  method LookupVirt(m: Memory, root: nat, va: nat) returns (phys: nat)
    requires m.Valid() && IsRoot(m.T, m.W, root)
    ensures phys == Place(m.T, root, va)
  {
    WalkFacts(m, root, va);
    var entry := m.T[root][Index(4, va)];
    if !entry.present { return 0; }
    entry := m.T[entry.frame][Index(3, va)];
    if !entry.present { return 0; }
    entry := m.T[entry.frame][Index(2, va)];
    if !entry.present { return 0; }
    if entry.huge { return HugeFrame(entry.frame) * PAGE_SIZE + va % (PAGE_SIZE * SLOTS); }
    entry := m.T[entry.frame][Index(1, va)];
    if !entry.present { return 0; }
    return entry.frame * PAGE_SIZE + va % PAGE_SIZE;
  }

  lemma WalkFacts(m: Memory, root: nat, va: nat)
    requires m.Valid() && IsRoot(m.T, m.W, root)
    ensures |m.T[root]| == SLOTS
    ensures var e := m.T[root][Index(4, va)];
      e.present ==>
        && !e.huge && e.frame in m.T && |m.T[e.frame]| == SLOTS && m.W[e.frame].level == 3
        && var e := m.T[e.frame][Index(3, va)];
           e.present ==>
             && !e.huge && e.frame in m.T && |m.T[e.frame]| == SLOTS && m.W[e.frame].level == 2
             && var e := m.T[e.frame][Index(2, va)];
                e.present && !e.huge ==> e.frame in m.T && |m.T[e.frame]| == SLOTS
  {
    var t, w := m.T, m.W;
    assert ChildFits(t, w, m.KernelRoot, root, Index(4, va));
    var e := t[root][Index(4, va)];
    if e.present {
      assert ChildFits(t, w, m.KernelRoot, e.frame, Index(3, va));
      var e' := t[e.frame][Index(3, va)];
      if e'.present {
        assert ChildFits(t, w, m.KernelRoot, e'.frame, Index(2, va));
      }
    }
  }

  /** A chunk that stays in one page lies in one piece of physical memory. */
  lemma ChunkIsContiguous(t: Tables, root: nat, va: nat, n: nat)
    requires Place(t, root, va) != 0 && n <= PAGE_SIZE - va % PAGE_SIZE
    ensures forall a :: va <= a < va + n ==> Place(t, root, a) == Place(t, root, va) + (a - va)
  {
    forall a | va <= a < va + n
      ensures Place(t, root, a) == Place(t, root, va) + (a - va)
    {
      PageIsContiguous(t, root, 4, va, a - va);
    }
  }

  /** The range [va, va + n) is mapped, nowhere to physical address 0. */
  ghost predicate Reachable(t: Tables, root: nat, va: nat, n: nat) {
    forall a :: va <= a < va + n ==> Place(t, root, a) != 0
  }

  /** i is the place of no byte of [va, va + n). */
  ghost predicate Outside(t: Tables, root: nat, va: nat, n: nat, i: int) {
    forall a :: va <= a < va + n ==> Place(t, root, a) != i
  }

  /** The first n bytes of data are at their places in the address space, and no other byte changed. */
  ghost predicate Written(t: Tables, root: nat, va: nat, data: seq<Byte>, n: nat, before: int -> Byte,
          after: int -> Byte)
    requires n <= |data|
  {
    && (forall i :: Outside(t, root, va, n, i) ==> after(i) == before(i))
    && (Injective(t, root, va, n) ==> forall a :: va <= a < va + n ==> after(Place(t, root, a)) == data[a - va])
  }

  lemma WrittenMore(t: Tables, root: nat, va: nat, data: seq<Byte>, n: nat, c: nat, before: int -> Byte,
          middle: int -> Byte, after: int -> Byte)
    requires n + c <= |data| && Written(t, root, va, data, n, before, middle)
    requires forall a :: va + n <= a < va + n + c ==> Place(t, root, a) == Place(t, root, va + n) + (a - (va + n))
    requires forall i :: after(i) == Overwritten(middle, Place(t, root, va + n), data[n..n + c], i)
    ensures Written(t, root, va, data, n + c, before, after)
  {
    hide Translate;
    var p := Place(t, root, va + n);
    forall i | Outside(t, root, va, n + c, i)
      ensures after(i) == before(i)
    {
      assert Outside(t, root, va, n, i);
      var a: nat := if p <= i then va + n + (i - p) else 0;
      assert p <= i < p + c ==> Place(t, root, a) == i;
    }
    if Injective(t, root, va, n + c) {
      assert Injective(t, root, va, n);
      forall a | va <= a < va + n + c
        ensures after(Place(t, root, a)) == data[a - va]
      {
        var q := Place(t, root, a);
        if a < va + n {
          NotOverwritten(t, root, va, n, c, a);
        }
      }
    }
  }

  lemma NotOverwritten(t: Tables, root: nat, va: nat, n: nat, c: nat, a: nat)
    requires Injective(t, root, va, n + c) && va <= a < va + n
    requires forall b :: va + n <= b < va + n + c ==> Place(t, root, b) == Place(t, root, va + n) + (b - (va + n))
    ensures var p := Place(t, root, va + n); !(p <= Place(t, root, a) < p + c)
  {
    hide Translate;
    var p, q := Place(t, root, va + n), Place(t, root, a);
    var b: nat := if p <= q then va + n + (q - p) else 0;
    assert p <= q < p + c ==> Place(t, root, b) == q;
  }

  /** PagingCopyToUser. done counts the bytes copied before the loop stopped. */
  method CopyToUser(m: Memory, root: nat, dest: nat, src: seq<Byte>) returns (status: Status, ghost done: nat)
    requires m.Valid() && IsRoot(m.T, m.W, root) && dest + |src| <= ADDRESS_END
    modifies m`Ram
    ensures done <= |src| && Written(m.T, root, dest, src, done, old(m.Ram), m.Ram)
    ensures status == IncorrectValue <==> src == []
    ensures status == Success <==> src != [] && Reachable(m.T, root, dest, |src|)
    ensures status == Success ==> done == |src|
    ensures status == NoObject ==>
      done < |src| && Place(m.T, root, dest + done) == 0 && Reachable(m.T, root, dest, done)
    ensures status == Success || status == NoObject || status == IncorrectValue
  {
    hide Place, WellFormed, Injective;
    done := 0;
    if |src| == 0 { return IncorrectValue, 0; }
    var n := 0;
    while n < |src|
      invariant n <= |src| && done == n && Written(m.T, root, dest, src, n, old(m.Ram), m.Ram)
      invariant Reachable(m.T, root, dest, n)
    {
      var phys := LookupVirt(m, root, dest + n);
      if phys == 0 { return NoObject, done; }
      var chunk := PAGE_SIZE - (dest + n) % PAGE_SIZE;
      if chunk > |src| - n { chunk := |src| - n; }
      ChunkIsContiguous(m.T, root, dest + n, chunk);
      var c, piece := m.Ram, src[n..n + chunk];
      m.Ram := i => Overwritten(c, phys, piece, i);
      WrittenMore(m.T, root, dest, src, n, chunk, old(m.Ram), c, m.Ram);
      n := n + chunk;
      done := n;
    }
    return Success, n;
  }

  /** PagingCopyFromUser. */
  method CopyFromUser(m: Memory, root: nat, src: nat, size: nat) returns (status: Status, dest: seq<Byte>)
    requires m.Valid() && IsRoot(m.T, m.W, root) && src + size <= ADDRESS_END
    ensures |dest| <= size && forall a :: src <= a < src + |dest| ==> dest[a - src] == m.Ram(Place(m.T, root, a))
    ensures status == IncorrectValue <==> size == 0
    ensures status == Success <==> size > 0 && Reachable(m.T, root, src, size)
    ensures status == Success ==> |dest| == size
    ensures status == NoObject ==> |dest| < size && Place(m.T, root, src + |dest|) == 0
    ensures status == Success || status == NoObject || status == IncorrectValue
  {
    hide Place, WellFormed;
    dest := [];
    if size == 0 { return IncorrectValue, []; }
    while |dest| < size
      invariant |dest| <= size && Reachable(m.T, root, src, |dest|)
      invariant forall a :: src <= a < src + |dest| ==> dest[a - src] == m.Ram(Place(m.T, root, a))
    {
      var at := src + |dest|;
      var phys := LookupVirt(m, root, at);
      if phys == 0 { return NoObject, dest; }
      var chunk := PAGE_SIZE - at % PAGE_SIZE;
      if chunk > size - |dest| { chunk := size - |dest|; }
      ChunkIsContiguous(m.T, root, at, chunk);
      var ram := m.Ram;
      dest := dest + seq<Byte>(chunk, (k: nat) => ram(phys + k));
    }
    return Success, dest;
  }

  /** In the user half of an owned address space different mapped bytes live in different places. */
  lemma OwnedIsInjective(m: Memory, root: nat, va: nat, n: nat)
    requires m.Valid() && IsRoot(m.T, m.W, root) && Owned(m.T, m.W, root) && va + n <= USER_END
    requires Reachable(m.T, root, va, n)
    ensures Injective(m.T, root, va, n)
  {
    hide WellFormed, Homed, Owned, Translate;
    forall a, b | va <= a < va + n && va <= b < va + n && Place(m.T, root, a) == Place(m.T, root, b)
      ensures a == b
    {
      SamePlaceSameByte(m, root, a, b);
    }
  }

  lemma SamePlaceSameByte(m: Memory, root: nat, a: nat, b: nat)
    requires m.Valid() && IsRoot(m.T, m.W, root) && Owned(m.T, m.W, root) && a < USER_END && b < USER_END
    requires Translate(m.T, root, a).Some? && Translate(m.T, root, b) == Translate(m.T, root, a)
    ensures a == b
  {
    hide WellFormed, Homed, Owned, Walk, SamePage, Index;
    UserIndex(a);
    UserIndex(b);
    OwnedTranslation(m.T, m.W, m.Free, m.KernelRoot, root, a);
    OwnedTranslation(m.T, m.W, m.Free, m.KernelRoot, root, b);
    OwnedPagesAreDistinct(m.T, m.W, m.Free, m.KernelRoot, root, a, b);
    UserPages(b);
    SameSplit(Translate(m.T, root, a).value / PAGE_SIZE, a % PAGE_SIZE, Translate(m.T, root, b).value / PAGE_SIZE,
      b % PAGE_SIZE);
    Rejoin(a, b);
  }

  lemma SameSplit(f: nat, o: nat, g: nat, q: nat)
    requires f * PAGE_SIZE + o == g * PAGE_SIZE + q && o < PAGE_SIZE && q < PAGE_SIZE
    ensures f == g && o == q
  {
  }

  lemma Rejoin(a: nat, b: nat)
    requires a / PAGE_SIZE == b / PAGE_SIZE && a % PAGE_SIZE == b % PAGE_SIZE
    ensures a == b
  {
    assert a == a / PAGE_SIZE * PAGE_SIZE + a % PAGE_SIZE;
  }

  /** What was copied to an address space is copied back from it, byte for byte, and nothing else changes. */
  method RoundTrip(m: Memory, root: nat, va: nat, data: seq<Byte>) returns (back: seq<Byte>)
    requires m.Valid() && IsRoot(m.T, m.W, root) && Owned(m.T, m.W, root) && va + |data| <= USER_END
    requires Reachable(m.T, root, va, |data|)
    modifies m`Ram
    ensures back == data
    ensures forall i :: Outside(m.T, root, va, |data|, i) ==> m.Ram(i) == old(m.Ram)(i)
  {
    hide WellFormed, Homed, Owned, Place, Reachable, Injective;
    OwnedIsInjective(m, root, va, |data|);
    var sent, done := CopyToUser(m, root, va, data);
    var status;
    status, back := CopyFromUser(m, root, va, |data|);
    forall k | 0 <= k < |data|
      ensures back[k] == data[k]
    {
      assert data[va + k - va] == m.Ram(Place(m.T, root, va + k));
    }
  }
}
