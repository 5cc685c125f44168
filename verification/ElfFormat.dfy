/** The ELF64 file as Kernel/Source/Elf.c reads it, the memory image it asks for and the stack block of a new task. */
module ElfFormat {
  import opened Bytes
  import opened PageTree

  const EHDR_SIZE: nat := 64
  const PHDR_SIZE: nat := 56
  const ELF_MAX_PHN: nat := 32
  const PT_LOAD: nat := 1
  const USER_CODE_VADDR: nat := 0x40_0000
  const USER_CODE_VADDR_MIN: nat := 0x1000
  const USER_STACK_TOP: nat := 0x7F_FFFF_F000
  const USER_STACK_DEFAULT: nat := 16 * PAGE_SIZE
  const STACK_BASE: nat := USER_STACK_TOP - USER_STACK_DEFAULT

  const TWO_64: nat := 0x1_0000_0000_0000_0000

  /** A UINT64, and a sum of such cut to 64 bits. */
  type Word = x: nat | x < TWO_64

  function Low64(x: nat): Word {
    x % TWO_64
  }

  lemma Wraps(a: Word, b: Word)
    ensures Low64(a + b) == if a + b < TWO_64 then a + b else a + b - TWO_64
  {
  }

  // ---- Little-endian numbers ----

  function Le(b: seq<Byte>, off: nat, n: nat): (v: nat)
    requires off + n <= |b|
    ensures v < Power256(n)
    decreases n
  {
    if n == 0 then 0 else b[off] + 256 * Le(b, off + 1, n - 1)
  }

  function ToLe(v: nat, n: nat): (b: seq<Byte>)
    ensures |b| == n
    decreases n
  {
    if n == 0 then [] else [v % 256] + ToLe(v / 256, n - 1)
  }

  function Power256(n: nat): nat {
    if n == 0 then 1 else 256 * Power256(n - 1)
  }

  /** A number that fits in n bytes is read back from the bytes it was stored as, wherever they lie. */
  lemma {:induction false} StoredNumberReadsBack(v: nat, n: nat, b: seq<Byte>, off: nat)
    requires v < Power256(n) && off + n <= |b| && b[off..off + n] == ToLe(v, n)
    ensures Le(b, off, n) == v
    decreases n
  {
    if n > 0 {
      assert b[off..off + n][0] == b[off];
      assert b[off + 1..off + n] == b[off..off + n][1..] == ToLe(v / 256, n - 1);
      StoredNumberReadsBack(v / 256, n - 1, b, off + 1);
    }
  }

  // ---- Headers ----

  datatype Phdr = Phdr(pType: nat, pFlags: nat, pOffset: Word, pVaddr: Word, pFilesz: Word, pMemsz: Word)

  function LeWord(b: seq<Byte>, off: nat): (v: Word)
    requires off + 8 <= |b|
    ensures v == Le(b, off, 8)
  {
    Powers();
    Le(b, off, 8)
  }

  function EEntry(h: seq<Byte>): Word requires |h| >= EHDR_SIZE { LeWord(h, 24) }
  function EPhOff(h: seq<Byte>): Word requires |h| >= EHDR_SIZE { LeWord(h, 32) }
  function EPhNum(h: seq<Byte>): nat requires |h| >= EHDR_SIZE { Le(h, 56, 2) }

  /** ElfIsValid. Only the first 64 bytes are looked at; size is that of the whole file. */
  predicate IsValid(head: seq<Byte>, size: nat) {
    && size >= EHDR_SIZE && |head| >= EHDR_SIZE
    && Le(head, 0, 4) == 0x464C_457F && head[4] == 2 && head[5] == 1 && head[6] == 1
    && Le(head, 18, 2) == 62 && (Le(head, 16, 2) == 2 || Le(head, 16, 2) == 3)
    && Le(head, 52, 2) == EHDR_SIZE && Le(head, 54, 2) == PHDR_SIZE
    && EPhNum(head) != 0 && EPhNum(head) <= ELF_MAX_PHN
    && Low64(EPhOff(head) + EPhNum(head) * PHDR_SIZE) <= size
  }

  function PhdrAt(b: seq<Byte>, off: nat): Phdr
    requires off + PHDR_SIZE <= |b|
  {
    Phdr(Le(b, off, 4), Le(b, off + 4, 4), LeWord(b, off + 8),
         LeWord(b, off + 16), LeWord(b, off + 32), LeWord(b, off + 40))
  }

  /** The contents of a file; its size is a UINT64. */
  type File = f: seq<Byte> | |f| < TWO_64

  /** A file in memory, and the memory around it: what an address computed from an offset reads. */
  datatype Source = Source(bytes: File, around: nat -> Byte) {
    function At(o: nat): Byte {
      if Low64(o) < |bytes| then bytes[Low64(o)] else around(Low64(o))
    }
  }

  /** A file with nothing around it. */
  function OfFile(file: File): Source {
    Source(file, (o: nat) => 0)
  }

  function PhdrFrom(src: Source, off: nat): Phdr {
    PhdrAt(seq<Byte>(PHDR_SIZE, (k: nat) => src.At(off + k)), 0)
  }

  /** The program headers of a valid file. */
  function Phdrs(src: Source): (phs: seq<Phdr>)
    requires IsValid(src.bytes, |src.bytes|)
    ensures |phs| == EPhNum(src.bytes)
  {
    var table: nat := EPhOff(src.bytes);
    seq(EPhNum(src.bytes), (i: nat) => PhdrFrom(src, table + i * PHDR_SIZE))
  }

  /** The whole table of program headers is in the file. */
  predicate TableInFile(file: File)
    requires |file| >= EHDR_SIZE
  {
    EPhOff(file) + EPhNum(file) * PHDR_SIZE <= |file|
  }

  lemma PhdrInFile(src: Source, off: nat)
    requires off + PHDR_SIZE <= |src.bytes|
    ensures PhdrFrom(src, off) == PhdrAt(src.bytes, off)
  {
    hide PhdrAt;
    var b := src.bytes[off..off + PHDR_SIZE];
    forall k | 0 <= k < PHDR_SIZE
      ensures src.At(off + k) == b[k]
    {
      Wraps(0, off + k);
    }
    assert b == seq<Byte>(PHDR_SIZE, (k: nat) => src.At(off + k));
    PhdrOfSlice(src.bytes, off, off + PHDR_SIZE, 0);
  }

  /** The headers of a table inside the file do not depend on what is around it. */
  lemma TableIsTheFiles(file: File, around: nat -> Byte)
    requires IsValid(file, |file|) && TableInFile(file)
    ensures Phdrs(Source(file, around)) == Phdrs(OfFile(file))
  {
    hide IsValid, PhdrFrom, PhdrAt;
    ValidIsLong(file);
    var src, own := Source(file, around), OfFile(file);
    forall i | 0 <= i < EPhNum(file)
      ensures Phdrs(src)[i] == Phdrs(own)[i]
    {
      PhdrInFile(src, EPhOff(file) + i * PHDR_SIZE);
      PhdrInFile(own, EPhOff(file) + i * PHDR_SIZE);
    }
  }

  /** The table of program headers read on its own holds the same headers. */
  lemma {:induction false} LeOfSlice(b: seq<Byte>, from: nat, to: nat, off: nat, n: nat)
    requires from <= to <= |b| && off + n <= to - from
    ensures Le(b[from..to], off, n) == Le(b, from + off, n)
    decreases n
  {
    if n > 0 { LeOfSlice(b, from, to, off + 1, n - 1); }
  }

  lemma PhdrOfSlice(b: seq<Byte>, from: nat, to: nat, off: nat)
    requires from <= to <= |b| && off + PHDR_SIZE <= to - from
    ensures PhdrAt(b[from..to], off) == PhdrAt(b, from + off)
  {
    hide Le;
    LeOfSlice(b, from, to, off, 4);
    LeOfSlice(b, from, to, off + 4, 4);
    LeOfSlice(b, from, to, off + 8, 8);
    LeOfSlice(b, from, to, off + 16, 8);
    LeOfSlice(b, from, to, off + 32, 8);
    LeOfSlice(b, from, to, off + 40, 8);
  }

  /** A file is judged by its first bytes and its size. */
  lemma ValidByHeader(file: seq<Byte>)
    requires |file| >= EHDR_SIZE
    ensures var head := file[..EHDR_SIZE];
      && IsValid(head, |file|) == IsValid(file, |file|)
      && EEntry(head) == EEntry(file) && EPhOff(head) == EPhOff(file) && EPhNum(head) == EPhNum(file)
  {
    hide Le;
    var n := EHDR_SIZE;
    assert file[..n] == file[0..n];
    LeOfSlice(file, 0, n, 0, 4);
    LeOfSlice(file, 0, n, 16, 2);
    LeOfSlice(file, 0, n, 18, 2);
    LeOfSlice(file, 0, n, 24, 8);
    LeOfSlice(file, 0, n, 32, 8);
    LeOfSlice(file, 0, n, 52, 2);
    LeOfSlice(file, 0, n, 54, 2);
    LeOfSlice(file, 0, n, 56, 2);
  }

  // ---- The memory image ----

  function AlignDown(v: nat, align: nat): nat requires align > 0 { v - v % align }
  function AlignUp(v: nat, align: nat): nat requires align > 0 { AlignDown(Low64(v + align - 1), align) }

  predicate Loads(ph: Phdr) { ph.pType == PT_LOAD && ph.pMemsz != 0 }

  function SegStart(ph: Phdr): nat { AlignDown(ph.pVaddr, PAGE_SIZE) }
  function SegEnd(ph: Phdr): nat { AlignUp(Low64(ph.pVaddr + ph.pMemsz), PAGE_SIZE) }

  /** The end of the file part of a segment in memory. */
  function FileEnd(ph: Phdr): nat { Low64(ph.pVaddr + ph.pFilesz) }

  /** The pages of a loaded segment. */
  predicate InSeg(ph: Phdr, v: nat) {
    Loads(ph) && SegStart(ph) <= v < SegEnd(ph)
  }

  /** File bytes in the file part of a segment, zeros on the rest of its pages. */
  function SegByte(file: Source, ph: Phdr, v: nat): Byte {
    if ph.pVaddr <= v < FileEnd(ph) then file.At(ph.pOffset + (v - ph.pVaddr)) else 0
  }

  /** The pages of a segment are those that one of its bytes lies on. */
  lemma SegmentPages(ph: Phdr, v: nat)
    requires Loads(ph) && ph.pVaddr + ph.pMemsz + PAGE_SIZE <= TWO_64
    ensures InSeg(ph, v) <==> exists u: nat :: ph.pVaddr <= u < ph.pVaddr + ph.pMemsz && u / PAGE_SIZE == v / PAGE_SIZE
  {
    var first, last := ph.pVaddr, ph.pVaddr + ph.pMemsz - 1;
    SegmentEnds(ph);
    PageOrder(first, v, last);
    if first / PAGE_SIZE <= v / PAGE_SIZE <= last / PAGE_SIZE {
      var u := if v < first then first else if v > last then last else v;
      assert first <= u < ph.pVaddr + ph.pMemsz && u / PAGE_SIZE == v / PAGE_SIZE;
    }
    forall u: nat | first <= u < ph.pVaddr + ph.pMemsz && u / PAGE_SIZE == v / PAGE_SIZE
      ensures first / PAGE_SIZE <= v / PAGE_SIZE <= last / PAGE_SIZE
    {
      PageOrder(first, u, last);
    }
  }

  lemma PageOrder(a: nat, v: nat, b: nat)
    ensures a <= v ==> a / PAGE_SIZE <= v / PAGE_SIZE
    ensures v <= b ==> v / PAGE_SIZE <= b / PAGE_SIZE
  {
  }

  lemma SegmentEnds(ph: Phdr)
    requires Loads(ph) && ph.pVaddr + ph.pMemsz + PAGE_SIZE <= TWO_64
    ensures SegStart(ph) == ph.pVaddr / PAGE_SIZE * PAGE_SIZE
    ensures SegEnd(ph) == ((ph.pVaddr + ph.pMemsz - 1) / PAGE_SIZE + 1) * PAGE_SIZE
    ensures forall v: nat :: InSeg(ph, v) <==>
      ph.pVaddr / PAGE_SIZE <= v / PAGE_SIZE <= (ph.pVaddr + ph.pMemsz - 1) / PAGE_SIZE
  {
    Wraps(ph.pVaddr, ph.pMemsz);
    var end := ph.pVaddr + ph.pMemsz;
    Wraps(end, PAGE_SIZE - 1);
  }

  /** In memory a segment has its bytes of the file, then zeros. */
  lemma SegmentBytes(file: Source, ph: Phdr, k: nat)
    requires k < ph.pMemsz && ph.pFilesz <= ph.pMemsz && ph.pVaddr + ph.pMemsz < TWO_64
    ensures SegByte(file, ph, ph.pVaddr + k) ==
      if k >= ph.pFilesz then 0
      else
        var o := (ph.pOffset + k) % TWO_64;
        if o < |file.bytes| then file.bytes[o] else file.around(o)
  {
    Wraps(ph.pVaddr, ph.pFilesz);
  }

  /** A byte of user memory, and whether the user may write to its page and may not run it. */
  datatype Cell = Cell(byte: Byte, writable: bool, noExec: bool)

  /** A byte of a segment, under the permissions of its header: bit 1 of the flags is PF_W, bit 0 is PF_X. */
  function SegCell(file: Source, ph: Phdr, v: nat): Cell {
    Cell(SegByte(file, ph, v), ph.pFlags / 2 % 2 == 1, ph.pFlags % 2 == 0)
  }

  /** By the bits of the flags, for every choice of them. */
  lemma FlagBits(file: Source, ph: Phdr, v: nat, x: nat, w: nat, r: nat, rest: nat)
    requires x < 2 && w < 2 && r < 2 && ph.pFlags == x + 2 * w + 4 * r + 8 * rest
    ensures SegCell(file, ph, v).writable <==> w == 1
    ensures SegCell(file, ph, v).noExec <==> x == 0
  {
    hide SegByte;
    assert ph.pFlags == x + 2 * (w + 2 * (r + 2 * rest));
  }

  /** What the first n program headers put at v. */
  function Image(file: Source, phs: seq<Phdr>, n: nat, v: nat): Option<Cell>
    requires n <= |phs|
  {
    if n == 0 then None
    else if InSeg(phs[n - 1], v) then Some(SegCell(file, phs[n - 1], v))
    else Image(file, phs, n - 1, v)
  }

  /** No two segments share a page. */
  ghost predicate PageDisjoint(phs: seq<Phdr>) {
    forall i, j, v: nat :: 0 <= i < j < |phs| && InSeg(phs[i], v) ==> !InSeg(phs[j], v)
  }

  /** There is no image exactly where there is no segment. */
  lemma {:induction false} ImageNone(file: Source, phs: seq<Phdr>, n: nat, v: nat)
    requires n <= |phs|
    ensures Image(file, phs, n, v) == None <==> forall i :: 0 <= i < n ==> !InSeg(phs[i], v)
  {
    if n > 0 { ImageNone(file, phs, n - 1, v); }
  }

  /** One more segment shares no page with those before it exactly if their image has nothing at its pages. */
  lemma OneMoreDisjoint(file: Source, phs: seq<Phdr>, n: nat)
    requires n < |phs|
    ensures PageDisjoint(phs[..n + 1]) <==>
      PageDisjoint(phs[..n]) && forall v: nat :: InSeg(phs[n], v) ==> Image(file, phs, n, v) == None
  {
    hide InSeg, Image;
    var all := phs[..n + 1];
    forall v: nat
      ensures Image(file, phs, n, v) == None <==> forall i :: 0 <= i < n ==> !InSeg(phs[i], v)
    {
      ImageNone(file, phs, n, v);
    }
    if PageDisjoint(all) {
      forall i, j, v: nat | 0 <= i < j < n && InSeg(phs[..n][i], v)
        ensures !InSeg(phs[..n][j], v)
      {
        assert InSeg(all[i], v) ==> !InSeg(all[j], v);
      }
      forall v: nat, i | 0 <= i < n
        ensures InSeg(phs[n], v) ==> !InSeg(phs[i], v)
      {
        assert InSeg(all[i], v) ==> !InSeg(all[n], v);
      }
    }
    if PageDisjoint(phs[..n]) && forall v: nat :: InSeg(phs[n], v) ==> Image(file, phs, n, v) == None {
      forall i, j, v: nat | 0 <= i < j < n + 1 && InSeg(all[i], v)
        ensures !InSeg(all[j], v)
      {
        assert j < n ==> (InSeg(phs[..n][i], v) ==> !InSeg(phs[..n][j], v));
      }
    }
  }

  /** The image is page by page what the header of the last segment on that page says; by ImageNone it is nothing where
      there is none. */
  lemma {:induction false} ImageMeaning(file: Source, phs: seq<Phdr>, n: nat, i: nat, v: nat)
    requires i < n <= |phs| && InSeg(phs[i], v) && forall j :: i < j < n ==> !InSeg(phs[j], v)
    ensures Image(file, phs, n, v) == Some(SegCell(file, phs[i], v))
  {
    hide InSeg, SegCell;
    if i < n - 1 { ImageMeaning(file, phs, n - 1, i, v); }
  }

  /** The end of the highest segment among the first n headers. */
  function MaxEnd(phs: seq<Phdr>, n: nat): nat
    requires n <= |phs|
  {
    if n == 0 then 0
    else if Loads(phs[n - 1]) && SegEnd(phs[n - 1]) > MaxEnd(phs, n - 1) then SegEnd(phs[n - 1])
    else MaxEnd(phs, n - 1)
  }

  /** It is above every segment, and the end of one of them if there is one above 0. */
  lemma {:induction false} MaxEndBounds(phs: seq<Phdr>, n: nat)
    requires n <= |phs|
    ensures forall i, v: nat :: 0 <= i < n && InSeg(phs[i], v) ==> v < MaxEnd(phs, n)
    ensures forall i :: 0 <= i < n && Loads(phs[i]) ==> SegEnd(phs[i]) <= MaxEnd(phs, n)
    ensures MaxEnd(phs, n) == 0 || exists i :: 0 <= i < n && Loads(phs[i]) && SegEnd(phs[i]) == MaxEnd(phs, n)
  {
    if n > 0 { MaxEndBounds(phs, n - 1); }
  }

  // ---- What the two loaders accept ----

  /** No segment has a page in the stack. */
  ghost predicate ClearOfStack(phs: seq<Phdr>) {
    forall i, v: nat :: 0 <= i < |phs| && STACK_BASE <= v < USER_STACK_TOP ==> !InSeg(phs[i], v)
  }

  predicate GoodEntry(file: seq<Byte>)
    requires |file| >= EHDR_SIZE
  {
    USER_CODE_VADDR <= EEntry(file) < USER_STACK_TOP
  }

  /** The checks of ElfMapSegment. */
  predicate GoodInImage(ph: Phdr, size: nat) {
    && ph.pFilesz <= ph.pMemsz && Low64(ph.pOffset + ph.pFilesz) <= size
    && USER_CODE_VADDR <= ph.pVaddr <= Low64(ph.pVaddr + ph.pMemsz) < USER_STACK_TOP
  }

  /** How many bytes of the file ElfLoadFromFile reads for a segment. */
  function ReadLength(ph: Phdr): nat {
    var e := if FileEnd(ph) < SegEnd(ph) then FileEnd(ph) else SegEnd(ph);
    if ph.pVaddr < e then e - ph.pVaddr else 0
  }

  /** The checks of ElfLoadFromFile on a segment, its reads included. */
  predicate GoodInFile(ph: Phdr, size: nat) {
    && ph.pFilesz <= ph.pMemsz && (ReadLength(ph) > 0 ==> ph.pOffset + ReadLength(ph) <= size)
    && USER_CODE_VADDR_MIN <= ph.pVaddr && Low64(ph.pVaddr + ph.pMemsz) < USER_STACK_TOP
  }

  /** The range checks of ElfLoad over all segments. */
  predicate GoodRange(phs: seq<Phdr>) {
    && (exists i :: 0 <= i < |phs| && Loads(phs[i]))
    && (forall i :: 0 <= i < |phs| && Loads(phs[i]) ==> USER_CODE_VADDR <= SegStart(phs[i]))
    && MaxEnd(phs, |phs|) < STACK_BASE
  }

  /** The files that ElfLoad loads when there is memory. */
  predicate AcceptsImage(file: Source) {
    && IsValid(file.bytes, |file.bytes|) && GoodEntry(file.bytes) && GoodRange(Phdrs(file))
    && AllGoodInImage(Phdrs(file), |file.bytes|)
  }

  predicate AllGoodInImage(phs: seq<Phdr>, size: nat) {
    forall i :: 0 <= i < |phs| && Loads(phs[i]) ==> GoodInImage(phs[i], size)
  }

  /** The files that ElfLoadFromFile loads when there is memory and the disk works. */
  predicate AcceptsFile(file: File) {
    && IsValid(file, |file|) && TableInFile(file) && GoodEntry(file)
    && AllGoodInFile(Phdrs(OfFile(file)), |file|)
  }

  predicate AllGoodInFile(phs: seq<Phdr>, size: nat) {
    forall i :: 0 <= i < |phs| && Loads(phs[i]) ==> GoodInFile(phs[i], size)
  }

  /** The segment lies under the lowest code address, has no bytes in the file and an offset behind its end, or goes
      past the end of the address space and comes back. */
  predicate Odd(ph: Phdr, size: nat) {
    || ph.pVaddr < USER_CODE_VADDR
    || (ph.pFilesz == 0 && ph.pOffset > size)
    || ph.pVaddr + ph.pMemsz >= TWO_64
  }

  /** No sum of an offset and a size wraps around: of the table, and of a loaded segment's bytes in the file. */
  predicate OffsetsFit(file: Source)
    requires IsValid(file.bytes, |file.bytes|)
  {
    && TableInFile(file.bytes)
    && forall i :: 0 <= i < |Phdrs(file)| && Loads(Phdrs(file)[i]) ==>
      Phdrs(file)[i].pOffset + Phdrs(file)[i].pFilesz < TWO_64
  }

  lemma GoodBothWays(ph: Phdr, size: nat)
    requires Loads(ph) && size < TWO_64
    ensures GoodInImage(ph, size) && ph.pOffset + ph.pFilesz < TWO_64 <==> GoodInFile(ph, size) && !Odd(ph, size)
    ensures GoodInImage(ph, size) && GoodInFile(ph, size) ==> ph.pOffset + ph.pFilesz < TWO_64
  {
    Wraps(ph.pVaddr, ph.pMemsz);
    Wraps(ph.pVaddr, ph.pFilesz);
    Wraps(ph.pOffset, ph.pFilesz);
    if ph.pVaddr + ph.pMemsz < USER_STACK_TOP { EndOfWhole(ph); }
  }

  lemma EndOfWhole(ph: Phdr)
    requires ph.pVaddr + ph.pMemsz < USER_STACK_TOP
    ensures ph.pVaddr + ph.pMemsz <= SegEnd(ph)
  {
    Wraps(ph.pVaddr, ph.pMemsz);
    Wraps(ph.pVaddr + ph.pMemsz, PAGE_SIZE - 1);
  }

  /** With nothing wrapped, ElfLoad accepts what ElfLoadFromFile accepts, except exactly the files without a segment,
      with an odd one, or with one that does not end below the stack. Where an offset sum wraps, ElfLoadFromFile
      accepts nothing that ElfLoad does. */
  lemma JudgedAlike(file: File, around: nat -> Byte)
    ensures var src := Source(file, around);
      AcceptsImage(src) && OffsetsFit(src) <==>
        && AcceptsFile(file) && (exists i :: 0 <= i < |Phdrs(src)| && Loads(Phdrs(src)[i]))
        && (forall i :: 0 <= i < |Phdrs(src)| && Loads(Phdrs(src)[i]) ==> !Odd(Phdrs(src)[i], |file|))
        && MaxEnd(Phdrs(src), |Phdrs(src)|) < STACK_BASE
    ensures var src := Source(file, around);
      AcceptsImage(src) && AcceptsFile(file) <==> AcceptsImage(src) && OffsetsFit(src)
  {
    hide IsValid, MaxEnd, Phdrs, Loads, SegStart, GoodInImage, GoodInFile, Odd;
    var src := Source(file, around);
    if IsValid(file, |file|) {
      ValidIsLong(file);
      if TableInFile(file) { TableIsTheFiles(file, around); }
      forall i | 0 <= i < |Phdrs(src)| && Loads(Phdrs(src)[i])
        ensures USER_CODE_VADDR <= SegStart(Phdrs(src)[i]) <==> USER_CODE_VADDR <= Phdrs(src)[i].pVaddr
        ensures var ph := Phdrs(src)[i];
          && (GoodInImage(ph, |file|) && ph.pOffset + ph.pFilesz < TWO_64 <==>
                GoodInFile(ph, |file|) && !Odd(ph, |file|))
          && (GoodInImage(ph, |file|) && GoodInFile(ph, |file|) ==> ph.pOffset + ph.pFilesz < TWO_64)
          && (!Odd(ph, |file|) ==> USER_CODE_VADDR <= ph.pVaddr)
      {
        StartOfCode(Phdrs(src)[i]);
        GoodBothWays(Phdrs(src)[i], |file|);
        OddIsLow(Phdrs(src)[i], |file|);
      }
    }
  }

  lemma OddIsLow(ph: Phdr, size: nat)
    ensures !Odd(ph, size) ==> USER_CODE_VADDR <= ph.pVaddr
  {
  }

  lemma ValidIsLong(file: File)
    requires IsValid(file, |file|)
    ensures |file| >= EHDR_SIZE && EPhNum(file) > 0
  {
  }

  lemma StartOfCode(ph: Phdr)
    ensures USER_CODE_VADDR <= SegStart(ph) <==> USER_CODE_VADDR <= ph.pVaddr
  {
  }

  // ---- Files of every kind ----

  /** The fields of a header, one behind the other. */
  function Encode(fields: seq<(nat, nat)>): (b: seq<Byte>)
    ensures |b| == Span(fields)
  {
    if fields == [] then [] else ToLe(fields[0].0, fields[0].1) + Encode(fields[1..])
  }

  function Span(fields: seq<(nat, nat)>): nat {
    if fields == [] then 0 else fields[0].1 + Span(fields[1..])
  }

  lemma {:induction false} FieldReadsBack(fields: seq<(nat, nat)>, k: nat)
    requires k < |fields| && fields[k].0 < Power256(fields[k].1)
    ensures Span(fields[..k]) + fields[k].1 <= Span(fields)
    ensures Le(Encode(fields), Span(fields[..k]), fields[k].1) == fields[k].0
    decreases k
  {
    var b, n := Encode(fields), fields[0].1;
    if k == 0 {
      assert b[0..n] == ToLe(fields[0].0, n);
      StoredNumberReadsBack(fields[0].0, n, b, 0);
    } else {
      assert fields[..k][1..] == fields[1..][..k - 1];
      FieldReadsBack(fields[1..], k - 1);
      assert b[n..|b|] == Encode(fields[1..]);
      LeOfSlice(b, n, |b|, Span(fields[1..][..k - 1]), fields[k].1);
    }
  }

  /** The header of a file, field by field; rest has the last three, which describe section headers. */
  datatype Ehdr = Ehdr(magic: nat, bits: nat, order: nat, version: nat, pad: nat, fileType: nat, machine: nat,
    fileVersion: nat, entry: Word, table: Word, sections: Word, flags: nat, headerSize: nat, entrySize: nat, count: nat,
    rest: nat)

  /** The fields of a file with one program header and nothing else: a value and its size in bytes. */
  function Field(h: Ehdr, ph: Phdr, k: nat): (nat, nat) {
    match k
    case 0 => (h.magic, 4)
    case 1 => (h.bits, 1)
    case 2 => (h.order, 1)
    case 3 => (h.version, 1)
    case 4 => (h.pad, 9)
    case 5 => (h.fileType, 2)
    case 6 => (h.machine, 2)
    case 7 => (h.fileVersion, 4)
    case 8 => (h.entry, 8)
    case 9 => (h.table, 8)
    case 10 => (h.sections, 8)
    case 11 => (h.flags, 4)
    case 12 => (h.headerSize, 2)
    case 13 => (h.entrySize, 2)
    case 14 => (h.count, 2)
    case 15 => (h.rest, 6)
    case 16 => (ph.pType, 4)
    case 17 => (ph.pFlags, 4)
    case 18 => (ph.pOffset, 8)
    case 19 => (ph.pVaddr, 8)
    case 20 => (ph.pVaddr, 8)
    case 21 => (ph.pFilesz, 8)
    case 22 => (ph.pMemsz, 8)
    case _ => (PAGE_SIZE, 8)
  }

  /** Each field of the header fits in its bytes. */
  predicate Storable(h: Ehdr) {
    && h.magic < 0x1_0000_0000 && h.bits < 256 && h.order < 256 && h.version < 256 && h.pad < Power256(9)
    && h.fileType < 0x1_0000 && h.machine < 0x1_0000 && h.fileVersion < 0x1_0000_0000 && h.flags < 0x1_0000_0000
    && h.headerSize < 0x1_0000 && h.entrySize < 0x1_0000 && h.count < 0x1_0000 && h.rest < Power256(6)
  }

  /** The header of an executable for this machine with one program header. */
  function Plain(entry: Word, table: Word): Ehdr {
    Ehdr(0x464C_457F, 2, 1, 1, 0, 2, 62, 1, entry, table, 0, 0, 64, 56, 1, 0)
  }

  function Fields(h: Ehdr, ph: Phdr): seq<(nat, nat)> {
    seq(24, (k: nat) => Field(h, ph, k))
  }

  lemma SpanNext(fields: seq<(nat, nat)>, k: nat)
    requires k < |fields|
    ensures Span(fields[..k + 1]) == Span(fields[..k]) + fields[k].1
    decreases k
  {
    if k > 0 {
      assert fields[..k + 1][1..] == fields[1..][..k] && fields[..k][1..] == fields[1..][..k - 1];
      SpanNext(fields[1..], k - 1);
    }
  }

  /** The numbers of a program header that are no words fit in their fields. */
  predicate Encodable(ph: Phdr) {
    ph.pType < 0x1_0000_0000 && ph.pFlags < 0x1_0000_0000
  }

  /** A file of 120 bytes with one program header behind the file header. */
  function FileOf(h: Ehdr, ph: Phdr): seq<Byte> {
    Encode(Fields(h, ph))
  }

  /** An executable of 120 bytes whose file header says that the one program header is at table. */
  function Minimal(entry: Word, table: Word, ph: Phdr): seq<Byte> {
    FileOf(Plain(entry, table), ph)
  }

  /** Field k starts at byte at. */
  ghost predicate Starts(h: Ehdr, ph: Phdr, k: nat, at: nat) {
    k <= 24 && Span(Fields(h, ph)[..k]) == at && at <= |FileOf(h, ph)| && (k == 24 ==> at == |FileOf(h, ph)|)
  }

  lemma FieldAt(h: Ehdr, ph: Phdr, k: nat, at: nat, v: nat, n: nat)
    requires k < 24 && Starts(h, ph, k, at) && Field(h, ph, k) == (v, n) && v < Power256(n)
    ensures Starts(h, ph, k + 1, at + n) && Le(FileOf(h, ph), at, n) == v
  {
    hide Le, Encode, Power256, Span, Field;
    var fields := Fields(h, ph);
    SpanNext(fields, k);
    FieldReadsBack(fields, k);
    assert fields[..24] == fields;
  }

  lemma HeaderReads(h: Ehdr, ph: Phdr)
    requires Storable(h)
    ensures var b := FileOf(h, ph);
      && Starts(h, ph, 16, 64)
      && Le(b, 0, 4) == h.magic && Le(b, 4, 1) == h.bits && Le(b, 5, 1) == h.order && Le(b, 6, 1) == h.version
      && Le(b, 16, 2) == h.fileType && Le(b, 18, 2) == h.machine && Le(b, 24, 8) == h.entry && Le(b, 32, 8) == h.table
      && Le(b, 52, 2) == h.headerSize && Le(b, 54, 2) == h.entrySize && Le(b, 56, 2) == h.count
  {
    hide Le, Starts, FileOf, Power256;
    Powers();
    StartOfFields(h, ph);
    FieldAt(h, ph, 0, 0, h.magic, 4);
    FieldAt(h, ph, 1, 4, h.bits, 1);
    FieldAt(h, ph, 2, 5, h.order, 1);
    FieldAt(h, ph, 3, 6, h.version, 1);
    FieldAt(h, ph, 4, 7, h.pad, 9);
    FieldAt(h, ph, 5, 16, h.fileType, 2);
    FieldAt(h, ph, 6, 18, h.machine, 2);
    FieldAt(h, ph, 7, 20, h.fileVersion, 4);
    FieldAt(h, ph, 8, 24, h.entry, 8);
    FieldAt(h, ph, 9, 32, h.table, 8);
    FieldAt(h, ph, 10, 40, h.sections, 8);
    FieldAt(h, ph, 11, 48, h.flags, 4);
    FieldAt(h, ph, 12, 52, h.headerSize, 2);
    FieldAt(h, ph, 13, 54, h.entrySize, 2);
    FieldAt(h, ph, 14, 56, h.count, 2);
    FieldAt(h, ph, 15, 58, h.rest, 6);
  }

  /** ElfIsValid by the fields of the header: it accepts exactly a 64-bit little-endian executable or shared object of
      this version for x86-64 with headers of the usual sizes and 1 to 32 program headers, whose table ends, in 64-bit
      arithmetic, inside the file. */
  lemma ValidByFields(h: Ehdr, ph: Phdr, size: nat)
    requires Storable(h)
    ensures IsValid(FileOf(h, ph), size) <==>
      && size >= 64
      && h.magic == 0x7F + 0x45 * 0x100 + 0x4C * 0x1_0000 + 0x46 * 0x100_0000
      && h.bits == 2 && h.order == 1 && h.version == 1 && h.machine == 62 && (h.fileType == 2 || h.fileType == 3)
      && h.headerSize == 64 && h.entrySize == 56 && 1 <= h.count <= 32 && (h.table + h.count * 56) % TWO_64 <= size
  {
    hide Le, FileOf;
    HeaderReads(h, ph);
    var file := FileOf(h, ph);
    OneByte(file, 4);
    OneByte(file, 5);
    OneByte(file, 6);
  }

  lemma PhdrReads(h: Ehdr, ph: Phdr)
    requires Encodable(ph) && Starts(h, ph, 16, 64)
    ensures |FileOf(h, ph)| == EHDR_SIZE + PHDR_SIZE && PhdrAt(FileOf(h, ph), EHDR_SIZE) == ph
  {
    hide Le, FileOf, Power256;
    Powers();
    FieldAt(h, ph, 16, 64, ph.pType, 4);
    FieldAt(h, ph, 17, 68, ph.pFlags, 4);
    FieldAt(h, ph, 18, 72, ph.pOffset, 8);
    FieldAt(h, ph, 19, 80, ph.pVaddr, 8);
    FieldAt(h, ph, 20, 88, ph.pVaddr, 8);
    FieldAt(h, ph, 21, 96, ph.pFilesz, 8);
    FieldAt(h, ph, 22, 104, ph.pMemsz, 8);
    FieldAt(h, ph, 23, 112, PAGE_SIZE, 8);
  }

  lemma MinimalFile(entry: Word, table: Word, ph: Phdr)
    requires Encodable(ph)
    ensures var file := Minimal(entry, table, ph);
      && |file| == EHDR_SIZE + PHDR_SIZE && EEntry(file) == entry && EPhOff(file) == table && EPhNum(file) == 1
      && PhdrAt(file, EHDR_SIZE) == ph && (IsValid(file, |file|) <==> Low64(table + PHDR_SIZE) <= |file|)
  {
    hide Le, FileOf, PhdrAt, IsValid;
    Powers();
    var h := Plain(entry, table);
    HeaderReads(h, ph);
    PhdrReads(h, ph);
    ValidByFields(h, ph, |FileOf(h, ph)|);
  }

  /** Every entry point and every program header are those of some valid file. */
  lemma MinimalIsValid(entry: Word, ph: Phdr, around: nat -> Byte)
    requires Encodable(ph)
    ensures var file := Minimal(entry, 64, ph);
      && IsValid(file, |file|) && |file| == EHDR_SIZE + PHDR_SIZE && EEntry(file) == entry && TableInFile(file)
      && Phdrs(Source(file, around)) == [ph] && Phdrs(OfFile(file)) == [ph]
  {
    hide Minimal, PhdrAt, IsValid, PhdrFrom;
    MinimalFile(entry, 64, ph);
    var file := Minimal(entry, 64, ph);
    PhdrInFile(Source(file, around), 64);
    PhdrInFile(OfFile(file), 64);
  }

  lemma StartOfFields(h: Ehdr, ph: Phdr)
    ensures Starts(h, ph, 0, 0)
  {
  }

  /** What the two loaders think of a file with one segment. */
  lemma OneSegment(entry: Word, ph: Phdr, around: nat -> Byte)
    requires Encodable(ph) && USER_CODE_VADDR <= entry < USER_STACK_TOP
    ensures var file := Minimal(entry, 64, ph);
      && |file| < TWO_64 && (AcceptsFile(file) <==> (Loads(ph) ==> GoodInFile(ph, 120)))
      && (AcceptsImage(Source(file, around)) <==>
            Loads(ph) && GoodInImage(ph, 120) && USER_CODE_VADDR <= SegStart(ph) && SegEnd(ph) < STACK_BASE)
      && IsValid(file, |file|) && Phdrs(OfFile(file)) == [ph]
  {
    hide IsValid, Minimal, Phdrs, Loads, SegEnd, SegStart, GoodInFile, GoodInImage, InSeg;
    MinimalIsValid(entry, ph, around);
    assert [ph][0] == ph;
    assert MaxEnd([ph], 1) == if Loads(ph) && SegEnd(ph) > 0 then SegEnd(ph) else 0 by { assert MaxEnd([ph], 0) == 0; }
  }

  /** For each way to be judged differently, a file that ElfLoadFromFile accepts and ElfLoad does not: a segment that
      covers the first stack page, one under the lowest code address, none at all, an empty one behind the file, one
      whose end wraps around. */
  lemma JudgedDifferently(around: nat -> Byte)
    ensures var inStack := Minimal(0x40_0000, 64, Phdr(PT_LOAD, 6, 0, STACK_BASE, 0, PAGE_SIZE));
      && |inStack| < TWO_64 && AcceptsFile(inStack) && !AcceptsImage(Source(inStack, around))
      && !ClearOfStack(Phdrs(OfFile(inStack)))
    ensures var low := Minimal(0x40_0000, 64, Phdr(PT_LOAD, 6, 0, 0x1000, 0, PAGE_SIZE));
      |low| < TWO_64 && AcceptsFile(low) && !AcceptsImage(Source(low, around))
    ensures var none := Minimal(0x40_0000, 64, Phdr(0, 6, 0, 0x40_0000, 0, PAGE_SIZE));
      |none| < TWO_64 && AcceptsFile(none) && !AcceptsImage(Source(none, around))
    ensures var behind := Minimal(0x40_0000, 64, Phdr(PT_LOAD, 6, 121, 0x40_0000, 0, PAGE_SIZE));
      |behind| < TWO_64 && AcceptsFile(behind) && !AcceptsImage(Source(behind, around))
    ensures var past := Minimal(0x40_0000, 64, Phdr(PT_LOAD, 6, 0, TWO_64 - 0x1000, 0, 0x2000));
      |past| < TWO_64 && AcceptsFile(past) && !AcceptsImage(Source(past, around))
  {
    hide AcceptsFile, AcceptsImage, Minimal, Phdrs, Loads, GoodInFile, GoodInImage, SegStart, SegEnd, InSeg;
    OddSegments();
    assert [Phdr(PT_LOAD, 6, 0, STACK_BASE, 0, PAGE_SIZE)][0] == Phdr(PT_LOAD, 6, 0, STACK_BASE, 0, PAGE_SIZE);
    OneSegment(0x40_0000, Phdr(PT_LOAD, 6, 0, STACK_BASE, 0, PAGE_SIZE), around);
    OneSegment(0x40_0000, Phdr(PT_LOAD, 6, 0, 0x1000, 0, PAGE_SIZE), around);
    OneSegment(0x40_0000, Phdr(0, 6, 0, 0x40_0000, 0, PAGE_SIZE), around);
    OneSegment(0x40_0000, Phdr(PT_LOAD, 6, 121, 0x40_0000, 0, PAGE_SIZE), around);
    OneSegment(0x40_0000, Phdr(PT_LOAD, 6, 0, TWO_64 - 0x1000, 0, 0x2000), around);
  }

  lemma OddSegments()
    ensures var ph := Phdr(PT_LOAD, 6, 0, STACK_BASE, 0, PAGE_SIZE);
      Loads(ph) && GoodInFile(ph, 120) && SegEnd(ph) > STACK_BASE && InSeg(ph, STACK_BASE)
    ensures var ph := Phdr(PT_LOAD, 6, 0, 0x1000, 0, PAGE_SIZE); GoodInFile(ph, 120) && !GoodInImage(ph, 120)
    ensures !Loads(Phdr(0, 6, 0, 0x40_0000, 0, PAGE_SIZE))
    ensures var ph := Phdr(PT_LOAD, 6, 121, 0x40_0000, 0, PAGE_SIZE); GoodInFile(ph, 120) && !GoodInImage(ph, 120)
    ensures var ph := Phdr(PT_LOAD, 6, 0, TWO_64 - 0x1000, 0, 0x2000); GoodInFile(ph, 120) && !GoodInImage(ph, 120)
  {
    hide Low64, SegEnd, FileEnd, SegStart;
    EmptyPage(0, STACK_BASE, STACK_BASE / PAGE_SIZE);
    EmptyPage(0, 0x1000, 1);
    EmptyPage(121, 0x40_0000, 0x400);
    PastTheEnd();
  }

  /** An empty segment of one page. */
  lemma EmptyPage(offset: Word, va: Word, page: nat)
    requires va == 4096 * page && va + 2 * PAGE_SIZE <= TWO_64
    ensures var ph := Phdr(PT_LOAD, 6, offset, va, 0, PAGE_SIZE);
      && FileEnd(ph) == va && SegStart(ph) == va && SegEnd(ph) == va + PAGE_SIZE
      && Low64(offset + ph.pFilesz) == offset && Low64(va + PAGE_SIZE) == va + PAGE_SIZE
  {
    hide Low64;
    Wraps(va, 0);
    Wraps(offset, 0);
    Wraps(va, PAGE_SIZE);
    Wraps(va + PAGE_SIZE, PAGE_SIZE - 1);
    InPage(page, 0);
    InPage(page + 1, PAGE_SIZE - 1);
  }

  lemma InPage(page: nat, k: nat)
    requires k < PAGE_SIZE
    ensures (4096 * page + k) % PAGE_SIZE == k
  {
  }

  lemma PastTheEnd()
    ensures var ph := Phdr(PT_LOAD, 6, 0, TWO_64 - 0x1000, 0, 0x2000);
      FileEnd(ph) == ph.pVaddr && SegEnd(ph) == 0x1000 && Low64(ph.pVaddr + ph.pMemsz) == 0x1000
  {
    hide Low64;
    Wraps(TWO_64 - 0x1000, 0);
    Wraps(TWO_64 - 0x1000, 0x2000);
    Wraps(0x1000, PAGE_SIZE - 1);
  }

  /** Memory in front of a file that shows its 56 bytes from 64 on, as they would be at offset -56. */
  function Mirrored(file: seq<Byte>): nat -> Byte
    requires |file| == EHDR_SIZE + PHDR_SIZE
  {
    (o: nat) => if |file| == EHDR_SIZE + PHDR_SIZE && TWO_64 - PHDR_SIZE <= o < TWO_64
      then file[EHDR_SIZE + (o - (TWO_64 - PHDR_SIZE))] else 0
  }

  /** And files that ElfLoad accepts and ElfLoadFromFile does not: one segment whose bytes start 8 in front of the file,
      whatever is there, and one program header in front of the file, when there is a good one. */
  lemma JudgedDifferentlyByWrap(around: nat -> Byte)
    ensures var early := Minimal(0x40_0000, 64, Phdr(PT_LOAD, 6, TWO_64 - 8, 0x40_0000, 16, PAGE_SIZE));
      |early| < TWO_64 && AcceptsImage(Source(early, around)) && !AcceptsFile(early)
    ensures var front := Minimal(0x40_0000, TWO_64 - PHDR_SIZE, Phdr(PT_LOAD, 6, 0, 0x40_0000, 0, PAGE_SIZE));
      |front| == 120 && AcceptsImage(Source(front, Mirrored(front))) && !AcceptsFile(front)
  {
    hide AcceptsFile, AcceptsImage, Minimal, Phdrs, Loads, GoodInFile, GoodInImage, SegStart, SegEnd;
    WrappedSegments();
    OneSegment(0x40_0000, Phdr(PT_LOAD, 6, TWO_64 - 8, 0x40_0000, 16, PAGE_SIZE), around);
    HeaderInFront(0x40_0000, Phdr(PT_LOAD, 6, 0, 0x40_0000, 0, PAGE_SIZE));
  }

  lemma WrappedSegments()
    ensures var ph := Phdr(PT_LOAD, 6, TWO_64 - 8, 0x40_0000, 16, PAGE_SIZE);
      && Loads(ph) && GoodInImage(ph, 120) && !GoodInFile(ph, 120)
      && USER_CODE_VADDR <= SegStart(ph) && SegEnd(ph) < STACK_BASE
    ensures var ph := Phdr(PT_LOAD, 6, 0, 0x40_0000, 0, PAGE_SIZE);
      Loads(ph) && GoodInImage(ph, 120) && USER_CODE_VADDR <= SegStart(ph) && SegEnd(ph) < STACK_BASE
  {
    hide Low64, SegEnd, FileEnd, SegStart;
    EmptyPage(0, 0x40_0000, 0x400);
    EarlyBytes();
  }

  lemma EarlyBytes()
    ensures var ph := Phdr(PT_LOAD, 6, TWO_64 - 8, 0x40_0000, 16, PAGE_SIZE);
      && FileEnd(ph) == 0x40_0010 && SegStart(ph) == 0x40_0000 && SegEnd(ph) == 0x40_1000
      && Low64(ph.pOffset + ph.pFilesz) == 8 && Low64(ph.pVaddr + ph.pMemsz) == 0x40_1000
  {
    hide Low64;
    Wraps(0x40_0000, 16);
    Wraps(TWO_64 - 8, 16);
    Wraps(0x40_0000, PAGE_SIZE);
    Wraps(0x40_1000, PAGE_SIZE - 1);
  }

  lemma HeaderInFront(entry: Word, ph: Phdr)
    requires Encodable(ph) && USER_CODE_VADDR <= entry < USER_STACK_TOP
    requires Loads(ph) && GoodInImage(ph, 120) && USER_CODE_VADDR <= SegStart(ph) && SegEnd(ph) < STACK_BASE
    ensures var file := Minimal(entry, TWO_64 - PHDR_SIZE, ph);
      |file| == 120 && AcceptsImage(Source(file, Mirrored(file))) && !AcceptsFile(file)
  {
    hide Minimal, PhdrAt, IsValid, PhdrFrom, GoodInImage, Loads, SegEnd, SegStart;
    var table: Word := TWO_64 - PHDR_SIZE;
    MinimalFile(entry, table, ph);
    var file := Minimal(entry, table, ph);
    MirroredHeader(file, ph);
    assert Phdrs(Source(file, Mirrored(file))) == [ph];
    assert [ph][0] == ph;
    assert MaxEnd([ph], 1) == if SegEnd(ph) > 0 then SegEnd(ph) else 0 by { assert MaxEnd([ph], 0) == 0; }
  }

  lemma MirroredHeader(file: seq<Byte>, ph: Phdr)
    requires |file| == EHDR_SIZE + PHDR_SIZE && PhdrAt(file, EHDR_SIZE) == ph
    ensures PhdrFrom(Source(file, Mirrored(file)), TWO_64 - PHDR_SIZE) == ph
  {
    hide PhdrAt;
    var src, off := Source(file, Mirrored(file)), TWO_64 - PHDR_SIZE;
    var b := file[EHDR_SIZE..EHDR_SIZE + PHDR_SIZE];
    forall k | 0 <= k < PHDR_SIZE
      ensures src.At(off + k) == b[k]
    {
      Wraps(0, off + k);
    }
    assert b == seq<Byte>(PHDR_SIZE, (k: nat) => src.At(off + k));
    PhdrOfSlice(file, EHDR_SIZE, EHDR_SIZE + PHDR_SIZE, 0);
  }

  lemma OneByte(b: seq<Byte>, at: nat)
    requires at < |b|
    ensures Le(b, at, 1) == b[at]
  {
    assert Le(b, at + 1, 0) == 0;
  }

  lemma Powers()
    ensures Power256(1) == 0x100 && Power256(2) == 0x1_0000 && Power256(4) == 0x1_0000_0000
    ensures Power256(6) >= 1 && Power256(8) == 0x1_0000_0000_0000_0000 && Power256(9) >= 1
  {
    assert Power256(3) == 256 * Power256(2) && Power256(5) == 256 * Power256(4) && Power256(7) == 256 * Power256(6);
  }

  /** The part of a page that comes from the file. */
  function CopyStart(ph: Phdr, va: nat): nat { if va > ph.pVaddr then va else ph.pVaddr }
  function CopyEnd(ph: Phdr, va: nat): nat {
    if va + PAGE_SIZE < FileEnd(ph) then va + PAGE_SIZE else FileEnd(ph)
  }

  /** The bytes of a page that come from the file, at their offset in the page, are the image of the page. */
  lemma PageImage(file: Source, ph: Phdr, va: nat)
    ensures var s, e := CopyStart(ph, va), CopyEnd(ph, va);
      && (s < e ==> va <= s && e <= va + PAGE_SIZE && ph.pVaddr <= s)
      && forall b: nat :: va <= b < va + PAGE_SIZE ==>
        SegByte(file, ph, b) == if s <= b < e then file.At(ph.pOffset + (b - ph.pVaddr)) else 0
  {
    hide Low64;
  }

  // ---- The stack block ----

  datatype Store = Store(at: nat, bytes: seq<Byte>) {
    predicate Covers(v: nat) { at <= v < at + |bytes| }
  }

  /** A cell with a byte stored in it; its page keeps its permissions. */
  function Stored(c: Option<Cell>, b: Byte): Option<Cell> {
    if c.Some? then Some(c.value.(byte := b)) else Some(Cell(b, true, true))
  }

  function ByteOf(c: Option<Cell>): Option<Byte> {
    if c.Some? then Some(c.value.byte) else None
  }

  /** Memory after stores, the last one on top. */
  ghost function Overlay(base: nat -> Option<Cell>, ws: seq<Store>, v: nat): Option<Cell> {
    if ws == [] then base(v)
    else
      var w, under := ws[|ws| - 1], Overlay(base, ws[..|ws| - 1], v);
      if w.Covers(v) then Stored(under, w.bytes[v - w.at]) else under
  }

  /** Each store lies below the ones before it, from the stack top down to x. */
  ghost predicate Descending(ws: seq<Store>, x: int) {
    && (forall i, j :: 0 <= i < j < |ws| ==> ws[j].at + |ws[j].bytes| <= ws[i].at)
    && (forall i :: 0 <= i < |ws| ==> x <= ws[i].at && ws[i].at + |ws[i].bytes| <= USER_STACK_TOP)
  }

  lemma DescendingMore(ws: seq<Store>, x: int, w: Store)
    requires Descending(ws, x) && w.at + |w.bytes| <= x <= USER_STACK_TOP
    ensures Descending(ws + [w], w.at)
  {
  }

  /** Stores that never overlap are all still there at the end. */
  lemma {:induction false} OverlayShows(base: nat -> Option<Cell>, ws: seq<Store>, x: int, j: nat, v: nat)
    requires Descending(ws, x) && j < |ws| && ws[j].Covers(v)
    ensures ByteOf(Overlay(base, ws, v)) == Some(ws[j].bytes[v - ws[j].at])
  {
    if j < |ws| - 1 {
      OverlayShows(base, ws[..|ws| - 1], x, j, v);
    }
  }

  /** Where the string of argument i goes, counted down from the stack top in steps of 16. */
  function PtrAt(args: seq<seq<Byte>>, i: nat): int
    requires i <= |args|
    decreases |args| - i
  {
    if i == |args| then USER_STACK_TOP
    else var p := PtrAt(args, i + 1) - (|args[i]| + 1); p - p % 16
  }

  /** The stack pointer of the new task. */
  function StackPointer(args: seq<seq<Byte>>): int {
    PtrAt(args, 0) - 8 * (|args| + 2)
  }

  /** The arguments do not run below address 0. */
  ghost predicate StackFits(args: seq<seq<Byte>>) {
    StackPointer(args) > 0
  }

  lemma {:induction false} PtrsDescend(args: seq<seq<Byte>>, i: nat, j: nat)
    requires i <= j <= |args|
    ensures PtrAt(args, i) <= PtrAt(args, j)
    ensures i < j ==> PtrAt(args, i) + |args[i]| + 1 <= PtrAt(args, j)
    decreases j - i
  {
    if i < j { PtrsDescend(args, i + 1, j); }
  }

  /** The address of the string of argument i, and of its pointer; the pointer behind the last one is NULL. */
  function Ptr(args: seq<seq<Byte>>, i: nat): nat
    requires i <= |args|
  {
    var p := PtrAt(args, i);
    if i < |args| && p >= 0 then p else 0
  }

  function PtrPlace(args: seq<seq<Byte>>, i: nat): nat
    requires i <= |args| && StackFits(args)
  {
    PtrAt(args, 0) - 8 * (|args| - i + 1)
  }

  function StringStore(args: seq<seq<Byte>>, i: nat): Store
    requires i < |args|
  {
    Store(Ptr(args, i), args[i] + [0])
  }

  function PointerStore(args: seq<seq<Byte>>, i: nat): Store
    requires i <= |args| && StackFits(args)
  {
    Store(PtrPlace(args, i), ToLe(Ptr(args, i), 8))
  }

  /** The stores of the strings, from the last argument down to argument i. */
  function StringStores(args: seq<seq<Byte>>, i: nat): (ws: seq<Store>)
    requires i <= |args|
    ensures |ws| == |args| - i
    decreases |args| - i
  {
    if i == |args| then [] else StringStores(args, i + 1) + [StringStore(args, i)]
  }

  /** The stores of the NULL pointer and of the pointers, from the last argument down to argument i. */
  function PointerStores(args: seq<seq<Byte>>, i: nat): (ws: seq<Store>)
    requires i <= |args| && StackFits(args)
    ensures |ws| == |args| - i + 1
    decreases |args| - i
  {
    (if i == |args| then [] else PointerStores(args, i + 1)) + [PointerStore(args, i)]
  }

  /** Everything ElfSetupStack stores, in order. */
  function StackStores(args: seq<seq<Byte>>): seq<Store>
    requires StackFits(args)
  {
    StringStores(args, 0) + PointerStores(args, 0) + [Store(StackPointer(args), ToLe(|args|, 8))]
  }

  lemma PtrsFit(args: seq<seq<Byte>>, i: nat)
    requires i <= |args| && StackFits(args)
    ensures USER_STACK_TOP >= PtrAt(args, i) >= PtrAt(args, 0) > 8 * (|args| + 2)
    ensures i < |args| ==> Ptr(args, i) == PtrAt(args, i) && PtrAt(args, i) + |args[i]| + 1 <= PtrAt(args, i + 1)
  {
    PtrsDescend(args, 0, i);
    PtrsDescend(args, i, |args|);
    if i < |args| { PtrsDescend(args, i, i + 1); }
  }

  lemma {:induction false} StringsDescend(args: seq<seq<Byte>>, i: nat)
    requires i <= |args| && StackFits(args)
    ensures Descending(StringStores(args, i), PtrAt(args, i))
    decreases |args| - i
  {
    if i < |args| {
      PtrsFit(args, i);
      PtrsFit(args, i + 1);
      StringsDescend(args, i + 1);
      DescendingMore(StringStores(args, i + 1), PtrAt(args, i + 1), StringStore(args, i));
    }
  }

  lemma {:induction false} StringStoresAt(args: seq<seq<Byte>>, i: nat, k: nat)
    requires i <= k < |args|
    ensures StringStores(args, i)[|args| - 1 - k] == StringStore(args, k)
    decreases |args| - i
  {
    if i < k { StringStoresAt(args, i + 1, k); }
  }

  lemma {:induction false} PointersDescend(args: seq<seq<Byte>>, i: nat)
    requires i <= |args| && StackFits(args)
    ensures Descending(StringStores(args, 0) + PointerStores(args, i), PtrPlace(args, i))
    decreases |args| - i
  {
    hide Descending, PtrAt, ToLe, StringStores;
    PtrsFit(args, i);
    var ss, w := StringStores(args, 0), PointerStore(args, i);
    if i == |args| {
      StringsDescend(args, 0);
      DescendingMore(ss, PtrAt(args, 0), w);
      assert PointerStores(args, i) == [w];
    } else {
      PointersDescend(args, i + 1);
      DescendingMore(ss + PointerStores(args, i + 1), PtrPlace(args, i + 1), w);
      assert ss + PointerStores(args, i) == ss + PointerStores(args, i + 1) + [w];
    }
  }

  lemma {:induction false} PointerStoresAt(args: seq<seq<Byte>>, i: nat, k: nat)
    requires i <= k <= |args| && StackFits(args)
    ensures PointerStores(args, i)[|args| - k] == PointerStore(args, k)
    decreases |args| - i
  {
    hide PointerStore, StackFits;
    if i < k { PointerStoresAt(args, i + 1, k); }
  }

  /** The bytes at va, as a reader of the memory sees them. */
  ghost predicate Holds(memory: nat -> Option<Byte>, va: nat, bytes: seq<Byte>) {
    forall v: nat :: va <= v < va + |bytes| ==> memory(v) == Some(bytes[v - va])
  }

  /** The block a new task finds: argc, the pointers, NULL, and behind every pointer its string with the NUL. */
  ghost predicate StackBlock(memory: nat -> Option<Byte>, sp: int, args: seq<seq<Byte>>) {
    && sp >= 0
    && Holds(memory, sp, ToLe(|args|, 8))
    && Holds(memory, sp + 8 + 8 * |args|, ToLe(0, 8))
    && forall i :: 0 <= i < |args| ==> ArgumentAt(memory, sp, args, i)
  }

  ghost predicate ArgumentAt(memory: nat -> Option<Byte>, sp: nat, args: seq<seq<Byte>>, i: nat)
    requires i < |args|
  {
    exists p: nat :: Holds(memory, sp + 8 + 8 * i, ToLe(p, 8)) && Holds(memory, p, args[i] + [0])
  }

  /** What ElfSetupStack stores is a stack block, on any memory. */
  lemma StoresMakeBlock(base: nat -> Option<Cell>, args: seq<seq<Byte>>, memory: nat -> Option<Byte>)
    requires StackFits(args)
    requires forall v: nat :: v < USER_STACK_TOP ==> ByteOf(Overlay(base, StackStores(args), v)) == memory(v)
    ensures StackBlock(memory, StackPointer(args), args)
  {
    hide Descending, PtrAt, ToLe, StringStores, PointerStores, Overlay, Holds;
    var ws, n, sp := StackStores(args), |args|, StackPointer(args);
    var ss, ps, w := StringStores(args, 0), PointerStores(args, 0), Store(StackPointer(args), ToLe(|args|, 8));
    PtrsFit(args, 0);
    PointersDescend(args, 0);
    DescendingMore(ss + ps, PtrPlace(args, 0), w);
    assert ws == ss + ps + [w];
    StoreHolds(base, ws, sp, memory, |ws| - 1);
    PointerStoresAt(args, 0, n);
    StoreHolds(base, ws, sp, memory, n);
    forall i | 0 <= i < n
      ensures ArgumentAt(memory, sp, args, i)
    {
      StringStoresAt(args, 0, i);
      StoreHolds(base, ws, sp, memory, n - 1 - i);
      PointerStoresAt(args, 0, i);
      StoreHolds(base, ws, sp, memory, n + (n - i));
    }
  }

  lemma StoreHolds(base: nat -> Option<Cell>, ws: seq<Store>, x: int, memory: nat -> Option<Byte>, j: nat)
    requires Descending(ws, x) && j < |ws|
    requires forall v: nat :: v < USER_STACK_TOP ==> ByteOf(Overlay(base, ws, v)) == memory(v)
    ensures Holds(memory, ws[j].at, ws[j].bytes)
  {
    forall v: nat | ws[j].Covers(v)
      ensures memory(v) == Some(ws[j].bytes[v - ws[j].at])
    {
      OverlayShows(base, ws, x, j, v);
    }
  }
}
