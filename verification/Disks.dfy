/** Block devices as the page cache sees them: an unbounded array of bytes
    addressed in sectors, whose operations may fail at any time. */
module Disks {
  import opened Bytes

  /** The sector sizes a page holds a whole number of. */
  type SectorBytes = s: nat | s > 0 && 4096 % s == 0 witness 512

  class Disk {
    const SectorSize: SectorBytes
    var Content: int -> Byte

    constructor (sectorSize: SectorBytes)
      ensures SectorSize == sectorSize
    {
      SectorSize := sectorSize;
      Content := _ => 0;
    }

    function SectorsPerPage(): nat {
      PAGE_SIZE / SectorSize
    }

    /** A read either fails or returns the addressed sectors. */
    method Read(lba: nat, count: nat) returns (ok: bool, buf: seq<Byte>)
      ensures ok ==> |buf| == count * SectorSize
      ensures ok ==> forall k :: 0 <= k < |buf| ==> buf[k] == Content(lba * SectorSize + k)
    {
      ok, buf := *, [];
      if ok {
        var c, base := Content, lba * SectorSize;
        buf := seq(count * SectorSize, k => c(base + k));
      }
    }

    /** A failed write may leave anything in the addressed sectors; no other byte changes. */
    method Write(lba: nat, count: nat, buf: seq<Byte>) returns (ok: bool)
      requires |buf| == count * SectorSize
      modifies `Content
      ensures forall i :: !(lba * SectorSize <= i < lba * SectorSize + |buf|) ==> Content(i) == old(Content)(i)
      ensures ok ==> forall k :: 0 <= k < |buf| ==> Content(lba * SectorSize + k) == buf[k]
    {
      ok := *;
      var torn: int -> Byte := *;
      var c, base := Content, lba * SectorSize;
      var landed: seq<Byte> := if ok then buf else seq<Byte>(|buf|, k => torn(k));
      Content := i => Overwritten(c, base, landed, i);
    }
  }

  /** The sectors of page n are exactly the bytes [4096 n, 4096 n + 4096). */
  lemma PageBytes(n: nat, size: SectorBytes)
    ensures (4096 / size) * size == 4096
    ensures n * (4096 / size) * size == n * 4096
  {
    assert (4096 / size) * size == 4096;
    assert n * (4096 / size) * size == n * ((4096 / size) * size);
  }

  /** The bytes of sector c lie in page c / n, at its sector c % n, where n is the sectors per page. */
  lemma SectorInPage(c: nat, size: SectorBytes)
    ensures 4096 / size > 0
    ensures (c * size) / 4096 == c / (4096 / size)
    ensures (c * size) % 4096 == (c % (4096 / size)) * size
    ensures 4096 - (c * size) % 4096 == (4096 / size - c % (4096 / size)) * size
  {
    var n := 4096 / size;
    assert n * size == 4096;
    var q, r := c / n, c % n;
    assert c == q * n + r;
    assert c * size == q * 4096 + r * size by {
      assert c * size == (q * n) * size + r * size;
      assert (q * n) * size == q * (n * size);
    }
    assert 0 <= r * size <= (n - 1) * size;
    assert (n - 1) * size == 4096 - size;
    assert (n - r) * size == 4096 - r * size;
  }
}
