/** Bytes and byte-addressed memory. */
module Bytes {
  const PAGE_SIZE: nat := 4096

  type Byte = x: int | 0 <= x < 256

  /** Byte i of a memory with contents c once buf is stored at base. */
  function Overwritten(c: int -> Byte, base: int, buf: seq<Byte>, i: int): Byte {
    if base <= i < base + |buf| then buf[i - base] else c(i)
  }
}
