/** Machine words of the major heap, as the compactor tells them apart. */
module HeapWords {

  const CLOSURE_TAG: nat := 247
  const INFIX_TAG: nat := 249
  const NO_SCAN_TAG: nat := 251
  const STRING_TAG: nat := 252

  datatype Color = White | Gray | Blue | Black

  /**
   * A word by its two low bits.  Addresses count words, so the bits are free:
   * `Ptr` is 00, `Link` 01 (address of the next infix header of a block),
   * `Inv` 10 (inverted pointer of an infix list), `Ehd` 11 (encoded header).
   * `Hd` is an ordinary header and `Imm` a tagged integer.
   */
  datatype Word =
    | Ptr(adr: int)
    | Link(adr: int)
    | Inv(adr: int)
    | Ehd(size: nat, tag: nat)
    | Hd(size: nat, tag: nat, color: Color)
    | Imm(n: int)

  /** A heap chunk: `size` words from `start`. */
  datatype Chunk = Chunk(start: int, size: nat) {
    function End(): int { start + size }
  }

  /** Block number `idx` of the heap: header at `pos`, `size` fields, in chunk number `chunk`. */
  datatype Block = Block(pos: int, size: nat, tag: nat, color: Color, chunk: nat, idx: nat) {
    function End(): int { pos + 1 + size }
    function Whsize(): nat { size + 1 }
  }

  predicate InHeap(chunks: seq<Chunk>, a: int) {
    exists j :: 0 <= j < |chunks| && chunks[j].start <= a < chunks[j].End()
  }
}
