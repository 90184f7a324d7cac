/** The 32-bit machine word and the few mask-and-shift idioms the kernel uses on it. */
module Machine32 {
  datatype Option<+T> = None | Some(value: T) {
    function GetOr(default: T): T {
      match this
      case Some(v) => v
      case None => default
    }
  }

  const TWO_32 := 0x1_0000_0000
  const PAGE_SIZE := 4096

  /** An unsigned 32-bit integer. */
  type Word = w: int | 0 <= w < 0x1_0000_0000

  /** Unsigned addition, which wraps. */
  function Add(a: Word, b: int): Word { (a + b) % TWO_32 }

  /** `w & 0xFFFFF000`: the page frame holding address `w`. */
  function FrameBase(w: Word): Word { w - w % PAGE_SIZE }

  /** `w | 7`: the word with the Present, Read/Write and User bits set. */
  function WithFlags(w: Word): Word { w - w % 8 + 7 }

  /** Bit 0 of a paging-structure entry. */
  predicate Present(entry: Word) { entry % 2 == 1 }
}
