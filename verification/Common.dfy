/**
 Words, bytes and optional values, shared by all parts.
 */
module Common {
  const WORD: nat := 0x1_0000_0000

  /** What a 32-bit word keeps of x. */
  function Wrap(x: int): (r: int)
    ensures 0 <= r < WORD
  {
    x % WORD
  }

  type byte = x: int | 0 <= x < 256

  datatype Option<T> = None | Some(value: T)
}
