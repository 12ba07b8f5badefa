/** What several modules share. */
module Common {

  datatype Option<+T> = None | Some(value: T)

  const WORD := 0x1_0000_0000 // unsigned int wraps here

  /** What an unsigned word holds. */
  type Word = n: nat | n < WORD
}
