/** Small types and machine arithmetic that several models share. */
module Common {
  datatype Option<T> = None | Some(value: T)

  const WORD32: nat := 0x1_0000_0000

  /** An unsigned 32-bit sum. */
  function Add32(a: nat, b: nat): nat { (a + b) % WORD32 }
}
