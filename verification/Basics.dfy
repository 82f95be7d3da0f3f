/** A value that may be absent: a null pointer, an error return, an empty optional. */
module Options {
  datatype Option<T> = None | Some(value: T)
}

/** Bytes, 64-bit words and address arithmetic. */
module Words {
  type Byte = bv8

  const WORD: nat := 0x1_0000_0000_0000_0000

  type Word = x: nat | x < WORD

  function Wrap(x: int): Word {
    x % WORD
  }
}
