/** Results that may be missing or fail, as the modules share them. */
module Wrappers {
  datatype Option<+T> = None | Some(value: T)

  datatype Result<+T, +E> = Ok(value: T) | Err(error: E)

  /** What a reader makes of the start of a text, and the text it leaves. */
  datatype Reading<+T> = Malformed | Read(value: T, rest: string)
}
