/** What several modules share. */
module Common {

  type Byte = x: int | 0 <= x < 256

  datatype Option<+T> = None | Some(value: T)

  /** The error number a faulting user copy makes a call return, negated. */
  const EFAULT := 14
}
