/** What the parts of the kernel share. */
module Kernel {

  const PAGE := 0x1000

  /**
    Some lines of the original do something else than the comment above them says.  AsWritten
    follows the code; AsCommented follows the comment.
  */
  datatype Build = AsWritten | AsCommented

  datatype Option<T> = None | Some(value: T)
}
