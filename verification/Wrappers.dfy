/** What C code returns as a pointer that may be NULL, and what malloc returns. */
module Wrappers {
  /** A value that may be absent. */
  datatype Option<+T> = None | Some(value: T)

  /**
   What malloc answers when a list element has just been freed: no memory, that
   element's block, or a block that is in use in no list, freed earlier or never used.
   */
  datatype Malloc<+H> = Fails | Recycles | Gives(block: H)
}
