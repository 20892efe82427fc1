/** A value that may be missing: a null pointer, or an answer that does not come. */
module Wrappers {

  datatype Option<T> = None | Some(value: T)
}

/** The unit in which memory comes from the system. */
module PageUnit {

  const PAGE_SIZE := 4096
}
