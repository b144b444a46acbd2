/** Definitions that several models share. */
module Common {

  datatype Option<T> = None | Some(value: T)

  /** 1 if b holds, so that a sum says how many of several things hold. */
  function One(b: bool): nat {
    if b then 1 else 0
  }
}
