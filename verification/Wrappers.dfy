/** A value that may be absent, the kernel's NULL results, and its MIN macro. */
module Wrappers {
  datatype Option<+T> = None | Some(value: T)

  function Min(a: nat, b: nat): nat { if a < b then a else b }
}
