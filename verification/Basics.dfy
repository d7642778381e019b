/** What every part of the model names. */
module Basics {

  /** Pages are numbered from 1; 0 stands for "no page". */
  type PageId = nat

  datatype Option<T> = None | Some(value: T)

  const TWO_64: nat := 0x1_0000_0000_0000_0000

  function Min(a: nat, b: nat): nat {
    if a < b then a else b
  }
}
