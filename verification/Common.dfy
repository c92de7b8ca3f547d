/** Definitions that more than one component uses. */
module Common {
  datatype Option<T> = None | Some(value: T)

  function Max(a: nat, b: nat): nat { if a < b then b else a }
}
