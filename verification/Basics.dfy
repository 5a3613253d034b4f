/** Types and small functions that every module may use. */
module Basics {
  datatype Option<+T> = None | Some(value: T)

  /** The errors that the modelled calls report. */
  datatype Error =
    | UnalignedAddress
    | AddressNotInRange
    | AddressNotMap(addr: nat)
    | NoEnoughMemory
    | InvalidInput
    | Refused(code: int)

  datatype Result<+T> = Ok(value: T) | Err(error: Error)

  newtype Byte = x: int | 0 <= x < 256

  /** The one index of a predicate with a single part. A predicate `P(x)` defined as
      `forall u: Unit :: PIn(u, x)` is a name to a proof: its meaning comes in only where `PIn(Unit, x)` is
      asserted. A predicate with several parts is quantified over an enumeration of their names in the same
      way, and asserting one instance brings in that part alone. */
  datatype Unit = Unit

  function Min(a: nat, b: nat): nat {
    if a < b then a else b
  }

  function Max(a: nat, b: nat): nat {
    if a < b then b else a
  }
}
