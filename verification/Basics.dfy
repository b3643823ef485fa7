/** Result codes (error.h), optional values and the width of a machine word, shared by the components. */
module Basics {

  /** uint32_t and size_t hold the numbers below this one. */
  const UINT32: nat := 0x1_0000_0000

  datatype Option<+T> = None | Some(value: T)

  /** The members of error_t that the modelled calls return. */
  datatype Error = Ok | Invalid | Busy | NoEntry | BadDescriptor

  /** What a history b has beyond its earlier state a. */
  function Added(a: seq<nat>, b: seq<nat>): seq<nat> {
    if |a| <= |b| then b[|a|..] else []
  }
}
