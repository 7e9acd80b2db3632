/** What a relocation leaves behind, on either architecture. */
module Patching {
  import opened Bytes

  /** Why a relocation returns an error. */
  datatype Error = NoEpilogue | UnexpectedSource | UnsupportedOpcode | BadSlotDistance | Unaligned

  datatype Outcome = Done | Failed(error: Error)

  /** Code bytes, the original bytes saved per site, and the outcome. */
  datatype State = State(code: seq<byte>, saved: map<nat, seq<byte>>, outcome: Outcome)
}
