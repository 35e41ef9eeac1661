/** The base behaviour of an intrinsic-call matcher (`struct IntrinsicCall`). */
module Intrinsics {

  type uint32 = x: int | 0 <= x < 0x1_0000_0000

  /** `IntrinsicCall::MatchResult`: whether the call was recognised and how many
      affiliated objects it needs. */
  datatype MatchResult = MatchResult(matched: bool, affiliated: uint32)

  /** The default `IntrinsicCall::match`: `return { false };` value-initialises the
      remaining member, so the base matcher claims no call and no affiliated slot,
      whatever call it is given. */
  function DefaultMatch<Call>(call: Call): (r: MatchResult)
    ensures !r.matched
    ensures r.affiliated == 0
  {
    MatchResult(false, 0)
  }
}
