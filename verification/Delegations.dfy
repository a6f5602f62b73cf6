// The delegation record of types/types.go, its timestamps and its numbers.
module Delegations {
  import opened Prelude

  // A float64 ceiling. Finite doubles are modelled by the reals they denote.
  datatype Float = Fin(r: real) | NaN | PosInf | NegInf {
    predicate Finite() { Fin? }

    // IEEE 754 ">": false whenever an operand is NaN.
    predicate Greater(that: Float) {
      match (this, that)
      case (Fin(a), Fin(b)) => a > b
      case (PosInf, Fin(_)) => true
      case (PosInf, NegInf) => true
      case (Fin(_), NegInf) => true
      case _ => false
    }
  }

  datatype Delegation = Delegation(
    delegationId: string,
    delegatedBy: string,
    delegatedTo: string,
    scope: seq<string>,
    spendLimit: Option<Float>,
    spendLimitUnit: string,
    maxDepth: Option<int>,
    currentDepth: Option<int>,
    expiresAt: string,
    notBefore: string,
    createdAt: string,
    signature: string
  ) {
    function Depth(): int {
      if currentDepth.Some? then currentDepth.value else 0
    }

    // A bare limit asserts the default unit; "" binds no spend dimension.
    function StatedUnit(): string {
      if spendLimitUnit != "" then spendLimitUnit
      else if spendLimit.Some? then "currency"
      else ""
    }
  }

  // The layouts time.Parse accepts, as a partial map from non-empty text to
  // nanoseconds since the epoch, together with one reading of the wall clock.
  datatype TimeEnv = TimeEnv(parse: string -> Option<int>, clock: int) {
    function ParseTimestamp(ts: string): Option<int> {
      if ts == "" then None else parse(ts)
    }

    function ParseMillis(ts: string): Option<int> {
      if ts == "" then Some(FloorMillis(clock))
      else match ParseTimestamp(ts)
        case None => None
        case Some(ns) => Some(FloorMillis(ns))
    }

    // The instant an already validated timestamp denotes, in milliseconds.
    function Millis(ts: string): int {
      match parse(ts)
      case None => 0
      case Some(ns) => FloorMillis(ns)
    }
  }

  const NANOS_PER_MILLI := 1_000_000

  // Rounds towards minus infinity, before the epoch too.
  function FloorMillis(ns: int): int {
    ns / NANOS_PER_MILLI
  }

  lemma FloorMillisMonotone(a: int, b: int)
    requires a <= b
    ensures FloorMillis(a) <= FloorMillis(b)
  {
  }
}
