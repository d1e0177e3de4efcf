/**
 Runtime limits, runtime errors, and the outcome of a state-changing step.  A failed step still reports
 the state it stopped in, because the recognizers may leave scratch work behind when they fail.
 */
module Runtime {
  import opened Grammars

  const TWO_TO_THE_32: nat := 0x1_0000_0000

  datatype Resource =
    | InputBytes | ParseStack | ChartColumns | ItemsPerColumn | TotalItems
    | ActiveScans | LeoItems | CheckpointHistory | MaskTraversal | CommittedTokens

  datatype RuntimeError =
    | LimitExceeded(resource: Resource, observed: nat, limit: nat)
    | InvalidCheckpoint(expected: nat, found: nat)
    | InternalInvariant
    | NotSettled
    | GuideFinished
    | EosNotAccepting
    | UnknownTokenId(token: nat)
    | TokenNotAllowed(token: nat)
    | RollbackUnavailable(requested: nat, available: nat)

  datatype RuntimeLimits = RuntimeLimits(
    maxInputBytes: nat, maxParseStack: nat, maxChartColumns: nat, maxItemsPerColumn: nat, maxTotalItems: nat,
    maxActiveScans: nat, maxLeoItems: nat, maxCheckpointHistory: nat, maxMaskTrieEdges: nat,
    maxCommittedTokens: nat)

  datatype Outcome<+S, +T> = Done(state: S, value: T) | Failed(state: S, error: RuntimeError) {

    predicate IsFailure() {
      Failed?
    }

    function PropagateFailure<U>(): Outcome<S, U>
      requires Failed?
    {
      Failed(state, error)
    }

    function Extract(): (S, T)
      requires Done?
    {
      (state, value)
    }
  }

  function LimitOf(limits: RuntimeLimits, resource: Resource): nat {
    match resource
    case InputBytes => limits.maxInputBytes
    case ParseStack => limits.maxParseStack
    case ChartColumns => limits.maxChartColumns
    case ItemsPerColumn => limits.maxItemsPerColumn
    case TotalItems => limits.maxTotalItems
    case ActiveScans => limits.maxActiveScans
    case LeoItems => limits.maxLeoItems
    case CheckpointHistory => limits.maxCheckpointHistory
    case MaskTraversal => limits.maxMaskTrieEdges
    case CommittedTokens => limits.maxCommittedTokens
  }

  // A limit that was set, or the width of a position, and more than it allows.
  predicate Overrun(limits: RuntimeLimits, error: RuntimeError) {
    && error.LimitExceeded?
    && error.observed > error.limit
    && (error.limit == LimitOf(limits, error.resource)
        || (error.resource == InputBytes && error.limit == TWO_TO_THE_32 - 1 < limits.maxInputBytes))
  }

  function Exceeded(resource: Resource, observed: nat, limit: nat): Option<RuntimeError> {
    if observed > limit then Some(LimitExceeded(resource, observed, limit)) else None
  }
}
