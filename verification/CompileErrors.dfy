/**
 Compile-time limits and errors shared by the stages and the table builders.
 */
module CompileErrors {

  datatype CompileStage =
    | Lowering | GrammarReduction | SccAnalysis | RegularCertification | ResidualGrammarStage
    | TerminalCompilation | EarleyPreparation | LrConstruction | LalrMerge | LalrTableStage | VocabularyProjection

  // What has no exact grammar here.
  datatype UnsupportedSchema = AnyObject | OpenObject | StringLength | UnboundedItems | RemainderItems

  datatype CompileError =
    | ResourceLimitExceeded(stage: CompileStage, observed: nat, limit: nat)
    | InternalError(message: string)
    | BackendUnavailable(backend: string)
    | UnsupportedCombination(what: UnsupportedSchema)

  datatype CompileLimits = CompileLimits(
    maxLrStates: nat, maxLrItems: nat, maxActionEntries: nat, maxGotoEntries: nat, maxReportedConflicts: nat,
    maxVocabularySlots: nat, maxTotalTokenBytes: nat, maxTokenBytes: nat, maxTrieNodes: nat, maxTrieEdges: nat,
    maxTrieTerminalIds: nat)

  // At most as many states as there are numbers below the one that marks a dead state.
  type StateLimit = n: nat | n <= 0xFFFF_FFFF

  datatype GrammarLimits = GrammarLimits(
    maxSymbols: nat, maxRhsSymbols: nat, maxProductions: nat, maxDfaStates: StateLimit, maxTerminalDfaStates: nat)

  predicate OfGrammars(limits: GrammarLimits, limit: nat) {
    limit == limits.maxSymbols || limit == limits.maxProductions || limit == limits.maxRhsSymbols
  }

  // A limit on the lowered grammar, and more than it allows.
  predicate GrammarOver(limits: GrammarLimits, e: CompileError) {
    e.ResourceLimitExceeded? && e.stage == Lowering && e.observed > e.limit && OfGrammars(limits, e.limit)
  }

  datatype Result<+T> = Ok(value: T) | Err(error: CompileError)
}
