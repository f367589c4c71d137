/**
 * The enumerations and data records the modelled components exchange
 * (src/core/types.py and src/core/models.py).
 */
module Types {
  import opened Wrappers
  import opened Dicts
  import opened Values

  /** A reading of `datetime.now()`, in microseconds (the resolution of Python's `datetime`). */
  type Time = int

  /** 24 hours, the default lifetime of a memory entry and of a snapshot. */
  const Day: int := 24 * 60 * 60 * 1_000_000

  /** Status of one plan step. */
  datatype StepStatus = Pending | Running | Completed | Failed | Skipped

  /** Role of a cognitive agent; the engine looks agents up by role. */
  datatype AgentRole = ContextBuilder | Planner | PlanCritic | StepExecutor | Reviewer

  /** Permission level of a tool. */
  datatype PermissionLevel = Public | Internal | Admin

  /** Kinds of trace events. */
  datatype TraceEventType =
    | StateTransition | AgentDecision | ToolCallStart | ToolCallEnd | PolicyEvaluation
    | SnapshotCreated | SnapshotRestored | HumanInteraction | ErrorOccurred

  /** The three memory scopes, each with its own table. */
  datatype MemoryScope = Ephemeral | Session | Global

  /** One step of an execution plan. */
  datatype PlanStep = PlanStep(
    id: string,
    description: string,
    toolName: string,
    inputSchema: Fields,
    expectedOutput: Option<string>,
    dependencies: seq<string>,
    timeoutMs: Option<int>)

  /** A full execution plan. */
  datatype ExecutionPlan = ExecutionPlan(
    goal: string,
    steps: seq<PlanStep>,
    metadata: Fields,
    createdAt: Time)

  /** The rollback-able execution context, the unit a snapshot captures. */
  datatype ExecutionContext = ExecutionContext(
    currentPlan: Option<ExecutionPlan>,
    activeSteps: Dict<string, StepStatus>,
    currentBatchId: Option<string>,
    replanScope: Option<string>,
    intermediateResults: Fields,
    errors: seq<string>,
    snapshotId: Option<string>)
}
