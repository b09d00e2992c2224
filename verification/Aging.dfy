/** When a latched fault may be cleared, and what clearing it does to the stored state. */
module Aging {
  import opened Basics
  import opened Debounce
  import opened Faults
  import opened OperationCycles

  const POWER := "power"

  /** Kept in memory only: a restart of the manager forgets it. */
  datatype AgingState = AgingState(
    lastActiveCycle: CycleCounts,
    lastActiveTime: Instant,
    agingCounter: U32,
    isHealed: bool)

  function NewAging(now: Instant): AgingState {
    AgingState(map[], now, 0, false)
  }

  /** Stored per fault; the eight flags are the DTC status byte of ISO 14229-1, Annex D.2. */
  datatype SovdFaultState = SovdFaultState(
    testFailed: bool,
    testFailedThisOperationCycle: bool,
    testFailedSinceLastClear: bool,
    testNotCompletedThisOperationCycle: bool,
    testNotCompletedSinceLastClear: bool,
    pendingDtc: bool,
    confirmedDtc: bool,
    warningIndicatorRequested: bool,
    envData: EnvData,
    occurrenceCounter: U32,
    agingCounter: U32,
    healingCounter: U32,
    firstOccurrenceSecs: U64,
    lastOccurrenceSecs: U64)

  const DEFAULT_STATE :=
    SovdFaultState(false, false, false, false, false, false, false, false, map[], 0, 0, 0, 0, 0)

  function Bump32(n: U32): U32 {
    Min(n + 1, U32_MAX)
  }

  function RecordOccurrence(state: SovdFaultState, nowSecs: U64): SovdFaultState {
    state.(occurrenceCounter := Bump32(state.occurrenceCounter),
           firstOccurrenceSecs := if state.firstOccurrenceSecs == 0 then nowSecs else state.firstOccurrenceSecs,
           lastOccurrenceSecs := nowSecs)
  }

  function MarkActive(aging: AgingState, cycles: CycleCounts, now: Instant): AgingState {
    aging.(lastActiveTime := now, isHealed := false, lastActiveCycle := cycles)
  }

  function MarkHealed(aging: AgingState): AgingState {
    aging.(agingCounter := Bump32(aging.agingCounter), isHealed := true)
  }

  /** How far a named counter has moved since the fault was last active. */
  function CyclesSince(aging: AgingState, cycles: CycleCounts, name: string): nat {
    SaturatingSub(Count(cycles, name), Count(aging.lastActiveCycle, name))
  }

  predicate EvaluateTrigger(trigger: ResetTrigger, aging: AgingState, cycles: CycleCounts, now: Instant) {
    match trigger
    case PowerCycles(minPower) => CyclesSince(aging, cycles, POWER) >= minPower
    case OperationCycles(minCycles, cycleRef) => CyclesSince(aging, cycles, cycleRef) >= minCycles
    case StableFor(duration) => SaturatingSub(now, aging.lastActiveTime) >= duration
    case ToolOnly => false
  }

  predicate ShouldReset(policy: ResetPolicy, aging: AgingState, cycles: CycleCounts, now: Instant) {
    if aging.isHealed then false
    else if policy.minOperatingCycles.Some? && CyclesSince(aging, cycles, POWER) < policy.minOperatingCycles.value
    then false
    else EvaluateTrigger(policy.trigger, aging, cycles, now)
  }

  function ClearDtcFlags(state: SovdFaultState): SovdFaultState {
    state.(confirmedDtc := false, pendingDtc := false, testFailed := false, warningIndicatorRequested := false,
           agingCounter := Bump32(state.agingCounter), healingCounter := Bump32(state.healingCounter))
  }

  function ApplyReset(aging: AgingState, state: SovdFaultState): (AgingState, SovdFaultState) {
    (MarkHealed(aging), ClearDtcFlags(state))
  }
}
