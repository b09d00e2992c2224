/**
 What one event does to the manager's fault state, on values.

 `FaultRecordProcessor` is proved to do exactly this; the laws over whole runs are in
 `FaultRuns` and the modules after it.
 */
module FaultProcessing {
  import opened Basics
  import opened Debounce
  import opened Faults
  import opened DebouncePipeline
  import opened OperationCycles
  import opened Aging
  import opened Storage

  /** The clock readings one `process_record` takes, in the order it takes them, and the wall time. */
  datatype Clock = Clock(reset: Instant, event: Instant, active: Instant, check: Instant, wall: U64)

  /** Everything the manager knows about one fault of one source. */
  datatype KeyState = KeyState(
    debouncer: Option<Debouncer>,
    lastStage: Option<LifecycleStage>,
    aging: Option<AgingState>,
    stored: Option<SovdFaultState>)

  const UNKNOWN := KeyState(None, None, None, None)

  function Lookup(registry: CatalogRegistry, k: FaultKey): Option<FaultDescriptor> {
    if k.source in registry && k.faultId in registry[k.source]
    then Some(registry[k.source][k.faultId])
    else None
  }

  function ManagerDebounce(d: Option<FaultDescriptor>): Option<DebounceMode> {
    if d.None? then None else d.value.managerSideDebounce
  }

  function ResetPolicyOf(d: Option<FaultDescriptor>): Option<ResetPolicy> {
    if d.None? then None else d.value.managerSideReset
  }

  predicate IsWarningIndicatorRelevant(d: Option<FaultDescriptor>) {
    d.Some? && (SafetyCritical in d.value.compliance || EmissionRelevant in d.value.compliance)
  }

  function RecordStamp(stage: LifecycleStage, clock: Clock): Stamp {
    Stamp(stage, clock.reset, clock.event)
  }

  /** The flag updates of the lifecycle stage, before aging is evaluated. */
  function ApplyStage(stage: LifecycleStage, relevant: bool, latched: bool, wall: U64, st: SovdFaultState): SovdFaultState {
    match stage
    case Failed =>
      RecordOccurrence(
        st.(testFailed := true, confirmedDtc := true, pendingDtc := false,
            testFailedThisOperationCycle := true, testFailedSinceLastClear := true,
            warningIndicatorRequested := st.warningIndicatorRequested || relevant),
        wall)
    case Passed =>
      st.(testFailed := false, pendingDtc := false, confirmedDtc := st.confirmedDtc && latched)
    case PreFailed =>
      RecordOccurrence(
        st.(testFailed := true, pendingDtc := true,
            testFailedThisOperationCycle := true, testFailedSinceLastClear := true,
            warningIndicatorRequested := st.warningIndicatorRequested || relevant),
        wall)
    case PrePassed =>
      st.(testFailed := false, pendingDtc := false)
    case NotTested =>
      st.(testNotCompletedThisOperationCycle := true, testNotCompletedSinceLastClear := true)
  }

  /** Later pairs win, as when a map is collected from a list. */
  function CollectEnv(pairs: seq<(string, string)>): EnvData {
    if pairs == [] then map[]
    else CollectEnv(pairs[..|pairs| - 1])[pairs[|pairs| - 1].0 := pairs[|pairs| - 1].1]
  }

  /** The aging entry when the reset is evaluated: a failure has just restarted it. */
  function AgingBeforeCheck(aging: Option<AgingState>, stage: LifecycleStage, cycles: CycleCounts, clock: Clock): Option<AgingState> {
    if IsFailure(stage) then Some(MarkActive(aging.GetOr(NewAging(clock.active)), cycles, clock.active)) else aging
  }

  predicate AgingFires(policy: Option<ResetPolicy>, aging: Option<AgingState>, cycles: CycleCounts, clock: Clock) {
    policy.Some? && aging.Some? && ShouldReset(policy.value, aging.value, cycles, clock.check)
  }

  /** After the stage's updates: the aging reset, if it fires, and the environment of a failure. */
  function Finished(rec: FaultRecord, fires: bool, staged: SovdFaultState): SovdFaultState {
    var aged := if fires then ClearDtcFlags(staged) else staged;
    if IsFailure(rec.stage) then aged.(envData := CollectEnv(rec.envData)) else aged
  }

  /** The state a record writes, if it can be written. */
  function Written(d: Option<FaultDescriptor>, rec: FaultRecord, clock: Clock, fires: bool, st: SovdFaultState): SovdFaultState {
    Finished(rec, fires, ApplyStage(rec.stage, IsWarningIndicatorRelevant(d), ResetPolicyOf(d).Some?, clock.wall, st))
  }

  /** A record that passed the debouncer: the aging entry and the stored state afterwards. */
  function Accepted(d: Option<FaultDescriptor>, aging: Option<AgingState>, stored: Option<SovdFaultState>,
                    cycles: CycleCounts, rec: FaultRecord, clock: Clock): (Option<AgingState>, Option<SovdFaultState>) {
    var active := AgingBeforeCheck(aging, rec.stage, cycles, clock);
    var fires := AgingFires(ResetPolicyOf(d), active, cycles, clock);
    var written := Written(d, rec, clock, fires, stored.GetOr(DEFAULT_STATE));
    (if fires then Some(MarkHealed(active.value)) else active,
     if Serializable(written) then Some(written) else stored)
  }

  /** One record, from debounce to storage. */
  function ProcessKey(d: Option<FaultDescriptor>, ks: KeyState, cycles: CycleCounts, rec: FaultRecord, clock: Clock): KeyState {
    var (passes, p) := Process(ManagerSide, ManagerDebounce(d), Pipeline(ks.debouncer, ks.lastStage), RecordStamp(rec.stage, clock));
    if !passes then KeyState(p.debouncer, p.lastStage, ks.aging, ks.stored)
    else
      var (aging, stored) := Accepted(d, ks.aging, ks.stored, cycles, rec, clock);
      KeyState(p.debouncer, p.lastStage, aging, stored)
  }

  function ClearSinceLastClear(st: SovdFaultState): SovdFaultState {
    st.(testFailedSinceLastClear := false, testNotCompletedSinceLastClear := false)
  }

  function ClearThisCycle(st: SovdFaultState): SovdFaultState {
    st.(testFailedThisOperationCycle := false, testNotCompletedThisOperationCycle := false)
  }

  // ---------------------------------------------------------------- the whole manager

  /** `paths` are those the store has an entry for, be it an empty one. */
  datatype Dfm = Dfm(
    debouncers: map<FaultKey, Debouncer>,
    lastStages: map<FaultKey, LifecycleStage>,
    agingStates: map<FaultKey, AgingState>,
    stored: map<FaultKey, SovdFaultState>,
    cycles: CycleCounts,
    paths: set<string>)

  const INITIAL := Dfm(map[], map[], map[], map[], map[], {})

  datatype DfmEvent =
    | Record(path: string, rec: FaultRecord, clock: Clock)
    | Cycles(events: seq<CycleEvent>)
    | ClearDtc(path: string)
    | NewOperationCycle(path: string)
    | DeleteFault(path: string, id: FaultId)
    | DeleteAllFaults(path: string)
    | RestartManager

  function At<V>(m: map<FaultKey, V>, k: FaultKey): Option<V> {
    if k in m then Some(m[k]) else None
  }

  function With<V>(m: map<FaultKey, V>, k: FaultKey, v: Option<V>): map<FaultKey, V> {
    if v.Some? then m[k := v.value] else m - {k}
  }

  function KeyView(s: Dfm, k: FaultKey): KeyState {
    KeyState(At(s.debouncers, k), At(s.lastStages, k), At(s.agingStates, k), At(s.stored, k))
  }

  function MapPath(stored: map<FaultKey, SovdFaultState>, path: string, f: SovdFaultState -> SovdFaultState): map<FaultKey, SovdFaultState> {
    map k | k in stored :: if k.source == path then f(stored[k]) else stored[k]
  }

  function StepRecord(registry: CatalogRegistry, s: Dfm, path: string, rec: FaultRecord, clock: Clock): Dfm {
    var k := FaultKey(path, rec.id);
    var ks := ProcessKey(Lookup(registry, k), KeyView(s, k), s.cycles, rec, clock);
    Dfm(With(s.debouncers, k, ks.debouncer), With(s.lastStages, k, ks.lastStage),
        With(s.agingStates, k, ks.aging), With(s.stored, k, ks.stored), s.cycles,
        if ks.stored.Some? then s.paths + {path} else s.paths)
  }

  function Step(registry: CatalogRegistry, s: Dfm, e: DfmEvent): Dfm {
    match e
    case Record(path, rec, clock) => StepRecord(registry, s, path, rec, clock)
    case Cycles(events) => s.(cycles := ApplyBatch(s.cycles, events))
    case ClearDtc(path) => s.(stored := MapPath(s.stored, path, st => ClearSinceLastClear(st)))
    case NewOperationCycle(path) => s.(stored := MapPath(s.stored, path, st => ClearThisCycle(st)))
    case DeleteFault(path, id) => s.(stored := s.stored - {FaultKey(path, id)})
    case DeleteAllFaults(path) => s.(stored := WithoutPath(s.stored, path), paths := s.paths - {path})
    case RestartManager => INITIAL.(stored := s.stored, paths := s.paths)
  }

  function RunDfm(registry: CatalogRegistry, es: seq<DfmEvent>): Dfm {
    if es == [] then INITIAL else Step(registry, RunDfm(registry, es[..|es| - 1]), es[|es| - 1])
  }
}
