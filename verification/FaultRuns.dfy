/**
 Whole runs of the manager: each fault evolves on its own, and what it remembers is a function
 of its own records.
 */
module FaultRuns {
  import opened Basics
  import opened Faults
  import opened DebouncePipeline
  import opened OperationCycles
  import opened Aging
  import opened Storage
  import opened FaultProcessing

  // ---------------------------------------------------------------- one fault alone

  /** One event, as one fault sees it. */
  function KeyStep(d: Option<FaultDescriptor>, k: FaultKey, ks: KeyState, cycles: CycleCounts, e: DfmEvent): KeyState {
    match e
    case Record(path, rec, clock) =>
      if k == FaultKey(path, rec.id) then ProcessKey(d, ks, cycles, rec, clock) else ks
    case Cycles(_) => ks
    case ClearDtc(path) =>
      if k.source == path && ks.stored.Some? then ks.(stored := Some(ClearSinceLastClear(ks.stored.value))) else ks
    case NewOperationCycle(path) =>
      if k.source == path && ks.stored.Some? then ks.(stored := Some(ClearThisCycle(ks.stored.value))) else ks
    case DeleteFault(path, id) => if k == FaultKey(path, id) then ks.(stored := None) else ks
    case DeleteAllFaults(path) => if k.source == path then ks.(stored := None) else ks
    case RestartManager => KeyState(None, None, None, ks.stored)
  }

  function CycleStep(cycles: CycleCounts, e: DfmEvent): CycleCounts {
    match e
    case Cycles(events) => ApplyBatch(cycles, events)
    case RestartManager => map[]
    case _ => cycles
  }

  /** The counters and one fault's state after a run. */
  function KeyRun(d: Option<FaultDescriptor>, k: FaultKey, es: seq<DfmEvent>): (KeyState, CycleCounts) {
    if es == [] then (UNKNOWN, map[])
    else
      var (ks, cycles) := KeyRun(d, k, es[..|es| - 1]);
      (KeyStep(d, k, ks, cycles, es[|es| - 1]), CycleStep(cycles, es[|es| - 1]))
  }

  lemma ViewOfWith(k: FaultKey, k': FaultKey, s: Dfm, ks: KeyState, paths: set<string>)
    ensures var s' := Dfm(With(s.debouncers, k', ks.debouncer), With(s.lastStages, k', ks.lastStage),
                          With(s.agingStates, k', ks.aging), With(s.stored, k', ks.stored), s.cycles, paths);
            KeyView(s', k) == if k == k' then ks else KeyView(s, k)
  {
  }

  lemma ViewOfMapPath(k: FaultKey, stored: map<FaultKey, SovdFaultState>, path: string, f: SovdFaultState -> SovdFaultState)
    ensures At(MapPath(stored, path, f), k) ==
            if k in stored then Some(if k.source == path then f(stored[k]) else stored[k]) else None
  {
  }

  /** A step of the whole manager is, seen from one fault, a step of that fault alone. */
  lemma StepProjects(registry: CatalogRegistry, s: Dfm, e: DfmEvent, k: FaultKey)
    ensures KeyView(Step(registry, s, e), k) == KeyStep(Lookup(registry, k), k, KeyView(s, k), s.cycles, e)
    ensures Step(registry, s, e).cycles == CycleStep(s.cycles, e)
  {
    match e
    case Record(path, rec, clock) =>
      var k' := FaultKey(path, rec.id);
      ViewOfWith(k, k', s, ProcessKey(Lookup(registry, k'), KeyView(s, k'), s.cycles, rec, clock),
                 Step(registry, s, e).paths);
    case Cycles(_) =>
    case ClearDtc(path) =>
      ViewOfMapPath(k, s.stored, path, st => ClearSinceLastClear(st));
    case NewOperationCycle(path) =>
      ViewOfMapPath(k, s.stored, path, st => ClearThisCycle(st));
    case DeleteFault(_, _) =>
    case DeleteAllFaults(_) =>
    case RestartManager =>
  }

  lemma {:induction false} RunProjects(registry: CatalogRegistry, es: seq<DfmEvent>, k: FaultKey)
    ensures (KeyView(RunDfm(registry, es), k), RunDfm(registry, es).cycles) == KeyRun(Lookup(registry, k), k, es)
  {
    if es != [] {
      RunProjects(registry, es[..|es| - 1], k);
      StepProjects(registry, RunDfm(registry, es[..|es| - 1]), es[|es| - 1], k);
    }
  }

  // ---------------------------------------------------------------- key projection

  /** The events a fault can notice: its records, the cycle ticks, and what is done to its path. */
  predicate Concerns(e: DfmEvent, k: FaultKey) {
    match e
    case Record(path, rec, _) => k == FaultKey(path, rec.id)
    case Cycles(_) => true
    case ClearDtc(path) => k.source == path
    case NewOperationCycle(path) => k.source == path
    case DeleteFault(path, id) => k == FaultKey(path, id)
    case DeleteAllFaults(path) => k.source == path
    case RestartManager => true
  }

  function Project(es: seq<DfmEvent>, k: FaultKey): seq<DfmEvent> {
    if es == [] then []
    else Project(es[..|es| - 1], k) + if Concerns(es[|es| - 1], k) then [es[|es| - 1]] else []
  }

  lemma {:induction false} KeyRunOfProjection(d: Option<FaultDescriptor>, k: FaultKey, es: seq<DfmEvent>)
    ensures KeyRun(d, k, Project(es, k)) == KeyRun(d, k, es)
  {
    if es != [] {
      var front, e := es[..|es| - 1], es[|es| - 1];
      KeyRunOfProjection(d, k, front);
      if Concerns(e, k) {
        assert Project(es, k)[..|Project(es, k)| - 1] == Project(front, k);
      } else {
        assert Project(es, k) == Project(front, k);
      }
    }
  }

  /** Everything kept about a fault is what a run of its own events alone would leave. */
  lemma KeyProjection(registry: CatalogRegistry, es: seq<DfmEvent>, k: FaultKey)
    ensures KeyView(RunDfm(registry, es), k) == KeyView(RunDfm(registry, Project(es, k)), k)
    ensures RunDfm(registry, es).cycles == RunDfm(registry, Project(es, k)).cycles
  {
    RunProjects(registry, es, k);
    RunProjects(registry, Project(es, k), k);
    KeyRunOfProjection(Lookup(registry, k), k, es);
  }

  // ---------------------------------------------------------------- debounce over runs

  /** The fault's records since the manager last started, as its debouncer sees them. */
  function Stamps(k: FaultKey, es: seq<DfmEvent>): seq<Stamp> {
    if es == [] then []
    else
      match es[|es| - 1]
      case Record(path, rec, clock) =>
        Stamps(k, es[..|es| - 1])
        + if k == FaultKey(path, rec.id) then [RecordStamp(rec.stage, clock)] else []
      case RestartManager => []
      case _ => Stamps(k, es[..|es| - 1])
  }

  lemma PipelineOfProcessKey(d: Option<FaultDescriptor>, ks: KeyState, cycles: CycleCounts, rec: FaultRecord, clock: Clock)
    ensures var ks' := ProcessKey(d, ks, cycles, rec, clock);
            Pipeline(ks'.debouncer, ks'.lastStage)
            == Process(ManagerSide, ManagerDebounce(d), Pipeline(ks.debouncer, ks.lastStage), RecordStamp(rec.stage, clock)).1
  {
  }

  lemma {:induction false} DebouncerOverRun(d: Option<FaultDescriptor>, k: FaultKey, es: seq<DfmEvent>)
    ensures var ks := KeyRun(d, k, es).0;
            Reached(ManagerSide, ManagerDebounce(d), None, Stamps(k, es), Pipeline(ks.debouncer, ks.lastStage))
  {
    if es != [] {
      var front, e := es[..|es| - 1], es[|es| - 1];
      DebouncerOverRun(d, k, front);
      var (ks, cycles) := KeyRun(d, k, front);
      if e.Record? && k == FaultKey(e.path, e.rec.id) {
        var s := RecordStamp(e.rec.stage, e.clock);
        ProcessReaches(ManagerSide, ManagerDebounce(d), None, Stamps(k, front), s, Pipeline(ks.debouncer, ks.lastStage));
        PipelineOfProcessKey(d, ks, cycles, e.rec, e.clock);
        assert Stamps(k, es) == Stamps(k, front) + [s];
      } else if !e.RestartManager? {
        assert Stamps(k, es) == Stamps(k, front);
      }
    }
  }

  /** Whether the manager lets record `e` through its debouncer after the run `es`. */
  predicate Passes(d: Option<FaultDescriptor>, k: FaultKey, es: seq<DfmEvent>, e: DfmEvent)
    requires e.Record?
  {
    var ks := KeyRun(d, k, es).0;
    Process(ManagerSide, ManagerDebounce(d), Pipeline(ks.debouncer, ks.lastStage),
            RecordStamp(e.rec.stage, e.clock)).0
  }

  /** The manager lets through exactly the records the specification debouncer accepts. */
  lemma ManagerDebounceRefines(d: Option<FaultDescriptor>, k: FaultKey, es: seq<DfmEvent>, e: DfmEvent)
    requires e.Record?
    requires ClockOrdered(Stamps(k, es) + [RecordStamp(e.rec.stage, e.clock)])
    ensures Passes(d, k, es, e) <==>
            LetsThrough(ManagerSide, if d.Some? then d.value.managerSideDebounce else None, None, Stamps(k, es),
                        Stamp(e.rec.stage, e.clock.reset, e.clock.event))
  {
    var ks := KeyRun(d, k, es).0;
    DebouncerOverRun(d, k, es);
    ProcessRefines(ManagerSide, ManagerDebounce(d), None, Stamps(k, es),
                   RecordStamp(e.rec.stage, e.clock), Pipeline(ks.debouncer, ks.lastStage));
  }
}
