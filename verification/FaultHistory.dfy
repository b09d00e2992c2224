/**
 The DTC status byte as a function of history.

 A run leaves a mark per event on each fault. Every bit of the stored status is a statement
 about those marks: set at some point, and nothing since has cleared it.
 */
module FaultHistory {
  import opened Basics
  import opened Faults
  import opened DebouncePipeline
  import opened OperationCycles
  import opened Aging
  import opened Storage
  import opened FaultProcessing
  import opened FaultRuns

  /** `reset`: the aging policy fired in this step; `kept`: the new state could be written. */
  datatype Mark =
    | Reported(stage: LifecycleStage, reset: bool, kept: bool)
    | Cleared | CycleStarted | Deleted | Restarted | Nothing

  function MarkOf(d: Option<FaultDescriptor>, k: FaultKey, ks: KeyState, cycles: CycleCounts, e: DfmEvent): Mark {
    match e
    case Record(path, rec, clock) =>
      if k == FaultKey(path, rec.id)
         && Process(ManagerSide, ManagerDebounce(d), Pipeline(ks.debouncer, ks.lastStage), RecordStamp(rec.stage, clock)).0
      then
        var fires := AgingFires(ResetPolicyOf(d), AgingBeforeCheck(ks.aging, rec.stage, cycles, clock), cycles, clock);
        Reported(rec.stage, fires, Serializable(Written(d, rec, clock, fires, ks.stored.GetOr(DEFAULT_STATE))))
      else Nothing
    case Cycles(_) => Nothing
    case ClearDtc(path) => if k.source == path then Cleared else Nothing
    case NewOperationCycle(path) => if k.source == path then CycleStarted else Nothing
    case DeleteFault(path, id) => if k == FaultKey(path, id) then Deleted else Nothing
    case DeleteAllFaults(path) => if k.source == path then Deleted else Nothing
    case RestartManager => Restarted
  }

  /** The mark the last event of a run leaves. */
  function LastMark(d: Option<FaultDescriptor>, k: FaultKey, es: seq<DfmEvent>): Mark
    requires es != []
  {
    var (ks, cycles) := KeyRun(d, k, es[..|es| - 1]);
    MarkOf(d, k, ks, cycles, es[|es| - 1])
  }

  function Marks(d: Option<FaultDescriptor>, k: FaultKey, es: seq<DfmEvent>): (m: seq<Mark>)
    ensures |m| == |es|
  {
    if es == [] then [] else Marks(d, k, es[..|es| - 1]) + [LastMark(d, k, es)]
  }

  // ---------------------------------------------------------------- the status byte

  datatype StatusBit =
    | TestFailed | TestFailedThisOperationCycle | PendingDtc | ConfirmedDtc
    | TestNotCompletedSinceLastClear | TestFailedSinceLastClear | TestNotCompletedThisOperationCycle
    | WarningIndicatorRequested

  function BitOf(st: SovdFaultState, bit: StatusBit): bool {
    match bit
    case TestFailed => st.testFailed
    case TestFailedThisOperationCycle => st.testFailedThisOperationCycle
    case PendingDtc => st.pendingDtc
    case ConfirmedDtc => st.confirmedDtc
    case TestNotCompletedSinceLastClear => st.testNotCompletedSinceLastClear
    case TestFailedSinceLastClear => st.testFailedSinceLastClear
    case TestNotCompletedThisOperationCycle => st.testNotCompletedThisOperationCycle
    case WarningIndicatorRequested => st.warningIndicatorRequested
  }

  predicate FailureKept(m: Mark) {
    m.Reported? && m.kept && IsFailure(m.stage)
  }

  predicate ResetKept(m: Mark) {
    m.Reported? && m.kept && m.reset
  }

  /** The compliance tags that ask for the warning indicator; a fault without a descriptor carries none. */
  predicate CarriesWarningTag(d: Option<FaultDescriptor>) {
    d.Some? && exists i :: 0 <= i < |d.value.compliance|
                           && (d.value.compliance[i] == SafetyCritical || d.value.compliance[i] == EmissionRelevant)
  }

  /** What turns a bit on. */
  predicate Sets(d: Option<FaultDescriptor>, bit: StatusBit, m: Mark) {
    match bit
    case TestFailed => FailureKept(m) && !m.reset
    case TestFailedThisOperationCycle => FailureKept(m)
    case PendingDtc => FailureKept(m) && m.stage.PreFailed? && !m.reset
    case ConfirmedDtc => FailureKept(m) && m.stage.Failed? && !m.reset
    case TestNotCompletedSinceLastClear => m.Reported? && m.kept && m.stage.NotTested?
    case TestFailedSinceLastClear => FailureKept(m)
    case TestNotCompletedThisOperationCycle => m.Reported? && m.kept && m.stage.NotTested?
    case WarningIndicatorRequested => FailureKept(m) && !m.reset && CarriesWarningTag(d)
  }

  /** What turns a bit off. */
  predicate Unsets(d: Option<FaultDescriptor>, bit: StatusBit, m: Mark) {
    m.Deleted? ||
    match bit
    case TestFailed => ResetKept(m) || (m.Reported? && m.kept && (m.stage.Passed? || m.stage.PrePassed?))
    case TestFailedThisOperationCycle => m.CycleStarted?
    case PendingDtc =>
      ResetKept(m) || (m.Reported? && m.kept && (m.stage.Failed? || m.stage.Passed? || m.stage.PrePassed?))
    case ConfirmedDtc => ResetKept(m) || (m.Reported? && m.kept && m.stage.Passed? && !(d.Some? && d.value.managerSideReset.Some?))
    case TestNotCompletedSinceLastClear => m.Cleared?
    case TestFailedSinceLastClear => m.Cleared?
    case TestNotCompletedThisOperationCycle => m.CycleStarted?
    case WarningIndicatorRequested => ResetKept(m)
  }

  /** Set by some mark, and unset by none after it. */
  predicate Latched(d: Option<FaultDescriptor>, bit: StatusBit, marks: seq<Mark>) {
    exists i :: 0 <= i < |marks| && Sets(d, bit, marks[i]) && NotUnsetAfter(d, bit, marks, i)
  }

  predicate NotUnsetAfter(d: Option<FaultDescriptor>, bit: StatusBit, marks: seq<Mark>, i: int) {
    forall j :: i < j < |marks| && 0 <= j ==> !Unsets(d, bit, marks[j])
  }

  lemma LatchedSnoc(d: Option<FaultDescriptor>, bit: StatusBit, marks: seq<Mark>, m: Mark)
    ensures Latched(d, bit, marks + [m]) <==> Sets(d, bit, m) || (Latched(d, bit, marks) && !Unsets(d, bit, m))
  {
    var all := marks + [m];
    if Sets(d, bit, m) {
      assert Sets(d, bit, all[|marks|]) && NotUnsetAfter(d, bit, all, |marks|);
    }
    if Latched(d, bit, marks) && !Unsets(d, bit, m) {
      var i :| 0 <= i < |marks| && Sets(d, bit, marks[i]) && NotUnsetAfter(d, bit, marks, i);
      assert Sets(d, bit, all[i]) && NotUnsetAfter(d, bit, all, i);
    }
    if Latched(d, bit, all) && !Sets(d, bit, m) {
      var i :| 0 <= i < |all| && Sets(d, bit, all[i]) && NotUnsetAfter(d, bit, all, i);
      assert !Unsets(d, bit, all[|marks|]);
      assert forall j :: i < j < |marks| && 0 <= j ==> all[j] == marks[j];
      assert Sets(d, bit, marks[i]) && NotUnsetAfter(d, bit, marks, i);
    }
  }

  lemma BitAfterStage(stage: LifecycleStage, relevant: bool, latched: bool, wall: U64, st: SovdFaultState, bit: StatusBit)
    ensures BitOf(ApplyStage(stage, relevant, latched, wall, st), bit) ==
      match bit
      case TestFailed => IsFailure(stage) || (st.testFailed && !stage.Passed? && !stage.PrePassed?)
      case TestFailedThisOperationCycle => IsFailure(stage) || st.testFailedThisOperationCycle
      case PendingDtc => stage.PreFailed? || (st.pendingDtc && stage.NotTested?)
      case ConfirmedDtc => stage.Failed? || (st.confirmedDtc && (!stage.Passed? || latched))
      case TestNotCompletedSinceLastClear => stage.NotTested? || st.testNotCompletedSinceLastClear
      case TestFailedSinceLastClear => IsFailure(stage) || st.testFailedSinceLastClear
      case TestNotCompletedThisOperationCycle => stage.NotTested? || st.testNotCompletedThisOperationCycle
      case WarningIndicatorRequested => (IsFailure(stage) && relevant) || st.warningIndicatorRequested
  {
    match stage
    case Failed =>
    case Passed =>
    case PreFailed =>
    case PrePassed =>
    case NotTested =>
  }

  lemma BitAfterWritten(d: Option<FaultDescriptor>, rec: FaultRecord, clock: Clock, fires: bool, st: SovdFaultState, bit: StatusBit)
    ensures var m := Reported(rec.stage, fires, true);
            BitOf(Written(d, rec, clock, fires, st), bit) <==>
            Sets(d, bit, m) || (BitOf(st, bit) && !Unsets(d, bit, m))
  {
    BitAfterStage(rec.stage, IsWarningIndicatorRelevant(d), ResetPolicyOf(d).Some?, clock.wall, st, bit);
  }

  /** One event changes each bit exactly as its mark says. */
  lemma BitStep(d: Option<FaultDescriptor>, k: FaultKey, ks: KeyState, cycles: CycleCounts, e: DfmEvent, bit: StatusBit)
    ensures var m := MarkOf(d, k, ks, cycles, e);
            BitOf(KeyStep(d, k, ks, cycles, e).stored.GetOr(DEFAULT_STATE), bit) <==>
            Sets(d, bit, m) || (BitOf(ks.stored.GetOr(DEFAULT_STATE), bit) && !Unsets(d, bit, m))
  {
    if e.Record? && k == FaultKey(e.path, e.rec.id) {
      var fires := AgingFires(ResetPolicyOf(d), AgingBeforeCheck(ks.aging, e.rec.stage, cycles, e.clock), cycles, e.clock);
      BitAfterWritten(d, e.rec, e.clock, fires, ks.stored.GetOr(DEFAULT_STATE), bit);
    }
  }

  /** In every reachable state, every bit of the stored status byte is what the history says. */
  lemma {:induction false} StatusByteIsHistory(d: Option<FaultDescriptor>, k: FaultKey, es: seq<DfmEvent>, bit: StatusBit)
    ensures BitOf(KeyRun(d, k, es).0.stored.GetOr(DEFAULT_STATE), bit) <==> Latched(d, bit, Marks(d, k, es))
  {
    if es != [] {
      var front := es[..|es| - 1];
      StatusByteIsHistory(d, k, front, bit);
      var (ks, cycles) := KeyRun(d, k, front);
      BitStep(d, k, ks, cycles, es[|es| - 1], bit);
      LatchedSnoc(d, bit, Marks(d, k, front), LastMark(d, k, es));
    }
  }

  /** The same of the whole manager, whatever other faults and sources its run is about. */
  lemma ManagerStatusIsHistory(registry: CatalogRegistry, es: seq<DfmEvent>, k: FaultKey, bit: StatusBit)
    ensures BitOf(At(RunDfm(registry, es).stored, k).GetOr(DEFAULT_STATE), bit)
            <==> Latched(Lookup(registry, k), bit, Marks(Lookup(registry, k), k, es))
  {
    RunProjects(registry, es, k);
    StatusByteIsHistory(Lookup(registry, k), k, es, bit);
  }

  lemma WarningIsLatched(d: Option<FaultDescriptor>, marks: seq<Mark>)
    ensures Latched(d, WarningIndicatorRequested, marks) <==>
            (&& d.Some? && (SafetyCritical in d.value.compliance || EmissionRelevant in d.value.compliance)
             && exists i :: 0 <= i < |marks|
                  && marks[i].Reported? && (marks[i].stage == Failed || marks[i].stage == PreFailed)
                  && marks[i].kept && !marks[i].reset
                  && forall j :: i < j < |marks| ==> !marks[j].Deleted? && !(marks[j].Reported? && marks[j].kept && marks[j].reset))
  {
    if Latched(d, WarningIndicatorRequested, marks) {
      var i :| 0 <= i < |marks| && Sets(d, WarningIndicatorRequested, marks[i])
               && NotUnsetAfter(d, WarningIndicatorRequested, marks, i);
      forall j | i < j < |marks|
        ensures !marks[j].Deleted? && !(marks[j].Reported? && marks[j].kept && marks[j].reset)
      {
        assert !Unsets(d, WarningIndicatorRequested, marks[j]);
      }
    }
    forall i | 0 <= i < |marks| && Sets(d, WarningIndicatorRequested, marks[i])
               && forall j :: i < j < |marks| ==> !marks[j].Deleted? && !(marks[j].Reported? && marks[j].kept && marks[j].reset)
      ensures Latched(d, WarningIndicatorRequested, marks)
    {
      assert NotUnsetAfter(d, WarningIndicatorRequested, marks, i);
    }
  }

  /**
   The warning bit of a fault of the catalog is set exactly if the fault is tagged safety-critical or
   relevant for emissions and some stored failure that did not reset it has been followed by no
   reset and no deletion; that of an unregistered fault never is.
   */
  lemma WarningBitIsHistory(registry: CatalogRegistry, es: seq<DfmEvent>, k: FaultKey)
    ensures var known := k.source in registry && k.faultId in registry[k.source];
            var marks := Marks(Lookup(registry, k), k, es);
            At(RunDfm(registry, es).stored, k).GetOr(DEFAULT_STATE).warningIndicatorRequested <==>
            (&& known
             && (SafetyCritical in registry[k.source][k.faultId].compliance
                 || EmissionRelevant in registry[k.source][k.faultId].compliance)
             && exists i :: 0 <= i < |marks|
                  && marks[i].Reported? && (marks[i].stage == Failed || marks[i].stage == PreFailed)
                  && marks[i].kept && !marks[i].reset
                  && forall j :: i < j < |marks| ==> !marks[j].Deleted? && !(marks[j].Reported? && marks[j].kept && marks[j].reset))
  {
    ManagerStatusIsHistory(registry, es, k, WarningIndicatorRequested);
    WarningIsLatched(Lookup(registry, k), Marks(Lookup(registry, k), k, es));
  }

  /** A pending fault is failing its test. */
  lemma PendingImpliesTestFailed(d: Option<FaultDescriptor>, k: FaultKey, es: seq<DfmEvent>)
    ensures var st := KeyRun(d, k, es).0.stored.GetOr(DEFAULT_STATE); st.pendingDtc ==> st.testFailed
  {
    StatusByteIsHistory(d, k, es, PendingDtc);
    StatusByteIsHistory(d, k, es, TestFailed);
    var marks := Marks(d, k, es);
    if Latched(d, PendingDtc, marks) {
      var i :| 0 <= i < |marks| && Sets(d, PendingDtc, marks[i]) && NotUnsetAfter(d, PendingDtc, marks, i);
      assert NotUnsetAfter(d, TestFailed, marks, i) by {
        forall j | i < j < |marks| && 0 <= j
          ensures !Unsets(d, TestFailed, marks[j])
        {
          assert !Unsets(d, PendingDtc, marks[j]);
        }
      }
      assert Sets(d, TestFailed, marks[i]);
    }
  }

  /** With an aging policy, a confirmed fault is unconfirmed only by an aging reset or a deletion. */
  lemma ConfirmedStaysLatched(d: Option<FaultDescriptor>, k: FaultKey, es: seq<DfmEvent>, e: DfmEvent)
    requires ResetPolicyOf(d).Some?
    requires KeyRun(d, k, es).0.stored.GetOr(DEFAULT_STATE).confirmedDtc
    requires !KeyRun(d, k, es + [e]).0.stored.GetOr(DEFAULT_STATE).confirmedDtc
    ensures var m := LastMark(d, k, es + [e]); m.Deleted? || (m.Reported? && m.reset)
  {
    assert (es + [e])[..|es|] == es;
    var (ks, cycles) := KeyRun(d, k, es);
    BitStep(d, k, ks, cycles, e, ConfirmedDtc);
  }
}
