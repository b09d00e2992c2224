/** The stored counters of a fault against its history, saturation, restarts and deletions included. */
module FaultCounters {
  import opened Basics
  import opened Faults
  import opened DebouncePipeline
  import opened OperationCycles
  import opened Aging
  import opened Storage
  import opened FaultProcessing
  import opened FaultRuns
  import opened FaultHistory
  import opened FaultAging

  // ---------------------------------------------------------------- what is written

  lemma StageTimes(stage: LifecycleStage, relevant: bool, latched: bool, wall: U64, st: SovdFaultState)
    ensures var st' := ApplyStage(stage, relevant, latched, wall, st);
            if IsFailure(stage)
            then st'.lastOccurrenceSecs == wall
                 && st'.firstOccurrenceSecs == (if st.firstOccurrenceSecs == 0 then wall else st.firstOccurrenceSecs)
            else st'.lastOccurrenceSecs == st.lastOccurrenceSecs && st'.firstOccurrenceSecs == st.firstOccurrenceSecs
  {
    match stage
    case _ =>
  }

  lemma StageCounts(stage: LifecycleStage, relevant: bool, latched: bool, wall: U64, st: SovdFaultState)
    ensures var st' := ApplyStage(stage, relevant, latched, wall, st);
            && st'.occurrenceCounter == (if IsFailure(stage) then Bump32(st.occurrenceCounter) else st.occurrenceCounter)
            && st'.agingCounter == st.agingCounter && st'.healingCounter == st.healingCounter
  {
    match stage
    case _ =>
  }

  lemma WrittenTimes(d: Option<FaultDescriptor>, rec: FaultRecord, clock: Clock, fires: bool, st: SovdFaultState)
    requires Serializable(st)
    ensures Serializable(Written(d, rec, clock, fires, st)) <==> !IsFailure(rec.stage) || clock.wall <= I64_MAX
  {
    StageTimes(rec.stage, IsWarningIndicatorRelevant(d), ResetPolicyOf(d).Some?, clock.wall, st);
  }

  lemma WrittenCounts(d: Option<FaultDescriptor>, rec: FaultRecord, clock: Clock, fires: bool, st: SovdFaultState)
    ensures var st' := Written(d, rec, clock, fires, st);
            && st'.occurrenceCounter == (if IsFailure(rec.stage) then Bump32(st.occurrenceCounter) else st.occurrenceCounter)
            && st'.agingCounter == (if fires then Bump32(st.agingCounter) else st.agingCounter)
            && st'.healingCounter == (if fires then Bump32(st.healingCounter) else st.healingCounter)
  {
    StageCounts(rec.stage, IsWarningIndicatorRelevant(d), ResetPolicyOf(d).Some?, clock.wall, st);
  }

  /** One event rewrites the stored state only as its mark says. */
  lemma StoredAfter(d: Option<FaultDescriptor>, k: FaultKey, ks: KeyState, cycles: CycleCounts, e: DfmEvent)
    ensures var m := MarkOf(d, k, ks, cycles, e);
            var before, after := ks.stored.GetOr(DEFAULT_STATE), KeyStep(d, k, ks, cycles, e).stored.GetOr(DEFAULT_STATE);
            match m
            case Reported(stage, reset, kept) =>
              e.Record? && e.rec.stage == stage
              && kept == Serializable(Written(d, e.rec, e.clock, reset, before))
              && after == if kept then Written(d, e.rec, e.clock, reset, before) else before
            case Cleared => after == ClearSinceLastClear(before)
            case CycleStarted => after == ClearThisCycle(before)
            case Deleted => after == DEFAULT_STATE
            case _ => after == before
  {
  }

  lemma {:induction false} StoredStaysSerializable(d: Option<FaultDescriptor>, k: FaultKey, es: seq<DfmEvent>)
    ensures Serializable(KeyRun(d, k, es).0.stored.GetOr(DEFAULT_STATE))
  {
    if es != [] {
      StoredStaysSerializable(d, k, es[..|es| - 1]);
      var (ks, cycles) := KeyRun(d, k, es[..|es| - 1]);
      StoredAfter(d, k, ks, cycles, es[|es| - 1]);
    }
  }

  /** An accepted record is stored unless it is a failure at a wall time past the signed range. */
  lemma KeptExactly(d: Option<FaultDescriptor>, k: FaultKey, es: seq<DfmEvent>, e: DfmEvent)
    requires e.Record? && LastMark(d, k, es + [e]).Reported?
    ensures LastMark(d, k, es + [e]).kept <==> !IsFailure(e.rec.stage) || e.clock.wall <= I64_MAX
  {
    assert (es + [e])[..|es|] == es;
    StoredStaysSerializable(d, k, es);
    var st := KeyRun(d, k, es).0.stored.GetOr(DEFAULT_STATE);
    var fires := LastMark(d, k, es + [e]).reset;
    WrittenTimes(d, e.rec, e.clock, fires, st);
  }

  /**
   What a record does to its fault is settled by the events before it: it gets through when the
   specification debouncer accepts it, it resets when the aging policy is due, and it is stored
   unless its time cannot be written.
   */
  lemma RecordMarkIsHistory(d: Option<FaultDescriptor>, k: FaultKey, es: seq<DfmEvent>, e: DfmEvent)
    requires e.Record? && k == FaultKey(e.path, e.rec.id)
    requires ClockOrdered(Stamps(k, es) + [RecordStamp(e.rec.stage, e.clock)])
    ensures LastMark(d, k, es + [e]) ==
            if LetsThrough(ManagerSide, ManagerDebounce(d), None, Stamps(k, es), RecordStamp(e.rec.stage, e.clock))
            then Reported(e.rec.stage, AgingIsDue(d, k, es, e), !IsFailure(e.rec.stage) || e.clock.wall <= I64_MAX)
            else Nothing
  {
    assert (es + [e])[..|es|] == es;
    ManagerDebounceRefines(d, k, es, e);
    if Passes(d, k, es, e) {
      AgingResetExact(d, k, es, e);
      KeptExactly(d, k, es, e);
    }
  }

  // ---------------------------------------------------------------- counters are counts

  /** Failures written since the fault was last deleted. */
  function KeptFailures(marks: seq<Mark>): nat {
    if marks == [] || marks[|marks| - 1].Deleted? then 0
    else KeptFailures(marks[..|marks| - 1]) + if FailureKept(marks[|marks| - 1]) then 1 else 0
  }

  /** Resets written since the fault was last deleted. */
  function KeptResets(marks: seq<Mark>): nat {
    if marks == [] || marks[|marks| - 1].Deleted? then 0
    else KeptResets(marks[..|marks| - 1]) + if ResetKept(marks[|marks| - 1]) then 1 else 0
  }

  predicate CountsAre(st: SovdFaultState, failures: nat, resets: nat) {
    && st.occurrenceCounter == Saturated(failures, U32_MAX)
    && st.agingCounter == Saturated(resets, U32_MAX)
    && st.healingCounter == Saturated(resets, U32_MAX)
  }

  lemma CountStep(d: Option<FaultDescriptor>, k: FaultKey, ks: KeyState, cycles: CycleCounts, e: DfmEvent,
                  failures: nat, resets: nat)
    requires CountsAre(ks.stored.GetOr(DEFAULT_STATE), failures, resets)
    ensures var m := MarkOf(d, k, ks, cycles, e);
            CountsAre(KeyStep(d, k, ks, cycles, e).stored.GetOr(DEFAULT_STATE),
                      if m.Deleted? then 0 else failures + if FailureKept(m) then 1 else 0,
                      if m.Deleted? then 0 else resets + if ResetKept(m) then 1 else 0)
  {
    StoredAfter(d, k, ks, cycles, e);
    var m := MarkOf(d, k, ks, cycles, e);
    if m.Reported? {
      WrittenCounts(d, e.rec, e.clock, m.reset, ks.stored.GetOr(DEFAULT_STATE));
    }
  }

  /** Over every run the three counters are the saturated counts of the fault's history. */
  lemma {:induction false} CountersOverRun(d: Option<FaultDescriptor>, k: FaultKey, es: seq<DfmEvent>)
    ensures var marks := Marks(d, k, es);
            CountsAre(KeyRun(d, k, es).0.stored.GetOr(DEFAULT_STATE), KeptFailures(marks), KeptResets(marks))
  {
    if es != [] {
      var front := es[..|es| - 1];
      CountersOverRun(d, k, front);
      var marks := Marks(d, k, front);
      assert Marks(d, k, es)[..|front|] == marks;
      var (ks, cycles) := KeyRun(d, k, front);
      CountStep(d, k, ks, cycles, es[|es| - 1], KeptFailures(marks), KeptResets(marks));
    }
  }

  /** Resets since the manager started, whatever was deleted. */
  function ResetsSinceStart(marks: seq<Mark>): nat {
    if marks == [] || marks[|marks| - 1].Restarted? then 0
    else ResetsSinceStart(marks[..|marks| - 1]) + if marks[|marks| - 1].Reported? && marks[|marks| - 1].reset then 1 else 0
  }

  /** The counter in the aging entry is not stored: it counts the resets since the manager started. */
  lemma {:induction false} EntryCounterOverRun(d: Option<FaultDescriptor>, k: FaultKey, es: seq<DfmEvent>)
    ensures var aging := KeyRun(d, k, es).0.aging;
            var resets := ResetsSinceStart(Marks(d, k, es));
            if aging.None? then resets == 0 else aging.value.agingCounter == Saturated(resets, U32_MAX)
  {
    if es != [] {
      var front := es[..|es| - 1];
      EntryCounterOverRun(d, k, front);
      assert Marks(d, k, es)[..|front|] == Marks(d, k, front);
      var (ks, cycles) := KeyRun(d, k, front);
      AgingStep(d, k, ks, cycles, es[|es| - 1]);
    }
  }

  // ---------------------------------------------------------------- no reset without a failure

  function Unhealed(aging: Option<AgingState>): nat {
    if aging.Some? && !aging.value.isHealed then 1 else 0
  }

  /** Accepted failures since the last deletion, stored or not. */
  function Failures(marks: seq<Mark>): nat {
    if marks == [] || marks[|marks| - 1].Deleted? then 0
    else Failures(marks[..|marks| - 1]) + if IsAcceptedFailure(marks[|marks| - 1]) then 1 else 0
  }

  /** Resets since the last deletion, stored or not. */
  function Resets(marks: seq<Mark>): nat {
    if marks == [] || marks[|marks| - 1].Deleted? then 0
    else Resets(marks[..|marks| - 1]) + if marks[|marks| - 1].Reported? && marks[|marks| - 1].reset then 1 else 0
  }

  /** A deletion leaves the aging entry alone: a failure it had not healed is still owed a reset. */
  function Debt(d: Option<FaultDescriptor>, k: FaultKey, es: seq<DfmEvent>): nat {
    if es == [] then 0
    else if LastMark(d, k, es).Deleted? then Unhealed(KeyRun(d, k, es[..|es| - 1]).0.aging)
    else Debt(d, k, es[..|es| - 1])
  }

  /** Every reset uses up a failure, or the one a deletion left behind. */
  lemma {:induction false} ResetsAreOwed(d: Option<FaultDescriptor>, k: FaultKey, es: seq<DfmEvent>)
    ensures var marks := Marks(d, k, es);
            Resets(marks) + Unhealed(KeyRun(d, k, es).0.aging) <= Failures(marks) + Debt(d, k, es)
  {
    if es != [] {
      var front := es[..|es| - 1];
      ResetsAreOwed(d, k, front);
      assert Marks(d, k, es)[..|front|] == Marks(d, k, front);
      var (ks, cycles) := KeyRun(d, k, front);
      AgingStep(d, k, ks, cycles, es[|es| - 1]);
    }
  }

  /** Accepted failures since the last deletion that could not be stored. */
  function LostFailures(marks: seq<Mark>): nat {
    if marks == [] || marks[|marks| - 1].Deleted? then 0
    else
      var m := marks[|marks| - 1];
      LostFailures(marks[..|marks| - 1]) + if IsAcceptedFailure(m) && !m.kept then 1 else 0
  }

  lemma {:induction false} KeptOrLost(marks: seq<Mark>)
    ensures Failures(marks) == KeptFailures(marks) + LostFailures(marks)
    ensures KeptResets(marks) <= Resets(marks)
  {
    if marks != [] {
      KeptOrLost(marks[..|marks| - 1]);
    }
  }

  /**
   Over every run and restart, the aging and the healing counter agree, and exceed the occurrences
   at most by the failures that could not be stored and the one a deletion caught unhealed.
   */
  lemma CounterAccounting(d: Option<FaultDescriptor>, k: FaultKey, es: seq<DfmEvent>)
    ensures var st := KeyRun(d, k, es).0.stored.GetOr(DEFAULT_STATE);
            && st.agingCounter == st.healingCounter
            && st.healingCounter <= st.occurrenceCounter + LostFailures(Marks(d, k, es)) + Debt(d, k, es)
  {
    CountersOverRun(d, k, es);
    ResetsAreOwed(d, k, es);
    KeptOrLost(Marks(d, k, es));
  }

  /** Since event `n`, every record came at a time that can be written. */
  predicate WritableSince(es: seq<DfmEvent>, n: nat) {
    forall i :: n <= i < |es| && es[i].Record? ==> es[i].clock.wall <= I64_MAX
  }

  lemma {:induction false} NothingLost(d: Option<FaultDescriptor>, k: FaultKey, es: seq<DfmEvent>, n: nat)
    requires n <= |es| && (n > 0 ==> Marks(d, k, es)[n - 1].Deleted?) && WritableSince(es, n)
    ensures LostFailures(Marks(d, k, es)) == 0
  {
    if n < |es| {
      var front, e := es[..|es| - 1], es[|es| - 1];
      assert Marks(d, k, es)[..|front|] == Marks(d, k, front);
      NothingLost(d, k, front, n);
      assert es == front + [e];
      if LastMark(d, k, es).Reported? {
        KeptExactly(d, k, front, e);
      }
    }
  }

  lemma {:induction false} NoDeletionNoDebt(d: Option<FaultDescriptor>, k: FaultKey, es: seq<DfmEvent>)
    requires forall i :: 0 <= i < |es| ==> !es[i].DeleteFault? && !es[i].DeleteAllFaults?
    ensures Debt(d, k, es) == 0
  {
    if es != [] {
      NoDeletionNoDebt(d, k, es[..|es| - 1]);
    }
  }
}
