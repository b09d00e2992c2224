/**
 Does a failure that the debouncer suppresses keep a fault alive?

 The comment on the aging update wants any sign of fault activity to do so, and the policies speak
 of cycles without recurrence. The code restarts the wait only at failures that get through. This
 module gives the exact configurations for which that makes no difference.
 */
module FaultRecurrence {
  import opened Basics
  import opened Debounce
  import opened Faults
  import opened DebouncePipeline
  import opened OperationCycles
  import opened Aging
  import opened Storage
  import opened FaultProcessing
  import opened FaultRuns
  import opened FaultHistory
  import opened FaultAging
  import opened FaultDeletion

  // ---------------------------------------------------------------- reported failures

  predicate ReportsFailure(k: FaultKey, e: DfmEvent) {
    e.Record? && k == FaultKey(e.path, e.rec.id) && IsFailure(e.rec.stage)
  }

  /** The last failure reported since the manager started, suppressed or not. */
  function LastReport(k: FaultKey, es: seq<DfmEvent>): (r: Option<nat>)
    ensures r.Some? ==> r.value < |es| && ReportsFailure(k, es[r.value])
  {
    if es == [] || es[|es| - 1].RestartManager? then None
    else if ReportsFailure(k, es[|es| - 1]) then Some(|es| - 1)
    else LastReport(k, es[..|es| - 1])
  }

  function LastInstant(es: seq<DfmEvent>): Instant {
    if es == [] then 0
    else if es[|es| - 1].Record? then es[|es| - 1].clock.check
    else LastInstant(es[..|es| - 1])
  }

  predicate InOrder(from: Instant, clock: Clock) {
    from <= clock.reset <= clock.event <= clock.active <= clock.check
  }

  /** The manager's clock never runs backwards, within a record and from one to the next. */
  predicate Orderly(es: seq<DfmEvent>) {
    es == []
    || (Orderly(es[..|es| - 1])
        && (es[|es| - 1].Record? ==> InOrder(LastInstant(es[..|es| - 1]), es[|es| - 1].clock)))
  }

  /** The policy, counted from reported failure `a`: what "without recurrence" asks for. */
  predicate RecurrenceDue(policy: ResetPolicy, es: seq<DfmEvent>, a: nat, now: Instant)
    requires a < |es| && es[a].Record?
  {
    && (policy.minOperatingCycles.Some? ==> Advanced(es, a, POWER) >= policy.minOperatingCycles.value)
    && match policy.trigger
       case PowerCycles(minPower) => Advanced(es, a, POWER) >= minPower
       case OperationCycles(minCycles, cycleRef) => Advanced(es, a, cycleRef) >= minCycles
       case StableFor(duration) => SaturatingSub(now, es[a].clock.event) >= duration
       case ToolOnly => false
  }

  /** The record `e` resets the fault, although the policy is not due since its last reported failure. */
  predicate ClearsTooEarly(d: Option<FaultDescriptor>, k: FaultKey, es: seq<DfmEvent>, e: DfmEvent) {
    && e.Record? && Orderly(es + [e])
    && LastMark(d, k, es + [e]).Reported? && LastMark(d, k, es + [e]).reset
    && var a := LastReport(k, es + [e]);
       ResetPolicyOf(d).Some? ==> a.None? || !RecurrenceDue(ResetPolicyOf(d).value, es + [e], a.value, e.clock.check)
  }

  // ---------------------------------------------------------------- the configurations

  /** The manager's debouncer does not let every record through. */
  predicate CanSuppress(d: Option<FaultDescriptor>) {
    ManagerDebounce(d).Some? && !ReportsAtOnce(ManagerDebounce(d).value)
  }

  /** The shortest time from a suppressed failure to the next record that gets through. */
  function Gap(mode: DebounceMode): nat {
    match mode
    case WindowMode(_, _) => 0
    case HoldMode(duration) => if duration == 0 then 0 else 1
    case CooldownMode(_) => 1
  }

  /** The policy asks for something that a failure shortly before the reset would take away. */
  predicate AsksForMore(policy: ResetPolicy, gap: nat) {
    && !policy.trigger.ToolOnly?
    && ((policy.minOperatingCycles.Some? && policy.minOperatingCycles.value > 0)
        || match policy.trigger
           case PowerCycles(minPower) => minPower > 0
           case OperationCycles(minCycles, _) => minCycles > 0
           case StableFor(duration) => duration > gap
           case ToolOnly => false)
  }

  predicate IgnoresRecurrence(d: Option<FaultDescriptor>) {
    && CanSuppress(d) && ResetPolicyOf(d).Some?
    && AsksForMore(ResetPolicyOf(d).value, Gap(ManagerDebounce(d).value))
  }

  // ---------------------------------------------------------------- one record

  /** The debouncer a record is put to, after a restart if its stage calls for one. */
  function Asked(d: Option<FaultDescriptor>, ks: KeyState, stage: LifecycleStage, clock: Clock): Option<Debouncer> {
    if ks.lastStage.Some? && Restarts(ManagerSide, ks.lastStage.value, stage) && ks.debouncer.Some?
    then Some(ResetStep(ks.debouncer.value, clock.reset))
    else Ready(d, ks.debouncer)
  }

  predicate GetsThrough(d: Option<FaultDescriptor>, ks: KeyState, e: DfmEvent)
    requires e.Record?
  {
    var asked := Asked(d, ks, e.rec.stage, e.clock);
    asked.None? || EventStep(asked.value, e.clock.event).0
  }

  lemma RecordStep(d: Option<FaultDescriptor>, k: FaultKey, ks: KeyState, cycles: CycleCounts, e: DfmEvent)
    requires e.Record? && k == FaultKey(e.path, e.rec.id)
    ensures var ks', m := KeyStep(d, k, ks, cycles, e), MarkOf(d, k, ks, cycles, e);
            var asked := Asked(d, ks, e.rec.stage, e.clock);
            && ks'.lastStage == Some(e.rec.stage)
            && ks'.debouncer == (if asked.None? then None else Some(EventStep(asked.value, e.clock.event).1))
            && (if GetsThrough(d, ks, e)
                then m.Reported? && m.stage == e.rec.stage
                     && ks'.aging == Accepted(d, ks.aging, ks.stored, cycles, e.rec, e.clock).0
                else m == Nothing && ks'.aging == ks.aging)
  {
  }

  lemma {:induction false} DebouncerKeepsMode(d: Option<FaultDescriptor>, k: FaultKey, es: seq<DfmEvent>)
    ensures var ks := KeyRun(d, k, es).0; ks.debouncer.Some? ==> ManagerDebounce(d) == Some(ks.debouncer.value.mode)
  {
    if es != [] {
      var front, e := es[..|es| - 1], es[|es| - 1];
      DebouncerKeepsMode(d, k, front);
      var (ks, cycles) := KeyRun(d, k, front);
      if e.Record? && k == FaultKey(e.path, e.rec.id) {
        RecordStep(d, k, ks, cycles, e);
      }
    }
  }

  // ---------------------------------------------------------------- when every failure gets through

  lemma AlwaysThrough(d: Option<FaultDescriptor>, k: FaultKey, es: seq<DfmEvent>, e: DfmEvent)
    requires !CanSuppress(d) && e.Record? && k == FaultKey(e.path, e.rec.id)
    ensures GetsThrough(d, KeyRun(d, k, es).0, e)
  {
    DebouncerKeepsMode(d, k, es);
    var asked := Asked(d, KeyRun(d, k, es).0, e.rec.stage, e.clock);
    if asked.Some? && asked.value.mode.WindowMode? {
      var times := DropExpired(asked.value.occurrences, e.clock.event, asked.value.mode.window) + [e.clock.event];
      assert |times| >= 1;
    }
  }

  lemma {:induction false} ReportsAreFailures(d: Option<FaultDescriptor>, k: FaultKey, es: seq<DfmEvent>)
    requires !CanSuppress(d)
    ensures LastReport(k, es) == LastFailure(Marks(d, k, es))
  {
    if es != [] {
      var front, e := es[..|es| - 1], es[|es| - 1];
      ReportsAreFailures(d, k, front);
      assert Marks(d, k, es)[..|front|] == Marks(d, k, front);
      ReportIsAccepted(d, k, front, e);
    }
  }

  lemma ReportIsAccepted(d: Option<FaultDescriptor>, k: FaultKey, es: seq<DfmEvent>, e: DfmEvent)
    requires !CanSuppress(d)
    ensures var (ks, cycles) := KeyRun(d, k, es); var m := MarkOf(d, k, ks, cycles, e);
            (IsAcceptedFailure(m) <==> ReportsFailure(k, e)) && (m.Restarted? <==> e.RestartManager?)
  {
    var (ks, cycles) := KeyRun(d, k, es);
    if e.Record? && k == FaultKey(e.path, e.rec.id) {
      RecordStep(d, k, ks, cycles, e);
      AlwaysThrough(d, k, es, e);
    }
  }

  lemma {:induction false} OrderlyAt(es: seq<DfmEvent>, a: nat)
    requires Orderly(es) && a < |es| && es[a].Record?
    ensures es[a].clock.event <= es[a].clock.active
  {
    if a < |es| - 1 {
      OrderlyAt(es[..|es| - 1], a);
    }
  }

  /** With every failure let through, a reset is due counted from the last reported one: clock and cycles. */
  lemma ResetsCountReports(d: Option<FaultDescriptor>, k: FaultKey, es: seq<DfmEvent>, e: DfmEvent)
    requires !CanSuppress(d)
    ensures !ClearsTooEarly(d, k, es, e)
  {
    if ClearsTooEarly(d, k, es, e) {
      AgingResetExact(d, k, es, e);
      ReportsAreFailures(d, k, es + [e]);
      OrderlyAt(es + [e], LastReport(k, es + [e]).value);
      assert false;
    }
  }

  // ---------------------------------------------------------------- when nothing is asked for

  lemma {:induction false} FailuresAreReported(d: Option<FaultDescriptor>, k: FaultKey, es: seq<DfmEvent>)
    ensures LastFailure(Marks(d, k, es)).Some? ==> LastReport(k, es).Some?
  {
    if es != [] {
      var front, e := es[..|es| - 1], es[|es| - 1];
      FailuresAreReported(d, k, front);
      assert Marks(d, k, es)[..|front|] == Marks(d, k, front);
    }
  }

  /** Suppressed failures are at least an instant before anything that gets through. */
  predicate Blocks(debouncer: Option<Debouncer>, s: Instant) {
    debouncer.Some? && debouncer.value.mark.Some?
    && match debouncer.value.mode
       case HoldMode(duration) => SaturatingSub(s, debouncer.value.mark.value) < duration
       case CooldownMode(cooldown) => SaturatingSub(s, debouncer.value.mark.value) < cooldown
       case WindowMode(_, _) => false
  }

  lemma BlockedUntilLater(debouncer: Debouncer, s: Instant, t: Instant)
    requires Blocks(Some(debouncer), s)
    ensures EventStep(debouncer, t).0 ==> t > s
    ensures !EventStep(debouncer, t).0 ==> EventStep(debouncer, t).1 == debouncer
  {
  }

  lemma SuppressionBlocks(debouncer: Debouncer, s: Instant)
    requires Gap(debouncer.mode) == 1 && !EventStep(debouncer, s).0
    ensures Blocks(Some(EventStep(debouncer, s).1), s)
  {
  }

  /** The last reported failure was suppressed, and nothing has got through since, or time has passed. */
  predicate Waiting(d: Option<FaultDescriptor>, k: FaultKey, es: seq<DfmEvent>) {
    var a := LastReport(k, es);
    a.Some? && !IsAcceptedFailure(Marks(d, k, es)[a.value]) ==>
      LastInstant(es) > es[a.value].clock.event || Blocks(KeyRun(d, k, es).0.debouncer, es[a.value].clock.event)
  }

  lemma {:induction false} WaitingOverRun(d: Option<FaultDescriptor>, k: FaultKey, es: seq<DfmEvent>)
    requires CanSuppress(d) && Gap(ManagerDebounce(d).value) == 1 && Orderly(es)
    ensures Waiting(d, k, es)
  {
    if es != [] {
      var front, e := es[..|es| - 1], es[|es| - 1];
      WaitingOverRun(d, k, front);
      DebouncerKeepsMode(d, k, front);
      var (ks, cycles) := KeyRun(d, k, front);
      assert Marks(d, k, es) == Marks(d, k, front) + [MarkOf(d, k, ks, cycles, e)];
      if e.Record? && k == FaultKey(e.path, e.rec.id) {
        RecordStep(d, k, ks, cycles, e);
        var asked := Asked(d, ks, e.rec.stage, e.clock);
        if ReportsFailure(k, e) {
          if !GetsThrough(d, ks, e) {
            SuppressionBlocks(asked.value, e.clock.event);
          }
        } else if LastReport(k, front).Some? && Blocks(ks.debouncer, front[LastReport(k, front).value].clock.event) {
          BlockedUntilLater(ks.debouncer.value, front[LastReport(k, front).value].clock.event, e.clock.event);
        }
      }
    }
  }

  lemma {:induction false} NothingReportedAfter(k: FaultKey, es: seq<DfmEvent>, a: nat, j: nat)
    requires LastReport(k, es) == Some(a) && a < j < |es|
    ensures !ReportsFailure(k, es[j]) && !es[j].RestartManager?
  {
    if j < |es| - 1 {
      NothingReportedAfter(k, es[..|es| - 1], a, j);
    }
  }

  lemma {:induction false} MarkAt(d: Option<FaultDescriptor>, k: FaultKey, es: seq<DfmEvent>, j: nat)
    requires j < |es|
    ensures var m := Marks(d, k, es)[j];
            (IsAcceptedFailure(m) ==> ReportsFailure(k, es[j])) && (m.Restarted? ==> es[j].RestartManager?)
  {
    if j < |es| - 1 {
      MarkAt(d, k, es[..|es| - 1], j);
    }
  }

  /** If the last reported failure got through, aging counts from it. */
  lemma AcceptedReportIsFailure(d: Option<FaultDescriptor>, k: FaultKey, es: seq<DfmEvent>, a: nat)
    requires LastReport(k, es) == Some(a) && IsAcceptedFailure(Marks(d, k, es)[a])
    ensures LastFailure(Marks(d, k, es)) == Some(a)
  {
    var marks := Marks(d, k, es);
    forall j | a < j < |marks|
      ensures !IsAcceptedFailure(marks[j]) && !marks[j].Restarted?
    {
      NothingReportedAfter(k, es, a, j);
      MarkAt(d, k, es, j);
    }
    LastFailureIsLast(marks, a);
  }

  /** A stable time of one tick of the clock is respected where nothing gets through in between. */
  lemma OneTickIsStable(d: Option<FaultDescriptor>, k: FaultKey, es: seq<DfmEvent>, e: DfmEvent)
    requires CanSuppress(d) && Gap(ManagerDebounce(d).value) == 1
    requires e.Record? && Orderly(es + [e]) && LastMark(d, k, es + [e]).Reported? && LastMark(d, k, es + [e]).reset
    requires ResetPolicyOf(d).value.trigger.StableFor? && ResetPolicyOf(d).value.trigger.duration == 1
    requires LastReport(k, es + [e]).Some?
    ensures e.clock.check > (es + [e])[LastReport(k, es + [e]).value].clock.event
  {
    var all := es + [e];
    var a := LastReport(k, all).value;
    assert all[..|es|] == es;
    AgingResetExact(d, k, es, e);
    var (ks, cycles) := KeyRun(d, k, es);
    assert Marks(d, k, all) == Marks(d, k, es) + [MarkOf(d, k, ks, cycles, e)];
    if IsAcceptedFailure(Marks(d, k, all)[a]) {
      AcceptedReportIsFailure(d, k, all, a);
      OrderlyAt(all, a);
    } else {
      WaitingOverRun(d, k, es);
      RecordStep(d, k, ks, cycles, e);
      if Blocks(ks.debouncer, es[a].clock.event) {
        BlockedUntilLater(ks.debouncer.value, es[a].clock.event, e.clock.event);
      }
    }
  }

  lemma NothingAskedNothingMissed(d: Option<FaultDescriptor>, k: FaultKey, es: seq<DfmEvent>, e: DfmEvent)
    requires CanSuppress(d) && !IgnoresRecurrence(d)
    ensures !ClearsTooEarly(d, k, es, e)
  {
    if ClearsTooEarly(d, k, es, e) {
      AgingResetExact(d, k, es, e);
      FailuresAreReported(d, k, es + [e]);
      var policy := ResetPolicyOf(d).value;
      if policy.trigger.StableFor? && policy.trigger.duration == 1 {
        OneTickIsStable(d, k, es, e);
      }
      assert false;
    }
  }

  // ---------------------------------------------------------------- a run that clears too early

  function RecordAt(k: FaultKey, stage: LifecycleStage, at: Instant): DfmEvent {
    Record(k.source, FaultRecord(k.faultId, stage, []), Clock(at, at, at, at, 0))
  }

  lemma OrderlySnoc(es: seq<DfmEvent>, e: DfmEvent)
    ensures Orderly(es + [e]) <==> Orderly(es) && (e.Record? ==> InOrder(LastInstant(es), e.clock))
    ensures LastInstant(es + [e]) == if e.Record? then e.clock.check else LastInstant(es)
  {
    assert (es + [e])[..|es|] == es;
  }

  lemma LastReportSnoc(k: FaultKey, es: seq<DfmEvent>, e: DfmEvent)
    ensures LastReport(k, es + [e]) ==
            if e.RestartManager? then None else if ReportsFailure(k, e) then Some(|es|) else LastReport(k, es)
  {
    assert (es + [e])[..|es|] == es;
  }

  /** A failure that gets through does not reset at once under a policy that asks for more. */
  lemma FailureStartsWait(d: Option<FaultDescriptor>, aging: Option<AgingState>, stored: Option<SovdFaultState>,
                          cycles: CycleCounts, k: FaultKey, at: Instant, gap: nat)
    requires ResetPolicyOf(d).Some? && AsksForMore(ResetPolicyOf(d).value, gap)
    ensures var e := RecordAt(k, Failed, at);
            Accepted(d, aging, stored, cycles, e.rec, e.clock).0
            == Some(MarkActive(aging.GetOr(NewAging(at)), cycles, at))
  {
  }

  /** The fault has failed and waits for its reset, and nothing has counted since. */
  predicate JustFailed(d: Option<FaultDescriptor>, k: FaultKey, run: seq<DfmEvent>, t: Instant) {
    var (ks, cycles) := KeyRun(d, k, run);
    && Orderly(run) && LastInstant(run) == t && cycles == map[]
    && ks.debouncer.Some? && ks.lastStage == Some(Failed)
    && ks.aging.Some? && !ks.aging.value.isHealed && ks.aging.value.lastActiveTime == t
    && ks.aging.value.lastActiveCycle == map[]
  }

  /** Failures, sent until the debouncer lets one through. */
  lemma {:induction false} FailUntilAccepted(d: Option<FaultDescriptor>, k: FaultKey, run: seq<DfmEvent>, at: Instant)
    returns (out: seq<DfmEvent>, t: Instant)
    requires IgnoresRecurrence(d)
    requires Orderly(run) && LastInstant(run) <= at && KeyRun(d, k, run).1 == map[]
    requires var ks := KeyRun(d, k, run).0; ks.aging.None? && (ks.lastStage.None? || ks.lastStage == Some(Failed))
    ensures JustFailed(d, k, out, t)
    decreases Suppresses(Ready(d, KeyRun(d, k, run).0.debouncer), at)
  {
    var (ks, cycles) := KeyRun(d, k, run);
    var ready := Ready(d, ks.debouncer);
    t := SendAt(ready, at);
    var e := RecordAt(k, Failed, t);
    FaultDeletion.RunSnoc(d, k, run, e);
    OrderlySnoc(run, e);
    RecordStep(d, k, ks, cycles, e);
    assert Asked(d, ks, Failed, e.clock) == ready;
    if EventStep(ready.value, t).0 {
      FailureStartsWait(d, ks.aging, ks.stored, cycles, k, t, Gap(ManagerDebounce(d).value));
      out := run + [e];
    } else {
      ComesCloser(ready.value, at);
      out, t := FailUntilAccepted(d, k, run + [e], t);
    }
  }

  /** Passing at the same instant neither resets nor heals. */
  lemma PassingChangesNothing(d: Option<FaultDescriptor>, k: FaultKey, run: seq<DfmEvent>, t: Instant)
    requires IgnoresRecurrence(d) && JustFailed(d, k, run, t)
    ensures var e := RecordAt(k, Passed, t); var (ks, cycles) := KeyRun(d, k, run + [e]);
            && Orderly(run + [e]) && LastInstant(run + [e]) == t && cycles == map[]
            && ks.debouncer.Some? && ks.lastStage == Some(Passed) && ks.aging == KeyRun(d, k, run).0.aging
  {
    var (ks, cycles) := KeyRun(d, k, run);
    var e := RecordAt(k, Passed, t);
    FaultDeletion.RunSnoc(d, k, run, e);
    OrderlySnoc(run, e);
    RecordStep(d, k, ks, cycles, e);
  }

  /** Failed, accepted; Passed; the cycles; and the fault is due. */
  predicate DueAfterPassing(d: Option<FaultDescriptor>, k: FaultKey, run: seq<DfmEvent>, s: Instant) {
    var (ks, cycles) := KeyRun(d, k, run);
    && Orderly(run) && LastInstant(run) <= s
    && ks.debouncer.Some? && ks.lastStage == Some(Passed)
    && ks.aging.Some? && ResetPolicyOf(d).Some? && DueFrom(ResetPolicyOf(d).value, ks.aging.value, cycles, s)
  }

  lemma BecomesDueAfterPassing(d: Option<FaultDescriptor>, k: FaultKey) returns (run: seq<DfmEvent>, s: Instant)
    requires IgnoresRecurrence(d)
    ensures DueAfterPassing(d, k, run, s)
  {
    var policy := ResetPolicyOf(d).value;
    var failed, t := FailUntilAccepted(d, k, [], 0);
    PassingChangesNothing(d, k, failed, t);
    var passed := failed + [RecordAt(k, Passed, t)];
    var ticks := Cycles(NeededCycles(policy));
    s := if policy.trigger.StableFor? then t + policy.trigger.duration else t;
    run := passed + [ticks];
    FaultDeletion.RunSnoc(d, k, passed, ticks);
    OrderlySnoc(passed, ticks);
    BecomesDue(d, k, passed, s);
  }

  /** A failure right after Passed is suppressed, and leaves the debouncer anchored at that instant. */
  lemma FailureIsSuppressed(d: Option<FaultDescriptor>, k: FaultKey, run: seq<DfmEvent>, s: Instant)
    requires CanSuppress(d) && DueAfterPassing(d, k, run, s)
    ensures var e := RecordAt(k, Failed, s); var (before, after) := (KeyRun(d, k, run), KeyRun(d, k, run + [e]));
            && Orderly(run + [e]) && LastInstant(run + [e]) == s && LastReport(k, run + [e]) == Some(|run|)
            && after.1 == before.1 && after.0.aging == before.0.aging && after.0.lastStage == Some(Failed)
            && Anchored(d, after.0.debouncer, s)
  {
    var e := RecordAt(k, Failed, s);
    var (ks, cycles) := KeyRun(d, k, run);
    DebouncerKeepsMode(d, k, run);
    FaultDeletion.RunSnoc(d, k, run, e);
    OrderlySnoc(run, e);
    LastReportSnoc(k, run, e);
    RecordStep(d, k, ks, cycles, e);
    RestartedSuppresses(ks.debouncer.value, s);
  }

  predicate Anchored(d: Option<FaultDescriptor>, debouncer: Option<Debouncer>, s: Instant) {
    && debouncer.Some? && ManagerDebounce(d) == Some(debouncer.value.mode)
    && (debouncer.value.mode.WindowMode? || debouncer.value.mark == Some(s))
  }

  lemma RestartedSuppresses(debouncer: Debouncer, s: Instant)
    requires !ReportsAtOnce(debouncer.mode)
    ensures var (reports, after) := EventStep(ResetStep(debouncer, s), s);
            !reports && after.mode == debouncer.mode && (after.mode.WindowMode? || after.mark == Some(s))
  {
    var none: seq<Instant> := [];
    assert none + [s] == [s];
  }

  /** A suppressed failure is the last one reported, and a record will get through within the gap after it. */
  predicate AboutToReset(d: Option<FaultDescriptor>, k: FaultKey, run: seq<DfmEvent>, u: Instant, limit: Instant) {
    var (ks, cycles) := KeyRun(d, k, run);
    && Orderly(run) && LastInstant(run) <= u
    && LastReport(k, run).Some? && ks.lastStage.Some? && ks.debouncer.Some?
    && (if ks.debouncer.value.mode.WindowMode? then u <= limit
        else ks.debouncer.value.mark.Some? && SendAt(ks.debouncer, u) <= limit)
    && ks.aging.Some? && ResetPolicyOf(d).Some? && DueFrom(ResetPolicyOf(d).value, ks.aging.value, cycles, u)
  }

  /** The first instant at which an anchored debouncer reports again. */
  function Opens(mode: DebounceMode, s: Instant): Instant {
    match mode
    case HoldMode(duration) => s + duration
    case CooldownMode(cooldown) => s + cooldown
    case WindowMode(_, _) => s
  }

  lemma JustBeforeOpening(debouncer: Debouncer, s: Instant, u: Instant)
    requires debouncer.mark == Some(s) && s <= u && u + 1 == Opens(debouncer.mode, s)
    ensures EventStep(debouncer, u) == (false, debouncer)
    ensures SendAt(Some(debouncer), u) == u + 1
  {
  }

  /** A failure one tick before the time is up is suppressed too. */
  lemma FailsAgain(d: Option<FaultDescriptor>, k: FaultKey, run: seq<DfmEvent>, s: Instant, u: Instant)
    requires ManagerDebounce(d).Some? && s <= u && u + 1 == Opens(ManagerDebounce(d).value, s)
    requires Orderly(run) && LastInstant(run) <= u
    requires var (ks, cycles) := KeyRun(d, k, run);
             && ks.lastStage == Some(Failed) && Anchored(d, ks.debouncer, s)
             && ks.aging.Some? && ResetPolicyOf(d).Some? && DueFrom(ResetPolicyOf(d).value, ks.aging.value, cycles, u)
    ensures var e := RecordAt(k, Failed, u);
            LastReport(k, run + [e]) == Some(|run|) && AboutToReset(d, k, run + [e], u, u + 1)
  {
    var e := RecordAt(k, Failed, u);
    var (ks, cycles) := KeyRun(d, k, run);
    FaultDeletion.RunSnoc(d, k, run, e);
    OrderlySnoc(run, e);
    LastReportSnoc(k, run, e);
    JustBeforeOpening(ks.debouncer.value, s, u);
    RecordStep(d, k, ks, cycles, e);
    assert Asked(d, ks, Failed, e.clock) == ks.debouncer;
  }

  lemma LastSuppressed(d: Option<FaultDescriptor>, k: FaultKey, run: seq<DfmEvent>, s: Instant)
    returns (pre: seq<DfmEvent>, u: Instant)
    requires CanSuppress(d) && DueAfterPassing(d, k, run, s)
    ensures var e := RecordAt(k, Failed, u);
            LastReport(k, pre + [e]) == Some(|pre|)
            && AboutToReset(d, k, pre + [e], u, u + Gap(ManagerDebounce(d).value))
  {
    FailureIsSuppressed(d, k, run, s);
    var mode := ManagerDebounce(d).value;
    if Gap(mode) == 0 {
      pre, u := run, s;
    } else {
      pre := run + [RecordAt(k, Failed, s)];
      u := Opens(mode, s) - 1;
      FailsAgain(d, k, pre, s, u);
    }
  }

  /** What the passing records leave alone: the last report, and the cycles counted since. */
  predicate SameReport(k: FaultKey, run: seq<DfmEvent>, out: seq<DfmEvent>) {
    run <= out && LastReport(k, out) == LastReport(k, run) && OnlyRecordsSince(out, |run|)
  }

  predicate OnlyRecordsSince(es: seq<DfmEvent>, a: nat) {
    forall i :: a <= i < |es| ==> es[i].Record?
  }

  lemma {:induction false} RecordsDoNotTick(es: seq<DfmEvent>, a: nat, name: string)
    requires a <= |es| && OnlyRecordsSince(es, a)
    ensures RunTicks(es, name) == RunTicks(es[..a], name)
  {
    if a < |es| {
      RecordsDoNotTick(es[..|es| - 1], a, name);
      assert es[..|es| - 1][..a] == es[..a];
    } else {
      assert es[..a] == es;
    }
  }

  lemma DueRecordResets(d: Option<FaultDescriptor>, k: FaultKey, run: seq<DfmEvent>, stage: LifecycleStage, t: Instant, u: Instant)
    requires !IsFailure(stage)
    requires var (ks, cycles) := KeyRun(d, k, run);
             ks.aging.Some? && ResetPolicyOf(d).Some? && DueFrom(ResetPolicyOf(d).value, ks.aging.value, cycles, u)
    requires u <= t && GetsThrough(d, KeyRun(d, k, run).0, RecordAt(k, stage, t))
    ensures var m := LastMark(d, k, run + [RecordAt(k, stage, t)]); m.Reported? && m.reset
  {
    var e := RecordAt(k, stage, t);
    var (ks, cycles) := KeyRun(d, k, run);
    assert (run + [e])[..|run|] == run;
    RecordStep(d, k, ks, cycles, e);
    AgingStep(d, k, ks, cycles, e);
  }

  /** Passing records, sent until one gets through and resets. */
  lemma {:induction false} PassUntilReset(d: Option<FaultDescriptor>, k: FaultKey, run: seq<DfmEvent>, u: Instant, limit: Instant)
    returns (front: seq<DfmEvent>, t: Instant)
    requires AboutToReset(d, k, run, u, limit)
    ensures var e := RecordAt(k, Passed, t); var m := LastMark(d, k, front + [e]);
            && Orderly(front + [e]) && m.Reported? && m.reset && t <= limit
            && SameReport(k, run, front + [e])
    decreases Suppresses(KeyRun(d, k, run).0.debouncer, u)
  {
    var (ks, cycles) := KeyRun(d, k, run);
    t := SendAt(ks.debouncer, u);
    var e := RecordAt(k, Passed, t);
    FaultDeletion.RunSnoc(d, k, run, e);
    OrderlySnoc(run, e);
    LastReportSnoc(k, run, e);
    RecordStep(d, k, ks, cycles, e);
    ComesCloser(ks.debouncer.value, u);
    if EventStep(ks.debouncer.value, t).0 {
      DueRecordResets(d, k, run, Passed, t, u);
      front := run;
    } else {
      front, t := PassUntilReset(d, k, run + [e], t, limit);
    }
  }

  lemma RunThatClearsTooEarly(d: Option<FaultDescriptor>, k: FaultKey) returns (es: seq<DfmEvent>, e: DfmEvent)
    requires IgnoresRecurrence(d)
    ensures ClearsTooEarly(d, k, es, e)
  {
    var policy, gap := ResetPolicyOf(d).value, Gap(ManagerDebounce(d).value);
    var run, s := BecomesDueAfterPassing(d, k);
    var pre, u := LastSuppressed(d, k, run, s);
    var failed := pre + [RecordAt(k, Failed, u)];
    var front, t := PassUntilReset(d, k, failed, u, u + gap);
    es, e := front, RecordAt(k, Passed, t);
    var all, a := es + [e], |pre|;
    assert all[..a] == pre && all[a] == RecordAt(k, Failed, u);
    forall name
      ensures Advanced(all, a, name) == 0
    {
      RecordsDoNotTick(all, a, name);
    }
  }

  /**
   Some run of a fault resets it before its policy is due since the last reported failure exactly
   if its debouncer can suppress and its policy asks for a cycle, or for a stable time longer than
   the shortest gap between a suppressed failure and the next record that gets through.
   */
  lemma RecurrenceIsIgnored(d: Option<FaultDescriptor>, k: FaultKey)
    ensures (exists es, e :: ClearsTooEarly(d, k, es, e)) <==> IgnoresRecurrence(d)
  {
    if IgnoresRecurrence(d) {
      var es, e := RunThatClearsTooEarly(d, k);
    } else {
      forall es, e
        ensures !ClearsTooEarly(d, k, es, e)
      {
        if CanSuppress(d) {
          NothingAskedNothingMissed(d, k, es, e);
        } else {
          ResetsCountReports(d, k, es, e);
        }
      }
    }
  }

  predicate PowerCycleOnly(d: Option<FaultDescriptor>) {
    ManagerDebounce(d) == Some(CooldownMode(10)) && ResetPolicyOf(d) == Some(ResetPolicy(PowerCycles(1), None))
  }

  function PowerTick(): DfmEvent {
    Cycles([CycleEvent(POWER, Start)])
  }

  lemma FailedOnce(d: Option<FaultDescriptor>, k: FaultKey)
    requires PowerCycleOnly(d)
    ensures var (ks, cycles) := KeyRun(d, k, [RecordAt(k, Failed, 0)]);
            && ks.debouncer == Some(Debouncer(CooldownMode(10), [], Some(0))) && ks.lastStage == Some(Failed)
            && ks.aging.Some? && !ks.aging.value.isHealed && ks.aging.value.lastActiveCycle == map[] && cycles == map[]
  {
    var e := RecordAt(k, Failed, 0);
    assert [] + [e] == [e];
    FaultDeletion.RunSnoc(d, k, [], e);
    RecordStep(d, k, UNKNOWN, map[], e);
    FailureStartsWait(d, None, None, map[], k, 0, 0);
  }

  lemma FailedAgainWithinCooldown(d: Option<FaultDescriptor>, k: FaultKey)
    requires PowerCycleOnly(d)
    ensures var es := [RecordAt(k, Failed, 0), PowerTick(), RecordAt(k, PreFailed, 1)]; var (ks, cycles) := KeyRun(d, k, es);
            && LastMark(d, k, es) == Nothing
            && ks.debouncer == Some(Debouncer(CooldownMode(10), [], Some(0))) && ks.lastStage == Some(PreFailed)
            && ks.aging.Some? && DueFrom(ResetPolicyOf(d).value, ks.aging.value, cycles, 1)
  {
    FailedOnce(d, k);
    var s1, s2, e := [RecordAt(k, Failed, 0)], [RecordAt(k, Failed, 0), PowerTick()], RecordAt(k, PreFailed, 1);
    assert s1 + [PowerTick()] == s2 && s2 + [e] == [RecordAt(k, Failed, 0), PowerTick(), e];
    FaultDeletion.RunSnoc(d, k, s1, PowerTick());
    FaultDeletion.RunSnoc(d, k, s2, e);
    var (ks, cycles) := KeyRun(d, k, s2);
    RecordStep(d, k, ks, cycles, e);
    assert PowerTick().events[..0] == [];
    ApplyCounts(map[], PowerTick().events, POWER, 0);
  }

  /** The two records and the tick, in order, and what the passing time leaves of them. */
  lemma ExampleReports(k: FaultKey)
    ensures var all := [RecordAt(k, Failed, 0), PowerTick(), RecordAt(k, PreFailed, 1), RecordAt(k, NotTested, 10)];
            Orderly(all) && LastReport(k, all) == Some(2) && Advanced(all, 2, POWER) == 0
  {
    var e0, e1, e2, e3 := RecordAt(k, Failed, 0), PowerTick(), RecordAt(k, PreFailed, 1), RecordAt(k, NotTested, 10);
    var s1, s2, s3, s4 := [e0], [e0, e1], [e0, e1, e2], [e0, e1, e2, e3];
    assert [] + [e0] == s1 && s1 + [e1] == s2 && s2 + [e2] == s3 && s3 + [e3] == s4;
    OrderlySnoc([], e0);
    OrderlySnoc(s1, e1);
    OrderlySnoc(s2, e2);
    OrderlySnoc(s3, e3);
    LastReportSnoc(k, s2, e2);
    LastReportSnoc(k, s3, e3);
    RecordsDoNotTick(s4, 2, POWER);
  }

  /** Failed, one power cycle, failing again within the cooldown, and the next record still clears the fault. */
  lemma SuppressedFailureExample(d: Option<FaultDescriptor>, k: FaultKey)
    requires ManagerDebounce(d) == Some(CooldownMode(10)) && ResetPolicyOf(d) == Some(ResetPolicy(PowerCycles(1), None))
    ensures var es := [RecordAt(k, Failed, 0), Cycles([CycleEvent("power", Start)]), RecordAt(k, PreFailed, 1)];
            && LastMark(d, k, es) == Nothing
            && ClearsTooEarly(d, k, es, RecordAt(k, NotTested, 10))
  {
    var es, e := [RecordAt(k, Failed, 0), PowerTick(), RecordAt(k, PreFailed, 1)], RecordAt(k, NotTested, 10);
    FailedAgainWithinCooldown(d, k);
    ExampleReports(k);
    assert es + [e] == [RecordAt(k, Failed, 0), PowerTick(), RecordAt(k, PreFailed, 1), e];
    DueRecordResets(d, k, es, NotTested, 10, 1);
  }
}
