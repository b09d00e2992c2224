/**
 When a latched fault is cleared, exactly.

 The aging entry the manager keeps for a fault stands for one moment of its history: the last
 failure that got through the debouncer since the manager started.
 */
module FaultAging {
  import opened Basics
  import opened Debounce
  import opened Faults
  import opened OperationCycles
  import opened Aging
  import opened Storage
  import opened FaultProcessing
  import opened FaultRuns
  import opened FaultHistory

  // ---------------------------------------------------------------- counters over a run

  /** How often a counter has been advanced since the manager last started, without a bound. */
  function RunTicks(es: seq<DfmEvent>, name: string): nat {
    if es == [] then 0
    else
      match es[|es| - 1]
      case Cycles(events) => RunTicks(es[..|es| - 1], name) + Ticks(events, name)
      case RestartManager => 0
      case _ => RunTicks(es[..|es| - 1], name)
  }

  /** Every counter shows its ticks, saturating at the top of the 64-bit range. */
  lemma {:induction false} CyclesOverRun(d: Option<FaultDescriptor>, k: FaultKey, es: seq<DfmEvent>, name: string)
    ensures Count(KeyRun(d, k, es).1, name) == Saturated(RunTicks(es, name), U64_MAX)
  {
    if es != [] {
      var front, e := es[..|es| - 1], es[|es| - 1];
      CyclesOverRun(d, k, front, name);
      if e.Cycles? {
        ApplyCounts(KeyRun(d, k, front).1, e.events, name, RunTicks(front, name));
      }
    }
  }

  // ---------------------------------------------------------------- what the aging entry stands for

  predicate IsAcceptedFailure(m: Mark) {
    m.Reported? && IsFailure(m.stage)
  }

  /** The last accepted failure since the manager started. */
  function LastFailure(marks: seq<Mark>): (r: Option<nat>)
    ensures r.Some? ==> r.value < |marks|
  {
    if marks == [] then None
    else if marks[|marks| - 1].Restarted? then None
    else if IsAcceptedFailure(marks[|marks| - 1]) then Some(|marks| - 1)
    else LastFailure(marks[..|marks| - 1])
  }

  predicate FailsAndNothingLater(marks: seq<Mark>, a: nat) {
    && a < |marks| && IsAcceptedFailure(marks[a])
    && forall j :: a < j < |marks| ==> !IsAcceptedFailure(marks[j]) && !marks[j].Restarted?
  }

  lemma {:induction false} LastFailureIsLast(marks: seq<Mark>, a: nat)
    ensures LastFailure(marks) == Some(a) <==> FailsAndNothingLater(marks, a)
  {
    if marks != [] {
      var front, m := marks[..|marks| - 1], marks[|marks| - 1];
      LastFailureIsLast(front, a);
      if FailsAndNothingLater(marks, a) && a < |front| {
        assert !IsAcceptedFailure(m) && !m.Restarted?;
        assert front[a] == marks[a];
        assert FailsAndNothingLater(front, a) by {
          forall j | a < j < |front|
            ensures !IsAcceptedFailure(front[j]) && !front[j].Restarted?
          {
            assert front[j] == marks[j];
          }
        }
      }
      if LastFailure(front) == Some(a) && !IsAcceptedFailure(m) && !m.Restarted? {
        assert FailsAndNothingLater(front, a);
        forall j | a < j < |marks|
          ensures !IsAcceptedFailure(marks[j]) && !marks[j].Restarted?
        {
          assert j < |front| ==> front[j] == marks[j];
        }
      }
    }
  }

  /** A reset at or after position `a`. */
  predicate ResetSince(marks: seq<Mark>, a: nat) {
    exists j :: a <= j < |marks| && marks[j].Reported? && marks[j].reset
  }

  lemma ResetSinceSnoc(marks: seq<Mark>, m: Mark, a: nat)
    requires a <= |marks|
    ensures ResetSince(marks + [m], a) <==> ResetSince(marks, a) || (m.Reported? && m.reset)
  {
    var all := marks + [m];
    if ResetSince(marks, a) {
      var j :| a <= j < |marks| && marks[j].Reported? && marks[j].reset;
      assert all[j] == marks[j];
    }
    if m.Reported? && m.reset {
      assert all[|marks|] == m;
    }
  }

  /** The entry records the clock and the counters of the failure at `a`, and any reset since. */
  predicate StandsForFailure(d: Option<FaultDescriptor>, k: FaultKey, es: seq<DfmEvent>, a: nat, aging: AgingState)
    requires a < |es|
  {
    && es[a].Record?
    && aging.lastActiveTime == es[a].clock.active
    && aging.lastActiveCycle == KeyRun(d, k, es[..a]).1
    && (aging.isHealed <==> ResetSince(Marks(d, k, es), a))
  }

  ghost predicate AgingStandsForHistory(d: Option<FaultDescriptor>, k: FaultKey, es: seq<DfmEvent>) {
    var aging := KeyRun(d, k, es).0.aging;
    match LastFailure(Marks(d, k, es))
    case None => aging.None?
    case Some(a) => aging.Some? && StandsForFailure(d, k, es, a, aging.value)
  }

  /** The aging entry after one event, from its mark. */
  lemma AgingStep(d: Option<FaultDescriptor>, k: FaultKey, ks: KeyState, cycles: CycleCounts, e: DfmEvent)
    ensures var m := MarkOf(d, k, ks, cycles, e);
            var aging := KeyStep(d, k, ks, cycles, e).aging;
            match m
            case Restarted => aging.None?
            case Reported(stage, reset, _) =>
              e.Record? && e.rec.stage == stage
              && var active := AgingBeforeCheck(ks.aging, stage, cycles, e.clock);
                 reset == AgingFires(ResetPolicyOf(d), active, cycles, e.clock)
                 && aging == if reset then Some(MarkHealed(active.value)) else active
            case _ => aging == ks.aging
  {
  }

  lemma {:induction false} AgingOverRun(d: Option<FaultDescriptor>, k: FaultKey, es: seq<DfmEvent>)
    ensures AgingStandsForHistory(d, k, es)
  {
    if es != [] {
      var front, e := es[..|es| - 1], es[|es| - 1];
      AgingOverRun(d, k, front);
      var (ks, cycles) := KeyRun(d, k, front);
      var m := LastMark(d, k, es);
      var marks := Marks(d, k, front);
      assert Marks(d, k, es) == marks + [m];
      assert Marks(d, k, es)[..|es| - 1] == marks;
      AgingStep(d, k, ks, cycles, e);
      if IsAcceptedFailure(m) {
        ResetSinceSnoc(marks, m, |front|);
        assert es[..|front|] == front;
      } else if LastFailure(marks).Some? && !m.Restarted? {
        var a := LastFailure(marks).value;
        ResetSinceSnoc(marks, m, a);
        assert es[..a] == front[..a] && es[a] == front[a];
      }
    }
  }

  // ---------------------------------------------------------------- when the policy fires

  /** How far the 64-bit counter has moved since just before the event at `a`. */
  function Advanced(es: seq<DfmEvent>, a: nat, name: string): nat
    requires a <= |es|
  {
    SaturatingSub(Saturated(RunTicks(es, name), U64_MAX), Saturated(RunTicks(es[..a], name), U64_MAX))
  }

  predicate Due(policy: ResetPolicy, es: seq<DfmEvent>, a: nat, now: Instant)
    requires a < |es| && es[a].Record?
  {
    && (policy.minOperatingCycles.Some? ==> Advanced(es, a, POWER) >= policy.minOperatingCycles.value)
    && match policy.trigger
       case PowerCycles(minPower) => Advanced(es, a, POWER) >= minPower
       case OperationCycles(minCycles, cycleRef) => Advanced(es, a, cycleRef) >= minCycles
       case StableFor(duration) => SaturatingSub(now, es[a].clock.active) >= duration
       case ToolOnly => false
  }

  lemma ShouldResetIsDue(d: Option<FaultDescriptor>, k: FaultKey, es: seq<DfmEvent>, a: nat, policy: ResetPolicy,
                         aging: AgingState, now: Instant)
    requires a < |es| && es[a].Record?
    requires aging.lastActiveTime == es[a].clock.active && aging.lastActiveCycle == KeyRun(d, k, es[..a]).1
    ensures ShouldReset(policy, aging, KeyRun(d, k, es).1, now) <==> !aging.isHealed && Due(policy, es, a, now)
  {
    CyclesOverRun(d, k, es, POWER);
    CyclesOverRun(d, k, es[..a], POWER);
    if policy.trigger.OperationCycles? {
      CyclesOverRun(d, k, es, policy.trigger.cycleRef);
      CyclesOverRun(d, k, es[..a], policy.trigger.cycleRef);
    }
  }

  /** The failure whose aging runs, if it has not been cleared yet and the policy is due. */
  ghost predicate AgingIsDue(d: Option<FaultDescriptor>, k: FaultKey, es: seq<DfmEvent>, e: DfmEvent)
    requires e.Record?
  {
    var last := LastFailure(Marks(d, k, es + [e]));
    && d.Some? && d.value.managerSideReset.Some? && last.Some? && (es + [e])[last.value].Record?
    && !ResetSince(Marks(d, k, es), last.value)
    && Due(d.value.managerSideReset.value, es + [e], last.value, e.clock.check)
  }

  /**
   An accepted record resets the fault exactly when a failure is waiting to be cleared and the
   policy is due, counted from that failure: the counters, their saturation and the clock
   included. A suppressed failure does not start the wait over: see `FaultRecurrence`.
   */
  lemma AgingResetExact(d: Option<FaultDescriptor>, k: FaultKey, es: seq<DfmEvent>, e: DfmEvent)
    requires e.Record? && LastMark(d, k, es + [e]).Reported?
    ensures LastMark(d, k, es + [e]).reset <==> AgingIsDue(d, k, es, e)
  {
    var all := es + [e];
    assert all[..|es|] == es;
    var (ks, cycles) := KeyRun(d, k, es);
    var m := LastMark(d, k, all);
    var marks := Marks(d, k, es);
    assert Marks(d, k, all) == marks + [m];
    assert (marks + [m])[..|marks|] == marks;
    AgingOverRun(d, k, es);
    AgingStep(d, k, ks, cycles, e);
    assert KeyRun(d, k, all).1 == cycles;
    var active := AgingBeforeCheck(ks.aging, e.rec.stage, cycles, e.clock);
    if active.Some? && ResetPolicyOf(d).Some? {
      var a := LastFailure(marks + [m]).value;
      if a < |es| {
        assert all[a] == es[a] && all[..a] == es[..a];
      }
      ShouldResetIsDue(d, k, all, a, ResetPolicyOf(d).value, active.value, e.clock.check);
    }
  }

  /** While nothing saturates, the distance is the plain number of ticks since the failure. */
  lemma AdvancedCountsTicks(d: Option<FaultDescriptor>, k: FaultKey, es: seq<DfmEvent>, a: nat, name: string)
    requires LastFailure(Marks(d, k, es)) == Some(a) && RunTicks(es, name) <= U64_MAX
    ensures Advanced(es, a, name) == RunTicks(es, name) - RunTicks(es[..a], name)
  {
    TicksGrow(d, k, es, a, name);
  }

  lemma {:induction false} TicksGrow(d: Option<FaultDescriptor>, k: FaultKey, es: seq<DfmEvent>, a: nat, name: string)
    requires LastFailure(Marks(d, k, es)) == Some(a)
    ensures RunTicks(es[..a], name) <= RunTicks(es, name)
  {
    var front := es[..|es| - 1];
    assert Marks(d, k, es)[..|es| - 1] == Marks(d, k, front);
    if a < |front| {
      TicksGrow(d, k, front, a, name);
      assert front[..a] == es[..a];
    }
  }

  // ---------------------------------------------------------------- the failing step itself

  /** What a policy asks for when no cycle has passed yet. */
  predicate DueAtOnce(policy: ResetPolicy, active: Instant, check: Instant) {
    && (policy.minOperatingCycles.Some? ==> policy.minOperatingCycles.value == 0)
    && match policy.trigger
       case PowerCycles(minPower) => minPower == 0
       case OperationCycles(minCycles, _) => minCycles == 0
       case StableFor(duration) => SaturatingSub(check, active) >= duration
       case ToolOnly => false
  }

  /**
   A failure clears itself in its own step exactly when every threshold of its policy is zero (a
   stable time, when it has already run out between the two clock readings). With a cycle
   threshold of at least one it never does.
   */
  lemma FailureResetsItself(d: Option<FaultDescriptor>, k: FaultKey, es: seq<DfmEvent>, e: DfmEvent)
    requires e.Record? && IsAcceptedFailure(LastMark(d, k, es + [e]))
    ensures LastMark(d, k, es + [e]).reset <==>
            (&& d.Some? && d.value.managerSideReset.Some?
             && DueAtOnce(d.value.managerSideReset.value, e.clock.active, e.clock.check))
  {
    var all := es + [e];
    assert all[..|es|] == es;
    AgingResetExact(d, k, es, e);
    assert Marks(d, k, all)[|es|] == LastMark(d, k, all);
    assert LastFailure(Marks(d, k, all)) == Some(|es|);
    assert !ResetSince(Marks(d, k, es), |es|);
    var (ks, cycles) := KeyRun(d, k, es);
    AgingStep(d, k, ks, cycles, e);
    forall name
      ensures Advanced(all, |es|, name) == 0
    {
      assert RunTicks(all, name) == RunTicks(es, name);
    }
  }

  // ---------------------------------------------------------------- a restart of the manager

  /** After event `n`, no failure of the fault was accepted and the fault was not deleted. */
  predicate QuietAfter(marks: seq<Mark>, n: nat) {
    forall i :: n < i < |marks| ==> !IsAcceptedFailure(marks[i]) && !marks[i].Deleted?
  }

  /**
   A restart does not start the aging window over: it forgets the failure. Until the fault fails
   again nothing resets it, whatever the policy and however many cycles pass.
   */
  lemma {:induction false} ConfirmedOutlivesRestart(d: Option<FaultDescriptor>, k: FaultKey, es: seq<DfmEvent>,
                                                    more: seq<DfmEvent>)
    requires ResetPolicyOf(d).Some? && QuietAfter(Marks(d, k, es + [RestartManager] + more), |es|)
    ensures KeyRun(d, k, es + [RestartManager] + more).0.aging.None?
    ensures KeyRun(d, k, es + [RestartManager] + more).0.stored.GetOr(DEFAULT_STATE).confirmedDtc
            == KeyRun(d, k, es).0.stored.GetOr(DEFAULT_STATE).confirmedDtc
  {
    var run := es + [RestartManager] + more;
    if more == [] {
      assert run == es + [RestartManager] && run[..|run| - 1] == es;
    } else {
      var rest, e := more[..|more| - 1], more[|more| - 1];
      var front := es + [RestartManager] + rest;
      assert run[..|run| - 1] == front;
      assert Marks(d, k, run) == Marks(d, k, front) + [LastMark(d, k, run)];
      assert QuietAfter(Marks(d, k, front), |es|) by {
        forall i | |es| < i < |front|
          ensures !IsAcceptedFailure(Marks(d, k, front)[i]) && !Marks(d, k, front)[i].Deleted?
        {
          assert Marks(d, k, run)[i] == Marks(d, k, front)[i];
        }
      }
      ConfirmedOutlivesRestart(d, k, es, rest);
      var m := LastMark(d, k, run);
      assert Marks(d, k, run)[|front|] == m;
      var (ks, cycles) := KeyRun(d, k, front);
      AgingStep(d, k, ks, cycles, e);
      BitStep(d, k, ks, cycles, e, ConfirmedDtc);
    }
  }
}
