/**
 What deleting a fault does to the accounting of its counters.

 A deletion removes the stored state but not the aging entry. A failure that was waiting for its
 reset can still be reset afterwards, and then counts as a healing without an occurrence.
 */
module FaultDeletion {
  import opened Basics
  import opened Debounce
  import opened Faults
  import opened OperationCycles
  import opened Aging
  import opened Storage
  import opened FaultProcessing
  import opened FaultRuns
  import opened FaultHistory
  import opened FaultAging
  import opened FaultCounters

  // ---------------------------------------------------------------- when a reset is still owed

  /** The policy can still come due: the 64-bit counters can get far enough past the failure. */
  predicate CanComeDue(policy: Option<ResetPolicy>, aging: AgingState) {
    policy.Some?
    && (policy.value.minOperatingCycles.Some? ==>
          Count(aging.lastActiveCycle, POWER) + policy.value.minOperatingCycles.value <= U64_MAX)
    && match policy.value.trigger
       case PowerCycles(minPower) => Count(aging.lastActiveCycle, POWER) + minPower <= U64_MAX
       case OperationCycles(minCycles, cycleRef) => Count(aging.lastActiveCycle, cycleRef) + minCycles <= U64_MAX
       case StableFor(_) => true
       case ToolOnly => false
  }

  /** The last failure is not healed yet, and its policy can still heal it. */
  predicate ResetIsOwed(d: Option<FaultDescriptor>, k: FaultKey, es: seq<DfmEvent>) {
    var aging := KeyRun(d, k, es).0.aging;
    aging.Some? && !aging.value.isHealed && CanComeDue(ResetPolicyOf(d), aging.value)
  }

  predicate NoDeletion(k: FaultKey, es: seq<DfmEvent>) {
    forall i :: 0 <= i < |es| ==>
      es[i] != DeleteFault(k.source, k.faultId) && es[i] != DeleteAllFaults(k.source)
  }

  function WithDeletion(k: FaultKey, es: seq<DfmEvent>, more: seq<DfmEvent>): seq<DfmEvent> {
    es + [DeleteFault(k.source, k.faultId)] + more
  }

  lemma RunAfterDeletion(d: Option<FaultDescriptor>, k: FaultKey, es: seq<DfmEvent>)
    ensures var run := WithDeletion(k, es, []);
            && KeyRun(d, k, run).0 == KeyRun(d, k, es).0.(stored := None) && KeyRun(d, k, run).1 == KeyRun(d, k, es).1
            && Marks(d, k, run) == Marks(d, k, es) + [Deleted]
  {
    var run := WithDeletion(k, es, []);
    assert run[..|es|] == es && run[|es|] == DeleteFault(k.source, k.faultId);
  }

  lemma RunSnoc(d: Option<FaultDescriptor>, k: FaultKey, run: seq<DfmEvent>, e: DfmEvent)
    ensures var (ks, cycles) := KeyRun(d, k, run);
            && KeyRun(d, k, run + [e]) == (KeyStep(d, k, ks, cycles, e), CycleStep(cycles, e))
            && Marks(d, k, run + [e]) == Marks(d, k, run) + [MarkOf(d, k, ks, cycles, e)]
  {
    assert (run + [e])[..|run|] == run;
  }

  lemma NeverDue(policy: ResetPolicy, aging: AgingState, cycles: CycleCounts, now: Instant)
    requires !CanComeDue(Some(policy), aging)
    ensures !ShouldReset(policy, aging, cycles, now)
  {
  }

  /** Every reset is backed by a failure since the deletion, or nothing has happened to the fault yet. */
  ghost predicate Backed(d: Option<FaultDescriptor>, k: FaultKey, run: seq<DfmEvent>, left: Option<AgingState>) {
    var marks, aging := Marks(d, k, run), KeyRun(d, k, run).0.aging;
    || Resets(marks) + Unhealed(aging) <= Failures(marks)
    || (Resets(marks) == 0 && Failures(marks) == 0 && aging == left)
  }

  /** An entry the policy cannot reset any more. */
  predicate IsSettled(d: Option<FaultDescriptor>, aging: Option<AgingState>) {
    aging.None? || aging.value.isHealed || !CanComeDue(ResetPolicyOf(d), aging.value)
  }

  /** One event, on counts: `left` cannot be reset, only a new failure can replace it. */
  lemma BackedCounts(d: Option<FaultDescriptor>, k: FaultKey, ks: KeyState, cycles: CycleCounts, e: DfmEvent,
                     left: Option<AgingState>, resets: nat, failures: nat)
    requires IsSettled(d, left) && !MarkOf(d, k, ks, cycles, e).Deleted?
    requires resets + Unhealed(ks.aging) <= failures || (resets == 0 && failures == 0 && ks.aging == left)
    ensures var m, aging := MarkOf(d, k, ks, cycles, e), KeyStep(d, k, ks, cycles, e).aging;
            var resets' := resets + if m.Reported? && m.reset then 1 else 0;
            var failures' := failures + if IsAcceptedFailure(m) then 1 else 0;
            resets' + Unhealed(aging) <= failures' || (resets' == 0 && failures' == 0 && aging == left)
  {
    AgingStep(d, k, ks, cycles, e);
    if left.Some? && ResetPolicyOf(d).Some? && e.Record? && !left.value.isHealed {
      NeverDue(ResetPolicyOf(d).value, left.value, cycles, e.clock.check);
    }
  }

  lemma {:induction false} NothingOwedNothingPaid(d: Option<FaultDescriptor>, k: FaultKey, es: seq<DfmEvent>, more: seq<DfmEvent>)
    requires !ResetIsOwed(d, k, es) && NoDeletion(k, more)
    ensures Backed(d, k, WithDeletion(k, es, more), KeyRun(d, k, es).0.aging)
  {
    var left := KeyRun(d, k, es).0.aging;
    RunAfterDeletion(d, k, es);
    if more == [] {
      assert (Marks(d, k, es) + [Deleted])[|es|] == Deleted;
    } else {
      var rest, e := more[..|more| - 1], more[|more| - 1];
      NothingOwedNothingPaid(d, k, es, rest);
      var front := WithDeletion(k, es, rest);
      assert WithDeletion(k, es, more) == front + [e];
      RunSnoc(d, k, front, e);
      var (ks, cycles) := KeyRun(d, k, front);
      var marks, m := Marks(d, k, front), MarkOf(d, k, ks, cycles, e);
      assert (marks + [m])[..|marks|] == marks;
      BackedCounts(d, k, ks, cycles, e, left, Resets(marks), Failures(marks));
    }
  }

  // ---------------------------------------------------------------- a run that pays what is owed

  /** The clock never runs backwards, from `from` on. */
  predicate Forward(es: seq<DfmEvent>, from: Instant) {
    es == []
    || ((es[0].Record? ==> from <= es[0].clock.reset <= es[0].clock.event <= es[0].clock.active <= es[0].clock.check)
        && Forward(es[1..], if es[0].Record? then es[0].clock.check else from))
  }

  /** A possible future: times that can be written, clocks that run forward, no other deletion. */
  predicate Continues(k: FaultKey, from: Instant, more: seq<DfmEvent>) {
    WritableSince(more, 0) && NoDeletion(k, more) && Forward(more, from)
  }

  function PassedAt(k: FaultKey, at: Instant): DfmEvent {
    Record(k.source, FaultRecord(k.faultId, Passed, []), Clock(at, at, at, at, 0))
  }

  /** The debouncer a record meets: the one there is, or a new one. */
  function Ready(d: Option<FaultDescriptor>, debouncer: Option<Debouncer>): Option<Debouncer> {
    if debouncer.Some? then debouncer
    else if ManagerDebounce(d).Some? then Some(Fresh(ManagerDebounce(d).value))
    else None
  }

  /** A passing record never restarts the debouncer. */
  lemma PassedIsAsked(d: Option<FaultDescriptor>, k: FaultKey, ks: KeyState, cycles: CycleCounts, at: Instant)
    ensures var ready := Ready(d, ks.debouncer);
            var passes := ready.None? || EventStep(ready.value, at).0;
            var ks' := KeyStep(d, k, ks, cycles, PassedAt(k, at));
            && ks'.debouncer == (if ready.None? then None else Some(EventStep(ready.value, at).1))
            && if passes then (ks'.aging, ks'.stored)
                              == Accepted(d, ks.aging, ks.stored, cycles, PassedAt(k, at).rec, PassedAt(k, at).clock)
               else ks'.aging == ks.aging && ks'.stored == ks.stored
  {
  }

  /** When to send the next record so that the debouncer comes closer to reporting. */
  function SendAt(ready: Option<Debouncer>, at: Instant): (t: Instant)
    ensures at <= t
  {
    if ready.None? then at
    else
      match ready.value.mode
      case WindowMode(_, _) => at
      case HoldMode(duration) => if ready.value.mark.Some? then Max(at, ready.value.mark.value + duration) else at
      case CooldownMode(cooldown) => if ready.value.mark.Some? then Max(at, ready.value.mark.value + cooldown) else at
  }

  /** How many records it still suppresses. */
  function Suppresses(ready: Option<Debouncer>, at: Instant): nat {
    if ready.None? then 0
    else
      match ready.value.mode
      case WindowMode(minCount, window) => SaturatingSub(minCount, |DropExpired(ready.value.occurrences, at, window)|)
      case HoldMode(_) => if ready.value.mark.None? then 1 else 0
      case CooldownMode(_) => 0
  }

  lemma {:induction false} DropKeepsRecent(times: seq<Instant>, now: Instant, window: Duration)
    ensures DropExpired(DropExpired(times, now, window) + [now], now, window) == DropExpired(times, now, window) + [now]
  {
    if times != [] && SaturatingSub(now, times[0]) > window {
      DropKeepsRecent(times[1..], now, window);
    }
  }

  lemma ComesCloser(ready: Debouncer, at: Instant)
    ensures var t := SendAt(Some(ready), at);
            var (reports, after) := EventStep(ready, t);
            reports || Suppresses(Some(after), t) < Suppresses(Some(ready), at)
  {
    if ready.mode.WindowMode? {
      DropKeepsRecent(ready.occurrences, at, ready.mode.window);
    }
  }

  /** From `at` on, whatever the clock shows, the policy is due. */
  predicate DueFrom(policy: ResetPolicy, aging: AgingState, cycles: CycleCounts, at: Instant) {
    && !aging.isHealed
    && (policy.minOperatingCycles.Some? ==> CyclesSince(aging, cycles, POWER) >= policy.minOperatingCycles.value)
    && match policy.trigger
       case PowerCycles(minPower) => CyclesSince(aging, cycles, POWER) >= minPower
       case OperationCycles(minCycles, cycleRef) => CyclesSince(aging, cycles, cycleRef) >= minCycles
       case StableFor(duration) => aging.lastActiveTime + duration <= at
       case ToolOnly => false
  }

  predicate Uncounted(stored: Option<SovdFaultState>) {
    stored.GetOr(DEFAULT_STATE).occurrenceCounter == 0 && stored.GetOr(DEFAULT_STATE).healingCounter == 0
  }

  predicate HealedOnce(stored: Option<SovdFaultState>) {
    stored.GetOr(DEFAULT_STATE).occurrenceCounter == 0 && stored.GetOr(DEFAULT_STATE).healingCounter == 1
  }

  lemma AcceptedPassHeals(d: Option<FaultDescriptor>, k: FaultKey, ks: KeyState, cycles: CycleCounts, at: Instant)
    requires ResetPolicyOf(d).Some? && ks.aging.Some? && DueFrom(ResetPolicyOf(d).value, ks.aging.value, cycles, at)
    requires Uncounted(ks.stored) && Serializable(ks.stored.GetOr(DEFAULT_STATE))
    ensures HealedOnce(Accepted(d, ks.aging, ks.stored, cycles, PassedAt(k, at).rec, PassedAt(k, at).clock).1)
  {
    var rec, clock, st := PassedAt(k, at).rec, PassedAt(k, at).clock, ks.stored.GetOr(DEFAULT_STATE);
    assert AgingFires(ResetPolicyOf(d), ks.aging, cycles, clock);
    WrittenTimes(d, rec, clock, true, st);
    WrittenCounts(d, rec, clock, true, st);
  }

  /** Passing records, sent until the debouncer lets one through, heal a fault that is due. */
  lemma {:induction false} SendUntilAccepted(d: Option<FaultDescriptor>, k: FaultKey, run: seq<DfmEvent>, at: Instant)
    returns (more: seq<DfmEvent>)
    requires var (ks, cycles) := KeyRun(d, k, run);
             ResetPolicyOf(d).Some? && ks.aging.Some? && DueFrom(ResetPolicyOf(d).value, ks.aging.value, cycles, at)
             && Uncounted(ks.stored)
    ensures Continues(k, at, more) && HealedOnce(KeyRun(d, k, run + more).0.stored)
    decreases Suppresses(Ready(d, KeyRun(d, k, run).0.debouncer), at)
  {
    var (ks, cycles) := KeyRun(d, k, run);
    var ready := Ready(d, ks.debouncer);
    var t := SendAt(ready, at);
    var e := PassedAt(k, t);
    RunSnoc(d, k, run, e);
    PassedIsAsked(d, k, ks, cycles, t);
    if ready.None? || EventStep(ready.value, t).0 {
      StoredStaysSerializable(d, k, run);
      AcceptedPassHeals(d, k, ks, cycles, t);
      more := [e];
    } else {
      ComesCloser(ready.value, at);
      var rest := SendUntilAccepted(d, k, run + [e], t);
      more := [e] + rest;
      assert run + more == run + [e] + rest;
      assert more[1..] == rest;
    }
  }

  // ---------------------------------------------------------------- letting the cycles pass

  function Starts(name: string, n: nat): (events: seq<CycleEvent>)
    ensures |events| == n && forall i :: 0 <= i < n ==> events[i] == CycleEvent(name, Start)
  {
    seq(n, _ => CycleEvent(name, Start))
  }

  lemma {:induction false} TicksOfStarts(name: string, n: nat)
    ensures Ticks(Starts(name, n), name) == n
  {
    if n > 0 {
      assert Starts(name, n)[..n - 1] == Starts(name, n - 1);
      TicksOfStarts(name, n - 1);
    }
  }

  lemma {:induction false} TicksOfConcat(a: seq<CycleEvent>, b: seq<CycleEvent>, name: string)
    ensures Ticks(a + b, name) == Ticks(a, name) + Ticks(b, name)
  {
    if b == [] {
      assert a + b == a;
    } else {
      assert (a + b)[..|a + b| - 1] == a + b[..|b| - 1];
      TicksOfConcat(a, b[..|b| - 1], name);
    }
  }

  /** As many cycles as gate and trigger ask for. */
  function Needed(policy: ResetPolicy): (n: nat)
    ensures policy.minOperatingCycles.Some? ==> policy.minOperatingCycles.value <= n
  {
    var gate := policy.minOperatingCycles.GetOr(0);
    match policy.trigger
    case PowerCycles(minPower) => Max(gate, minPower)
    case OperationCycles(minCycles, _) => Max(gate, minCycles)
    case _ => gate
  }

  function NeededCycles(policy: ResetPolicy): seq<CycleEvent> {
    Starts(POWER, Needed(policy))
    + if policy.trigger.OperationCycles? then Starts(policy.trigger.cycleRef, Needed(policy)) else []
  }

  /** The counters never fall below where the last failure saw them. */
  lemma {:induction false} CountersMoveOn(d: Option<FaultDescriptor>, k: FaultKey, es: seq<DfmEvent>, name: string)
    ensures var (ks, cycles) := KeyRun(d, k, es);
            ks.aging.Some? ==> Count(ks.aging.value.lastActiveCycle, name) <= Count(cycles, name)
  {
    if es != [] {
      var front, e := es[..|es| - 1], es[|es| - 1];
      CountersMoveOn(d, k, front, name);
      var (ks, cycles) := KeyRun(d, k, front);
      AgingStep(d, k, ks, cycles, e);
      if e.Cycles? {
        ApplyCounts(cycles, e.events, name, Count(cycles, name));
      }
    }
  }

  lemma CyclesPass(aging: AgingState, cycles: CycleCounts, events: seq<CycleEvent>, name: string, n: nat)
    requires Count(aging.lastActiveCycle, name) <= Count(cycles, name)
    requires Count(aging.lastActiveCycle, name) + n <= U64_MAX && n <= Ticks(events, name)
    ensures CyclesSince(aging, ApplyBatch(cycles, events), name) >= n
  {
    ApplyCounts(cycles, events, name, Count(cycles, name));
  }

  lemma NeededTicks(policy: ResetPolicy)
    ensures Ticks(NeededCycles(policy), POWER) >= Needed(policy)
    ensures policy.trigger.OperationCycles? ==> Ticks(NeededCycles(policy), policy.trigger.cycleRef) >= Needed(policy)
  {
    TicksOfStarts(POWER, Needed(policy));
    if policy.trigger.OperationCycles? {
      var name := policy.trigger.cycleRef;
      TicksOfStarts(name, Needed(policy));
      TicksOfConcat(Starts(POWER, Needed(policy)), Starts(name, Needed(policy)), POWER);
      TicksOfConcat(Starts(POWER, Needed(policy)), Starts(name, Needed(policy)), name);
    } else {
      assert NeededCycles(policy) == Starts(POWER, Needed(policy));
    }
  }

  lemma BecomesDue(d: Option<FaultDescriptor>, k: FaultKey, es: seq<DfmEvent>, at: Instant)
    requires ResetIsOwed(d, k, es)
    requires var policy := ResetPolicyOf(d).value;
             policy.trigger.StableFor? ==> KeyRun(d, k, es).0.aging.value.lastActiveTime + policy.trigger.duration <= at
    ensures var policy := ResetPolicyOf(d).value;
            DueFrom(policy, KeyRun(d, k, es).0.aging.value, ApplyBatch(KeyRun(d, k, es).1, NeededCycles(policy)), at)
  {
    var policy := ResetPolicyOf(d).value;
    var (ks, cycles) := KeyRun(d, k, es);
    var aging, events := ks.aging.value, NeededCycles(policy);
    NeededTicks(policy);
    CountersMoveOn(d, k, es, POWER);
    if policy.minOperatingCycles.Some? {
      CyclesPass(aging, cycles, events, POWER, policy.minOperatingCycles.value);
    }
    match policy.trigger
    case PowerCycles(minPower) => CyclesPass(aging, cycles, events, POWER, minPower);
    case OperationCycles(minCycles, cycleRef) =>
      CountersMoveOn(d, k, es, cycleRef);
      CyclesPass(aging, cycles, events, cycleRef, minCycles);
    case _ =>
  }

  // ---------------------------------------------------------------- the theorem

  /** After the deletion and this future, the fault has been healed more often than it occurred. */
  predicate Overhealed(d: Option<FaultDescriptor>, k: FaultKey, es: seq<DfmEvent>, more: seq<DfmEvent>) {
    var st := KeyRun(d, k, WithDeletion(k, es, more)).0.stored.GetOr(DEFAULT_STATE);
    st.healingCounter > st.occurrenceCounter
  }

  lemma TickedIsDue(d: Option<FaultDescriptor>, k: FaultKey, es: seq<DfmEvent>, at: Instant)
    requires ResetIsOwed(d, k, es)
    requires var policy := ResetPolicyOf(d).value;
             policy.trigger.StableFor? ==> KeyRun(d, k, es).0.aging.value.lastActiveTime + policy.trigger.duration <= at
    ensures var policy := ResetPolicyOf(d).value;
            var (ks, cycles) := KeyRun(d, k, WithDeletion(k, es, []) + [Cycles(NeededCycles(policy))]);
            ks.aging.Some? && DueFrom(policy, ks.aging.value, cycles, at) && Uncounted(ks.stored)
  {
    BecomesDue(d, k, es, at);
    RunAfterDeletion(d, k, es);
    RunSnoc(d, k, WithDeletion(k, es, []), Cycles(NeededCycles(ResetPolicyOf(d).value)));
  }

  lemma OwedResetOverheals(d: Option<FaultDescriptor>, k: FaultKey, es: seq<DfmEvent>, from: Instant)
    returns (more: seq<DfmEvent>)
    requires ResetIsOwed(d, k, es)
    ensures Continues(k, from, more) && Overhealed(d, k, es, more)
  {
    var policy := ResetPolicyOf(d).value;
    var aging := KeyRun(d, k, es).0.aging.value;
    var at := if policy.trigger.StableFor? then Max(from, aging.lastActiveTime + policy.trigger.duration) else from;
    var ticks := Cycles(NeededCycles(policy));
    var ticked := WithDeletion(k, es, []) + [ticks];
    TickedIsDue(d, k, es, at);
    var sent := SendUntilAccepted(d, k, ticked, at);
    more := [ticks] + sent;
    assert WithDeletion(k, es, more) == ticked + sent;
    assert more[1..] == sent;
    LaterStart(sent, at, from);
  }

  lemma LaterStart(es: seq<DfmEvent>, at: Instant, from: Instant)
    requires Forward(es, at) && from <= at
    ensures Forward(es, from)
  {
  }

  lemma NothingOwedNeverOverheals(d: Option<FaultDescriptor>, k: FaultKey, es: seq<DfmEvent>, more: seq<DfmEvent>)
    requires !ResetIsOwed(d, k, es) && WritableSince(more, 0) && NoDeletion(k, more)
    ensures !Overhealed(d, k, es, more)
  {
    var run := WithDeletion(k, es, more);
    NothingOwedNothingPaid(d, k, es, more);
    CountersOverRun(d, k, run);
    KeptOrLost(Marks(d, k, run));
    DeletionIsMarked(d, k, es, more);
    assert forall i :: |es| + 1 <= i < |run| ==> run[i] == more[i - |es| - 1];
    NothingLost(d, k, run, |es| + 1);
  }

  lemma {:induction false} DeletionIsMarked(d: Option<FaultDescriptor>, k: FaultKey, es: seq<DfmEvent>, more: seq<DfmEvent>)
    ensures Marks(d, k, WithDeletion(k, es, more))[|es|] == Deleted
  {
    if more == [] {
      RunAfterDeletion(d, k, es);
    } else {
      var rest, e := more[..|more| - 1], more[|more| - 1];
      DeletionIsMarked(d, k, es, rest);
      assert WithDeletion(k, es, more) == WithDeletion(k, es, rest) + [e];
      RunSnoc(d, k, WithDeletion(k, es, rest), e);
    }
  }

  /**
   Deleting a fault can be followed by more healings than occurrences exactly when, at that
   moment, its last failure is not healed and its policy can still come due: for every policy and
   every debouncer, and however late the future begins.
   */
  lemma DeletionBreaksAccounting(d: Option<FaultDescriptor>, k: FaultKey, es: seq<DfmEvent>, from: Instant)
    ensures (exists more :: Continues(k, from, more) && Overhealed(d, k, es, more)) <==> ResetIsOwed(d, k, es)
  {
    if ResetIsOwed(d, k, es) {
      var more := OwedResetOverheals(d, k, es, from);
    } else {
      forall more | Continues(k, from, more)
        ensures !Overhealed(d, k, es, more)
      {
        NothingOwedNeverOverheals(d, k, es, more);
      }
    }
  }

  /** Without a policy, or with one that leaves clearing to a tool, a fault is never healed at all. */
  lemma {:induction false} ToolOnlyNeverHeals(d: Option<FaultDescriptor>, k: FaultKey, es: seq<DfmEvent>)
    requires ResetPolicyOf(d).None? || ResetPolicyOf(d).value.trigger.ToolOnly?
    ensures KeptResets(Marks(d, k, es)) == 0
    ensures KeyRun(d, k, es).0.stored.GetOr(DEFAULT_STATE).healingCounter == 0
  {
    CountersOverRun(d, k, es);
    if es != [] {
      var front := es[..|es| - 1];
      ToolOnlyNeverHeals(d, k, front);
      assert Marks(d, k, es)[..|front|] == Marks(d, k, front);
      var (ks, cycles) := KeyRun(d, k, front);
      AgingStep(d, k, ks, cycles, es[|es| - 1]);
    }
  }

  /** Failed, deleted, one power cycle, Passed: healed once, and never occurred. */
  lemma DeletionExample(d: Option<FaultDescriptor>, k: FaultKey, at: Instant, wall: U64)
    requires ManagerDebounce(d).None? && ResetPolicyOf(d) == Some(ResetPolicy(PowerCycles(1), None))
    requires wall <= I64_MAX
    ensures var failed := Record(k.source, FaultRecord(k.faultId, Failed, []), Clock(at, at, at, at, wall));
            HealedOnce(KeyRun(d, k, [failed, DeleteFault(k.source, k.faultId),
                                     Cycles([CycleEvent("power", Start)]), PassedAt(k, at)]).0.stored)
  {
    var failed := Record(k.source, FaultRecord(k.faultId, Failed, []), Clock(at, at, at, at, wall));
    var ticks := Cycles([CycleEvent(POWER, Start)]);
    RunSnoc(d, k, [], failed);
    assert [] + [failed] == [failed];
    RunAfterDeletion(d, k, [failed]);
    var deleted := WithDeletion(k, [failed], []);
    RunSnoc(d, k, deleted, ticks);
    RunSnoc(d, k, deleted + [ticks], PassedAt(k, at));
    assert deleted + [ticks] + [PassedAt(k, at)]
           == [failed, DeleteFault(k.source, k.faultId), ticks, PassedAt(k, at)];
    var (ks, cycles) := KeyRun(d, k, deleted + [ticks]);
    AgingStep(d, k, UNKNOWN, map[], failed);
    assert Ticks([CycleEvent(POWER, Start)], POWER) == 1 by { assert [CycleEvent(POWER, Start)][..0] == []; }
    ApplyCounts(map[], [CycleEvent(POWER, Start)], POWER, 0);
    PassedIsAsked(d, k, ks, cycles, at);
    AcceptedPassHeals(d, k, ks, cycles, at);
  }
}
