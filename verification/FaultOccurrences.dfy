/** The occurrence times and the environment data of a fault against its history. */
module FaultOccurrences {
  import opened Basics
  import opened Faults
  import opened OperationCycles
  import opened Aging
  import opened Storage
  import opened FaultProcessing
  import opened FaultRuns
  import opened FaultHistory
  import opened FaultCounters

  /** The marks since the fault was last deleted start here. */
  function SinceDeletion(marks: seq<Mark>): (start: nat)
    ensures start <= |marks|
  {
    if marks == [] then 0
    else if marks[|marks| - 1].Deleted? then |marks|
    else SinceDeletion(marks[..|marks| - 1])
  }

  lemma SinceDeletionSnoc(marks: seq<Mark>, m: Mark)
    ensures SinceDeletion(marks + [m]) == if m.Deleted? then |marks| + 1 else SinceDeletion(marks)
  {
    assert (marks + [m])[..|marks|] == marks;
  }

  // ---------------------------------------------------------------- the last occurrence

  predicate IsLastKept(marks: seq<Mark>, i: nat) {
    && SinceDeletion(marks) <= i < |marks| && FailureKept(marks[i])
    && forall j :: i < j < |marks| ==> !FailureKept(marks[j])
  }

  predicate NoneKept(marks: seq<Mark>) {
    forall j :: SinceDeletion(marks) <= j < |marks| ==> !FailureKept(marks[j])
  }

  /** The environment of a list of pairs: each key once, with the value it was given last. */
  predicate IsCollected(pairs: seq<(string, string)>, env: EnvData) {
    && (forall k :: k in env ==> exists i :: 0 <= i < |pairs| && pairs[i] == (k, env[k]) && IsLastPair(pairs, i))
    && (forall i :: 0 <= i < |pairs| ==> pairs[i].0 in env)
  }

  /** No later pair has the same key. */
  predicate IsLastPair(pairs: seq<(string, string)>, i: nat)
    requires i < |pairs|
  {
    forall j :: i < j < |pairs| ==> pairs[j].0 != pairs[i].0
  }

  lemma {:induction false} CollectedLast(pairs: seq<(string, string)>)
    ensures IsCollected(pairs, CollectEnv(pairs))
  {
    if pairs != [] {
      var front, pair := pairs[..|pairs| - 1], pairs[|pairs| - 1];
      CollectedLast(front);
      assert pairs == front + [pair];
      CollectedNext(front, CollectEnv(front), pair);
    }
  }

  lemma CollectedNext(front: seq<(string, string)>, before: EnvData, pair: (string, string))
    requires IsCollected(front, before)
    ensures IsCollected(front + [pair], before[pair.0 := pair.1])
  {
    var pairs, env := front + [pair], before[pair.0 := pair.1];
    forall k | k in env
      ensures exists i :: 0 <= i < |pairs| && pairs[i] == (k, env[k]) && IsLastPair(pairs, i)
    {
      if k == pair.0 {
        assert pairs[|front|] == (k, env[k]) && IsLastPair(pairs, |front|);
      } else {
        var i :| 0 <= i < |front| && front[i] == (k, before[k]) && IsLastPair(front, i);
        assert forall j :: i < j < |front| ==> pairs[j] == front[j];
        assert pairs[i] == (k, env[k]) && IsLastPair(pairs, i);
      }
    }
  }

  /** The stored time and environment are those of failure `i`. */
  predicate ShowsFailure(st: SovdFaultState, e: DfmEvent) {
    e.Record? && st.lastOccurrenceSecs == e.clock.wall && IsCollected(e.rec.envData, st.envData)
  }

  ghost predicate ShowsLastFailure(es: seq<DfmEvent>, marks: seq<Mark>, st: SovdFaultState)
    requires |marks| == |es|
  {
    || (NoneKept(marks) && st.lastOccurrenceSecs == 0 && st.envData == map[])
    || (exists i :: 0 <= i < |marks| && IsLastKept(marks, i) && ShowsFailure(st, es[i]))
  }

  lemma WrittenShows(d: Option<FaultDescriptor>, rec: FaultRecord, clock: Clock, fires: bool, st: SovdFaultState)
    ensures var st' := Written(d, rec, clock, fires, st);
            if IsFailure(rec.stage)
            then st'.lastOccurrenceSecs == clock.wall && IsCollected(rec.envData, st'.envData)
            else st'.lastOccurrenceSecs == st.lastOccurrenceSecs && st'.envData == st.envData
  {
    CollectedLast(rec.envData);
    StageTimes(rec.stage, IsWarningIndicatorRelevant(d), ResetPolicyOf(d).Some?, clock.wall, st);
    StageKeepsEnv(rec.stage, IsWarningIndicatorRelevant(d), ResetPolicyOf(d).Some?, clock.wall, st);
    FinishedShows(rec, fires, ApplyStage(rec.stage, IsWarningIndicatorRelevant(d), ResetPolicyOf(d).Some?, clock.wall, st));
  }

  lemma FinishedShows(rec: FaultRecord, fires: bool, staged: SovdFaultState)
    ensures var st := Finished(rec, fires, staged);
            && st.lastOccurrenceSecs == staged.lastOccurrenceSecs
            && st.envData == if IsFailure(rec.stage) then CollectEnv(rec.envData) else staged.envData
  {
  }

  lemma StageKeepsEnv(stage: LifecycleStage, relevant: bool, latched: bool, wall: U64, st: SovdFaultState)
    ensures ApplyStage(stage, relevant, latched, wall, st).envData == st.envData
  {
    match stage
    case Failed =>
    case Passed =>
    case PreFailed =>
    case PrePassed =>
    case NotTested =>
  }

  lemma ShowsAfterStep(d: Option<FaultDescriptor>, k: FaultKey, ks: KeyState, cycles: CycleCounts, e: DfmEvent)
    ensures var m := MarkOf(d, k, ks, cycles, e);
            var before, after := ks.stored.GetOr(DEFAULT_STATE), KeyStep(d, k, ks, cycles, e).stored.GetOr(DEFAULT_STATE);
            if m.Deleted? then after == DEFAULT_STATE
            else if FailureKept(m) then ShowsFailure(after, e)
            else after.lastOccurrenceSecs == before.lastOccurrenceSecs && after.envData == before.envData
  {
    StoredAfter(d, k, ks, cycles, e);
    var m := MarkOf(d, k, ks, cycles, e);
    if m.Reported? {
      WrittenShows(d, e.rec, e.clock, m.reset, ks.stored.GetOr(DEFAULT_STATE));
    }
  }

  lemma ShowsSnoc(es: seq<DfmEvent>, marks: seq<Mark>, e: DfmEvent, m: Mark, before: SovdFaultState, after: SovdFaultState)
    requires |marks| == |es| && ShowsLastFailure(es, marks, before)
    requires if m.Deleted? then after == DEFAULT_STATE
             else if FailureKept(m) then ShowsFailure(after, e)
             else after.lastOccurrenceSecs == before.lastOccurrenceSecs && after.envData == before.envData
    ensures ShowsLastFailure(es + [e], marks + [m], after)
  {
    var all := marks + [m];
    SinceDeletionSnoc(marks, m);
    if m.Deleted? {
      assert NoneKept(all);
    } else if FailureKept(m) {
      assert IsLastKept(all, |marks|) && ShowsFailure(after, (es + [e])[|marks|]);
    } else if NoneKept(marks) && before.lastOccurrenceSecs == 0 && before.envData == map[] {
      assert NoneKept(all);
    } else {
      var i :| 0 <= i < |marks| && IsLastKept(marks, i) && ShowsFailure(before, es[i]);
      assert IsLastKept(all, i) && ShowsFailure(after, (es + [e])[i]);
    }
  }

  /**
   Over every run, the stored occurrence time and environment are those of the last failure that
   was written since the fault was deleted, and empty if there was none.
   */
  lemma {:induction false} LastOccurrenceIsHistory(d: Option<FaultDescriptor>, k: FaultKey, es: seq<DfmEvent>)
    ensures ShowsLastFailure(es, Marks(d, k, es), KeyRun(d, k, es).0.stored.GetOr(DEFAULT_STATE))
  {
    if es != [] {
      var front, e := es[..|es| - 1], es[|es| - 1];
      LastOccurrenceIsHistory(d, k, front);
      var (ks, cycles) := KeyRun(d, k, front);
      ShowsAfterStep(d, k, ks, cycles, e);
      ShowsSnoc(front, Marks(d, k, front), e, LastMark(d, k, es), ks.stored.GetOr(DEFAULT_STATE),
                KeyRun(d, k, es).0.stored.GetOr(DEFAULT_STATE));
      assert es == front + [e];
    }
  }

  // ---------------------------------------------------------------- the first occurrence

  /** A failure that was written at a wall time other than second 0, which stands for "never". */
  predicate DatedFailure(es: seq<DfmEvent>, marks: seq<Mark>, i: nat)
    requires i < |marks| == |es|
  {
    FailureKept(marks[i]) && es[i].Record? && es[i].clock.wall != 0
  }

  ghost predicate IsFirstTime(es: seq<DfmEvent>, marks: seq<Mark>, secs: U64)
    requires |marks| == |es|
  {
    if secs == 0 then forall j :: SinceDeletion(marks) <= j < |marks| ==> !DatedFailure(es, marks, j)
    else exists i :: SinceDeletion(marks) <= i < |marks| && StartsAt(es, marks, i, secs)
  }

  /** Failure `i` is the first dated one since the deletion. */
  predicate StartsAt(es: seq<DfmEvent>, marks: seq<Mark>, i: nat, secs: U64)
    requires i < |marks| == |es|
  {
    && DatedFailure(es, marks, i) && es[i].clock.wall == secs
    && forall j :: SinceDeletion(marks) <= j < i ==> !DatedFailure(es, marks, j)
  }

  lemma FirstAfterStep(d: Option<FaultDescriptor>, k: FaultKey, ks: KeyState, cycles: CycleCounts, e: DfmEvent)
    ensures var m := MarkOf(d, k, ks, cycles, e);
            var before, after := ks.stored.GetOr(DEFAULT_STATE), KeyStep(d, k, ks, cycles, e).stored.GetOr(DEFAULT_STATE);
            if m.Deleted? then after.firstOccurrenceSecs == 0
            else if FailureKept(m) && before.firstOccurrenceSecs == 0
            then e.Record? && after.firstOccurrenceSecs == e.clock.wall
            else after.firstOccurrenceSecs == before.firstOccurrenceSecs
  {
    StoredAfter(d, k, ks, cycles, e);
    var m := MarkOf(d, k, ks, cycles, e);
    if m.Reported? {
      StageTimes(m.stage, IsWarningIndicatorRelevant(d), ResetPolicyOf(d).Some?, e.clock.wall, ks.stored.GetOr(DEFAULT_STATE));
    }
  }

  lemma FirstSnoc(es: seq<DfmEvent>, marks: seq<Mark>, e: DfmEvent, m: Mark, before: U64, after: U64)
    requires |marks| == |es| && IsFirstTime(es, marks, before)
    requires if m.Deleted? then after == 0
             else if FailureKept(m) && before == 0 then e.Record? && after == e.clock.wall
             else after == before
    ensures IsFirstTime(es + [e], marks + [m], after)
  {
    var all, events := marks + [m], es + [e];
    SinceDeletionSnoc(marks, m);
    assert forall j :: 0 <= j < |marks| ==> DatedFailure(events, all, j) == DatedFailure(es, marks, j);
    if !m.Deleted? {
      if before != 0 {
        var i :| SinceDeletion(marks) <= i < |marks| && StartsAt(es, marks, i, before);
        assert StartsAt(events, all, i, after);
      } else if after != 0 {
        assert StartsAt(events, all, |marks|, after);
      }
    }
  }

  /** The first occurrence stays at the earliest dated failure since the deletion, through every later one. */
  lemma {:induction false} FirstOccurrenceIsHistory(d: Option<FaultDescriptor>, k: FaultKey, es: seq<DfmEvent>)
    ensures IsFirstTime(es, Marks(d, k, es), KeyRun(d, k, es).0.stored.GetOr(DEFAULT_STATE).firstOccurrenceSecs)
  {
    if es != [] {
      var front, e := es[..|es| - 1], es[|es| - 1];
      FirstOccurrenceIsHistory(d, k, front);
      var (ks, cycles) := KeyRun(d, k, front);
      FirstAfterStep(d, k, ks, cycles, e);
      FirstSnoc(front, Marks(d, k, front), e, LastMark(d, k, es), ks.stored.GetOr(DEFAULT_STATE).firstOccurrenceSecs,
                KeyRun(d, k, es).0.stored.GetOr(DEFAULT_STATE).firstOccurrenceSecs);
      assert es == front + [e];
    }
  }
}
