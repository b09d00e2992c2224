/** The processor of incoming fault records, working on its maps, the store and the cycle tracker. */
module FaultRecordProcessor {
  import opened Basics
  import opened Debounce
  import opened Faults
  import opened DebouncePipeline
  import opened OperationCycles
  import opened Aging
  import opened Storage
  import opened FaultProcessing

  class FaultRecordProcessor {
    const storage: KvsStorage
    const registry: CatalogRegistry
    /** The configuration hash of each catalog. */
    const hashes: map<string, seq<U8>>
    const cycleTracker: OperationCycleTracker
    var debouncers: map<FaultKey, Debouncer>
    var lastStages: map<FaultKey, LifecycleStage>
    var agingStates: map<FaultKey, AgingState>

    ghost predicate Valid()
      reads this, storage
    {
      storage.Valid()
    }

    ghost function View(): Dfm
      reads this, storage, cycleTracker
    {
      Dfm(debouncers, lastStages, agingStates, storage.contents, cycleTracker.cycles, storage.kvs.Keys)
    }

    constructor (storage: KvsStorage, registry: CatalogRegistry, hashes: map<string, seq<U8>>,
                 cycleTracker: OperationCycleTracker)
      requires storage.Valid() && hashes.Keys == registry.Keys
      ensures Valid() && this.storage == storage && this.registry == registry && this.hashes == hashes
      ensures this.cycleTracker == cycleTracker
      ensures View() == Dfm(map[], map[], map[], storage.contents, cycleTracker.cycles, storage.kvs.Keys)
    {
      this.storage := storage;
      this.registry := registry;
      this.hashes := hashes;
      this.cycleTracker := cycleTracker;
      debouncers, lastStages, agingStates := map[], map[], map[];
    }

    /** Restart the debouncer when the fault was cleared and is failing again. */
    method HandleLifecycleTransition(key: FaultKey, stage: LifecycleStage, now: Instant)
      modifies this`debouncers
      ensures debouncers ==
              if key in lastStages && key in old(debouncers)
                 && ((lastStages[key] == Passed && (stage == Failed || stage == PreFailed))
                     || (lastStages[key] == NotTested && stage == Failed))
              then old(debouncers)[key := ResetStep(old(debouncers)[key], now)]
              else old(debouncers)
    {
      if key in lastStages && Restarts(ManagerSide, lastStages[key], stage) && key in debouncers {
        debouncers := debouncers[key := ResetStep(debouncers[key], now)];
      }
    }

    /** Create the debouncer from the catalog on first use. */
    method GetOrCreateDebouncer(key: FaultKey) returns (found: bool)
      modifies this`debouncers
      ensures found <==> key in old(debouncers) || ManagerDebounce(Lookup(registry, key)).Some?
      ensures debouncers ==
              if found && key !in old(debouncers)
              then old(debouncers)[key := Fresh(ManagerDebounce(Lookup(registry, key)).value)]
              else old(debouncers)
      ensures found ==> key in debouncers
    {
      if key in debouncers {
        return true;
      }
      if key.source !in registry || key.faultId !in registry[key.source] {
        return false;
      }
      var mode := registry[key.source][key.faultId].managerSideDebounce;
      if mode.None? {
        return false;
      }
      debouncers := debouncers[key := Fresh(mode.value)];
      found := true;
    }

    method CheckDebounce(key: FaultKey, now: Instant) returns (passes: bool)
      modifies this`debouncers
      ensures var mode := ManagerDebounce(Lookup(registry, key));
              var ready := if key in old(debouncers) then Some(old(debouncers)[key])
                           else if mode.Some? then Some(Fresh(mode.value)) else None;
              if ready.None? then passes && debouncers == old(debouncers)
              else passes == EventStep(ready.value, now).0
                   && debouncers == old(debouncers)[key := EventStep(ready.value, now).1]
    {
      var found := GetOrCreateDebouncer(key);
      if !found {
        return true;
      }
      var step := EventStep(debouncers[key], now);
      debouncers := debouncers[key := step.1];
      passes := step.0;
    }

    /** Debounce and stage tracking of one record. */
    method Filter(key: FaultKey, stage: LifecycleStage, clock: Clock) returns (passes: bool)
      modifies this`debouncers, this`lastStages
      ensures var r := Process(ManagerSide, ManagerDebounce(Lookup(registry, key)),
                               Pipeline(At(old(debouncers), key), At(old(lastStages), key)),
                               RecordStamp(stage, clock));
              passes == r.0
              && debouncers == With(old(debouncers), key, r.1.debouncer)
              && lastStages == With(old(lastStages), key, r.1.lastStage)
    {
      HandleLifecycleTransition(key, stage, clock.reset);
      lastStages := lastStages[key := stage];
      passes := CheckDebounce(key, clock.event);
    }

    method MarkAgingActive(key: FaultKey, now: Instant)
      modifies this`agingStates
      ensures agingStates == old(agingStates)[key :=
                MarkActive(At(old(agingStates), key).GetOr(NewAging(now)), cycleTracker.cycles, now)]
    {
      if key !in agingStates {
        agingStates := agingStates[key := NewAging(now)];
      }
      var snapshot := cycleTracker.Snapshot();
      agingStates := agingStates[key := MarkActive(agingStates[key], snapshot, now)];
    }

    /** The loop over the compliance tags of the fault's descriptor, if it has one. */
    method HasWarningTag(key: FaultKey) returns (relevant: bool)
      ensures relevant <==>
              key.source in registry && key.faultId in registry[key.source]
              && (SafetyCritical in registry[key.source][key.faultId].compliance
                  || EmissionRelevant in registry[key.source][key.faultId].compliance)
    {
      if key.source !in registry || key.faultId !in registry[key.source] {
        return false;
      }
      var tags := registry[key.source][key.faultId].compliance;
      for i := 0 to |tags|
        invariant SafetyCritical !in tags[..i] && EmissionRelevant !in tags[..i]
      {
        if tags[i] == SafetyCritical || tags[i] == EmissionRelevant {
          return true;
        }
      }
      assert tags[..|tags|] == tags;
      relevant := false;
    }

    /** What both failing stages do besides their flags. */
    method NoteFailure(key: FaultKey, clock: Clock, before: SovdFaultState) returns (state: SovdFaultState)
      modifies this`agingStates
      ensures state == RecordOccurrence(
                before.(warningIndicatorRequested := before.warningIndicatorRequested
                                                     || IsWarningIndicatorRelevant(Lookup(registry, key))), clock.wall)
      ensures agingStates == old(agingStates)[key :=
                MarkActive(At(old(agingStates), key).GetOr(NewAging(clock.active)), cycleTracker.cycles, clock.active)]
    {
      state := before;
      var relevant := HasWarningTag(key);
      if relevant {
        state := state.(warningIndicatorRequested := true);
      }
      state := RecordOccurrence(state, clock.wall);
      MarkAgingActive(key, clock.active);
    }

    method UpdateFailed(key: FaultKey, clock: Clock, before: SovdFaultState) returns (state: SovdFaultState)
      modifies this`agingStates
      ensures state == ApplyStage(Failed, IsWarningIndicatorRelevant(Lookup(registry, key)),
                                  ResetPolicyOf(Lookup(registry, key)).Some?, clock.wall, before)
      ensures agingStates == With(old(agingStates), key,
                AgingBeforeCheck(At(old(agingStates), key), Failed, cycleTracker.cycles, clock))
    {
      state := before.(testFailed := true, confirmedDtc := true, pendingDtc := false,
                       testFailedThisOperationCycle := true, testFailedSinceLastClear := true);
      state := NoteFailure(key, clock, state);
    }

    method UpdatePreFailed(key: FaultKey, clock: Clock, before: SovdFaultState) returns (state: SovdFaultState)
      modifies this`agingStates
      ensures state == ApplyStage(PreFailed, IsWarningIndicatorRelevant(Lookup(registry, key)),
                                  ResetPolicyOf(Lookup(registry, key)).Some?, clock.wall, before)
      ensures agingStates == With(old(agingStates), key,
                AgingBeforeCheck(At(old(agingStates), key), PreFailed, cycleTracker.cycles, clock))
    {
      state := before.(testFailed := true, pendingDtc := true,
                       testFailedThisOperationCycle := true, testFailedSinceLastClear := true);
      state := NoteFailure(key, clock, state);
    }

    /** With an aging policy the fault stays confirmed. */
    method UpdatePassed(key: FaultKey, clock: Clock, before: SovdFaultState) returns (state: SovdFaultState)
      ensures state == ApplyStage(Passed, IsWarningIndicatorRelevant(Lookup(registry, key)),
                                  ResetPolicyOf(Lookup(registry, key)).Some?, clock.wall, before)
    {
      state := before.(testFailed := false, pendingDtc := false);
      if ResetPolicyOf(Lookup(registry, key)).None? {
        state := state.(confirmedDtc := false);
      }
    }

    /** The flags and counters a stage changes; a failure also restarts the aging entry. */
    method UpdateForStage(key: FaultKey, stage: LifecycleStage, clock: Clock, before: SovdFaultState)
      returns (state: SovdFaultState)
      modifies this`agingStates
      ensures state == ApplyStage(stage, IsWarningIndicatorRelevant(Lookup(registry, key)),
                                  ResetPolicyOf(Lookup(registry, key)).Some?, clock.wall, before)
      ensures agingStates == With(old(agingStates), key,
                AgingBeforeCheck(At(old(agingStates), key), stage, cycleTracker.cycles, clock))
      ensures state.warningIndicatorRequested <==>
              before.warningIndicatorRequested
              || ((stage == Failed || stage == PreFailed)
                  && key.source in registry && key.faultId in registry[key.source]
                  && (SafetyCritical in registry[key.source][key.faultId].compliance
                      || EmissionRelevant in registry[key.source][key.faultId].compliance))
      ensures state.confirmedDtc <==>
              stage == Failed
              || (before.confirmedDtc
                  && (stage != Passed
                      || (key.source in registry && key.faultId in registry[key.source]
                          && registry[key.source][key.faultId].managerSideReset.Some?)))
    {
      match stage {
        case Failed =>
          state := UpdateFailed(key, clock, before);
        case Passed =>
          state := UpdatePassed(key, clock, before);
        case PreFailed =>
          state := UpdatePreFailed(key, clock, before);
        case PrePassed =>
          state := before.(testFailed := false, pendingDtc := false);
        case NotTested =>
          state := before.(testNotCompletedThisOperationCycle := true, testNotCompletedSinceLastClear := true);
      }
    }

    /** Clear the latched flags if the aging policy of the fault is satisfied. */
    method EvaluateAging(key: FaultKey, clock: Clock, before: SovdFaultState) returns (state: SovdFaultState)
      modifies this`agingStates
      ensures var aging := At(old(agingStates), key);
              var fires := AgingFires(ResetPolicyOf(Lookup(registry, key)), aging, cycleTracker.cycles, clock);
              state == (if fires then ClearDtcFlags(before) else before)
              && agingStates == With(old(agingStates), key, if fires then Some(MarkHealed(aging.value)) else aging)
    {
      var policy := ResetPolicyOf(Lookup(registry, key));
      state := before;
      if policy.Some? && key in agingStates
         && ShouldReset(policy.value, agingStates[key], cycleTracker.cycles, clock.check) {
        var reset := ApplyReset(agingStates[key], state);
        agingStates := agingStates[key := reset.0];
        state := reset.1;
      }
    }

    /** The aging reset, if it is due, and the environment of a failure. */
    method FinishState(key: FaultKey, record: FaultRecord, clock: Clock, staged: SovdFaultState)
      returns (state: SovdFaultState)
      modifies this`agingStates
      ensures var aging := At(old(agingStates), key);
              var fires := AgingFires(ResetPolicyOf(Lookup(registry, key)), aging, cycleTracker.cycles, clock);
              state == Finished(record, fires, staged)
              && agingStates == With(old(agingStates), key, if fires then Some(MarkHealed(aging.value)) else aging)
    {
      state := EvaluateAging(key, clock, staged);
      if IsFailure(record.stage) {
        state := state.(envData := CollectEnv(record.envData));
      }
    }

    /** The state to store: updated for the stage, aged, and keeping the environment of a failure. */
    method NextState(key: FaultKey, record: FaultRecord, clock: Clock, before: SovdFaultState)
      returns (state: SovdFaultState)
      modifies this`agingStates
      ensures var d := Lookup(registry, key);
              var active := AgingBeforeCheck(At(old(agingStates), key), record.stage, cycleTracker.cycles, clock);
              var fires := AgingFires(ResetPolicyOf(d), active, cycleTracker.cycles, clock);
              state == Written(d, record, clock, fires, before)
              && agingStates == With(old(agingStates), key, if fires then Some(MarkHealed(active.value)) else active)
    {
      state := UpdateForStage(key, record.stage, clock, before);
      state := FinishState(key, record, clock, state);
    }

    /** A record that passed the debouncer: load, update, store. */
    method Update(key: FaultKey, record: FaultRecord, clock: Clock)
      requires Valid() && key.faultId == record.id
      modifies this`agingStates, storage
      ensures Valid()
      ensures var (aging, stored) :=
                FaultProcessing.Accepted(Lookup(registry, key), At(old(agingStates), key), At(old(storage.contents), key),
                                         cycleTracker.cycles, record, clock);
              agingStates == With(old(agingStates), key, aging)
              && storage.contents == With(old(storage.contents), key, stored)
              && storage.kvs.Keys == old(storage.kvs.Keys) + (if stored.Some? then {key.source} else {})
    {
      var loaded := storage.Get(key.source, key.faultId);
      var state := if loaded.Ok? && loaded.value.Some? then loaded.value.value else DEFAULT_STATE;
      assert state == At(storage.contents, key).GetOr(DEFAULT_STATE);
      KnownPath(storage.kvs, storage.contents, key);
      state := NextState(key, record, clock, state);
      var _ := storage.Put(key.source, key.faultId, state);
    }

    /** One record moves the manager exactly as the specification says, for this and every other fault. */
    method ProcessRecord(path: string, record: FaultRecord, clock: Clock)
      requires Valid()
      modifies this, storage
      ensures Valid()
      ensures View() == StepRecord(registry, old(View()), path, record, clock)
    {
      var key := FaultKey(path, record.id);
      KnownPath(storage.kvs, storage.contents, key);
      var passes := Filter(key, record.stage, clock);
      if !passes {
        return;
      }
      Update(key, record, clock);
    }

    /** A library's catalog is the manager's exactly if the path is known and the hashes agree. */
    method CheckHashSum(path: string, hash: seq<U8>) returns (matches: bool)
      ensures matches <==> path in hashes && hashes[path] == hash
    {
      if path !in hashes {
        return false;
      }
      matches := hashes[path] == hash;
    }

    /** Clear the since-last-clear flags of every fault of the path, and nothing else. */
    method ClearDtc(path: string)
      requires Valid()
      modifies storage
      ensures Valid()
      ensures View() == Step(registry, old(View()), FaultProcessing.ClearDtc(path))
    {
      RewritePath(path, st => ClearSinceLastClear(st));
    }

    /** Clear the this-operation-cycle flags of every fault of the path, and nothing else. */
    method OnNewOperationCycle(path: string)
      requires Valid()
      modifies storage
      ensures Valid()
      ensures View() == Step(registry, old(View()), FaultProcessing.NewOperationCycle(path))
    {
      RewritePath(path, st => ClearThisCycle(st));
    }

    /** The loop both of the above run: read the path's faults, put each back changed. */
    method RewritePath(path: string, f: SovdFaultState -> SovdFaultState)
      requires Valid()
      requires forall st :: Serializable(st) ==> Serializable(f(st))
      modifies storage
      ensures Valid()
      ensures storage.contents == MapPath(old(storage.contents), path, f) && storage.kvs.Keys == old(storage.kvs.Keys)
    {
      ghost var before := storage.contents;
      StoredIsSerializable(storage.kvs, before);
      var faults := storage.GetAll(path);
      var list := faults.value;
      assert Rewritten(before, path, list, 0, f) == before;
      for i := 0 to |list|
        invariant Valid()
        invariant storage.contents == Rewritten(before, path, list, i, f)
        invariant storage.kvs.Keys == old(storage.kvs.Keys)
      {
        KnownPath(old(storage.kvs), before, FaultKey(path, list[i].0));
        RewriteNext(before, path, list, i, f);
        var _ := storage.Put(path, list[i].0, f(list[i].1));
      }
      RewriteAll(before, path, list, f);
    }
  }

  /** The store after the first `n` listed faults of the path were put back changed. */
  ghost function Rewritten(before: map<FaultKey, SovdFaultState>, path: string, list: seq<(FaultId, SovdFaultState)>,
                           n: nat, f: SovdFaultState -> SovdFaultState): map<FaultKey, SovdFaultState>
    requires n <= |list|
  {
    map k | k in before ::
      if k.source == path && (exists j :: 0 <= j < n && list[j].0 == k.faultId) then f(before[k]) else before[k]
  }

  lemma RewriteNext(before: map<FaultKey, SovdFaultState>, path: string, list: seq<(FaultId, SovdFaultState)>,
                    n: nat, f: SovdFaultState -> SovdFaultState)
    requires n < |list| && Lists(before, path, list)
    requires forall k :: k in before ==> Serializable(before[k])
    requires forall st :: Serializable(st) ==> Serializable(f(st))
    ensures Rewritten(before, path, list, n, f)[FaultKey(path, list[n].0) := f(list[n].1)]
            == Rewritten(before, path, list, n + 1, f)
    ensures Serializable(f(list[n].1))
  {
    assert list[n].1 == before[FaultKey(path, list[n].0)];
  }

  lemma RewriteAll(before: map<FaultKey, SovdFaultState>, path: string, list: seq<(FaultId, SovdFaultState)>,
                   f: SovdFaultState -> SovdFaultState)
    requires Lists(before, path, list)
    ensures Rewritten(before, path, list, |list|, f) == MapPath(before, path, f)
  {
    forall k | k in before && k.source == path
      ensures exists j :: 0 <= j < |list| && list[j].0 == k.faultId
    {
      assert FaultKey(path, k.faultId) == k;
    }
  }
}
