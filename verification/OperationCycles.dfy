/** Named operation-cycle counters that drive fault aging. */
module OperationCycles {
  import opened Basics

  datatype CycleEventType = Start | Stop | Restart
  datatype CycleEvent = CycleEvent(cycleId: string, eventType: CycleEventType)

  type CycleCounts = map<string, U64>

  function Count(cycles: CycleCounts, name: string): U64 {
    if name in cycles then cycles[name] else 0
  }

  function IncrementCount(cycles: CycleCounts, name: string): CycleCounts {
    cycles[name := Min(Count(cycles, name) + 1, U64_MAX)]
  }

  predicate Counts(e: CycleEvent) {
    e.eventType.Start? || e.eventType.Restart?
  }

  function ApplyBatch(cycles: CycleCounts, events: seq<CycleEvent>): CycleCounts {
    if events == [] then cycles
    else
      var before := ApplyBatch(cycles, events[..|events| - 1]);
      if Counts(events[|events| - 1]) then IncrementCount(before, events[|events| - 1].cycleId) else before
  }

  /** The names that were incremented, in order and with repetitions. */
  function Incremented(events: seq<CycleEvent>): seq<string> {
    if events == [] then []
    else Incremented(events[..|events| - 1])
         + if Counts(events[|events| - 1]) then [events[|events| - 1].cycleId] else []
  }

  /** How often a batch advances the named counter. */
  function Ticks(events: seq<CycleEvent>, name: string): nat {
    if events == [] then 0
    else Ticks(events[..|events| - 1], name)
         + if Counts(events[|events| - 1]) && events[|events| - 1].cycleId == name then 1 else 0
  }

  // ---------------------------------------------------------------- by position

  /** The positions at which a batch starts or restarts the named cycle. */
  function Advances(events: seq<CycleEvent>, name: string): set<nat> {
    set i | 0 <= i < |events| && events[i].cycleId == name
            && (events[i].eventType == Start || events[i].eventType == Restart)
  }

  /** The ticks of a batch are its starts and restarts of that cycle. */
  lemma {:induction false} TicksArePositions(events: seq<CycleEvent>, name: string)
    ensures Ticks(events, name)
            == |set i | 0 <= i < |events| && events[i].cycleId == name
                        && (events[i].eventType == Start || events[i].eventType == Restart)|
  {
    if events != [] {
      var n := |events| - 1;
      TicksArePositions(events[..n], name);
      assert Advances(events, name) == Advances(events[..n], name) + if n in Advances(events, name) then {n} else {};
      assert Ticks(events[..n], name) == |Advances(events[..n], name)|;
      assert Ticks(events, name) == |Advances(events, name)|;
    }
  }

  /** The names are those of the starts and restarts of the batch, in order. */
  predicate NamedAt(events: seq<CycleEvent>, positions: seq<nat>, names: seq<string>) {
    && Increasing(positions, |events|) && |positions| == |names|
    && (forall j :: 0 <= j < |positions| ==> names[j] == events[positions[j]].cycleId)
    && (forall i :: 0 <= i < |events| ==>
          (i in positions <==> events[i].eventType == Start || events[i].eventType == Restart))
  }

  lemma NamedAfterStop(events: seq<CycleEvent>, positions: seq<nat>, names: seq<string>, e: CycleEvent)
    requires NamedAt(events, positions, names) && e.eventType == Stop
    ensures NamedAt(events + [e], positions, names)
  {
  }

  lemma NamedAfterStart(events: seq<CycleEvent>, positions: seq<nat>, names: seq<string>, e: CycleEvent)
    requires NamedAt(events, positions, names) && e.eventType != Stop
    ensures NamedAt(events + [e], positions + [|events|], names + [e.cycleId])
  {
    var all, more := events + [e], positions + [|events|];
    forall i | 0 <= i < |all|
      ensures i in more <==> all[i].eventType == Start || all[i].eventType == Restart
    {
      if i < |events| {
        assert i in more <==> i in positions;
      } else {
        assert more[|positions|] == i;
      }
    }
  }

  /** The names a batch increments are those of its starts and restarts, in order. */
  lemma {:induction false} NamesArePositions(events: seq<CycleEvent>) returns (positions: seq<nat>)
    ensures NamedAt(events, positions, Incremented(events))
  {
    if events == [] {
      positions := [];
    } else {
      var front, e := events[..|events| - 1], events[|events| - 1];
      positions := NamesArePositions(front);
      assert events == front + [e];
      if e.eventType == Stop {
        NamedAfterStop(front, positions, Incremented(front), e);
      } else {
        NamedAfterStart(front, positions, Incremented(front), e);
        positions := positions + [|front|];
      }
    }
  }

  class OperationCycleTracker {
    var cycles: CycleCounts

    constructor ()
      ensures cycles == map[]
    {
      cycles := map[];
    }

    method Increment(name: string) returns (count: U64)
      modifies this
      ensures cycles == IncrementCount(old(cycles), name) && count == cycles[name]
    {
      if name !in cycles {
        cycles := cycles[name := 0];
      }
      cycles := cycles[name := if cycles[name] == U64_MAX then U64_MAX else cycles[name] + 1];
      count := cycles[name];
    }

    method Get(name: string) returns (count: U64)
      ensures count == Count(cycles, name)
    {
      count := if name in cycles then cycles[name] else 0;
    }

    method Snapshot() returns (snapshot: CycleCounts)
      ensures snapshot == cycles
    {
      snapshot := cycles;
    }

    /** Every Start and every Restart raises its own counter, in order; a Stop raises none. */
    method ApplyEvents(events: seq<CycleEvent>) returns (incremented: seq<string>)
      modifies this
      ensures cycles == ApplyBatch(old(cycles), events)
      ensures forall name :: Count(cycles, name) ==
                Min(Count(old(cycles), name)
                    + |set i | 0 <= i < |events| && events[i].cycleId == name
                               && (events[i].eventType == Start || events[i].eventType == Restart)|, U64_MAX)
      ensures exists positions :: NamedAt(events, positions, incremented)
    {
      incremented := [];
      for i := 0 to |events|
        invariant cycles == ApplyBatch(old(cycles), events[..i])
        invariant incremented == Incremented(events[..i])
      {
        assert events[..i + 1][..i] == events[..i];
        match events[i].eventType
        case Start | Restart =>
          var _ := Increment(events[i].cycleId);
          incremented := incremented + [events[i].cycleId];
        case Stop =>
      }
      assert events[..|events|] == events;
      forall name
        ensures Count(cycles, name) == Min(Count(old(cycles), name) + |Advances(events, name)|, U64_MAX)
      {
        ApplyCounts(old(cycles), events, name, Count(old(cycles), name));
        TicksArePositions(events, name);
        assert Advances(events, name)
               == set i | 0 <= i < |events| && events[i].cycleId == name
                          && (events[i].eventType == Start || events[i].eventType == Restart);
      }
      ghost var positions := NamesArePositions(events);
    }
  }

  /** A batch moves each counter by its ticks, saturating at the top of the 64-bit range. */
  lemma {:induction false} ApplyCounts(cycles: CycleCounts, events: seq<CycleEvent>, name: string, before: nat)
    requires Count(cycles, name) == Saturated(before, U64_MAX)
    ensures Count(ApplyBatch(cycles, events), name) == Saturated(before + Ticks(events, name), U64_MAX)
  {
    if events != [] {
      ApplyCounts(cycles, events[..|events| - 1], name, before);
    }
  }
}
