/**
 Enabling conditions on both sides: the manager object of each fault library and the registry of
 the diagnostic fault manager.
 */
module EnablingConditions {
  import opened Basics
  import opened Faults
  import opened StorageKeys
  import opened DiagnosticEvents
  import opened Reporter

  type Statuses = map<string, EnablingConditionStatus>

  datatype EnablingConditionError = EntityTooLong | AlreadyRegistered(entity: string)

  /** A registered callback and the conditions it watches. */
  datatype Monitor = Monitor(id: nat, conditionIds: seq<string>)

  datatype Call = Call(monitor: nat, condition: string, status: EnablingConditionStatus)

  /** One fault library: its view, its monitors, what it has yet to get through to the manager, and the calls made. */
  datatype Client = Client(
    conditions: Statuses,
    monitors: seq<Monitor>,
    nextMonitor: nat,
    outbox: seq<DiagnosticEvent>,
    calls: seq<Call>)

  const NEW_CLIENT := Client(map[], [], 0, [], [])

  function StatusOf(s: Statuses, id: string): Option<EnablingConditionStatus> {
    if id in s then Some(s[id]) else None
  }

  /** The calls of one change: each monitor that watches the condition, in order of registration. */
  function Dispatched(monitors: seq<Monitor>, id: string, status: EnablingConditionStatus): seq<Call> {
    if monitors == [] then []
    else
      var m := monitors[|monitors| - 1];
      Dispatched(monitors[..|monitors| - 1], id, status) + if id in m.conditionIds then [Call(m.id, id, status)] else []
  }

  function Without(monitors: seq<Monitor>, id: nat): seq<Monitor> {
    if monitors == [] then []
    else
      var m := monitors[|monitors| - 1];
      Without(monitors[..|monitors| - 1], id) + if m.id != id then [m] else []
  }

  /** Send, if there is a sink and it takes the message. */
  function Send(c: Client, event: DiagnosticEvent, sink: Option<SinkResult>): Client {
    if sink == Some(Accepted) then c.(outbox := c.outbox + [event]) else c
  }

  function RegisterStep(c: Client, entity: string, sink: Option<SinkResult>): (Result<ShortString, EnablingConditionError>, Client) {
    var id := ToShortString(entity);
    if id.None? then (Err(EntityTooLong), c)
    else if entity in c.conditions then (Err(AlreadyRegistered(entity)), c)
    else (Ok(id.value), Send(c.(conditions := c.conditions[entity := Inactive]), EnablingConditionRegister(id.value), sink))
  }

  /** A new status is stored and dispatched; a known one is ignored. */
  function Learn(c: Client, id: string, status: EnablingConditionStatus): Client {
    if StatusOf(c.conditions, id) == Some(status) then c
    else c.(conditions := c.conditions[id := status], calls := c.calls + Dispatched(c.monitors, id, status))
  }

  function ReportStep(c: Client, id: ShortString, status: EnablingConditionStatus, sink: Option<SinkResult>): Client {
    if StatusOf(c.conditions, id) == Some(status) then c
    else Send(Learn(c, id, status), EnablingConditionStatusChange(id, status), sink)
  }

  function AddMonitor(c: Client, conditionIds: seq<string>): Client {
    c.(monitors := c.monitors + [Monitor(c.nextMonitor, conditionIds)], nextMonitor := c.nextMonitor + 1)
  }

  // ---------------------------------------------------------------- monitors by position

  /** The calls are those of the monitors that watch the condition, each once, in order of registration. */
  predicate WatchingAt(monitors: seq<Monitor>, id: string, status: EnablingConditionStatus, calls: seq<Call>, positions: seq<nat>) {
    && Increasing(positions, |monitors|) && |positions| == |calls|
    && (forall j :: 0 <= j < |positions| ==> calls[j] == Call(monitors[positions[j]].id, id, status))
    && (forall i :: 0 <= i < |monitors| ==> (i in positions <==> id in monitors[i].conditionIds))
  }

  ghost predicate CallsWatching(monitors: seq<Monitor>, id: string, status: EnablingConditionStatus, calls: seq<Call>) {
    exists positions :: WatchingAt(monitors, id, status, calls, positions)
  }

  lemma NotWatching(monitors: seq<Monitor>, id: string, status: EnablingConditionStatus, calls: seq<Call>, positions: seq<nat>,
                    m: Monitor)
    requires WatchingAt(monitors, id, status, calls, positions) && id !in m.conditionIds
    ensures WatchingAt(monitors + [m], id, status, calls, positions)
  {
  }

  lemma Watching(monitors: seq<Monitor>, id: string, status: EnablingConditionStatus, calls: seq<Call>, positions: seq<nat>,
                 m: Monitor)
    requires WatchingAt(monitors, id, status, calls, positions) && id in m.conditionIds
    ensures WatchingAt(monitors + [m], id, status, calls + [Call(m.id, id, status)], positions + [|monitors|])
  {
    var all, more := monitors + [m], positions + [|monitors|];
    forall i | 0 <= i < |all|
      ensures i in more <==> id in all[i].conditionIds
    {
      if i < |monitors| {
        assert i in more <==> i in positions;
      } else {
        assert more[|positions|] == i;
      }
    }
  }

  /** A change calls exactly the monitors that watch it. */
  lemma {:induction false} DispatchedWatching(monitors: seq<Monitor>, id: string, status: EnablingConditionStatus)
    returns (positions: seq<nat>)
    ensures WatchingAt(monitors, id, status, Dispatched(monitors, id, status), positions)
  {
    if monitors == [] {
      positions := [];
    } else {
      var front, m := monitors[..|monitors| - 1], monitors[|monitors| - 1];
      positions := DispatchedWatching(front, id, status);
      assert monitors == front + [m];
      if id in m.conditionIds {
        Watching(front, id, status, Dispatched(front, id, status), positions, m);
        positions := positions + [|front|];
      } else {
        NotWatching(front, id, status, Dispatched(front, id, status), positions, m);
        assert Dispatched(monitors, id, status) == Dispatched(front, id, status);
      }
    }
  }

  /** Removing a number keeps every monitor of another number, in order, and no other. */
  predicate KeptAt(monitors: seq<Monitor>, id: nat, kept: seq<Monitor>, positions: seq<nat>) {
    && Increasing(positions, |monitors|) && |positions| == |kept|
    && (forall j :: 0 <= j < |positions| ==> kept[j] == monitors[positions[j]])
    && (forall i :: 0 <= i < |monitors| ==> (i in positions <==> monitors[i].id != id))
  }

  ghost predicate KeepsOthers(monitors: seq<Monitor>, id: nat, kept: seq<Monitor>) {
    exists positions :: KeptAt(monitors, id, kept, positions)
  }

  lemma NotKept(monitors: seq<Monitor>, id: nat, kept: seq<Monitor>, positions: seq<nat>, m: Monitor)
    requires KeptAt(monitors, id, kept, positions) && m.id == id
    ensures KeptAt(monitors + [m], id, kept, positions)
  {
  }

  lemma Kept(monitors: seq<Monitor>, id: nat, kept: seq<Monitor>, positions: seq<nat>, m: Monitor)
    requires KeptAt(monitors, id, kept, positions) && m.id != id
    ensures KeptAt(monitors + [m], id, kept + [m], positions + [|monitors|])
  {
    var all, more := monitors + [m], positions + [|monitors|];
    forall i | 0 <= i < |all|
      ensures i in more <==> all[i].id != id
    {
      if i < |monitors| {
        assert i in more <==> i in positions;
      } else {
        assert more[|positions|] == i;
      }
    }
  }

  lemma {:induction false} WithoutKeepsOthers(monitors: seq<Monitor>, id: nat) returns (positions: seq<nat>)
    ensures KeptAt(monitors, id, Without(monitors, id), positions)
  {
    if monitors == [] {
      positions := [];
    } else {
      var front, m := monitors[..|monitors| - 1], monitors[|monitors| - 1];
      positions := WithoutKeepsOthers(front, id);
      assert monitors == front + [m];
      if m.id != id {
        Kept(front, id, Without(front, id), positions, m);
        positions := positions + [|front|];
      } else {
        NotKept(front, id, Without(front, id), positions, m);
        assert Without(monitors, id) == Without(front, id);
      }
    }
  }

  class EnablingConditionManager {
    var conditions: Statuses
    var monitors: seq<Monitor>
    var nextMonitor: nat
    var outbox: seq<DiagnosticEvent>
    var calls: seq<Call>

    ghost function View(): Client
      reads this
    {
      Client(conditions, monitors, nextMonitor, outbox, calls)
    }

    constructor ()
      ensures View() == NEW_CLIENT
    {
      conditions, monitors, nextMonitor, outbox, calls := map[], [], 0, [], [];
    }

    /** A new condition starts inactive and is announced; nobody is called. */
    method RegisterCondition(entity: string, sink: Option<SinkResult>) returns (r: Result<ShortString, EnablingConditionError>)
      modifies this
      ensures (r, View()) == RegisterStep(old(View()), entity, sink)
      ensures r.Err? ==> View() == old(View())
      ensures |entity| > 64 || !IsAscii(entity) ==> r == Err(EntityTooLong)
      ensures |entity| <= 64 && IsAscii(entity) ==> if entity in old(conditions) then r == Err(AlreadyRegistered(entity)) else r == Ok(entity)
      ensures r.Ok? ==>
                && conditions == old(conditions)[entity := Inactive]
                && outbox == old(outbox) + (if sink == Some(Accepted) then [EnablingConditionRegister(entity)] else [])
                && calls == old(calls) && monitors == old(monitors) && nextMonitor == old(nextMonitor)
    {
      var id := ToShortString(entity);
      if id.None? {
        return Err(EntityTooLong);
      }
      if entity in conditions {
        return Err(AlreadyRegistered(entity));
      }
      conditions := conditions[entity := Inactive];
      if sink == Some(Accepted) {
        outbox := outbox + [EnablingConditionRegister(id.value)];
      }
      r := Ok(id.value);
    }

    /** The local view and the monitors come first; a refusal by the sink does not undo them. */
    method ReportStatus(id: ShortString, status: EnablingConditionStatus, sink: Option<SinkResult>) returns (r: SinkResult)
      modifies this
      ensures View() == ReportStep(old(View()), id, status, sink)
      ensures r == if StatusOf(old(conditions), id) == Some(status) || sink.None? then Accepted else sink.value
      ensures id in old(conditions) && old(conditions)[id] == status ==> View() == old(View())
      ensures !(id in old(conditions) && old(conditions)[id] == status) ==>
                && conditions == old(conditions)[id := status]
                && outbox == old(outbox) + (if sink == Some(Accepted) then [EnablingConditionStatusChange(id, status)] else [])
                && old(calls) <= calls && CallsWatching(old(monitors), id, status, calls[|old(calls)|..])
                && monitors == old(monitors) && nextMonitor == old(nextMonitor)
    {
      if id in conditions {
        if conditions[id] == status {
          return Accepted;
        }
        conditions := conditions[id := status];
      } else {
        conditions := conditions[id := status];
      }
      DispatchToMonitors(id, status);
      match sink
      case None => return Accepted;
      case Some(answer) =>
        if answer.Accepted? {
          outbox := outbox + [EnablingConditionStatusChange(id, status)];
        }
        return answer;
    }

    method HandleRemoteNotification(id: ShortString, status: EnablingConditionStatus)
      modifies this
      ensures View() == Learn(old(View()), id, status)
      ensures id in old(conditions) && old(conditions)[id] == status ==> View() == old(View())
      ensures !(id in old(conditions) && old(conditions)[id] == status) ==>
                && conditions == old(conditions)[id := status] && outbox == old(outbox)
                && old(calls) <= calls && CallsWatching(old(monitors), id, status, calls[|old(calls)|..])
                && monitors == old(monitors) && nextMonitor == old(nextMonitor)
    {
      if id in conditions {
        if conditions[id] == status {
          return;
        }
        conditions := conditions[id := status];
      } else {
        conditions := conditions[id := status];
      }
      DispatchToMonitors(id, status);
    }

    method RegisterMonitor(conditionIds: seq<string>) returns (id: nat)
      modifies this
      ensures View() == AddMonitor(old(View()), conditionIds) && id == old(nextMonitor)
      ensures monitors == old(monitors) + [Monitor(id, conditionIds)] && nextMonitor == id + 1
      ensures conditions == old(conditions) && outbox == old(outbox) && calls == old(calls)
    {
      id := nextMonitor;
      nextMonitor := nextMonitor + 1;
      monitors := monitors + [Monitor(id, conditionIds)];
    }

    method UnregisterMonitor(id: nat)
      modifies this
      ensures View() == old(View()).(monitors := Without(old(monitors), id))
      ensures KeepsOthers(old(monitors), id, monitors)
    {
      ghost var _ := WithoutKeepsOthers(monitors, id);
      var kept: seq<Monitor> := [];
      for i := 0 to |monitors|
        invariant kept == Without(monitors[..i], id)
      {
        assert monitors[..i + 1][..i] == monitors[..i];
        if monitors[i].id != id {
          kept := kept + [monitors[i]];
        }
      }
      assert monitors[..|monitors|] == monitors;
      monitors := kept;
    }

    method DispatchToMonitors(id: string, status: EnablingConditionStatus)
      modifies this`calls
      ensures calls == old(calls) + Dispatched(monitors, id, status)
      ensures CallsWatching(monitors, id, status, calls[|old(calls)|..])
    {
      ghost var _ := DispatchedWatching(monitors, id, status);
      var watching: seq<Monitor> := [];
      ghost var made: seq<Call> := [];
      for i := 0 to |monitors|
        invariant |made| == |watching| && forall j :: 0 <= j < |made| ==> made[j] == Call(watching[j].id, id, status)
        invariant made == Dispatched(monitors[..i], id, status)
      {
        assert monitors[..i + 1][..i] == monitors[..i];
        if id in monitors[i].conditionIds {
          watching := watching + [monitors[i]];
          made := made + [Call(monitors[i].id, id, status)];
        }
      }
      assert monitors[..|monitors|] == monitors;
      for i := 0 to |watching|
        invariant calls == old(calls) + made[..i]
      {
        calls := calls + [Call(watching[i].id, id, status)];
      }
      assert made[..|watching|] == made;
    }
  }

  // ---------------------------------------------------------------- the registry

  /** The registry after a status report, and what it broadcasts. */
  function Updated(registry: Statuses, id: string, status: EnablingConditionStatus): (Statuses, Option<EnablingConditionStatus>) {
    if StatusOf(registry, id) == Some(status) then (registry, None) else (registry[id := status], Some(status))
  }

  function Registered(registry: Statuses, id: string): Statuses {
    if id in registry then registry else registry[id := Inactive]
  }

  /** The registry after one message, and the notification it publishes, if any. */
  function RegistryReacts(registry: Statuses, event: DiagnosticEvent): (Statuses, seq<EnablingConditionNotification>) {
    match event
    case EnablingConditionRegister(entity) => (Registered(registry, entity), [])
    case EnablingConditionStatusChange(id, status) =>
      var (after, changed) := Updated(registry, id, status);
      (after, if changed.None? then [] else [EnablingConditionNotification(id, changed.value)])
    case _ => (registry, [])
  }

  class EnablingConditionRegistry {
    var conditions: Statuses

    constructor ()
      ensures conditions == map[]
    {
      conditions := map[];
    }

    method Register(entity: string) returns (status: EnablingConditionStatus)
      modifies this
      ensures conditions == Registered(old(conditions), entity)
      ensures conditions == if entity in old(conditions) then old(conditions) else old(conditions)[entity := Inactive]
      ensures status == conditions[entity]
    {
      if entity in conditions {
        return conditions[entity];
      }
      status := Inactive;
      conditions := conditions[entity := status];
    }

    method UpdateStatus(entity: string, status: EnablingConditionStatus) returns (changed: Option<EnablingConditionStatus>)
      modifies this
      ensures (conditions, changed) == Updated(old(conditions), entity, status)
      ensures entity in old(conditions) && old(conditions)[entity] == status ==> conditions == old(conditions) && changed == None
      ensures !(entity in old(conditions) && old(conditions)[entity] == status) ==>
                conditions == old(conditions)[entity := status] && changed == Some(status)
    {
      if entity in conditions {
        if conditions[entity] == status {
          return None;
        }
        conditions := conditions[entity := status];
        changed := Some(status);
      } else {
        conditions := conditions[entity := status];
        changed := Some(status);
      }
    }
  }

  // ---------------------------------------------------------------- alternation

  predicate Alternates(statuses: seq<EnablingConditionStatus>) {
    forall i :: 0 < i < |statuses| ==> statuses[i - 1] != statuses[i]
  }

  function BroadcastsOf(log: seq<EnablingConditionNotification>, id: string): seq<EnablingConditionStatus> {
    if log == [] then []
    else BroadcastsOf(log[..|log| - 1], id) + if log[|log| - 1].id == id then [log[|log| - 1].status] else []
  }

  /** The broadcasts of a condition alternate and end at its status; before the first, it is not active. */
  predicate LogFits(registry: Statuses, log: seq<EnablingConditionNotification>, id: string) {
    var b := BroadcastsOf(log, id);
    && Alternates(b)
    && if b == [] then StatusOf(registry, id) != Some(Active) else StatusOf(registry, id) == Some(b[|b| - 1])
  }

  lemma BroadcastsSnoc(log: seq<EnablingConditionNotification>, m: EnablingConditionNotification, id: string)
    ensures BroadcastsOf(log + [m], id) == BroadcastsOf(log, id) + if m.id == id then [m.status] else []
  {
    assert (log + [m])[..|log|] == log;
  }

  lemma ChangeFits(registry: Statuses, log: seq<EnablingConditionNotification>, m: EnablingConditionNotification, id: string)
    requires LogFits(registry, log, id) && StatusOf(registry, m.id) != Some(m.status)
    ensures LogFits(registry[m.id := m.status], log + [m], id)
  {
    BroadcastsSnoc(log, m, id);
  }

  /** One message keeps the log of broadcasts alternating. */
  lemma ReactionFits(registry: Statuses, log: seq<EnablingConditionNotification>, event: DiagnosticEvent, id: string)
    requires LogFits(registry, log, id)
    ensures var (after, sent) := RegistryReacts(registry, event); LogFits(after, log + sent, id)
  {
    assert log + [] == log;
    match event
    case EnablingConditionStatusChange(id', status) =>
      if StatusOf(registry, id') != Some(status) {
        ChangeFits(registry, log, EnablingConditionNotification(id', status), id);
      }
    case _ =>
  }
}
