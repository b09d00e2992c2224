/** The receive loop of the diagnostic fault manager. */
module DfmLoop {
  import opened Basics
  import opened Faults
  import opened OperationCycles
  import opened Storage
  import opened FaultProcessing
  import opened QueryServer
  import P = FaultRecordProcessor
  import opened DiagnosticEvents
  import opened EnablingConditions

  /**
   One turn: is the transport alive, what the cycle provider polled, what was received, with the
   clock, and the pending queries of tools.
   */
  datatype Turn = Turn(
    alive: bool,
    cycleEvents: seq<CycleEvent>,
    received: seq<(DiagnosticEvent, Clock)>,
    queries: seq<DfmQueryRequest>)

  /** A fault event is a step of the manager; the other messages are none. */
  function MessageSteps(event: DiagnosticEvent, clock: Clock): seq<DfmEvent> {
    if event.Fault? then [Record(event.path, event.record, clock)] else []
  }

  function FaultSteps(received: seq<(DiagnosticEvent, Clock)>): seq<DfmEvent> {
    if received == [] then []
    else
      var (event, clock) := received[|received| - 1];
      FaultSteps(received[..|received| - 1]) + MessageSteps(event, clock)
  }

  function CycleSteps(cycleEvents: seq<CycleEvent>): seq<DfmEvent> {
    if cycleEvents == [] then [] else [Cycles(cycleEvents)]
  }

  /** Cycle events come before anything received in the same turn, and queries after it. */
  function TurnSteps(t: Turn): seq<DfmEvent> {
    CycleSteps(t.cycleEvents) + FaultSteps(t.received) + AllRequestSteps(t.queries)
  }

  /** The turns up to the first at which the transport is gone. */
  function LoopSteps(turns: seq<Turn>): seq<DfmEvent> {
    if turns == [] || !turns[0].alive then [] else TurnSteps(turns[0]) + LoopSteps(turns[1..])
  }

  function StepAll(registry: CatalogRegistry, s: Dfm, es: seq<DfmEvent>): Dfm {
    if es == [] then s else Step(registry, StepAll(registry, s, es[..|es| - 1]), es[|es| - 1])
  }

  function EcSteps(ec: Statuses, received: seq<(DiagnosticEvent, Clock)>): (Statuses, seq<EnablingConditionNotification>) {
    if received == [] then (ec, [])
    else
      var (before, sent) := EcSteps(ec, received[..|received| - 1]);
      var (after, more) := RegistryReacts(before, received[|received| - 1].0);
      (after, sent + more)
  }

  function EcLoop(ec: Statuses, turns: seq<Turn>): (Statuses, seq<EnablingConditionNotification>)
    decreases |turns|
  {
    if turns == [] || !turns[0].alive then (ec, [])
    else
      var (middle, first) := EcSteps(ec, turns[0].received);
      var (after, rest) := EcLoop(middle, turns[1..]);
      (after, first + rest)
  }

  /** The answer to a library that asks whether its catalog is the manager's. */
  function HashAnswer(hashes: map<string, seq<U8>>, event: DiagnosticEvent): seq<bool> {
    if event.HashCheck? then [event.path in hashes && hashes[event.path] == event.hash] else []
  }

  function HashAnswers(hashes: map<string, seq<U8>>, received: seq<(DiagnosticEvent, Clock)>): seq<bool> {
    if received == [] then []
    else HashAnswers(hashes, received[..|received| - 1]) + HashAnswer(hashes, received[|received| - 1].0)
  }

  function LoopHashAnswers(hashes: map<string, seq<U8>>, turns: seq<Turn>): seq<bool> {
    if turns == [] || !turns[0].alive then []
    else HashAnswers(hashes, turns[0].received) + LoopHashAnswers(hashes, turns[1..])
  }

  lemma NextMessage(ec: Statuses, hashes: map<string, seq<U8>>, received: seq<(DiagnosticEvent, Clock)>, i: nat)
    requires i < |received|
    ensures FaultSteps(received[..i + 1]) == FaultSteps(received[..i]) + MessageSteps(received[i].0, received[i].1)
    ensures HashAnswers(hashes, received[..i + 1]) == HashAnswers(hashes, received[..i]) + HashAnswer(hashes, received[i].0)
    ensures var (before, sent) := EcSteps(ec, received[..i]);
            var (after, more) := RegistryReacts(before, received[i].0);
            EcSteps(ec, received[..i + 1]) == (after, sent + more)
  {
    assert received[..i + 1][..i] == received[..i];
  }

  /**
   What tools are told in one turn: each answer is about the manager's state at that moment, after
   the turn's records and the deletions asked for before it.
   */
  ghost predicate TurnAnswers(registry: CatalogRegistry, s: Dfm, queries: seq<DfmQueryRequest>,
                              answers: seq<DfmQueryResponse>) {
    exists kvs :: Represents(kvs, s.stored) && kvs.Keys == s.paths && AnswersAll(registry, kvs, queries, answers)
  }

  /** The manager's state when the queries of a turn are read. */
  function BeforeQueries(registry: CatalogRegistry, s: Dfm, t: Turn): Dfm {
    StepAll(registry, s, CycleSteps(t.cycleEvents) + FaultSteps(t.received))
  }

  ghost predicate LoopAnswers(registry: CatalogRegistry, s: Dfm, turns: seq<Turn>,
                              answers: seq<DfmQueryResponse>)
    decreases |turns|
  {
    if turns == [] || !turns[0].alive then answers == []
    else
      var n := |turns[0].queries|;
      && n <= |answers|
      && TurnAnswers(registry, BeforeQueries(registry, s, turns[0]), turns[0].queries, answers[..n])
      && LoopAnswers(registry, StepAll(registry, s, TurnSteps(turns[0])), turns[1..], answers[n..])
  }

  predicate OnlyDeletions(steps: seq<DfmEvent>) {
    forall i :: 0 <= i < |steps| ==> steps[i].DeleteFault? || steps[i].DeleteAllFaults?
  }

  lemma {:induction false} RequestsOnlyDelete(requests: seq<DfmQueryRequest>)
    ensures OnlyDeletions(AllRequestSteps(requests))
  {
    if requests != [] {
      RequestsOnlyDelete(requests[..|requests| - 1]);
    }
  }

  /** Deletions leave everything but the stored states alone: the aging entries too. */
  lemma {:induction false} DeletionsOnlyStore(registry: CatalogRegistry, s: Dfm, steps: seq<DfmEvent>)
    requires OnlyDeletions(steps)
    ensures StepAll(registry, s, steps) == s.(stored := AfterSteps(s.stored, steps), paths := PathsAfter(s.paths, steps))
  {
    if steps != [] {
      DeletionsOnlyStore(registry, s, steps[..|steps| - 1]);
    }
  }

  function PathsAfter(paths: set<string>, steps: seq<DfmEvent>): set<string> {
    if steps == [] then paths
    else
      var before := PathsAfter(paths, steps[..|steps| - 1]);
      if steps[|steps| - 1].DeleteAllFaults? then before - {steps[|steps| - 1].path} else before
  }

  lemma {:induction false} KeysAfterAll(kvs: Kvs, steps: seq<DfmEvent>)
    ensures KvsAfterAll(kvs, steps).Keys == PathsAfter(kvs.Keys, steps)
  {
    if steps != [] {
      KeysAfterAll(kvs, steps[..|steps| - 1]);
    }
  }

  // ---------------------------------------------------------------- broadcasts of the loop

  lemma {:induction false} EcStepsFit(ec: Statuses, log: seq<EnablingConditionNotification>,
                                      received: seq<(DiagnosticEvent, Clock)>, id: string)
    requires LogFits(ec, log, id)
    ensures var (after, sent) := EcSteps(ec, received); LogFits(after, log + sent, id)
  {
    if received == [] {
      assert log + [] == log;
    } else {
      var front := received[..|received| - 1];
      EcStepsFit(ec, log, front, id);
      var (before, sent) := EcSteps(ec, front);
      var event := received[|received| - 1].0;
      ReactionFits(before, log + sent, event, id);
      Regroup(log, sent, RegistryReacts(before, event).1);
    }
  }

  lemma {:induction false} EcLoopFits(ec: Statuses, log: seq<EnablingConditionNotification>, turns: seq<Turn>, id: string)
    requires LogFits(ec, log, id)
    ensures var (after, sent) := EcLoop(ec, turns); LogFits(after, log + sent, id)
    decreases |turns|
  {
    if turns == [] || !turns[0].alive {
      assert log + [] == log;
    } else {
      EcStepsFit(ec, log, turns[0].received, id);
      var (middle, first) := EcSteps(ec, turns[0].received);
      EcLoopFits(middle, log + first, turns[1..], id);
      Regroup(log, first, EcLoop(middle, turns[1..]).1);
    }
  }

  /** What the loop publishes for a condition alternates and ends at the registry's status. */
  lemma NotificationsAlternate(turns: seq<Turn>, id: string)
    ensures var (after, sent) := EcLoop(map[], turns); LogFits(after, sent, id)
  {
    EcLoopFits(map[], [], turns, id);
    assert [] + EcLoop(map[], turns).1 == EcLoop(map[], turns).1;
  }

  // ---------------------------------------------------------------- the loop

  lemma {:induction false} StepAllConcat(registry: CatalogRegistry, s: Dfm, a: seq<DfmEvent>, b: seq<DfmEvent>)
    ensures StepAll(registry, s, a + b) == StepAll(registry, StepAll(registry, s, a), b)
  {
    if b == [] {
      assert a + b == a;
    } else {
      assert (a + b)[..|a + b| - 1] == a + b[..|b| - 1];
      StepAllConcat(registry, s, a, b[..|b| - 1]);
    }
  }

  /** Steps taken after a run continue the run. */
  lemma {:induction false} StepAllContinuesRun(registry: CatalogRegistry, es: seq<DfmEvent>, more: seq<DfmEvent>)
    ensures StepAll(registry, RunDfm(registry, es), more) == RunDfm(registry, es + more)
  {
    if more == [] {
      assert es + more == es;
    } else {
      assert (es + more)[..|es + more| - 1] == es + more[..|more| - 1];
      StepAllContinuesRun(registry, es, more[..|more| - 1]);
    }
  }

  // ---------------------------------------------------------------- turn by turn

  /** Where the loop stands: the manager, the conditions, and what has been published and answered. */
  datatype Standing = Standing(dfm: Dfm, ec: Statuses, notifications: seq<EnablingConditionNotification>, hashAnswers: seq<bool>)

  function AfterTurn(registry: CatalogRegistry, hashes: map<string, seq<U8>>, s: Standing, turn: Turn): Standing {
    var (ec, sent) := EcSteps(s.ec, turn.received);
    Standing(StepAll(registry, s.dfm, TurnSteps(turn)), ec, s.notifications + sent,
             s.hashAnswers + HashAnswers(hashes, turn.received))
  }

  /** All remaining turns at once. */
  function AfterTurns(registry: CatalogRegistry, hashes: map<string, seq<U8>>, s: Standing, turns: seq<Turn>): Standing {
    var (ec, sent) := EcLoop(s.ec, turns);
    Standing(StepAll(registry, s.dfm, LoopSteps(turns)), ec, s.notifications + sent,
             s.hashAnswers + LoopHashAnswers(hashes, turns))
  }

  // ---------------------------------------------------------------- message by message

  /** What one message does. Faults are processed whatever the conditions say. */
  predicate Handled(registry: CatalogRegistry, hashes: map<string, seq<U8>>, s: Standing, event: DiagnosticEvent,
                    clock: Clock, s': Standing) {
    match event
    case Fault(path, record) => s' == s.(dfm := StepRecord(registry, s.dfm, path, record, clock))
    case HashCheck(path, hash) => s' == s.(hashAnswers := s.hashAnswers + [path in hashes && hashes[path] == hash])
    case EnablingConditionRegister(entity) => s' == s.(ec := if entity in s.ec then s.ec else s.ec[entity := Inactive])
    case EnablingConditionStatusChange(id, status) =>
      if id in s.ec && s.ec[id] == status then s' == s
      else s' == s.(ec := s.ec[id := status],
                    notifications := s.notifications + [EnablingConditionNotification(id, status)])
  }

  /** All messages of a turn, each handled where the one before it left off. */
  predicate HandledInOrder(registry: CatalogRegistry, hashes: map<string, seq<U8>>,
                           received: seq<(DiagnosticEvent, Clock)>, states: seq<Standing>) {
    && |states| == |received| + 1
    && forall j :: 0 <= j < |received| ==> Handled(registry, hashes, states[j], received[j].0, received[j].1, states[j + 1])
  }

  /** A turn: the polled cycle events, then the messages, then deletions alone. */
  ghost predicate TurnTaken(registry: CatalogRegistry, hashes: map<string, seq<U8>>, s: Standing, turn: Turn, s': Standing) {
    exists states: seq<Standing> ::
      && HandledInOrder(registry, hashes, turn.received, states)
      && states[0] == s.(dfm := s.dfm.(cycles := ApplyBatch(s.dfm.cycles, turn.cycleEvents)))
      && AfterQueries(states[|turn.received|], turn.queries, s')
  }

  /** The deletions that tools ask for change the stored states, and nothing else. */
  predicate AfterQueries(s: Standing, queries: seq<DfmQueryRequest>, s': Standing) {
    && s' == s.(dfm := s.dfm.(stored := s'.dfm.stored, paths := s'.dfm.paths))
    && s'.dfm.stored == AfterSteps(s.dfm.stored, AllRequestSteps(queries))
  }

  /** One turn after the other, up to the first at which the transport is gone. */
  ghost predicate TurnsTaken(registry: CatalogRegistry, hashes: map<string, seq<U8>>, turns: seq<Turn>, states: seq<Standing>) {
    && 1 <= |states| <= |turns| + 1
    && (forall i :: 0 <= i < |states| - 1 ==> turns[i].alive && TurnTaken(registry, hashes, states[i], turns[i], states[i + 1]))
    && (|states| == |turns| + 1 || !turns[|states| - 1].alive)
  }

  /** Where the messages of a turn lead. */
  function AfterMessages(registry: CatalogRegistry, hashes: map<string, seq<U8>>, s: Standing,
                         received: seq<(DiagnosticEvent, Clock)>): Standing {
    var (ec, sent) := EcSteps(s.ec, received);
    Standing(StepAll(registry, s.dfm, FaultSteps(received)), ec, s.notifications + sent, s.hashAnswers + HashAnswers(hashes, received))
  }

  lemma NoMessages(registry: CatalogRegistry, hashes: map<string, seq<U8>>, s: Standing)
    ensures AfterMessages(registry, hashes, s, []) == s
  {
    assert s.notifications + [] == s.notifications && s.hashAnswers + [] == s.hashAnswers;
  }

  lemma MessageIsHandled(registry: CatalogRegistry, hashes: map<string, seq<U8>>, s: Standing,
                         front: seq<(DiagnosticEvent, Clock)>, event: DiagnosticEvent, clock: Clock)
    ensures Handled(registry, hashes, AfterMessages(registry, hashes, s, front), event, clock,
                    AfterMessages(registry, hashes, s, front + [(event, clock)]))
  {
    var all := front + [(event, clock)];
    assert all[..|front|] == front;
    var (ec, sent) := EcSteps(s.ec, front);
    Regroup(s.notifications, sent, RegistryReacts(ec, event).1);
    Regroup(s.hashAnswers, HashAnswers(hashes, front), HashAnswer(hashes, event));
    StepAllConcat(registry, s.dfm, FaultSteps(front), MessageSteps(event, clock));
    if event.Fault? {
      OneStep(registry, StepAll(registry, s.dfm, FaultSteps(front)), Record(event.path, event.record, clock));
    } else {
      assert FaultSteps(front) + [] == FaultSteps(front);
    }
    assert s.notifications + sent + [] == s.notifications + sent;
    assert s.hashAnswers + HashAnswers(hashes, front) + [] == s.hashAnswers + HashAnswers(hashes, front);
  }

  lemma {:induction false} MessagesAreHandled(registry: CatalogRegistry, hashes: map<string, seq<U8>>, s: Standing,
                                              received: seq<(DiagnosticEvent, Clock)>)
    returns (states: seq<Standing>)
    ensures HandledInOrder(registry, hashes, received, states)
    ensures states[0] == s && states[|received|] == AfterMessages(registry, hashes, s, received)
  {
    if received == [] {
      NoMessages(registry, hashes, s);
      states := [s];
    } else {
      var n := |received| - 1;
      var front := MessagesAreHandled(registry, hashes, s, received[..n]);
      assert received == received[..n] + [(received[n].0, received[n].1)];
      MessageIsHandled(registry, hashes, s, received[..n], received[n].0, received[n].1);
      states := front + [AfterMessages(registry, hashes, s, received)];
    }
  }

  lemma CyclesOfTurn(registry: CatalogRegistry, s: Dfm, cycleEvents: seq<CycleEvent>)
    ensures StepAll(registry, s, CycleSteps(cycleEvents)) == s.(cycles := ApplyBatch(s.cycles, cycleEvents))
  {
    if cycleEvents != [] {
      OneStep(registry, s, Cycles(cycleEvents));
    }
  }

  lemma TurnIsTaken(registry: CatalogRegistry, hashes: map<string, seq<U8>>, s: Standing, turn: Turn)
    ensures TurnTaken(registry, hashes, s, turn, AfterTurn(registry, hashes, s, turn))
  {
    var polled := s.(dfm := s.dfm.(cycles := ApplyBatch(s.dfm.cycles, turn.cycleEvents)));
    CyclesOfTurn(registry, s.dfm, turn.cycleEvents);
    var steps := AllRequestSteps(turn.queries);
    StepAllConcat(registry, s.dfm, CycleSteps(turn.cycleEvents), FaultSteps(turn.received));
    StepAllConcat(registry, s.dfm, CycleSteps(turn.cycleEvents) + FaultSteps(turn.received), steps);
    var states := MessagesAreHandled(registry, hashes, polled, turn.received);
    RequestsOnlyDelete(turn.queries);
    DeletionsOnlyStore(registry, states[|turn.received|].dfm, steps);
  }

  lemma NoTurn(registry: CatalogRegistry, hashes: map<string, seq<U8>>, turns: seq<Turn>, s: Standing)
    requires turns == [] || !turns[0].alive
    ensures TurnsTaken(registry, hashes, turns, [s])
  {
  }

  lemma TurnBefore(registry: CatalogRegistry, hashes: map<string, seq<U8>>, turns: seq<Turn>, s: Standing, rest: seq<Standing>)
    requires turns != [] && turns[0].alive && TurnsTaken(registry, hashes, turns[1..], rest)
    requires TurnTaken(registry, hashes, s, turns[0], rest[0])
    ensures TurnsTaken(registry, hashes, turns, [s] + rest)
    ensures ([s] + rest)[0] == s && ([s] + rest)[|rest|] == rest[|rest| - 1]
  {
    var states := [s] + rest;
    forall i | 0 <= i < |states| - 1
      ensures turns[i].alive && TurnTaken(registry, hashes, states[i], turns[i], states[i + 1])
    {
      if i > 0 {
        assert turns[i] == turns[1..][i - 1] && states[i] == rest[i - 1] && states[i + 1] == rest[i];
      }
    }
  }

  /** What the loop computes is the turns, taken one by one. */
  lemma {:induction false} TurnsAreTaken(registry: CatalogRegistry, hashes: map<string, seq<U8>>, s: Standing, turns: seq<Turn>)
    returns (states: seq<Standing>)
    ensures TurnsTaken(registry, hashes, turns, states)
    ensures states[0] == s && states[|states| - 1] == AfterTurns(registry, hashes, s, turns)
    decreases |turns|
  {
    if turns == [] || !turns[0].alive {
      LastTurn(registry, hashes, s, turns);
      NoTurn(registry, hashes, turns, s);
      states := [s];
    } else {
      var next := AfterTurn(registry, hashes, s, turns[0]);
      TurnIsTaken(registry, hashes, s, turns[0]);
      NextTurn(registry, hashes, s, turns);
      var rest := TurnsAreTaken(registry, hashes, next, turns[1..]);
      TurnBefore(registry, hashes, turns, s, rest);
      states := [s] + rest;
    }
  }

  lemma NextTurn(registry: CatalogRegistry, hashes: map<string, seq<U8>>, s: Standing, turns: seq<Turn>)
    requires turns != [] && turns[0].alive
    ensures AfterTurns(registry, hashes, AfterTurn(registry, hashes, s, turns[0]), turns[1..])
            == AfterTurns(registry, hashes, s, turns)
  {
    var (ec, sent) := EcSteps(s.ec, turns[0].received);
    StepAllConcat(registry, s.dfm, TurnSteps(turns[0]), LoopSteps(turns[1..]));
    Regroup(s.notifications, sent, EcLoop(ec, turns[1..]).1);
    Regroup(s.hashAnswers, HashAnswers(hashes, turns[0].received), LoopHashAnswers(hashes, turns[1..]));
  }

  lemma LastTurn(registry: CatalogRegistry, hashes: map<string, seq<U8>>, s: Standing, turns: seq<Turn>)
    requires turns == [] || !turns[0].alive
    ensures AfterTurns(registry, hashes, s, turns) == s
  {
    assert s.notifications + [] == s.notifications && s.hashAnswers + [] == s.hashAnswers;
  }

  class DfmLoop {
    const processor: P.FaultRecordProcessor
    const ecRegistry: EnablingConditionRegistry
    const queryServer: DfmQueryServer
    /** Everything published to the fault libraries and answered to tools so far. */
    var notifications: seq<EnablingConditionNotification>
    var hashAnswers: seq<bool>
    var queryAnswers: seq<DfmQueryResponse>

    /** Processor and query server work on the same store and the same catalogs. */
    ghost predicate Valid()
      reads processor, processor.storage, queryServer.manager.storage
    {
      && processor.Valid() && queryServer.manager.Valid()
      && queryServer.manager.storage == processor.storage && queryServer.manager.registry == processor.registry
    }

    ghost function Now(): Standing
      reads this, processor, processor.storage, processor.cycleTracker, ecRegistry, queryServer.manager.storage
      requires Valid()
    {
      Standing(processor.View(), ecRegistry.conditions, notifications, hashAnswers)
    }

    constructor (processor: P.FaultRecordProcessor, ecRegistry: EnablingConditionRegistry, queryServer: DfmQueryServer)
      requires processor.Valid() && queryServer.manager.Valid()
      requires queryServer.manager.storage == processor.storage && queryServer.manager.registry == processor.registry
      ensures Valid() && this.processor == processor && this.ecRegistry == ecRegistry && this.queryServer == queryServer
      ensures notifications == [] && hashAnswers == [] && queryAnswers == []
    {
      this.processor := processor;
      this.ecRegistry := ecRegistry;
      this.queryServer := queryServer;
      notifications, hashAnswers, queryAnswers := [], [], [];
    }

    /** One message; faults are processed whatever the conditions say. */
    method Handle(event: DiagnosticEvent, clock: Clock)
      requires Valid()
      modifies this`notifications, this`hashAnswers, processor, processor.storage, ecRegistry
      ensures Valid()
      ensures processor.View() == StepAll(processor.registry, old(processor.View()), MessageSteps(event, clock))
      ensures ecRegistry.conditions == RegistryReacts(old(ecRegistry.conditions), event).0
      ensures notifications == old(notifications) + RegistryReacts(old(ecRegistry.conditions), event).1
      ensures hashAnswers == old(hashAnswers) + HashAnswer(processor.hashes, event)
      ensures event.Fault? ==>
                processor.View() == StepRecord(processor.registry, old(processor.View()), event.path, event.record, clock)
      ensures !event.Fault? ==> processor.View() == old(processor.View())
      ensures event.HashCheck? ==>
                hashAnswers == old(hashAnswers) + [event.path in processor.hashes && processor.hashes[event.path] == event.hash]
      ensures !event.HashCheck? ==> hashAnswers == old(hashAnswers)
    {
      match event
      case Fault(path, record) =>
        OneStep(processor.registry, processor.View(), Record(path, record, clock));
        processor.ProcessRecord(path, record, clock);
      case EnablingConditionRegister(entity) =>
        var _ := ecRegistry.Register(entity);
      case EnablingConditionStatusChange(id, status) =>
        var changed := ecRegistry.UpdateStatus(id, status);
        if changed.Some? {
          notifications := notifications + [EnablingConditionNotification(id, changed.value)];
        }
      case HashCheck(path, hash) =>
        var matches := processor.CheckHashSum(path, hash);
        hashAnswers := hashAnswers + [matches];
    }

    /** Everything received in one turn, in order. */
    method Drain(received: seq<(DiagnosticEvent, Clock)>)
      requires Valid()
      modifies this`notifications, this`hashAnswers, processor, processor.storage, ecRegistry
      ensures Valid()
      ensures processor.View() == StepAll(processor.registry, old(processor.View()), FaultSteps(received))
      ensures ecRegistry.conditions == EcSteps(old(ecRegistry.conditions), received).0
      ensures notifications == old(notifications) + EcSteps(old(ecRegistry.conditions), received).1
      ensures hashAnswers == old(hashAnswers) + HashAnswers(processor.hashes, received)
    {
      for i := 0 to |received|
        invariant Valid()
        invariant processor.View() == StepAll(processor.registry, old(processor.View()), FaultSteps(received[..i]))
        invariant ecRegistry.conditions == EcSteps(old(ecRegistry.conditions), received[..i]).0
        invariant notifications == old(notifications) + EcSteps(old(ecRegistry.conditions), received[..i]).1
        invariant hashAnswers == old(hashAnswers) + HashAnswers(processor.hashes, received[..i])
      {
        NextMessage(old(ecRegistry.conditions), processor.hashes, received, i);
        StepAllConcat(processor.registry, old(processor.View()), FaultSteps(received[..i]),
                      MessageSteps(received[i].0, received[i].1));
        ghost var (_, sentBefore) := EcSteps(old(ecRegistry.conditions), received[..i]);
        Regroup(old(notifications), sentBefore, RegistryReacts(ecRegistry.conditions, received[i].0).1);
        Regroup(old(hashAnswers), HashAnswers(processor.hashes, received[..i]), HashAnswer(processor.hashes, received[i].0));
        Handle(received[i].0, received[i].1);
      }
      assert received[..|received|] == received;
    }

    method ApplyCycles(cycleEvents: seq<CycleEvent>)
      requires Valid()
      modifies processor.cycleTracker
      ensures Valid()
      ensures processor.View() == StepAll(processor.registry, old(processor.View()), CycleSteps(cycleEvents))
    {
      if cycleEvents != [] {
        OneStep(processor.registry, processor.View(), Cycles(cycleEvents));
        var _ := processor.cycleTracker.ApplyEvents(cycleEvents);
      }
    }

    method AnswerQueries(queries: seq<DfmQueryRequest>) returns (answers: seq<DfmQueryResponse>)
      requires Valid()
      modifies this`queryAnswers, processor.storage
      ensures Valid()
      ensures processor.View() == StepAll(processor.registry, old(processor.View()), AllRequestSteps(queries))
      ensures queryAnswers == old(queryAnswers) + answers
      ensures TurnAnswers(processor.registry, old(processor.View()), queries, answers)
    {
      RequestsOnlyDelete(queries);
      DeletionsOnlyStore(processor.registry, processor.View(), AllRequestSteps(queries));
      KeysAfterAll(processor.storage.kvs, AllRequestSteps(queries));
      ghost var kvs := processor.storage.kvs;
      assert Represents(kvs, processor.storage.contents);
      answers := queryServer.Poll(queries);
      queryAnswers := queryAnswers + answers;
      assert AnswersAll(processor.registry, kvs, queries, answers);
    }

    /** One turn is the cycle events, then the received messages, then the queries. */
    method TakeTurn(turn: Turn) returns (answers: seq<DfmQueryResponse>)
      requires Valid()
      modifies this, processor, processor.storage, processor.cycleTracker, ecRegistry
      ensures Valid()
      ensures processor.View() == StepAll(processor.registry, old(processor.View()), TurnSteps(turn))
      ensures ecRegistry.conditions == EcSteps(old(ecRegistry.conditions), turn.received).0
      ensures notifications == old(notifications) + EcSteps(old(ecRegistry.conditions), turn.received).1
      ensures hashAnswers == old(hashAnswers) + HashAnswers(processor.hashes, turn.received)
      ensures queryAnswers == old(queryAnswers) + answers && |answers| == |turn.queries|
      ensures TurnAnswers(processor.registry, BeforeQueries(processor.registry, old(processor.View()), turn), turn.queries, answers)
    {
      ghost var before := processor.View();
      StepAllConcat(processor.registry, before, CycleSteps(turn.cycleEvents), FaultSteps(turn.received));
      StepAllConcat(processor.registry, before, CycleSteps(turn.cycleEvents) + FaultSteps(turn.received),
                    AllRequestSteps(turn.queries));
      ApplyCycles(turn.cycleEvents);
      Drain(turn.received);
      answers := AnswerQueries(turn.queries);
    }

    /**
     The whole loop: the manager's state moves by exactly the steps the turns contain, the
     conditions and notifications by the messages, and every hash and every query is answered,
     until the transport is gone.
     */
    method Run(turns: seq<Turn>) returns (answers: seq<DfmQueryResponse>, ghost states: seq<Standing>)
      requires Valid()
      modifies this, processor, processor.storage, processor.cycleTracker, ecRegistry
      ensures Valid()
      ensures processor.View() == StepAll(processor.registry, old(processor.View()), LoopSteps(turns))
      ensures ecRegistry.conditions == EcLoop(old(ecRegistry.conditions), turns).0
      ensures notifications == old(notifications) + EcLoop(old(ecRegistry.conditions), turns).1
      ensures hashAnswers == old(hashAnswers) + LoopHashAnswers(processor.hashes, turns)
      ensures queryAnswers == old(queryAnswers) + answers
      ensures LoopAnswers(processor.registry, old(processor.View()), turns, answers)
      ensures TurnsTaken(processor.registry, processor.hashes, turns, states)
      ensures states[0] == old(Now()) && states[|states| - 1] == Now()
    {
      answers := [];
      states := TurnsAreTaken(processor.registry, processor.hashes, Now(), turns);
      var i := 0;
      assert turns[0..] == turns;
      NothingCompleted(processor.registry, processor.View(), turns);
      assert queryAnswers + [] == queryAnswers;
      while i < |turns|
        invariant 0 <= i <= |turns|
        invariant Valid()
        invariant AfterTurns(processor.registry, processor.hashes, Now(), turns[i..])
                  == AfterTurns(processor.registry, processor.hashes, old(Now()), turns)
        invariant queryAnswers == old(queryAnswers) + answers
        invariant Completes(processor.registry, old(processor.View()), turns, answers, processor.View(), turns[i..])
      {
        assert turns[i..][0] == turns[i] && turns[i..][1..] == turns[i + 1..];
        if !turns[i].alive {
          break;
        }
        ghost var before := Now();
        NextTurn(processor.registry, processor.hashes, before, turns[i..]);
        var told := TakeTurn(turns[i]);
        Regroup(old(queryAnswers), answers, told);
        CompletesTurn(processor.registry, old(processor.View()), turns, answers, before.dfm, turns[i..], told);
        answers := answers + told;
        i := i + 1;
      }
      LastTurn(processor.registry, processor.hashes, Now(), turns[i..]);
      AllCompleted(processor.registry, old(processor.View()), turns, answers, processor.View(), turns[i..]);
    }
  }

  /** Whatever the remaining turns answer, put after `answers` it is what all turns answer. */
  ghost predicate Completes(registry: CatalogRegistry, s: Dfm, turns: seq<Turn>, answers: seq<DfmQueryResponse>,
                            now: Dfm, remaining: seq<Turn>) {
    forall rest :: LoopAnswers(registry, now, remaining, rest) ==> LoopAnswers(registry, s, turns, answers + rest)
  }

  lemma NothingCompleted(registry: CatalogRegistry, s: Dfm, turns: seq<Turn>)
    ensures Completes(registry, s, turns, [], s, turns)
  {
    forall rest | LoopAnswers(registry, s, turns, rest)
      ensures LoopAnswers(registry, s, turns, [] + rest)
    {
      assert [] + rest == rest;
    }
  }

  lemma AllCompleted(registry: CatalogRegistry, s: Dfm, turns: seq<Turn>, answers: seq<DfmQueryResponse>,
                     now: Dfm, remaining: seq<Turn>)
    requires Completes(registry, s, turns, answers, now, remaining)
    requires remaining == [] || !remaining[0].alive
    ensures LoopAnswers(registry, s, turns, answers)
  {
    assert LoopAnswers(registry, now, remaining, []);
    assert answers + [] == answers;
  }

  lemma CompletesTurn(registry: CatalogRegistry, s: Dfm, turns: seq<Turn>, answers: seq<DfmQueryResponse>,
                      now: Dfm, remaining: seq<Turn>, told: seq<DfmQueryResponse>)
    requires Completes(registry, s, turns, answers, now, remaining) && remaining != [] && remaining[0].alive
    requires |told| == |remaining[0].queries|
    requires TurnAnswers(registry, BeforeQueries(registry, now, remaining[0]), remaining[0].queries, told)
    ensures Completes(registry, s, turns, answers + told,
                      StepAll(registry, now, TurnSteps(remaining[0])), remaining[1..])
  {
    forall rest | LoopAnswers(registry, StepAll(registry, now, TurnSteps(remaining[0])), remaining[1..], rest)
      ensures LoopAnswers(registry, s, turns, (answers + told) + rest)
    {
      assert (told + rest)[..|told|] == told && (told + rest)[|told|..] == rest;
      assert LoopAnswers(registry, now, remaining, told + rest);
      Regroup(answers, told, rest);
    }
  }

  lemma OneStep(registry: CatalogRegistry, s: Dfm, e: DfmEvent)
    ensures StepAll(registry, s, [e]) == Step(registry, s, e)
  {
    assert [e][..0] == [];
  }
}
